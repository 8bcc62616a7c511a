/** What a paged directory listing means: the filtered listing, the pages cut from it, and when the
    server's 32-bit scan really delivers those pages. */
module Listing {
  import opened Bytes

  type Name = seq<Byte>

  const SLASH: Byte := 47
  const DOT: Byte := 46

  datatype Kind = File | Directory | Link | Unknown

  datatype Entry = Entry(name: Name, kind: Kind)

  /** The outside world during one readdir call: how stat, opendir, readdir and lstat answer. */
  datatype DirEnv = DirEnv(statOk: bool, isDir: bool, opens: bool, raw: seq<Name>, lstat: Name -> Option<Kind>)

  /** The path of `name` in `dir`, with exactly one separator added if `dir` does not end in one. */
  function Base(dir: Name): Name
    requires dir != []
  {
    if dir[|dir| - 1] == SLASH then dir else dir + [SLASH]
  }

  predicate Listable(dir: Name, name: Name, lstat: Name -> Option<Kind>)
    requires dir != []
  {
    name != [DOT] && name != [DOT, DOT] && |name| < MAXNAMELEN && lstat(Base(dir) + name).Some?
  }

  /** The listable entries of a directory stream, in stream order. */
  function Listed(dir: Name, raw: seq<Name>, lstat: Name -> Option<Kind>): seq<Entry>
    requires dir != []
  {
    if raw == [] then []
    else if Listable(dir, raw[0], lstat)
    then [Entry(raw[0], lstat(Base(dir) + raw[0]).value)] + Listed(dir, raw[1..], lstat)
    else Listed(dir, raw[1..], lstat)
  }

  // ---------- Which names are listed ----------

  /** `path` is `name` inside `dir`: the two with exactly one slash between them. */
  ghost predicate PathOf(dir: Name, name: Name, path: Name)
    requires dir != []
  {
    exists stem: Name :: Stem(dir, stem) && path == stem + [47] + name
  }

  /** `stem` is `dir` without a slash at its end. */
  ghost predicate Stem(dir: Name, stem: Name)
    requires dir != []
  {
    dir == stem + [47] || (dir == stem && dir[|dir| - 1] != 47)
  }

  lemma OnlyStem(dir: Name, stem: Name)
    requires dir != []
    ensures Stem(dir, stem) ==> stem + [47] == Base(dir)
  {
    assert dir == stem + [47] ==> dir[|dir| - 1] == 47;
  }

  lemma SomeStem(dir: Name) returns (stem: Name)
    requires dir != []
    ensures Stem(dir, stem)
  {
    stem := if dir[|dir| - 1] == 47 then dir[..|dir| - 1] else dir;
    assert dir == dir[..|dir| - 1] + [dir[|dir| - 1]];
  }

  /** What makes a name appear in a listing: it is neither the directory itself nor its parent,
      its name is shorter than 1024 bytes, and it exists with that type. */
  ghost predicate Shown(dir: Name, name: Name, kind: Kind, lstat: Name -> Option<Kind>)
    requires dir != []
  {
    && name != [46] && name != [46, 46] && |name| < 1024
    && exists path :: PathOf(dir, name, path) && lstat(path) == Some(kind)
  }

  lemma PathIsBase(dir: Name, name: Name, path: Name)
    requires dir != []
    ensures PathOf(dir, name, path) <==> path == Base(dir) + name
  {
    hide Stem, Base;
    if path == Base(dir) + name {
      var stem := SomeStem(dir);
      OnlyStem(dir, stem);
    }
    if stem: Name :| Stem(dir, stem) && path == stem + [47] + name {
      OnlyStem(dir, stem);
    }
  }

  lemma ShownIsListable(dir: Name, name: Name, kind: Kind, lstat: Name -> Option<Kind>)
    requires dir != []
    ensures Shown(dir, name, kind, lstat) <==> Listable(dir, name, lstat) && lstat(Base(dir) + name) == Some(kind)
  {
    PathIsBase(dir, name, Base(dir) + name);
    hide PathOf, Base;
    if path :| PathOf(dir, name, path) && lstat(path) == Some(kind) {
      PathIsBase(dir, name, path);
    }
  }

  /** Entry `e` is the showable name at position `i` of the stream. */
  ghost predicate ComesFrom(dir: Name, raw: seq<Name>, lstat: Name -> Option<Kind>, e: Entry, i: nat)
    requires dir != []
  {
    i < |raw| && e.name == raw[i] && Shown(dir, e.name, e.kind, lstat)
  }

  /** No showable name of the stream is missing from the positions `at`. */
  ghost predicate Complete(dir: Name, raw: seq<Name>, lstat: Name -> Option<Kind>, at: seq<nat>)
    requires dir != []
  {
    forall i, kind :: 0 <= i < |raw| && Shown(dir, raw[i], kind, lstat) ==> i in at
  }

  /** `all` are exactly the showable names of the stream, each with its type, in stream order and as often as the
      stream delivers it: `at` says where in the stream each entry comes from. */
  ghost predicate Selects(dir: Name, raw: seq<Name>, lstat: Name -> Option<Kind>, all: seq<Entry>, at: seq<nat>)
    requires dir != []
  {
    && |at| == |all| && (forall k :: 0 <= k < |at| ==> ComesFrom(dir, raw, lstat, all[k], at[k]))
    && Increasing(at) && Complete(dir, raw, lstat, at)
  }

  ghost predicate Increasing(at: seq<nat>) { forall j, k :: 0 <= j < k < |at| ==> at[j] < at[k] }

  lemma ZeroFirst(at: seq<nat>, i: nat)
    ensures Increasing(at) ==> Increasing([0] + Shifted(at))
    ensures i == 0 || i - 1 in at ==> i in [0] + Shifted(at)
  {
    var up := Shifted(at);
    var all := [0] + up;
    if Increasing(at) {
      forall j, k | 0 <= j < k < |all| ensures all[j] < all[k] {
        assert all[k] == at[k - 1] + 1;
        assert j > 0 ==> all[j] == at[j - 1] + 1;
      }
    }
    if i == 0 {
      assert all[0] == i;
    } else if i - 1 in at {
      var k :| 0 <= k < |at| && at[k] == i - 1;
      assert all[k + 1] == i;
    }
  }

  lemma ComesFromLater(dir: Name, raw: seq<Name>, lstat: Name -> Option<Kind>, e: Entry, i: nat)
    requires dir != [] && raw != [] && ComesFrom(dir, raw[1..], lstat, e, i)
    ensures ComesFrom(dir, raw, lstat, e, i + 1)
  {
    hide Shown;
    assert raw[1..][i] == raw[i + 1];
  }

  lemma CompleteLater(dir: Name, raw: seq<Name>, lstat: Name -> Option<Kind>, at: seq<nat>)
    requires dir != [] && raw != [] && Complete(dir, raw[1..], lstat, at)
    ensures Complete(dir, raw, lstat, [0] + Shifted(at))
    ensures (forall kind :: !Shown(dir, raw[0], kind, lstat)) ==> Complete(dir, raw, lstat, Shifted(at))
  {
    hide Shown;
    forall i, kind | 0 <= i < |raw| && Shown(dir, raw[i], kind, lstat)
      ensures i in [0] + Shifted(at) && (i > 0 ==> i in Shifted(at))
    {
      assert i > 0 ==> raw[1..][i - 1] == raw[i] && i - 1 in at;
      ZeroFirst(at, i);
    }
  }

  lemma SelectsOne(dir: Name, raw: seq<Name>, lstat: Name -> Option<Kind>, all: seq<Entry>, at: seq<nat>, kind: Kind)
    requires dir != [] && raw != [] && Selects(dir, raw[1..], lstat, all, at) && Shown(dir, raw[0], kind, lstat)
    ensures Selects(dir, raw, lstat, [Entry(raw[0], kind)] + all, [0] + Shifted(at))
  {
    hide Shown, Increasing, Complete, ComesFrom;
    ZeroFirst(at, 0);
    CompleteLater(dir, raw, lstat, at);
    forall k | 0 <= k <= |at|
      ensures ComesFrom(dir, raw, lstat, ([Entry(raw[0], kind)] + all)[k], ([0] + Shifted(at))[k])
    {
      if k == 0 {
        FirstComes(dir, raw, lstat, kind);
      } else {
        ComesFromLater(dir, raw, lstat, all[k - 1], at[k - 1]);
      }
    }
  }

  lemma FirstComes(dir: Name, raw: seq<Name>, lstat: Name -> Option<Kind>, kind: Kind)
    requires dir != [] && raw != [] && Shown(dir, raw[0], kind, lstat)
    ensures ComesFrom(dir, raw, lstat, Entry(raw[0], kind), 0)
  {}

  lemma SelectsNone(dir: Name, raw: seq<Name>, lstat: Name -> Option<Kind>, all: seq<Entry>, at: seq<nat>)
    requires dir != [] && raw != [] && Selects(dir, raw[1..], lstat, all, at)
    requires forall kind :: !Shown(dir, raw[0], kind, lstat)
    ensures Selects(dir, raw, lstat, all, Shifted(at))
  {
    CompleteLater(dir, raw, lstat, at);
    assert Increasing(Shifted(at));
    hide Shown, Increasing, Complete, ComesFrom;
    forall k | 0 <= k < |at| ensures ComesFrom(dir, raw, lstat, all[k], Shifted(at)[k]) {
      ComesFromLater(dir, raw, lstat, all[k], at[k]);
    }
  }

  /** The filter, without reference to its own tests: the listing of a directory stream selects exactly the showable
      names. */
  lemma {:induction false} ListedExactly(dir: Name, raw: seq<Name>, lstat: Name -> Option<Kind>) returns (at: seq<nat>)
    requires dir != []
    ensures Selects(dir, raw, lstat, Listed(dir, raw, lstat), at)
  {
    at := [];
    if raw != [] {
      at := ListedExactly(dir, raw[1..], lstat);
      var all := Listed(dir, raw[1..], lstat);
      forall kind ensures Shown(dir, raw[0], kind, lstat) <==>
                          Listable(dir, raw[0], lstat) && lstat(Base(dir) + raw[0]) == Some(kind)
      {
        ShownIsListable(dir, raw[0], kind, lstat);
      }
      if Listable(dir, raw[0], lstat) {
        SelectsOne(dir, raw, lstat, all, at, lstat(Base(dir) + raw[0]).value);
        at := [0] + Shifted(at);
      } else {
        SelectsNone(dir, raw, lstat, all, at);
        at := Shifted(at);
      }
    }
  }

  /** Positions counted from one further in front. */
  function Shifted(at: seq<nat>): (up: seq<nat>)
    ensures |up| == |at| && (forall k :: 0 <= k < |at| ==> up[k] == at[k] + 1)
    ensures forall i :: i in at ==> i + 1 in up
  {
    var up := seq(|at|, k requires 0 <= k < |at| => at[k] + 1);
    assert forall k :: 0 <= k < |at| ==> up[k] == at[k] + 1;
    assert forall k :: 0 <= k < |at| ==> up[k] in up;
    up
  }

  /** The page `offset .. offset + count` of a listing. */
  function Page<T>(all: seq<T>, offset: nat, count: nat): seq<T>
  {
    all[Min(offset, |all|)..Min(offset + count, |all|)]
  }

  /** A sum of at most 2^32, in 32 bits. */
  function Wrapped(n: nat): nat { if n == TWO32 then 0 else n }

  /** `doffset++` on a 32-bit unsigned counter. */
  function Inc32(n: nat): nat { Wrapped(n + 1) }

  /** What the server's loop delivers: `seen` counts valid entries modulo 2^32 while skipping. */
  function Scan<T>(all: seq<T>, seen: nat, offset: nat, count: nat): seq<T>
  {
    if count == 0 || all == [] then []
    else if seen < offset then Scan(all[1..], Inc32(seen), offset, count)
    else [all[0]] + Scan(all[1..], Inc32(seen), offset, count - 1)
  }

  // ---------- Paging ----------

  /** As long as the counter does not come round, the scan delivers the page. */
  lemma {:induction false} ScanFrom<T>(all: seq<T>, seen: nat, offset: nat, count: nat)
    requires seen < TWO32 && offset < TWO32
    requires offset == 0 || seen + |all| <= TWO32 || Max(offset, seen) + count <= TWO32
    ensures Scan(all, seen, offset, count) == Page(all, Max(0, offset - seen), count)
    decreases |all|
  {
    if count != 0 && all != [] {
      var tail := all[1..];
      if seen < offset {
        ScanFrom(tail, seen + 1, offset, count);
        PageTail(all, offset - seen, count);
      } else {
        if seen + 1 < TWO32 || offset == 0 {
          ScanFrom(tail, Inc32(seen), offset, count - 1);
        }
        PageHead(all, count);
      }
    }
  }

  lemma PageTail<T>(all: seq<T>, skip: nat, count: nat)
    requires skip > 0 && all != []
    ensures Page(all, skip, count) == Page(all[1..], skip - 1, count)
  {
    SliceOfTail(all, Min(skip, |all|), Min(skip + count, |all|));
  }

  lemma SliceOfTail<T>(all: seq<T>, a: nat, b: nat)
    requires 0 < a <= b <= |all|
    ensures all[1..][a - 1..b - 1] == all[a..b]
  {
    var tail := all[1..];
    forall i | 0 <= i < b - a ensures tail[a - 1..b - 1][i] == all[a..b][i] {
      assert tail[a - 1 + i] == all[a + i];
    }
  }

  lemma PageHead<T>(all: seq<T>, count: nat)
    requires count > 0 && all != []
    ensures Page(all, 0, count) == [all[0]] + Page(all[1..], 0, count - 1)
    ensures count == 1 || |all| == 1 ==> Page(all, 0, count) == [all[0]]
  {
    HeadThenTail(all, Min(count, |all|));
  }

  lemma HeadThenTail<T>(all: seq<T>, b: nat)
    requires 0 < b <= |all|
    ensures all[..b] == [all[0]] + all[1..][..b - 1] && (b == 1 ==> all[..b] == [all[0]])
  {
    var l, r := all[..b], [all[0]] + all[1..][..b - 1];
    forall i | 0 <= i < b ensures l[i] == r[i] {
      if i > 0 {
        assert r[i] == all[1..][..b - 1][i - 1] == all[1..][i - 1] == all[i];
      }
    }
  }

  /** Scanning is compositional while the prefix contains no wrap. */
  lemma {:induction false} ScanSkips<T>(all: seq<T>, seen: nat, offset: nat, count: nat, k: nat)
    requires seen + k < TWO32 && k <= |all|
    requires seen + k <= offset && count > 0
    ensures Scan(all, seen, offset, count) == Scan(all[k..], seen + k, offset, count)
    decreases k
  {
    if k == 0 {
      assert all[0..] == all;
    } else {
      ScanSkips(all[1..], seen + 1, offset, count, k - 1);
      assert all[1..][k - 1..] == all[k..];
    }
  }

  ghost predicate Distinct<T(!new)>(s: seq<T>) { forall i, j :: 0 <= i < j < |s| ==> s[i] != s[j] }

  /** The arguments for which the 32-bit skip counter cannot come round before the page is complete. */
  predicate NoWrap(size: nat, offset: nat, count: nat)
  {
    offset == 0 || size <= TWO32 || offset + count <= TWO32
  }

  /** The elements taken before the counter comes round, if it does. */
  lemma {:induction false} ScanTakes<T>(all: seq<T>, seen: nat, offset: nat, count: nat, k: nat)
    requires offset <= seen && seen + k <= TWO32 && seen < TWO32 && k <= |all| && k <= count
    ensures Scan(all, seen, offset, count) == all[..k] + Scan(all[k..], Wrapped(seen + k), offset, count - k)
    decreases k
  {
    if k == 0 {
      assert all[0..] == all && all[..0] + Scan(all, seen, offset, count) == Scan(all, seen, offset, count);
    } else {
      var next := Inc32(seen);
      assert Scan(all, seen, offset, count) == [all[0]] + Scan(all[1..], next, offset, count - 1);
      hide Scan;
      if k == 1 {
        assert all[..1] == [all[0]];
      } else {
        ScanTakes(all[1..], next, offset, count - 1, k - 1);
        TakeMore(all, k, Scan(all[k..], Wrapped(seen + k), offset, count - k));
      }
    }
  }

  lemma TakeMore<T>(all: seq<T>, k: nat, rest: seq<T>)
    requires 0 < k <= |all|
    ensures all[1..][k - 1..] == all[k..]
    ensures [all[0]] + (all[1..][..k - 1] + rest) == all[..k] + rest
  {}

  lemma {:induction false} ScanMembers<T>(all: seq<T>, seen: nat, offset: nat, count: nat)
    ensures forall x :: x in Scan(all, seen, offset, count) ==> x in all
    decreases |all|
  {
    if count != 0 && all != [] {
      ScanMembers(all[1..], Inc32(seen), offset, count);
      ScanMembers(all[1..], Inc32(seen), offset, count - 1);
    }
  }

  lemma {:induction false} ScanCount<T>(all: seq<T>, seen: nat, offset: nat, count: nat)
    ensures |Scan(all, seen, offset, count)| <= count
    decreases |all|
  {
    if count != 0 && all != [] {
      ScanCount(all[1..], Inc32(seen), offset, count);
      ScanCount(all[1..], Inc32(seen), offset, count - 1);
    }
  }

  /** After the counter came round the scan skips again, so what it takes next comes later in the listing. */
  lemma ScanAfterWrap<T>(tail: seq<T>, offset: nat, count: nat)
    requires tail != [] && offset > 0 && count > 0
    ensures forall x :: x in Scan(tail, 0, offset, count) ==> x in tail[1..]
  {
    assert Scan(tail, 0, offset, count) == Scan(tail[1..], 1, offset, count);
    hide Scan;
    ScanMembers(tail[1..], 1, offset, count);
  }

  /** In a listing of distinct entries, nothing later equals the entry at `m`. */
  lemma LaterDiffers<T(!new)>(all: seq<T>, m: nat, x: T)
    requires Distinct(all) && m < |all| && x in all[m..][1..]
    ensures x != all[m]
  {
    var later := all[m..][1..];
    var j :| 0 <= j < |later| && later[j] == x;
    assert later[j] == all[m + 1 + j];
  }

  lemma WrapMisses<T(!new)>(all: seq<T>, offset: nat, count: nat)
    requires Distinct(all) && offset < TWO32 && !NoWrap(|all|, offset, count)
    ensures Scan(all, 0, offset, count) != Page(all, offset, count)
  {
    var k, rest, page := TWO32 - offset, all[offset..], Page(all, offset, count);
    assert k < |page| && page[k] == all[TWO32];
    hide Scan, Page, Distinct;
    ScanSkips(all, 0, offset, count, offset);
    ScanTakes(rest, offset, offset, count, k);
    assert rest[k..] == all[TWO32..];
    var later := Scan(all[TWO32..], 0, offset, count - k);
    assert Scan(all, 0, offset, count) == rest[..k] + later;
    if later != [] {
      ScanAfterWrap(all[TWO32..], offset, count - k);
      assert later[0] in later;
      LaterDiffers(all, TWO32, later[0]);
      assert (rest[..k] + later)[k] == later[0];
    }
  }

  /** Paging, exactly: for a directory of distinct entries, the reply is the requested page of the
      filtered listing if and only if the 32-bit skip counter cannot come round first.  In particular
      it always is for fewer than 2^32 entries. */
  lemma PagingExact<T(!new)>(all: seq<T>, offset: nat, count: nat)
    requires Distinct(all) && offset < TWO32
    ensures Scan(all, 0, offset, count) == Page(all, offset, count) <==> NoWrap(|all|, offset, count)
  {
    if NoWrap(|all|, offset, count) {
      ScanFrom(all, 0, offset, count);
    } else {
      WrapMisses(all, offset, count);
    }
  }

  // ---------- A directory for which paging fails ----------

  /** A distinct file name for each number: its base-16 digits as letters, low digit first. */
  function NumberName(i: nat): Name { if i == 0 then [65] else [66 + i % 16] + NumberName(i / 16) }

  function NameNumber(name: Name): int
  {
    if name == [] || name[0] == 65 then 0 else name[0] - 66 + 16 * NameNumber(name[1..])
  }

  lemma {:induction false} NamesDistinct(i: nat)
    ensures NameNumber(NumberName(i)) == i
  {
    if i > 0 {
      assert NumberName(i)[1..] == NumberName(i / 16);
      NamesDistinct(i / 16);
    }
  }

  function Pow16(k: nat): nat { if k == 0 then 1 else 16 * Pow16(k - 1) }

  lemma {:induction false} NamesShort(i: nat, k: nat)
    requires i < Pow16(k)
    ensures |NumberName(i)| <= k + 1 && 0 !in NumberName(i) && DOT !in NumberName(i)
  {
    if i > 0 {
      NamesShort(i / 16, k - 1);
    }
  }

  lemma {:induction false} AllListed(dir: Name, raw: seq<Name>, lstat: Name -> Option<Kind>)
    requires dir != [] && forall i :: 0 <= i < |raw| ==> Listable(dir, raw[i], lstat)
    ensures |Listed(dir, raw, lstat)| == |raw|
    ensures forall i :: 0 <= i < |raw| ==> Listed(dir, raw, lstat)[i].name == raw[i]
  {
    hide Listable;
    if raw != [] {
      assert forall i :: 0 <= i < |raw[1..]| ==> raw[1..][i] == raw[i + 1];
      AllListed(dir, raw[1..], lstat);
      var rest := Listed(dir, raw[1..], lstat);
      assert Listable(dir, raw[0], lstat);
      forall i | 0 <= i < |raw| ensures Listed(dir, raw, lstat)[i].name == raw[i] {
        if i > 0 {
          assert Listed(dir, raw, lstat)[i] == rest[i - 1] && rest[i - 1].name == raw[1..][i - 1];
        }
      }
    }
  }

  /** Paging is false of the code for huge directories: a directory stream of 2^32 + 1 listable names for
      which the handler's reply to the request (offset 2, count 2^32 - 1) is not that page. */
  lemma PagingFailsWhenCounterWraps(dir: Name)
    requires dir != []
    ensures var raw := seq(TWO32 + 1, i requires 0 <= i => NumberName(i));
            var all := Listed(dir, raw, _ => Some(File));
            && (forall name :: name in raw ==> 0 !in name && |name| < MAXNAMELEN)
            && |all| == TWO32 + 1 && Scan(all, 0, 2, TWO32 - 1) != Page(all, 2, TWO32 - 1)
  {
    hide Scan, Listed, Page;
    var raw := seq(TWO32 + 1, i requires 0 <= i => NumberName(i));
    var lstat: Name -> Option<Kind> := _ => Some(File);
    assert Pow16(9) > TWO32;
    forall i | 0 <= i < |raw| ensures |raw[i]| <= 10 && 0 !in raw[i] && Listable(dir, raw[i], lstat) {
      NamesShort(i, 9);
      assert DOT in [DOT] && DOT in [DOT, DOT];
    }
    AllListed(dir, raw, lstat);
    var all := Listed(dir, raw, lstat);
    forall i, j | 0 <= i < j < |all| ensures all[i] != all[j] {
      NamesDistinct(i);
      NamesDistinct(j);
      assert all[i].name == raw[i] && all[j].name == raw[j];
    }
    WrapMisses(all, 2, TWO32 - 1);
  }

  // ---------- Consecutive pages ----------

  function Sum(counts: seq<nat>): nat { if counts == [] then 0 else counts[0] + Sum(counts[1..]) }

  /** Pages of the given sizes, each starting where the one before it ended, as the server delivers them. */
  function Walk<T>(all: seq<T>, offset: nat, counts: seq<nat>): seq<T>
    decreases counts
  {
    if counts == [] then []
    else Scan(all, 0, offset, counts[0]) + Walk(all, offset + counts[0], counts[1..])
  }

  lemma PageSplit<T>(all: seq<T>, offset: nat, a: nat, b: nat)
    ensures Page(all, offset, a) + Page(all, offset + a, b) == Page(all, offset, a + b)
    ensures offset == 0 && a + b >= |all| ==> Page(all, offset, a + b) == all
    ensures Page(all, offset, 0) == []
  {
    var x, y, z := Min(offset, |all|), Min(offset + a, |all|), Min(offset + a + b, |all|);
    assert all[x..y] + all[y..z] == all[x..z];
  }

  /** Every page of the walk starts at an offset the 32-bit wire field can carry. */
  predicate StartsOnWire(offset: nat, counts: seq<nat>)
    decreases counts
  {
    counts == [] || (offset < TWO32 && StartsOnWire(offset + counts[0], counts[1..]))
  }

  /** Consecutive pages, of any sizes, concatenate without gap or repeat. */
  lemma {:induction false} WalkIsContiguous<T>(all: seq<T>, offset: nat, counts: seq<nat>)
    requires |all| <= TWO32 && StartsOnWire(offset, counts)
    ensures Walk(all, offset, counts) == Page(all, offset, Sum(counts))
    ensures offset == 0 && Sum(counts) >= |all| ==> Walk(all, offset, counts) == all
    decreases counts
  {
    hide Scan, Page;
    if counts == [] {
      PageSplit(all, offset, 0, 0);
    } else {
      ScanFrom(all, 0, offset, counts[0]);
      WalkIsContiguous(all, offset + counts[0], counts[1..]);
      PageSplit(all, offset, counts[0], Sum(counts[1..]));
    }
  }
}
