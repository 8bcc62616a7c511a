/** The client side of directory listing: the reply crosses the wire as a linked list, is walked into the
    caller's array, and `ls` and FUSE enumerate one entry at a time. */
module ReaddirClient {
  import opened Bytes
  import opened Listing
  import opened ReaddirServer
  import opened ListingWire
  import opened Xdr
  import P = Protocol

  /** struct icbinn_dirent. */
  datatype Dirent = Dirent(name: Name, kind: int)

  /** What becomes of one readdir call. */
  datatype CallFate = Delivered | ReplyLost | RequestLost

  const ENOMEM := 12

  function Dirents(es: seq<Entry>): seq<Dirent>
  {
    seq(|es|, i requires 0 <= i < |es| => Dirent(es[i].name, KindCode(es[i].kind)))
  }

  // ---------- icbinn_readdir and icbinn_readent ----------

  /** Walks the received list into the caller's array. */
  method WalkReply(list: Value, buf: array<Dirent>, ghost es: seq<Entry>) returns (n: nat)
    requires list == ChainOf(es) && |es| <= buf.Length
    modifies buf
    ensures n == |es| && buf[..n] == Dirents(es)
  {
    n := 0;
    var e := list;
    assert es[0..] == es;
    while e.VCons?
      invariant 0 <= n <= |es| && e == ChainOf(es[n..])
      invariant buf[..n] == Dirents(es)[..n]
      decreases |es| - n
    {
      assert es[n..][1..] == es[n + 1..];
      var code := e.head.b'.i;
      buf[n] := Dirent(e.head.a.bytes, if 0 <= code <= 3 then code else -1);
      e := e.tail;
      n := n + 1;
    }
  }

  ghost predicate Healthy(env: DirEnv) { env.statOk && env.isDir && env.opens }

  /** What the environment of a readdir call guarantees about strings: C strings, and stat's limits. */
  ghost predicate CStrings(dir: Name, env: DirEnv)
  {
    && 0 !in dir && (forall name :: name in env.raw ==> 0 !in name)
    && (env.statOk ==> 0 < |dir| < MAXPATHLEN)
  }

  method Readdir(svc: Service, dir: Name, offset: nat, count: nat, env: DirEnv, fate: CallFate, buf: array<Dirent>)
    returns (ret: int)
    requires svc.Valid() && CStrings(dir, env) && count % TWO32 <= buf.Length
    modifies svc, buf
    ensures svc.Valid() && svc.dirs == old(svc.dirs)
    ensures fate != Delivered || !Healthy(env) ==> ret == -1
    ensures fate == Delivered && Healthy(env) ==>
              var page := Scan(Listed(dir, env.raw, env.lstat), 0, offset % TWO32, count % TWO32);
              ret == |page| <= buf.Length && buf[..ret] == Dirents(page)
  {
    hide Scan, Listed, Dirents, ChainOf, Encode, Decode, Fits, P.ResultType;
    if fate.RequestLost? {
      return -1;
    }
    svc.Readdir(dir, offset % TWO32, count % TWO32, env);
    if fate.ReplyLost? || svc.status != P.OK {
      return -1;
    }
    ghost var page := Scan(Listed(dir, env.raw, env.lstat), 0, offset % TWO32, count % TWO32);
    ListedNames(dir, env.raw, env.lstat);
    ScanMembers(Listed(dir, env.raw, env.lstat), 0, offset % TWO32, count % TWO32);
    ScanCount(Listed(dir, env.raw, env.lstat), 0, offset % TWO32, count % TWO32);
    var wire := svc.Marshal();
    ListingRoundTrip(page, svc.eof, []);
    assert wire + [] == wire;
    var received := Decode(P.ResultType(1), wire);
    ret := WalkReply(received.value.0.body.a, buf, page);
  }

  /** Everything a client can list: nothing if the directory cannot be read. */
  function AllEntries(dir: Name, env: DirEnv): seq<Entry>
  {
    if env.statOk && env.isDir && env.opens && dir != [] then Listed(dir, env.raw, env.lstat) else []
  }

  /** One entry by number: 0 and the entry exactly when it exists and the call is delivered, else -1. */
  method ReadEnt(svc: Service, dir: Name, i: nat, env: DirEnv, fate: CallFate, buf: array<Dirent>) returns (ret: int)
    requires svc.Valid() && CStrings(dir, env) && buf.Length == 1 && i < TWO31
    modifies svc, buf
    ensures svc.Valid() && svc.dirs == old(svc.dirs) && (ret == 0 || ret == -1)
    ensures ret == 0 <==> fate == Delivered && i < |AllEntries(dir, env)|
    ensures ret == 0 ==> buf[0] == Dirents(AllEntries(dir, env))[i]
  {
    hide Listed, Scan;
    var n := Readdir(svc, dir, i, 1, env, fate, buf);
    if fate == Delivered && Healthy(env) {
      var all := AllEntries(dir, env);
      ScanFrom(all, 0, i, 1);
      if n == 1 {
        assert buf[..1][0] == buf[0] && Page(all, i, 1)[0] == all[i];
      }
    }
    ret := if n == 1 then 0 else -1;
  }

  // ---------- Enumeration ----------

  /** The fate of call number `i`; calls past the script are delivered. */
  function FateAt(fates: seq<CallFate>, i: nat): CallFate { if i < |fates| then fates[i] else Delivered }

  /** `ls`: on a stable directory it prints each entry once, in listing order, and stops after one call
      more than there are entries; a failing call ends it early with a prefix. */
  method Ls(svc: Service, dir: Name, env: DirEnv, fates: seq<CallFate>) returns (printed: seq<Dirent>, calls: nat)
    requires svc.Valid() && CStrings(dir, env) && |AllEntries(dir, env)| < TWO31
    modifies svc
    ensures svc.Valid() && svc.dirs == old(svc.dirs)
    ensures printed <= Dirents(AllEntries(dir, env)) && calls == |printed| + 1
    ensures (forall i :: 0 <= i < |fates| ==> fates[i] == Delivered) ==> printed == Dirents(AllEntries(dir, env))
    ensures printed == Dirents(AllEntries(dir, env)) || FateAt(fates, calls - 1) != Delivered
    ensures forall i :: 0 <= i < |printed| ==> FateAt(fates, i) == Delivered
  {
    hide AllEntries;
    ghost var all := Dirents(AllEntries(dir, env));
    var buf := new Dirent[1](_ => Dirent([], 0));
    printed, calls := [], 0;
    while true
      invariant svc.Valid() && svc.dirs == old(svc.dirs)
      invariant calls == |printed| <= |all| && printed == all[..calls]
      invariant forall i :: 0 <= i < calls ==> FateAt(fates, i) == Delivered
      decreases |all| - calls
    {
      var rc := ReadEnt(svc, dir, calls, env, FateAt(fates, calls), buf);
      calls := calls + 1;
      if rc != 0 {
        break;
      }
      printed := printed + [buf[0]];
    }
  }

  /** FUSE's readdir: the same enumeration through a filler that may refuse an entry. */
  method FuseReaddir(svc: Service, dir: Name, env: DirEnv, fates: seq<CallFate>, refuses: set<nat>)
    returns (rv: int, filled: seq<Name>)
    requires svc.Valid() && CStrings(dir, env) && |AllEntries(dir, env)| < TWO31
    modifies svc
    ensures svc.Valid() && svc.dirs == old(svc.dirs)
    ensures var all := AllEntries(dir, env);
            && |filled| <= |all| && (forall i :: 0 <= i < |filled| ==> filled[i] == all[i].name)
            && (forall i :: 0 <= i < |filled| ==> FateAt(fates, i) == Delivered && i !in refuses)
            && (if |filled| == |all| || FateAt(fates, |filled|) != Delivered then rv == 0
                else rv == -ENOMEM && |filled| in refuses)
            && (refuses == {} && (forall i :: 0 <= i < |fates| ==> fates[i] == Delivered) ==> rv == 0 && |filled| == |all|)
  {
    hide AllEntries;
    ghost var all := AllEntries(dir, env);
    var buf := new Dirent[1](_ => Dirent([], 0));
    filled := [];
    var i := 0;
    while true
      invariant svc.Valid() && svc.dirs == old(svc.dirs)
      invariant i == |filled| <= |all| && forall j :: 0 <= j < i ==> filled[j] == all[j].name
      invariant forall j :: 0 <= j < i ==> FateAt(fates, j) == Delivered && j !in refuses
      decreases |all| - i
    {
      var rc := ReadEnt(svc, dir, i, env, FateAt(fates, i), buf);
      if rc != 0 {
        return 0, filled;
      }
      if i in refuses {
        return -ENOMEM, filled;
      }
      filled := filled + [buf[0].name];
      i := i + 1;
    }
  }

  /** Enumerating one entry at a time delivers what one bulk request for at least as many would. */
  lemma EnumerationAgreesWithBulk(all: seq<Entry>, count: nat)
    requires |all| < TWO31 && |all| <= count < TWO32
    ensures Scan(all, 0, 0, count) == all && Walk(all, 0, seq(|all|, _ => 1)) == all
  {
    hide Scan, Walk;
    ScanFrom(all, 0, 0, count);
    SumOfOnes(0, |all|);
    WalkIsContiguous(all, 0, seq(|all|, _ => 1));
    assert Page(all, 0, count) == all;
  }

  lemma {:induction false} SumOfOnes(offset: nat, n: nat)
    ensures Sum(seq(n, _ => 1)) == n && (offset + n < TWO32 ==> StartsOnWire(offset, seq(n, _ => 1)))
    decreases n
  {
    if n > 0 {
      SumOfOnes(offset + 1, n - 1);
      assert seq(n, _ => 1)[1..] == seq(n - 1, _ => 1);
    }
  }
}
