/** The readdir handler as it runs: a static reply that the next call frees, a path scratch buffer, and
    a linked list built through a pointer to its last link. */
module ReaddirServer {
  import opened Bytes
  import opened Listing
  import opened ListingWire
  import P = Protocol
  import Xdr

  const PATHBUF: nat := MAXPATHLEN + MAXNAMELEN + 1

  class Node {
    const name: Name
    const kind: Kind
    var next: Node?

    constructor (name: Name, kind: Kind)
      ensures this.name == name && this.kind == kind && next == null
    {
      this.name, this.kind, next := name, kind, null;
    }
  }

  // ---------- Heap lists ----------

  ghost predicate Linked(nodes: seq<Node>)
    reads nodes
  {
    && (forall i {:trigger nodes[i].next} :: 0 <= i < |nodes| - 1 ==> nodes[i].next == nodes[i + 1])
    && (nodes != [] ==> nodes[|nodes| - 1].next == null)
    && (forall i, j :: 0 <= i < j < |nodes| ==> nodes[i] != nodes[j])
  }

  ghost predicate IsList(head: Node?, nodes: seq<Node>)
    reads nodes
  {
    Linked(nodes) && head == if nodes == [] then null else nodes[0]
  }

  function Contents(nodes: seq<Node>): seq<Entry>
  {
    seq(|nodes|, i requires 0 <= i < |nodes| => Entry(nodes[i].name, nodes[i].kind))
  }

  function Elements(nodes: seq<Node>): set<Node> { set x | x in nodes }

  // ---------- The path buffer ----------

  /** The C string at the start of a buffer is the bytes before its first NUL. */
  lemma {:induction false} CStringAt(s: seq<Byte>, rest: seq<Byte>)
    requires 0 !in s
    ensures Xdr.CString(s + [0] + rest) == s
  {
    if s == [] {
      assert s + [0] + rest == [0] + rest;
    } else {
      var t := s + [0] + rest;
      assert t[1..] == s[1..] + [0] + rest;
      CStringAt(s[1..], rest);
    }
  }

  /** strcpy of `s` to `buf` at `pos`: nothing before `pos` changes, and all writes stay inside. */
  method StrCpy(buf: array<Byte>, pos: nat, s: seq<Byte>)
    requires pos + |s| < buf.Length
    modifies buf
    ensures buf[..pos] == old(buf[..pos]) && buf[pos..pos + |s| + 1] == s + [0]
  {
    var i := 0;
    while i < |s|
      invariant 0 <= i <= |s| && buf[..pos] == old(buf[..pos]) && buf[pos..pos + i] == s[..i]
    {
      buf[pos + i] := s[i];
      i := i + 1;
    }
    buf[pos + i] := 0;
  }

  /** The buffer starts with the directory and one separator, `base` bytes in all. */
  ghost predicate PathReady(filepath: array<Byte>, base: nat, dir: Name)
    reads filepath
  {
    && filepath.Length == PATHBUF && dir != [] && base == |Base(dir)| <= MAXPATHLEN
    && filepath[..base] == Base(dir)
  }

  // ---------- What the scan still has to deliver ----------

  /** `had` is delivered; scanning `rest` from counter `seen` on will complete `want`. */
  ghost predicate OnTrack(want: seq<Entry>, had: seq<Entry>, dir: Name, rest: seq<Name>, lstat: Name -> Option<Kind>,
                          seen: nat, offset: nat, left: nat)
    requires dir != []
  {
    want == had + Scan(Listed(dir, rest, lstat), seen, offset, left)
  }

  lemma TrackEnds(want: seq<Entry>, had: seq<Entry>, dir: Name, rest: seq<Name>, lstat: Name -> Option<Kind>,
                  seen: nat, offset: nat, left: nat)
    requires dir != [] && OnTrack(want, had, dir, rest, lstat, seen, offset, left) && (left == 0 || rest == [])
    ensures want == had
  {}

  lemma TrackSteps(want: seq<Entry>, had: seq<Entry>, dir: Name, rest: seq<Name>, lstat: Name -> Option<Kind>,
                   seen: nat, offset: nat, left: nat)
    requires dir != [] && rest != [] && left > 0 && OnTrack(want, had, dir, rest, lstat, seen, offset, left)
    ensures !Listable(dir, rest[0], lstat) ==> OnTrack(want, had, dir, rest[1..], lstat, seen, offset, left)
    ensures Listable(dir, rest[0], lstat) && seen < offset ==>
              OnTrack(want, had, dir, rest[1..], lstat, Inc32(seen), offset, left)
    ensures Listable(dir, rest[0], lstat) && seen >= offset ==>
              OnTrack(want, had + [Entry(rest[0], lstat(Base(dir) + rest[0]).value)], dir, rest[1..], lstat,
                      Inc32(seen), offset, left - 1)
  {
    if Listable(dir, rest[0], lstat) {
      var all := Listed(dir, rest, lstat);
      assert all[1..] == Listed(dir, rest[1..], lstat);
      if seen >= offset {
        var later := Scan(all[1..], Inc32(seen), offset, left - 1);
        assert had + ([all[0]] + later) == had + [all[0]] + later;
      }
    }
  }

  // ---------- The handler ----------

  class Service {
    // the handler's static variables
    var first: bool
    var status: int
    var entries: Node?
    var eof: bool
    // open directory streams of the process
    var dirs: nat
    // the heap, as malloc and free see it
    ghost var owned: seq<Node>
    ghost var freed: set<Node>
    ghost var mallocs: set<Node>

    /** Every node ever allocated was freed once or belongs to the one live list, which only an OK reply has. */
    ghost predicate Valid()
      reads this, owned
    {
      && mallocs == freed + Elements(owned) && freed !! Elements(owned)
      && (first || status != P.OK ==> owned == [])
      && (!first && status == P.OK ==> IsList(entries, owned))
    }

    /** Static storage starts zeroed, and zero is the OK status. */
    constructor ()
      ensures Valid() && first && owned == [] && freed == {} && dirs == 0
    {
      first, status, entries, eof, dirs := true, P.OK, null, false, 0;
      owned, freed, mallocs := [], {}, {};
    }

    /** free() of one node; freeing twice is excluded. */
    method FreeNode(e: Node)
      requires e in mallocs && e !in freed
      modifies this`freed
      ensures freed == old(freed) + {e}
    {
      freed := freed + {e};
    }

    /** xdr_free of the reply: walks the list and frees each node. */
    method FreeReply()
      requires Valid() && !first && status == P.OK
      modifies this`freed, this`owned
      ensures owned == [] && freed == old(freed) + Elements(old(owned))
    {
      var e := entries;
      ghost var k := 0;
      ghost var nodes := owned;
      while e != null
        invariant 0 <= k <= |nodes| && e == if k < |nodes| then nodes[k] else null
        invariant owned == nodes && IsList(entries, nodes) && freed == old(freed) + Elements(nodes[..k])
        decreases |nodes| - k
      {
        var next := e.next;
        assert Linked(nodes) && nodes[k].next == next;
        assert nodes[..k + 1] == nodes[..k] + [nodes[k]];
        assert e in Elements(owned) && e !in Elements(nodes[..k]);
        FreeNode(e);
        e := next;
        k := k + 1;
      }
      assert nodes[..|nodes|] == nodes;
      owned := [];
    }

    /** One readdir request.  `dname_len` is unsigned in the source, so the test for a failed length
        check never fires there; what bounds the path is stat refusing empty and over-long ones. */
    method Readdir(dir: Name, offset: nat, count: nat, env: DirEnv)
      requires Valid() && offset < TWO32 && count < TWO32
      requires 0 !in dir && (forall name :: name in env.raw ==> 0 !in name)
      requires env.statOk ==> 0 < |dir| < MAXPATHLEN
      modifies this
      ensures Valid() && !first && dirs == old(dirs)
      ensures freed == old(freed) + Elements(old(owned)) && fresh(owned)
      ensures status == if env.statOk && env.isDir && env.opens then P.OK else P.ERROR
      ensures status == P.OK ==>
                && Contents(owned) == Scan(Listed(dir, env.raw, env.lstat), 0, offset, count)
                && (eof <==> count == 0 || |owned| < count)
    {
      if first {
        first := false;
      } else if status == P.OK {
        FreeReply();
      }
      status := P.ERROR;
      if !env.statOk || !env.isDir || !env.opens {
        return;
      }
      dirs := dirs + 1;
      Fill(dir, offset, count, env);
      dirs := dirs - 1;
      status := P.OK;
    }

    /** The XDR filter follows the list's pointers and emits one optional entry per node. */
    method MarshalFrom(e: Node?, ghost nodes: seq<Node>) returns (list: Xdr.Value)
      requires IsList(e, nodes)
      ensures list == ChainOf(Contents(nodes))
      decreases |nodes|
    {
      if e == null {
        list := Xdr.VNil;
      } else {
        assert nodes[0].next == e.next;
        assert Contents(nodes)[1..] == Contents(nodes[1..]);
        var rest := MarshalFrom(e.next, nodes[1..]);
        list := Xdr.VCons(Xdr.VPair(Xdr.VBytes(e.name), Xdr.VInt(KindCode(e.kind))), rest);
      }
    }

    /** The bytes of the reply the last call left behind. */
    method Marshal() returns (wire: seq<Byte>)
      requires Valid() && !first && status == P.OK && WireNames(Contents(owned))
      ensures wire == ReplyBytes(Contents(owned), eof)
    {
      ListingRoundTrip(Contents(owned), eof, []);
      var list := MarshalFrom(entries, owned);
      wire := Xdr.Encode(P.ResultType(1), Xdr.VUnion(P.OK, Xdr.VPair(list, Xdr.VBool(eof))));
    }

    /** The path prefix of every entry: the directory with one separator, NUL-terminated. */
    method StartPath(filepath: array<Byte>, dir: Name) returns (len: nat)
      requires filepath.Length == PATHBUF && 0 < |dir| < MAXPATHLEN
      modifies filepath
      ensures PathReady(filepath, len, dir) && filepath[len] == 0
    {
      StrCpy(filepath, 0, dir);
      len := |dir|;
      if filepath[len - 1] != SLASH {
        filepath[len], filepath[len + 1] := SLASH, 0;
        len := len + 1;
      }
    }

    /** The path buffer holds directory, separator and name as a C string when lstat is called. */
    method LstatEntry(filepath: array<Byte>, base: nat, dir: Name, name: Name, lstat: Name -> Option<Kind>)
      returns (st: Option<Kind>)
      requires PathReady(filepath, base, dir)
      requires 0 !in dir && 0 !in name && |name| < MAXNAMELEN
      modifies filepath
      ensures PathReady(filepath, base, dir) && st == lstat(Base(dir) + name)
    {
      StrCpy(filepath, base, name);
      assert 0 !in Base(dir) + name;
      ghost var rest := filepath[base + |name| + 1..];
      assert filepath[..] == filepath[..base] + filepath[base..base + |name| + 1] + rest;
      assert filepath[..] == (Base(dir) + name) + [0] + rest;
      CStringAt(Base(dir) + name, rest);
      st := lstat(Xdr.CString(filepath[..]));
    }

    /** The list under construction; while it is empty, `entries` may still hold a stale pointer. */
    ghost predicate Building(tail: Node?)
      reads this, owned
    {
      && Linked(owned) && mallocs == freed + Elements(owned) && freed !! Elements(owned)
      && tail == (if owned == [] then null else owned[|owned| - 1])
      && (owned != [] ==> entries == owned[0])
    }

    /** Allocates an entry and links it in through the pointer to the last link. */
    method Append(tail: Node?, name: Name, kind: Kind) returns (e: Node)
      requires Building(tail)
      modifies this`entries, this`owned, this`mallocs, tail
      ensures fresh(e) && owned == old(owned) + [e] && Building(e)
      ensures e.name == name && e.kind == kind
    {
      e := new Node(name, kind);
      mallocs := mallocs + {e};
      if tail == null {
        entries := e;
      } else {
        tail.next := e;
      }
      owned := owned + [e];
      assert Elements(owned) == Elements(old(owned)) + {e};
    }

    /** One name from the directory stream: filtered out, skipped, or appended to the reply. */
    method Visit(filepath: array<Byte>, base: nat, tail0: Node?, seen0: nat, offset: nat,
                 dir: Name, name: Name, lstat: Name -> Option<Kind>)
      returns (tail: Node?, seen: nat, took: bool)
      requires PathReady(filepath, base, dir)
      requires 0 !in dir && 0 !in name && Building(tail0) && seen0 < TWO32
      modifies this`entries, this`owned, this`mallocs, filepath, tail0
      ensures PathReady(filepath, base, dir) && Building(tail)
      ensures took <==> Listable(dir, name, lstat) && seen0 >= offset
      ensures seen == if Listable(dir, name, lstat) then Inc32(seen0) else seen0
      ensures !took ==> owned == old(owned) && tail == tail0
      ensures took ==> tail != null && fresh(tail) && owned == old(owned) + [tail]
      ensures took ==> tail.name == name && tail.kind == lstat(Base(dir) + name).value
    {
      tail, seen, took := tail0, seen0, false;
      if name == [DOT] || name == [DOT, DOT] || |name| >= MAXNAMELEN {
        return;
      }
      var st := LstatEntry(filepath, base, dir, name, lstat);
      if st.None? {
        return;
      }
      seen := Inc32(seen0);
      if seen0 < offset {
        return;
      }
      tail := Append(tail0, name, st.value);
      took := true;
    }

    /** One name, with the reply still to come kept on track. */
    method VisitNext(filepath: array<Byte>, base: nat, tail0: Node?, seen0: nat, offset: nat, dir: Name,
                     raw: seq<Name>, i: nat, lstat: Name -> Option<Kind>, ghost want: seq<Entry>, ghost left: nat)
      returns (tail: Node?, seen: nat, took: bool)
      requires PathReady(filepath, base, dir) && dir != [] && 0 !in dir && Building(tail0) && seen0 < TWO32
      requires i < |raw| && 0 !in raw[i] && left > 0
      requires OnTrack(want, Contents(owned), dir, raw[i..], lstat, seen0, offset, left)
      modifies this`entries, this`owned, this`mallocs, filepath, tail0
      ensures PathReady(filepath, base, dir) && Building(tail) && seen < TWO32
      ensures if took then tail != null && fresh(tail) && owned == old(owned) + [tail] else owned == old(owned)
      ensures OnTrack(want, Contents(owned), dir, raw[i + 1..], lstat, seen, offset, if took then left - 1 else left)
    {
      hide OnTrack, Scan, Listed, Listable, Contents, PathReady, Base;
      TrackSteps(want, Contents(owned), dir, raw[i..], lstat, seen0, offset, left);
      assert raw[i..][1..] == raw[i + 1..];
      ghost var had := owned;
      tail, seen, took := Visit(filepath, base, tail0, seen0, offset, dir, raw[i], lstat);
      if took {
        ContentsMore(had, tail);
      }
    }

    /** Terminates the list, which also clears a stale pointer if nothing was appended. */
    method Finish(tail: Node?)
      requires Building(tail)
      modifies this`entries, tail
      ensures IsList(entries, owned) && mallocs == freed + Elements(owned) && freed !! Elements(owned)
    {
      if tail == null {
        entries := null;
      } else {
        tail.next := null;
      }
    }

    /** The scan loop.  On exit the heap list from `entries` is the page, in order. */
    method Fill(dir: Name, offset: nat, count: nat, env: DirEnv)
      requires owned == [] && offset < TWO32 && count < TWO32 && 0 < |dir| < MAXPATHLEN
      requires mallocs == freed && 0 !in dir && (forall name :: name in env.raw ==> 0 !in name)
      modifies this`entries, this`eof, this`owned, this`mallocs
      ensures IsList(entries, owned) && fresh(owned) && mallocs == freed + Elements(owned) && freed !! Elements(owned)
      ensures Contents(owned) == Scan(Listed(dir, env.raw, env.lstat), 0, offset, count)
      ensures eof <==> count == 0 || |owned| < count
    {
      hide OnTrack, Scan, Listed, Contents, PathReady;
      var filepath := new Byte[PATHBUF];
      var base := StartPath(filepath, dir);
      var doffset, dcount, i := 0, 0, 0;
      var atEnd := true;                        // dp == NULL
      var tail: Node? := null;                  // the node `ep` points into; null for the reply itself
      ghost var want := Scan(Listed(dir, env.raw, env.lstat), 0, offset, count);
      TrackStarts(want, dir, env, offset, count);
      assert env.raw[0..] == env.raw;
      while dcount < count
        invariant 0 <= i <= |env.raw| && 0 <= dcount <= count && 0 <= doffset < TWO32
        invariant PathReady(filepath, base, dir) && fresh(filepath)
        invariant |owned| == dcount && fresh(owned) && Building(tail)
        invariant OnTrack(want, Contents(owned), dir, env.raw[i..], env.lstat, doffset, offset, count - dcount)
        invariant (atEnd <==> i == 0) && dcount <= i && (count == 0 ==> i == 0)
        decreases |env.raw| - i
      {
        atEnd := i == |env.raw|;
        if atEnd {
          break;
        }
        assert env.raw[i] in env.raw;
        var took;
        tail, doffset, took :=
          VisitNext(filepath, base, tail, doffset, offset, dir, env.raw, i, env.lstat, want, count - dcount);
        if took {
          dcount := dcount + 1;
        }
        i := i + 1;
      }
      TrackEnds(want, Contents(owned), dir, env.raw[i..], env.lstat, doffset, offset, count - dcount);
      Finish(tail);
      eof := atEnd;
    }
  }

  lemma ContentsMore(nodes: seq<Node>, e: Node)
    ensures Contents([]) == [] && Contents(nodes + [e]) == Contents(nodes) + [Entry(e.name, e.kind)]
  {}

  lemma TrackStarts(want: seq<Entry>, dir: Name, env: DirEnv, offset: nat, count: nat)
    requires dir != [] && want == Scan(Listed(dir, env.raw, env.lstat), 0, offset, count)
    ensures OnTrack(want, Contents([]), dir, env.raw, env.lstat, 0, offset, count)
  {}

  // ---------- Whole runs ----------

  datatype Call = Call(dir: Name, offset: nat, count: nat, env: DirEnv)

  ghost predicate Callable(c: Call)
  {
    && c.offset < TWO32 && c.count < TWO32 && 0 !in c.dir && (forall name :: name in c.env.raw ==> 0 !in name)
    && (c.env.statOk ==> 0 < |c.dir| < MAXPATHLEN)
  }

  ghost function Together(lists: seq<set<Node>>): set<Node>
  {
    if lists == [] then {} else Together(lists[..|lists| - 1]) + lists[|lists| - 1]
  }

  /** Reply ownership over every run of readdir calls, failing ones included: the lists the calls allocate
      are disjoint, each has been freed by the call after it, only the last may be live, and every
      directory stream is closed again. */
  method ServeAll(svc: Service, calls: seq<Call>) returns (ghost lists: seq<set<Node>>)
    requires svc.Valid() && forall c :: c in calls ==> Callable(c)
    modifies svc
    ensures svc.Valid() && svc.dirs == old(svc.dirs) && |lists| == |calls|
    ensures forall i, j :: 0 <= i < j < |lists| ==> lists[i] !! lists[j]
    ensures forall i :: 0 <= i < |lists| ==> fresh(lists[i])
    ensures calls != [] ==>
              && Elements(svc.owned) == lists[|lists| - 1]
              && svc.freed == old(svc.freed + Elements(svc.owned)) + Together(lists[..|lists| - 1])
  {
    hide Scan, Listed, Contents, IsList;
    lists := [];
    for k := 0 to |calls|
      invariant svc.Valid() && svc.dirs == old(svc.dirs) && |lists| == k
      invariant forall i, j :: 0 <= i < j < |lists| ==> lists[i] !! lists[j]
      invariant forall i :: 0 <= i < |lists| ==> fresh(lists[i]) && lists[i] <= svc.mallocs
      invariant k == 0 ==> svc.freed == old(svc.freed) && svc.owned == old(svc.owned)
      invariant k > 0 ==> Elements(svc.owned) == lists[k - 1]
      invariant k > 0 ==> svc.freed == old(svc.freed + Elements(svc.owned)) + Together(lists[..k - 1])
    {
      assert calls[k] in calls;
      ghost var before := svc.mallocs;
      svc.Readdir(calls[k].dir, calls[k].offset, calls[k].count, calls[k].env);
      assert before == svc.freed;
      ghost var had := lists;
      lists := lists + [Elements(svc.owned)];
      assert lists[..k] == had;
      assert k > 0 ==> Together(had) == Together(had[..k - 1]) + had[k - 1];
    }
  }
}
