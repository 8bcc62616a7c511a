/** The contents of one regular file under POSIX pread, pwrite and ftruncate. */
module FileStore {
  import opened Bytes

  type Content = seq<Byte>

  /** The byte at `i`; positions past the end read as the zeros a later extension would expose. */
  function ByteAt(f: Content, i: nat): Byte { if i < |f| then f[i] else 0 }

  /** ftruncate: drops the tail or appends zeros. */
  function CutTo(f: Content, len: nat): Content
  {
    seq(len, i requires 0 <= i => ByteAt(f, i))
  }

  /** pwrite: overwrites in place, extends the file, and zero-fills any hole before `off`. */
  function WriteAt(f: Content, off: nat, data: seq<Byte>): Content
  {
    if data == [] then f
    else CutTo(f, off) + data + f[Min(off + |data|, |f|)..]
  }

  /** pread: the bytes of `f` that lie in `off..off + n`. */
  function ReadAt(f: Content, off: nat, n: nat): seq<Byte>
  {
    f[Min(off, |f|)..Min(off + n, |f|)]
  }

  /** What a write does, byte by byte. */
  lemma WrittenByte(f: Content, off: nat, data: seq<Byte>, i: nat)
    ensures |WriteAt(f, off, data)| == if data == [] then |f| else Max(|f|, off + |data|)
    ensures ByteAt(WriteAt(f, off, data), i) == if off <= i < off + |data| then data[i - off] else ByteAt(f, i)
  {}

  lemma SameBytes(f: Content, g: Content)
    requires |f| == |g| && forall i: nat :: ByteAt(f, i) == ByteAt(g, i)
    ensures f == g
  {
    forall i | 0 <= i < |f| ensures f[i] == g[i] {
      assert ByteAt(f, i) == ByteAt(g, i);
    }
  }

  /** Two adjacent writes are one write: the law that makes splitting a request harmless. */
  lemma WriteSplit(f: Content, off: nat, a: seq<Byte>, b: seq<Byte>)
    ensures WriteAt(WriteAt(f, off, a), off + |a|, b) == WriteAt(f, off, a + b)
  {
    hide WriteAt, ByteAt;
    var g := WriteAt(f, off, a);
    var l, r := WriteAt(g, off + |a|, b), WriteAt(f, off, a + b);
    forall i: nat ensures ByteAt(l, i) == ByteAt(r, i) && |l| == |r| {
      WrittenByte(f, off, a, i);
      WrittenByte(g, off + |a|, b, i);
      WrittenByte(f, off, a + b, i);
    }
    assert ByteAt(l, 0) == ByteAt(r, 0);
    SameBytes(l, r);
  }

  /** Two adjacent reads are one read, provided the first one was full. */
  lemma ReadSplit(f: Content, off: nat, a: nat, b: nat)
    requires |ReadAt(f, off, a)| == a
    ensures ReadAt(f, off, a) + ReadAt(f, off + a, b) == ReadAt(f, off, a + b)
  {
    if a == 0 {
      assert ReadAt(f, off, 0) == [];
    }
  }

  // ---------- Histories of effects on one file ----------

  datatype Effect = Wrote(off: nat, data: seq<Byte>) | Cut(len: nat) | Idle

  function Apply(f: Content, e: Effect): Content
  {
    match e
    case Wrote(off, data) => WriteAt(f, off, data)
    case Cut(len) => CutTo(f, len)
    case Idle => f
  }

  function Replay(f: Content, es: seq<Effect>): Content
  {
    if es == [] then f else Apply(Replay(f, es[..|es| - 1]), es[|es| - 1])
  }

  /** `e` stores a byte at position `i`. */
  predicate Sets(e: Effect, i: nat) { e.Wrote? && e.off <= i < e.off + |e.data| }

  /** `e` cuts position `i` off. */
  predicate Clears(e: Effect, i: nat) { e.Cut? && e.len <= i }

  /** `e` makes the file long enough to contain position `i`. */
  predicate Reaches(e: Effect, i: nat)
  {
    match e
    case Wrote(off, data) => data != [] && i < off + |data|
    case Cut(len) => i < len
    case Idle => false
  }

  predicate Touches(e: Effect, i: nat) { Sets(e, i) || Clears(e, i) }

  predicate Sizes(e: Effect, i: nat) { Reaches(e, i) || Clears(e, i) }

  predicate LastTouch(es: seq<Effect>, k: int, i: nat)
  {
    && 0 <= k < |es| && Touches(es[k], i)
    && forall j :: k < j < |es| ==> !Touches(es[j], i)
  }

  predicate LastSizing(es: seq<Effect>, k: int, i: nat)
  {
    && 0 <= k < |es| && Sizes(es[k], i)
    && forall j :: k < j < |es| ==> !Sizes(es[j], i)
  }

  lemma ApplyAt(f: Content, e: Effect, i: nat)
    ensures ByteAt(Apply(f, e), i) ==
            if Sets(e, i) then e.data[i - e.off] else if Clears(e, i) then 0 else ByteAt(f, i)
    ensures i < |Apply(f, e)| <==> Reaches(e, i) || (i < |f| && !Clears(e, i))
  {}

  /** A byte that nothing touches keeps its value. */
  lemma {:induction false} UntouchedByte(f: Content, es: seq<Effect>, i: nat)
    requires forall j :: 0 <= j < |es| ==> !Touches(es[j], i)
    ensures ByteAt(Replay(f, es), i) == ByteAt(f, i)
  {
    hide Apply, ByteAt;
    if es != [] {
      UntouchedByte(f, es[..|es| - 1], i);
      ApplyAt(Replay(f, es[..|es| - 1]), es[|es| - 1], i);
    }
  }

  /** Last writer wins: after any history, a touched byte is the one stored by the latest effect
      touching it, and zero if that effect cut it off. */
  lemma {:induction false} LastEffectWins(f: Content, es: seq<Effect>, k: nat, i: nat)
    requires LastTouch(es, k, i)
    ensures ByteAt(Replay(f, es), i) == if Sets(es[k], i) then es[k].data[i - es[k].off] else 0
  {
    hide Apply, ByteAt;
    var n := |es| - 1;
    ApplyAt(Replay(f, es[..n]), es[n], i);
    if k < n {
      LastEffectWins(f, es[..n], k, i);
    }
  }

  /** With no effect deciding about position `i`, it is inside the file iff it was at the start. */
  lemma {:induction false} UnsizedPosition(f: Content, es: seq<Effect>, i: nat)
    requires forall j :: 0 <= j < |es| ==> !Sizes(es[j], i)
    ensures i < |Replay(f, es)| <==> i < |f|
  {
    hide Apply, ByteAt;
    if es != [] {
      UnsizedPosition(f, es[..|es| - 1], i);
      ApplyAt(Replay(f, es[..|es| - 1]), es[|es| - 1], i);
    }
  }

  /** Position `i` is inside the file exactly when the latest effect that decided so reached it. */
  lemma {:induction false} LastSizingDecides(f: Content, es: seq<Effect>, k: nat, i: nat)
    requires LastSizing(es, k, i)
    ensures i < |Replay(f, es)| <==> Reaches(es[k], i)
  {
    hide Apply, ByteAt;
    var n := |es| - 1;
    ApplyAt(Replay(f, es[..n]), es[n], i);
    if k < n {
      LastSizingDecides(f, es[..n], k, i);
    }
  }

  /** A position stored to, and not cut off afterwards, is inside the file. */
  lemma {:induction false} StoredStaysInside(f: Content, es: seq<Effect>, k: nat, i: nat)
    requires LastTouch(es, k, i) && Sets(es[k], i)
    ensures i < |Replay(f, es)|
  {
    hide Apply, ByteAt;
    var n := |es| - 1;
    ApplyAt(Replay(f, es[..n]), es[n], i);
    if k < n {
      StoredStaysInside(f, es[..n], k, i);
    }
  }

  /** The byte at `i` after a history, all cases together. */
  lemma HistoryByte(f: Content, es: seq<Effect>, i: nat)
    ensures forall k :: LastTouch(es, k, i) ==>
              ByteAt(Replay(f, es), i) == if Sets(es[k], i) then es[k].data[i - es[k].off] else 0
    ensures (forall j :: 0 <= j < |es| ==> !Touches(es[j], i)) ==> ByteAt(Replay(f, es), i) == ByteAt(f, i)
  {
    forall k | LastTouch(es, k, i)
      ensures ByteAt(Replay(f, es), i) == if Sets(es[k], i) then es[k].data[i - es[k].off] else 0
    {
      LastEffectWins(f, es, k, i);
    }
    hide Replay, Touches;
    if forall j :: 0 <= j < |es| ==> !Touches(es[j], i) {
      UntouchedByte(f, es, i);
    }
  }

  /** Whether `i` is inside the file after a history, all cases together. */
  lemma HistorySize(f: Content, es: seq<Effect>, i: nat)
    ensures forall k :: LastSizing(es, k, i) ==> (i < |Replay(f, es)| <==> Reaches(es[k], i))
    ensures (forall j :: 0 <= j < |es| ==> !Sizes(es[j], i)) ==> (i < |Replay(f, es)| <==> i < |f|)
  {
    forall k | LastSizing(es, k, i) ensures i < |Replay(f, es)| <==> Reaches(es[k], i) {
      LastSizingDecides(f, es, k, i);
    }
    hide Replay, Sizes;
    if forall j :: 0 <= j < |es| ==> !Sizes(es[j], i) {
      UnsizedPosition(f, es, i);
    }
  }

  /** If some effect touches `i`, one of them is the last to do so. */
  lemma LastTouchExists(es: seq<Effect>, p: nat, i: nat) returns (k: nat)
    requires p < |es| && Touches(es[p], i)
    ensures p <= k && LastTouch(es, k, i)
    decreases |es| - p
  {
    k := p;
    if j :| p < j < |es| && Touches(es[j], i) {
      k := LastTouchExists(es, j, i);
    }
  }
}
