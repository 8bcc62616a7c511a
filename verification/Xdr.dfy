/** XDR, RFC 4506: a schema language covering what the protocol uses, its values, and their encoding.
    One round-trip theorem serves every message type. */
module Xdr {
  import opened Bytes

  datatype Type =
    | Void
    | Int                              // int and enum: sections 4.1 and 4.3
    | Uint                             // unsigned int: section 4.2
    | Bool                             // section 4.4
    | Hyper                            // unsigned hyper: section 4.5
    | Opaque(max: nat)                 // variable-length opaque: section 4.10
    | Str(max: nat)                    // string: section 4.11
    | Pair(fst: Type, snd: Type)       // structures, as nested pairs: section 4.14
    | Union(arms: Arms)                // discriminated union: section 4.15
    | Chain(elem: Type)                // linked list of optional data: section 4.19

  datatype Arms = Otherwise(body: Type) | Case(tag: int, body: Type, rest: Arms)

  datatype Value =
    | VVoid | VInt(i: int) | VUint(u: nat) | VBool(b: bool) | VHyper(h: nat) | VBytes(bytes: seq<Byte>)
    | VPair(a: Value, b': Value) | VUnion(tag: int, body: Value) | VNil | VCons(head: Value, tail: Value)

  function Select(arms: Arms, tag: int): Type
  {
    match arms
    case Otherwise(body) => body
    case Case(t, body, rest) => if t == tag then body else Select(rest, tag)
  }

  predicate IsInt32(i: int) { -TWO31 <= i < TWO31 }

  /** `v` is a value of type `t`, within all bounds; strings are C strings, so contain no NUL. */
  predicate Fits(t: Type, v: Value)
    decreases v
  {
    match v
    case VVoid => t.Void?
    case VInt(i) => t.Int? && IsInt32(i)
    case VUint(u) => t.Uint? && u < TWO32
    case VBool(_) => t.Bool?
    case VHyper(h) => t.Hyper? && h < TWO64
    case VBytes(bs) => |bs| < TWO32 && ((t.Opaque? && |bs| <= t.max) || (t.Str? && |bs| <= t.max && 0 !in bs))
    case VPair(a, b) => t.Pair? && Fits(t.fst, a) && Fits(t.snd, b)
    case VUnion(tag, body) => t.Union? && IsInt32(tag) && Fits(Select(t.arms, tag), body)
    case VNil => t.Chain?
    case VCons(head, tail) => t.Chain? && Fits(t.elem, head) && Fits(t, tail)
  }

  // ---------- Numbers ----------

  /** Four bytes, big-endian. */
  function Put32(n: nat): (bs: seq<Byte>)
    requires n < TWO32
    ensures |bs| == 4
  {
    [n / 0x100_0000, n / 0x1_0000 % 256, n / 256 % 256, n % 256]
  }

  function Get32(bs: seq<Byte>): (n: nat)
    requires |bs| >= 4
    ensures n < TWO32
  {
    var a: int, b: int, c: int, d: int := bs[0], bs[1], bs[2], bs[3];
    a * 0x100_0000 + b * 0x1_0000 + c * 256 + d
  }

  lemma Number32(n: nat, rest: seq<Byte>)
    requires n < TWO32
    ensures Get32(Put32(n) + rest) == n && (Put32(n) + rest)[4..] == rest
  {
    var a, b, c := n / 256, n / 0x1_0000, n / 0x100_0000;
    assert b == a / 256 && c == b / 256;
    assert n == a * 256 + n % 256 && a == b * 256 + a % 256 && b == c * 256 + b % 256;
    var bs := Put32(n) + rest;
    assert bs[0] == c && bs[1] == b % 256 && bs[2] == a % 256 && bs[3] == n % 256;
  }

  /** The number a byte string stands for, most significant byte first, whatever its length. */
  function Number(bs: seq<Byte>): nat
  {
    if bs == [] then 0 else Number(bs[..|bs| - 1]) * 256 + bs[|bs| - 1]
  }

  lemma NumberSnoc(bs: seq<Byte>, x: Byte)
    ensures Number(bs + [x]) == Number(bs) * 256 + x
  {
    assert (bs + [x])[..|bs|] == bs;
  }

  /** Byte strings of equal length stand for different numbers. */
  lemma {:induction false} NumberUnique(a: seq<Byte>, b: seq<Byte>)
    requires |a| == |b| && Number(a) == Number(b)
    ensures a == b
  {
    if a != [] {
      var n := |a| - 1;
      NumberUnique(a[..n], b[..n]);
      assert a == a[..n] + [a[n]] && b == b[..n] + [b[n]];
    }
  }

  /** Appending four bytes. */
  lemma NumberWord(a: seq<Byte>, w: seq<Byte>)
    requires |w| == 4
    ensures Number(w) == Get32(w) && Number(a + w) == Number(a) * TWO32 + Number(w)
  {
    FourMore(a, w);
    FourMore([], w);
    assert [] + w == w;
  }

  lemma FourMore(a: seq<Byte>, w: seq<Byte>)
    requires |w| == 4
    ensures Number(a + w) == Number(a) * TWO32 + Get32(w)
  {
    NumberSnoc(a, w[0]);
    NumberSnoc(a + [w[0]], w[1]);
    NumberSnoc(a + [w[0]] + [w[1]], w[2]);
    NumberSnoc(a + [w[0]] + [w[1]] + [w[2]], w[3]);
    assert a + w == a + [w[0]] + [w[1]] + [w[2]] + [w[3]];
  }

  lemma WordValue(n: nat)
    requires n < TWO32
    ensures Number(Put32(n)) == n
  {
    Number32(n, []);
    assert Put32(n) + [] == Put32(n);
    NumberWord([], Put32(n));
  }

  /** Byte strings of equal length, compared as memcmp does. */
  predicate Before(a: seq<Byte>, b: seq<Byte>)
    requires |a| == |b|
  {
    a != [] && (a[0] < b[0] || (a[0] == b[0] && Before(a[1..], b[1..])))
  }

  lemma {:induction false} BeforeSnoc(a: seq<Byte>, x: Byte, b: seq<Byte>, y: Byte)
    requires |a| == |b|
    ensures Before(a + [x], b + [y]) <==> Before(a, b) || (a == b && x < y)
  {
    if a == [] {
      assert !Before((a + [x])[1..], (b + [y])[1..]);
    } else {
      assert (a + [x])[1..] == a[1..] + [x] && (b + [y])[1..] == b[1..] + [y];
      BeforeSnoc(a[1..], x, b[1..], y);
      assert a == [a[0]] + a[1..] && b == [b[0]] + b[1..];
    }
  }

  /** Byte strings of equal length are ordered as the numbers they stand for. */
  lemma {:induction false} OrderOfValues(a: seq<Byte>, b: seq<Byte>)
    requires |a| == |b|
    ensures Before(a, b) <==> Number(a) < Number(b)
  {
    if a != [] {
      var n := |a| - 1;
      var a', b' := a[..n], b[..n];
      OrderOfValues(a', b');
      assert a == a' + [a[n]] && b == b' + [b[n]];
      BeforeSnoc(a', a[n], b', b[n]);
      if Number(a') == Number(b') {
        NumberUnique(a', b');
      }
    }
  }

  /** The most significant byte comes first: 32-bit and 64-bit numbers are ordered as their encodings are. */
  lemma BigEndian(m: nat, n: nat)
    requires m < TWO64 && n < TWO64
    ensures m < TWO32 && n < TWO32 ==> (m < n <==> Before(Put32(m), Put32(n)))
    ensures |Encode(Hyper, VHyper(m))| == |Encode(Hyper, VHyper(n))| == 8
    ensures m < n <==> Before(Encode(Hyper, VHyper(m)), Encode(Hyper, VHyper(n)))
  {
    if m < TWO32 && n < TWO32 {
      WordValue(m);
      WordValue(n);
      OrderOfValues(Put32(m), Put32(n));
    }
    HyperValue(m);
    HyperValue(n);
    OrderOfValues(Encode(Hyper, VHyper(m)), Encode(Hyper, VHyper(n)));
  }

  lemma HyperValue(h: nat)
    requires h < TWO64
    ensures |Encode(Hyper, VHyper(h))| == 8 && Number(Encode(Hyper, VHyper(h))) == h
  {
    WordValue(h / TWO32);
    WordValue(h % TWO32);
    NumberWord(Put32(h / TWO32), Put32(h % TWO32));
  }

  /** Two's complement. */
  function ToU(i: int): nat
    requires IsInt32(i)
  {
    if i < 0 then i + TWO32 else i
  }

  function ToI(n: nat): (i: int)
    requires n < TWO32
    ensures IsInt32(i)
  {
    if n < TWO31 then n else n - TWO32
  }

  // ---------- Opaque data ----------

  function PadLen(n: nat): nat { (4 - n % 4) % 4 }

  function Padding(n: nat): seq<Byte> { seq(PadLen(n), _ => 0) }

  function CString(bs: seq<Byte>): (s: seq<Byte>)
    ensures 0 !in s && |s| <= |bs|
    ensures 0 !in bs ==> s == bs
  {
    if bs == [] || bs[0] == 0 then [] else [bs[0]] + CString(bs[1..])
  }

  // ---------- Encoding and decoding ----------

  function Encode(t: Type, v: Value): seq<Byte>
    requires Fits(t, v)
    decreases v
  {
    match v
    case VVoid => []
    case VInt(i) => Put32(ToU(i))
    case VUint(u) => Put32(u)
    case VBool(b) => Put32(if b then 1 else 0)
    case VHyper(h) => Put32(h / TWO32) + Put32(h % TWO32)
    case VBytes(bs) => Put32(|bs|) + bs + Padding(|bs|)
    case VPair(a, b) => Encode(t.fst, a) + Encode(t.snd, b)
    case VUnion(tag, body) => Put32(ToU(tag)) + Encode(Select(t.arms, tag), body)
    case VNil => Put32(0)
    case VCons(head, tail) => Put32(1) + Encode(t.elem, head) + Encode(t, tail)
  }

  type Decoded = Option<(Value, seq<Byte>)>

  function DecodeBytes(max: nat, bs: seq<Byte>): (r: Option<(seq<Byte>, seq<Byte>)>)
    ensures r.Some? ==> |r.value.0| <= max && |r.value.0| < TWO32 && |r.value.1| <= |bs|
  {
    if |bs| < 4 then None else
    var len := Get32(bs);
    if len > max || 4 + len + PadLen(len) > |bs| then None
    else Some((bs[4..4 + len], bs[4 + len + PadLen(len)..]))
  }

  /** Reads one value of type `t` off the front; padding bytes and nonzero booleans are read leniently. */
  function Decode(t: Type, bs: seq<Byte>): (r: Decoded)
    ensures r.Some? ==> |r.value.1| <= |bs|
    decreases |bs|, t
  {
    match t
    case Void => Some((VVoid, bs))
    case Int => if |bs| < 4 then None else Some((VInt(ToI(Get32(bs))), bs[4..]))
    case Uint => if |bs| < 4 then None else Some((VUint(Get32(bs)), bs[4..]))
    case Bool => if |bs| < 4 then None else Some((VBool(Get32(bs) != 0), bs[4..]))
    case Hyper => if |bs| < 8 then None else Some((VHyper(Get32(bs) * TWO32 + Get32(bs[4..])), bs[8..]))
    case Opaque(max) =>
      var r := DecodeBytes(max, bs);
      if r.None? then None else Some((VBytes(r.value.0), r.value.1))
    case Str(max) =>
      var r := DecodeBytes(max, bs);
      if r.None? then None else Some((VBytes(CString(r.value.0)), r.value.1))
    case Pair(fst, snd) =>
      var a := Decode(fst, bs);
      if a.None? then None else
      var b := Decode(snd, a.value.1);
      if b.None? then None else Some((VPair(a.value.0, b.value.0), b.value.1))
    case Union(arms) =>
      if |bs| < 4 then None else
      var tag := ToI(Get32(bs));
      var body := Decode(Select(arms, tag), bs[4..]);
      if body.None? then None else Some((VUnion(tag, body.value.0), body.value.1))
    case Chain(elem) =>
      if |bs| < 4 then None
      else if Get32(bs) == 0 then Some((VNil, bs[4..]))
      else
        var head := Decode(elem, bs[4..]);
        if head.None? then None else
        var tail := Decode(t, head.value.1);
        if tail.None? then None else Some((VCons(head.value.0, tail.value.0), tail.value.1))
  }

  // ---------- The theorems ----------

  lemma BytesRoundTrip(max: nat, bytes: seq<Byte>, rest: seq<Byte>)
    requires |bytes| <= max && |bytes| < TWO32
    ensures DecodeBytes(max, Put32(|bytes|) + bytes + Padding(|bytes|) + rest) == Some((bytes, rest))
  {
    var tail := bytes + Padding(|bytes|) + rest;
    assert Put32(|bytes|) + bytes + Padding(|bytes|) + rest == Put32(|bytes|) + tail;
    Number32(|bytes|, tail);
    assert (Put32(|bytes|) + tail)[4..4 + |bytes|] == tail[..|bytes|] == bytes;
    assert (Put32(|bytes|) + tail)[4 + |bytes| + PadLen(|bytes|)..] == tail[|bytes| + PadLen(|bytes|)..] == rest;
  }

  /** Types without parts round-trip. */
  lemma ScalarRoundTrip(t: Type, v: Value, rest: seq<Byte>)
    requires Fits(t, v) && (v.VVoid? || v.VInt? || v.VUint? || v.VBool? || v.VHyper? || v.VBytes? || v.VNil?)
    ensures Decode(t, Encode(t, v) + rest) == Some((v, rest))
  {
    hide Put32, Get32, Padding, PadLen, DecodeBytes;
    match v
    case VVoid => assert [] + rest == rest;
    case VInt(i) => Number32(ToU(i), rest);
    case VUint(u) => Number32(u, rest);
    case VBool(b) => Number32(if b then 1 else 0, rest);
    case VHyper(h) =>
      var hi, lo := Put32(h / TWO32), Put32(h % TWO32);
      assert hi + lo + rest == hi + (lo + rest);
      Number32(h / TWO32, lo + rest);
      Number32(h % TWO32, rest);
    case VBytes(bs) => BytesRoundTrip(t.max, bs, rest);
    case VNil => Number32(0, rest);
  }

  /** How compound values are encoded, ... */
  lemma EncodeParts(t: Type, v: Value)
    requires Fits(t, v)
    ensures v.VPair? ==> Encode(t, v) == Encode(t.fst, v.a) + Encode(t.snd, v.b')
    ensures v.VUnion? ==> Encode(t, v) == Put32(ToU(v.tag)) + Encode(Select(t.arms, v.tag), v.body)
    ensures v.VCons? ==> Encode(t, v) == Put32(1) + Encode(t.elem, v.head) + Encode(t, v.tail)
  {
    hide Put32, ToU, Select;
  }

  /** ... and decoded: first part first. */
  lemma DecodeParts(t: Type, bs: seq<Byte>)
    ensures t.Pair? && Decode(t.fst, bs).Some? ==>
              var (a, more) := Decode(t.fst, bs).value;
              var b := Decode(t.snd, more);
              b.Some? ==> Decode(t, bs) == Some((VPair(a, b.value.0), b.value.1))
    ensures t.Union? && |bs| >= 4 ==>
              var tag := ToI(Get32(bs));
              var body := Decode(Select(t.arms, tag), bs[4..]);
              body.Some? ==> Decode(t, bs) == Some((VUnion(tag, body.value.0), body.value.1))
    ensures t.Chain? && |bs| >= 4 && Get32(bs) != 0 && Decode(t.elem, bs[4..]).Some? ==>
              var (head, more) := Decode(t.elem, bs[4..]).value;
              var tail := Decode(t, more);
              tail.Some? ==> Decode(t, bs) == Some((VCons(head, tail.value.0), tail.value.1))
  {
    hide Get32, ToI, Select, DecodeBytes;
  }

  /** Structures, unions and list cells round-trip if their parts do. */
  lemma PairRoundTrip(t: Type, a: Value, b: Value, rest: seq<Byte>)
    requires Fits(t, VPair(a, b))
    requires var tail := Encode(t.snd, b) + rest;
             Decode(t.fst, Encode(t.fst, a) + tail) == Some((a, tail)) && Decode(t.snd, tail) == Some((b, rest))
    ensures Decode(t, Encode(t, VPair(a, b)) + rest) == Some((VPair(a, b), rest))
  {
    hide Encode, Decode;
    var x, y := Encode(t.fst, a), Encode(t.snd, b);
    assert x + y + rest == x + (y + rest);
    EncodeParts(t, VPair(a, b));
    DecodeParts(t, x + (y + rest));
  }

  lemma UnionRoundTrip(t: Type, tag: int, body: Value, rest: seq<Byte>)
    requires Fits(t, VUnion(tag, body))
    requires Decode(Select(t.arms, tag), Encode(Select(t.arms, tag), body) + rest) == Some((body, rest))
    ensures Decode(t, Encode(t, VUnion(tag, body)) + rest) == Some((VUnion(tag, body), rest))
  {
    hide Encode, Decode, Put32, Get32, Select;
    var x, y := Put32(ToU(tag)), Encode(Select(t.arms, tag), body);
    assert x + y + rest == x + (y + rest);
    Number32(ToU(tag), y + rest);
    EncodeParts(t, VUnion(tag, body));
    DecodeParts(t, x + (y + rest));
  }

  lemma ConsRoundTrip(t: Type, head: Value, tail: Value, rest: seq<Byte>)
    requires Fits(t, VCons(head, tail))
    requires var later := Encode(t, tail) + rest;
             Decode(t.elem, Encode(t.elem, head) + later) == Some((head, later)) && Decode(t, later) == Some((tail, rest))
    ensures Decode(t, Encode(t, VCons(head, tail)) + rest) == Some((VCons(head, tail), rest))
  {
    hide Encode, Decode, Put32, Get32;
    var x, y := Encode(t.elem, head), Encode(t, tail);
    assert Put32(1) + x + y + rest == Put32(1) + (x + (y + rest));
    Number32(1, x + (y + rest));
    EncodeParts(t, VCons(head, tail));
    DecodeParts(t, Put32(1) + (x + (y + rest)));
  }

  /** Wire round trip: every in-bounds value of every type, lists of any length included, decodes to
      itself from the front of any byte string that starts with its encoding. */
  lemma {:induction false} RoundTrip(t: Type, v: Value, rest: seq<Byte>)
    requires Fits(t, v)
    ensures Decode(t, Encode(t, v) + rest) == Some((v, rest))
    decreases v
  {
    hide Encode, Decode;
    match v
    case VPair(a, b) =>
      RoundTrip(t.fst, a, Encode(t.snd, b) + rest);
      RoundTrip(t.snd, b, rest);
      PairRoundTrip(t, a, b, rest);
    case VUnion(tag, body) =>
      RoundTrip(Select(t.arms, tag), body, rest);
      UnionRoundTrip(t, tag, body, rest);
    case VCons(head, tail) =>
      RoundTrip(t.elem, head, Encode(t, tail) + rest);
      RoundTrip(t, tail, rest);
      ConsRoundTrip(t, head, tail, rest);
    case _ =>
      ScalarRoundTrip(t, v, rest);
  }

  // ---------- The format, stated independently ----------

  /** Four bytes standing for `n`. */
  ghost predicate Word(bs: seq<Byte>, n: int) { |bs| == 4 && Number(bs) == n }

  /** Four bytes standing for `i` in two's complement. */
  ghost predicate SignedWord(bs: seq<Byte>, i: int) { Word(bs, if i < 0 then TWO32 + i else i) }

  /** The length, the bytes, and the fewest zero bytes that fill up to a multiple of four. */
  ghost predicate Counted(data: seq<Byte>, bs: seq<Byte>)
  {
    && |bs| % 4 == 0 && 4 + |data| <= |bs| < 4 + |data| + 4
    && Word(bs[..4], |data|) && bs[4..4 + |data|] == data
    && forall i :: 4 + |data| <= i < |bs| ==> bs[i] == 0
  }

  /** `bs` is the representation of `v` as RFC 4506 describes it, section by section: numbers are big-endian and
      negative ones in two's complement, booleans are 0 and 1, variable-length data is its length, the bytes and
      just enough zero bytes to reach a multiple of four, and compound values are their parts in order. */
  ghost predicate Image(t: Type, v: Value, bs: seq<Byte>)
    decreases v
  {
    match v
    case VVoid => bs == []
    case VInt(i) => SignedWord(bs, i)
    case VUint(u) => Word(bs, u)
    case VBool(b) => Word(bs, if b then 1 else 0)
    case VHyper(h) => |bs| == 8 && Number(bs) == h
    case VBytes(data) => Counted(data, bs)
    case VPair(a, b) =>
      t.Pair? && exists k :: 0 <= k <= |bs| && Image(t.fst, a, bs[..k]) && Image(t.snd, b, bs[k..])
    case VUnion(tag, body) =>
      t.Union? && |bs| >= 4 && SignedWord(bs[..4], tag) && Image(Select(t.arms, tag), body, bs[4..])
    case VNil => Word(bs, 0)
    case VCons(head, tail) =>
      && t.Chain? && |bs| >= 4 && Word(bs[..4], 1)
      && exists k :: 4 <= k <= |bs| && Image(t.elem, head, bs[4..k]) && Image(t, tail, bs[k..])
  }

  lemma WordIs(bs: seq<Byte>, n: nat)
    requires n < TWO32
    ensures Word(bs, n) <==> bs == Put32(n)
  {
    WordValue(n);
    if Word(bs, n) {
      NumberUnique(bs, Put32(n));
    }
  }

  lemma HyperIs(bs: seq<Byte>, h: nat)
    requires h < TWO64
    ensures Image(Hyper, VHyper(h), bs) <==> bs == Encode(Hyper, VHyper(h))
  {
    HyperValue(h);
    if |bs| == 8 && Number(bs) == h {
      NumberUnique(bs, Encode(Hyper, VHyper(h)));
    }
  }

  lemma PaddedLength(len: nat, m: nat)
    requires m % 4 == 0 && 4 + len <= m < 4 + len + 4
    ensures m == 4 + len + PadLen(len)
  {}

  lemma EncodingIsCounted(data: seq<Byte>)
    requires |data| < TWO32
    ensures Counted(data, Put32(|data|) + data + Padding(|data|))
  {
    var full := Put32(|data|) + data + Padding(|data|);
    FourTimes(|data|, 0);
    assert |full| == 4 + |data| + PadLen(|data|);
    hide Put32, Word;
    assert full[..4] == Put32(|data|) && full[4..4 + |data|] == data;
    WordIs(full[..4], |data|);
    forall i | 4 + |data| <= i < |full| ensures full[i] == 0 {
      assert full[i] == Padding(|data|)[i - 4 - |data|];
    }
  }

  lemma OpaqueIs(bs: seq<Byte>, data: seq<Byte>)
    requires |data| < TWO32
    ensures Counted(data, bs) <==> bs == Put32(|data|) + data + Padding(|data|)
  {
    EncodingIsCounted(data);
    if Counted(data, bs) {
      PaddedLength(|data|, |bs|);
      WordIs(bs[..4], |data|);
      hide Put32, PadLen;
      assert bs == bs[..4] + bs[4..4 + |data|] + bs[4 + |data|..];
      var pad := bs[4 + |data|..];
      forall i | 0 <= i < |pad| ensures pad[i] == Padding(|data|)[i] {
        assert pad[i] == bs[4 + |data| + i];
      }
      assert pad == Padding(|data|);
    }
  }

  /** The unique representation of a part: `y` represents `v` iff it is `x`. */
  ghost predicate Only(t: Type, v: Value, x: seq<Byte>) { forall y :: Image(t, v, y) <==> y == x }

  /** Where the first part of a represented structure or list cell ends. */
  lemma FirstEnds(t: Type, v: Value, bs: seq<Byte>) returns (k: nat)
    requires (v.VPair? || v.VCons?) && Image(t, v, bs)
    ensures k <= |bs| && (v.VPair? ==> t.Pair? && Image(t.fst, v.a, bs[..k]) && Image(t.snd, v.b', bs[k..]))
    ensures v.VCons? ==>
              t.Chain? && 4 <= k && Word(bs[..4], 1) && Image(t.elem, v.head, bs[4..k]) && Image(t, v.tail, bs[k..])
  {
    hide Word;
    if v.VPair? {
      k :| 0 <= k <= |bs| && Image(t.fst, v.a, bs[..k]) && Image(t.snd, v.b', bs[k..]);
    } else {
      k :| 4 <= k <= |bs| && Image(t.elem, v.head, bs[4..k]) && Image(t, v.tail, bs[k..]);
    }
  }

  lemma PairIs(t: Type, a: Value, b: Value, bs: seq<Byte>)
    requires Fits(t, VPair(a, b)) && Only(t.fst, a, Encode(t.fst, a)) && Only(t.snd, b, Encode(t.snd, b))
    ensures Image(t, VPair(a, b), bs) <==> bs == Encode(t, VPair(a, b))
  {
    EncodeParts(t, VPair(a, b));
    hide Encode, Only, Image;
    PartsAre(t, a, b, bs, Encode(t.fst, a), Encode(t.snd, b));
  }

  lemma PartsAre(t: Type, a: Value, b: Value, bs: seq<Byte>, x: seq<Byte>, y: seq<Byte>)
    requires t.Pair? && Only(t.fst, a, x) && Only(t.snd, b, y)
    ensures Image(t, VPair(a, b), bs) <==> bs == x + y
  {
    hide Only, Image;
    if bs == x + y {
      TwoSlices(x, y);
      TwoParts(t, a, b, bs, |x|, x, y);
    }
    if Image(t, VPair(a, b), bs) {
      var k := FirstEnds(t, VPair(a, b), bs);
      OnlyOne(t.fst, a, x, bs[..k]);
      OnlyOne(t.snd, b, y, bs[k..]);
      assert bs == bs[..k] + bs[k..];
    }
  }

  lemma TwoSlices(x: seq<Byte>, y: seq<Byte>)
    ensures (x + y)[..|x|] == x && (x + y)[|x|..] == y
  {}

  lemma TwoParts(t: Type, a: Value, b: Value, bs: seq<Byte>, k: nat, x: seq<Byte>, y: seq<Byte>)
    requires t.Pair? && k <= |bs| && bs[..k] == x && bs[k..] == y && Only(t.fst, a, x) && Only(t.snd, b, y)
    ensures Image(t, VPair(a, b), bs)
  {}

  lemma OnlyOne(t: Type, v: Value, x: seq<Byte>, y: seq<Byte>)
    requires Only(t, v, x)
    ensures Image(t, v, y) <==> y == x
  {}

  lemma UnionIs(t: Type, tag: int, body: Value, bs: seq<Byte>)
    requires Fits(t, VUnion(tag, body))
    requires Only(Select(t.arms, tag), body, Encode(Select(t.arms, tag), body))
    ensures Image(t, VUnion(tag, body), bs) <==> bs == Encode(t, VUnion(tag, body))
  {
    EncodeParts(t, VUnion(tag, body));
    hide Encode, Put32, Select, Word;
    var x, y := Put32(ToU(tag)), Encode(Select(t.arms, tag), body);
    if |bs| >= 4 {
      WordIs(bs[..4], ToU(tag));
      assert bs == bs[..4] + bs[4..];
      if bs == x + y {
        assert bs[..4] == x && bs[4..] == y;
      }
    }
  }

  lemma ConsIs(t: Type, head: Value, tail: Value, bs: seq<Byte>)
    requires Fits(t, VCons(head, tail)) && Only(t.elem, head, Encode(t.elem, head)) && Only(t, tail, Encode(t, tail))
    ensures Image(t, VCons(head, tail), bs) <==> bs == Encode(t, VCons(head, tail))
  {
    EncodeParts(t, VCons(head, tail));
    hide Encode, Put32, Only, Image;
    CellIs(t, head, tail, bs, Encode(t.elem, head), Encode(t, tail));
  }

  lemma CellIs(t: Type, head: Value, tail: Value, bs: seq<Byte>, x: seq<Byte>, y: seq<Byte>)
    requires t.Chain? && Only(t.elem, head, x) && Only(t, tail, y)
    ensures Image(t, VCons(head, tail), bs) <==> bs == Put32(1) + x + y
  {
    hide Put32, Word, Only, Image;
    if bs == Put32(1) + x + y {
      ThreeParts(Put32(1), x, y);
      WordIs(bs[..4], 1);
      CellParts(t, head, tail, bs, 4 + |x|, x, y);
    }
    if Image(t, VCons(head, tail), bs) {
      var k := FirstEnds(t, VCons(head, tail), bs);
      WordIs(bs[..4], 1);
      OnlyOne(t.elem, head, x, bs[4..k]);
      OnlyOne(t, tail, y, bs[k..]);
      ThreeSlices(bs, 4, k);
    }
  }

  lemma ThreeSlices(bs: seq<Byte>, i: nat, k: nat)
    requires i <= k <= |bs|
    ensures bs == bs[..i] + bs[i..k] + bs[k..]
  {}

  lemma ThreeParts(w: seq<Byte>, x: seq<Byte>, y: seq<Byte>)
    requires |w| == 4
    ensures var all := w + x + y; all[..4] == w && all[4..4 + |x|] == x && all[4 + |x|..] == y
  {}

  lemma CellParts(t: Type, head: Value, tail: Value, bs: seq<Byte>, k: nat, x: seq<Byte>, y: seq<Byte>)
    requires t.Chain? && 4 <= k <= |bs| && Word(bs[..4], 1) && bs[4..k] == x && bs[k..] == y
    requires Only(t.elem, head, x) && Only(t, tail, y)
    ensures Image(t, VCons(head, tail), bs)
  {
    hide Word;
  }

  /** The encoder produces exactly the standard's representation of every in-bounds value, and there is only one. */
  lemma {:induction false} EncodingIsStandard(t: Type, v: Value, bs: seq<Byte>)
    requires Fits(t, v)
    ensures Image(t, v, bs) <==> bs == Encode(t, v)
    decreases v
  {
    match v
    case VVoid =>
    case VInt(i) => WordIs(bs, ToU(i));
    case VUint(u) => WordIs(bs, u);
    case VBool(b) => WordIs(bs, if b then 1 else 0);
    case VHyper(h) => HyperIs(bs, h);
    case VBytes(data) => OpaqueIs(bs, data);
    case VNil => WordIs(bs, 0);
    case VPair(a, b) =>
      forall x ensures Image(t.fst, a, x) <==> x == Encode(t.fst, a) { EncodingIsStandard(t.fst, a, x); }
      forall x ensures Image(t.snd, b, x) <==> x == Encode(t.snd, b) { EncodingIsStandard(t.snd, b, x); }
      PairIs(t, a, b, bs);
    case VUnion(tag, body) =>
      var arm := Select(t.arms, tag);
      forall x ensures Image(arm, body, x) <==> x == Encode(arm, body) { EncodingIsStandard(arm, body, x); }
      UnionIs(t, tag, body, bs);
    case VCons(head, tail) =>
      forall x ensures Image(t.elem, head, x) <==> x == Encode(t.elem, head) { EncodingIsStandard(t.elem, head, x); }
      forall x ensures Image(t, tail, x) <==> x == Encode(t, tail) { EncodingIsStandard(t, tail, x); }
      ConsIs(t, head, tail, bs);
  }

  lemma FourTimes(a: nat, b: nat)
    ensures a % 4 == 0 && b % 4 == 0 ==> (a + b) % 4 == 0 && (4 + a) % 4 == 0
    ensures (4 + a + PadLen(a)) % 4 == 0
  {}

  /** How long an encoding is, in terms of its parts. */
  lemma EncodedLength(t: Type, v: Value)
    requires Fits(t, v)
    ensures |Encode(t, v)| ==
            match v
            case VVoid => 0
            case VHyper(_) => 8
            case VBytes(bs) => 4 + |bs| + PadLen(|bs|)
            case VPair(a, b) => |Encode(t.fst, a)| + |Encode(t.snd, b)|
            case VUnion(tag, body) => 4 + |Encode(Select(t.arms, tag), body)|
            case VCons(head, tail) => 4 + |Encode(t.elem, head)| + |Encode(t, tail)|
            case _ => 4
  {
    hide Put32, PadLen, ToU;
  }

  /** Every encoding is a whole number of four-byte units. */
  lemma {:induction false} Aligned(t: Type, v: Value)
    requires Fits(t, v)
    ensures |Encode(t, v)| % 4 == 0
    decreases v
  {
    hide Encode, PadLen;
    EncodedLength(t, v);
    match v
    case VBytes(bs) => FourTimes(|bs|, 0);
    case VPair(a, b) =>
      Aligned(t.fst, a);
      Aligned(t.snd, b);
      FourTimes(|Encode(t.fst, a)|, |Encode(t.snd, b)|);
    case VUnion(tag, body) =>
      Aligned(Select(t.arms, tag), body);
      FourTimes(|Encode(Select(t.arms, tag), body)|, 0);
    case VCons(head, tail) =>
      Aligned(t.elem, head);
      Aligned(t, tail);
      FourTimes(|Encode(t.elem, head)|, |Encode(t, tail)|);
      FourTimes(|Encode(t.elem, head)| + |Encode(t, tail)|, 0);
    case _ =>
  }

  /** Whatever bytes arrive, what the decoder accepts is within the type's bounds. */
  lemma {:induction false} DecodedFits(t: Type, bs: seq<Byte>)
    ensures Decode(t, bs).Some? ==> Fits(t, Decode(t, bs).value.0)
    decreases |bs|, t
  {
    match t
    case Pair(fst, snd) =>
      DecodedFits(fst, bs);
      if Decode(fst, bs).Some? {
        DecodedFits(snd, Decode(fst, bs).value.1);
      }
    case Union(arms) =>
      if |bs| >= 4 {
        DecodedFits(Select(arms, ToI(Get32(bs))), bs[4..]);
      }
    case Chain(elem) =>
      if |bs| >= 4 && Get32(bs) != 0 {
        DecodedFits(elem, bs[4..]);
        if Decode(elem, bs[4..]).Some? {
          DecodedFits(t, Decode(elem, bs[4..]).value.1);
        }
      }
    case _ =>
  }

  /** Encodings are self-delimiting: equal byte strings carry equal values and equal remainders. */
  lemma Unambiguous(t: Type, v1: Value, v2: Value, r1: seq<Byte>, r2: seq<Byte>)
    requires Fits(t, v1) && Fits(t, v2) && Encode(t, v1) + r1 == Encode(t, v2) + r2
    ensures v1 == v2 && r1 == r2
  {
    RoundTrip(t, v1, r1);
    RoundTrip(t, v2, r2);
  }
}
