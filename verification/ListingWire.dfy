/** A directory listing as a wire message: the optional-data list of RFC 4506, section 4.19. */
module ListingWire {
  import opened Bytes
  import opened Listing
  import opened Xdr
  import P = Protocol

  function KindCode(k: Kind): int
  {
    match k
    case File => 0
    case Directory => 1
    case Link => 2
    case Unknown => 3
  }

  /** The optional-data list of the reply. */
  function ChainOf(es: seq<Entry>): Value
  {
    if es == [] then VNil
    else VCons(VPair(VBytes(es[0].name), VInt(KindCode(es[0].kind))), ChainOf(es[1..]))
  }

  /** The bytes of an OK reply. */
  function ReplyBytes(es: seq<Entry>, eof: bool): seq<Byte>
    requires WireNames(es)
  {
    ListingRoundTrip(es, eof, []);
    Encode(P.ResultType(1), ReplyValue(es, eof))
  }

  function ReplyValue(es: seq<Entry>, eof: bool): Value { VUnion(P.OK, VPair(ChainOf(es), VBool(eof))) }

  predicate WireNames(es: seq<Entry>) { forall e :: e in es ==> |e.name| <= MAXNAMELEN && 0 !in e.name }

  lemma {:induction false} ChainFits(es: seq<Entry>)
    requires WireNames(es)
    ensures Fits(Chain(P.EntryType), ChainOf(es))
  {
    if es != [] {
      assert es[0] in es;
      assert Fits(P.NameType, VBytes(es[0].name)) && Fits(Int, VInt(KindCode(es[0].kind)));
      assert Fits(P.EntryType, VPair(VBytes(es[0].name), VInt(KindCode(es[0].kind))));
      ChainFits(es[1..]);
    }
  }

  /** A listing reply of any length survives the wire. */
  lemma ListingRoundTrip(es: seq<Entry>, eof: bool, rest: seq<Byte>)
    requires WireNames(es)
    ensures Fits(P.ResultType(1), ReplyValue(es, eof))
    ensures Decode(P.ResultType(1), Encode(P.ResultType(1), ReplyValue(es, eof)) + rest) == Some((ReplyValue(es, eof), rest))
  {
    ChainFits(es);
    assert Select(Case(P.OK, P.DirList, Otherwise(Void)), P.OK) == P.DirList;
    assert Fits(Bool, VBool(eof));
    assert Fits(P.DirList, VPair(ChainOf(es), VBool(eof)));
    RoundTrip(P.ResultType(1), ReplyValue(es, eof), rest);
  }

  /** Entries on the wire: each a presence word, the name and the type code, and a zero word after the last. */
  ghost predicate EntriesAt(es: seq<Entry>, bs: seq<Byte>)
  {
    if es == [] then Word(bs, 0) else
    && |bs| >= 4 && Word(bs[..4], 1)
    && exists k :: 4 <= k <= |bs| - 4 && Counted(es[0].name, bs[4..k])
                   && TypeWord(es[0].kind, bs[k..k + 4]) && EntriesAt(es[1..], bs[k + 4..])
  }

  ghost predicate TypeWord(k: Kind, bs: seq<Byte>)
  {
    match k
    case File => Word(bs, 0)
    case Directory => Word(bs, 1)
    case Link => Word(bs, 2)
    case Unknown => Word(bs, 3)
  }

  lemma TypeBytes(k: Kind)
    ensures TypeWord(k, Encode(Int, VInt(KindCode(k)))) && |Encode(Int, VInt(KindCode(k)))| == 4
  {
    P.IntBytes(KindCode(k));
  }

  /** One entry and the list after it. */
  lemma EntryBytes(e: Entry, rest: seq<Entry>)
    requires WireNames([e] + rest)
    ensures Fits(Chain(P.EntryType), ChainOf([e] + rest)) && Fits(Chain(P.EntryType), ChainOf(rest))
    ensures Fits(P.NameType, VBytes(e.name))
    ensures Encode(Chain(P.EntryType), ChainOf([e] + rest)) ==
            Put32(1) + (Encode(P.NameType, VBytes(e.name)) + Encode(Int, VInt(KindCode(e.kind))))
            + Encode(Chain(P.EntryType), ChainOf(rest))
  {
    assert ([e] + rest)[1..] == rest && e in [e] + rest;
    ChainFits([e] + rest);
    ChainFits(rest);
    var entry := VPair(VBytes(e.name), VInt(KindCode(e.kind)));
    assert ChainOf([e] + rest) == VCons(entry, ChainOf(rest));
    assert Fits(P.EntryType, entry);
    hide Encode, Put32;
    EncodeParts(Chain(P.EntryType), ChainOf([e] + rest));
    EncodeParts(P.EntryType, entry);
  }

  lemma {:induction false} ChainLayout(es: seq<Entry>)
    requires WireNames(es)
    ensures Fits(Chain(P.EntryType), ChainOf(es)) && EntriesAt(es, Encode(Chain(P.EntryType), ChainOf(es)))
  {
    if es == [] {
      WordIs(Put32(0), 0);
    } else {
      var e, rest := es[0], es[1..];
      assert es == [e] + rest;
      EntryBytes(e, rest);
      ChainLayout(rest);
      P.DataBytes(P.NameType, e.name);
      TypeBytes(e.kind);
      WordIs(Put32(1), 1);
      var name, code := Encode(P.NameType, VBytes(e.name)), Encode(Int, VInt(KindCode(e.kind)));
      FourParts(Put32(1), name, code, Encode(Chain(P.EntryType), ChainOf(rest)));
      hide Encode, Put32, Counted, Word, TypeWord, ChainOf;
      assert 4 <= 4 + |name|;
    }
  }

  lemma FourParts(w: seq<Byte>, x: seq<Byte>, y: seq<Byte>, z: seq<Byte>)
    requires |w| == 4 && |y| == 4
    ensures var all, k := w + (x + y) + z, 4 + |x|;
            all[..4] == w && all[4..k] == x && all[k..k + 4] == y && all[k + 4..] == z
  {}

  lemma ListingParts(es: seq<Entry>, eof: bool)
    requires WireNames(es)
    ensures Fits(Chain(P.EntryType), ChainOf(es))
    ensures ReplyBytes(es, eof) ==
            Put32(0) + (Encode(Chain(P.EntryType), ChainOf(es)) + Put32(if eof then 1 else 0))
  {
    ListingRoundTrip(es, eof, []);
    ChainFits(es);
    assert Select(Case(P.OK, P.DirList, Otherwise(Void)), P.OK) == P.DirList;
    assert Fits(Bool, VBool(eof)) && Fits(P.DirList, VPair(ChainOf(es), VBool(eof)));
    assert Encode(Bool, VBool(eof)) == Put32(if eof then 1 else 0);
    hide Encode, Put32, ChainOf, Decode;
    EncodeParts(P.ResultType(1), ReplyValue(es, eof));
    EncodeParts(P.DirList, VPair(ChainOf(es), VBool(eof)));
  }

  /** The layout of an OK listing reply: the status, the entries in order, and the end-of-directory flag. */
  lemma ListingLayout(es: seq<Entry>, eof: bool)
    requires WireNames(es)
    ensures var bs := ReplyBytes(es, eof);
            && |bs| >= 8 && Word(bs[..4], 0) && EntriesAt(es, bs[4..|bs| - 4])
            && Word(bs[|bs| - 4..], if eof then 1 else 0)
  {
    hide Encode, Put32, ChainOf, EntriesAt, ReplyBytes, Word, Fits, WireNames;
    ListingParts(es, eof);
    ChainLayout(es);
    WordIs(Put32(0), 0);
    WordIs(Put32(if eof then 1 else 0), if eof then 1 else 0);
    Enclosed(Put32(0), Encode(Chain(P.EntryType), ChainOf(es)), Put32(if eof then 1 else 0));
  }

  lemma Enclosed(w: seq<Byte>, x: seq<Byte>, y: seq<Byte>)
    requires |w| == 4 && |y| == 4
    ensures var all := w + (x + y);
            all[..4] == w && all[4..|all| - 4] == x && all[|all| - 4..] == y
  {}

  lemma {:induction false} ListedNames(dir: Name, raw: seq<Name>, lstat: Name -> Option<Kind>)
    requires dir != [] && forall name :: name in raw ==> 0 !in name
    ensures WireNames(Listed(dir, raw, lstat))
  {
    if raw != [] {
      assert raw[0] in raw;
      ListedNames(dir, raw[1..], lstat);
    }
  }
}
