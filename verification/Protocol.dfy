/** The messages of the icbinn protocol as XDR types, and the requests of the server model carried
    over the wire. */
module Protocol {
  import opened Bytes
  import opened Server
  import opened ChunkedIo
  import opened Refinement
  import opened Xdr

  const PathType := Str(MAXPATHLEN)
  const NameType := Str(MAXNAMELEN)
  const DataType := Opaque(MAXDATA)

  const OK := 0
  const ERROR := 1

  /** A result union: a body for OK, one for ERROR, and nothing for any other status. */
  function Result(ok: Type, error: Type): Type { Union(Case(OK, ok, Case(ERROR, error, Otherwise(Void)))) }

  const ErrnoStat := Union(Case(OK, Void, Otherwise(Int)))
  const EntryType := Pair(NameType, Int)
  const DirList := Pair(Chain(EntryType), Bool)

  /** The argument type of each procedure, by number. */
  function ArgsType(proc: nat): Type
  {
    match proc
    case 1 => Pair(PathType, Pair(Uint, Uint))                     // readdir: dir, offset, count
    case 2 => PathType                                             // stat
    case 3 => Pair(PathType, Int)                                  // open: name, mode
    case 4 => Pair(Int, Int)                                       // lock: fd, type
    case 5 => Pair(Int, Pair(Hyper, Hyper))                        // pread: fd, offset, count
    case 6 => Pair(Int, Pair(Hyper, DataType))                     // pwrite: fd, offset, data
    case 7 => Int                                                  // close
    case 8 => PathType                                             // mkdir
    case 9 => PathType                                             // rmdir
    case 10 => Pair(PathType, PathType)                            // rename: from, to
    case 11 => PathType                                            // unlink
    case 12 => Pair(Int, Hyper)                                    // ftruncate: fd, length
    case 13 => Pair(Hyper, Int)                                    // rand: count, src
    case 14 => Pair(Int, Pair(Int, Pair(Hyper, Hyper)))            // fallocate: fd, mode, offset, length
    case 15 => Pair(PathType, PathType)                            // symlink: oldpath, newpath
    case 16 => Pair(PathType, Hyper)                               // readlink: path, bufsz
    case 17 => PathType                                            // statfs
    case 18 => Int                                                 // fsync
    case _ => Void                                                 // null
  }

  /** The result type of each procedure, by number. */
  function ResultType(proc: nat): Type
  {
    match proc
    case 0 => Void
    case 1 => Union(Case(OK, DirList, Otherwise(Void)))
    case 2 => Result(Pair(Hyper, Int), Int)                        // size, type
    case 3 => Result(Int, Int)                                     // fd
    case 5 => Result(DataType, Int)
    case 13 => Union(Case(OK, DataType, Otherwise(Void)))
    case 16 => Result(DataType, Int)
    case 17 => Result(Pair(Hyper, Pair(Hyper, Pair(Hyper, Hyper))), Int)
    case _ => ErrnoStat
  }

  // ---------- Requests ----------

  function ProcOf(req: Request): nat
  {
    match req
    case Open(_, _) => 3
    case Lock(_, _) => 4
    case PRead(_, _, _) => 5
    case PWrite(_, _, _) => 6
    case Close(_) => 7
    case Ftruncate(_, _) => 12
    case Rand(_, _) => 13
  }

  /** The request's fields fit the C types and the declared bounds. */
  predicate InBounds(req: Request)
  {
    match req
    case Open(name, mode) => |name| <= MAXPATHLEN && 0 !in name && IsInt32(mode)
    case Lock(fd, ltype) => IsInt32(fd) && IsInt32(ltype)
    case PRead(fd, offset, count) => IsInt32(fd) && offset < TWO64 && count < TWO64
    case PWrite(fd, offset, data) => IsInt32(fd) && offset < TWO64 && |data| <= MAXDATA
    case Close(fd) => IsInt32(fd)
    case Ftruncate(fd, length) => IsInt32(fd) && length < TWO64
    case Rand(count, src) => count < TWO64 && IsInt32(src)
  }

  function RequestValue(req: Request): Value
  {
    match req
    case Open(name, mode) => VPair(VBytes(name), VInt(mode))
    case Lock(fd, ltype) => VPair(VInt(fd), VInt(ltype))
    case PRead(fd, offset, count) => VPair(VInt(fd), VPair(VHyper(offset), VHyper(count)))
    case PWrite(fd, offset, data) => VPair(VInt(fd), VPair(VHyper(offset), VBytes(data)))
    case Close(fd) => VInt(fd)
    case Ftruncate(fd, length) => VPair(VInt(fd), VHyper(length))
    case Rand(count, src) => VPair(VHyper(count), VInt(src))
  }

  /** What the server's dispatcher makes of decoded arguments. */
  function RequestOf(proc: nat, v: Value): Option<Request>
  {
    match (proc, v)
    case (3, VPair(VBytes(name), VInt(mode))) => Some(Open(name, mode))
    case (4, VPair(VInt(fd), VInt(ltype))) => Some(Lock(fd, ltype))
    case (5, VPair(VInt(fd), VPair(VHyper(offset), VHyper(count)))) => Some(PRead(fd, offset, count))
    case (6, VPair(VInt(fd), VPair(VHyper(offset), VBytes(data)))) => Some(PWrite(fd, offset, data))
    case (7, VInt(fd)) => Some(Close(fd))
    case (12, VPair(VInt(fd), VHyper(length))) => Some(Ftruncate(fd, length))
    case (13, VPair(VHyper(count), VInt(src))) => Some(Rand(count, src))
    case _ => None
  }

  lemma RequestFits(req: Request)
    requires InBounds(req)
    ensures Fits(ArgsType(ProcOf(req)), RequestValue(req))
  {
    match req
    case PRead(fd, offset, count) =>
      assert Fits(Hyper, VHyper(count));
    case PWrite(fd, offset, data) =>
      assert Fits(DataType, VBytes(data));
    case _ =>
  }

  // ---------- Replies ----------

  function ReplyValue(req: Request, reply: Reply): Value
  {
    match reply
    case Done => VUnion(OK, VVoid)
    case Opened(fd) => VUnion(OK, VInt(fd))
    case Data(bytes) => VUnion(OK, VBytes(bytes))
    case Failed(e) => VUnion(ERROR, if req.Rand? then VVoid else VInt(e))
  }

  /** The reply a client stub sees; the random-data result carries no errno, so 1 stands for it. */
  function ReplyOf(v: Value): Option<Reply>
  {
    match v
    case VUnion(0, VVoid) => Some(Done)
    case VUnion(0, VInt(fd)) => Some(Opened(fd))
    case VUnion(0, VBytes(bytes)) => Some(Data(bytes))
    case VUnion(_, VInt(e)) => if 0 < e < TWO31 then Some(Failed(e)) else None
    case VUnion(_, _) => Some(Failed(1))
    case _ => None
  }

  function AsSeen(req: Request, reply: Reply): Reply
  {
    if req.Rand? && reply.Failed? then Failed(1) else reply
  }

  /** Which replies a handler gives to which request. */
  lemma ReplyShape(w: World, c: nat, req: Request, k: Kernel)
    ensures var reply := ReplyTo(Decide(w, c, req, k));
            || reply.Failed?
            || match req
               case Open(_, _) => reply.Opened? && IsInt32(reply.fd)
               case PRead(_, _, _) => reply.Data? && |reply.bytes| <= MAXDATA
               case Rand(_, _) => reply.Data? && |reply.bytes| <= MAXDATA
               case _ => reply.Done?
  {
    hide Bit, Conflict;
  }

  lemma ReplyFits(w: World, c: nat, req: Request, k: Kernel)
    ensures var reply := ReplyTo(Decide(w, c, req, k));
            Fits(ResultType(ProcOf(req)), ReplyValue(req, reply))
  {
    hide Decide, ReplyTo;
    ReplyShape(w, c, req, k);
    assert Select(Case(OK, Void, Otherwise(Int)), ERROR) == Int;
    assert Select(Case(OK, DataType, Otherwise(Void)), ERROR) == Void;
    assert forall t :: Select(Case(OK, t, Case(ERROR, Int, Otherwise(Void))), ERROR) == Int;
    match req
    case PRead(_, _, _) =>
    case Rand(_, _) =>
    case _ =>
  }

  // ---------- The whole call, as bytes ----------

  function RequestBytes(req: Request): seq<Byte>
    requires InBounds(req)
  {
    RequestFits(req);
    Encode(ArgsType(ProcOf(req)), RequestValue(req))
  }

  lemma IntBytes(i: int)
    requires IsInt32(i)
    ensures var bs := Encode(Int, VInt(i)); |bs| == 4 && SignedWord(bs, i)
  {
    WordIs(Put32(ToU(i)), ToU(i));
  }

  lemma DataBytes(t: Type, data: seq<Byte>)
    requires Fits(t, VBytes(data))
    ensures Counted(data, Encode(t, VBytes(data)))
  {
    EncodingIsCounted(data);
  }

  lemma Joined(x: seq<Byte>, y: seq<Byte>)
    ensures (x + y)[..|x|] == x && (x + y)[|x|..] == y
  {}

  /** A structure starts with its first part, and the rest is the second. */
  lemma PairBytes(t: Type, a: Value, b: Value)
    requires Fits(t, VPair(a, b))
    ensures var bs, x, y := Encode(t, VPair(a, b)), Encode(t.fst, a), Encode(t.snd, b);
            |bs| == |x| + |y| && bs[..|x|] == x && bs[|x|..] == y
  {
    EncodeParts(t, VPair(a, b));
    Joined(Encode(t.fst, a), Encode(t.snd, b));
  }

  /** The procedure number and the layout of each request on the wire, field by field. */
  ghost predicate LaidOut(req: Request, proc: nat, bs: seq<Byte>)
  {
    match req
    case Open(name, mode) =>
      proc == 3 && |bs| >= 4 && Counted(name, bs[..|bs| - 4]) && SignedWord(bs[|bs| - 4..], mode)
    case Lock(fd, ltype) => proc == 4 && |bs| == 8 && SignedWord(bs[..4], fd) && SignedWord(bs[4..], ltype)
    case PRead(fd, offset, count) =>
      proc == 5 && |bs| == 20 && SignedWord(bs[..4], fd) && Number(bs[4..12]) == offset && Number(bs[12..]) == count
    case PWrite(fd, offset, data) =>
      proc == 6 && |bs| >= 12 && SignedWord(bs[..4], fd) && Number(bs[4..12]) == offset && Counted(data, bs[12..])
    case Close(fd) => proc == 7 && SignedWord(bs, fd)
    case Ftruncate(fd, length) =>
      proc == 12 && |bs| == 12 && SignedWord(bs[..4], fd) && Number(bs[4..]) == length
    case Rand(count, src) => proc == 13 && |bs| == 12 && Number(bs[..8]) == count && SignedWord(bs[8..], src)
  }

  /** Each request goes out under its procedure number with its fields in the declared order and format. */
  lemma RequestLayout(req: Request)
    requires InBounds(req)
    ensures LaidOut(req, ProcOf(req), RequestBytes(req))
  {
    RequestFits(req);
    var t, v := ArgsType(ProcOf(req)), RequestValue(req);
    match req
    case Open(name, mode) =>
      PairBytes(t, VBytes(name), VInt(mode));
      DataBytes(PathType, name);
      IntBytes(mode);
    case Lock(fd, ltype) =>
      PairBytes(t, VInt(fd), VInt(ltype));
      IntBytes(fd);
      IntBytes(ltype);
    case PRead(fd, offset, count) =>
      ThreeFields(t, fd, offset, VHyper(count));
      HyperValue(count);
    case PWrite(fd, offset, data) =>
      ThreeFields(t, fd, offset, VBytes(data));
      DataBytes(DataType, data);
    case Close(fd) => IntBytes(fd);
    case Ftruncate(fd, length) =>
      PairBytes(t, VInt(fd), VHyper(length));
      IntBytes(fd);
      HyperValue(length);
    case Rand(count, src) =>
      PairBytes(t, VHyper(count), VInt(src));
      HyperValue(count);
      IntBytes(src);
  }

  lemma ThreeFields(t: Type, fd: int, offset: nat, last: Value)
    requires Fits(t, VPair(VInt(fd), VPair(VHyper(offset), last)))
    ensures var bs := Encode(t, VPair(VInt(fd), VPair(VHyper(offset), last)));
            && |bs| >= 12 && SignedWord(bs[..4], fd) && Number(bs[4..12]) == offset
            && bs[12..] == Encode(t.snd.snd, last)
  {
    assert Fits(t.snd, VPair(VHyper(offset), last));
    assert Fits(t.fst, VInt(fd)) && Fits(t.snd.fst, VHyper(offset));
    hide Encode, Number;
    IntBytes(fd);
    HyperValue(offset);
    PairBytes(t, VInt(fd), VPair(VHyper(offset), last));
    PairBytes(t.snd, VHyper(offset), last);
    var bs := Encode(t, VPair(VInt(fd), VPair(VHyper(offset), last)));
    assert bs[4..12] == bs[4..][..8] && bs[12..] == bs[4..][8..];
  }

  /** The layout of each reply: a status word, then the descriptor, the data or the errno. */
  lemma ReplyLayout(req: Request, reply: Reply)
    requires Fits(ResultType(ProcOf(req)), ReplyValue(req, reply))
    ensures var bs := Encode(ResultType(ProcOf(req)), ReplyValue(req, reply));
            && |bs| >= 4 && Word(bs[..4], if reply.Failed? then 1 else 0)
            && match reply
               case Done => |bs| == 4
               case Opened(fd) => SignedWord(bs[4..], fd)
               case Data(bytes) => Counted(bytes, bs[4..])
               case Failed(e) => if req.Rand? then |bs| == 4 else Word(bs[4..], e)
  {
    var t, v := ResultType(ProcOf(req)), ReplyValue(req, reply);
    EncodeParts(t, v);
    var arm := Select(t.arms, v.tag);
    Joined(Put32(ToU(v.tag)), Encode(arm, v.body));
    WordIs(Put32(ToU(v.tag)), ToU(v.tag));
    assert arm == Void ==> Encode(arm, v.body) == [];
    match reply
    case Done =>
    case Opened(fd) => IntBytes(fd);
    case Data(bytes) => DataBytes(arm, bytes);
    case Failed(e) => if !req.Rand? { IntBytes(e); }
  }

  /** End to end: the bytes of any in-bounds request decode, on the server, to that very request; the
      reply of any handler to it is within the result type's bounds; and its bytes decode, on the
      client, to that reply. */
  lemma CallOverTheWire(w: World, c: nat, req: Request, k: Kernel, rest: seq<Byte>)
    requires InBounds(req)
    ensures var args := Decode(ArgsType(ProcOf(req)), RequestBytes(req) + rest);
            args.Some? && RequestOf(ProcOf(req), args.value.0) == Some(req) && args.value.1 == rest
    ensures var reply := ReplyTo(Decide(w, c, req, k));
            var t := ResultType(ProcOf(req));
            && Fits(t, ReplyValue(req, reply))
            && var res := Decode(t, Encode(t, ReplyValue(req, reply)) + rest);
               res.Some? && ReplyOf(res.value.0) == Some(AsSeen(req, reply)) && res.value.1 == rest
  {
    hide Encode, Decode, Decide, Fits;
    RequestFits(req);
    RoundTrip(ArgsType(ProcOf(req)), RequestValue(req), rest);
    ReplyFits(w, c, req, k);
    var reply := ReplyTo(Decide(w, c, req, k));
    RoundTrip(ResultType(ProcOf(req)), ReplyValue(req, reply), rest);
  }

  /** Every request the chunk loops send is in bounds, so the wire never distorts or rejects one. */
  lemma {:induction false} WritePiecesInBounds(fd: int, data: seq<Byte>, off: nat)
    requires IsInt32(fd) && off < TWO64
    ensures forall r :: r in WritePieces(fd, data, off) ==> InBounds(r)
    decreases |data|
  {
    if data != [] {
      var len := Min(|data|, MAXDATA);
      WritePiecesInBounds(fd, data[len..], (off + len) % TWO64);
    }
  }

  lemma {:induction false} FetchPiecesInBounds(s: Source, count: nat, off: nat)
    requires off < TWO64 && IsInt32(if s.FromFile? then s.fd else s.src)
    ensures forall r :: r in FetchPieces(s, count, off) ==> InBounds(r)
    decreases count
  {
    if count > 0 {
      var len := Min(count, MAXDATA);
      FetchPiecesInBounds(s, count - len, (off + len) % TWO64);
    }
  }
}
