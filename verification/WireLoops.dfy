/** Client loop, wire and handler in one piece: every call is encoded, decoded by the server, executed,
    and its reply encoded and decoded again.  The chunk loops over such calls are the loops of the model. */
module WireLoops {
  import opened Bytes
  import opened Server
  import opened ChunkedIo
  import opened Xdr
  import opened Protocol

  /** What the client stub makes of a reply after it has been bytes; None if it cannot be sent or read. */
  function ReplyOverWire(req: Request, reply: Reply): Option<Reply>
  {
    var t, v := ResultType(ProcOf(req)), ReplyValue(req, reply);
    if !Fits(t, v) then None else
    var got := Decode(t, Encode(t, v));
    if got.None? then None else ReplyOf(got.value.0)
  }

  /** What the server's dispatcher makes of a request after it has been bytes. */
  function RequestOverWire(req: Request): Option<Request>
  {
    if !InBounds(req) then None else
    var got := Decode(ArgsType(ProcOf(req)), RequestBytes(req));
    if got.None? then None else RequestOf(ProcOf(req), got.value.0)
  }

  /** One RPC through the wire; a message that does not survive is a failed call. */
  function WireCall(n: Net, c: nat, req: Request): (Net, Option<Reply>)
  {
    var arrived := RequestOverWire(req);
    if arrived.None? then (n.(sent := n.sent + [req]), None) else
    var (n1, reply) := Call(n, c, arrived.value);
    (n1, if reply.None? then None else ReplyOverWire(arrived.value, reply.value))
  }

  /** The chunk loops over calls through the wire. */
  function WireWriteLoop(n: Net, c: nat, fd: int, data: seq<Byte>, off: nat, ret: int): (Net, int)
  {
    WriteVia(WireCall, n, c, fd, data, off, ret)
  }

  function WireFetchLoop(n: Net, c: nat, s: Source, count: nat, off: nat, ret: int): (Net, int, seq<Byte>)
  {
    FetchVia(WireCall, n, c, s, count, off, ret)
  }

  /** An in-bounds call through the wire is the direct call, up to the errno that failed random-data
      replies do not carry. */
  lemma WireCallIsCall(n: Net, c: nat, req: Request)
    requires InBounds(req)
    ensures var (n1, reply) := Call(n, c, req);
            WireCall(n, c, req) == (n1, if reply.None? then None else Some(AsSeen(req, reply.value)))
  {
    hide Encode, Decode, Fits, Decide, Run, ReplyOf, RequestOf, ReplyValue;
    assert RequestBytes(req) + [] == RequestBytes(req);
    if n.script != [] {
      var w := Run(n.world, n.script[0].others);
      var k := if n.script[0].fate.RequestLost? then Grant(0, 0) else n.script[0].fate.kernel;
      CallOverTheWire(w, c, req, k, []);
      var t, v := ResultType(ProcOf(req)), ReplyValue(req, ReplyTo(Decide(w, c, req, k)));
      assert Encode(t, v) + [] == Encode(t, v);
    } else {
      CallOverTheWire(n.world, c, req, Grant(0, 0), []);
    }
  }

  /** Loop, wire and handler composed: writing through the wire is the write loop of the model, so every
      theorem about that loop holds of the bytes on the wire. */
  lemma {:induction false} WriteLoopOverWire(n: Net, c: nat, fd: int, data: seq<Byte>, off: nat, ret: int)
    requires IsInt32(fd) && off < TWO64
    ensures WireWriteLoop(n, c, fd, data, off, ret) == WriteLoop(n, c, fd, data, off, ret)
    decreases |data|
  {
    hide Call, WireCall;
    if data != [] {
      var len := Min(|data|, MAXDATA);
      WireCallIsCall(n, c, PWrite(fd, off, data[..len]));
      var (n1, reply) := Call(n, c, PWrite(fd, off, data[..len]));
      var semi := WriteResult(reply, len);
      WriteLoopOverWire(n1, c, fd, data[len..], (off + len) % TWO64, if semi > 0 then ret + semi else ret);
    }
  }

  /** The same for reads and random data. */
  lemma {:induction false} FetchLoopOverWire(n: Net, c: nat, s: Source, count: nat, off: nat, ret: int)
    requires IsInt32(if s.FromFile? then s.fd else s.src) && off < TWO64
    ensures WireFetchLoop(n, c, s, count, off, ret) == FetchLoop(n, c, s, count, off, ret)
    decreases count
  {
    hide Call, WireCall;
    if count > 0 {
      var len := Min(count, MAXDATA);
      WireCallIsCall(n, c, FetchRequest(s, off, len));
      var (n1, reply) := Call(n, c, FetchRequest(s, off, len));
      var semi := FetchResult(s, reply, len);
      FetchLoopOverWire(n1, c, s, count - len, (off + len) % TWO64, if semi > 0 then ret + semi else ret);
    }
  }
}
