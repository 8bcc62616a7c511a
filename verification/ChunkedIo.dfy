/** The client library's chunk loops over the server state machine.  A `Net` is one client's view of
    the whole system: the server world, and the script of everything the environment will do at
    each of this client's future calls (other clients' moves, kernel behaviour, lost messages). */
module ChunkedIo {
  import opened Bytes
  import opened Server

  /** What becomes of one call: answered, executed with its reply lost, or never executed. */
  datatype Fate = Answered(kernel: Kernel) | ReplyLost(kernel: Kernel) | RequestLost

  /** One future call: the moves other clients make before it reaches the server, and its fate. */
  datatype Event = Event(others: seq<Move>, fate: Fate)

  datatype Net = Net(world: World, script: seq<Event>, log: seq<Move>, sent: seq<Request>)

  /** The server moves that happen up to and including this call. */
  function Moves(n: Net, c: nat, req: Request): seq<Move>
  {
    if n.script == [] then []
    else if n.script[0].fate.RequestLost? then n.script[0].others
    else n.script[0].others + [Served(c, req, n.script[0].fate.kernel)]
  }

  /** One RPC; the result is None when the stub returns NULL.  Past the script the link is dead. */
  function Call(n: Net, c: nat, req: Request): (Net, Option<Reply>)
  {
    var ms := Moves(n, c, req);
    (Net(Run(n.world, ms), if n.script == [] then [] else n.script[1..], n.log + ms, n.sent + [req]),
     if n.script != [] && n.script[0].fate.Answered?
     then Some(ReplyTo(Decide(Run(n.world, n.script[0].others), c, req, n.script[0].fate.kernel)))
     else None)
  }

  /** How many calls lie between two states of the same client. */
  function Used(n: Net, n': Net): int { |n.script| - |n'.script| }

  // ---------- icbinn_pwrite ----------

  /** The worker's result: the count it was given, a negated errno, or -1 for a lost call. */
  function WriteResult(reply: Option<Reply>, count: nat): int
  {
    match reply
    case None => -1
    case Some(Failed(e)) => 0 - e
    case Some(_) => count
  }

  /** How a client makes a call: directly, or through encoded messages. */
  type Stub = (Net, nat, Request) -> (Net, Option<Reply>)

  /** The write loop from one of its iterations on: bytes still to send, current offset, and count so far. */
  function WriteVia(call: Stub, n: Net, c: nat, fd: int, data: seq<Byte>, off: nat, ret: int): (Net, int)
    decreases |data|
  {
    if data == [] then (n, ret) else
    var len := Min(|data|, MAXDATA);
    var (n1, reply) := call(n, c, PWrite(fd, off, data[..len]));
    var semi := WriteResult(reply, len);
    var ret1 := if semi > 0 then ret + semi else ret;
    if semi != len then (n1, if ret1 != 0 then ret1 else semi)
    else WriteVia(call, n1, c, fd, data[len..], (off + len) % TWO64, ret1)
  }

  /** The write loop over direct calls. */
  function WriteLoop(n: Net, c: nat, fd: int, data: seq<Byte>, off: nat, ret: int): (Net, int)
  {
    WriteVia(Call, n, c, fd, data, off, ret)
  }

  /** One iteration of the write loop: only a full piece is continued, and any other result is an error. */
  lemma WriteStep(n: Net, c: nat, fd: int, data: seq<Byte>, off: nat, ret: int)
    ensures data == [] ==> WriteLoop(n, c, fd, data, off, ret) == (n, ret)
    ensures data != [] ==>
              var len := Min(|data|, MAXDATA);
              var (n1, reply) := Call(n, c, PWrite(fd, off, data[..len]));
              var semi := WriteResult(reply, len);
              && (semi == len || semi < 0)
              && WriteLoop(n, c, fd, data, off, ret) ==
                 if semi == len then WriteLoop(n1, c, fd, data[len..], (off + len) % TWO64, ret + len)
                 else (n1, if ret != 0 then ret else semi)
  {
    hide Call, WriteResult;
    if data != [] {
      var len := Min(|data|, MAXDATA);
      ShortIsError(Call(n, c, PWrite(fd, off, data[..len])).1, len);
    }
  }

  lemma ShortIsError(reply: Option<Reply>, count: nat)
    ensures WriteResult(reply, count) == count || WriteResult(reply, count) < 0
  {}

  /** What a call leaves of the script and adds to the requests sent. */
  lemma CallTraffic(n: Net, c: nat, req: Request)
    ensures var n1 := Call(n, c, req).0;
            n1.script == (if n.script == [] then [] else n.script[1..]) && n1.sent == n.sent + [req]
  {
    hide Run;
  }

  /** A lost reply is lost to the client only: the server has done everything an answered call would have done.
      A lost request has no effect of its own. */
  lemma LostCall(n: Net, c: nat, req: Request, e: Event, k: Kernel)
    requires n.script != [] && n.script[0] == e
    ensures var answered := Call(n.(script := [e.(fate := Answered(k))] + n.script[1..]), c, req);
            && (e.fate == ReplyLost(k) ==> Call(n, c, req) == (answered.0, None))
            && (e.fate == RequestLost ==> Call(n, c, req).1 == None && Call(n, c, req).0.world == Run(n.world, e.others))
            && answered.0.log == n.log + e.others + [Served(c, req, k)]
            && answered.0.world == Next(Run(n.world, e.others), Served(c, req, k))
  {
    RunSnoc(n.world, e.others, Served(c, req, k));
    assert ([e.(fate := Answered(k))] + n.script[1..])[1..] == n.script[1..];
    assert n.log + (e.others + [Served(c, req, k)]) == n.log + e.others + [Served(c, req, k)];
  }

  // ---------- icbinn_pread and icbinn_rand ----------

  /** Where a fetch loop reads from: a remote descriptor or a random source. */
  datatype Source = FromFile(fd: int) | FromDevice(src: int)

  function FetchRequest(s: Source, off: nat, len: nat): Request
  {
    match s
    case FromFile(fd) => PRead(fd, off, len)
    case FromDevice(src) => Rand(len, src)
  }

  /** The worker's result; a reply longer than asked for is refused. */
  function FetchResult(s: Source, reply: Option<Reply>, count: nat): int
  {
    match reply
    case Some(Data(bytes)) => if |bytes| > count then -1 else |bytes|
    case Some(Failed(e)) => if s.FromFile? then 0 - e else -1
    case _ => -1
  }

  /** What the worker copies into the caller's buffer. */
  function Copied(reply: Option<Reply>, count: nat): seq<Byte>
  {
    match reply
    case Some(Data(bytes)) => if |bytes| > count then [] else bytes
    case _ => []
  }

  /** The fetch loop from one of its iterations on; also returns everything it copies out. */
  function FetchVia(call: Stub, n: Net, c: nat, s: Source, count: nat, off: nat, ret: int): (Net, int, seq<Byte>)
    decreases count
  {
    if count == 0 then (n, ret, []) else
    var len := Min(count, MAXDATA);
    var (n1, reply) := call(n, c, FetchRequest(s, off, len));
    var semi := FetchResult(s, reply, len);
    var ret1 := if semi > 0 then ret + semi else ret;
    if semi != len then (n1, if ret1 != 0 then ret1 else semi, Copied(reply, len))
    else
      Prepend(Copied(reply, len), FetchVia(call, n1, c, s, count - len, (off + len) % TWO64, ret1))
  }

  /** The fetch loop over direct calls. */
  function FetchLoop(n: Net, c: nat, s: Source, count: nat, off: nat, ret: int): (Net, int, seq<Byte>)
  {
    FetchVia(Call, n, c, s, count, off, ret)
  }

  /** One iteration of the fetch loop: only a full piece is continued. */
  lemma FetchNext(n: Net, c: nat, s: Source, count: nat, off: nat, ret: int)
    ensures count == 0 ==> FetchLoop(n, c, s, count, off, ret) == (n, ret, [])
    ensures count > 0 ==>
              var len := Min(count, MAXDATA);
              var (n1, reply) := Call(n, c, FetchRequest(s, off, len));
              var semi, head := FetchResult(s, reply, len), Copied(reply, len);
              && |head| <= len && (if head == [] then semi <= 0 else semi == |head|)
              && FetchLoop(n, c, s, count, off, ret) ==
                 if semi == len then Prepend(head, FetchLoop(n1, c, s, count - len, (off + len) % TWO64, ret + len))
                 else (n1, if ret + |head| != 0 then ret + |head| else semi, head)
  {
    hide Call, FetchRequest, FetchResult, Copied;
    if count > 0 {
      var len := Min(count, MAXDATA);
      ResultCounts(s, Call(n, c, FetchRequest(s, off, len)).1, len);
    }
  }

  lemma ResultCounts(s: Source, reply: Option<Reply>, count: nat)
    ensures var semi, bytes := FetchResult(s, reply, count), Copied(reply, count);
            |bytes| <= count && if bytes == [] then semi <= 0 else semi == |bytes|
  {}

  // ---------- The library entry points, as they run ----------

  /** An open client connection. */
  class Icbinn {
    var net: Net
    const id: nat

    constructor (net: Net, id: nat)
      ensures this.net == net && this.id == id
    {
      this.net, this.id := net, id;
    }

    method Rpc(req: Request) returns (res: Option<Reply>)
      modifies this
      ensures (net, res) == Call(old(net), id, req)
      ensures net.sent == old(net.sent) + [req] && |net.script| <= |old(net.script)|
    {
      var r := Call(net, id, req);
      net, res := r.0, r.1;
    }

    method PWrite(fd: int, buf: array<Byte>, count0: nat, offset0: nat) returns (ret: int)
      requires count0 <= buf.Length && offset0 < TWO64
      modifies this
      ensures (net, ret) == WriteLoop(old(net), id, fd, buf[..count0], offset0, 0)
    {
      hide Call, WriteLoop, WriteResult;
      ret := 0;
      var count, offset, pos := count0, offset0, 0;
      while count != 0
        invariant pos + count == count0 && 0 <= pos && 0 <= count && 0 <= offset < TWO64
        invariant WriteLoop(old(net), id, fd, buf[..count0], offset0, 0)
               == WriteLoop(net, id, fd, buf[pos..count0], offset, ret)
        decreases count
      {
        var toSend := if count > MAXDATA then MAXDATA else count;
        assert buf[pos..count0][..toSend] == buf[pos..pos + toSend];
        assert buf[pos..count0][toSend..] == buf[pos + toSend..count0];
        WriteStep(net, id, fd, buf[pos..count0], offset, ret);
        var res := Rpc(Request.PWrite(fd, offset, buf[pos..pos + toSend]));
        var semi := WriteResult(res, toSend);
        if semi > 0 {
          ret := ret + semi;
        }
        if semi != toSend {
          return if ret != 0 then ret else semi;
        }
        count, offset, pos := count - toSend, (offset + toSend) % TWO64, pos + toSend;
      }
      WriteStep(net, id, fd, buf[pos..count0], offset, ret);
    }

    /** One piece of a fetch, copied to `buf` at `pos`. */
    method FetchWorker(s: Source, buf: array<Byte>, pos: nat, count: nat, offset: nat)
      returns (semi: int, ghost data: seq<Byte>)
      requires pos + count <= buf.Length
      modifies this, buf
      ensures var (n1, reply) := Call(old(net), id, FetchRequest(s, offset, count));
              net == n1 && semi == FetchResult(s, reply, count) && data == Copied(reply, count)
      ensures |data| <= count && |data| == Max(semi, 0)
      ensures var reply := Call(old(net), id, FetchRequest(s, offset, count)).1;
              && (reply.Some? && reply.value.Data? && |reply.value.bytes| > count ==> semi == -1 && buf[..] == old(buf[..]))
              && (reply.None? || (s.FromDevice? && reply.value.Failed?) ==> semi == -1)
      ensures buf[..] == Overlay(old(buf[..]), pos, data)
    {
      hide Call, FetchRequest;
      var res := Rpc(FetchRequest(s, offset, count));
      semi := FetchResult(s, res, count);
      var bytes := Copied(res, count);
      CopyInto(buf, pos, bytes);
      data := bytes;
    }

    /** Fills `buf` from the front; nothing past the copied bytes changes. */
    method Fetch(s: Source, buf: array<Byte>, count0: nat, offset0: nat) returns (ret: int)
      requires count0 <= buf.Length && offset0 < TWO64
      modifies this, buf
      ensures var (n', r, bytes) := FetchLoop(old(net), id, s, count0, offset0, 0);
              net == n' && ret == r && |bytes| <= count0 && buf[..] == bytes + old(buf[..])[|bytes|..]
    {
      hide Call, FetchRequest, FetchResult, Copied, Filled, Prepend, FetchLoop, Overlay;
      ret := 0;
      var count, offset, pos := count0, offset0, 0;
      ghost var was, want, got := buf[..], FetchLoop(net, id, s, count0, offset0, 0), [];
      FilledStart(was, want);
      while count != 0
        invariant pos + count == count0 && 0 <= pos && 0 <= count && 0 <= offset < TWO64
        invariant Prepend(got, FetchLoop(net, id, s, count, offset, ret)) == want
        invariant |got| == pos && Filled(buf[..], got, was)
        decreases count
      {
        var toRead := if count > MAXDATA then MAXDATA else count;
        ghost var n, before, data := net, buf[..], [];
        var semi;
        semi, data := FetchWorker(s, buf, pos, toRead, offset);
        FilledMore(before, buf[..], got, data, was);
        FetchStep(n, id, s, count, offset, ret, got);
        if semi > 0 {
          ret := ret + semi;
        }
        got := got + data;
        if semi != toRead {
          FilledEnd(buf[..], got, was);
          return if ret != 0 then ret else semi;
        }
        count, offset, pos := count - toRead, (offset + toRead) % TWO64, pos + toRead;
      }
      FetchEnds(net, id, s, offset, ret, got);
      FilledEnd(buf[..], got, was);
    }
  }

  /** `got` was copied over the front of `was`. */
  ghost predicate Filled(now: seq<Byte>, got: seq<Byte>, was: seq<Byte>)
  {
    |got| <= |was| && now == got + was[|got|..]
  }

  lemma FilledStart(was: seq<Byte>, want: (Net, int, seq<Byte>))
    ensures Filled(was, [], was) && Prepend([], want) == want
  {
    assert [] + want.2 == want.2;
  }

  lemma FilledMore(before: seq<Byte>, now: seq<Byte>, got: seq<Byte>, data: seq<Byte>, was: seq<Byte>)
    requires Filled(before, got, was) && |got| + |data| <= |was|
    requires |before| == |was| && now == Overlay(before, |got|, data)
    ensures Filled(now, got + data, was)
  {}

  lemma FilledEnd(now: seq<Byte>, got: seq<Byte>, was: seq<Byte>)
    requires Filled(now, got, was)
    ensures now == got + was[|got|..]
  {}

  lemma FetchEnds(n: Net, c: nat, s: Source, off: nat, ret: int, got: seq<Byte>)
    ensures Prepend(got, FetchLoop(n, c, s, 0, off, ret)) == (n, ret, got)
  {
    FetchNext(n, c, s, 0, off, ret);
    assert got + [] == got;
  }

  /** One iteration of the fetch loop, with `got` already copied. */
  lemma FetchStep(n: Net, c: nat, s: Source, count: nat, off: nat, ret: int, got: seq<Byte>)
    requires count > 0
    ensures var len := Min(count, MAXDATA);
            var (n1, reply) := Call(n, c, FetchRequest(s, off, len));
            var semi := FetchResult(s, reply, len);
            var data := Copied(reply, len);
            && |data| <= len && (if data == [] then semi <= 0 else semi == |data|)
            && Prepend(got, FetchLoop(n, c, s, count, off, ret)) ==
               if semi == len then Prepend(got + data, FetchLoop(n1, c, s, count - len, (off + len) % TWO64, ret + len))
               else (n1, if ret + |data| != 0 then ret + |data| else semi, got + data)
  {
    hide Call, FetchRequest, FetchResult, Copied, FetchLoop;
    FetchNext(n, c, s, count, off, ret);
    var len := Min(count, MAXDATA);
    var (n1, reply) := Call(n, c, FetchRequest(s, off, len));
    PrependTwice(got, Copied(reply, len), FetchLoop(n1, c, s, count - len, (off + len) % TWO64, ret + len));
  }

  /** Bytes already copied, put in front of what the rest of a fetch copies. */
  function Prepend(got: seq<Byte>, rest: (Net, int, seq<Byte>)): (Net, int, seq<Byte>)
  {
    (rest.0, rest.1, got + rest.2)
  }

  lemma PrependTwice(a: seq<Byte>, b: seq<Byte>, rest: (Net, int, seq<Byte>))
    ensures Prepend(a + b, rest) == Prepend(a, Prepend(b, rest))
  {
    assert a + b + rest.2 == a + (b + rest.2);
  }

  /** `data` copied over `buf` at `pos`. */
  function Overlay(buf: seq<Byte>, pos: nat, data: seq<Byte>): seq<Byte>
    requires pos + |data| <= |buf|
  {
    buf[..pos] + data + buf[pos + |data|..]
  }

  /** memcpy into a caller's buffer. */
  method CopyInto(buf: array<Byte>, pos: nat, data: seq<Byte>)
    requires pos + |data| <= buf.Length
    modifies buf
    ensures buf[..] == Overlay(old(buf[..]), pos, data)
  {
    forall i | 0 <= i < |data| {
      buf[pos + i] := data[i];
    }
  }
}
