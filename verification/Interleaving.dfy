/** Several clients at once: between any two chunks of one call, other connections may write, truncate,
    open, close, lock or exit.  The chunk of at most MAXDATA bytes is the atomic unit. */
module Interleaving {
  import opened Bytes
  import opened FileStore
  import opened Server
  import opened ChunkedIo
  import opened Refinement

  /** What ran on the server between two states of a client. */
  function Since(n: Net, n': Net): seq<Move>
  {
    if |n.log| <= |n'.log| then n'.log[|n.log|..] else []
  }

  /** `n'` is `n` after the moves `ms`. */
  ghost predicate Ran(n: Net, n': Net, ms: seq<Move>)
  {
    n'.log == n.log + ms && n'.world == Run(n.world, ms)
  }

  lemma RanOnce(n: Net, c: nat, req: Request)
    ensures Ran(n, Call(n, c, req).0, Moves(n, c, req))
  {
    hide Run;
  }

  lemma RanTwice(n: Net, n1: Net, n2: Net, a: seq<Move>, b: seq<Move>)
    requires Ran(n, n1, a) && Ran(n1, n2, b)
    ensures Ran(n, n2, a + b)
  {
    hide Run;
    RunConcat(n.world, a, b);
    assert n.log + a + b == n.log + (a + b);
  }

  // ---------- Writes ----------

  /** `e` stores the caller's own bytes at their own place. */
  predicate StoresSlice(e: Effect, data: seq<Byte>, off: nat)
  {
    && e.Wrote? && off <= e.off && e.off + |e.data| <= off + |data|
    && forall i :: 0 <= i < |e.data| ==> e.data[i] == data[e.off - off + i]
  }

  /** Every own move in `ms` did nothing or stored a slice of the caller's data, ... */
  predicate OwnFaithful(h: seq<Effect>, ms: seq<Move>, c: nat, data: seq<Byte>, off: nat)
    requires |h| == |ms|
  {
    forall j :: 0 <= j < |ms| && ms[j].conn == c ==> h[j].Idle? || StoresSlice(h[j], data, off)
  }

  predicate SetByOwn(h: seq<Effect>, ms: seq<Move>, c: nat, i: nat)
    requires |h| == |ms|
  {
    exists j :: 0 <= j < |ms| && ms[j].conn == c && Sets(h[j], i)
  }

  /** ... and each of the first `acked` bytes was stored by one of them. */
  predicate OwnCovers(h: seq<Effect>, ms: seq<Move>, c: nat, off: nat, acked: nat)
    requires |h| == |ms|
  {
    forall i :: off <= i < off + acked ==> SetByOwn(h, ms, c, i)
  }

  lemma WriteEffect(w: World, c: nat, fd: int, ino: nat, data: seq<Byte>, off: nat, k: Kernel)
    requires Safe(w) && Writable(w, c, fd, ino)
    requires 0 < |data| <= MAXDATA && off < TWO64 && (k.Grant? ==> k.room >= MAXDATA)
    ensures var m := Served(c, PWrite(fd, off, data), k);
            && Safe(Next(w, m)) && Writable(Next(w, m), c, fd, ino)
            && (EffectOn(w, m, ino) == Idle || EffectOn(w, m, ino) == Wrote(off, data))
            && (!ReplyTo(Decide(w, c, PWrite(fd, off, data), k)).Failed? ==>
                  EffectOn(w, m, ino) == Wrote(off, data) && off + |data| <= OFF_MAX)
  {
    WriteMove(w, c, fd, ino, data, off, k);
    hide Decide, Safe, Next;
  }

  /** Foreign moves, followed or not by one own move that does nothing or stores the whole data. */
  lemma OneOwnMoveFaithful(h: seq<Effect>, ms: seq<Move>, m: Move, e: Effect, c: nat, data: seq<Byte>, off: nat)
    requires |h| == |ms| && (forall x :: x in ms ==> x.conn != c)
    requires e == Idle || e == Wrote(off, data)
    ensures OwnFaithful(h, ms, c, data, off) && OwnFaithful(h + [e], ms + [m], c, data, off)
  {
    hide StoresSlice;
    assert e == Wrote(off, data) ==> StoresSlice(e, data, off) by { WholeSlice(data, off); }
  }

  lemma WholeSlice(data: seq<Byte>, off: nat)
    ensures StoresSlice(Wrote(off, data), data, off)
  {}

  /** An own move storing the whole data covers it. */
  lemma OneOwnMoveCovers(h: seq<Effect>, ms: seq<Move>, m: Move, c: nat, data: seq<Byte>, off: nat)
    requires |h| == |ms| && m.conn == c
    ensures OwnCovers(h + [Wrote(off, data)], ms + [m], c, off, |data|)
  {
    var e := Wrote(off, data);
    forall i | off <= i < off + |data| ensures SetByOwn(h + [e], ms + [m], c, i) {
      assert (h + [e])[|h|] == e && (ms + [m])[|h|] == m && Sets(e, i);
    }
  }

  lemma ChunkInterleaves(n: Net, c: nat, fd: int, ino: nat, data: seq<Byte>, off: nat)
    requires Safe(n.world) && Writable(n.world, c, fd, ino)
    requires Foreign(n.script, c) && AllOrError(n.script)
    requires 0 < |data| <= MAXDATA && off < TWO64
    ensures var (n1, reply) := Call(n, c, PWrite(fd, off, data));
            var ms := Moves(n, c, PWrite(fd, off, data));
            var h := History(n.world, ms, ino);
            && Ran(n, n1, ms) && OwnFaithful(h, ms, c, data, off)
            && Safe(n1.world) && Writable(n1.world, c, fd, ino) && Foreign(n1.script, c) && AllOrError(n1.script)
            && (WriteResult(reply, |data|) == |data| ==> OwnCovers(h, ms, c, off, |data|) && off + |data| <= OFF_MAX)
  {
    hide Safe, Run, Next, Decide, EffectOn, History, OwnFaithful, OwnCovers;
    if n.script == [] {
      EmptyRun(n, ino, c, data, off);
    } else {
      var e := n.script[0];
      assert e in n.script;
      OthersKeep(n, c, fd, ino);
      var w1 := Run(n.world, e.others);
      var m := Served(c, PWrite(fd, off, data), if e.fate.RequestLost? then Grant(0, MAXDATA) else e.fate.kernel);
      WriteEffect(w1, c, fd, ino, data, off, m.kernel);
      OneOwnMoveFaithful(History(n.world, e.others, ino), e.others, m, EffectOn(w1, m, ino), c, data, off);
      OneOwnMoveCovers(History(n.world, e.others, ino), e.others, m, c, data, off);
      RunSnoc(n.world, e.others, m);
      HistorySnoc(n.world, e.others, m, ino);
    }
  }

  lemma JoinFaithful(h1: seq<Effect>, m1: seq<Move>, h2: seq<Effect>, m2: seq<Move>, c: nat,
                     data: seq<Byte>, off: nat, len: nat)
    requires |h1| == |m1| && |h2| == |m2| && len <= |data|
    requires OwnFaithful(h1, m1, c, data[..len], off) && OwnFaithful(h2, m2, c, data[len..], off + len)
    ensures OwnFaithful(h1 + h2, m1 + m2, c, data, off)
  {
    forall j | 0 <= j < |m1 + m2| && (m1 + m2)[j].conn == c
      ensures (h1 + h2)[j].Idle? || StoresSlice((h1 + h2)[j], data, off)
    {
      if j < |m1| {
        assert h1[j].Idle? || StoresSlice(h1[j], data[..len], off);
      } else {
        assert h2[j - |m1|].Idle? || StoresSlice(h2[j - |m1|], data[len..], off + len);
      }
    }
  }

  lemma JoinCovers(h1: seq<Effect>, m1: seq<Move>, h2: seq<Effect>, m2: seq<Move>, c: nat, off: nat, len: nat, acked: nat)
    requires |h1| == |m1| && |h2| == |m2|
    requires OwnCovers(h1, m1, c, off, len) && OwnCovers(h2, m2, c, off + len, acked)
    ensures OwnCovers(h1 + h2, m1 + m2, c, off, len + acked)
  {
    var h, m := h1 + h2, m1 + m2;
    forall i | off <= i < off + len + acked ensures SetByOwn(h, m, c, i) {
      if i < off + len {
        assert SetByOwn(h1, m1, c, i);
        var j :| 0 <= j < |m1| && m1[j].conn == c && Sets(h1[j], i);
        assert m[j] == m1[j] && h[j] == h1[j];
      } else {
        assert SetByOwn(h2, m2, c, i);
        var j :| 0 <= j < |m2| && m2[j].conn == c && Sets(h2[j], i);
        assert m[|m1| + j] == m2[j] && h[|m1| + j] == h2[j];
      }
    }
  }

  lemma {:induction false} WriteInterleaves(n: Net, c: nat, fd: int, ino: nat, data: seq<Byte>, off: nat, ret: nat)
    returns (ms: seq<Move>, acked: nat)
    requires Safe(n.world) && Writable(n.world, c, fd, ino)
    requires Foreign(n.script, c) && AllOrError(n.script) && off < TWO64
    ensures var (n', r) := WriteLoop(n, c, fd, data, off, ret);
            var h := History(n.world, ms, ino);
            && Ran(n, n', ms) && OwnFaithful(h, ms, c, data, off)
            && acked <= |data| && OwnCovers(h, ms, c, off, acked)
            && (if ret + acked > 0 then r == ret + acked else r <= 0)
    decreases |data|
  {
    hide Safe, Run, Call, WriteLoop, WriteResult, Moves, Foreign, AllOrError, Writable, History, Ran, OwnFaithful, OwnCovers;
    WriteStep(n, c, fd, data, off, ret);
    ms, acked := [], 0;
    if data == [] {
      EmptyRun(n, ino, c, data, off);
    } else {
      var len := Min(|data|, MAXDATA);
      var piece := PWrite(fd, off, data[..len]);
      ChunkInterleaves(n, c, fd, ino, data[..len], off);
      var (n1, reply) := Call(n, c, piece);
      var m1 := Moves(n, c, piece);
      var n' := WriteLoop(n, c, fd, data, off, ret).0;
      EmptyRun(n1, ino, c, data[len..], off + len);
      if WriteResult(reply, len) == len {
        ms, acked := WriteInterleaves(n1, c, fd, ino, data[len..], off + len, ret + len);
        JoinCovers(History(n.world, m1, ino), m1, History(n1.world, ms, ino), ms, c, off, len, acked);
        acked := len + acked;
      }
      RanWorld(n, n1, m1);
      JoinFaithful(History(n.world, m1, ino), m1, History(n1.world, ms, ino), ms, c, data, off, len);
      RanTwice(n, n1, n', m1, ms);
      HistoryConcat(n.world, m1, ms, ino);
      ms := m1 + ms;
      if acked == 0 {
        EmptyCover(History(n.world, ms, ino), ms, c, off);
      }
    }
  }

  lemma EmptyRun(n: Net, ino: nat, c: nat, data: seq<Byte>, off: nat)
    ensures Ran(n, n, []) && History(n.world, [], ino) == []
    ensures OwnFaithful([], [], c, data, off) && OwnCovers([], [], c, off, 0)
  {}

  lemma EmptyCover(h: seq<Effect>, ms: seq<Move>, c: nat, off: nat)
    requires |h| == |ms|
    ensures OwnCovers(h, ms, c, off, 0)
  {}

  /** Interleaved writes: if `icbinn_pwrite` returns r, then each of the first r bytes is in the file
      when it returns, unless some other connection's move during the call touched that very position
      (and then LastChunkWins says whose byte it is). */
  lemma AcknowledgedBytesLand(n: Net, c: nat, fd: int, ino: nat, data: seq<Byte>, off: nat, p: nat)
    requires Safe(n.world) && Writable(n.world, c, fd, ino)
    requires Foreign(n.script, c) && AllOrError(n.script) && off < TWO64
    requires p < WriteLoop(n, c, fd, data, off, 0).1
    ensures var n' := WriteLoop(n, c, fd, data, off, 0).0;
            var ms := Since(n, n');
            var h := History(n.world, ms, ino);
            && p < |data| && Ran(n, n', ms) && ino in n'.world.files
            && ((forall j :: 0 <= j < |ms| && ms[j].conn != c ==> !Touches(h[j], off + p)) ==>
                  off + p < |n'.world.files[ino]| && n'.world.files[ino][off + p] == data[p])
  {
    hide Safe, Run, Foreign, AllOrError, History, WriteLoop, OwnFaithful, Replay, Touches;
    var ms, acked := WriteInterleaves(n, c, fd, ino, data, off, 0);
    var n' := WriteLoop(n, c, fd, data, off, 0).0;
    assert Since(n, n') == ms;
    RunReplays(n.world, ms, ino);
    OwnByteSurvives(n.world.files[ino], History(n.world, ms, ino), ms, c, data, off, acked, p);
  }

  lemma OwnByteSurvives(f: Content, h: seq<Effect>, ms: seq<Move>, c: nat, data: seq<Byte>, off: nat, acked: nat, p: nat)
    requires |h| == |ms| && p < acked <= |data|
    requires OwnFaithful(h, ms, c, data, off) && OwnCovers(h, ms, c, off, acked)
    ensures (forall j :: 0 <= j < |ms| && ms[j].conn != c ==> !Touches(h[j], off + p)) ==>
              off + p < |Replay(f, h)| && Replay(f, h)[off + p] == data[p]
  {
    hide Replay;
    if forall j :: 0 <= j < |ms| && ms[j].conn != c ==> !Touches(h[j], off + p) {
      assert SetByOwn(h, ms, c, off + p);
      var j :| 0 <= j < |ms| && ms[j].conn == c && Sets(h[j], off + p);
      var k := LastTouchExists(h, j, off + p);
      assert ms[k].conn == c && StoresSlice(h[k], data, off);
      LastEffectWins(f, h, k, off + p);
      StoredStaysInside(f, h, k, off + p);
      assert h[k].data[off + p - h[k].off] == data[p] == ByteAt(Replay(f, h), off + p);
    }
  }

  // ---------- Reads ----------

  /** Move `j` is an own read request covering position `i`, and `b` was the file's byte at `i` at the
      moment that move ran. */
  ghost predicate CurrentAt(w: World, ms: seq<Move>, j: int, c: nat, fd: int, ino: nat, i: nat, b: Byte)
  {
    && 0 <= j < |ms| && ms[j].Served? && ms[j].conn == c
    && ms[j].req.PRead? && ms[j].req.fd == fd && ms[j].req.count <= MAXDATA
    && ms[j].req.offset <= i < ms[j].req.offset + ms[j].req.count
    && var now := Run(w, ms[..j]);
       ino in now.files && i < |now.files[ino]| && now.files[ino][i] == b
  }

  lemma ReadChunk(n: Net, c: nat, fd: int, ino: nat, count: nat, off: nat)
    requires Safe(n.world) && Readable(n.world, c, fd, ino) && Foreign(n.script, c)
    requires 0 < count <= MAXDATA && off < TWO64
    ensures var req := PRead(fd, off, count);
            var (n1, reply) := Call(n, c, req);
            var bytes := Copied(reply, count);
            && Ran(n, n1, Moves(n, c, req))
            && Safe(n1.world) && Readable(n1.world, c, fd, ino) && Foreign(n1.script, c)
            && (bytes != [] ==> n.script != []) && (|bytes| == count ==> off + count <= OFF_MAX)
            && (forall p :: 0 <= p < |bytes| ==>
                  CurrentAt(n.world, Moves(n, c, req), |n.script[0].others|, c, fd, ino, off + p, bytes[p]))
  {
    hide Safe, Run, Next, Decide, ReplyTo, ReadAt;
    assert n.script == [] ==> Run(n.world, []) == n.world by { EmptyRun(n, ino, c, [], 0); }
    if n.script != [] {
      var e := n.script[0];
      assert e in n.script;
      OthersKeep(n, c, fd, ino);
      if !e.fate.RequestLost? {
        var w1 := Run(n.world, e.others);
        var m := Served(c, PRead(fd, off, count), e.fate.kernel);
        RunSnoc(n.world, e.others, m);
        ReadMove(w1, c, fd, ino, count, off, e.fate.kernel);
        FullRead(w1.files[ino], off, count, count);
        FileSize(w1, ino);
        if e.fate.Answered? {
          ReadBytes(w1.files[ino], off, Copied(Call(n, c, m.req).1, count));
        }
        assert (e.others + [m])[..|e.others|] == e.others;
      }
    }
  }

  lemma ReadBytes(f: Content, off: nat, bytes: seq<Byte>)
    requires bytes == ReadAt(f, off, |bytes|)
    ensures forall p :: 0 <= p < |bytes| ==> off + p < |f| && bytes[p] == f[off + p]
  {}

  lemma {:induction false} FetchRuns(n: Net, c: nat, s: Source, count: nat, off: nat, ret: int) returns (ms: seq<Move>)
    ensures Ran(n, FetchLoop(n, c, s, count, off, ret).0, ms)
    decreases count
  {
    hide Call, FetchLoop, Moves, FetchRequest, FetchResult, Copied, Ran;
    FetchNext(n, c, s, count, off, ret);
    ms := [];
    if count == 0 {
      EmptyRun(n, 0, c, [], 0);
    } else {
      var len := Min(count, MAXDATA);
      var req := FetchRequest(s, off, len);
      var (n1, reply) := Call(n, c, req);
      var semi := FetchResult(s, reply, len);
      if semi == len {
        ms := FetchRuns(n1, c, s, count - len, (off + len) % TWO64, ret + semi);
      } else {
        EmptyRun(n1, 0, c, [], 0);
      }
      RanOnce(n, c, req);
      RanTwice(n, n1, FetchLoop(n, c, s, count, off, ret).0, Moves(n, c, req), ms);
      ms := Moves(n, c, req) + ms;
    }
  }

  lemma CurrentLater(w: World, a: seq<Move>, b: seq<Move>, j: int, c: nat, fd: int, ino: nat, i: nat, x: Byte)
    ensures CurrentAt(w, a, j, c, fd, ino, i, x) ==> CurrentAt(w, a + b, j, c, fd, ino, i, x)
    ensures CurrentAt(Run(w, a), b, j, c, fd, ino, i, x) ==> CurrentAt(w, a + b, |a| + j, c, fd, ino, i, x)
  {
    hide Run;
    if 0 <= j <= |a| {
      assert (a + b)[..j] == a[..j];
    }
    if 0 <= j <= |b| {
      assert (a + b)[..|a| + j] == a + b[..j];
      RunConcat(w, a, b[..j]);
    }
  }

  /** Interleaved reads: whatever other clients do between the chunks, each byte `icbinn_pread` copies
      out is the byte the file had at that position when the byte's own chunk ran. */
  lemma {:induction false} BytesReadAreCurrent(n: Net, c: nat, fd: int, ino: nat, count: nat, off: nat, ret: nat, p: nat)
    returns (ms: seq<Move>, j: int)
    requires Safe(n.world) && Readable(n.world, c, fd, ino) && Foreign(n.script, c) && off < TWO64
    requires p < |FetchLoop(n, c, FromFile(fd), count, off, ret).2|
    ensures var (n', r, bytes) := FetchLoop(n, c, FromFile(fd), count, off, ret);
            Ran(n, n', ms) && CurrentAt(n.world, ms, j, c, fd, ino, off + p, bytes[p])
    decreases count
  {
    hide Safe, Run, Decide, ReplyTo, Moves, Foreign, CurrentAt, Ran, Readable, FetchLoop, FetchResult, Copied, Call;
    FetchFirst(n, c, fd, count, off, ret);
    var len := Min(count, MAXDATA);
    var req := PRead(fd, off, len);
    ReadChunk(n, c, fd, ino, len, off);
    var (n1, reply) := Call(n, c, req);
    var head, m1 := Copied(reply, len), Moves(n, c, req);
    var (n', r, bytes) := FetchLoop(n, c, FromFile(fd), count, off, ret);
    j := if n.script == [] then 0 else |n.script[0].others|;
    ms := [];
    if p < |head| {
      if FetchResult(FromFile(fd), reply, len) == len {
        ms := FetchRuns(n1, c, FromFile(fd), count - len, (off + len) % TWO64, ret + len);
      } else {
        EmptyRun(n1, ino, c, [], 0);
      }
      assert CurrentAt(n.world, m1, j, c, fd, ino, off + p, head[p]) && bytes[p] == head[p];
      CurrentLater(n.world, m1, ms, j, c, fd, ino, off + p, bytes[p]);
    } else {
      ms, j := BytesReadAreCurrent(n1, c, fd, ino, count - len, off + len, ret + len, p - len);
      assert n1.world == Run(n.world, m1) by { RanWorld(n, n1, m1); }
      CurrentLater(n.world, m1, ms, j, c, fd, ino, off + p, bytes[p]);
      j := |m1| + j;
    }
    RanTwice(n, n1, n', m1, ms);
    ms := m1 + ms;
  }

  lemma RanWorld(n: Net, n1: Net, ms: seq<Move>)
    requires Ran(n, n1, ms)
    ensures n1.world == Run(n.world, ms)
  {}

  /** The first iteration of a fetch: what it copies comes first, and only a full piece is continued. */
  lemma FetchFirst(n: Net, c: nat, fd: int, count: nat, off: nat, ret: nat)
    ensures count == 0 ==> FetchLoop(n, c, FromFile(fd), count, off, ret).2 == []
    ensures count > 0 ==>
              var len := Min(count, MAXDATA);
              var (n1, reply) := Call(n, c, PRead(fd, off, len));
              var head := Copied(reply, len);
              var (n', r, bytes) := FetchLoop(n, c, FromFile(fd), count, off, ret);
              if FetchResult(FromFile(fd), reply, len) == len
              then
                && |head| == len
                && (n', r, bytes) == Prepend(head, FetchLoop(n1, c, FromFile(fd), count - len, (off + len) % TWO64, ret + len))
              else n' == n1 && bytes == head
  {
    hide Call, FetchLoop, FetchResult, Copied;
    FetchNext(n, c, FromFile(fd), count, off, ret);
  }
}
