/** The chunked client refines one-shot POSIX pread and pwrite: for every size, every offset and
    every script of failures, lost messages and short transfers. */
module Refinement {
  import opened Bytes
  import opened FileStore
  import opened Server
  import opened ChunkedIo

  // ---------- Assumptions about the environment ----------

  /** Other clients neither write nor truncate while the call is in progress. */
  predicate NoOtherWriter(script: seq<Event>, c: nat)
  {
    forall e, m :: e in script && m in e.others ==> Bystander(m, c)
  }

  /** The environment's moves belong to other connections; nothing else is assumed about them. */
  predicate Foreign(script: seq<Event>, c: nat)
  {
    forall e, m :: e in script && m in e.others ==> m.conn != c
  }

  predicate Whole(fate: Fate) { !fate.RequestLost? && fate.kernel.Grant? ==> fate.kernel.room >= MAXDATA }

  /** The store writes all of a chunk or fails; it never stores only a part. */
  predicate AllOrError(script: seq<Event>) { forall e :: e in script ==> Whole(e.fate) }

  /** Connection `c` has `ino` open on `fd`. */
  predicate OpenOn(w: World, c: nat, fd: int, ino: nat)
  {
    (c, fd) in w.fds && w.fds[(c, fd)].ino == ino && ino in w.files
  }

  predicate Writable(w: World, c: nat, fd: int, ino: nat) { OpenOn(w, c, fd, ino) && w.fds[(c, fd)].canWrite }

  predicate Readable(w: World, c: nat, fd: int, ino: nat) { OpenOn(w, c, fd, ino) && w.fds[(c, fd)].canRead }

  /** A descriptor of the updated file stays what it was. */
  lemma StillOpen(w: World, w': World, c: nat, fd: int, ino: nat, f: Content)
    requires OpenOn(w, c, fd, ino) && Updated(w, w', c, ino, f)
    ensures Safe(w') && OpenOn(w', c, fd, ino) && w'.fds[(c, fd)] == w.fds[(c, fd)] && w'.files[ino] == f
    ensures Writable(w, c, fd, ino) ==> Writable(w', c, fd, ino)
  {
    hide Safe;
  }

  // ---------- Writing ----------

  /** What the handler does with a write request: refuse it, or store the bytes the kernel has room for. */
  lemma WriteDecides(w: World, c: nat, fd: int, ino: nat, data: seq<Byte>, off: nat, k: Kernel)
    requires Writable(w, c, fd, ino) && |data| <= MAXDATA && off < TWO64
    ensures var o := Decide(w, c, PWrite(fd, off, data), k);
            if k.Grant? && off + |data| <= OFF_MAX then o == DoWrite(ino, off, data[..Min(k.room, |data|)]) else o.Refuse?
  {
    CastOffset(off);
    hide OffT;
  }

  /** What one executed write request does. */
  lemma WriteMove(w: World, c: nat, fd: int, ino: nat, data: seq<Byte>, off: nat, k: Kernel)
    requires Safe(w) && Writable(w, c, fd, ino)
    requires |data| <= MAXDATA && off < TWO64 && (k.Grant? ==> k.room >= MAXDATA)
    ensures var o := Decide(w, c, PWrite(fd, off, data), k);
            var w' := Next(w, Served(c, PWrite(fd, off, data), k));
            if ReplyTo(o).Failed? then o.Refuse? && w' == w && (!k.Grant? || off + |data| > OFF_MAX)
            else ReplyTo(o) == Done && off + |data| <= OFF_MAX && o == DoWrite(ino, off, data)
                 && Updated(w, w', c, ino, WriteAt(w.files[ino], off, data))
  {
    MoveKeepsSafe(w, Served(c, PWrite(fd, off, data), k));
    hide Decide, Safe, WriteAt;
    WriteDecides(w, c, fd, ino, data, off, k);
    assert data[..|data|] == data;
  }

  /** The next call is executed but its reply is lost. */
  predicate Lossy(n: Net) { n.script != [] && n.script[0].fate.ReplyLost? }

  lemma WriteCall(n: Net, c: nat, fd: int, ino: nat, data: seq<Byte>, off: nat)
    requires Safe(n.world) && Writable(n.world, c, fd, ino)
    requires NoOtherWriter(n.script, c) && AllOrError(n.script)
    requires 0 < |data| <= MAXDATA && off < TWO64
    ensures var (n1, reply) := Call(n, c, PWrite(fd, off, data));
            var f := n.world.files[ino];
            var semi := WriteResult(reply, |data|);
            && (semi == |data| || semi < 0)
            && (semi == |data| ==> off + |data| <= OFF_MAX && Updated(n.world, n1.world, c, ino, WriteAt(f, off, data)))
            && (semi < 0 ==>
                  || Updated(n.world, n1.world, c, ino, f)
                  || (Lossy(n) && Updated(n.world, n1.world, c, ino, WriteAt(f, off, data))))
            && (semi == |data| ==> n.script != [])
            && (Prompt(n.script, 1) && off + |data| <= OFF_MAX ==> semi == |data|)
            && Writable(n1.world, c, fd, ino) && Safe(n1.world)
            && NoOtherWriter(n1.script, c) && AllOrError(n1.script)
  {
    hide Safe, Decide, Next, Bystander, Run, ReplyTo, WriteAt, Updated;
    WriteNothing(n.world, [], 0);
    var f := n.world.files[ino];
    if n.script != [] {
      var e := n.script[0];
      assert e in n.script;
      BystandersKeep(n.world, e.others, c, ino);
      var w1 := Run(n.world, e.others);
      StillOpen(n.world, w1, c, fd, ino, f);
      if !e.fate.RequestLost? {
        var m := Served(c, PWrite(fd, off, data), e.fate.kernel);
        RunSnoc(n.world, e.others, m);
        WriteMove(w1, c, fd, ino, data, off, e.fate.kernel);
        if !ReplyTo(Decide(w1, c, PWrite(fd, off, data), e.fate.kernel)).Failed? {
          UpdatedTwice(n.world, w1, Next(w1, m), c, ino, f, WriteAt(f, off, data));
          StillOpen(w1, Next(w1, m), c, fd, ino, WriteAt(f, off, data));
        }
      }
    } else {
      BystandersKeep(n.world, [], c, ino);
    }
  }

  /** The accounting behind `icbinn_pwrite`, at any iteration of its loop: `acked` bytes were
      acknowledged and `applied` bytes reached the file. */
  ghost predicate Accounted(n: Net, n': Net, c: nat, ino: nat, data: seq<Byte>, off: nat,
                            acked: nat, applied: nat)
    requires ino in n.world.files
  {
    && acked <= applied <= |data|
    && Updated(n.world, n'.world, c, ino, WriteAt(n.world.files[ino], off, data[..applied]))
    && (acked == |data| || acked % MAXDATA == 0)
    && 0 <= Used(n, n') <= |n.script|
    && (applied != acked ==>
          && applied == Min(acked + MAXDATA, |data|)
          && Used(n, n') > 0 && n.script[Used(n, n') - 1].fate.ReplyLost?)
  }

  lemma UpdatedTwice(w: World, w1: World, w2: World, c: nat, ino: nat, f1: Content, f2: Content)
    requires Updated(w, w1, c, ino, f1) && Updated(w1, w2, c, ino, f2)
    ensures Updated(w, w2, c, ino, f2) && f1 == w1.files[ino]
  {
    hide Safe;
  }

  /** One acknowledged chunk in front of an accounted rest. */
  lemma AccountOneMore(n: Net, n1: Net, n': Net, c: nat, ino: nat, data: seq<Byte>, off: nat,
                       len: nat, a: nat, b: nat)
    requires ino in n.world.files && ino in n1.world.files && len <= |data| && (len == MAXDATA || len == |data|)
    requires n.script != [] && n1.script == n.script[1..]
    requires Updated(n.world, n1.world, c, ino, WriteAt(n.world.files[ino], off, data[..len]))
    requires Accounted(n1, n', c, ino, data[len..], off + len, a, b)
    ensures Accounted(n, n', c, ino, data, off, len + a, len + b)
  {
    hide Updated, WriteAt;
    UpdatedTwice(n.world, n1.world, n'.world, c, ino, WriteAt(n.world.files[ino], off, data[..len]),
                 WriteAt(n1.world.files[ino], off + len, data[len..][..b]));
    WriteSplit(n.world.files[ino], off, data[..len], data[len..][..b]);
    assert data[..len] + data[len..][..b] == data[..len + b];
  }

  /** A failed chunk, whose request may still have been executed. */
  lemma AccountFailed(n: Net, n1: Net, c: nat, ino: nat, data: seq<Byte>, off: nat) returns (applied: nat)
    requires ino in n.world.files && 0 <= Used(n, n1) <= |n.script|
    requires var f := n.world.files[ino];
             var piece := data[..Min(|data|, MAXDATA)];
             || Updated(n.world, n1.world, c, ino, f)
             || (Lossy(n) && Used(n, n1) == 1 && Updated(n.world, n1.world, c, ino, WriteAt(f, off, piece)))
    ensures Accounted(n, n1, c, ino, data, off, 0, applied)
  {
    hide Updated;
    assert WriteAt(n.world.files[ino], off, data[..0]) == n.world.files[ino];
    applied := if Updated(n.world, n1.world, c, ino, n.world.files[ino]) then 0 else Min(|data|, MAXDATA);
  }

  lemma {:induction false} WriteLoopAccounts(n: Net, c: nat, fd: int, ino: nat, data: seq<Byte>, off: nat, ret: nat)
    returns (acked: nat, applied: nat)
    requires Safe(n.world) && Writable(n.world, c, fd, ino)
    requires NoOtherWriter(n.script, c) && AllOrError(n.script) && off < TWO64
    ensures var (n', r) := WriteLoop(n, c, fd, data, off, ret);
            && acked <= |data| && Accounted(n, n', c, ino, data, off, acked, applied)
            && (acked == |data| ==> r == ret + |data|)
            && (acked < |data| ==> if ret + acked > 0 then r == ret + acked else r < 0)
    decreases |data|
  {
    hide Safe, Call, WriteLoop, Updated, WriteAt, WriteResult, Prompt, NoOtherWriter, AllOrError, Accounted;
    WriteStep(n, c, fd, data, off, ret);
    acked := 0;
    if data == [] {
      BystandersKeep(n.world, [], c, ino);
      WriteNothing(n.world, n.world.files[ino], off);
      applied := AccountFailed(n, n, c, ino, data, off);
    } else {
      var len := Min(|data|, MAXDATA);
      WriteCall(n, c, fd, ino, data[..len], off);
      CallTraffic(n, c, PWrite(fd, off, data[..len]));
      var (n1, reply) := Call(n, c, PWrite(fd, off, data[..len]));
      if WriteResult(reply, len) == len {
        var a, b := WriteLoopAccounts(n1, c, fd, ino, data[len..], off + len, ret + len);
        acked, applied := len + a, len + b;
        AccountOneMore(n, n1, WriteLoop(n, c, fd, data, off, ret).0, c, ino, data, off, len, a, b);
      } else {
        applied := AccountFailed(n, n1, c, ino, data, off);
      }
    }
  }

  lemma WriteNothing(w: World, f: Content, off: nat)
    ensures Run(w, []) == w && WriteAt(f, off, []) == f
  {}

  /** Why an all-or-error store has to be assumed: the handler ignores a short count, so an acknowledged
      chunk is a complete one exactly when the kernel had room for it, or the file already contained the
      bytes that were left out. */
  lemma AcknowledgedChunkExact(w: World, c: nat, fd: int, ino: nat, data: seq<Byte>, off: nat, k: Kernel)
    requires Safe(w) && Writable(w, c, fd, ino) && off < TWO64
    requires ReplyTo(Decide(w, c, PWrite(fd, off, data), k)) == Done
    ensures k.Grant?
    ensures var f := w.files[ino];
            Next(w, Served(c, PWrite(fd, off, data), k)).files[ino] == WriteAt(f, off, data)
            <==> k.room >= |data| || (off + |data| <= |f| && f[off + k.room..off + |data|] == data[k.room..])
  {
    TooBig(w, c, fd, data, off, k);
    hide Decide, WriteAt;
    WriteDecides(w, c, fd, ino, data, off, k);
    if k.room < |data| {
      PartialWriteExact(w.files[ino], off, data, k.room);
    } else {
      assert data[..|data|] == data;
    }
  }

  lemma PartialWriteExact(f: Content, off: nat, data: seq<Byte>, n: nat)
    requires n < |data|
    ensures WriteAt(f, off, data[..n]) == WriteAt(f, off, data)
            <==> off + |data| <= |f| && f[off + n..off + |data|] == data[n..]
  {
    hide WriteAt;
    if WriteAt(f, off, data[..n]) == WriteAt(f, off, data) {
      PartialWriteMissesNothing(f, off, data, n);
    }
    if off + |data| <= |f| && f[off + n..off + |data|] == data[n..] {
      PartialWriteSuffices(f, off, data, n);
    }
  }

  lemma PartialWriteMissesNothing(f: Content, off: nat, data: seq<Byte>, n: nat)
    requires n < |data| && WriteAt(f, off, data[..n]) == WriteAt(f, off, data)
    ensures off + |data| <= |f| && f[off + n..off + |data|] == data[n..]
  {
    hide WriteAt;
    WrittenByte(f, off, data[..n], 0);
    WrittenByte(f, off, data, 0);
    forall i | n <= i < |data| ensures f[off + i] == data[i] {
      WrittenByte(f, off, data[..n], off + i);
      WrittenByte(f, off, data, off + i);
    }
  }

  lemma PartialWriteSuffices(f: Content, off: nat, data: seq<Byte>, n: nat)
    requires n < |data| && off + |data| <= |f| && f[off + n..off + |data|] == data[n..]
    ensures WriteAt(f, off, data[..n]) == WriteAt(f, off, data)
  {
    var part, full := WriteAt(f, off, data[..n]), WriteAt(f, off, data);
    hide WriteAt;
    forall i: nat ensures ByteAt(part, i) == ByteAt(full, i) {
      WrittenByte(f, off, data[..n], i);
      WrittenByte(f, off, data, i);
      if off + n <= i < off + |data| {
        var j := i - off - n;
        assert f[off + n..off + |data|][j] == f[off + n + j] && data[n..][j] == data[n + j];
      }
    }
    WrittenByte(f, off, data[..n], 0);
    WrittenByte(f, off, data, 0);
    SameBytes(part, full);
  }

  lemma TooBig(w: World, c: nat, fd: int, data: seq<Byte>, off: nat, k: Kernel)
    ensures |data| > MAXDATA ==> ReplyTo(Decide(w, c, PWrite(fd, off, data), k)).Failed?
  {}

  /** Write fault accounting: a positive result r means exactly the first r bytes were applied, and r
      is the whole count or a multiple of MAXDATA below it; a negative result means the first chunk
      failed.  After a lost reply, and only then, one further whole chunk may also have been applied. */
  lemma WriteFaultAccounting(n: Net, c: nat, fd: int, ino: nat, data: seq<Byte>, off: nat) returns (applied: nat)
    requires Safe(n.world) && Writable(n.world, c, fd, ino)
    requires NoOtherWriter(n.script, c) && AllOrError(n.script) && off < TWO64
    ensures var (n', r) := WriteLoop(n, c, fd, data, off, 0);
            && applied <= |data|
            && Updated(n.world, n'.world, c, ino, WriteAt(n.world.files[ino], off, data[..applied]))
            && (r == |data| || (0 < r < |data| && r % MAXDATA == 0) || r < 0)
            && (r == |data| ==> applied == |data|)
            && (applied == Max(r, 0) ||
                (&& applied == Min(Max(r, 0) + MAXDATA, |data|)
                 && Used(n, n') > 0 && n.script[Used(n, n') - 1].fate.ReplyLost?))
  {
    hide Updated, WriteAt, Safe, WriteLoop, NoOtherWriter, AllOrError;
    var acked;
    acked, applied := WriteLoopAccounts(n, c, fd, ino, data, off, 0);
  }

  // ---------- Reading ----------

  /** The store never answers a read with nothing unless it is at the end of the file. */
  predicate Progressive(script: seq<Event>)
  {
    forall e :: e in script && !e.fate.RequestLost? && e.fate.kernel.Grant? ==> e.fate.kernel.n > 0
  }

  /** The next `calls` calls are all answered, and the kernel moves everything it is asked for. */
  predicate Prompt(script: seq<Event>, calls: nat)
  {
    && calls <= |script|
    && forall i :: 0 <= i < calls ==>
         script[i].fate.Answered? && script[i].fate.kernel.Grant? && script[i].fate.kernel.n >= MAXDATA
  }

  /** What the handler does with a read request: refuse it, or yield the bytes the kernel grants. */
  lemma ReadDecides(w: World, c: nat, fd: int, ino: nat, count: nat, off: nat, k: Kernel)
    requires Readable(w, c, fd, ino) && count <= MAXDATA && off < TWO64
    ensures var o := Decide(w, c, PRead(fd, off, count), k);
            if k.Grant? && off < TWO63 then o == DoYield(ReadAt(w.files[ino], off, Min(k.n, count))) else o.Refuse?
  {
    CastOffset(off);
    hide OffT, ReadAt;
  }

  /** What the worker makes of one read request answered in world `w`. */
  lemma ReadMove(w: World, c: nat, fd: int, ino: nat, count: nat, off: nat, k: Kernel)
    requires Readable(w, c, fd, ino) && 0 < count <= MAXDATA && off < TWO64
    ensures Next(w, Served(c, PRead(fd, off, count), k)) == w
    ensures var reply := Some(ReplyTo(Decide(w, c, PRead(fd, off, count), k)));
            var f := w.files[ino];
            var semi := FetchResult(FromFile(fd), reply, count);
            var bytes := Copied(reply, count);
            && |bytes| <= count && bytes == ReadAt(f, off, |bytes|)
            && (if bytes == [] then semi <= 0 else semi == |bytes|)
            && (semi == 0 && (k.Grant? ==> k.n > 0) ==> |f| <= off)
            && (k.Grant? && off < TWO63 ==> semi >= 0)
            && (k.Grant? && k.n >= MAXDATA && off < TWO63 ==> semi >= 0 && bytes == ReadAt(f, off, count))
  {
    hide Decide;
    ReadDecides(w, c, fd, ino, count, off, k);
  }

  /** A read request changes nothing. */
  lemma ReadCallFrame(n: Net, c: nat, fd: int, ino: nat, count: nat, off: nat)
    requires Safe(n.world) && Readable(n.world, c, fd, ino) && NoOtherWriter(n.script, c)
    requires 0 < count <= MAXDATA && off < TWO64
    ensures var n1 := Call(n, c, PRead(fd, off, count)).0;
            Updated(n.world, n1.world, c, ino, n.world.files[ino]) && NoOtherWriter(n1.script, c)
  {
    hide Safe, Next, Decide, Bystander, Run, ReplyTo, Updated, FetchResult, Copied;
    WriteNothing(n.world, [], 0);
    if n.script == [] {
      BystandersKeep(n.world, [], c, ino);
    } else {
      var e := n.script[0];
      assert e in n.script;
      var w1 := Run(n.world, e.others);
      BystandersKeep(n.world, e.others, c, ino);
      StillOpen(n.world, w1, c, fd, ino, n.world.files[ino]);
      if !e.fate.RequestLost? {
        RunSnoc(n.world, e.others, Served(c, PRead(fd, off, count), e.fate.kernel));
        ReadMove(w1, c, fd, ino, count, off, e.fate.kernel);
      }
    }
  }

  /** The state an answered call finds, when nobody else writes. */
  lemma QuietBefore(n: Net, c: nat, fd: int, ino: nat)
    requires Safe(n.world) && Readable(n.world, c, fd, ino) && NoOtherWriter(n.script, c) && n.script != []
    ensures var w1 := Run(n.world, n.script[0].others);
            Readable(w1, c, fd, ino) && w1.files[ino] == n.world.files[ino]
  {
    hide Safe, Bystander, Run, Updated;
    assert n.script[0] in n.script;
    BystandersKeep(n.world, n.script[0].others, c, ino);
    StillOpen(n.world, Run(n.world, n.script[0].others), c, fd, ino, n.world.files[ino]);
  }

  /** What comes back is the file's content, as far as it goes. */
  lemma ReadCallReply(n: Net, c: nat, fd: int, ino: nat, count: nat, off: nat)
    requires Safe(n.world) && Readable(n.world, c, fd, ino) && NoOtherWriter(n.script, c)
    requires 0 < count <= MAXDATA && off < TWO64
    ensures var reply := Call(n, c, PRead(fd, off, count)).1;
            var f := n.world.files[ino];
            var semi := FetchResult(FromFile(fd), reply, count);
            var bytes := Copied(reply, count);
            && |bytes| <= count && bytes == ReadAt(f, off, |bytes|)
            && (if bytes == [] then semi <= 0 else semi == |bytes|)
            && (n.script == [] ==> semi < 0)
            && (semi == 0 && Progressive(n.script) ==> |f| <= off)
            && (Granted(n.script, 1) && off < TWO63 ==> semi >= 0)
            && (Prompt(n.script, 1) && off < TWO63 ==> semi >= 0 && bytes == ReadAt(f, off, count))
  {
    hide Safe, Decide, NoOtherWriter, Run, ReplyTo, ReadAt, FetchResult, Copied;
    NoReply(n.world.files[ino], fd, count, off);
    if n.script != [] {
      var e := n.script[0];
      assert e in n.script;
      QuietBefore(n, c, fd, ino);
      if e.fate.Answered? {
        ReadMove(Run(n.world, e.others), c, fd, ino, count, off, e.fate.kernel);
      }
    }
  }

  lemma ReadCall(n: Net, c: nat, fd: int, ino: nat, count: nat, off: nat)
    requires Safe(n.world) && Readable(n.world, c, fd, ino)
    requires NoOtherWriter(n.script, c)
    requires 0 < count <= MAXDATA && off < TWO64
    ensures var (n1, reply) := Call(n, c, PRead(fd, off, count));
            var f := n.world.files[ino];
            var semi := FetchResult(FromFile(fd), reply, count);
            var bytes := Copied(reply, count);
            && Updated(n.world, n1.world, c, ino, f) && Readable(n1.world, c, fd, ino) && Safe(n1.world)
            && |bytes| <= count && bytes == ReadAt(f, off, |bytes|)
            && (if bytes == [] then semi <= 0 else semi == |bytes|)
            && n1.world.files[ino] == f && |f| <= OFF_MAX && NoOtherWriter(n1.script, c)
            && (n.script == [] ==> semi < 0)
            && (semi == 0 && Progressive(n.script) ==> |f| <= off)
            && (Prompt(n.script, 1) && off < TWO63 ==> semi >= 0 && bytes == ReadAt(f, off, count))
  {
    FileSize(n.world, ino);
    hide Safe, Call, NoOtherWriter, Updated, ReadAt, FetchResult, Copied, Progressive, Prompt;
    ReadCallFrame(n, c, fd, ino, count, off);
    ReadCallReply(n, c, fd, ino, count, off);
    StillOpen(n.world, Call(n, c, PRead(fd, off, count)).0.world, c, fd, ino, n.world.files[ino]);
  }

  lemma NoReply(f: Content, fd: int, count: nat, off: nat)
    ensures FetchResult(FromFile(fd), None, count) == -1 && Copied(None, count) == [] == ReadAt(f, off, 0)
  {}

  /** What the script assumptions say about the calls after the next one. */
  lemma ScriptTail(script: seq<Event>, calls: nat)
    ensures script == [] ==> !Prompt(script, calls + 1)
    ensures script != [] && Progressive(script) ==> Progressive(script[1..])
    ensures script != [] && Prompt(script, calls + 1) ==> Prompt(script, 1) && Prompt(script[1..], calls)
  {}

  /** Read refinement, at any iteration of the loop: whatever the replies, the copied bytes are the
      file's, and the result counts them. */
  lemma {:induction false} FetchLoopReads(n: Net, c: nat, fd: int, ino: nat, count: nat, off: nat, ret: nat)
    requires Safe(n.world) && Readable(n.world, c, fd, ino)
    requires NoOtherWriter(n.script, c) && off < TWO64
    ensures var (n', r, bytes) := FetchLoop(n, c, FromFile(fd), count, off, ret);
            var f := n.world.files[ino];
            && Updated(n.world, n'.world, c, ino, f)
            && |bytes| <= count && bytes == ReadAt(f, off, |bytes|)
            && (if ret + |bytes| > 0 then r == ret + |bytes| else r <= 0)
            && (count > 0 && r == 0 && Progressive(n.script) ==> |f| <= off)
            && (Prompt(n.script, Pieces(count)) && off < TWO63 ==> bytes == ReadAt(f, off, count) && r == ret + |bytes|)
    decreases count
  {
    hide Safe, NoOtherWriter, Updated, Call, FetchLoop, FetchResult, Copied, ReadAt, Prompt, Progressive, Pieces;
    FetchNext(n, c, FromFile(fd), count, off, ret);
    PiecesStep(count);
    if count == 0 {
      BystandersKeep(n.world, [], c, ino);
      ReadNothing(n.world, n.world.files[ino], off);
    } else {
      var len := Min(count, MAXDATA);
      ReadCall(n, c, fd, ino, len, off);
      var f := n.world.files[ino];
      var (n1, reply) := Call(n, c, PRead(fd, off, len));
      var bytes := Copied(reply, len);
      FullRead(f, off, len, count);
      ScriptTail(n.script, Pieces(count - len));
      CallTraffic(n, c, PRead(fd, off, len));
      if FetchResult(FromFile(fd), reply, len) == len {
        FetchLoopReads(n1, c, fd, ino, count - len, off + len, ret + len);
        UpdatedTwice(n.world, n1.world, FetchLoop(n, c, FromFile(fd), count, off, ret).0.world, c, ino, f, f);
        var rest := FetchLoop(n1, c, FromFile(fd), count - len, off + len, ret + len).2;
        ReadSplit(f, off, len, |rest|);
        ReadSplit(f, off, len, count - len);
      }
    }
  }

  /** A full read stays inside the file; a short one is the end of it. */
  lemma FullRead(f: Content, off: nat, len: nat, count: nat)
    requires len <= count
    ensures 0 < len == |ReadAt(f, off, len)| ==> off + len <= |f|
    ensures |ReadAt(f, off, len)| < len ==> ReadAt(f, off, len) == ReadAt(f, off, count)
  {}

  lemma ReadNothing(w: World, f: Content, off: nat)
    ensures Run(w, []) == w && ReadAt(f, off, 0) == []
  {}

  /** Read refinement: a nonnegative result r never exceeds the count and the buffer then starts with
      the file's bytes from `off` on; with full replies r is what one POSIX pread would return. */
  lemma ReadRefinement(n: Net, c: nat, fd: int, ino: nat, count: nat, off: nat)
    requires Safe(n.world) && Readable(n.world, c, fd, ino)
    requires NoOtherWriter(n.script, c) && off < TWO64
    ensures var (n', r, bytes) := FetchLoop(n, c, FromFile(fd), count, off, 0);
            var f := n.world.files[ino];
            && r <= count && |bytes| == Max(r, 0)
            && (r > 0 ==> off + r <= |f| && bytes == f[off..off + r])
            && (Prompt(n.script, Pieces(count)) && off < TWO63 ==> r == Min(count, Max(0, |f| - off)))
            && ino in n'.world.files && n'.world.files[ino] == f
  {
    hide Safe, NoOtherWriter, FetchLoop;
    FetchLoopReads(n, c, fd, ino, count, off, 0);
  }

  /** A read of one piece that is answered by a willing kernel never fails, and uses up one call. */
  lemma GrantedRead(n: Net, c: nat, fd: int, ino: nat, count: nat, off: nat)
    requires Safe(n.world) && Readable(n.world, c, fd, ino) && NoOtherWriter(n.script, c)
    requires 0 < count <= MAXDATA && off < TWO63 && Granted(n.script, 1)
    ensures var (n', r, bytes) := FetchLoop(n, c, FromFile(fd), count, off, 0); r >= 0 && n'.script == n.script[1..]
  {
    hide Safe, Call, FetchLoop, FetchResult, Copied, NoOtherWriter, ReadAt;
    ReadCallReply(n, c, fd, ino, count, off);
    CallTraffic(n, c, PRead(fd, off, count));
    FetchNext(n, c, FromFile(fd), count, off, 0);
    FetchNext(Call(n, c, PRead(fd, off, count)).0, c, FromFile(fd), 0, (off + count) % TWO64, count);
  }

  // ---------- Random data ----------

  predicate ValidSource(src: int) { src == 0 || src == 1 }

  /** The random bytes that reach the client from the kernel at this event. */
  function Supply(e: Event): seq<Byte>
  {
    if e.fate.Answered? && e.fate.kernel.Entropy? then e.fate.kernel.bytes else []
  }

  /** Bytes 0 to `p` of a request are each supplied by their own piece's call. */
  predicate SuppliedTo(script: seq<Event>, p: nat)
    decreases p
  {
    && script != []
    && if p < MAXDATA then p < |Supply(script[0])|
       else MAXDATA <= |Supply(script[0])| && SuppliedTo(script[1..], p - MAXDATA)
  }

  /** Byte `p` of a request, as its own piece's call supplies it. */
  function SuppliedByte(script: seq<Event>, p: nat): Byte
    requires SuppliedTo(script, p)
    decreases p
  {
    if p < MAXDATA then Supply(script[0])[p] else SuppliedByte(script[1..], p - MAXDATA)
  }

  /** What one call for random data yields. */
  lemma RandCall(n: Net, c: nat, src: int, len: nat)
    requires 0 < len <= MAXDATA
    ensures var (n1, reply) := Call(n, c, Rand(len, src));
            var semi, bytes := FetchResult(FromDevice(src), reply, len), Copied(reply, len);
            && (if bytes == [] then semi <= 0 else semi == |bytes|)
            && n1.script == (if n.script == [] then [] else n.script[1..])
            && bytes == if n.script == [] || !ValidSource(src) then []
                        else Supply(n.script[0])[..Min(|Supply(n.script[0])|, len)]
  {
    hide Run;
  }

  /** The result counts the bytes copied, whatever the replies. */
  lemma {:induction false} FetchCounts(n: Net, c: nat, s: Source, count: nat, off: nat, ret: nat)
    ensures var (n', r, bytes) := FetchLoop(n, c, s, count, off, ret);
            |bytes| <= count && if ret + |bytes| > 0 then r == ret + |bytes| else r <= 0
    decreases count
  {
    hide Call, FetchResult, Copied, FetchRequest, FetchLoop;
    FetchNext(n, c, s, count, off, ret);
    if count > 0 {
      var len := Min(count, MAXDATA);
      var n1 := Call(n, c, FetchRequest(s, off, len)).0;
      FetchCounts(n1, c, s, count - len, (off + len) % TWO64, ret + len);
    }
  }

  /** Byte `p` is copied iff every byte up to it was supplied, and then it is the one its call supplied. */
  lemma {:induction false} RandByte(n: Net, c: nat, src: int, count: nat, off: nat, ret: nat, p: nat)
    requires p < count
    ensures var bytes := FetchLoop(n, c, FromDevice(src), count, off, ret).2;
            && (p < |bytes| <==> ValidSource(src) && SuppliedTo(n.script, p))
            && (p < |bytes| ==> bytes[p] == SuppliedByte(n.script, p))
    decreases count
  {
    hide Call, FetchResult, Copied, Supply, ValidSource, FetchLoop;
    FetchNext(n, c, FromDevice(src), count, off, ret);
    var len := Min(count, MAXDATA);
    RandCall(n, c, src, len);
    var n1 := Call(n, c, Rand(len, src)).0;
    if p >= len {
      RandByte(n1, c, src, count - len, (off + len) % TWO64, ret + len, p - len);
    }
  }

  /** Random data: the result r counts the bytes copied and never exceeds the count; byte p is copied iff the
      source is valid and each byte up to p was supplied by its own piece's call, and it is that call's byte.
      So the whole count is returned exactly when every call is answered with enough entropy. */
  lemma RandRefinement(n: Net, c: nat, src: int, count: nat, p: nat)
    ensures var (n', r, bytes) := FetchLoop(n, c, FromDevice(src), count, 0, 0);
            && r <= count && |bytes| == Max(r, 0)
            && (p < count ==> (p < r <==> ValidSource(src) && SuppliedTo(n.script, p)))
            && (p < r ==> SuppliedTo(n.script, p) && bytes[p] == SuppliedByte(n.script, p))
            && (r == count <==> count == 0 || (ValidSource(src) && SuppliedTo(n.script, count - 1)))
  {
    FetchNext(n, c, FromDevice(src), count, 0, 0);
    hide Call, FetchLoop, SuppliedTo, SuppliedByte, ValidSource;
    FetchCounts(n, c, FromDevice(src), count, 0, 0);
    if p < count {
      RandByte(n, c, src, count, 0, 0, p);
    }
    if count > 0 {
      RandByte(n, c, src, count, 0, 0, count - 1);
    }
  }

  // ---------- Call counts ----------

  /** The next `calls` calls are all answered by a willing kernel, however little it moves. */
  predicate Granted(script: seq<Event>, calls: nat)
  {
    calls <= |script| && forall i :: 0 <= i < calls ==> script[i].fate.Answered? && script[i].fate.kernel.Grant?
  }

  lemma OthersKeep(n: Net, c: nat, fd: int, ino: nat)
    requires n.script != [] && Foreign(n.script, c) && Safe(n.world) && OpenOn(n.world, c, fd, ino)
    ensures var w1 := Run(n.world, n.script[0].others);
            Safe(w1) && OpenOn(w1, c, fd, ino) && w1.fds[(c, fd)] == n.world.fds[(c, fd)]
  {
    hide Safe, Run;
    assert n.script[0] in n.script;
    OthersKeepDescriptors(n.world, n.script[0].others, c, fd);
    RunKeepsSafe(n.world, n.script[0].others);
    RunReplays(n.world, n.script[0].others, ino);
  }

  /** One answered write call, whatever room the kernel has. */
  lemma GrantedWrite(n: Net, c: nat, fd: int, ino: nat, data: seq<Byte>, off: nat)
    requires Safe(n.world) && Writable(n.world, c, fd, ino) && Foreign(n.script, c)
    requires |data| <= MAXDATA && off + |data| <= OFF_MAX && Granted(n.script, 1)
    ensures var (n1, reply) := Call(n, c, PWrite(fd, off, data));
            var w1 := Run(n.world, n.script[0].others);
            && reply == Some(Done) && Safe(n1.world) && Writable(n1.world, c, fd, ino) && ino in w1.files
            && n1.world.files[ino] == WriteAt(w1.files[ino], off, data[..Min(n.script[0].fate.kernel.room, |data|)])
  {
    hide Safe, Run, Decide, WriteAt;
    var e := n.script[0];
    var m := Served(c, PWrite(fd, off, data), e.fate.kernel);
    OthersKeep(n, c, fd, ino);
    RunSnoc(n.world, e.others, m);
    WriteDecides(Run(n.world, e.others), c, fd, ino, data, off, e.fate.kernel);
    MoveKeepsSafe(Run(n.world, e.others), m);
  }

  lemma GrantedTail(script: seq<Event>, c: nat, calls: nat)
    requires Foreign(script, c) && Granted(script, calls + 1)
    ensures script != [] && Granted(script, 1) && Granted(script[1..], calls) && Foreign(script[1..], c)
  {}

  /** A write of any size reports its whole count whenever every call is answered by a willing kernel:
      other clients and short stores make no difference to the result. */
  lemma {:induction false} WriteSucceeds(n: Net, c: nat, fd: int, ino: nat, data: seq<Byte>, off: nat, ret: nat)
    requires Safe(n.world) && Writable(n.world, c, fd, ino)
    requires Foreign(n.script, c) && off + |data| <= OFF_MAX
    requires Granted(n.script, Pieces(|data|))
    ensures var (n', r) := WriteLoop(n, c, fd, data, off, ret);
            && r == ret + |data| && n'.script == n.script[Pieces(|data|)..]
            && Safe(n'.world) && Writable(n'.world, c, fd, ino) && Foreign(n'.script, c)
    decreases |data|
  {
    hide Safe, Run, Foreign, Granted, Call, WriteLoop, WriteAt, Pieces, Writable;
    PiecesStep(|data|);
    WriteStep(n, c, fd, data, off, ret);
    if data != [] {
      var len := Min(|data|, MAXDATA);
      GrantedTail(n.script, c, Pieces(|data| - len));
      GrantedWrite(n, c, fd, ino, data[..len], off);
      CallTraffic(n, c, PWrite(fd, off, data[..len]));
      WriteSucceeds(Call(n, c, PWrite(fd, off, data[..len])).0, c, fd, ino, data[len..], off + len, ret + len);
    }
  }

  /** A truncation of an open file is done whenever the call is answered by a willing kernel. */
  lemma CutSucceeds(n: Net, c: nat, fd: int, ino: nat, len: nat)
    requires Safe(n.world) && Writable(n.world, c, fd, ino) && Foreign(n.script, c)
    requires len < TWO63 && Granted(n.script, 1)
    ensures var (n1, reply) := Call(n, c, Ftruncate(fd, len));
            && reply == Some(Done) && n1.script == n.script[1..]
            && Safe(n1.world) && Writable(n1.world, c, fd, ino) && Foreign(n1.script, c)
  {
    hide Safe, Run, Decide, ReplyTo, Next;
    var e := n.script[0];
    var w1, m := Run(n.world, e.others), Served(c, Ftruncate(fd, len), e.fate.kernel);
    OthersKeep(n, c, fd, ino);
    RunSnoc(n.world, e.others, m);
    GrantedIsAnswered(w1, c, Ftruncate(fd, len), e.fate.kernel.n, e.fate.kernel.room);
    MoveKeepsSafe(w1, m);
    CutKeepsOpen(w1, c, fd, ino, len, e.fate.kernel);
  }

  lemma CutKeepsOpen(w: World, c: nat, fd: int, ino: nat, len: nat, k: Kernel)
    requires Writable(w, c, fd, ino)
    ensures Writable(Next(w, Served(c, Ftruncate(fd, len), k)), c, fd, ino)
  {
    hide OffT;
  }

  // ---------- Errors ----------

  /** A call the kernel refuses is answered with the kernel's errno. */
  lemma DeniedCall(n: Net, c: nat, req: Request)
    requires Safe(n.world) && InLimits(req) && !req.Close?
    requires n.script != [] && n.script[0].fate.Answered? && n.script[0].fate.kernel.Deny?
    ensures Call(n, c, req).1 == Some(Failed(n.script[0].fate.kernel.errno))
  {
    hide Safe, Run, Decide, ReplyTo, InLimits;
    RunKeepsSafe(n.world, n.script[0].others);
    RefusedWithCause(Run(n.world, n.script[0].others), c, req, n.script[0].fate.kernel);
  }

  /** A call on a descriptor that is not open, or not open for it, is answered with EBADF. */
  lemma UnpermittedCall(n: Net, c: nat, req: Request)
    requires Safe(n.world) && Foreign(n.script, c) && InLimits(req) && !Permitted(n.world, c, req)
    requires n.script != [] && n.script[0].fate.Answered? && !n.script[0].fate.kernel.Deny?
    ensures Call(n, c, req).1 == Some(Failed(EBADF))
  {
    assert n.script[0] in n.script;
    var w1 := Run(n.world, n.script[0].others);
    OthersKeepDescriptors(n.world, n.script[0].others, c, req.fd);
    assert !Permitted(w1, c, req);
    hide Safe, Run, Decide, ReplyTo, InLimits, Permitted, Foreign;
    RunKeepsSafe(n.world, n.script[0].others);
    RefusedWithCause(w1, c, req, n.script[0].fate.kernel);
  }

  lemma UnansweredCall(n: Net, c: nat, req: Request)
    requires n.script == [] || !n.script[0].fate.Answered?
    ensures Call(n, c, req).1 == None
  {}

  /** What a failing write returns: -1 for a lost call, the kernel's errno negated, or -EBADF. */
  lemma WriteErrno(n: Net, c: nat, fd: int, data: seq<Byte>, off: nat)
    requires Safe(n.world) && Foreign(n.script, c) && data != []
    ensures var r := WriteLoop(n, c, fd, data, off, 0).1;
            if n.script == [] || !n.script[0].fate.Answered? then r == -1
            else if n.script[0].fate.kernel.Deny? then r == 0 - n.script[0].fate.kernel.errno
            else (c, fd) !in n.world.fds || !n.world.fds[(c, fd)].canWrite ==> r == 0 - EBADF
  {
    hide Safe, Call, WriteLoop, Foreign;
    WriteStep(n, c, fd, data, off, 0);
    var req := PWrite(fd, off, data[..Min(|data|, MAXDATA)]);
    if n.script == [] || !n.script[0].fate.Answered? {
      UnansweredCall(n, c, req);
    } else if n.script[0].fate.kernel.Deny? {
      DeniedCall(n, c, req);
    } else if !Permitted(n.world, c, req) {
      UnpermittedCall(n, c, req);
    }
  }

  /** What a failing read returns, by the same rule; random data reports every failure as -1. */
  lemma FetchErrno(n: Net, c: nat, s: Source, count: nat, off: nat)
    requires Safe(n.world) && Foreign(n.script, c) && count > 0
    ensures var r := FetchLoop(n, c, s, count, off, 0).1;
            if n.script == [] || !n.script[0].fate.Answered? then r == -1
            else if s.FromDevice? then (!ValidSource(s.src) || !n.script[0].fate.kernel.Entropy? ==> r == -1)
            else if n.script[0].fate.kernel.Deny? then r == 0 - n.script[0].fate.kernel.errno
            else (c, s.fd) !in n.world.fds || !n.world.fds[(c, s.fd)].canRead ==> r == 0 - EBADF
  {
    hide Safe, Call, FetchLoop, Foreign;
    FetchNext(n, c, s, count, off, 0);
    var len := Min(count, MAXDATA);
    var req := FetchRequest(s, off, len);
    if n.script == [] || !n.script[0].fate.Answered? {
      UnansweredCall(n, c, req);
    } else if s.FromDevice? {
      if !ValidSource(s.src) || !n.script[0].fate.kernel.Entropy? {
        RandRefused(n, c, s.src, len);
      }
    } else if n.script[0].fate.kernel.Deny? {
      DeniedCall(n, c, req);
    } else if !Permitted(n.world, c, req) {
      UnpermittedCall(n, c, req);
    }
  }

  lemma RandRefused(n: Net, c: nat, src: int, len: nat)
    requires n.script != [] && n.script[0].fate.Answered? && len <= MAXDATA
    requires !ValidSource(src) || !n.script[0].fate.kernel.Entropy?
    ensures Call(n, c, Rand(len, src)).1.Some? && Call(n, c, Rand(len, src)).1.value.Failed?
  {
    hide Run;
  }

  // ---------- Short stores ----------

  /** How many bytes of a write request the kernel will store at this event. */
  function Room(e: Event): nat { if !e.fate.RequestLost? && e.fate.kernel.Grant? then e.fate.kernel.room else 0 }

  /** Byte `p` of a request is stored: its own piece had room for it. */
  predicate Lands(script: seq<Event>, p: nat)
    decreases p
  {
    script != [] && if p < MAXDATA then p < Room(script[0]) else Lands(script[1..], p - MAXDATA)
  }

  /** The file after every piece of a write was answered, each stored as far as there was room. */
  function Landed(f: Content, script: seq<Event>, data: seq<Byte>, off: nat): Content
    decreases |data|
  {
    if data == [] || script == [] then f else
    var len := Min(|data|, MAXDATA);
    Landed(WriteAt(f, off, data[..Min(Room(script[0]), len)]), script[1..], data[len..], off + len)
  }

  /** When every call is answered by a willing kernel and nobody else writes, the file is exactly what the
      pieces left of it, while the caller is told the whole count. */
  lemma {:induction false} GrantedWriteLands(n: Net, c: nat, fd: int, ino: nat, data: seq<Byte>, off: nat, ret: nat)
    requires Safe(n.world) && Writable(n.world, c, fd, ino)
    requires NoOtherWriter(n.script, c) && off + |data| <= OFF_MAX
    requires Granted(n.script, Pieces(|data|))
    ensures var (n', r) := WriteLoop(n, c, fd, data, off, ret);
            && r == ret + |data| && ino in n'.world.files
            && n'.world.files[ino] == Landed(n.world.files[ino], n.script, data, off)
    decreases |data|
  {
    hide Safe, NoOtherWriter, Granted, Call, Pieces, WriteLoop, WriteAt, Room;
    PiecesStep(|data|);
    WriteStep(n, c, fd, data, off, ret);
    if data != [] {
      var len := Min(|data|, MAXDATA);
      OneGrantedPiece(n, c, fd, ino, data[..len], off, Pieces(|data| - len));
      assert data[..len][..Min(Room(n.script[0]), len)] == data[..Min(Room(n.script[0]), len)];
      GrantedWriteLands(Call(n, c, PWrite(fd, off, data[..len])).0, c, fd, ino, data[len..], off + len, ret + len);
    }
  }

  /** One answered piece on a file nobody else writes. */
  lemma OneGrantedPiece(n: Net, c: nat, fd: int, ino: nat, data: seq<Byte>, off: nat, more: nat)
    requires Safe(n.world) && Writable(n.world, c, fd, ino) && NoOtherWriter(n.script, c)
    requires 0 < |data| <= MAXDATA && off + |data| <= OFF_MAX && Granted(n.script, 1 + more)
    ensures n.script != []
    ensures var (n1, reply) := Call(n, c, PWrite(fd, off, data));
            && reply == Some(Done) && Safe(n1.world) && Writable(n1.world, c, fd, ino)
            && n1.script == n.script[1..] && NoOtherWriter(n1.script, c) && Granted(n1.script, more)
            && n1.world.files[ino] == WriteAt(n.world.files[ino], off, data[..Min(Room(n.script[0]), |data|)])
  {
    BystandersAreForeign(n.script, c);
    hide Safe, Run, Foreign, NoOtherWriter, Decide, ReplyTo, WriteAt;
    GrantedTail(n.script, c, more);
    GrantedWrite(n, c, fd, ino, data, off);
    NoOtherWriterKeeps(n, c, ino);
  }

  /** Byte by byte: a byte of the request is in the file iff its own piece had room for it. */
  lemma {:induction false} LandedByte(f: Content, script: seq<Event>, data: seq<Byte>, off: nat, i: nat)
    requires Pieces(|data|) <= |script|
    ensures ByteAt(Landed(f, script, data, off), i) ==
            if off <= i < off + |data| && Lands(script, i - off) then data[i - off] else ByteAt(f, i)
    decreases |data|
  {
    hide Pieces, WriteAt, ByteAt, Room;
    PiecesStep(|data|);
    if data != [] {
      var len := Min(|data|, MAXDATA);
      var part := data[..Min(Room(script[0]), len)];
      WrittenByte(f, off, part, i);
      LandedByte(WriteAt(f, off, part), script[1..], data[len..], off + len, i);
    }
  }

  /** The size: the file never shrinks or passes the end of the request, and reaches that end iff it did
      before or the last byte was stored. */
  lemma {:induction false} LandedSize(f: Content, script: seq<Event>, data: seq<Byte>, off: nat)
    requires Pieces(|data|) <= |script| && data != []
    ensures var size := |Landed(f, script, data, off)|;
            && |f| <= size <= Max(|f|, off + |data|)
            && (off + |data| <= size <==> off + |data| <= |f| || Lands(script, |data| - 1))
    decreases |data|
  {
    hide Pieces, WriteAt, Room;
    PiecesStep(|data|);
    var len := Min(|data|, MAXDATA);
    var part := data[..Min(Room(script[0]), len)];
    WrittenByte(f, off, part, 0);
    if len < |data| {
      LandedSize(WriteAt(f, off, part), script[1..], data[len..], off + len);
    }
  }

  /** What a complete write needs of a short store: the end of the request is reached, and every byte was
      stored or was there already. */
  predicate NothingLost(f: Content, script: seq<Event>, data: seq<Byte>, off: nat)
  {
    && (data == [] || off + |data| <= |f| || Lands(script, |data| - 1))
    && forall p :: 0 <= p < |data| ==> Lands(script, p) || data[p] == ByteAt(f, off + p)
  }

  lemma LandedIsWrite(f: Content, script: seq<Event>, data: seq<Byte>, off: nat)
    requires Pieces(|data|) <= |script| && NothingLost(f, script, data, off)
    ensures Landed(f, script, data, off) == WriteAt(f, off, data)
  {
    hide Pieces, WriteAt, ByteAt, Lands, Landed;
    var g, full := Landed(f, script, data, off), WriteAt(f, off, data);
    forall i: nat ensures ByteAt(g, i) == ByteAt(full, i) {
      LandedByte(f, script, data, off, i);
      WrittenByte(f, off, data, i);
      assert off <= i < off + |data| ==> Lands(script, i - off) || data[i - off] == ByteAt(f, off + (i - off));
    }
    WrittenByte(f, off, data, 0);
    assert |g| == |full| by {
      if data == [] {
        LandedNothing(f, script, off);
      } else {
        LandedSize(f, script, data, off);
      }
    }
    SameBytes(g, full);
  }

  lemma LandedNothing(f: Content, script: seq<Event>, off: nat)
    ensures Landed(f, script, [], off) == f
  {}

  lemma WriteLosesNothing(f: Content, script: seq<Event>, data: seq<Byte>, off: nat)
    requires Pieces(|data|) <= |script| && Landed(f, script, data, off) == WriteAt(f, off, data)
    ensures NothingLost(f, script, data, off)
  {
    hide Pieces, WriteAt, ByteAt, Lands, Landed;
    forall p | 0 <= p < |data| ensures Lands(script, p) || data[p] == ByteAt(f, off + p) {
      LandedByte(f, script, data, off, off + p);
      WrittenByte(f, off, data, off + p);
    }
    if data != [] {
      LandedSize(f, script, data, off);
      WrittenByte(f, off, data, 0);
    }
  }

  /** What the caller cannot see: with no other writer, a write of any size is reported complete whatever room
      the store has.  Afterwards the file holds a byte of the request iff that byte's piece had room for it,
      so it is the written file exactly when the end was reached and no byte was lost, overwrites included. */
  lemma ShortWriteReportedComplete(n: Net, c: nat, fd: int, ino: nat, data: seq<Byte>, off: nat)
    requires Safe(n.world) && Writable(n.world, c, fd, ino)
    requires NoOtherWriter(n.script, c) && off + |data| <= OFF_MAX
    requires Granted(n.script, Pieces(|data|))
    ensures var (n', r) := WriteLoop(n, c, fd, data, off, 0);
            var f := n.world.files[ino];
            && r == |data| && ino in n'.world.files
            && (forall i: nat :: ByteAt(n'.world.files[ino], i) ==
                  if off <= i < off + |data| && Lands(n.script, i - off) then data[i - off] else ByteAt(f, i))
            && (n'.world.files[ino] == WriteAt(f, off, data) <==> NothingLost(f, n.script, data, off))
  {
    assert Pieces(|data|) <= |n.script|;
    hide Safe, NoOtherWriter, WriteLoop, Pieces, WriteAt, ByteAt, Lands, Landed, NothingLost;
    GrantedWriteLands(n, c, fd, ino, data, off, 0);
    var f := n.world.files[ino];
    forall i: nat ensures ByteAt(Landed(f, n.script, data, off), i) ==
                          if off <= i < off + |data| && Lands(n.script, i - off) then data[i - off] else ByteAt(f, i)
    {
      LandedByte(f, n.script, data, off, i);
    }
    if NothingLost(f, n.script, data, off) {
      LandedIsWrite(f, n.script, data, off);
    } else if Landed(f, n.script, data, off) == WriteAt(f, off, data) {
      WriteLosesNothing(f, n.script, data, off);
    }
  }

  /** A client with one empty file open for writing, whose store has no room for the next piece and plenty
      for the one after. */
  function Starved(): Net
  {
    Net(World(map[], map[0 := []], 1, map[(0, 3) := Handle(0, false, true)], map[]),
        [Event([], Answered(Grant(0, 0))), Event([], Answered(Grant(0, MAXDATA)))], [], [])
  }

  lemma StarvedIsLegal()
    ensures Safe(Starved().world) && Writable(Starved().world, 0, 3, 0) && Starved().world.files[0] == []
    ensures NoOtherWriter(Starved().script, 0) && Granted(Starved().script, 2)
  {}

  /** There, two pieces are reported complete and the file reaches the end of the write, yet the first 65536
      bytes are zero. */
  lemma ShortWriteLosesBytes(data: seq<Byte>)
    requires MAXDATA < |data| <= 2 * MAXDATA
    ensures var (n', r) := WriteLoop(Starved(), 0, 3, data, 0, 0);
            && r == |data| && 0 in n'.world.files && |n'.world.files[0]| == |data|
            && (forall i :: 0 <= i < MAXDATA ==> n'.world.files[0][i] == 0)
  {
    StarvedIsLegal();
    hide WriteLoop, Landed, Safe, NoOtherWriter, Granted, Writable, WriteAt;
    var n := Starved();
    ShortWriteReportedComplete(n, 0, 3, 0, data, 0);
    GrantedWriteLands(n, 0, 3, 0, data, 0, 0);
    LandedSize([], n.script, data, 0);
    var file := WriteLoop(n, 0, 3, data, 0, 0).0.world.files[0];
    forall i | 0 <= i < MAXDATA ensures file[i] == 0 {
      assert !Lands(n.script, i) && ByteAt(file, i) == 0;
    }
  }

  lemma BystandersAreForeign(script: seq<Event>, c: nat)
    requires NoOtherWriter(script, c)
    ensures Foreign(script, c)
  {
    forall e, m | e in script && m in e.others ensures m.conn != c {
      assert Bystander(m, c);
    }
  }

  lemma NoOtherWriterKeeps(n: Net, c: nat, ino: nat)
    requires Safe(n.world) && ino in n.world.files && n.script != [] && NoOtherWriter(n.script, c)
    ensures var w1 := Run(n.world, n.script[0].others); ino in w1.files && w1.files[ino] == n.world.files[ino]
    ensures NoOtherWriter(n.script[1..], c)
  {
    hide Safe, Run, Bystander;
    assert n.script[0] in n.script;
    BystandersKeep(n.world, n.script[0].others, c, ino);
    forall e, m | e in n.script[1..] && m in e.others ensures Bystander(m, c) {
      assert e in n.script;
    }
  }

  /** The requests a complete write consists of. */
  function WritePieces(fd: int, data: seq<Byte>, off: nat): (ps: seq<Request>)
    ensures |ps| == Pieces(|data|)
    decreases |data|
  {
    if data == [] then [] else
    var len := Min(|data|, MAXDATA);
    [PWrite(fd, off, data[..len])] + WritePieces(fd, data[len..], (off + len) % TWO64)
  }

  /** The requests a complete fetch consists of. */
  function FetchPieces(s: Source, count: nat, off: nat): (ps: seq<Request>)
    ensures |ps| == Pieces(count)
    decreases count
  {
    if count == 0 then [] else
    var len := Min(count, MAXDATA);
    [FetchRequest(s, off, len)] + FetchPieces(s, count - len, (off + len) % TWO64)
  }

  lemma WritePiecesStep(fd: int, data: seq<Byte>, off: nat)
    requires data != [] && off + |data| < TWO64
    ensures var len := Min(|data|, MAXDATA);
            WritePieces(fd, data, off) == [PWrite(fd, off, data[..len])] + WritePieces(fd, data[len..], off + len)
  {
    NoCarry(off + Min(|data|, MAXDATA));
    hide Pieces;
  }

  lemma NoCarry(off: nat)
    requires off < TWO64
    ensures off % TWO64 == off
  {}

  lemma FetchPiecesStep(s: Source, count: nat, off: nat)
    requires count > 0 && off + count < TWO64
    ensures var len := Min(count, MAXDATA);
            FetchPieces(s, count, off) == [FetchRequest(s, off, len)] + FetchPieces(s, count - len, off + len)
  {
    NoCarry(off + Min(count, MAXDATA));
    hide Pieces, FetchRequest;
  }

  lemma SliceOfSlice(data: seq<Byte>, a: nat, b: nat, c: nat)
    requires a + b <= a + c <= |data|
    ensures data[a..][b..c] == data[a + b..a + c]
  {}

  /** Piece q of a write starts at q * MAXDATA, carries exactly the caller's bytes there, and is never
      empty or over the server's limit. */
  lemma {:induction false} WritePieceAt(fd: int, data: seq<Byte>, off: nat, q: nat)
    requires off + |data| < TWO64 && q < Pieces(|data|)
    ensures q * MAXDATA < |data|
    ensures WritePieces(fd, data, off)[q] ==
            PWrite(fd, off + q * MAXDATA, data[q * MAXDATA..Min(q * MAXDATA + MAXDATA, |data|)])
    decreases |data|
  {
    hide Pieces, WritePieces;
    PiecesStep(|data|);
    WritePiecesStep(fd, data, off);
    if q > 0 {
      WritePieceAt(fd, data[MAXDATA..], off + MAXDATA, q - 1);
      var a := (q - 1) * MAXDATA;
      SliceOfSlice(data, MAXDATA, a, Min(a + MAXDATA, |data| - MAXDATA));
    }
  }

  lemma {:induction false} FetchPieceAt(s: Source, count: nat, off: nat, q: nat)
    requires off + count < TWO64 && q < Pieces(count)
    ensures q * MAXDATA < count
    ensures FetchPieces(s, count, off)[q] == FetchRequest(s, off + q * MAXDATA, Min(count - q * MAXDATA, MAXDATA))
    decreases count
  {
    hide Pieces, FetchRequest, FetchPieces;
    PiecesStep(count);
    FetchPiecesStep(s, count, off);
    if q > 0 {
      FetchPieceAt(s, count - MAXDATA, off + MAXDATA, q - 1);
    }
  }

  lemma PiecesStep(count: nat)
    ensures count > 0 ==> Pieces(count) == 1 + Pieces(count - Min(count, MAXDATA))
    ensures Pieces(0) == 0
  {}

  /** Between `sent` and `sent'`, exactly the first `calls` of `pieces` were sent. */
  predicate SentFirst(sent: seq<Request>, sent': seq<Request>, pieces: seq<Request>, calls: int)
  {
    0 <= calls <= |pieces| && sent' == sent + pieces[..calls]
  }

  lemma SentOneMore(sent: seq<Request>, head: Request, sent': seq<Request>, rest: seq<Request>, calls: int)
    ensures SentFirst(sent, sent, [], 0)
    ensures SentFirst(sent, sent + [head], [head] + rest, 1)
    ensures SentFirst(sent + [head], sent', rest, calls) ==> SentFirst(sent, sent', [head] + rest, 1 + calls)
  {
    if SentFirst(sent + [head], sent', rest, calls) {
      assert ([head] + rest)[..1 + calls] == [head] + rest[..calls];
    }
  }

  /** Whatever the replies, a write loop sends the pieces of its request in order, and a complete write
      makes exactly one call per piece. */
  lemma {:induction false} WriteCalls(n: Net, c: nat, fd: int, data: seq<Byte>, off: nat, ret: nat) returns (calls: nat)
    requires off < TWO64
    ensures var (n', r) := WriteLoop(n, c, fd, data, off, ret);
            && SentFirst(n.sent, n'.sent, WritePieces(fd, data, off), calls)
            && (r == ret + |data| ==> calls == Pieces(|data|))
    decreases |data|
  {
    hide Call, WriteLoop, WriteResult, Pieces, SentFirst;
    PiecesStep(|data|);
    WriteStep(n, c, fd, data, off, ret);
    calls := 0;
    if data == [] {
      SentOneMore(n.sent, Close(0), n.sent, [], 0);
    } else {
      var len := Min(|data|, MAXDATA);
      var piece := PWrite(fd, off, data[..len]);
      var (n1, reply) := Call(n, c, piece);
      CallTraffic(n, c, piece);
      if WriteResult(reply, len) == len {
        calls := WriteCalls(n1, c, fd, data[len..], (off + len) % TWO64, ret + len);
      }
      SentOneMore(n.sent, piece, WriteLoop(n, c, fd, data, off, ret).0.sent,
                  WritePieces(fd, data[len..], (off + len) % TWO64), calls);
      calls := 1 + calls;
    }
  }

  /** The same for reads and random data. */
  lemma {:induction false} FetchCalls(n: Net, c: nat, s: Source, count: nat, off: nat, ret: nat) returns (calls: nat)
    requires off < TWO64
    ensures var (n', r, bytes) := FetchLoop(n, c, s, count, off, ret);
            && SentFirst(n.sent, n'.sent, FetchPieces(s, count, off), calls)
            && (r == ret + count ==> calls == Pieces(count))
    decreases count
  {
    hide Call, FetchLoop, FetchResult, FetchRequest, Copied, Pieces, SentFirst;
    PiecesStep(count);
    FetchNext(n, c, s, count, off, ret);
    calls := 0;
    if count == 0 {
      SentOneMore(n.sent, Close(0), n.sent, [], 0);
    } else {
      var len := Min(count, MAXDATA);
      var (n1, reply) := Call(n, c, FetchRequest(s, off, len));
      CallTraffic(n, c, FetchRequest(s, off, len));
      if FetchResult(s, reply, len) == len {
        calls := FetchCalls(n1, c, s, count - len, (off + len) % TWO64, ret + len);
      }
      SentOneMore(n.sent, FetchRequest(s, off, len), FetchLoop(n, c, s, count, off, ret).0.sent,
                  FetchPieces(s, count - len, (off + len) % TWO64), calls);
      calls := 1 + calls;
    }
  }
}
