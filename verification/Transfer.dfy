/** The `put` and `get` commands of the client program, and FUSE's path truncation: loops over the
    library calls, with error exits that must release every handle. */
module Transfer {
  import opened Bytes
  import opened FileStore
  import opened Server
  import opened ChunkedIo
  import opened Refinement
  import opened Session
  import opened Success

  // ---------- The local side ----------

  /** How the local kernel answers one system call; past the script everything fails. */
  datatype LocalFate = Fails | Gives(n: nat)

  datatype LocalFd = LocalFd(name: Path, pos: nat)

  /** The next `calls` local calls are given, and each for at least `n` bytes. */
  predicate LocalWilling(script: seq<LocalFate>, calls: nat, n: nat)
  {
    calls <= |script| && forall i :: 0 <= i < calls ==> script[i].Gives? && script[i].n >= n
  }

  function Later(script: seq<LocalFate>): seq<LocalFate> { if script == [] then [] else script[1..] }

  lemma LocalLater(script: seq<LocalFate>, calls: nat, have: nat, n: nat)
    requires LocalWilling(script, have, n) && calls < have
    ensures script != [] && script[0].Gives? && script[0].n >= n && LocalWilling(Later(script), calls, n)
  {}

  class LocalFs {
    var files: map<Path, Content>
    var held: map<int, LocalFd>
    var script: seq<LocalFate>

    constructor (files: map<Path, Content>, script: seq<LocalFate>)
      ensures this.files == files && held == map[] && this.script == script
    {
      this.files, held, this.script := files, map[], script;
    }

    method Fate() returns (f: LocalFate)
      modifies this`script
      ensures script == Later(old(script))
      ensures f == if old(script) == [] then Fails else old(script)[0]
    {
      f := Fails;
      if script != [] {
        f, script := script[0], script[1..];
      }
    }

    /** The local kernel will let the next open(2) succeed. */
    predicate CanOpen(name: Path, create: bool)
      reads this
    {
      script != [] && script[0].Gives? && script[0].n !in held && (create || name in files)
    }

    /** open(2), for reading or with O_WRONLY | O_CREAT | O_TRUNC. */
    method Open(name: Path, create: bool) returns (fd: int)
      modifies this
      ensures script == Later(old(script))
      ensures fd >= 0 <==> old(CanOpen(name, create))
      ensures fd >= 0 ==> fd == old(script)[0].n
      ensures fd < 0 ==> held == old(held) && files == old(files)
      ensures fd >= 0 ==> fd !in old(held) && held == old(held)[fd := LocalFd(name, 0)]
      ensures fd >= 0 && create ==> files == old(files)[name := []]
      ensures fd >= 0 && !create ==> name in files && files == old(files)
    {
      var f := Fate();
      if f.Fails? || f.n in held || (!create && name !in files) {
        return -1;
      }
      fd := f.n;
      held := held[fd := LocalFd(name, 0)];
      if create {
        files := files[name := []];
      }
    }

    /** read(2) of at most MAXDATA bytes into `buf`: any short count, but zero only at the end. */
    method Read(fd: int, buf: array<Byte>) returns (ret: int)
      requires fd in held && held[fd].name in files && buf.Length == MAXDATA && held[fd].pos <= |files[held[fd].name]|
      modifies this, buf
      ensures files == old(files) && script == Later(old(script))
      ensures ret == -1 <==> old(script) == [] || old(script)[0].Fails?
      ensures -1 <= ret <= MAXDATA && old(held)[fd].pos + Max(ret, 0) <= |files[old(held)[fd].name]|
      ensures held == old(held)[fd := old(held)[fd].(pos := old(held)[fd].pos + Max(ret, 0))]
      ensures ret > 0 ==> buf[..ret] == files[held[fd].name][old(held)[fd].pos..held[fd].pos]
      ensures ret == 0 ==> held[fd].pos == |files[held[fd].name]|
    {
      var f := Fate();
      if f.Fails? {
        ret := -1;
      } else {
        var all, pos := files[held[fd].name], held[fd].pos;
        ret := Min(Min(f.n + 1, MAXDATA), |all| - pos);
        CopyInto(buf, 0, all[pos..pos + ret]);
        held := held[fd := held[fd].(pos := pos + ret)];
      }
    }

    /** write(2) at the end of a file being created: any prefix may be stored, or nothing on error. */
    method Write(fd: int, data: seq<Byte>) returns (ret: int)
      requires fd in held && held[fd].name in files
      modifies this
      ensures held == old(held) && script == Later(old(script)) && -1 <= ret <= |data|
      ensures old(script) != [] && old(script)[0].Gives? && old(script)[0].n >= |data| ==> ret == |data|
      ensures files == old(files)[held[fd].name := old(files)[held[fd].name] + data[..Max(ret, 0)]]
    {
      var f := Fate();
      ret := if f.Fails? then -1 else Min(f.n, |data|);
      files := files[held[fd].name := files[held[fd].name] + data[..Max(ret, 0)]];
    }

    /** close(2) of a descriptor that is open; closing twice is excluded. */
    method Close(fd: int)
      requires fd in held
      modifies this`held
      ensures held == old(held) - {fd}
    {
      held := held - {fd};
    }
  }

  // ---------- The remote calls around the loops ----------

  /** What the transfer theorems assume of the environment: no other writer, an all-or-error store, and
      reads that are empty only at the end of the file (but may otherwise be as short as they like). */
  ghost predicate Fair(n: Net, c: nat)
  {
    Safe(n.world) && NoOtherWriter(n.script, c) && AllOrError(n.script) && Progressive(n.script)
  }

  /** A lock or close request changes no file and no name; a lock request changes no descriptor. */
  lemma QuietMove(w: World, m: Move)
    requires Safe(w) && m.Served? && (m.req.Lock? || m.req.Close?)
    ensures Kept(w, Next(w, m)) && NewNamesFresh(w, Next(w, m))
    ensures m.req.Lock? ==> Next(w, m).fds == w.fds
  {
    MoveKeepsSafe(w, m);
    DecideChecks(w, m.conn, m.req, m.kernel);
    hide Decide, Safe;
  }

  lemma QuietCall(n: Net, c: nat, req: Request)
    requires Fair(n, c) && (req.Lock? || req.Close?)
    ensures var n1 := Call(n, c, req).0;
            && Fair(n1, c) && Kept(n.world, n1.world) && NewNamesFresh(n.world, n1.world)
            && (req.Lock? ==> forall fd :: SameDescriptor(n.world, n1.world, c, fd))
  {
    hide Safe, Next, Decide, Bystander;
    if n.script == [] {
      BystandersKept(n.world, [], c);
    } else {
      var e := n.script[0];
      assert e in n.script;
      BystandersKept(n.world, e.others, c);
      if !e.fate.RequestLost? {
        var m := Served(c, req, e.fate.kernel);
        RunConcat(n.world, e.others, [m]);
        assert Run(Run(n.world, e.others), [m]) == Next(Run(n.world, e.others), m);
        QuietMove(Run(n.world, e.others), m);
        forall fd | req.Lock? ensures SameDescriptor(n.world, Call(n, c, req).0.world, c, fd) {
          assert SameDescriptor(n.world, Run(n.world, e.others), c, fd);
        }
      }
    }
  }

  /** A successful open: the descriptor refers to the named file, emptied if O_TRUNC was given. */
  lemma OpenMove(w: World, c: nat, name: Path, mode: int, k: Kernel)
    requires Safe(w) && ReplyTo(Decide(w, c, Open(name, mode), k)).Opened?
    ensures var fd := ReplyTo(Decide(w, c, Open(name, mode), k)).fd;
            var w' := Next(w, Served(c, Open(name, mode), k));
            && fd >= 0 && Safe(w') && name in w'.names && OpenOn(w', c, fd, w'.names[name])
            && (mode % 4 == WRONLY ==> Writable(w', c, fd, w'.names[name]))
            && (mode % 4 == RDONLY ==> Readable(w', c, fd, w'.names[name]))
            && (mode % 4 == RDWR ==> Writable(w', c, fd, w'.names[name]) && Readable(w', c, fd, w'.names[name]))
            && (mode % 4 == WRONLY ==> !w'.fds[(c, fd)].canRead) && (mode % 4 == RDONLY ==> !w'.fds[(c, fd)].canWrite)
            && (Bit(mode, TRUNC) ==> w'.files[w'.names[name]] == [])
            && (!Bit(mode, TRUNC) ==> Kept(w, w'))
            && OnlyNamed(w, w', name) && w'.locks == w.locks
            && (forall key :: key != (c, fd) ==> (key in w.fds <==> key in w'.fds) && (key in w.fds ==> w'.fds[key] == w.fds[key]))
            && (name in w.names || (Bit(mode, CREAT) && w'.files[w'.names[name]] == [] && w'.names[name] !in w.files))
  {
    MoveKeepsSafe(w, Served(c, Open(name, mode), k));
  }

  lemma OpenCall(n: Net, c: nat, name: Path, mode: int)
    requires Fair(n, c) && Call(n, c, Open(name, mode)).1.Some? && Call(n, c, Open(name, mode)).1.value.Opened?
    ensures var (n1, reply) := Call(n, c, Open(name, mode));
            var w, w' := n.world, n1.world;
            && Fair(n1, c) && reply.value.fd >= 0 && name in w'.names && OpenOn(w', c, reply.value.fd, w'.names[name])
            && (mode % 4 == WRONLY ==> Writable(w', c, reply.value.fd, w'.names[name]))
            && (mode % 4 == RDONLY ==> Readable(w', c, reply.value.fd, w'.names[name]))
            && (Bit(mode, TRUNC) ==> w'.files[w'.names[name]] == [])
            && (!Bit(mode, TRUNC) ==> Kept(w, w'))
  {
    hide Safe, Next, Decide, Bystander, Bit;
    var e := n.script[0];
    assert e in n.script;
    BystandersKept(n.world, e.others, c);
    var w1 := Run(n.world, e.others);
    var m := Served(c, Open(name, mode), e.fate.kernel);
    RunConcat(n.world, e.others, [m]);
    assert Run(w1, [m]) == Next(w1, m);
    OpenMove(w1, c, name, mode, e.fate.kernel);
  }

  lemma KeptIsOnlyNamed(w: World, w': World, name: Path)
    requires Kept(w, w') && NewNamesFresh(w, w')
    ensures OnlyNamed(w, w', name)
  {
    hide Safe;
  }

  /** An open request, answered or lost, successful or not, affects no file but the named one. */
  lemma OpenFrame(n: Net, c: nat, name: Path, mode: int)
    requires Fair(n, c)
    ensures var n1 := Call(n, c, Open(name, mode)).0; Fair(n1, c) && OnlyNamed(n.world, n1.world, name)
  {
    hide Safe, Run, Next, Decide, Bystander;
    if n.script == [] {
      BystandersKept(n.world, [], c);
      KeptIsOnlyNamed(n.world, Run(n.world, []), name);
      WriteNothing(n.world, [], 0);
    } else {
      var e := n.script[0];
      assert e in n.script;
      BystandersKept(n.world, e.others, c);
      var w1 := Run(n.world, e.others);
      KeptIsOnlyNamed(n.world, w1, name);
      if !e.fate.RequestLost? {
        var m := Served(c, Open(name, mode), e.fate.kernel);
        RunSnoc(n.world, e.others, m);
        OpenMoveFrame(w1, c, name, mode, e.fate.kernel);
        OnlyNamedTwice(n.world, w1, Next(w1, m), name);
      }
    }
  }

  lemma OpenMoveFrame(w: World, c: nat, name: Path, mode: int, k: Kernel)
    requires Safe(w)
    ensures OnlyNamed(w, Next(w, Served(c, Open(name, mode), k)), name)
  {
    MoveKeepsSafe(w, Served(c, Open(name, mode), k));
    if ReplyTo(Decide(w, c, Open(name, mode), k)).Opened? {
      OpenMove(w, c, name, mode, k);
    }
  }

  // ---------- Handle accounting ----------

  /** From `before` to `after`, requests were sent, but none that opens or closes. */
  ghost predicate Plain(before: seq<Request>, after: seq<Request>)
  {
    before <= after && forall i :: |before| <= i < |after| ==> !after[i].Open? && !after[i].Close?
  }

  /** The descriptor the next call obtains if it is the open request `open`. */
  function HandleOf(n: Net, c: nat, open: Request): Option<int>
  {
    var fd := OpenResult(Call(n, c, open).1);
    if fd >= 0 then Some(fd) else None
  }

  /** The requests sent are one open and, exactly if it yielded a handle, `second` right after it and one close
      of that handle at the very end; no other open or close. */
  ghost predicate Bracketed(before: seq<Request>, after: seq<Request>, open: Request, handle: Option<int>, second: Request)
  {
    match handle
    case None => after == before + [open]
    case Some(fd) =>
      && |before| + 2 < |after| && after[|after| - 1] == Close(fd)
      && Plain(before + [open] + [second], after[..|after| - 1])
  }

  /** The reply to `second` when it is sent right after `open`. */
  function SecondReply(n: Net, c: nat, open: Request, second: Request): Option<Reply>
  {
    Call(Call(n, c, open).0, c, second).1
  }

  lemma {:induction false} WritePiecesWrite(fd: int, data: seq<Byte>, off: nat)
    ensures forall r :: r in WritePieces(fd, data, off) ==> r.PWrite?
    decreases |data|
  {
    if data != [] {
      var len := Min(|data|, MAXDATA);
      WritePiecesWrite(fd, data[len..], (off + len) % TWO64);
    }
  }

  lemma {:induction false} FetchPiecesFetch(s: Source, count: nat, off: nat)
    ensures forall r :: r in FetchPieces(s, count, off) ==> r.PRead? || r.Rand?
    decreases count
  {
    if count > 0 {
      var len := Min(count, MAXDATA);
      FetchPiecesFetch(s, count - len, (off + len) % TWO64);
    }
  }

  lemma WriteSendsNoClose(n: Net, c: nat, fd: int, data: seq<Byte>, off: nat)
    requires off < TWO64
    ensures Plain(n.sent, WriteLoop(n, c, fd, data, off, 0).0.sent)
  {
    hide WriteLoop, WritePieces;
    var calls := WriteCalls(n, c, fd, data, off, 0);
    WritePiecesWrite(fd, data, off);
    var sent := WriteLoop(n, c, fd, data, off, 0).0.sent;
    forall i | |n.sent| <= i < |sent| ensures !sent[i].Open? && !sent[i].Close? {
      assert sent[i] in WritePieces(fd, data, off);
    }
  }

  lemma FetchSendsNoClose(n: Net, c: nat, s: Source, count: nat, off: nat)
    requires off < TWO64
    ensures Plain(n.sent, FetchLoop(n, c, s, count, off, 0).0.sent)
  {
    hide FetchLoop, FetchPieces;
    var calls := FetchCalls(n, c, s, count, off, 0);
    FetchPiecesFetch(s, count, off);
    var sent := FetchLoop(n, c, s, count, off, 0).0.sent;
    forall i | |n.sent| <= i < |sent| ensures !sent[i].Open? && !sent[i].Close? {
      assert sent[i] in FetchPieces(s, count, off);
    }
  }

  lemma PlainThen(a: seq<Request>, b: seq<Request>, c: seq<Request>)
    ensures Plain(a, a)
    ensures Plain(a, b) && Plain(b, c) ==> Plain(a, c)
  {}

  lemma BracketStarts(before: seq<Request>, open: Request, second: Request)
    ensures Bracketed(before, before + [open], open, None, second)
    ensures Plain(before + [open] + [second], before + [open] + [second])
  {}

  /** A close after plain requests ends the bracket. */
  lemma BracketEnds(before: seq<Request>, middle: seq<Request>, open: Request, fd: int, second: Request)
    requires Plain(before + [open] + [second], middle)
    ensures Bracketed(before, middle + [Close(fd)], open, Some(fd), second)
  {
    assert (middle + [Close(fd)])[..|middle|] == middle;
  }

  /** Past the script every call fails. */
  lemma DeadLink(n: Net, c: nat, s: Source, req: Request, len: nat)
    requires n.script == []
    ensures FetchResult(s, Call(n, c, req).1, len) < 0 && Copied(Call(n, c, req).1, len) == []
  {}

  /** The script after a fetch or a write holds only events of the script before it. */
  lemma {:induction false} FetchLoopScript(n: Net, c: nat, s: Source, count: nat, off: nat, ret: int)
    ensures var n' := FetchLoop(n, c, s, count, off, ret).0;
            && (forall e :: e in n'.script ==> e in n.script)
            && (count > 0 && FetchLoop(n, c, s, count, off, ret).1 > 0 && ret == 0 ==> |n'.script| < |n.script|)
            && |n'.script| <= |n.script|
    decreases count
  {
    hide Call, FetchLoop, FetchResult, Copied, FetchRequest;
    FetchNext(n, c, s, count, off, ret);
    if count > 0 {
      var len := Min(count, MAXDATA);
      var req := FetchRequest(s, off, len);
      CallTraffic(n, c, req);
      if n.script == [] {
        DeadLink(n, c, s, req, len);
      }
      FetchLoopScript(Call(n, c, req).0, c, s, count - len, (off + len) % TWO64, ret + len);
    }
  }

  // ---------- put ----------

  /** Writing at the end appends. */
  lemma AppendWrite(f: Content, data: seq<Byte>)
    ensures WriteAt(f, |f|, data) == f + data
  {}

  /** The remote file `name`, held open on `fd`, contains `f`. */
  ghost predicate Receiving(n: Net, c: nat, fd: int, name: Path, f: Content)
  {
    && Fair(n, c) && name in n.world.names
    && Writable(n.world, c, fd, n.world.names[name]) && n.world.files[n.world.names[name]] == f
  }

  /** One remote write of an upload: some prefix of the piece is appended, all of it on success. */
  lemma PutStep(n: Net, c: nat, fd: int, name: Path, f: Content, data: seq<Byte>) returns (applied: nat)
    requires Receiving(n, c, fd, name, f) && |f| < TWO64
    ensures var (n', r) := WriteLoop(n, c, fd, data, |f|, 0);
            && applied <= |data| && (r == |data| ==> applied == |data|)
            && OnlyNamed(n.world, n'.world, name) && Receiving(n', c, fd, name, f + data[..applied])
  {
    hide Safe, WriteLoop, Bystander, Whole;
    applied := WriteFaultAccounting(n, c, fd, n.world.names[name], data, |f|);
    WriteLoopScript(n, c, fd, data, |f|, 0);
    AppendWrite(f, data[..applied]);
  }

  /** The remote name `name` refers to a file containing `f`. */
  ghost predicate Stored(w: World, name: Path, f: Content)
  {
    name in w.names && w.names[name] in w.files && w.files[w.names[name]] == f
  }

  /** icbinn_open's result: the descriptor, a negated errno, or -1. */
  function OpenResult(reply: Option<Reply>): int
  {
    match reply
    case Some(Opened(fd)) => fd
    case Some(Failed(e)) => 0 - e
    case _ => -1
  }

  /** icbinn_lock's result, zero for success. */
  function StatusResult(reply: Option<Reply>): int
  {
    match reply
    case Some(Done) => 0
    case Some(Failed(e)) => 0 - e
    case _ => -1
  }

  const PUT_MODE := WRONLY + CREAT + TRUNC

  /** After a successful open for writing and any lock attempt, the remote file is there and empty. */
  lemma PutOpened(n: Net, c: nat, dst: Path, lock: Request)
    requires Fair(n, c) && lock.Lock?
    ensures var (n1, reply) := Call(n, c, Open(dst, PUT_MODE));
            var n2 := Call(n1, c, lock).0;
            && OnlyNamed(n.world, n1.world, dst) && Fair(n2, c) && OnlyNamed(n.world, n2.world, dst)
            && (OpenResult(reply) >= 0 ==> Receiving(n2, c, OpenResult(reply), dst, []))
  {
    hide Call, Safe, NoOtherWriter, AllOrError, Progressive;
    var (n1, reply) := Call(n, c, Open(dst, PUT_MODE));
    OpenFrame(n, c, dst, PUT_MODE);
    QuietCall(n1, c, lock);
    KeptIsOnlyNamed(n1.world, Call(n1, c, lock).0.world, dst);
    OnlyNamedTwice(n.world, n1.world, Call(n1, c, lock).0.world, dst);
    if OpenResult(reply) >= 0 {
      OpenCall(n, c, dst, PUT_MODE);
      assert SameDescriptor(n1.world, Call(n1, c, lock).0.world, c, OpenResult(reply));
    }
  }

  /** Closing keeps what was stored, and every other file. */
  lemma PutClosed(n: Net, c: nat, fd: int, name: Path, w: World)
    requires Fair(n, c) && OnlyNamed(w, n.world, name)
    ensures var n1 := Call(n, c, Close(fd)).0;
            && Fair(n1, c) && OnlyNamed(w, n1.world, name)
            && forall f :: Receiving(n, c, fd, name, f) ==> Stored(n1.world, name, f)
  {
    hide Call, Safe, NoOtherWriter, AllOrError, Progressive;
    QuietCall(n, c, Close(fd));
    KeptIsOnlyNamed(n.world, Call(n, c, Close(fd)).0.world, name);
    OnlyNamedTwice(w, n.world, Call(n, c, Close(fd)).0.world, name);
  }

  /** Descriptor `fd` is open on `name` at `pos`, and all others are as in `held0`. */
  ghost predicate AtPos(held: map<int, LocalFd>, held0: map<int, LocalFd>, fd: int, name: Path, pos: nat)
  {
    fd in held && held[fd] == LocalFd(name, pos) && held - {fd} == held0 - {fd}
  }

  /** The front of the buffer holds the `red` bytes of `all` from `o` on. */
  ghost predicate Loaded(buf: seq<Byte>, all: Content, o: nat, red: int)
  {
    red > 0 ==> red <= |buf| && o + red <= |all| && buf[..red] == all[o..o + red]
  }

  /** The next piece of the local file, from position `o` on. */
  method ReadPiece(fs: LocalFs, buf: array<Byte>, fd: int, src: Path, o: nat, ghost held0: map<int, LocalFd>)
    returns (red: int)
    requires buf.Length == MAXDATA && src in fs.files && o <= |fs.files[src]| && AtPos(fs.held, held0, fd, src, o)
    modifies fs, buf
    ensures fs.files == old(fs.files) && -1 <= red <= MAXDATA && o + Max(red, 0) <= |fs.files[src]|
    ensures AtPos(fs.held, held0, fd, src, o + Max(red, 0))
    ensures Loaded(buf[..], fs.files[src], o, red)
    ensures red == 0 ==> o == |fs.files[src]|
    ensures fs.script == Later(old(fs.script)) && (red == -1 <==> old(fs.script) == [] || old(fs.script)[0].Fails?)
  {
    red := fs.Read(fd, buf);
    assert red > 0 ==> buf[..][..red] == buf[..red];
  }

  /** Since `n0`, no handle was opened or closed, and, if the environment is `fair`, the remote file `dst` came
      to contain `f` and no other file changed. */
  ghost predicate Uploading(n0: Net, n: Net, c: nat, ifd: int, dst: Path, fair: bool, f: Content)
  {
    && Plain(n0.sent, n.sent)
    && (fair ==> Receiving(n, c, ifd, dst, f) && OnlyNamed(n0.world, n.world, dst))
  }

  lemma UploadStarts(n: Net, c: nat, ifd: int, dst: Path, all: Content)
    ensures Uploading(n, n, c, ifd, dst, Receiving(n, c, ifd, dst, []), all[..0])
  {
    hide Receiving, OnlyNamed;
    PlainThen(n.sent, n.sent, n.sent);
    assert all[..0] == [];
    if Receiving(n, c, ifd, dst, []) {
      ReceivingSafe(n, c, ifd, dst, []);
    }
  }

  lemma UploadEnds(n0: Net, n: Net, c: nat, ifd: int, dst: Path, fair: bool, f: Content)
    requires Uploading(n0, n, c, ifd, dst, fair, f)
    ensures Plain(n0.sent, n.sent) && (fair ==> Receiving(n, c, ifd, dst, f) && OnlyNamed(n0.world, n.world, dst))
  {}

  /** Sends the piece `buf[..red]` of `all` to offset `o`: the remote file grows by its first `applied` bytes. */
  method SendPiece(icb: Icbinn, buf: array<Byte>, ifd: int, red: nat, o: nat, dst: Path,
                   ghost all: Content, ghost n0: Net, ghost fair: bool, ghost calls: nat)
    returns (wrote: int, ghost applied: nat)
    requires 0 < red <= MAXDATA && o + red <= |all| < TWO63 && Loaded(buf[..], all, o, red)
    requires Uploading(n0, icb.net, icb.id, ifd, dst, fair, all[..o])
    modifies icb
    ensures applied <= red && (wrote == red ==> applied == red)
    ensures old(Supported(icb.net, icb.id, ifd, calls + red)) ==> wrote == red && Supported(icb.net, icb.id, ifd, calls)
    ensures Uploading(n0, icb.net, icb.id, ifd, dst, fair, all[..o + applied])
  {
    hide Receiving, WriteLoop, Call, Plain, OnlyNamed, Supported;
    assert buf[..][..red] == buf[..red];
    ghost var n, piece := icb.net, all[o..o + red];
    if Supported(n, icb.id, ifd, calls + red) {
      PieceSucceeds(n, icb.id, ifd, piece, o, calls, calls + red);
    }
    wrote := icb.PWrite(ifd, buf, red, o);
    WriteSendsNoClose(n, icb.id, ifd, piece, o);
    PlainThen(n0.sent, n.sent, icb.net.sent);
    applied := red;
    if fair {
      applied := PutStep(n, icb.id, ifd, dst, all[..o], piece);
      PrefixGrows(all, o, red, applied);
      OnlyNamedTwice(n0.world, n.world, icb.net.world, dst);
    }
  }

  /** Where an upload of `all` stands after `o` bytes: the remote file has come that far, and if the environment is
      `willing` the remaining reads and writes cannot fail. */
  ghost predicate PutState(n0: Net, n: Net, c: nat, ifd: int, dst: Path, fair: bool, willing: bool, all: Content, o: nat,
                           script: seq<LocalFate>)
  {
    && o <= |all| && Uploading(n0, n, c, ifd, dst, fair, all[..o])
    && (willing ==> Supported(n, c, ifd, |all| - o) && LocalWilling(script, |all| - o + 1, 0))
  }

  lemma PutStarts(n: Net, c: nat, fd: int, ifd: int, src: Path, dst: Path, all: Content, script: seq<LocalFate>,
                  held: map<int, LocalFd>)
    requires fd in held && held[fd] == LocalFd(src, 0)
    ensures AtPos(held, held, fd, src, 0)
    ensures PutState(n, n, c, ifd, dst, Receiving(n, c, ifd, dst, []),
                     Supported(n, c, ifd, |all|) && LocalWilling(script, |all| + 1, 0), all, 0, script)
  {
    hide Receiving, Uploading, Supported, LocalWilling;
    UploadStarts(n, c, ifd, dst, all);
  }

  /** One iteration of the upload: the next local piece, written at its own offset. */
  method PutPiece(icb: Icbinn, fs: LocalFs, buf: array<Byte>, fd: int, ifd: int, src: Path, dst: Path, o: nat,
                  ghost all: Content, ghost n0: Net, ghost fair: bool, ghost willing: bool, ghost held0: map<int, LocalFd>)
    returns (red: int, failed: bool, ghost applied: nat)
    requires buf.Length == MAXDATA && src in fs.files && all == fs.files[src] && |all| < TWO63
    requires AtPos(fs.held, held0, fd, src, o) && PutState(n0, icb.net, icb.id, ifd, dst, fair, willing, all, o, fs.script)
    modifies icb, fs, buf
    ensures fs.files == old(fs.files) && o + Max(red, 0) <= |all| && AtPos(fs.held, held0, fd, src, o + Max(red, 0))
    ensures o + applied <= |all| && Uploading(n0, icb.net, icb.id, ifd, dst, fair, all[..o + applied])
    ensures red <= 0 ==> !failed && applied == 0
    ensures red == 0 ==> o == |all|
    ensures red > 0 && !failed ==>
              applied == red && PutState(n0, icb.net, icb.id, ifd, dst, fair, willing, all, o + red, fs.script)
    ensures willing ==> red >= 0 && !failed
  {
    hide AtPos, Loaded, Uploading, Supported, LocalWilling;
    failed, applied := false, 0;
    ghost var given := fs.script;
    red := ReadPiece(fs, buf, fd, src, o, held0);
    if willing {
      LocalLater(given, if red > 0 then |all| - o - red + 1 else 0, |all| - o + 1, 0);
    }
    if red > 0 {
      var wrote;
      wrote, applied := SendPiece(icb, buf, ifd, red, o, dst, all, n0, fair, |all| - o - red);
      failed := wrote != red;
    }
  }

  /** The upload loop: reads the local file piece by piece and writes each piece at its own offset.  On
      every exit the remote file holds the first `done` bytes, and a willing environment lets it finish. */
  method PutLoop(icb: Icbinn, fs: LocalFs, buf: array<Byte>, fd: int, ifd: int, src: Path, dst: Path)
    returns (red: int, failed: bool, ghost done: nat)
    requires buf.Length == MAXDATA && src in fs.files && |fs.files[src]| < TWO63
    requires fd in fs.held && fs.held[fd] == LocalFd(src, 0)
    modifies icb, fs, buf
    ensures fs.files == old(fs.files) && exists pos :: AtPos(fs.held, old(fs.held), fd, src, pos)
    ensures Plain(old(icb.net.sent), icb.net.sent)
    ensures done <= |fs.files[src]| && (!failed && red == 0 ==> done == |fs.files[src]|)
    ensures old(Receiving(icb.net, icb.id, ifd, dst, [])) ==>
              && Receiving(icb.net, icb.id, ifd, dst, fs.files[src][..done])
              && OnlyNamed(old(icb.net.world), icb.net.world, dst)
    ensures old(Supported(icb.net, icb.id, ifd, |fs.files[src]|) && LocalWilling(fs.script, |fs.files[src]| + 1, 0)) ==>
              !failed && red == 0
  {
    hide Receiving, Plain, OnlyNamed, AtPos, Uploading, Supported, LocalWilling, PutState;
    ghost var n0, all, held0 := icb.net, fs.files[src], fs.held;
    ghost var fair := Receiving(icb.net, icb.id, ifd, dst, []);
    ghost var willing := Supported(icb.net, icb.id, ifd, |all|) && LocalWilling(fs.script, |all| + 1, 0);
    PutStarts(n0, icb.id, fd, ifd, src, dst, all, fs.script, held0);
    var o := 0;
    while true
      invariant 0 <= o <= |all| && fs.files == old(fs.files) && AtPos(fs.held, held0, fd, src, o)
      invariant PutState(n0, icb.net, icb.id, ifd, dst, fair, willing, all, o, fs.script)
      decreases |all| - o
    {
      red, failed, done := PutPiece(icb, fs, buf, fd, ifd, src, dst, o, all, n0, fair, willing, held0);
      if red <= 0 || failed {
        break;
      }
      o := o + red;
    }
    done := o + done;
    UploadEnds(n0, icb.net, icb.id, ifd, dst, fair, all[..done]);
  }

  lemma PrefixGrows(f: Content, o: nat, n: nat, k: nat)
    requires k <= n && o + n <= |f|
    ensures f[..o] + f[o..o + n][..k] == f[..o + k]
  {}

  /** The lock request of an upload: a write lock on the number of the local descriptor. */
  function PutLock(script: seq<LocalFate>): Request
  {
    Lock(if script != [] && script[0].Gives? then script[0].n else -1, WRLCK)
  }

  /** Nothing an upload depends on fails: the local file can be opened and read to its end, there is a descriptor
      for the remote one, which need not exist yet, and there are as many answered calls as the upload can need. */
  ghost predicate PutReady(n: Net, c: nat, fs: LocalFs, src: Path, dst: Path)
    reads fs
  {
    && fs.CanOpen(src, false) && LocalWilling(fs.script, |fs.files[src]| + 2, 0)
    && Openable(n, c, dst) && Granted(n.script, |fs.files[src]| + 2)
  }

  lemma PutSupported(n: Net, c: nat, fs: LocalFs, src: Path, dst: Path)
    requires PutReady(n, c, fs, src, dst)
    ensures fs.CanOpen(src, false) && src in fs.files && LocalWilling(Later(fs.script), |fs.files[src]| + 1, 0)
    ensures var (n1, reply) := Call(n, c, Open(dst, PUT_MODE));
            && OpenResult(reply) >= 0
            && Supported(Call(n1, c, PutLock(fs.script)).0, c, OpenResult(reply), |fs.files[src]|)
  {
    assert Bit(PUT_MODE, CREAT);
    hide Call, Supported, LocalWilling, Bit, Safe, Foreign, Openable, Granted;
    var size, open := |fs.files[src]|, Open(dst, PUT_MODE);
    LocalLater(fs.script, size + 1, size + 2, 0);
    OpenSucceeds(n, c, dst, PUT_MODE);
    OpenIsSupported(n, c, dst, PUT_MODE, 1 + size);
    LockIsHarmless(Call(n, c, open).0, c, OpenResult(Call(n, c, open).1), PutLock(fs.script), size);
  }

  /** Closing a descriptor undoes its opening, wherever reading has taken it. */
  lemma ClosedAgain(was: map<int, LocalFd>, start: map<int, LocalFd>, now: map<int, LocalFd>, fd: int, name: Path)
    requires fd !in was && start == was[fd := LocalFd(name, 0)]
    requires now == start || exists pos :: AtPos(now, start, fd, name, pos)
    ensures fd in now && now - {fd} == was
  {}

  lemma DoneIsZero(reply: Option<Reply>)
    ensures StatusResult(reply) == 0 <==> reply == Some(Done)
  {}

  /** Uploads local `src` to remote `dst`.  The lock is requested on the local descriptor's number, as
      in the source, so it protects nothing here and its outcome is arbitrary.  Whatever fails, no other
      remote file changes, and once the remote file was opened it ends up holding a prefix.  When nothing else
      fails, the upload succeeds exactly if the lock is acknowledged. */
  method CmdPut(icb: Icbinn, fs: LocalFs, buf: array<Byte>, src: Path, dst: Path) returns (ret: int)
    requires buf.Length == MAXDATA
    requires forall name :: name in fs.files ==> |fs.files[name]| < TWO63
    modifies icb, fs, buf
    ensures ret == 0 || ret == -1
    ensures fs.held == old(fs.held) && fs.files == old(fs.files)
    ensures !old(fs.CanOpen(src, false)) ==> icb.net == old(icb.net) && ret == -1
    ensures old(fs.CanOpen(src, false)) ==>
              Bracketed(old(icb.net.sent), icb.net.sent, Open(dst, PUT_MODE), old(HandleOf(icb.net, icb.id, Open(dst, PUT_MODE))),
                        PutLock(old(fs.script)))
    ensures old(PutReady(icb.net, icb.id, fs, src, dst)) ==>
              (ret == 0 <==> old(SecondReply(icb.net, icb.id, Open(dst, PUT_MODE), PutLock(fs.script))) == Some(Done))
    ensures ret == 0 ==>
              && old(HandleOf(icb.net, icb.id, Open(dst, PUT_MODE))).Some?
              && old(SecondReply(icb.net, icb.id, Open(dst, PUT_MODE), PutLock(fs.script))) == Some(Done)
    ensures old(Fair(icb.net, icb.id)) && old(fs.CanOpen(src, false)) ==>
              && Fair(icb.net, icb.id) && OnlyNamed(old(icb.net.world), icb.net.world, dst)
              && (ret == 0 ==> Stored(icb.net.world, dst, fs.files[src]))
              && (old(HandleOf(icb.net, icb.id, Open(dst, PUT_MODE))).Some? ==>
                    exists k :: 0 <= k <= |fs.files[src]| && Stored(icb.net.world, dst, fs.files[src][..k]))
  {
    hide Fair, Receiving, Stored, WriteLoop, Call, Plain, OnlyNamed, OpenResult, Bracketed, Supported, LocalWilling, PutReady, AtPos;
    ret := -1;
    ghost var lock := PutLock(fs.script);
    BracketStarts(icb.net.sent, Open(dst, PUT_MODE), lock);
    ghost var n0, fair := icb.net, Fair(icb.net, icb.id);
    if PutReady(n0, icb.id, fs, src, dst) {
      PutSupported(n0, icb.id, fs, src, dst);
    }
    var fd := fs.Open(src, false);
    if fd < 0 {
      return;
    }
    ghost var start := fs.held;
    ClosedAgain(old(fs.held), start, start, fd, src);
    if fair {
      OpenFrame(n0, icb.id, dst, PUT_MODE);
      PutOpened(n0, icb.id, dst, Lock(fd, WRLCK));
    }
    var res := icb.Rpc(Open(dst, PUT_MODE));
    var ifd := OpenResult(res);
    if ifd < 0 {
      fs.Close(fd);
      return;
    }
    res := icb.Rpc(Lock(fd, WRLCK));
    DoneIsZero(res);
    if StatusResult(res) != 0 {
      BracketEnds(n0.sent, icb.net.sent, Open(dst, PUT_MODE), ifd, lock);
      if fair {
        PutClosed(icb.net, icb.id, ifd, dst, n0.world);
        assert fs.files[src][..0] == [];
      }
      res := icb.Rpc(Close(ifd));
      fs.Close(fd);
      return;
    }
    ghost var n2, done := icb.net, 0;
    var red, failed;
    red, failed, done := PutLoop(icb, fs, buf, fd, ifd, src, dst);
    ClosedAgain(old(fs.held), start, fs.held, fd, src);
    BracketEnds(n0.sent, icb.net.sent, Open(dst, PUT_MODE), ifd, lock);
    if fair {
      OnlyNamedTwice(n0.world, n2.world, icb.net.world, dst);
      ReceivingSafe(icb.net, icb.id, ifd, dst, fs.files[src][..done]);
      PutClosed(icb.net, icb.id, ifd, dst, n0.world);
    }
    assert fs.files[src][..|fs.files[src]|] == fs.files[src];
    res := icb.Rpc(Close(ifd));
    fs.Close(fd);
    ret := if !failed && red == 0 then 0 else -1;
  }

  // ---------- get ----------

  /** The remote file `name`, held open on `fd` for reading, contains `f`. */
  ghost predicate Sending(n: Net, c: nat, fd: int, name: Path, f: Content)
  {
    && Fair(n, c) && name in n.world.names
    && Readable(n.world, c, fd, n.world.names[name]) && n.world.files[n.world.names[name]] == f
  }

  lemma KeptTwice(w: World, w1: World, w2: World)
    requires Kept(w, w1) && Kept(w1, w2)
    ensures Kept(w, w2)
  {
    hide Safe;
  }

  lemma StoredKept(w: World, w': World, name: Path, f: Content)
    requires Kept(w, w') && Stored(w, name, f)
    ensures Stored(w', name, f)
  {
    hide Safe;
  }

  /** An open request without the truncate flag changes no file, whatever becomes of it. */
  lemma OpenKeeps(n: Net, c: nat, name: Path, mode: int)
    requires Fair(n, c) && !Bit(mode, TRUNC)
    ensures Kept(n.world, Call(n, c, Open(name, mode)).0.world)
  {
    hide Safe, Run, Next, Decide, Bystander, Bit;
    if n.script == [] {
      BystandersKept(n.world, [], c);
      WriteNothing(n.world, [], 0);
    } else {
      var e := n.script[0];
      assert e in n.script;
      BystandersKept(n.world, e.others, c);
      if !e.fate.RequestLost? {
        var w1, m := Run(n.world, e.others), Served(c, Open(name, mode), e.fate.kernel);
        RunSnoc(n.world, e.others, m);
        OpenMoveKeeps(w1, c, name, mode, e.fate.kernel);
        KeptTwice(n.world, w1, Next(w1, m));
      }
    }
  }

  lemma OpenMoveKeeps(w: World, c: nat, name: Path, mode: int, k: Kernel)
    requires Safe(w) && !Bit(mode, TRUNC)
    ensures Kept(w, Next(w, Served(c, Open(name, mode), k)))
  {
    hide Safe, Bit;
    if ReplyTo(Decide(w, c, Open(name, mode), k)).Opened? {
      OpenMove(w, c, name, mode, k);
    }
  }

  /** After an open for reading and any lock attempt nothing has changed, and a successful open holds the
      remote file, whatever it contains. */
  lemma GetOpened(n: Net, c: nat, src: Path, lock: Request) returns (f: Content)
    requires Fair(n, c) && lock.Lock?
    ensures var (n1, reply) := Call(n, c, Open(src, RDONLY));
            var n2 := Call(n1, c, lock).0;
            && Fair(n1, c) && Kept(n.world, n1.world) && Fair(n2, c) && Kept(n.world, n2.world)
            && (OpenResult(reply) >= 0 ==> Sending(n2, c, OpenResult(reply), src, f))
  {
    hide Call, Safe, NoOtherWriter, AllOrError, Progressive, OnlyNamed;
    OpenFrame(n, c, src, RDONLY);
    assert !Bit(RDONLY, TRUNC);
    OpenKeeps(n, c, src, RDONLY);
    var (n1, reply) := Call(n, c, Open(src, RDONLY));
    QuietCall(n1, c, lock);
    KeptTwice(n.world, n1.world, Call(n1, c, lock).0.world);
    f := [];
    if OpenResult(reply) >= 0 {
      OpenCall(n, c, src, RDONLY);
      f := n1.world.files[n1.world.names[src]];
      assert SameDescriptor(n1.world, Call(n1, c, lock).0.world, c, OpenResult(reply));
    }
  }

  lemma UpdatedSame(w: World, w': World, c: nat, ino: nat)
    requires ino in w.files && Updated(w, w', c, ino, w.files[ino])
    ensures Kept(w, w')
  {
    hide Safe;
  }

  lemma FairLater(n: Net, n': Net, c: nat)
    requires Fair(n, c) && Safe(n'.world) && forall e :: e in n'.script ==> e in n.script
    ensures Fair(n', c)
  {
    hide Safe, Bystander, Whole;
  }

  /** One remote read of a download: the next bytes of the file, and nothing only at its end. */
  lemma GetStep(n: Net, c: nat, fd: int, name: Path, f: Content, o: nat)
    requires Sending(n, c, fd, name, f) && o <= |f|
    ensures |f| < TWO63
    ensures var (n', r, bytes) := FetchLoop(n, c, FromFile(fd), MAXDATA, o, 0);
            && Sending(n', c, fd, name, f) && Kept(n.world, n'.world)
            && (r > 0 ==> o + r <= |f| && bytes == f[o..o + r])
            && (r == 0 ==> o == |f|)
            && (Granted(n.script, 1) ==> r >= 0 && n'.script == n.script[1..])
  {
    var ino := n.world.names[name];
    FileSize(n.world, ino);
    hide Safe, FetchLoop, NoOtherWriter, AllOrError, Progressive, Updated, Granted;
    if Granted(n.script, 1) {
      GrantedRead(n, c, fd, ino, MAXDATA, o);
    }
    FetchLoopReads(n, c, fd, ino, MAXDATA, o, 0);
    FetchLoopScript(n, c, FromFile(fd), MAXDATA, o, 0);
    var n' := FetchLoop(n, c, FromFile(fd), MAXDATA, o, 0).0;
    UpdatedSame(n.world, n'.world, c, ino);
    StillOpen(n.world, n'.world, c, fd, ino, f);
    FairLater(n, n', c);
  }

  /** Receives the bytes at offset `o` of the remote file. */
  method FetchPiece(icb: Icbinn, buf: array<Byte>, ifd: int, o: nat, src: Path, ghost f: Content) returns (red: int)
    requires buf.Length == MAXDATA
    modifies icb, buf
    ensures Plain(old(icb.net.sent), icb.net.sent) && red <= MAXDATA
    ensures |icb.net.script| <= |old(icb.net.script)| && (red > 0 ==> |icb.net.script| < |old(icb.net.script)|)
    ensures old(Sending(icb.net, icb.id, ifd, src, f)) && o <= |f| ==>
              && Sending(icb.net, icb.id, ifd, src, f) && Kept(old(icb.net.world), icb.net.world)
              && (red > 0 ==> o + red <= |f| && buf[..red] == f[o..o + red])
              && (red == 0 ==> o == |f|)
              && (old(Granted(icb.net.script, 1)) ==> red >= 0 && icb.net.script == old(icb.net.script)[1..])
  {
    hide Sending, FetchLoop, Call, Plain, Kept;
    ghost var n := icb.net;
    if Sending(n, icb.id, ifd, src, f) && o <= |f| {
      GetStep(n, icb.id, ifd, src, f, o);
    }
    FetchCounts(n, icb.id, FromFile(ifd), MAXDATA, o % TWO64, 0);
    FetchSendsNoClose(n, icb.id, FromFile(ifd), MAXDATA, o % TWO64);
    FetchLoopScript(n, icb.id, FromFile(ifd), MAXDATA, o % TWO64, 0);
    red := icb.Fetch(FromFile(ifd), buf, MAXDATA, o % TWO64);
    ghost var bytes := FetchLoop(n, icb.id, FromFile(ifd), MAXDATA, o % TWO64, 0).2;
    assert buf[..|bytes|] == bytes;
  }

  /** Where a download of `f` stands after `o` bytes, as far as a `fair` and a `willing` environment allow. */
  ghost predicate GetState(n0: Net, n: Net, c: nat, ifd: int, src: Path, fair: bool, willing: bool, f: Content, o: nat,
                           local: Content, script: seq<LocalFate>)
  {
    && Plain(n0.sent, n.sent)
    && (fair ==>
          && Sending(n, c, ifd, src, f) && Kept(n0.world, n.world) && o <= |f| && local == f[..o]
          && (willing ==> Granted(n.script, |f| - o + 1) && LocalWilling(script, |f| - o, MAXDATA)))
  }

  /** Where it ends: the local file is a prefix of the remote one, and nothing remote has changed. */
  ghost predicate GetEnd(n0: Net, n: Net, c: nat, ifd: int, src: Path, fair: bool, f: Content, local: Content)
  {
    && Plain(n0.sent, n.sent)
    && (fair ==> Sending(n, c, ifd, src, f) && Kept(n0.world, n.world) && local <= f)
  }

  lemma GetStarts(n: Net, c: nat, ifd: int, src: Path, f: Content, willing: bool, script: seq<LocalFate>)
    requires willing ==> Granted(n.script, |f| + 1) && LocalWilling(script, |f|, MAXDATA)
    ensures GetState(n, n, c, ifd, src, Sending(n, c, ifd, src, f), willing, f, 0, [], script)
  {
    hide Sending, Kept, Granted, LocalWilling;
    PlainThen(n.sent, n.sent, n.sent);
    assert f[..0] == [];
    if Sending(n, c, ifd, src, f) {
      SendingKept(n, c, ifd, src, f);
    }
  }

  /** One iteration of the download: the bytes at offset `o`, appended to the local file. */
  method GetPiece(icb: Icbinn, fs: LocalFs, buf: array<Byte>, fd: int, ifd: int, src: Path, dst: Path, o: nat,
                  ghost f: Content, ghost n0: Net, ghost fair: bool, ghost willing: bool)
    returns (red: int, failed: bool)
    requires buf.Length == MAXDATA && dst in fs.files && fd in fs.held && fs.held[fd].name == dst
    requires GetState(n0, icb.net, icb.id, ifd, src, fair, willing, f, o, fs.files[dst], fs.script)
    modifies icb, fs, buf
    ensures fs.held == old(fs.held) && OthersSame(old(fs.files), fs.files, dst)
    ensures |icb.net.script| <= |old(icb.net.script)| && (red > 0 ==> |icb.net.script| < |old(icb.net.script)|)
    ensures GetEnd(n0, icb.net, icb.id, ifd, src, fair, f, fs.files[dst])
    ensures red > 0 && !failed ==> GetState(n0, icb.net, icb.id, ifd, src, fair, willing, f, o + red, fs.files[dst], fs.script)
    ensures red <= 0 ==> !failed && (fair && red == 0 ==> fs.files[dst] == f)
    ensures fair && willing ==> red >= 0 && !failed
  {
    hide Sending, Plain, Kept, Call, Granted, LocalWilling;
    failed := false;
    ghost var n := icb.net;
    if fair && willing {
      GrantedMore(n.script, |f| - o);
    }
    red := FetchPiece(icb, buf, ifd, o, src, f);
    PlainThen(n0.sent, n.sent, icb.net.sent);
    if fair {
      KeptTwice(n0.world, n.world, icb.net.world);
      assert f[..|f|] == f;
    }
    if red > 0 {
      if fair && willing {
        LocalLater(fs.script, |f| - o - red, |f| - o, MAXDATA);
        GrantedLess(icb.net.script, |f| - o - red + 1, |f| - o);
      }
      var wrote := fs.Write(fd, buf[..red]);
      if fair {
        PrefixGrows(f, o, red, Max(wrote, 0));
      }
      failed := wrote != red;
    }
  }

  /** The download loop: appends to the local file whatever each remote read returns.  On every exit the local
      file is a prefix of the remote one, and nothing remote has changed; a willing environment lets it finish. */
  method GetLoop(icb: Icbinn, fs: LocalFs, buf: array<Byte>, fd: int, ifd: int, src: Path, dst: Path, ghost f: Content)
    returns (red: int, failed: bool)
    requires buf.Length == MAXDATA && dst in fs.files && fs.files[dst] == []
    requires fd in fs.held && fs.held[fd].name == dst
    modifies icb, fs, buf
    ensures fs.held == old(fs.held) && Plain(old(icb.net.sent), icb.net.sent)
    ensures OthersSame(old(fs.files), fs.files, dst)
    ensures old(Sending(icb.net, icb.id, ifd, src, f)) ==>
              && Sending(icb.net, icb.id, ifd, src, f) && Kept(old(icb.net.world), icb.net.world)
              && fs.files[dst] <= f && (!failed && red == 0 ==> fs.files[dst] == f)
              && (old(Granted(icb.net.script, |f| + 1) && LocalWilling(fs.script, |f|, MAXDATA)) ==> !failed && red == 0)
  {
    hide Sending, Plain, Kept, Granted, LocalWilling, GetState, OthersSame;
    ghost var willing := Granted(icb.net.script, |f| + 1) && LocalWilling(fs.script, |f|, MAXDATA);
    ghost var n0, fair := icb.net, Sending(icb.net, icb.id, ifd, src, f);
    GetStarts(n0, icb.id, ifd, src, f, willing, fs.script);
    OthersStart(fs.files, dst);
    var o := 0;
    while true
      invariant 0 <= o && fs.held == old(fs.held) && dst in fs.files && OthersSame(old(fs.files), fs.files, dst)
      invariant GetState(n0, icb.net, icb.id, ifd, src, fair, willing, f, o, fs.files[dst], fs.script)
      decreases |icb.net.script|
    {
      ghost var before := fs.files;
      red, failed := GetPiece(icb, fs, buf, fd, ifd, src, dst, o, f, n0, fair, willing);
      OthersMore(old(fs.files), before, fs.files, dst);
      if red <= 0 || failed {
        break;
      }
      o := o + red;
    }
  }

  lemma GrantedMore(script: seq<Event>, calls: nat)
    requires Granted(script, calls + 1)
    ensures script != [] && Granted(script, 1) && Granted(script[1..], calls)
  {}

  lemma GrantedLess(script: seq<Event>, calls: nat, have: nat)
    requires Granted(script, have) && calls <= have
    ensures Granted(script, calls)
  {}

  /** No local file but `name` differs. */
  ghost predicate OthersSame(files: map<Path, Content>, files': map<Path, Content>, name: Path)
  {
    name in files' && files' - {name} == files - {name}
  }

  lemma SendingKept(n: Net, c: nat, fd: int, name: Path, f: Content)
    requires Sending(n, c, fd, name, f)
    ensures Fair(n, c) && Kept(n.world, n.world) && Stored(n.world, name, f)
  {
    hide Safe, NoOtherWriter, AllOrError, Progressive;
  }

  /** Closing the remote file changes nothing in it or elsewhere. */
  lemma GetClosed(n: Net, c: nat, fd: int, name: Path, w: World)
    requires Fair(n, c) && Kept(w, n.world)
    ensures var n1 := Call(n, c, Close(fd)).0;
            && Fair(n1, c) && Kept(w, n1.world)
            && forall f :: Sending(n, c, fd, name, f) ==> Stored(n1.world, name, f)
  {
    hide Call, Safe, NoOtherWriter, AllOrError, Progressive;
    QuietCall(n, c, Close(fd));
    KeptTwice(w, n.world, Call(n, c, Close(fd)).0.world);
  }

  /** The local file `dst` is a prefix of the remote file `src`, and all of it on success. */
  ghost predicate Fetched(w: World, src: Path, files: map<Path, Content>, dst: Path, ret: int)
  {
    dst in files && exists f :: Stored(w, src, f) && files[dst] <= f && (ret == 0 ==> files[dst] == f)
  }

  /** Nothing a download depends on fails: the remote file exists and can be opened, the local one can be created
      and written, and there are as many answered calls as the download can need, however short the reads. */
  ghost predicate GetReady(n: Net, c: nat, fs: LocalFs, src: Path, dst: Path)
    reads fs
  {
    && Fair(n, c) && Openable(n, c, src) && src in n.world.names && n.world.names[src] in n.world.files
    && fs.CanOpen(dst, true)
    && var size := |n.world.files[n.world.names[src]]|;
       LocalWilling(Later(fs.script), size, MAXDATA) && Granted(n.script, size + 3)
  }

  /** Then, after the open and the lock attempt, the loop has what it needs to finish. */
  ghost predicate GetSupported(n2: Net, c: nat, ifd: int, src: Path, script: seq<LocalFate>)
  {
    forall f :: Sending(n2, c, ifd, src, f) ==> Granted(n2.script, |f| + 1) && LocalWilling(script, |f|, MAXDATA)
  }

  lemma ReadyIsSupported(n: Net, c: nat, fs: LocalFs, src: Path, dst: Path, lock: Request)
    requires GetReady(n, c, fs, src, dst) && lock.Lock?
    ensures Fair(n, c) && fs.CanOpen(dst, true)
    ensures var (n1, reply) := Call(n, c, Open(src, RDONLY));
            OpenResult(reply) >= 0 && GetSupported(Call(n1, c, lock).0, c, OpenResult(reply), src, Later(fs.script))
  {
    hide Call, Fair, Granted, LocalWilling, Safe, Foreign, Openable, Kept, Bit;
    var size := |n.world.files[n.world.names[src]]|;
    var (n1, reply) := Call(n, c, Open(src, RDONLY));
    OpenSucceeds(n, c, src, RDONLY);
    CallTraffic(n1, c, lock);
    GrantedMore(n.script, size + 2);
    GrantedMore(n1.script, size + 1);
    var f0 := GetOpened(n, c, src, lock);
    SameRemote(n.world, Call(n1, c, lock).0.world, src);
  }

  lemma SupportedHere(n2: Net, c: nat, ifd: int, src: Path, script: seq<LocalFate>, f: Content)
    requires GetSupported(n2, c, ifd, src, script) && Sending(n2, c, ifd, src, f)
    ensures Granted(n2.script, |f| + 1) && LocalWilling(script, |f|, MAXDATA)
  {}

  lemma SameRemote(w: World, w': World, name: Path)
    requires Kept(w, w') && name in w.names && w.names[name] in w.files
    ensures name in w'.names && w'.names[name] in w'.files && w'.files[w'.names[name]] == w.files[w.names[name]]
  {
    hide Safe;
  }

  /** Downloads remote `src` to local `dst`.  The source locks an uninitialised descriptor number; `junk` is
      whatever it happens to hold.  Whatever fails, nothing remote and no other local file changes, and the
      local file is as before or a prefix of the remote one.  When nothing else fails, the download succeeds
      exactly if the lock is acknowledged. */
  method CmdGet(icb: Icbinn, fs: LocalFs, buf: array<Byte>, src: Path, dst: Path, junk: int)
    returns (ret: int)
    requires buf.Length == MAXDATA
    modifies icb, fs, buf
    ensures ret == 0 || ret == -1
    ensures fs.held == old(fs.held)
    ensures Bracketed(old(icb.net.sent), icb.net.sent, Open(src, RDONLY), old(HandleOf(icb.net, icb.id, Open(src, RDONLY))),
                      Lock(junk, RDLCK))
    ensures old(GetReady(icb.net, icb.id, fs, src, dst)) ==>
              (ret == 0 <==> old(SecondReply(icb.net, icb.id, Open(src, RDONLY), Lock(junk, RDLCK))) == Some(Done))
    ensures ret == 0 ==>
              && old(HandleOf(icb.net, icb.id, Open(src, RDONLY))).Some? && old(fs.CanOpen(dst, true))
              && old(SecondReply(icb.net, icb.id, Open(src, RDONLY), Lock(junk, RDLCK))) == Some(Done)
    ensures fs.files == old(fs.files) || OthersSame(old(fs.files), fs.files, dst)
    ensures old(Fair(icb.net, icb.id)) ==>
              && Fair(icb.net, icb.id) && Kept(old(icb.net.world), icb.net.world)
              && ((ret == -1 && fs.files == old(fs.files)) || Fetched(icb.net.world, src, fs.files, dst, ret))
  {
    hide Fair, Sending, Stored, FetchLoop, Call, Plain, OpenResult, Bracketed, Kept, OthersSame, GetReady, GetSupported;
    ret := -1;
    ghost var lock, ready := Lock(junk, RDLCK), GetReady(icb.net, icb.id, fs, src, dst);
    BracketStarts(icb.net.sent, Open(src, RDONLY), lock);
    if ready {
      ReadyIsSupported(icb.net, icb.id, fs, src, dst, lock);
    }
    ghost var n0, fair, f := icb.net, Fair(icb.net, icb.id), [];
    if fair {
      f := GetOpened(icb.net, icb.id, src, Lock(junk, RDLCK));
    }
    var res := icb.Rpc(Open(src, RDONLY));
    var ifd := OpenResult(res);
    if ifd < 0 {
      return;
    }
    res := icb.Rpc(Lock(junk, RDLCK));
    DoneIsZero(res);
    BracketEnds(n0.sent, icb.net.sent, Open(src, RDONLY), ifd, lock);
    if fair {
      GetClosed(icb.net, icb.id, ifd, src, n0.world);
    }
    if StatusResult(res) != 0 {
      res := icb.Rpc(Close(ifd));
      return;
    }
    var fd := fs.Open(dst, true);
    if fd < 0 {
      res := icb.Rpc(Close(ifd));
      return;
    }
    ghost var n2, created := icb.net, fs.files;
    ClosedAgain(old(fs.held), fs.held, fs.held, fd, dst);
    if ready {
      SupportedHere(n2, icb.id, ifd, src, fs.script, f);
    }
    var red, failed := GetLoop(icb, fs, buf, fd, ifd, src, dst, f);
    OthersTwice(old(fs.files), created, fs.files, dst);
    BracketEnds(n0.sent, icb.net.sent, Open(src, RDONLY), ifd, lock);
    if fair {
      KeptTwice(n0.world, n2.world, icb.net.world);
      SendingKept(icb.net, icb.id, ifd, src, f);
      GetClosed(icb.net, icb.id, ifd, src, n0.world);
    }
    fs.Close(fd);
    res := icb.Rpc(Close(ifd));
    ret := if !failed && red == 0 then 0 else -1;
  }

  lemma OthersStart(a: map<Path, Content>, name: Path)
    requires name in a
    ensures OthersSame(a, a, name)
  {}

  lemma OthersMore(a: map<Path, Content>, b: map<Path, Content>, c: map<Path, Content>, name: Path)
    requires OthersSame(a, b, name) && OthersSame(b, c, name)
    ensures OthersSame(a, c, name) && name in b && name in c
  {}

  lemma OthersTwice(a: map<Path, Content>, b: map<Path, Content>, c: map<Path, Content>, name: Path)
    requires b == a[name := []] && OthersSame(b, c, name)
    ensures OthersSame(a, c, name)
  {
    assert b - {name} == a - {name};
  }

  /** Transfer round trip: if `put` and then `get` both report success and nobody else writes, the local
      copy equals the original byte for byte, however short the individual reads were. */
  method PutThenGet(icb: Icbinn, fs: LocalFs, buf: array<Byte>, src: Path, remote: Path, back: Path, junk: int)
    returns (put: int, got: int)
    requires buf.Length == MAXDATA
    requires forall name :: name in fs.files ==> |fs.files[name]| < TWO63
    modifies icb, fs, buf
    ensures fs.held == old(fs.held)
    ensures old(Fair(icb.net, icb.id)) && put == 0 && got == 0 ==>
              src in old(fs.files) && back in fs.files && fs.files[back] == old(fs.files)[src]
  {
    hide Fair, Bracketed, OnlyNamed, Kept, OthersSame;
    put := CmdPut(icb, fs, buf, src, remote);
    ghost var w, f := icb.net.world, if src in fs.files then fs.files[src] else [];
    got := CmdGet(icb, fs, buf, remote, back, junk);
    if old(Fair(icb.net, icb.id)) && put == 0 && got == 0 {
      StoredKept(w, icb.net.world, remote, f);
    }
  }

  // ---------- FUSE truncate ----------

  /** Whatever the file called `name` contained, it now contains that cut to `length`, or, only if `rv` reports
      a failure, still the same. */
  ghost predicate Replaced(w: World, w': World, name: Path, length: nat, rv: int)
  {
    forall f :: Stored(w, name, f) ==> Stored(w', name, CutTo(f, length)) || (rv != 0 && Stored(w', name, f))
  }

  /** Truncation by path, to the unsigned 64-bit image of the caller's length: one open, one ftruncate, and
      one close on every path that opened.  No other file changes, and the named one is truncated or, only if
      that is reported, left alone. */
  method FuseTruncate(icb: Icbinn, path: Path, length: nat) returns (rv: int)
    requires length < TWO64
    modifies icb
    ensures var open, handle := Open(path, WRONLY), old(HandleOf(icb.net, icb.id, Open(path, WRONLY)));
            if handle.None? then
              rv == OpenResult(old(Call(icb.net, icb.id, open)).1) && icb.net.sent == old(icb.net.sent) + [open]
            else
              && rv == StatusResult(old(SecondReply(icb.net, icb.id, open, Ftruncate(handle.value, length))))
              && icb.net.sent == old(icb.net.sent) + [open] + [Ftruncate(handle.value, length)] + [Close(handle.value)]
    ensures old(Openable(icb.net, icb.id, path) && path in icb.net.world.names && Granted(icb.net.script, 2)) && length < TWO63 ==>
              rv == 0
    ensures old(Fair(icb.net, icb.id)) ==>
              && Fair(icb.net, icb.id) && OnlyNamed(old(icb.net.world), icb.net.world, path)
              && Replaced(old(icb.net.world), icb.net.world, path, length, rv)
  {
    hide Fair, Call, OpenResult, OnlyNamed, Replaced, Openable, Granted;
    ghost var n0, fair := icb.net, Fair(icb.net, icb.id);
    if fair {
      TruncateOpened(n0, icb.id, path, length);
    }
    if Openable(n0, icb.id, path) && path in n0.world.names && Granted(n0.script, 2) && length < TWO63 {
      TruncateSucceeds(n0, icb.id, path, length);
    }
    var res := icb.Rpc(Open(path, WRONLY));
    var fd := OpenResult(res);
    if fd < 0 {
      return fd;
    }
    res := icb.Rpc(Ftruncate(fd, length));
    rv := StatusResult(res);
    if fair {
      TruncateLands(n0, icb.id, path, length);
      TruncateClosed(n0.world, icb.net, icb.id, fd, path, length, rv);
    }
    res := icb.Rpc(Close(fd));
  }

  /** A truncation of an existing file succeeds when both calls are answered by a willing kernel. */
  lemma TruncateSucceeds(n: Net, c: nat, path: Path, length: nat)
    requires Openable(n, c, path) && path in n.world.names && Granted(n.script, 2) && length < TWO63
    ensures var (n1, reply) := Call(n, c, Open(path, WRONLY));
            && OpenResult(reply) >= 0
            && StatusResult(Call(n1, c, Ftruncate(OpenResult(reply), length)).1) == 0
  {
    hide Call, Safe, Foreign, Granted, Openable, Writable, Bit;
    OpenSucceeds(n, c, path, WRONLY);
    GrantedMore(n.script, 1);
    var (n1, reply) := Call(n, c, Open(path, WRONLY));
    CutSucceeds(n1, c, OpenResult(reply), n1.world.names[path], length);
  }

  /** What the stubs return for a failing call: -1 if it is lost, the kernel's errno negated if it is refused. */
  lemma StubErrno(n: Net, c: nat, req: Request)
    requires Safe(n.world) && InLimits(req) && !req.Close?
    ensures var reply := Call(n, c, req).1;
            if n.script == [] || !n.script[0].fate.Answered? then OpenResult(reply) == StatusResult(reply) == -1
            else n.script[0].fate.kernel.Deny? ==>
                   OpenResult(reply) == StatusResult(reply) == 0 - n.script[0].fate.kernel.errno
  {
    hide Safe, InLimits, Call;
    if n.script == [] || !n.script[0].fate.Answered? {
      UnansweredCall(n, c, req);
    } else if n.script[0].fate.kernel.Deny? {
      DeniedCall(n, c, req);
    }
  }

  /** The open of a truncation leaves every file alone, and what it obtained can be written. */
  lemma TruncateOpened(n: Net, c: nat, path: Path, length: nat)
    requires Fair(n, c)
    ensures var (n1, reply) := Call(n, c, Open(path, WRONLY));
            && Fair(n1, c) && OnlyNamed(n.world, n1.world, path)
            && (OpenResult(reply) < 0 ==> Replaced(n.world, n1.world, path, length, OpenResult(reply)))
            && (OpenResult(reply) >= 0 ==>
                  && Kept(n.world, n1.world) && path in n1.world.names
                  && Writable(n1.world, c, OpenResult(reply), n1.world.names[path]))
  {
    hide Call, Fair, OnlyNamed, CutTo, Replaced, Kept;
    OpenFrame(n, c, path, WRONLY);
    assert !Bit(WRONLY, TRUNC);
    OpenKeeps(n, c, path, WRONLY);
    NotReplaced(n.world, Call(n, c, Open(path, WRONLY)).0.world, path, length);
    if OpenResult(Call(n, c, Open(path, WRONLY)).1) >= 0 {
      OpenCall(n, c, path, WRONLY);
    }
  }

  lemma NotReplaced(w: World, w': World, path: Path, length: nat)
    requires Kept(w, w')
    ensures forall rv :: rv < 0 ==> Replaced(w, w', path, length, rv)
  {
    hide Safe, CutTo;
  }

  lemma UpdatedOnlyNamed(w: World, w': World, c: nat, name: Path, f: Content)
    requires Safe(w) && name in w.names && Updated(w, w', c, w.names[name], f)
    ensures OnlyNamed(w, w', name) && Stored(w', name, f)
  {
    assert w.names[name] in w.files;
    hide Safe;
  }

  lemma TruncateLands(n: Net, c: nat, path: Path, length: nat)
    requires Fair(n, c) && length < TWO64 && OpenResult(Call(n, c, Open(path, WRONLY)).1) >= 0
    ensures var (n1, reply) := Call(n, c, Open(path, WRONLY));
            var (n2, res) := Call(n1, c, Ftruncate(OpenResult(reply), length));
            && Fair(n2, c) && OnlyNamed(n.world, n2.world, path)
            && Replaced(n.world, n2.world, path, length, StatusResult(res))
  {
    hide Call, Updated, CutTo, OnlyNamed, Replaced, Kept, OpenResult, Fair;
    TruncateOpened(n, c, path, length);
    var (n1, reply) := Call(n, c, Open(path, WRONLY));
    CutNamed(n1, c, OpenResult(reply), path, length);
    var (n2, res) := Call(n1, c, Ftruncate(OpenResult(reply), length));
    OnlyNamedTwice(n.world, n1.world, n2.world, path);
    ReplacedAfter(n.world, n1.world, n2.world, path, length, StatusResult(res));
  }

  /** One truncation call on an open file. */
  lemma CutNamed(n: Net, c: nat, fd: int, path: Path, length: nat)
    requires Fair(n, c) && length < TWO64 && path in n.world.names && Writable(n.world, c, fd, n.world.names[path])
    ensures var (n1, res) := Call(n, c, Ftruncate(fd, length));
            var f := n.world.files[n.world.names[path]];
            && Fair(n1, c) && OnlyNamed(n.world, n1.world, path)
            && (Stored(n1.world, path, CutTo(f, length)) || (StatusResult(res) != 0 && Stored(n1.world, path, f)))
  {
    CallScript(n, c, Ftruncate(fd, length));
    hide Call, Safe, Updated, CutTo, OnlyNamed, NoOtherWriter, AllOrError, Progressive;
    var ino := n.world.names[path];
    var f := n.world.files[ino];
    CutCall(n, c, fd, ino, length);
    var (n1, res) := Call(n, c, Ftruncate(fd, length));
    var g := if res != Some(Done) && Updated(n.world, n1.world, c, ino, f) then f else CutTo(f, length);
    UpdatedOnlyNamed(n.world, n1.world, c, path, g);
    UpdatedSafe(n.world, n1.world, c, ino, g);
    FairLater(n, n1, c);
  }

  lemma UpdatedSafe(w: World, w': World, c: nat, ino: nat, f: Content)
    requires Updated(w, w', c, ino, f)
    ensures Safe(w')
  {}

  lemma ReplacedAfter(w: World, w1: World, w2: World, path: Path, length: nat, rv: int)
    requires Kept(w, w1) && path in w1.names && w1.names[path] in w1.files
    requires var f := w1.files[w1.names[path]];
             Stored(w2, path, CutTo(f, length)) || (rv != 0 && Stored(w2, path, f))
    ensures Replaced(w, w2, path, length, rv)
  {
    hide Safe, CutTo;
  }

  lemma CallScript(n: Net, c: nat, req: Request)
    ensures forall e :: e in Call(n, c, req).0.script ==> e in n.script
  {
    hide Run;
  }

  lemma TruncateClosed(w: World, n: Net, c: nat, fd: int, path: Path, length: nat, rv: int)
    requires Fair(n, c) && OnlyNamed(w, n.world, path) && Replaced(w, n.world, path, length, rv)
    ensures var n1 := Call(n, c, Close(fd)).0;
            Fair(n1, c) && OnlyNamed(w, n1.world, path) && Replaced(w, n1.world, path, length, rv)
  {
    hide Call, Safe, CutTo, NoOtherWriter, AllOrError, Progressive;
    QuietCall(n, c, Close(fd));
    var w1 := Call(n, c, Close(fd)).0.world;
    KeptIsOnlyNamed(n.world, w1, path);
    OnlyNamedTwice(w, n.world, w1, path);
    hide OnlyNamed;
    forall f | Stored(w, path, f)
      ensures Stored(w1, path, CutTo(f, length)) || (rv != 0 && Stored(w1, path, f))
    {
      StoredKept(n.world, w1, path, if Stored(n.world, path, CutTo(f, length)) then CutTo(f, length) else f);
    }
  }

  lemma ReceivingSafe(n: Net, c: nat, fd: int, name: Path, f: Content)
    requires Receiving(n, c, fd, name, f)
    ensures Fair(n, c) && OnlyNamed(n.world, n.world, name)
  {}
}
