/** When calls succeed: the conditions under which opens and writes cannot fail, whatever other clients do. */
module Success {
  import opened Bytes
  import opened FileStore
  import opened Server
  import opened ChunkedIo
  import opened Refinement

  // ---------- Opening ----------

  lemma NameStep(w: World, m: Move, name: Path)
    requires name in w.names
    ensures name in Next(w, m).names
  {
    hide Decide;
  }

  /** No move takes a name away. */
  lemma {:induction false} NamesPersist(w: World, ms: seq<Move>, name: Path)
    requires name in w.names
    ensures name in Run(w, ms).names
  {
    hide Next;
    if ms != [] {
      NamesPersist(w, ms[..|ms| - 1], name);
      NameStep(Run(w, ms[..|ms| - 1]), ms[|ms| - 1], name);
    }
  }

  /** The next call is answered, and if it is an open of `name` the kernel has a descriptor for it. */
  ghost predicate Openable(n: Net, c: nat, name: Path)
  {
    && Safe(n.world) && Foreign(n.script, c) && Granted(n.script, 1) && |name| < MAXPATHLEN
    && n.script[0].fate.kernel.n < TWO31 && (c, n.script[0].fate.kernel.n) !in n.world.fds
  }

  /** Moreover the file exists or may be created. */
  ghost predicate OpenReady(n: Net, c: nat, name: Path, mode: int)
  {
    Openable(n, c, name) && (name in n.world.names || Bit(mode, CREAT))
  }

  lemma OpenDecides(w: World, c: nat, name: Path, mode: int, k: Kernel)
    requires Safe(w) && k.Grant? && k.n < TWO31 && (c, k.n) !in w.fds
    requires |name| < MAXPATHLEN && (name in w.names || Bit(mode, CREAT))
    ensures ReplyTo(Decide(w, c, Open(name, mode), k)) == Opened(k.n)
    ensures var w' := Next(w, Served(c, Open(name, mode), k));
            && Safe(w') && name in w'.names && OpenOn(w', c, k.n, w'.names[name])
            && (mode % 4 == WRONLY ==> Writable(w', c, k.n, w'.names[name]))
  {
    MoveKeepsSafe(w, Served(c, Open(name, mode), k));
    hide Bit;
  }

  /** Then the open succeeds, with that descriptor. */
  lemma OpenSucceeds(n: Net, c: nat, name: Path, mode: int)
    requires OpenReady(n, c, name, mode)
    ensures var (n1, reply) := Call(n, c, Open(name, mode));
            var fd := n.script[0].fate.kernel.n;
            && 0 <= fd && reply == Some(Opened(fd)) && Safe(n1.world) && n1.script == n.script[1..] && Foreign(n1.script, c)
            && name in n1.world.names && OpenOn(n1.world, c, fd, n1.world.names[name])
            && (mode % 4 == WRONLY ==> Writable(n1.world, c, fd, n1.world.names[name]))
  {
    hide Safe, Run, Next, Decide, ReplyTo, Bit;
    var e := n.script[0];
    assert e in n.script;
    var w1, m := Run(n.world, e.others), Served(c, Open(name, mode), e.fate.kernel);
    RunKeepsSafe(n.world, e.others);
    OthersKeepDescriptors(n.world, e.others, c, e.fate.kernel.n);
    if name in n.world.names {
      NamesPersist(n.world, e.others, name);
    }
    RunSnoc(n.world, e.others, m);
    OpenDecides(w1, c, name, mode, e.fate.kernel);
  }

  // ---------- Writing through an open descriptor ----------

  /** Descriptor `fd` is open for writing and the next `calls` calls are answered by a willing kernel. */
  ghost predicate Supported(n: Net, c: nat, fd: int, calls: nat)
  {
    && Safe(n.world) && Foreign(n.script, c) && Granted(n.script, calls)
    && (c, fd) in n.world.fds && n.world.fds[(c, fd)].canWrite
  }

  lemma OpenIsSupported(n: Net, c: nat, name: Path, mode: int, calls: nat)
    requires OpenReady(n, c, name, mode) && mode % 4 == WRONLY && Granted(n.script, 1 + calls)
    ensures Supported(Call(n, c, Open(name, mode)).0, c, n.script[0].fate.kernel.n, calls)
  {
    OpenSucceeds(n, c, name, mode);
    hide Safe, Call, Foreign;
  }

  lemma LockMoveKeeps(w: World, m: Move)
    requires m.Served? && m.req.Lock?
    ensures Next(w, m).fds == w.fds
  {
    DecideChecks(w, m.conn, m.req, m.kernel);
    hide Decide;
  }

  /** A lock request, however it ends, uses up one call and leaves the descriptor usable. */
  lemma LockIsHarmless(n: Net, c: nat, fd: int, lock: Request, calls: nat)
    requires Supported(n, c, fd, 1 + calls) && lock.Lock?
    ensures Supported(Call(n, c, lock).0, c, fd, calls)
  {
    var e := n.script[0];
    assert e in n.script;
    var w1, m := Run(n.world, e.others), Served(c, lock, e.fate.kernel);
    GrantedTail(n.script, c, calls);
    hide Safe, Run, Next, Decide, ReplyTo, Foreign, Granted;
    RunKeepsSafe(n.world, e.others);
    OtherMoves(n, c, fd);
    RunSnoc(n.world, e.others, m);
    MoveKeepsSafe(w1, m);
    LockMoveKeeps(w1, m);
    CallTraffic(n, c, lock);
  }

  lemma OtherMoves(n: Net, c: nat, fd: int)
    requires n.script != [] && Foreign(n.script, c)
    ensures SameDescriptor(n.world, Run(n.world, n.script[0].others), c, fd)
  {
    assert n.script[0] in n.script;
    OthersKeepDescriptors(n.world, n.script[0].others, c, fd);
  }

  /** A piece of at most MAXDATA bytes goes through whole and uses up one call. */
  lemma PieceSucceeds(n: Net, c: nat, fd: int, data: seq<Byte>, off: nat, calls: nat, have: nat)
    requires Supported(n, c, fd, have) && calls < have
    requires 0 < |data| <= MAXDATA && off + |data| <= OFF_MAX
    ensures var (n', r) := WriteLoop(n, c, fd, data, off, 0); r == |data| && Supported(n', c, fd, calls)
  {
    var ino := n.world.fds[(c, fd)].ino;
    OpenFile(n.world, c, fd);
    PiecesStep(|data|);
    LaterGranted(n.script, calls, have);
    hide Safe, WriteLoop, Foreign, Granted;
    WriteSucceeds(n, c, fd, ino, data, off, 0);
  }

  lemma OpenFile(w: World, c: nat, fd: int)
    requires Safe(w) && (c, fd) in w.fds
    ensures w.fds[(c, fd)].ino in w.files
  {}

  lemma LaterGranted(script: seq<Event>, calls: nat, have: nat)
    requires Granted(script, have) && calls < have
    ensures Granted(script, 1) && Granted(script[1..], calls)
  {}
}
