/** The server side as a state machine: one forked process per connection, all of them over one
    file store.  Every run is a sequence of atomic moves; the kernel's freedom (short transfers,
    errors, descriptor choice) is an explicit argument of each move. */
module Server {
  import opened Bytes
  import opened FileStore

  type Errno = x: int | 0 < x < 0x8000_0000 witness 1
  type Path = seq<Byte>

  const EBADF: Errno := 9
  const EAGAIN: Errno := 11
  const ENOENT: Errno := 2
  const EINVAL: Errno := 22
  const EMFILE: Errno := 24
  const EFBIG: Errno := 27

  const RDLCK := 0
  const WRLCK := 1
  const UNLCK := 2

  const RDONLY := 0
  const WRONLY := 1
  const RDWR := 2
  const CREAT := 64
  const TRUNC := 512

  const OFF_MAX: int := TWO63 - 1

  /** The requests that carry file state; the other procedures of the protocol are one-call stubs. */
  datatype Request =
    | Open(name: Path, mode: int)
    | Close(fd: int)
    | Lock(fd: int, ltype: int)
    | PRead(fd: int, offset: nat, count: nat)
    | PWrite(fd: int, offset: nat, data: seq<Byte>)
    | Ftruncate(fd: int, length: nat)
    | Rand(count: nat, src: int)

  datatype Reply = Done | Opened(fd: int) | Data(bytes: seq<Byte>) | Failed(errno: Errno)

  /** What the kernel does with the system call inside a handler: refuse it; read at most `n` bytes (or
      hand out descriptor `n`) and have room for at most `room` written ones; or yield random bytes. */
  datatype Kernel = Deny(errno: Errno) | Grant(n: nat, room: nat) | Entropy(bytes: seq<Byte>)

  datatype Handle = Handle(ino: nat, canRead: bool, canWrite: bool)

  datatype World = World(
    names: map<Path, nat>,
    files: map<nat, Content>,
    nextIno: nat,
    fds: map<(nat, int), Handle>,     // (connection, descriptor)
    locks: map<(nat, nat), int>)      // (connection, inode) -> RDLCK or WRLCK

  /** What a handler decides to do, given its checks and the kernel's answer. */
  datatype Outcome =
    | Refuse(errno: Errno)
    | DoWrite(ino: nat, off: nat, data: seq<Byte>)
    | DoCut(ino: nat, len: nat)
    | DoYield(bytes: seq<Byte>)
    | DoOpen(fd: int, ino: nat, name: Path, trunc: bool, handle: Handle)
    | DoClose(fd: int, ino: nat, error: Option<Errno>)
    | DoLock(ino: nat, kind: int)
    | DoUnlock(ino: nat)

  /** The cast from the 64-bit unsigned wire field to the signed `off_t`. */
  function OffT(x: nat): int { if x % TWO64 < TWO63 then x % TWO64 else x % TWO64 - TWO64 }

  predicate Bit(mode: int, flag: int)
    requires flag > 0
  {
    (mode / flag) % 2 == 1
  }

  /** Another connection holds a lock on `ino` that excludes one of kind `kind`. */
  predicate Conflict(w: World, c: nat, ino: nat, kind: int)
  {
    exists key :: key in w.locks && key.1 == ino && key.0 != c && (kind == WRLCK || w.locks[key] == WRLCK)
  }

  function Decide(w: World, c: nat, req: Request, k: Kernel): Outcome
  {
    match req
    case Open(name, mode) => DecideOpen(w, c, name, mode, k)
    case Close(fd) =>
      if (c, fd) !in w.fds then Refuse(EBADF)
      else DoClose(fd, w.fds[(c, fd)].ino, if k.Deny? then Some(k.errno) else None)
    case Lock(fd, ltype) => DecideLock(w, c, fd, ltype, k)
    case PRead(fd, offset, count) =>
      if count > MAXDATA then Refuse(EINVAL)
      else if k.Deny? then Refuse(k.errno)
      else if (c, fd) !in w.fds || !w.fds[(c, fd)].canRead || w.fds[(c, fd)].ino !in w.files then Refuse(EBADF)
      else if OffT(offset) < 0 || !k.Grant? then Refuse(EINVAL)
      else DoYield(ReadAt(w.files[w.fds[(c, fd)].ino], OffT(offset), Min(k.n, count)))
    case PWrite(fd, offset, data) =>
      if |data| > MAXDATA then Refuse(EINVAL)
      else if k.Deny? then Refuse(k.errno)
      else if (c, fd) !in w.fds || !w.fds[(c, fd)].canWrite then Refuse(EBADF)
      else if OffT(offset) < 0 || !k.Grant? then Refuse(EINVAL)
      else if OffT(offset) + |data| > OFF_MAX then Refuse(EFBIG)
      else DoWrite(w.fds[(c, fd)].ino, OffT(offset), data[..Min(k.room, |data|)])
    case Ftruncate(fd, length) =>
      if k.Deny? then Refuse(k.errno)
      else if (c, fd) !in w.fds || !w.fds[(c, fd)].canWrite then Refuse(EBADF)
      else if OffT(length) < 0 then Refuse(EINVAL)
      else DoCut(w.fds[(c, fd)].ino, OffT(length))
    case Rand(count, src) =>
      if count > MAXDATA then Refuse(EINVAL)
      else if src != 0 && src != 1 then Refuse(EINVAL)
      else if k.Entropy? then DoYield(k.bytes[..Min(|k.bytes|, count)])
      else Refuse(if k.Deny? then k.errno else EINVAL)
  }

  function DecideOpen(w: World, c: nat, name: Path, mode: int, k: Kernel): Outcome
  {
    if |name| >= MAXPATHLEN then Refuse(ENOENT)
    else if k.Deny? then Refuse(k.errno)
    else if !k.Grant? || k.n >= TWO31 || (c, k.n) in w.fds then Refuse(EMFILE)
    else if name !in w.names && !Bit(mode, CREAT) then Refuse(ENOENT)
    else
      var ino := if name in w.names then w.names[name] else w.nextIno;
      var access := mode % 4;
      DoOpen(k.n, ino, name, Bit(mode, TRUNC),
             Handle(ino, access == RDONLY || access == RDWR, access == WRONLY || access == RDWR))
  }

  /** A whole-file fcntl record lock, never waiting. */
  function DecideLock(w: World, c: nat, fd: int, ltype: int, k: Kernel): Outcome
  {
    if ltype != RDLCK && ltype != WRLCK && ltype != UNLCK then Refuse(EINVAL)
    else if k.Deny? then Refuse(k.errno)
    else if (c, fd) !in w.fds then Refuse(EBADF)
    else
      var h := w.fds[(c, fd)];
      if ltype == UNLCK then DoUnlock(h.ino)
      else if (ltype == RDLCK && !h.canRead) || (ltype == WRLCK && !h.canWrite) then Refuse(EBADF)
      else if Conflict(w, c, h.ino, ltype) then Refuse(EAGAIN)
      else DoLock(h.ino, ltype)
  }

  function Commit(w: World, c: nat, o: Outcome): World
  {
    match o
    case Refuse(_) => w
    case DoYield(_) => w
    case DoWrite(ino, off, data) =>
      if ino !in w.files then w else w.(files := w.files[ino := WriteAt(w.files[ino], off, data)])
    case DoCut(ino, len) =>
      if ino !in w.files then w else w.(files := w.files[ino := CutTo(w.files[ino], len)])
    case DoOpen(fd, ino, name, trunc, handle) =>
      World(w.names[name := ino],
            if ino !in w.files || trunc then w.files[ino := []] else w.files,
            Max(w.nextIno, ino + 1),
            w.fds[(c, fd) := handle],
            w.locks)
    case DoClose(fd, ino, _) => w.(fds := w.fds - {(c, fd)}, locks := w.locks - {(c, ino)})
    case DoLock(ino, kind) => w.(locks := w.locks[(c, ino) := kind])
    case DoUnlock(ino) => w.(locks := w.locks - {(c, ino)})
  }

  function ReplyTo(o: Outcome): Reply
  {
    match o
    case Refuse(e) => Failed(e)
    case DoYield(bytes) => Data(bytes)
    case DoOpen(fd, _, _, _, _) => Opened(fd)
    case DoClose(_, _, Some(e)) => Failed(e)
    case _ => Done
  }

  // ---------- Runs ----------

  /** An atomic step of a run: a handler executes, or a connection's process exits. */
  datatype Move = Served(conn: nat, req: Request, kernel: Kernel) | Exited(conn: nat)

  function Next(w: World, m: Move): World
  {
    match m
    case Served(c, req, k) => Commit(w, c, Decide(w, c, req, k))
    case Exited(c) =>
      w.(fds := map key | key in w.fds && key.0 != c :: w.fds[key],
         locks := map key | key in w.locks && key.0 != c :: w.locks[key])
  }

  function Run(w: World, ms: seq<Move>): World
  {
    if ms == [] then w else Next(Run(w, ms[..|ms| - 1]), ms[|ms| - 1])
  }

  lemma {:induction false} RunConcat(w: World, a: seq<Move>, b: seq<Move>)
    ensures Run(w, a + b) == Run(Run(w, a), b)
  {
    hide Next;
    if b == [] {
      assert a + b == a;
    } else {
      var init := b[..|b| - 1];
      RunConcat(w, a, init);
      assert (a + b)[..|a + b| - 1] == a + init;
    }
  }

  lemma RunSnoc(w: World, ms: seq<Move>, m: Move)
    ensures Run(w, ms + [m]) == Next(Run(w, ms), m)
  {
    assert (ms + [m])[..|ms|] == ms;
  }

  // ---------- What every reachable state satisfies ----------

  /** A write lock excludes every lock of another connection on the same file. */
  predicate LocksExclude(w: World)
  {
    forall p, q :: p in w.locks && q in w.locks && p.1 == q.1 && p.0 != q.0 ==> w.locks[p] != WRLCK
  }

  predicate Safe(w: World)
  {
    && (forall key :: key in w.fds ==> w.fds[key].ino in w.files)
    && (forall name :: name in w.names ==> w.names[name] in w.files)
    && (forall ino :: ino in w.files ==> ino < w.nextIno && |w.files[ino]| <= OFF_MAX)
    && LocksExclude(w)
  }

  /** What a handler has checked by the time it acts: the outcome's request, file and bounds. */
  predicate Checked(w: World, c: nat, req: Request, o: Outcome)
  {
    match o
    case Refuse(_) => true
    case DoYield(_) => req.PRead? || req.Rand?
    case DoWrite(ino, off, data) =>
      req.PWrite? && (c, req.fd) in w.fds && w.fds[(c, req.fd)].ino == ino && off + |data| <= OFF_MAX
    case DoCut(ino, len) =>
      req.Ftruncate? && (c, req.fd) in w.fds && w.fds[(c, req.fd)].ino == ino && len <= OFF_MAX
    case DoOpen(fd, ino, name, trunc, handle) =>
      && req.Open? && trunc == Bit(req.mode, TRUNC) && handle.ino == ino
      && ino == if name in w.names then w.names[name] else w.nextIno
    case DoClose(fd, ino, _) => req.Close? && fd == req.fd && (c, fd) in w.fds && w.fds[(c, fd)].ino == ino
    case DoLock(ino, kind) =>
      req.Lock? && (c, req.fd) in w.fds && w.fds[(c, req.fd)].ino == ino && !Conflict(w, c, ino, kind)
    case DoUnlock(ino) => req.Lock? && (c, req.fd) in w.fds && w.fds[(c, req.fd)].ino == ino
  }

  lemma DecideChecks(w: World, c: nat, req: Request, k: Kernel)
    ensures Checked(w, c, req, Decide(w, c, req, k))
  {}

  lemma CommitKeepsSafe(w: World, c: nat, req: Request, o: Outcome)
    requires Safe(w) && Checked(w, c, req, o)
    ensures Safe(Commit(w, c, o))
  {
    if o.DoLock? {
      var w' := Commit(w, c, o);
      forall p, q | p in w'.locks && q in w'.locks && p.1 == q.1 && p.0 != q.0 ensures w'.locks[p] != WRLCK {
        assert !Conflict(w, c, o.ino, o.kind);
      }
    }
  }

  lemma MoveKeepsSafe(w: World, m: Move)
    requires Safe(w)
    ensures Safe(Next(w, m))
  {
    hide Decide, Commit;
    if m.Served? {
      DecideChecks(w, m.conn, m.req, m.kernel);
      CommitKeepsSafe(w, m.conn, m.req, Decide(w, m.conn, m.req, m.kernel));
    }
  }

  /** Safety over whole runs: whatever the clients and the kernel do, no reachable state has a
      write-locked file locked by a second connection, a dangling descriptor or an oversized file. */
  lemma {:induction false} RunKeepsSafe(w: World, ms: seq<Move>)
    requires Safe(w)
    ensures Safe(Run(w, ms))
  {
    hide Next, Safe;
    if ms != [] {
      RunKeepsSafe(w, ms[..|ms| - 1]);
      MoveKeepsSafe(Run(w, ms[..|ms| - 1]), ms[|ms| - 1]);
    }
  }

  /** The moves that may end or change connection `c`'s lock on `ino`: its own lock call on that
      file, its own close of any descriptor of that file, or its exit. */
  predicate MayRelease(w: World, m: Move, c: nat, ino: nat)
  {
    && m.conn == c
    && match m
       case Exited(_) => true
       case Served(_, req, _) =>
         (req.Close? || req.Lock?) && (c, req.fd) in w.fds && w.fds[(c, req.fd)].ino == ino
  }

  lemma LockStep(w: World, m: Move, c: nat, ino: nat)
    requires (c, ino) in w.locks && !MayRelease(w, m, c, ino)
    ensures (c, ino) in Next(w, m).locks && Next(w, m).locks[(c, ino)] == w.locks[(c, ino)]
  {
    hide Decide;
    if m.Served? {
      DecideChecks(w, m.conn, m.req, m.kernel);
    }
  }

  /** Connection `c` holds the lock `kind` on `ino`. */
  predicate HoldsLock(w: World, c: nat, ino: nat, kind: int) { (c, ino) in w.locks && w.locks[(c, ino)] == kind }

  /** A granted lock persists, unchanged, until its own connection does something about it. */
  lemma {:induction false} LockPersists(w: World, ms: seq<Move>, c: nat, ino: nat, kind: int)
    requires HoldsLock(w, c, ino, kind)
    requires forall k :: 0 <= k < |ms| ==> !MayRelease(Run(w, ms[..k]), ms[k], c, ino)
    ensures HoldsLock(Run(w, ms), c, ino, kind)
  {
    hide Next, MayRelease;
    if ms != [] {
      var n := |ms| - 1;
      var init := ms[..n];
      forall k | 0 <= k < n ensures !MayRelease(Run(w, init[..k]), init[k], c, ino) {
        assert init[..k] == ms[..k];
      }
      LockPersists(w, init, c, ino, kind);
      LockStep(Run(w, init), ms[n], c, ino);
    }
  }

  /** The converse: a lock that was held and is gone or changed was dropped by a move of its owner. */
  lemma LockLossHasCause(w: World, ms: seq<Move>, c: nat, ino: nat, kind: int)
    requires HoldsLock(w, c, ino, kind) && !HoldsLock(Run(w, ms), c, ino, kind)
    ensures exists k :: 0 <= k < |ms| && MayRelease(Run(w, ms[..k]), ms[k], c, ino)
  {
    if forall k :: 0 <= k < |ms| ==> !MayRelease(Run(w, ms[..k]), ms[k], c, ino) {
      LockPersists(w, ms, c, ino, kind);
    }
  }

  /** Locks are refused only when they must be: a permitted request on an open file is granted exactly
      when recording it would leave every write lock exclusive. */
  lemma LockGrantedExactly(w: World, c: nat, fd: int, kind: int, n: nat, room: nat)
    requires Safe(w) && (c, fd) in w.fds && (kind == RDLCK || kind == WRLCK)
    requires if kind == RDLCK then w.fds[(c, fd)].canRead else w.fds[(c, fd)].canWrite
    ensures var w1 := w.(locks := w.locks[(c, w.fds[(c, fd)].ino) := kind]);
            && ReplyTo(Decide(w, c, Lock(fd, kind), Grant(n, room))) == (if LocksExclude(w1) then Done else Failed(EAGAIN))
            && Next(w, Served(c, Lock(fd, kind), Grant(n, room))) == if LocksExclude(w1) then w1 else w
  {
    var ino := w.fds[(c, fd)].ino;
    var w1 := w.(locks := w.locks[(c, ino) := kind]);
    if Conflict(w, c, ino, kind) {
      var key :| key in w.locks && key.1 == ino && key.0 != c && (kind == WRLCK || w.locks[key] == WRLCK);
      assert key in w1.locks && (c, ino) in w1.locks && w1.locks[key] == w.locks[key];
    }
  }

  // ---------- Releasing locks and descriptors ----------

  /** The moves that give up connection `c`'s lock on `ino`: an unlock the kernel does not refuse, a close of any
      descriptor of that file, whatever the kernel says about it, or the process's exit. */
  predicate Releases(w: World, m: Move, c: nat, ino: nat)
  {
    && MayRelease(w, m, c, ino)
    && (m.Served? && m.req.Lock? ==> m.req.ltype == UNLCK && !m.kernel.Deny?)
  }

  /** A release takes effect at once, and takes nothing but the connection's own locks and descriptors: unlocking
      or closing drops its lock on that file only, closing makes that one descriptor unusable, and exiting
      drops everything the connection had. */
  lemma ReleaseTakesEffect(w: World, m: Move, c: nat, ino: nat)
    requires Releases(w, m, c, ino)
    ensures (c, ino) !in Next(w, m).locks
    ensures Next(w, m).files == w.files && Next(w, m).names == w.names
    ensures m.Served? ==> Next(w, m).locks == w.locks - {(c, ino)}
    ensures m.Served? ==> Next(w, m).fds == if m.req.Close? then w.fds - {(c, m.req.fd)} else w.fds
    ensures m.Exited? ==> forall key :: key in Next(w, m).locks <==> key in w.locks && key.0 != c
    ensures m.Exited? ==> forall key :: key in Next(w, m).fds <==> key in w.fds && key.0 != c
    ensures forall key :: key in Next(w, m).locks ==> Next(w, m).locks[key] == w.locks[key]
    ensures forall key :: key in Next(w, m).fds ==> Next(w, m).fds[key] == w.fds[key]
  {}

  /** Some connection other than `c` and `d` holds a lock on `ino` that excludes one of kind `kind`. */
  predicate ThirdConflicts(w: World, c: nat, d: nat, ino: nat, kind: int)
  {
    exists key :: key in w.locks && key.1 == ino && key.0 != c && key.0 != d && (kind == WRLCK || w.locks[key] == WRLCK)
  }

  /** What a release is for: once connection `c` has given up its lock, a permitted request of connection `d` on
      the same file is granted exactly when no third connection's lock conflicts with it. */
  lemma LockFreeAfterRelease(w: World, m: Move, c: nat, d: nat, fd: int, kind: int, n: nat, room: nat)
    requires Safe(w) && c != d && (d, fd) in w.fds && Releases(w, m, c, w.fds[(d, fd)].ino)
    requires kind == RDLCK || kind == WRLCK
    requires if kind == RDLCK then w.fds[(d, fd)].canRead else w.fds[(d, fd)].canWrite
    ensures var w' := Next(w, m);
            var ino := w.fds[(d, fd)].ino;
            && (ReplyTo(Decide(w', d, Lock(fd, kind), Grant(n, room))) == Done <==> !ThirdConflicts(w, c, d, ino, kind))
            && (!ThirdConflicts(w, c, d, ino, kind) ==>
                  HoldsLock(Next(w', Served(d, Lock(fd, kind), Grant(n, room))), d, ino, kind))
  {
    var w', ino := Next(w, m), w.fds[(d, fd)].ino;
    ReleaseTakesEffect(w, m, c, ino);
    hide Next, Safe, MayRelease;
    assert Conflict(w', d, ino, kind) <==> ThirdConflicts(w, c, d, ino, kind) by {
      SameConflicts(w, w', c, d, ino, kind);
    }
    LockDecides(w', d, fd, kind, n, room);
  }

  lemma SameConflicts(w: World, w': World, c: nat, d: nat, ino: nat, kind: int)
    requires forall key: (nat, nat) :: key.1 == ino && key.0 != c ==> (key in w'.locks <==> key in w.locks)
    requires forall key :: key in w'.locks ==> key in w.locks && w'.locks[key] == w.locks[key]
    requires (c, ino) !in w'.locks
    ensures Conflict(w', d, ino, kind) <==> ThirdConflicts(w, c, d, ino, kind)
  {
    if ThirdConflicts(w, c, d, ino, kind) {
      var key :| key in w.locks && key.1 == ino && key.0 != c && key.0 != d && (kind == WRLCK || w.locks[key] == WRLCK);
      assert key in w'.locks && w'.locks[key] == w.locks[key];
    }
    if Conflict(w', d, ino, kind) {
      var key :| key in w'.locks && key.1 == ino && key.0 != d && (kind == WRLCK || w'.locks[key] == WRLCK);
      assert key != (c, ino) && key in w.locks && w.locks[key] == w'.locks[key];
    }
  }

  lemma LockDecides(w: World, c: nat, fd: int, kind: int, n: nat, room: nat)
    requires (c, fd) in w.fds && (kind == RDLCK || kind == WRLCK)
    requires if kind == RDLCK then w.fds[(c, fd)].canRead else w.fds[(c, fd)].canWrite
    ensures var ino := w.fds[(c, fd)].ino;
            && (ReplyTo(Decide(w, c, Lock(fd, kind), Grant(n, room))) == Done <==> !Conflict(w, c, ino, kind))
            && (!Conflict(w, c, ino, kind) ==> HoldsLock(Next(w, Served(c, Lock(fd, kind), Grant(n, room))), c, ino, kind))
  {
    hide Conflict;
  }

  /** A lock request of connection `c` on `ino`. */
  predicate Relocks(w: World, m: Move, c: nat, ino: nat)
  {
    m.Served? && m.conn == c && m.req.Lock? && (c, m.req.fd) in w.fds && w.fds[(c, m.req.fd)].ino == ino
  }

  lemma UnlockedStep(w: World, m: Move, c: nat, ino: nat)
    requires (c, ino) !in w.locks && !Relocks(w, m, c, ino)
    ensures (c, ino) !in Next(w, m).locks
  {
    hide Decide;
    if m.Served? {
      DecideChecks(w, m.conn, m.req, m.kernel);
    }
  }

  /** A lock that is not held is not acquired behind the connection's back: through any run in which it makes no
      lock request on the file, it holds none. */
  lemma {:induction false} StaysReleased(w: World, ms: seq<Move>, c: nat, ino: nat)
    requires (c, ino) !in w.locks
    requires forall k :: 0 <= k < |ms| ==> !Relocks(Run(w, ms[..k]), ms[k], c, ino)
    ensures (c, ino) !in Run(w, ms).locks
  {
    hide Next, Relocks;
    if ms != [] {
      var n := |ms| - 1;
      var init := ms[..n];
      forall k | 0 <= k < n ensures !Relocks(Run(w, init[..k]), init[k], c, ino) {
        assert init[..k] == ms[..k];
      }
      StaysReleased(w, init, c, ino);
      UnlockedStep(Run(w, init), ms[n], c, ino);
    }
  }

  // ---------- When a request is refused ----------

  /** The request is one the handler hands to the kernel at all. */
  predicate InLimits(req: Request)
  {
    match req
    case Open(name, _) => |name| < MAXPATHLEN
    case Lock(_, ltype) => 0 <= ltype <= 2
    case PRead(_, _, count) => count <= MAXDATA
    case PWrite(_, _, data) => |data| <= MAXDATA
    case Rand(count, src) => count <= MAXDATA && 0 <= src <= 1
    case _ => true
  }

  /** Connection `c` has what the request needs: an open descriptor with the right access. */
  predicate Permitted(w: World, c: nat, req: Request)
  {
    match req
    case Open(_, _) => true
    case Rand(_, _) => true
    case Close(fd) => (c, fd) in w.fds
    case Lock(fd, ltype) =>
      && (c, fd) in w.fds
      && (ltype == RDLCK ==> w.fds[(c, fd)].canRead) && (ltype == WRLCK ==> w.fds[(c, fd)].canWrite)
    case PRead(fd, _, _) => (c, fd) in w.fds && w.fds[(c, fd)].canRead
    case PWrite(fd, _, _) => (c, fd) in w.fds && w.fds[(c, fd)].canWrite
    case Ftruncate(fd, _) => (c, fd) in w.fds && w.fds[(c, fd)].canWrite
  }

  /** Every refusal has its own cause and errno: a request over the limits never reaches the kernel; the kernel's
      own errno is passed on; a descriptor that is not open, or not open for this, is EBADF. */
  lemma RefusedWithCause(w: World, c: nat, req: Request, k: Kernel)
    requires Safe(w)
    ensures var reply := ReplyTo(Decide(w, c, req, k));
            && (!InLimits(req) ==> reply == Failed(if req.Open? then ENOENT else EINVAL))
            && (InLimits(req) && k.Deny? && (req.Close? ==> Permitted(w, c, req)) ==> reply == Failed(k.errno))
            && (InLimits(req) && !k.Deny? && !Permitted(w, c, req) ==> reply == Failed(EBADF))
            && (req.Close? && !Permitted(w, c, req) ==> reply == Failed(EBADF))
    ensures var reply := ReplyTo(Decide(w, c, req, k));
            reply.Failed? && !req.Close? ==> Next(w, Served(c, req, k)) == w
  {}

  /** A closed descriptor is unusable: every request naming it fails. */
  lemma ClosedIsUnusable(w: World, c: nat, fd: int, k: Kernel, req: Request, k': Kernel)
    requires Safe(w) && !req.Open? && !req.Rand? && req.fd == fd
    ensures var reply := ReplyTo(Decide(Next(w, Served(c, Close(fd), k)), c, req, k'));
            reply.Failed? && (InLimits(req) && !k'.Deny? ==> reply == Failed(EBADF))
  {
    var w' := Next(w, Served(c, Close(fd), k));
    MoveKeepsSafe(w, Served(c, Close(fd), k));
    assert (c, fd) !in w'.fds;
    hide Next, Safe;
    RefusedWithCause(w', c, req, k');
  }

  /** And nothing else is refused: within the limits, with the access needed and a granting kernel, each request
      succeeds exactly as long as it stays in the range of file offsets (locks: LockGrantedExactly). */
  lemma GrantedIsAnswered(w: World, c: nat, req: Request, n: nat, room: nat)
    requires Safe(w) && InLimits(req) && Permitted(w, c, req)
    ensures var reply := ReplyTo(Decide(w, c, req, Grant(n, room)));
            match req
            case Open(name, mode) =>
              n < TWO31 && (c, n) !in w.fds ==>
                if name in w.names || Bit(mode, CREAT) then reply == Opened(n) else reply == Failed(ENOENT)
            case Close(_) => reply == Done
            case Lock(_, ltype) => ltype == UNLCK ==> reply == Done
            case PRead(_, offset, count) =>
              && (offset < TWO63 ==> reply.Data? && |reply.bytes| <= Min(n, count))
              && (TWO63 <= offset < TWO64 ==> reply == Failed(EINVAL))
            case PWrite(_, offset, data) =>
              && (offset + |data| <= OFF_MAX ==> reply == Done)
              && (OFF_MAX - |data| < offset < TWO63 ==> reply == Failed(EFBIG))
              && (TWO63 <= offset < TWO64 ==> reply == Failed(EINVAL))
            case Ftruncate(_, length) =>
              && (length < TWO63 ==> reply == Done)
              && (TWO63 <= length < TWO64 ==> reply == Failed(EINVAL))
            case Rand(_, _) => reply.Failed?
  {
    if req.PRead? || req.PWrite? || req.Ftruncate? {
      CastOffset(if req.Ftruncate? then req.length else req.offset);
    }
    hide OffT, Bit, Conflict;
  }

  /** A wire offset below 2^63 is the file offset it says. */
  lemma CastOffset(off: nat)
    ensures off < TWO63 ==> OffT(off) == off
    ensures TWO63 <= off < TWO64 ==> OffT(off) == off - TWO64
  {}

  // ---------- Interleaved runs, byte by byte ----------

  /** The effect a move has on file `ino`. */
  function EffectOn(w: World, m: Move, ino: nat): Effect
  {
    if m.Exited? then Idle else
    match Decide(w, m.conn, m.req, m.kernel)
    case DoWrite(i, off, data) => if i == ino then Wrote(off, data) else Idle
    case DoCut(i, len) => if i == ino then Cut(len) else Idle
    case DoOpen(_, i, _, trunc, _) => if i == ino && trunc then Cut(0) else Idle
    case _ => Idle
  }

  lemma MoveEffect(w: World, m: Move, ino: nat)
    requires Safe(w) && ino in w.files
    ensures ino in Next(w, m).files && Next(w, m).files[ino] == Apply(w.files[ino], EffectOn(w, m, ino))
  {
    hide Decide;
    if m.Served? {
      DecideChecks(w, m.conn, m.req, m.kernel);
      assert CutTo(w.files[ino], 0) == [];
    }
  }

  /** What each move of a run did to file `ino`, in order. */
  function History(w: World, ms: seq<Move>, ino: nat): (h: seq<Effect>)
    ensures |h| == |ms|
  {
    seq(|ms|, k requires 0 <= k < |ms| => EffectOn(Run(w, ms[..k]), ms[k], ino))
  }

  lemma {:induction false} RunReplays(w: World, ms: seq<Move>, ino: nat)
    requires Safe(w) && ino in w.files
    ensures ino in Run(w, ms).files && Run(w, ms).files[ino] == Replay(w.files[ino], History(w, ms, ino))
  {
    hide Next, EffectOn, Apply, Safe;
    if ms != [] {
      var n := |ms| - 1;
      var init := ms[..n];
      RunReplays(w, init, ino);
      RunKeepsSafe(w, init);
      MoveEffect(Run(w, init), ms[n], ino);
      assert forall k :: 0 <= k < n ==> init[..k] == ms[..k];
      assert History(w, ms, ino)[..n] == History(w, init, ino);
    }
  }

  lemma HistoryConcat(w: World, a: seq<Move>, b: seq<Move>, ino: nat)
    ensures History(w, a + b, ino) == History(w, a, ino) + History(Run(w, a), b, ino)
  {
    hide Run, EffectOn;
    forall k | 0 <= k < |a + b|
      ensures History(w, a + b, ino)[k] == (History(w, a, ino) + History(Run(w, a), b, ino))[k]
    {
      if k < |a| {
        assert (a + b)[..k] == a[..k];
      } else {
        assert (a + b)[..k] == a + b[..k - |a|];
        RunConcat(w, a, b[..k - |a|]);
      }
    }
  }

  lemma HistorySnoc(w: World, ms: seq<Move>, m: Move, ino: nat)
    ensures History(w, ms + [m], ino) == History(w, ms, ino) + [EffectOn(Run(w, ms), m, ino)]
  {
    hide Run, EffectOn;
    assert (ms + [m])[..|ms|] == ms;
    assert forall k :: 0 <= k < |ms| ==> (ms + [m])[..k] == ms[..k];
  }

  predicate SameDescriptor(w: World, w': World, c: nat, fd: int)
  {
    ((c, fd) in w.fds <==> (c, fd) in w'.fds) && ((c, fd) in w.fds ==> w'.fds[(c, fd)] == w.fds[(c, fd)])
  }

  lemma DescriptorStep(w: World, m: Move, c: nat, fd: int)
    requires m.conn != c
    ensures SameDescriptor(w, Next(w, m), c, fd)
  {
    hide Decide;
  }

  /** Other connections' moves leave connection `c`'s descriptors alone. */
  lemma {:induction false} OthersKeepDescriptors(w: World, ms: seq<Move>, c: nat, fd: int)
    requires forall m :: m in ms ==> m.conn != c
    ensures SameDescriptor(w, Run(w, ms), c, fd)
  {
    hide Next;
    if ms != [] {
      OthersKeepDescriptors(w, ms[..|ms| - 1], c, fd);
      DescriptorStep(Run(w, ms[..|ms| - 1]), ms[|ms| - 1], c, fd);
    }
  }

  /** Interleaving: however the clients' chunks interleave, each final byte is the one stored by the
      last executed chunk covering it and is then inside the file, and zero if that move cut it off. */
  lemma LastChunkWins(w: World, ms: seq<Move>, k: nat, ino: nat, i: nat)
    requires Safe(w) && ino in w.files
    requires k < |ms| && LastTouch(History(w, ms, ino), k, i)
    ensures ino in Run(w, ms).files
    ensures var e := History(w, ms, ino)[k];
            && ByteAt(Run(w, ms).files[ino], i) == (if Sets(e, i) then e.data[i - e.off] else 0)
            && (Sets(e, i) ==> i < |Run(w, ms).files[ino]|)
  {
    hide Next, EffectOn, Safe;
    RunReplays(w, ms, ino);
    LastEffectWins(w.files[ino], History(w, ms, ino), k, i);
    if Sets(History(w, ms, ino)[k], i) {
      StoredStaysInside(w.files[ino], History(w, ms, ino), k, i);
    }
  }

  /** The size half: a position is inside the file after an interleaved run exactly when the last move
      that decided about it reached it. */
  lemma LastChunkSizes(w: World, ms: seq<Move>, k: nat, ino: nat, i: nat)
    requires Safe(w) && ino in w.files
    requires k < |ms| && LastSizing(History(w, ms, ino), k, i)
    ensures ino in Run(w, ms).files
    ensures i < |Run(w, ms).files[ino]| <==> Reaches(History(w, ms, ino)[k], i)
  {
    hide Next, EffectOn, Safe;
    RunReplays(w, ms, ino);
    LastSizingDecides(w.files[ino], History(w, ms, ino), k, i);
  }

  // ---------- Bystanders ----------

  /** A move of another connection that neither writes to a file nor truncates one. */
  predicate Bystander(m: Move, c: nat)
  {
    && m.conn != c
    && match m
       case Exited(_) => true
       case Served(_, req, _) => !req.PWrite? && !req.Ftruncate? && !(req.Open? && Bit(req.mode, TRUNC))
  }

  /** From `w` to `w'`, as seen by connection `c`: only the contents of `ino` changed, and became `f`. */
  ghost predicate Updated(w: World, w': World, c: nat, ino: nat, f: Content)
  {
    && Safe(w')
    && ino in w'.files && w'.files[ino] == f
    && (forall i :: i in w.files && i != ino ==> i in w'.files && w'.files[i] == w.files[i])
    && (forall fd :: (c, fd) in w.fds <==> (c, fd) in w'.fds)
    && (forall fd :: (c, fd) in w.fds ==> w'.fds[(c, fd)] == w.fds[(c, fd)])
    && (forall name :: name in w.names ==> name in w'.names && w'.names[name] == w.names[name])
  }

  /** From `w` to `w'`, at most the file called `name` changed: every other file of `w` is unchanged, and
      names keep referring to their files. */
  ghost predicate OnlyNamed(w: World, w': World, name: Path)
  {
    && Safe(w')
    && (forall i :: i in w.files ==> i in w'.files)
    && (forall i :: i in w.files && (name in w.names ==> i != w.names[name]) ==> w'.files[i] == w.files[i])
    && (forall other :: other in w.names ==> other in w'.names && w'.names[other] == w.names[other])
    && (name !in w.names && name in w'.names ==> w'.names[name] !in w.files)
  }

  lemma OnlyNamedTwice(w: World, w1: World, w2: World, name: Path)
    requires OnlyNamed(w, w1, name) && OnlyNamed(w1, w2, name)
    ensures OnlyNamed(w, w2, name)
  {
    hide Safe;
  }

  /** Every file and name of `w` is still there, unchanged. */
  ghost predicate Kept(w: World, w': World)
  {
    && Safe(w')
    && (forall i :: i in w.files ==> i in w'.files && w'.files[i] == w.files[i])
    && (forall name :: name in w.names ==> name in w'.names && w'.names[name] == w.names[name])
  }

  /** A name that is new in `w'` refers to a new file. */
  ghost predicate NewNamesFresh(w: World, w': World)
  {
    forall name :: name in w'.names && name !in w.names ==> w'.names[name] !in w.files
  }

  lemma BystanderKept(w: World, m: Move, c: nat)
    requires Safe(w) && Bystander(m, c)
    ensures Kept(w, Next(w, m)) && NewNamesFresh(w, Next(w, m))
  {
    MoveKeepsSafe(w, m);
    hide Decide, Bit;
    if m.Served? {
      DecideChecks(w, m.conn, m.req, m.kernel);
    }
  }

  lemma {:induction false} BystandersKept(w: World, ms: seq<Move>, c: nat)
    requires Safe(w) && forall m :: m in ms ==> Bystander(m, c)
    ensures Kept(w, Run(w, ms)) && NewNamesFresh(w, Run(w, ms))
    ensures forall fd :: SameDescriptor(w, Run(w, ms), c, fd)
  {
    forall fd ensures SameDescriptor(w, Run(w, ms), c, fd) {
      OthersKeepDescriptors(w, ms, c, fd);
    }
    hide Safe, Next, Bystander;
    if ms != [] {
      var n := |ms| - 1;
      BystandersKept(w, ms[..n], c);
      BystanderKept(Run(w, ms[..n]), ms[n], c);
    }
  }

  lemma BystandersKeep(w: World, ms: seq<Move>, c: nat, ino: nat)
    requires Safe(w) && ino in w.files && forall m :: m in ms ==> Bystander(m, c)
    ensures Updated(w, Run(w, ms), c, ino, w.files[ino])
  {
    hide Safe, Run, Bystander;
    BystandersKept(w, ms, c);
    var w' := Run(w, ms);
    forall fd
      ensures (c, fd) in w.fds <==> (c, fd) in w'.fds
      ensures (c, fd) in w.fds ==> w'.fds[(c, fd)] == w.fds[(c, fd)]
    {
      assert SameDescriptor(w, w', c, fd);
    }
  }

  lemma FileSize(w: World, ino: nat)
    requires Safe(w) && ino in w.files
    ensures |w.files[ino]| <= OFF_MAX < TWO63
  {}
}
