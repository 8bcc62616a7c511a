/** Whole client sessions on one descriptor: any sequence of `icbinn_pwrite` and `icbinn_ftruncate`
    calls of any size, followed by an `icbinn_pread`. */
module Session {
  import opened Bytes
  import opened FileStore
  import opened Server
  import opened ChunkedIo
  import opened Refinement

  /** What a session asks for, in the caller's terms. */
  predicate OnWire(e: Effect)
  {
    match e
    case Wrote(off, data) => off < TWO64
    case Cut(len) => len < TWO64
    case Idle => true
  }

  /** One library call of a session, and whether it reported complete success. */
  function UserCall(n: Net, c: nat, fd: int, e: Effect): (Net, bool)
  {
    match e
    case Wrote(off, data) => var (n', r) := WriteLoop(n, c, fd, data, off, 0); (n', r == |data|)
    case Cut(len) => var (n', reply) := Call(n, c, Ftruncate(fd, len)); (n', reply == Some(Done))
    case Idle => (n, true)
  }

  function Perform(n: Net, c: nat, fd: int, es: seq<Effect>): (Net, bool)
  {
    if es == [] then (n, true) else
    var (n1, ok1) := Perform(n, c, fd, es[..|es| - 1]);
    var (n2, ok2) := UserCall(n1, c, fd, es[|es| - 1]);
    (n2, ok1 && ok2)
  }

  lemma {:induction false} WriteLoopScript(n: Net, c: nat, fd: int, data: seq<Byte>, off: nat, ret: int)
    ensures forall e :: e in WriteLoop(n, c, fd, data, off, ret).0.script ==> e in n.script
    decreases |data|
  {
    hide Call, WriteLoop, WriteResult;
    WriteStep(n, c, fd, data, off, ret);
    if data != [] {
      var len := Min(|data|, MAXDATA);
      CallTraffic(n, c, PWrite(fd, off, data[..len]));
      WriteLoopScript(Call(n, c, PWrite(fd, off, data[..len])).0, c, fd, data[len..], (off + len) % TWO64, ret + len);
    }
  }

  lemma CutMove(w: World, c: nat, fd: int, ino: nat, len: nat, k: Kernel)
    requires Safe(w) && Writable(w, c, fd, ino) && len < TWO64
    ensures var w' := Next(w, Served(c, Ftruncate(fd, len), k));
            if ReplyTo(Decide(w, c, Ftruncate(fd, len), k)) == Done
            then Updated(w, w', c, ino, CutTo(w.files[ino], len)) else w' == w
  {
    MoveKeepsSafe(w, Served(c, Ftruncate(fd, len), k));
    hide Safe;
  }

  /** One truncation call: done if acknowledged, otherwise without effect unless its reply was lost. */
  lemma CutCall(n: Net, c: nat, fd: int, ino: nat, len: nat)
    requires Safe(n.world) && Writable(n.world, c, fd, ino) && len < TWO64
    requires NoOtherWriter(n.script, c)
    ensures var (n1, reply) := Call(n, c, Ftruncate(fd, len));
            var f := n.world.files[ino];
            if reply == Some(Done) then Updated(n.world, n1.world, c, ino, CutTo(f, len))
            else || Updated(n.world, n1.world, c, ino, f)
                 || (Lossy(n) && Updated(n.world, n1.world, c, ino, CutTo(f, len)))
  {
    hide Safe, Next, Decide, Bystander, CutTo, Run, ReplyTo;
    if n.script == [] {
      BystandersKeep(n.world, [], c, ino);
      WriteNothing(n.world, [], 0);
    } else {
      var e := n.script[0];
      assert e in n.script;
      BystandersKeep(n.world, e.others, c, ino);
      if !e.fate.RequestLost? {
        var w1 := Run(n.world, e.others);
        var m := Served(c, Ftruncate(fd, len), e.fate.kernel);
        RunSnoc(n.world, e.others, m);
        CutMove(w1, c, fd, ino, len, e.fate.kernel);
      }
    }
  }

  /** The last call between `n` and `n'` was executed but its reply was lost. */
  ghost predicate LostReply(n: Net, n': Net)
  {
    0 < Used(n, n') <= |n.script| && n.script[Used(n, n') - 1].fate.ReplyLost?
  }

  /** What the call `e`, made in state `n`, may have done to the file: a write stored exactly the reported
      bytes, a truncation happened iff it was acknowledged; after a lost reply, and only then, one further
      chunk was stored or the unacknowledged truncation happened. */
  ghost predicate Delivered(n: Net, c: nat, fd: int, e: Effect, d: Effect)
  {
    match e
    case Wrote(off, data) =>
      var (n', r) := WriteLoop(n, c, fd, data, off, 0);
      && d.Wrote? && d.off == off && d.data <= data
      && (|d.data| == Max(r, 0) || (|d.data| == Min(Max(r, 0) + MAXDATA, |data|) && LostReply(n, n')))
    case Cut(len) =>
      var (n', reply) := Call(n, c, Ftruncate(fd, len));
      if reply == Some(Done) then d == e else d == Idle || (d == e && LostReply(n, n'))
    case Idle => d == Idle
  }

  lemma WriteDelivers(n: Net, c: nat, fd: int, ino: nat, off: nat, data: seq<Byte>) returns (d: Effect)
    requires Safe(n.world) && Writable(n.world, c, fd, ino) && off < TWO64
    requires NoOtherWriter(n.script, c) && AllOrError(n.script)
    ensures var (n', r) := WriteLoop(n, c, fd, data, off, 0);
            && Delivered(n, c, fd, Wrote(off, data), d) && (r == |data| ==> d == Wrote(off, data))
            && Updated(n.world, n'.world, c, ino, Apply(n.world.files[ino], d))
  {
    hide Safe, NoOtherWriter, AllOrError, WriteLoop, WriteAt, Updated;
    var applied := WriteFaultAccounting(n, c, fd, ino, data, off);
    assert data[..|data|] == data;
    d := Wrote(off, data[..applied]);
  }

  lemma CutDelivers(n: Net, c: nat, fd: int, ino: nat, len: nat) returns (d: Effect)
    requires Safe(n.world) && Writable(n.world, c, fd, ino) && len < TWO64
    requires NoOtherWriter(n.script, c)
    ensures var (n', reply) := Call(n, c, Ftruncate(fd, len));
            && Delivered(n, c, fd, Cut(len), d) && (reply == Some(Done) ==> d == Cut(len))
            && Updated(n.world, n'.world, c, ino, Apply(n.world.files[ino], d))
  {
    hide Safe, NoOtherWriter, CutTo, Updated, Run, Moves;
    CutCall(n, c, fd, ino, len);
    var (n', reply) := Call(n, c, Ftruncate(fd, len));
    d := if reply == Some(Done) || !Updated(n.world, n'.world, c, ino, n.world.files[ino]) then Cut(len) else Idle;
  }

  lemma UserCallDelivers(n: Net, c: nat, fd: int, ino: nat, e: Effect) returns (d: Effect)
    requires Safe(n.world) && Writable(n.world, c, fd, ino) && OnWire(e)
    requires NoOtherWriter(n.script, c) && AllOrError(n.script)
    ensures var (n', ok) := UserCall(n, c, fd, e);
            && Delivered(n, c, fd, e, d) && (ok ==> d == e)
            && Updated(n.world, n'.world, c, ino, Apply(n.world.files[ino], d))
  {
    hide Safe, NoOtherWriter, AllOrError, WriteLoop, Apply, Call;
    match e
    case Wrote(off, data) =>
      d := WriteDelivers(n, c, fd, ino, off, data);
    case Cut(len) =>
      d := CutDelivers(n, c, fd, ino, len);
    case Idle =>
      d := Idle;
      BystandersKeep(n.world, [], c, ino);
      WriteNothing(n.world, [], 0);
      assert Apply(n.world.files[ino], Idle) == n.world.files[ino] by { IdleKeeps(n.world.files[ino]); }
  }

  lemma IdleKeeps(f: Content)
    ensures Apply(f, Idle) == f
  {}

  lemma UserCallScript(n: Net, c: nat, fd: int, e: Effect)
    requires NoOtherWriter(n.script, c) && AllOrError(n.script)
    ensures var n' := UserCall(n, c, fd, e).0; NoOtherWriter(n'.script, c) && AllOrError(n'.script)
  {
    hide Bystander, Whole, WriteLoop, Run, Moves;
    if e.Wrote? {
      WriteLoopScript(n, c, fd, e.data, e.off, 0);
    }
  }

  /** `done` is what the calls of the session `es` delivered, call by call. */
  ghost predicate AllDelivered(n: Net, c: nat, fd: int, es: seq<Effect>, done: seq<Effect>)
  {
    && |done| == |es|
    && forall j :: 0 <= j < |es| ==> Delivered(Perform(n, c, fd, es[..j]).0, c, fd, es[j], done[j])
  }

  lemma DeliveredOneMore(n: Net, c: nat, fd: int, es: seq<Effect>, e: Effect, done: seq<Effect>, d: Effect)
    requires AllDelivered(n, c, fd, es, done) && Delivered(Perform(n, c, fd, es).0, c, fd, e, d)
    ensures AllDelivered(n, c, fd, es + [e], done + [d])
  {
    hide Perform, Delivered;
    forall j | 0 <= j < |es + [e]|
      ensures Delivered(Perform(n, c, fd, (es + [e])[..j]).0, c, fd, (es + [e])[j], (done + [d])[j])
    {
      if j < |es| {
        assert (es + [e])[..j] == es[..j];
      } else {
        assert (es + [e])[..j] == es;
      }
    }
  }

  lemma ReplaySnoc(f: Content, es: seq<Effect>, e: Effect)
    ensures Replay(f, es + [e]) == Apply(Replay(f, es), e)
  {
    assert (es + [e])[..|es|] == es;
  }

  /** Sessions under every pattern of failed and lost calls: the file is the replay of what each call
      delivered, and a fully successful session delivered exactly what was asked for. */
  lemma {:induction false} SessionUnderFaults(n: Net, c: nat, fd: int, ino: nat, es: seq<Effect>)
    returns (done: seq<Effect>)
    requires Safe(n.world) && Writable(n.world, c, fd, ino)
    requires NoOtherWriter(n.script, c) && AllOrError(n.script)
    requires forall e :: e in es ==> OnWire(e)
    ensures AllDelivered(n, c, fd, es, done)
    ensures var (n', ok) := Perform(n, c, fd, es);
            && Updated(n.world, n'.world, c, ino, Replay(n.world.files[ino], done)) && (ok ==> done == es)
            && NoOtherWriter(n'.script, c) && AllOrError(n'.script)
  {
    assert OpenOn(n.world, c, fd, ino);
    hide Safe, NoOtherWriter, AllOrError, UserCall, Apply, OnWire, Run, Delivered, Updated, Writable;
    if es == [] {
      BystandersKeep(n.world, [], c, ino);
      WriteNothing(n.world, [], 0);
      done := [];
    } else {
      var init, last := es[..|es| - 1], es[|es| - 1];
      assert es == init + [last];
      var f := n.world.files[ino];
      done := SessionUnderFaults(n, c, fd, ino, init);
      var n1 := Perform(n, c, fd, init).0;
      StillOpen(n.world, n1.world, c, fd, ino, Replay(f, done));
      var d := UserCallDelivers(n1, c, fd, ino, last);
      UserCallScript(n1, c, fd, last);
      ReplaySnoc(f, done, d);
      UpdatedTwice(n.world, n1.world, UserCall(n1, c, fd, last).0.world, c, ino, Replay(f, done), Replay(f, done + [d]));
      DeliveredOneMore(n, c, fd, init, last, done, d);
      done := done + [d];
    }
  }

  /** How many calls a session makes when nothing fails. */
  function Calls(es: seq<Effect>): nat
  {
    if es == [] then 0 else
    var last := es[|es| - 1];
    Calls(es[..|es| - 1]) + (match last case Wrote(_, data) => Pieces(|data|) case Cut(_) => 1 case Idle => 0)
  }

  /** The effect stays within the range of file offsets. */
  predicate InFile(e: Effect)
  {
    match e
    case Wrote(off, data) => off + |data| <= OFF_MAX
    case Cut(len) => len <= OFF_MAX
    case Idle => true
  }

  /** Sessions succeed: when every call is answered by a willing kernel and no call leaves the range of file
      offsets, all calls of any session on a descriptor open for writing report success, whatever other
      clients do in between. */
  lemma {:induction false} SessionSucceeds(n: Net, c: nat, fd: int, ino: nat, es: seq<Effect>)
    requires Safe(n.world) && Writable(n.world, c, fd, ino) && Foreign(n.script, c)
    requires Granted(n.script, Calls(es)) && forall e :: e in es ==> InFile(e)
    ensures var (n', ok) := Perform(n, c, fd, es);
            && ok && n'.script == n.script[Calls(es)..]
            && Safe(n'.world) && Writable(n'.world, c, fd, ino) && Foreign(n'.script, c)
  {
    hide Safe, Writable, Foreign, Call, WriteLoop, Pieces;
    if es != [] {
      var init, last := es[..|es| - 1], es[|es| - 1];
      assert last in es && InFile(last);
      var more := Calls(es) - Calls(init);
      GrantedSplit(n.script, Calls(init), more);
      SessionSucceeds(n, c, fd, ino, init);
      var n1 := Perform(n, c, fd, init).0;
      assert n.script[Calls(init)..][more..] == n.script[Calls(es)..];
      match last
      case Wrote(off, data) => WriteSucceeds(n1, c, fd, ino, data, off, 0);
      case Cut(len) => CutSucceeds(n1, c, fd, ino, len);
      case Idle =>
    }
  }

  lemma GrantedSplit(script: seq<Event>, a: nat, b: nat)
    requires Granted(script, a + b)
    ensures Granted(script, a) && Granted(script[a..], b)
  {}

  /** The chunk splits are invisible: a successful session leaves the file as if every call had been
      one POSIX call. */
  lemma SessionRefinesPosix(n: Net, c: nat, fd: int, ino: nat, es: seq<Effect>)
    requires Safe(n.world) && Writable(n.world, c, fd, ino)
    requires NoOtherWriter(n.script, c) && AllOrError(n.script)
    requires forall e :: e in es ==> OnWire(e)
    requires Perform(n, c, fd, es).1
    ensures var n' := Perform(n, c, fd, es).0;
            && Updated(n.world, n'.world, c, ino, Replay(n.world.files[ino], es))
            && NoOtherWriter(n'.script, c) && AllOrError(n'.script)
  {
    hide Safe, NoOtherWriter, AllOrError, Perform, Replay, Updated, Delivered;
    var done := SessionUnderFaults(n, c, fd, ino, es);
  }

  /** A read of `r` bytes at `off` shows, at its position `p`, the file `was` after the history `es`: the byte
      of the latest covering write not since cut off, zero where it was cut off or never written past the old
      end, and the original byte where nothing touched it.  A `complete` read reaches exactly as far as the
      latest deciding effect made the file reach. */
  ghost predicate Shows(was: Content, es: seq<Effect>, off: nat, p: nat, r: int, bytes: seq<Byte>, complete: bool)
    requires |bytes| == Max(r, 0)
  {
    && (p < r ==> forall k :: LastTouch(es, k, off + p) ==>
          bytes[p] == if Sets(es[k], off + p) then es[k].data[off + p - es[k].off] else 0)
    && (p < r && (forall j :: 0 <= j < |es| ==> !Touches(es[j], off + p)) ==> bytes[p] == ByteAt(was, off + p))
    && (complete ==>
          && (forall k :: LastSizing(es, k, off + p) ==> (p < r <==> Reaches(es[k], off + p)))
          && ((forall j :: 0 <= j < |es| ==> !Sizes(es[j], off + p)) ==> (p < r <==> off + p < |was|)))
  }

  /** A read of a file that is a replayed history. */
  lemma ReadShows(n: Net, c: nat, fd: int, ino: nat, was: Content, es: seq<Effect>, count: nat, off: nat, p: nat)
    requires Safe(n.world) && Readable(n.world, c, fd, ino) && NoOtherWriter(n.script, c) && off < TWO64
    requires n.world.files[ino] == Replay(was, es)
    ensures var (n', r, bytes) := FetchLoop(n, c, FromFile(fd), count, off, 0);
            && |bytes| == Max(r, 0)
            && Shows(was, es, off, p, r, bytes, Prompt(n.script, Pieces(count)) && off < TWO63 && p < count)
  {
    hide Safe, NoOtherWriter, FetchLoop, LastTouch, LastSizing, Sets, Touches, Sizes, Reaches, Replay, Prompt, Pieces;
    ReadRefinement(n, c, fd, ino, count, off);
    HistoryByte(was, es, off + p);
    HistorySize(was, es, off + p);
    var (n', r, bytes) := FetchLoop(n, c, FromFile(fd), count, off, 0);
    assert p < r ==> bytes[p] == ByteAt(Replay(was, es), off + p);
  }

  /** Last writer wins over whole sessions: after any successful session, a later read shows at each position
      the latest call that covers it. */
  lemma LastWriterWins(n: Net, c: nat, fd: int, ino: nat, es: seq<Effect>, count: nat, off: nat, p: nat)
    requires Safe(n.world) && Writable(n.world, c, fd, ino) && Readable(n.world, c, fd, ino)
    requires NoOtherWriter(n.script, c) && AllOrError(n.script) && off < TWO64
    requires forall e :: e in es ==> OnWire(e)
    requires Perform(n, c, fd, es).1
    ensures var n1 := Perform(n, c, fd, es).0;
            var (n2, r, bytes) := FetchLoop(n1, c, FromFile(fd), count, off, 0);
            && |bytes| == Max(r, 0)
            && Shows(n.world.files[ino], es, off, p, r, bytes,
                     Prompt(n1.script, Pieces(count)) && off < TWO63 && p < count)
  {
    hide Safe, NoOtherWriter, AllOrError, Perform, FetchLoop, Shows, Replay, Prompt, Pieces, OnWire;
    SessionRefinesPosix(n, c, fd, ino, es);
    ReadShows(Perform(n, c, fd, es).0, c, fd, ino, n.world.files[ino], es, count, off, p);
  }

  /** The same when calls fail or are lost: the read shows the latest of what the calls delivered. */
  lemma LastDeliveryWins(n: Net, c: nat, fd: int, ino: nat, es: seq<Effect>, count: nat, off: nat, p: nat)
    returns (done: seq<Effect>)
    requires Safe(n.world) && Writable(n.world, c, fd, ino) && Readable(n.world, c, fd, ino)
    requires NoOtherWriter(n.script, c) && AllOrError(n.script) && off < TWO64
    requires forall e :: e in es ==> OnWire(e)
    ensures AllDelivered(n, c, fd, es, done)
    ensures var n1 := Perform(n, c, fd, es).0;
            var (n2, r, bytes) := FetchLoop(n1, c, FromFile(fd), count, off, 0);
            && |bytes| == Max(r, 0)
            && Shows(n.world.files[ino], done, off, p, r, bytes,
                     Prompt(n1.script, Pieces(count)) && off < TWO63 && p < count)
  {
    hide Safe, NoOtherWriter, AllOrError, Perform, FetchLoop, Shows, Replay, Prompt, Pieces, OnWire, Delivered;
    done := SessionUnderFaults(n, c, fd, ino, es);
    ReadShows(Perform(n, c, fd, es).0, c, fd, ino, n.world.files[ino], done, count, off, p);
  }
}
