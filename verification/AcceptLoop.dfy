/** The accept/fork loop of the server, as steps of the parent and of any number of children running
    concurrently.  Sockets are kernel objects: forking copies references, closing drops one. */
module AcceptLoop {
  // ---------- Choosing a connection ----------

  /** `svc_accept_one_connexion`: `ready` is select's answer and `accepts[i]` what accept returns on
      socket i.  Serves the first ready socket whose accept succeeds. */
  method AcceptOne(sockfds: seq<int>, selected: int, ready: set<int>, accepts: seq<int>)
    returns (ret: int, socketIndex: nat, nfds: int)
    requires |accepts| == |sockfds| && forall i :: 0 <= i < |sockfds| ==> 0 <= sockfds[i]
    ensures forall i :: 0 <= i < |sockfds| ==> sockfds[i] < nfds
    ensures nfds == 0 || exists i :: 0 <= i < |sockfds| && sockfds[i] + 1 == nfds
    ensures ret >= 0 ==>
              && selected > 0 && socketIndex < |sockfds|
              && sockfds[socketIndex] in ready && accepts[socketIndex] == ret
              && forall i :: 0 <= i < socketIndex && sockfds[i] in ready ==> accepts[i] < 0
    ensures ret < 0 && selected > 0 ==> forall i :: 0 <= i < |sockfds| && sockfds[i] in ready ==> accepts[i] < 0
  {
    ret, socketIndex := -1, 0;
    var maxSockfd := -1;
    for i := 0 to |sockfds|
      invariant forall j :: 0 <= j < i ==> sockfds[j] <= maxSockfd
      invariant maxSockfd == -1 || exists j :: 0 <= j < i && sockfds[j] == maxSockfd
    {
      if sockfds[i] > maxSockfd {
        maxSockfd := sockfds[i];
      }
    }
    nfds := maxSockfd + 1;
    if selected <= 0 {
      return;
    }
    for i := 0 to |sockfds|
      invariant ret < 0 && forall j :: 0 <= j < i && sockfds[j] in ready ==> accepts[j] < 0
    {
      if sockfds[i] !in ready {
        continue;
      }
      ret := accepts[i];
      if ret < 0 {
        continue;
      }
      socketIndex := i;
      return;
    }
  }

  // ---------- Processes ----------

  /** Where the parent is: at the loop head, holding a connection before or after its fork, or dead because
      the fork for a connection failed. */
  datatype ParentAt = Head | Accepted(conn: nat, index: nat) | Forked(conn: nat, index: nat) | Dead(conn: nat)

  /** Where a child is: closing listening socket k next, serving a path, or gone. */
  datatype ChildAt = Closing(k: nat) | Serving(path: nat) | Gone

  datatype Child = Child(at: ChildAt, conns: set<nat>, listeners: set<nat>, conn: nat, index: nat)

  datatype System = System(
    sockets: nat,                      // how many listening sockets
    parent: ParentAt,
    parentConns: set<nat>,
    parentListeners: set<nat>,
    children: map<nat, Child>,
    accepted: map<nat, nat>)           // every connection ever accepted -> listening socket index

  datatype Step =
    | Accept(conn: nat, index: nat)
    | Fork(pid: nat)
    | ForkFails
    | ParentCloses
    | ChildCloses(pid: nat)
    | ChildStarts(pid: nat, ok: bool)
    | ChildExits(pid: nat)

  predicate IsSocket(i: nat, n: nat) { i < n }

  function Sockets(n: nat): set<nat> { set i: nat | i < n && IsSocket(i, n) }

  /** Exactly the listening sockets `lo .. hi`. */
  ghost predicate IsRange(ls: set<nat>, lo: nat, hi: nat) { forall i: nat :: i in ls <==> lo <= i < hi }

  function Boot(n: nat): System { System(n, Head, {}, Sockets(n), map[], map[]) }

  /** One step of one process; a step that is not possible now changes nothing. */
  function Next(s: System, step: Step): System
  {
    match step
    case Accept(conn, index) =>
      if s.parent.Head? && conn !in s.accepted && index < s.sockets
      then s.(parent := Accepted(conn, index), parentConns := s.parentConns + {conn}, accepted := s.accepted[conn := index])
      else s
    case Fork(pid) =>
      if s.parent.Accepted? && pid !in s.children
      then s.(parent := Forked(s.parent.conn, s.parent.index),
              children := s.children[
                pid := Child(Closing(0), s.parentConns, s.parentListeners, s.parent.conn, s.parent.index)])
      else s
    case ForkFails =>
      if s.parent.Accepted? then s.(parent := Dead(s.parent.conn), parentConns := {}, parentListeners := {}) else s
    case ParentCloses =>
      if s.parent.Forked? then s.(parent := Head, parentConns := s.parentConns - {s.parent.conn}) else s
    case ChildCloses(pid) =>
      if pid in s.children && s.children[pid].at.Closing? && s.children[pid].at.k < s.sockets
      then
        var c := s.children[pid];
        s.(children := s.children[pid := c.(at := Closing(c.at.k + 1), listeners := c.listeners - {c.at.k})])
      else s
    case ChildStarts(pid, ok) =>
      if pid in s.children && s.children[pid].at == Closing(s.sockets)
      then
        var c := s.children[pid];
        s.(children := s.children[pid := if ok then c.(at := Serving(c.index)) else Exit(c)])
      else s
    case ChildExits(pid) =>
      if pid in s.children then s.(children := s.children[pid := Exit(s.children[pid])]) else s
  }

  function Exit(c: Child): Child { c.(at := Gone, conns := {}, listeners := {}) }

  function Run(s: System, steps: seq<Step>): System
  {
    if steps == [] then s else Next(Run(s, steps[..|steps| - 1]), steps[|steps| - 1])
  }

  // ---------- The ownership invariant ----------

  ghost predicate ChildOk(s: System, c: Child)
  {
    && c.conn in s.accepted && s.accepted[c.conn] == c.index
    && c.conns == (if c.at.Gone? then {} else {c.conn})
    && match c.at
       case Closing(k) => k <= s.sockets && IsRange(c.listeners, k, s.sockets)
       case Serving(path) => c.listeners == {} && path == c.index
       case Gone => c.listeners == {}
  }

  /** The one connection the parent has accepted but not handed over: not yet, or its fork failed. */
  predicate Undelivered(s: System, conn: nat) { (s.parent.Accepted? || s.parent.Dead?) && s.parent.conn == conn }

  ghost predicate HasChild(s: System, conn: nat) { exists pid :: pid in s.children && s.children[pid].conn == conn }

  ghost predicate ChildrenOk(s: System)
  {
    && (forall pid :: pid in s.children ==> ChildOk(s, s.children[pid]))
    && (forall p, q :: p in s.children && q in s.children && p != q ==> s.children[p].conn != s.children[q].conn)
  }

  ghost predicate ParentOk(s: System)
  {
    && (forall conn :: conn in s.accepted ==> HasChild(s, conn) || Undelivered(s, conn))
    && s.parentConns == (if s.parent.Accepted? || s.parent.Forked? then {s.parent.conn} else {})
    && (if s.parent.Dead? then s.parentListeners == {} else IsRange(s.parentListeners, 0, s.sockets))
    && (s.parent.Accepted? ==>
          && s.parent.conn in s.accepted && s.accepted[s.parent.conn] == s.parent.index
          && !HasChild(s, s.parent.conn))
    && (s.parent.Forked? ==> HasChild(s, s.parent.conn))
  }

  ghost predicate Owned(s: System) { ChildrenOk(s) && ParentOk(s) }

  /** Only a fork gives a connection a child, and a child once created keeps its connection's identity for
      ever. */
  lemma HasChildAfter(s: System, step: Step, conn: nat)
    ensures HasChild(Next(s, step), conn) <==> HasChild(s, conn) || (Forks(s, step) && s.parent.conn == conn)
  {
    var s' := Next(s, step);
    if HasChild(s, conn) {
      var pid :| pid in s.children && s.children[pid].conn == conn;
      assert pid in s'.children && s'.children[pid].conn == conn;
    }
    if Forks(s, step) {
      assert step.pid in s'.children && s'.children[step.pid].conn == s.parent.conn;
    }
  }

  predicate Forks(s: System, step: Step) { step.Fork? && s.parent.Accepted? && step.pid !in s.children }

  lemma ChildSteps(s: System, step: Step, pid: nat)
    requires Owned(s) && pid in Next(s, step).children
    ensures ChildOk(Next(s, step), Next(s, step).children[pid])
  {
    hide HasChild;
    if pid in s.children {
      assert ChildOk(s, s.children[pid]);
    }
  }

  lemma StepKeepsChildren(s: System, step: Step)
    requires Owned(s)
    ensures ChildrenOk(Next(s, step))
  {
    hide ChildOk, Next;
    var s' := Next(s, step);
    forall pid | pid in s'.children ensures ChildOk(s', s'.children[pid]) {
      ChildSteps(s, step, pid);
    }
    forall p, q | p in s'.children && q in s'.children && p != q
      ensures s'.children[p].conn != s'.children[q].conn
    {
      ChildrenDiffer(s, step, p, q);
    }
  }

  lemma ChildrenDiffer(s: System, step: Step, p: nat, q: nat)
    requires Owned(s) && p in Next(s, step).children && q in Next(s, step).children && p != q
    ensures Next(s, step).children[p].conn != Next(s, step).children[q].conn
  {
    hide ChildOk;
    assert p in s.children ==> HasChild(s, s.children[p].conn);
    assert q in s.children ==> HasChild(s, s.children[q].conn);
  }

  /** A connection being accepted now has no child yet. */
  lemma NewHasNoChild(s: System, conn: nat)
    requires Owned(s) && conn !in s.accepted
    ensures !HasChild(s, conn)
  {}

  lemma StepKeepsParent(s: System, step: Step)
    requires Owned(s)
    ensures ParentOk(Next(s, step))
  {
    if step.Accept? && step.conn !in s.accepted {
      NewHasNoChild(s, step.conn);
    }
    var s' := Next(s, step);
    hide HasChild, ChildrenOk;
    forall conn
      ensures HasChild(s', conn) <==> HasChild(s, conn) || (Forks(s, step) && s.parent.conn == conn)
    {
      HasChildAfter(s, step, conn);
    }
  }

  lemma StepKeepsOwned(s: System, step: Step)
    requires Owned(s)
    ensures Owned(Next(s, step))
  {
    StepKeepsChildren(s, step);
    StepKeepsParent(s, step);
  }

  lemma {:induction false} RunKeepsOwned(n: nat, steps: seq<Step>)
    ensures Owned(Run(Boot(n), steps)) && Run(Boot(n), steps).sockets == n
  {
    hide Next, Owned;
    if steps == [] {
      BootOwned(n);
    } else {
      RunKeepsOwned(n, steps[..|steps| - 1]);
      var s := Run(Boot(n), steps[..|steps| - 1]);
      StepKeepsOwned(s, steps[|steps| - 1]);
      SocketsFixed(s, steps[|steps| - 1]);
    }
  }

  lemma BootOwned(n: nat)
    ensures Owned(Boot(n))
  {}

  lemma SocketsFixed(s: System, step: Step)
    ensures Next(s, step).sockets == s.sockets
  {}

  /** Process `pid` is the one child of `conn`: no other child was forked for it or holds it, and this one
      holds it, and nothing else, until it is gone. */
  ghost predicate OnlyHolder(s: System, pid: nat, conn: nat)
  {
    && pid in s.children && s.children[pid].conn == conn
    && (s.children[pid].at.Gone? || s.children[pid].conns == {conn})
    && forall q :: q in s.children && (s.children[q].conn == conn || conn in s.children[q].conns) ==> q == pid
  }

  /** Connection ownership in every reachable state of the forking server: at the loop head the parent
      holds no connection; every live child holds exactly its own connection; a serving child holds no
      listening socket and serves the path whose index is the socket that accepted that connection; and
      every connection ever accepted has its one child, except at most one that the parent still holds before
      the fork or whose fork failed. */
  lemma OneChildPerConnection(n: nat, steps: seq<Step>)
    ensures var s := Run(Boot(n), steps);
            && (s.parent.Head? ==> s.parentConns == {})
            && (forall pid :: pid in s.children && !s.children[pid].at.Gone? ==>
                  s.children[pid].conns == {s.children[pid].conn})
            && (forall pid :: pid in s.children && s.children[pid].at.Serving? ==>
                  var c := s.children[pid];
                  c.listeners == {} && c.conn in s.accepted && c.at.path == s.accepted[c.conn])
            && (forall p, q :: p in s.children && q in s.children && p != q ==> s.children[p].conns !! s.children[q].conns)
            && (forall conn :: conn in s.accepted ==> Undelivered(s, conn) || exists pid :: OnlyHolder(s, pid, conn))
  {
    hide Run;
    RunKeepsOwned(n, steps);
    var s := Run(Boot(n), steps);
    forall conn | conn in s.accepted && !Undelivered(s, conn)
      ensures exists pid :: OnlyHolder(s, pid, conn)
    {
      assert HasChild(s, conn);
      var pid :| pid in s.children && s.children[pid].conn == conn;
      forall q | q in s.children && (s.children[q].conn == conn || conn in s.children[q].conns) ensures q == pid {
        assert ChildOk(s, s.children[q]);
      }
      assert ChildOk(s, s.children[pid]) && OnlyHolder(s, pid, conn);
    }
  }

  // ---------- Processes do not disturb each other ----------

  /** `step` is a step of child `pid`. */
  predicate StepOf(step: Step, pid: nat)
  {
    match step
    case ChildCloses(p) => p == pid
    case ChildStarts(p, _) => p == pid
    case ChildExits(p) => p == pid
    case _ => false
  }

  /** A step of one process leaves every other one as it is: the parent's steps change no existing child, and a
      child's steps change neither the parent nor another child. */
  lemma StepFrame(s: System, step: Step, pid: nat)
    requires pid in s.children
    ensures pid in Next(s, step).children
    ensures !StepOf(step, pid) ==> Next(s, step).children[pid] == s.children[pid]
    ensures StepOf(step, pid) ==> Next(s, step) == s.(children := s.children[pid := Next(s, step).children[pid]])
  {}

  /** A child about to start serves its path if its setup succeeds and is gone if it fails, and an exit leaves
      nothing held; either way it keeps its identity. */
  lemma StartOrExit(s: System, pid: nat)
    requires pid in s.children
    ensures var c := s.children[pid];
            && Next(s, ChildExits(pid)).children[pid] == Child(Gone, {}, {}, c.conn, c.index)
            && (c.at == Closing(s.sockets) ==>
                  && Next(s, ChildStarts(pid, true)).children[pid] == c.(at := Serving(c.index))
                  && Next(s, ChildStarts(pid, false)).children[pid] == Child(Gone, {}, {}, c.conn, c.index))
  {}

  /** A serving child goes on serving the same connection and path through any run of all processes, until it
      exits itself. */
  lemma {:induction false} ServesUntilExit(s: System, steps: seq<Step>, pid: nat)
    requires pid in s.children && s.children[pid].at.Serving? && ChildExits(pid) !in steps
    ensures pid in Run(s, steps).children && Run(s, steps).children[pid] == s.children[pid]
  {
    if steps != [] {
      var n := |steps| - 1;
      ServesUntilExit(s, steps[..n], pid);
      var s1 := Run(s, steps[..n]);
      assert steps[n] in steps;
      StepFrame(s1, steps[n], pid);
    }
  }

  /** A failed fork kills the parent for good: through any later run it holds nothing and no
      connection is accepted or given a child. */
  lemma {:induction false} FailedForkIsFatal(s: System, steps: seq<Step>)
    requires s.parent.Accepted?
    ensures Next(s, ForkFails).parent == Dead(s.parent.conn)
    ensures Next(s, ForkFails).parentConns == {} && Next(s, ForkFails).parentListeners == {}
    ensures var s' := Run(Next(s, ForkFails), steps);
            s' == Next(s, ForkFails).(children := s'.children) && s'.children.Keys == s.children.Keys
  {
    if steps != [] {
      FailedForkIsFatal(s, steps[..|steps| - 1]);
    }
  }

  /** Nothing else kills it. */
  lemma {:induction false} DeathHasCause(s: System, steps: seq<Step>)
    requires !s.parent.Dead? && ForkFails !in steps
    ensures !Run(s, steps).parent.Dead?
  {
    if steps != [] {
      DeathHasCause(s, steps[..|steps| - 1]);
      assert steps[|steps| - 1] in steps;
    }
  }

  // ---------- Progress ----------

  /** The steps by which one new connection is served when nothing fails. */
  function ServeSteps(conn: nat, index: nat, pid: nat, sockets: nat): seq<Step>
  {
    [Accept(conn, index), Fork(pid), ParentCloses] + seq(sockets, _ => ChildCloses(pid)) + [ChildStarts(pid, true)]
  }

  lemma {:induction false} RunConcat(s: System, a: seq<Step>, b: seq<Step>)
    ensures Run(s, a + b) == Run(Run(s, a), b)
  {
    hide Next;
    if b == [] {
      assert a + b == a;
    } else {
      RunConcat(s, a, b[..|b| - 1]);
      assert (a + b)[..|a + b| - 1] == a + b[..|b| - 1];
    }
  }

  /** A child closes its listening sockets one by one, and nothing else changes. */
  lemma {:induction false} ChildClosesAll(s: System, pid: nat, k: nat)
    requires pid in s.children && s.children[pid].at == Closing(0) && k <= s.sockets
    ensures var s' := Run(s, seq(k, _ => ChildCloses(pid)));
            && pid in s'.children && s'.children[pid].at == Closing(k)
            && s'.children[pid].index == s.children[pid].index && s'.children[pid].conn == s.children[pid].conn
            && s'.parent == s.parent && s'.sockets == s.sockets
  {
    if k > 0 {
      ChildClosesAll(s, pid, k - 1);
      assert seq(k, _ => ChildCloses(pid))[..k - 1] == seq(k - 1, _ => ChildCloses(pid));
    }
  }

  /** Every connection can be served: from any state at the loop head, a new connection on any listening
      socket leads to a child serving that socket's path, with the parent back at the head. */
  lemma NewConnectionCanBeServed(s: System, conn: nat, index: nat, pid: nat)
    requires s.parent.Head? && conn !in s.accepted && index < s.sockets && pid !in s.children
    ensures var s' := Run(s, ServeSteps(conn, index, pid, s.sockets));
            && s'.parent.Head? && pid in s'.children
            && s'.children[pid].conn == conn && s'.children[pid].at == Serving(index)
  {
    hide Run;
    var start, closes := [Accept(conn, index), Fork(pid), ParentCloses], seq(s.sockets, _ => ChildCloses(pid));
    RunSnoc(s, [], Accept(conn, index));
    RunSnoc(s, [Accept(conn, index)], Fork(pid));
    RunSnoc(s, [Accept(conn, index), Fork(pid)], ParentCloses);
    assert [Accept(conn, index)] + [Fork(pid)] == [Accept(conn, index), Fork(pid)];
    assert [Accept(conn, index), Fork(pid)] + [ParentCloses] == start;
    var s3 := Run(s, start);
    ChildClosesAll(s3, pid, s.sockets);
    RunConcat(s, start, closes);
    RunSnoc(s, start + closes, ChildStarts(pid, true));
  }

  lemma RunSnoc(s: System, a: seq<Step>, x: Step)
    ensures Run(s, a + [x]) == Next(Run(s, a), x) && Run(s, []) == s && [] + [x] == [x]
  {
    assert (a + [x])[..|a|] == a;
  }
}
