/**
 * The threads of server/src/webif/web_interface.cpp as atomic steps: accept_loop, one handler per
 * connection, the broadcaster and stop(). The system may hand out a closed descriptor again at once.
 */
module WebClients {
  import opened Bytes

  datatype Phase =
    | Reading       // read_request, then do_ws_upgrade
    | Registering   // upgraded, about to push_back its descriptor
    | Looping       // registered, in the frame loop
    | Erasing       // left the loop, about to take its descriptor off the list
    | Closing       // about to call CLOSE_SOCKET
    | Decrementing  // closed, about to --active_clients_
    | Notifying     // brought the count to zero, about to notify_all
    | Gone

  datatype Handler = Handler(fd: nat, phase: Phase)

  /** conn is the accepted connection whose descriptor fd the accept thread still holds. */
  datatype Accepter =
    | Testing | Accepting | Counting(conn: nat, fd: nat) | Spawning(conn: nat, fd: nat) | AcceptDone

  datatype Stopper =
    | Running
    | JoiningAccept      // running_ cleared, listening socket closed
    | Clearing
    | FirstCheck         // about to evaluate the wait predicate
    | Committing         // it was false: about to sleep
    | Sleeping
    | Rechecking
    | Stopped(sawZero: bool)

  datatype Broadcaster = Idle | Sending(todo: seq<nat>, dead: seq<nat>)

  /** closes: which connection each CLOSE_SOCKET call closed (None for a stale descriptor), and who called. */
  datatype Close = Close(caller: nat, what: Option<nat>)

  datatype State = State(
    running: bool,
    open: map<nat, nat>,          // the system's table: open descriptor -> connection
    next: nat,                    // connections accepted so far
    handlers: map<nat, Handler>,  // by connection
    clientFds: seq<nat>,
    active: int,
    accepter: Accepter,
    stopper: Stopper,
    broadcaster: Broadcaster,
    closes: seq<Close>)

  const INIT: State := State(true, map[], 0, map[], [], 0, Testing, Running, Idle, [])

  datatype Step =
    | ATest | AAccept(fd: nat) | AFail | ACount | ASpawn
    | HRequest(c: nat, upgraded: bool) | HRegister(c: nat) | HLoop(c: nat, frameOk: bool)
    | HErase(c: nat) | HClose(c: nat) | HDecrement(c: nat) | HNotify(c: nat)
    | BSnapshot | BSend(ok: bool) | BRemove
    | SBegin | SJoin | SClear | SCheck | SSleep | STimeout | SSpurious

  predicate At(s: State, c: nat, phase: Phase) {
    c in s.handlers && s.handlers[c].phase == phase
  }

  predicate Enabled(s: State, step: Step) {
    match step
    case ATest => s.accepter.Testing?
    case AAccept(fd) => s.accepter.Accepting? && fd !in s.open
    case AFail => s.accepter.Accepting?
    case ACount => s.accepter.Counting?
    case ASpawn => s.accepter.Spawning?
    case HRequest(c, _) => At(s, c, Reading)
    case HRegister(c) => At(s, c, Registering)
    case HLoop(c, _) => At(s, c, Looping)
    case HErase(c) => At(s, c, Erasing)
    case HClose(c) => At(s, c, Closing)
    case HDecrement(c) => At(s, c, Decrementing)
    case HNotify(c) => At(s, c, Notifying)
    case BSnapshot => s.broadcaster.Idle?
    case BSend(_) => s.broadcaster.Sending? && s.broadcaster.todo != []
    case BRemove => s.broadcaster.Sending? && s.broadcaster.todo == []
    case SBegin => s.stopper.Running?
    case SJoin => s.stopper.JoiningAccept? && s.accepter.AcceptDone?
    case SClear => s.stopper.Clearing?
    case SCheck => s.stopper.FirstCheck? || s.stopper.Rechecking?
    case SSleep => s.stopper.Committing?
    case STimeout => s.stopper.Sleeping?
    case SSpurious => s.stopper.Sleeping?
  }

  lemma HeadIsNew(fds: seq<nat>)
    requires fds != []
    ensures NoDuplicates(fds) ==> fds[0] !in fds[1..] && NoDuplicates(fds[1..])
  {
  }

  /** std::remove and erase. */
  function Without(fds: seq<nat>, fd: nat): (r: seq<nat>)
    ensures forall x :: x in r <==> x in fds && x != fd
    ensures NoDuplicates(fds) ==> NoDuplicates(r)
  {
    if fds == [] then [] else
      var rest := Without(fds[1..], fd);
      assert forall x :: x in fds <==> x == fds[0] || x in fds[1..];
      assert NoDuplicates(fds) ==> fds[0] !in rest by { HeadIsNew(fds); }
      if fds[0] == fd then rest else [fds[0]] + rest
  }

  function WithoutAll(fds: seq<nat>, dead: seq<nat>): (r: seq<nat>)
    ensures forall x :: x in r ==> x in fds
    ensures NoDuplicates(fds) ==> NoDuplicates(r)
    decreases dead
  {
    if dead == [] then fds else WithoutAll(Without(fds, dead[0]), dead[1..])
  }

  predicate NoDuplicates(fds: seq<nat>) {
    forall i, j :: 0 <= i < j < |fds| ==> fds[i] != fds[j]
  }

  function Move(s: State, c: nat, phase: Phase): State
    requires c in s.handlers
  {
    s.(handlers := s.handlers[c := s.handlers[c].(phase := phase)])
  }

  /** close(2): removes the descriptor's entry, whatever connection it now stands for. */
  function CloseSocket(s: State, c: nat): State
    requires c in s.handlers
  {
    var fd := s.handlers[c].fd;
    Move(s, c, Decrementing).(
      open := s.open - {fd},
      closes := s.closes + [Close(c, if fd in s.open then Some(s.open[fd]) else None)])
  }

  function Apply(s: State, step: Step): State
    requires Enabled(s, step)
  {
    match step
    case ATest => s.(accepter := if s.running then Accepting else AcceptDone)
    case AAccept(fd) => s.(accepter := Counting(s.next, fd), open := s.open[fd := s.next], next := s.next + 1)
    case AFail => s.(accepter := AcceptDone)
    case ACount => s.(accepter := Spawning(s.accepter.conn, s.accepter.fd), active := s.active + 1)
    case ASpawn => s.(accepter := Testing, handlers := s.handlers[s.accepter.conn := Handler(s.accepter.fd, Reading)])
    case HRequest(c, upgraded) => Move(s, c, if upgraded then Registering else Closing)
    case HRegister(c) => Move(s, c, Looping).(clientFds := s.clientFds + [s.handlers[c].fd])
    case HLoop(c, ok) => if s.running && ok then s else Move(s, c, Erasing)
    case HErase(c) => Move(s, c, Closing).(clientFds := Without(s.clientFds, s.handlers[c].fd))
    case HClose(c) => CloseSocket(s, c)
    case HDecrement(c) => Move(s, c, if s.active - 1 == 0 then Notifying else Gone).(active := s.active - 1)
    case HNotify(c) => Move(s, c, Gone).(stopper := if s.stopper.Sleeping? then Rechecking else s.stopper)
    case BSnapshot => s.(broadcaster := Sending(s.clientFds, []))
    case BSend(ok) =>
      var b := s.broadcaster;
      s.(broadcaster := Sending(b.todo[1..], if ok then b.dead else b.dead + [b.todo[0]]))
    case BRemove => s.(broadcaster := Idle, clientFds := WithoutAll(s.clientFds, s.broadcaster.dead))
    case SBegin => s.(running := false, stopper := JoiningAccept)
    case SJoin => s.(stopper := Clearing)
    case SClear => s.(stopper := FirstCheck, clientFds := [])
    case SCheck => s.(stopper := if s.active == 0 then Stopped(true) else Committing)
    case SSleep => s.(stopper := Sleeping)
    case STimeout => s.(stopper := Stopped(s.active == 0))
    case SSpurious => s.(stopper := Rechecking)
  }

  predicate Legal(s: State, steps: seq<Step>)
    decreases |steps|
  {
    steps == [] || (Enabled(s, steps[0]) && Legal(Apply(s, steps[0]), steps[1..]))
  }

  function After(s: State, steps: seq<Step>): State
    requires Legal(s, steps)
    decreases |steps|
  {
    if steps == [] then s else After(Apply(s, steps[0]), steps[1..])
  }

  // Invariants.

  predicate Holds(p: Phase) {
    p.Reading? || p.Registering? || p.Looping? || p.Erasing? || p.Closing?
  }

  predicate Counted(p: Phase) {
    Holds(p) || p.Decrementing?
  }

  /** Connection c owns descriptor fd: its handler, or the accept thread on its behalf, still has to close it. */
  predicate Owns(s: State, c: nat, fd: nat) {
    || (c in s.handlers && s.handlers[c].fd == fd && Holds(s.handlers[c].phase))
    || s.accepter == Counting(c, fd)
    || s.accepter == Spawning(c, fd)
  }

  /** The open descriptors are exactly the owned ones, each with one owner. */
  ghost predicate Ownership(s: State) {
    && (forall fd :: fd in s.open ==> Owns(s, s.open[fd], fd))
    && (forall c, fd :: Owns(s, c, fd) ==> fd in s.open && s.open[fd] == c)
  }

  /** Every accepted connection has a handler, or is still with the accept thread. */
  ghost predicate Accepted(s: State) {
    forall c: nat :: c in s.handlers || c in Pending(s) <==> c < s.next
  }

  function Pending(s: State): set<nat> {
    if s.accepter.Counting? || s.accepter.Spawning? then {s.accepter.conn} else {}
  }

  ghost predicate NotYetSpawned(s: State) {
    forall c :: c in Pending(s) ==> c !in s.handlers
  }

  predicate Registered(s: State) {
    && NoDuplicates(s.clientFds)
    && forall fd :: fd in s.clientFds ==>
         fd in s.open && s.open[fd] in s.handlers && s.handlers[s.open[fd]].fd == fd
         && (s.handlers[s.open[fd]].phase.Looping? || s.handlers[s.open[fd]].phase.Erasing?)
  }

  function CountedIn(handlers: map<nat, Handler>): set<nat> {
    set c | c in handlers && Counted(handlers[c].phase)
  }

  function CountedSet(s: State): set<nat> {
    CountedIn(s.handlers)
  }

  predicate Covers(s: State) {
    s.active == |CountedSet(s)| + (if s.accepter.Spawning? then 1 else 0)
  }

  /** Every close so far was of the caller's own connection, once, by a handler that is past it. */
  ghost predicate ClosedOnce(s: State) {
    && (forall i :: 0 <= i < |s.closes| ==>
          && s.closes[i].what == Some(s.closes[i].caller) && s.closes[i].caller in s.handlers
          && !Holds(s.handlers[s.closes[i].caller].phase))
    && (forall i, j :: 0 <= i < j < |s.closes| ==> s.closes[i].caller != s.closes[j].caller)
    && (forall c :: c in s.handlers && !Holds(s.handlers[c].phase) ==>
          exists i :: 0 <= i < |s.closes| && s.closes[i].caller == c)
  }

  predicate PastJoin(t: Stopper) {
    !t.Running? && !t.JoiningAccept?
  }

  predicate Shutdown(s: State) {
    && (s.running <==> s.stopper.Running?)
    && (PastJoin(s.stopper) ==> s.accepter.AcceptDone?)
    && (s.stopper == Stopped(true) ==> s.active == 0)
  }

  ghost predicate Inv(s: State) {
    Ownership(s) && Accepted(s) && NotYetSpawned(s) && Registered(s) && Covers(s) && ClosedOnce(s) && Shutdown(s)
  }

  lemma OwnershipStep(s: State, step: Step)
    requires Ownership(s) && NotYetSpawned(s) && Accepted(s) && Enabled(s, step)
    ensures Ownership(Apply(s, step))
  {
    hide Accepted, Without, WithoutAll, Ownership, Owns, NotYetSpawned;
    var t := Apply(s, step);
    match step
    case AAccept(fd) => AcceptKeepsOwnership(s, fd);
    case HClose(c) => CloseKeepsOwnership(s, c);
    case HRequest(c, _) =>
      MoveKeepsOwners(s, c, Registering, t);
      MoveKeepsOwners(s, c, Closing, t);
    case HRegister(c) => MoveKeepsOwners(s, c, Looping, t);
    case HLoop(c, _) =>
      MoveKeepsOwners(s, c, Erasing, t);
      AccepterKeepsOwners(s, t);
    case HErase(c) => MoveKeepsOwners(s, c, Closing, t);
    case HDecrement(c) =>
      MoveKeepsOwners(s, c, Notifying, t);
      MoveKeepsOwners(s, c, Gone, t);
    case HNotify(c) => MoveKeepsOwners(s, c, Gone, t);
    case ASpawn => SpawnKeepsOwners(s);
    case _ => AccepterKeepsOwners(s, t);
  }

  /** A handler's step from one phase that holds its descriptor to another, or between phases that do not. */
  lemma MoveKeepsOwners(s: State, c: nat, phase: Phase, t: State)
    requires Ownership(s) && c in s.handlers && (Holds(s.handlers[c].phase) <==> Holds(phase))
    ensures t.open == s.open && t.accepter == s.accepter && t.handlers == Move(s, c, phase).handlers ==> Ownership(t)
  {
    if t.open == s.open && t.accepter == s.accepter && t.handlers == Move(s, c, phase).handlers {
      assert forall d, f :: Owns(t, d, f) <==> Owns(s, d, f);
      SameOwners(s, t);
    }
  }

  lemma AccepterKeepsOwners(s: State, t: State)
    requires Ownership(s)
    requires t.accepter == s.accepter || Pending(s) + Pending(t) == {}
          || (s.accepter.Counting? && t.accepter == Spawning(s.accepter.conn, s.accepter.fd))
    ensures t.open == s.open && t.handlers == s.handlers ==> Ownership(t)
  {
    if t.open == s.open && t.handlers == s.handlers {
      assert Pending(s) + Pending(t) == {} ==> Pending(s) == {} && Pending(t) == {};
      assert forall d, f :: Owns(t, d, f) <==> Owns(s, d, f) by {
        if !s.accepter.Counting? && !s.accepter.Spawning? { assert Pending(s) == {}; }
        if s.accepter.Counting? || s.accepter.Spawning? { assert s.accepter.conn in Pending(s); }
        if t.accepter.Counting? || t.accepter.Spawning? { assert t.accepter.conn in Pending(t); }
      }
      SameOwners(s, t);
    }
  }

  lemma SpawnKeepsOwners(s: State)
    requires Ownership(s) && NotYetSpawned(s) && Enabled(s, ASpawn)
    ensures Ownership(Apply(s, ASpawn))
  {
    var t := Apply(s, ASpawn);
    assert s.accepter.conn in Pending(s);
    assert forall d, f :: Owns(t, d, f) <==> Owns(s, d, f);
    SameOwners(s, t);
  }

  lemma CloseKeepsOwnership(s: State, c: nat)
    requires Ownership(s) && NotYetSpawned(s) && Enabled(s, HClose(c))
    ensures Ownership(Apply(s, HClose(c)))
  {
    var t, fd := Apply(s, HClose(c)), s.handlers[c].fd;
    assert c !in Pending(s);
    assert Owns(s, c, fd);
    forall f | f in t.open
      ensures Owns(t, t.open[f], f)
    {
      assert Owns(s, s.open[f], f);
    }
    forall d, f | Owns(t, d, f)
      ensures f in t.open && t.open[f] == d
    {
      assert Owns(s, d, f);
    }
  }

  lemma SameOwners(s: State, t: State)
    requires Ownership(s) && t.open == s.open
    requires forall c, f :: Owns(t, c, f) <==> Owns(s, c, f)
    ensures Ownership(t)
  {
  }

  lemma AcceptKeepsOwnership(s: State, fd: nat)
    requires Ownership(s) && Accepted(s) && Enabled(s, AAccept(fd))
    ensures Ownership(Apply(s, AAccept(fd)))
  {
    var t := Apply(s, AAccept(fd));
    assert s.next !in s.handlers;
    forall f | f in t.open
      ensures Owns(t, t.open[f], f)
    {
      if f != fd { assert Owns(s, s.open[f], f); }
    }
    forall c, f | Owns(t, c, f)
      ensures f in t.open && t.open[f] == c
    {
      if t.accepter != Counting(c, f) { assert Owns(s, c, f); }
    }
  }

  lemma AcceptedStep(s: State, step: Step)
    requires Accepted(s) && NotYetSpawned(s) && Enabled(s, step)
    ensures Accepted(Apply(s, step)) && NotYetSpawned(Apply(s, step))
  {
    hide Without, WithoutAll, CloseSocket, Accepted, NotYetSpawned;
    var t := Apply(s, step);
    match step
    case AAccept(_) => MoreAccepted(s, t);
    case ASpawn => SpawnedIsAccepted(s, t);
    case HRequest(c, _) =>
      KeysMoved(s, c, Registering, t);
      KeysMoved(s, c, Closing, t);
    case HRegister(c) => KeysMoved(s, c, Looping, t);
    case HLoop(c, _) =>
      KeysMoved(s, c, Erasing, t);
      SameAccepted(s, t);
    case HErase(c) => KeysMoved(s, c, Closing, t);
    case HClose(c) =>
      SameKeys(s, c);
      SameAccepted(s, t);
    case HDecrement(c) =>
      KeysMoved(s, c, Notifying, t);
      KeysMoved(s, c, Gone, t);
    case HNotify(c) => KeysMoved(s, c, Gone, t);
    case _ => SameAccepted(s, t);
  }

  lemma SameAccepted(s: State, t: State)
    requires Accepted(s) && NotYetSpawned(s)
    ensures t.next == s.next && Pending(t) == Pending(s) && t.handlers.Keys == s.handlers.Keys ==> Accepted(t) && NotYetSpawned(t)
  {
  }

  lemma KeysMoved(s: State, c: nat, phase: Phase, t: State)
    requires Accepted(s) && NotYetSpawned(s) && c in s.handlers
    ensures t.next == s.next && t.accepter == s.accepter && t.handlers == Move(s, c, phase).handlers ==> Accepted(t) && NotYetSpawned(t)
  {
    assert Move(s, c, phase).handlers.Keys == s.handlers.Keys;
    if t.accepter == s.accepter { assert Pending(t) == Pending(s); }
  }

  lemma MoreAccepted(s: State, t: State)
    requires Accepted(s) && Pending(s) == {} && t.handlers == s.handlers && t.next == s.next + 1 && Pending(t) == {s.next}
    ensures Accepted(t) && NotYetSpawned(t)
  {
  }

  lemma SpawnedIsAccepted(s: State, t: State)
    requires Accepted(s) && t.next == s.next && Pending(t) == {} && t.handlers.Keys == s.handlers.Keys + Pending(s)
    ensures Accepted(t) && NotYetSpawned(t)
  {
  }

  lemma SameKeys(s: State, c: nat)
    requires c in s.handlers
    ensures var t := CloseSocket(s, c);
            t.handlers.Keys == s.handlers.Keys && t.accepter == s.accepter && t.next == s.next
  {
  }

  /** A descriptor about to be registered is not on the list, although its number may have been there before. */
  lemma RegisteredStep(s: State, step: Step)
    requires Ownership(s) && NotYetSpawned(s) && Accepted(s) && Registered(s) && Enabled(s, step)
    ensures Registered(Apply(s, step))
  {
    hide Accepted, Without, WithoutAll, Registered, Owns;
    match step
    case HRegister(c) => RegisterKeepsRegistered(s, c);
    case HErase(c) => EraseKeepsRegistered(s, c);
    case HClose(c) => CloseKeepsRegistered(s, c);
    case HRequest(c, up) => MoveKeepsRegistered(s, c, if up then Registering else Closing);
    case HLoop(c, ok) => LoopKeepsRegistered(s, c, ok);
    case HDecrement(c) => MoveKeepsRegistered(s, c, if s.active - 1 == 0 then Notifying else Gone);
    case HNotify(c) => MoveKeepsRegistered(s, c, Gone);
    case _ => OtherKeepsRegistered(s, step);
  }

  /** A step of a handler that is not on the list. */
  lemma MoveKeepsRegistered(s: State, c: nat, phase: Phase)
    requires Registered(s) && c in s.handlers && !s.handlers[c].phase.Looping? && !s.handlers[c].phase.Erasing?
    ensures Registered(Move(s, c, phase))
    ensures forall t: State :: t.clientFds == s.clientFds && t.open == s.open && t.handlers == Move(s, c, phase).handlers ==> Registered(t)
  {
  }

  lemma LoopKeepsRegistered(s: State, c: nat, ok: bool)
    requires Registered(s) && Enabled(s, HLoop(c, ok))
    ensures Registered(Apply(s, HLoop(c, ok)))
  {
  }

  lemma RegisterKeepsRegistered(s: State, c: nat)
    requires Ownership(s) && Registered(s) && Enabled(s, HRegister(c))
    ensures Registered(Apply(s, HRegister(c)))
  {
    assert Owns(s, c, s.handlers[c].fd);
    assert s.handlers[c].fd !in s.clientFds;
  }

  lemma EraseKeepsRegistered(s: State, c: nat)
    requires Ownership(s) && Registered(s) && Enabled(s, HErase(c))
    ensures Registered(Apply(s, HErase(c)))
  {
    hide Without;
    assert Owns(s, c, s.handlers[c].fd);
  }

  lemma CloseKeepsRegistered(s: State, c: nat)
    requires Ownership(s) && Registered(s) && Enabled(s, HClose(c))
    ensures Registered(Apply(s, HClose(c)))
  {
    assert Owns(s, c, s.handlers[c].fd);
    assert s.handlers[c].fd !in s.clientFds;
  }

  lemma OtherKeepsRegistered(s: State, step: Step)
    requires Accepted(s) && NotYetSpawned(s) && Registered(s) && Enabled(s, step)
    requires !step.HRequest? && !step.HRegister? && !step.HLoop? && !step.HErase? && !step.HClose? && !step.HDecrement? && !step.HNotify?
    ensures Registered(Apply(s, step))
  {
    hide Accepted, Without, WithoutAll;
    if step.ASpawn? { assert s.accepter.conn in Pending(s); }
  }

  lemma CountedMove(handlers: map<nat, Handler>, c: nat, h: Handler)
    ensures var before := if c in handlers && Counted(handlers[c].phase) then 1 else 0;
            |CountedIn(handlers[c := h])| == |CountedIn(handlers)| - before + (if Counted(h.phase) then 1 else 0)
  {
    var a, b := CountedIn(handlers), CountedIn(handlers[c := h]);
    assert b - {c} == a - {c};
    assert |a - {c}| == |a| - (if c in a then 1 else 0);
    assert |b - {c}| == |b| - (if c in b then 1 else 0);
  }

  lemma CoversStep(s: State, step: Step)
    requires Covers(s) && NotYetSpawned(s) && Enabled(s, step)
    ensures Covers(Apply(s, step))
  {
    hide CountedIn, Without, WithoutAll;
    match step
    case ASpawn =>
      assert s.accepter.conn in Pending(s);
      CountedMove(s.handlers, s.accepter.conn, Handler(s.accepter.fd, Reading));
    case HRequest(c, up) => CountedMove(s.handlers, c, s.handlers[c].(phase := if up then Registering else Closing));
    case HRegister(c) => CountedMove(s.handlers, c, s.handlers[c].(phase := Looping));
    case HLoop(c, _) => CountedMove(s.handlers, c, s.handlers[c].(phase := Erasing));
    case HErase(c) => CountedMove(s.handlers, c, s.handlers[c].(phase := Closing));
    case HClose(c) => CountedMove(s.handlers, c, s.handlers[c].(phase := Decrementing));
    case HDecrement(c) =>
      CountedMove(s.handlers, c, s.handlers[c].(phase := Gone));
      CountedMove(s.handlers, c, s.handlers[c].(phase := Notifying));
    case HNotify(c) => CountedMove(s.handlers, c, s.handlers[c].(phase := Gone));
    case _ =>
  }

  lemma ClosedOnceStep(s: State, step: Step)
    requires Ownership(s) && NotYetSpawned(s) && ClosedOnce(s) && Enabled(s, step)
    ensures ClosedOnce(Apply(s, step))
  {
    hide Apply, ClosedOnce, Ownership, SameHolders;
    if step.HClose? {
      CloseRecorded(s, step.c);
    } else {
      var t := Apply(s, step);
      NoCloseStep(s, step);
      SameCloses(s, t);
    }
  }

  predicate SameHolders(s: State, t: State) {
    && (forall c :: c in s.handlers ==> c in t.handlers && (Holds(t.handlers[c].phase) <==> Holds(s.handlers[c].phase)))
    && (forall c :: c in t.handlers && c !in s.handlers ==> Holds(t.handlers[c].phase))
  }

  lemma NoCloseStep(s: State, step: Step)
    requires NotYetSpawned(s) && Enabled(s, step) && !step.HClose?
    ensures var t := Apply(s, step); t.closes == s.closes && SameHolders(s, t)
  {
    hide Without, WithoutAll, CloseSocket, Move, SameHolders;
    var t := Apply(s, step);
    match step
    case HRequest(c, up) => MoveHolds(s, c, if up then Registering else Closing);
    case HRegister(c) => MoveHolds(s, c, Looping);
    case HLoop(c, _) =>
      MoveHolds(s, c, Erasing);
      HandlersHold(s, t);
    case HErase(c) => MoveHolds(s, c, Closing);
    case HDecrement(c) => MoveHolds(s, c, if s.active - 1 == 0 then Notifying else Gone);
    case HNotify(c) => MoveHolds(s, c, Gone);
    case ASpawn => SpawnHolds(s);
    case _ => HandlersHold(s, t);
  }

  lemma HandlersHold(s: State, t: State)
    ensures t.handlers == s.handlers ==> SameHolders(s, t)
  {
  }

  lemma MoveHolds(s: State, c: nat, phase: Phase)
    requires c in s.handlers && (Holds(s.handlers[c].phase) <==> Holds(phase))
    ensures Move(s, c, phase).closes == s.closes
    ensures forall t: State :: t.handlers == Move(s, c, phase).handlers ==> SameHolders(s, t)
  {
  }

  lemma SpawnHolds(s: State)
    requires NotYetSpawned(s) && Enabled(s, ASpawn)
    ensures SameHolders(s, Apply(s, ASpawn))
  {
    assert s.accepter.conn in Pending(s);
  }

  lemma SameCloses(s: State, t: State)
    requires ClosedOnce(s) && t.closes == s.closes && SameHolders(s, t)
    ensures ClosedOnce(t)
  {
  }

  lemma CloseRecorded(s: State, c: nat)
    requires Ownership(s) && ClosedOnce(s) && Enabled(s, HClose(c))
    ensures ClosedOnce(Apply(s, HClose(c)))
  {
    var t := Apply(s, HClose(c));
    var n := |s.closes|;
    assert Owns(s, c, s.handlers[c].fd);
    assert t.closes[n] == Close(c, Some(c));
    forall d | d in t.handlers && !Holds(t.handlers[d].phase)
      ensures exists i :: 0 <= i < |t.closes| && t.closes[i].caller == d
    {
      if d == c {
        assert t.closes[n].caller == d;
      } else {
        var i :| 0 <= i < n && s.closes[i].caller == d;
        assert t.closes[i].caller == d;
      }
    }
  }

  lemma ShutdownStep(s: State, step: Step)
    requires Shutdown(s) && Covers(s) && NotYetSpawned(s) && Enabled(s, step)
    ensures Shutdown(Apply(s, step))
  {
    hide Without, WithoutAll;
    if step.HDecrement? {
      assert step.c in CountedSet(s);
    }
  }

  lemma {:induction false} InvAlways(s: State, steps: seq<Step>)
    requires Inv(s) && Legal(s, steps)
    ensures Inv(After(s, steps))
    decreases |steps|
  {
    hide Ownership, Accepted, NotYetSpawned, Registered, Covers, ClosedOnce, Shutdown, Enabled, Apply;
    if steps != [] {
      OwnershipStep(s, steps[0]);
      AcceptedStep(s, steps[0]);
      RegisteredStep(s, steps[0]);
      CoversStep(s, steps[0]);
      ClosedOnceStep(s, steps[0]);
      ShutdownStep(s, steps[0]);
      InvAlways(Apply(s, steps[0]), steps[1..]);
    }
  }

  lemma InitInv()
    ensures Inv(INIT)
  {
  }

  /**
   * In every reachable state: a handler that still holds its descriptor holds an open one that stands
   * for its own connection; no close has hit another connection or a closed descriptor, and none
   * happened twice; the broadcast list has no duplicates and only open descriptors.
   */
  lemma OwnershipAlways(steps: seq<Step>)
    requires Legal(INIT, steps)
    ensures var s := After(INIT, steps);
            && (forall c :: c in s.handlers && Holds(s.handlers[c].phase) ==>
                  s.handlers[c].fd in s.open && s.open[s.handlers[c].fd] == c)
            && (forall i :: 0 <= i < |s.closes| ==> s.closes[i].what == Some(s.closes[i].caller))
            && (forall i, j :: 0 <= i < j < |s.closes| ==> s.closes[i].caller != s.closes[j].caller)
            && NoDuplicates(s.clientFds) && (forall fd :: fd in s.clientFds ==> fd in s.open)
            && |CountedSet(s)| <= s.active
  {
    InitInv();
    InvAlways(INIT, steps);
    var s := After(INIT, steps);
    forall c | c in s.handlers && Holds(s.handlers[c].phase)
      ensures s.handlers[c].fd in s.open && s.open[s.handlers[c].fd] == c
    {
      assert Owns(s, c, s.handlers[c].fd);
    }
  }

  /** Connection c has been closed by its own handler. */
  predicate WasClosed(s: State, c: nat) {
    exists i :: 0 <= i < |s.closes| && s.closes[i] == Close(c, Some(c))
  }

  /**
   * When the wait in stop() ends with the count at zero, every accepted connection has been closed, no
   * descriptor is open or listed, and no handler has more to do than to notify the condition variable.
   */
  lemma CleanStop(steps: seq<Step>)
    requires Legal(INIT, steps) && After(INIT, steps).stopper == Stopped(true)
    ensures var s := After(INIT, steps);
            && s.open == map[] && s.clientFds == []
            && (forall c: nat :: c < s.next ==> WasClosed(s, c))
            && (forall c :: c in s.handlers ==> s.handlers[c].phase.Notifying? || s.handlers[c].phase.Gone?)
  {
    InitInv();
    InvAlways(INIT, steps);
    var s := After(INIT, steps);
    assert CountedSet(s) == {};
    assert forall c :: c in s.handlers ==> c !in CountedSet(s);
    OpenIsCounted(s);
    ListedIsOpen(s);
    assert s.open == map[];
    forall c: nat | c < s.next
      ensures WasClosed(s, c)
    {
      ClosedAtTheEnd(s, c);
    }
  }

  lemma OpenIsCounted(s: State)
    requires Ownership(s) && s.accepter.AcceptDone?
    ensures forall fd :: fd in s.open ==> s.open[fd] in CountedSet(s)
  {
    forall fd | fd in s.open
      ensures s.open[fd] in CountedSet(s)
    {
      assert Owns(s, s.open[fd], fd);
    }
  }

  lemma ListedIsOpen(s: State)
    requires Registered(s)
    ensures s.clientFds != [] ==> s.clientFds[0] in s.open
  {
  }

  lemma ClosedAtTheEnd(s: State, c: nat)
    requires Accepted(s) && ClosedOnce(s) && s.accepter.AcceptDone? && CountedSet(s) == {} && c < s.next
    ensures WasClosed(s, c)
  {
    assert Pending(s) == {} && c in s.handlers;
    assert c !in CountedSet(s);
    var i :| 0 <= i < |s.closes| && s.closes[i].caller == c;
    assert s.closes[i] == Close(c, Some(c));
  }

  // The wait in stop(): clients_done_cv_ is notified without holding clients_done_mutex_.

  /** The count is zero and nobody is left who would still notify. */
  ghost predicate NobodyLeft(s: State) {
    s.active == 0 && forall c :: !At(s, c, Notifying)
  }

  /** The stopper is asleep with nobody to wake it. */
  ghost predicate Overslept(s: State) {
    s.stopper.Sleeping? && NobodyLeft(s)
  }

  predicate ByClock(step: Step) {
    step.STimeout? || step.SSpurious?
  }

  /** With the accept thread gone and the count at zero, no handler can change the count any more. */
  lemma CountStaysZero(s: State, step: Step)
    requires Covers(s) && NotYetSpawned(s) && s.accepter.AcceptDone? && s.active == 0 && Enabled(s, step)
    ensures var t := Apply(s, step);
            && t.active == 0 && t.accepter.AcceptDone?
            && forall c :: At(t, c, Notifying) <==> At(s, c, Notifying) && step != HNotify(c)
  {
    hide Without, WithoutAll, Covers, CountedIn;
    NoneCounted(s);
  }

  lemma NoneCounted(s: State)
    requires Covers(s) && s.accepter.AcceptDone? && s.active == 0
    ensures forall c :: c in s.handlers ==> !Counted(s.handlers[c].phase)
  {
    assert CountedSet(s) == {};
    assert forall c :: c in s.handlers ==> c !in CountedSet(s);
  }

  /** A step makes the stopper oversleep exactly when it is the one that falls asleep with nobody left. */
  lemma OversleepStep(s: State, step: Step)
    requires Inv(s) && Enabled(s, step)
    ensures Overslept(Apply(s, step)) <==>
            if Overslept(s) then !ByClock(step) else step.SSleep? && NobodyLeft(s)
  {
    hide Without, WithoutAll, Ownership, Accepted, Registered, ClosedOnce, CountedIn;
    if PastJoin(s.stopper) && s.active == 0 {
      CountStaysZero(s, step);
    } else if s.stopper.Sleeping? && step.HDecrement? {
      assert At(Apply(s, step), step.c, if s.active == 1 then Notifying else Gone);
    }
  }

  lemma LegalNil(s: State) returns (steps: seq<Step>)
    ensures Legal(s, steps) && After(s, steps) == s
  {
    steps := [];
  }

  lemma LegalCons(s: State, step: Step, rest: seq<Step>) returns (steps: seq<Step>)
    requires Enabled(s, step) && Legal(Apply(s, step), rest)
    ensures Legal(s, steps) && After(s, steps) == After(Apply(s, step), rest)
  {
    steps := [step] + rest;
    assert steps[1..] == rest;
  }

  lemma {:induction false} LegalInit(s: State, steps: seq<Step>)
    requires Legal(s, steps) && steps != []
    ensures var n := |steps| - 1;
            && Legal(s, steps[..n]) && Enabled(After(s, steps[..n]), steps[n])
            && After(s, steps) == Apply(After(s, steps[..n]), steps[n])
    decreases |steps|
  {
    hide Apply, Enabled;
    var n := |steps| - 1;
    if n > 0 {
      LegalInit(Apply(s, steps[0]), steps[1..]);
      assert steps[..n][0] == steps[0] && steps[..n][1..] == steps[1..][..n - 1];
    } else {
      assert steps[..n] == [] && steps[1..] == [];
    }
  }

  /** Step k of the run puts the stopper to sleep with nobody left, and no timeout or spurious wake-up follows. */
  ghost predicate SleepsForGood(steps: seq<Step>, k: nat)
    requires k < |steps|
  {
    && steps[k].SSleep?
    && Legal(INIT, steps[..k]) && NobodyLeft(After(INIT, steps[..k]))
    && forall j :: k < j < |steps| ==> !ByClock(steps[j])
  }

  /** In whole runs: the stopper oversleeps if and only if the last exit came before it fell asleep. */
  lemma {:induction false} OversleptExactly(steps: seq<Step>)
    requires Legal(INIT, steps)
    ensures Overslept(After(INIT, steps)) <==> exists k :: 0 <= k < |steps| && SleepsForGood(steps, k)
    decreases |steps|
  {
    hide Apply, Enabled, Inv, NobodyLeft, Overslept, SleepsForGood;
    if steps != [] {
      var n := |steps| - 1;
      var before, last := steps[..n], steps[n];
      LegalInit(INIT, steps);
      InitInv();
      InvAlways(INIT, before);
      OversleptExactly(before);
      OversleepStep(After(INIT, before), last);
      SleeperCannotSleep(After(INIT, before), last);
      forall k | 0 <= k < n
        ensures SleepsForGood(steps, k) <==> SleepsForGood(before, k) && !ByClock(last)
      {
        SleepsEarlier(steps, k);
      }
      SleepsLast(steps);
      if Overslept(After(INIT, before)) {
        var k :| 0 <= k < n && SleepsForGood(before, k);
        assert SleepsForGood(steps, k) <==> !ByClock(last);
      }
    } else {
      SleepingIsAState(INIT);
    }
  }

  lemma SleepingIsAState(s: State)
    ensures Overslept(s) ==> s.stopper.Sleeping?
  {
  }

  lemma SleepsEarlier(steps: seq<Step>, k: nat)
    requires k < |steps| - 1
    ensures SleepsForGood(steps, k) <==> SleepsForGood(steps[..|steps| - 1], k) && !ByClock(steps[|steps| - 1])
  {
    assert steps[..|steps| - 1][..k] == steps[..k];
  }

  lemma SleepsLast(steps: seq<Step>)
    requires steps != [] && Legal(INIT, steps) && Legal(INIT, steps[..|steps| - 1])
    ensures SleepsForGood(steps, |steps| - 1)
       <==> steps[|steps| - 1].SSleep? && NobodyLeft(After(INIT, steps[..|steps| - 1]))
  {
  }

  lemma SleeperCannotSleep(s: State, step: Step)
    requires Enabled(s, step)
    ensures Overslept(s) ==> !step.SSleep?
  {
  }

  /** Handler c has brought the count to zero: it is about to wake the stopper, or the stopper is up. */
  ghost predicate Awaited(s: State, c: nat) {
    && s.active == 0 && s.accepter.AcceptDone?
    && ((s.stopper.Sleeping? && At(s, c, Notifying)) || s.stopper.Rechecking? || s.stopper == Stopped(true))
  }

  lemma AwaitedStep(s: State, c: nat, step: Step)
    requires Inv(s) && Awaited(s, c) && Enabled(s, step)
    ensures Awaited(Apply(s, step), c)
    ensures step == HNotify(c) ==> !Apply(s, step).stopper.Sleeping?
  {
    hide Without, WithoutAll, Ownership, Accepted, Registered, ClosedOnce, CountedIn;
    CountStaysZero(s, step);
  }

  lemma {:induction false} AwaitedAlways(s: State, c: nat, steps: seq<Step>)
    requires Inv(s) && Awaited(s, c) && Legal(s, steps)
    ensures Awaited(After(s, steps), c)
    decreases |steps|
  {
    hide Inv, Awaited, Apply, Enabled;
    if steps != [] {
      AwaitedStep(s, c, steps[0]);
      assert Legal(s, [steps[0]]) && After(s, [steps[0]]) == Apply(s, steps[0]);
      InvAlways(s, [steps[0]]);
      AwaitedAlways(Apply(s, steps[0]), c, steps[1..]);
    }
  }

  /**
   * A last exit while the stopper sleeps is never missed: from then on, in every interleaving, the
   * stopper sleeps only while that handler is still to notify it, is awake, or has seen the zero.
   */
  lemma LastExitWakes(s: State, c: nat, steps: seq<Step>)
    requires Inv(s) && s.stopper.Sleeping? && At(s, c, Decrementing) && s.active == 1
    requires Legal(s, [HDecrement(c)] + steps)
    ensures var t := After(s, [HDecrement(c)] + steps);
            && t.active == 0
            && ((t.stopper.Sleeping? && Enabled(t, HNotify(c))) || t.stopper.Rechecking? || t.stopper == Stopped(true))
  {
    hide Inv, Legal, After;
    var run := [HDecrement(c)] + steps;
    LegalHead(s, run);
    assert run[1..] == steps;
    FirstDecrement(s, c);
    AwaitedAlways(Apply(s, run[0]), c, steps);
  }

  lemma LegalHead(s: State, run: seq<Step>)
    requires run != [] && Legal(s, run)
    ensures Enabled(s, run[0]) && Legal(Apply(s, run[0]), run[1..]) && After(s, run) == After(Apply(s, run[0]), run[1..])
  {
  }

  lemma FirstDecrement(s: State, c: nat)
    requires Inv(s) && s.stopper.Sleeping? && At(s, c, Decrementing) && s.active == 1
    ensures Awaited(Apply(s, HDecrement(c)), c) && Inv(Apply(s, HDecrement(c)))
  {
    hide Inv, Legal, After;
    var run := [HDecrement(c)];
    assert Legal(s, run) && After(s, run) == Apply(s, HDecrement(c)) by { OneStep(s, HDecrement(c)); }
    InvAlways(s, run);
    ShutdownFacts(s);
  }

  lemma ShutdownFacts(s: State)
    requires Inv(s) && PastJoin(s.stopper)
    ensures s.accepter.AcceptDone?
  {
  }

  lemma OneStep(s: State, step: Step)
    requires Enabled(s, step)
    ensures Legal(s, [step]) && After(s, [step]) == Apply(s, step)
  {
  }

  lemma OneHandler(a: Handler, b: Handler)
    ensures (map[0 := a])[0 := b] == map[0 := b]
  {
  }

  /** stop() is about to look at the count, and the last handler about to lower it. */
  const LAST_HANDLER: State :=
    State(false, map[], 1, map[0 := Handler(5, Decrementing)], [], 1, AcceptDone, FirstCheck, Idle, [Close(0, Some(0))])

  /** A run into that state, and on from there. */
  lemma ToLastHandler(rest: seq<Step>) returns (steps: seq<Step>)
    requires Legal(LAST_HANDLER, rest)
    ensures Legal(INIT, steps) && After(INIT, steps) == After(LAST_HANDLER, rest)
  {
    hide Legal, After, Without, WithoutAll;
    var s9 := LAST_HANDLER.(stopper := Clearing);
    var s8 := s9.(stopper := JoiningAccept);
    var s7 := s8.(accepter := Testing);
    var s6 := s7.(running := true, stopper := Running);
    steps := LegalCons(s9, SClear, rest);
    steps := LegalCons(s8, SJoin, steps);
    steps := LegalCons(s7, ATest, steps);
    steps := LegalCons(s6, SBegin, steps);
    steps := ToClosed(s6, steps);
  }

  lemma ToClosed(s6: State, rest: seq<Step>) returns (steps: seq<Step>)
    requires s6 == State(true, map[], 1, map[0 := Handler(5, Decrementing)], [], 1, Testing, Running, Idle, [Close(0, Some(0))])
    requires Legal(s6, rest)
    ensures Legal(INIT, steps) && After(INIT, steps) == After(s6, rest)
  {
    hide Legal, After, Without, WithoutAll;
    var s1 := INIT.(accepter := Accepting);
    var s2 := s1.(accepter := Counting(0, 5), open := map[5 := 0], next := 1);
    var s3 := s2.(accepter := Spawning(0, 5), active := 1);
    var s4 := s3.(accepter := Testing, handlers := map[0 := Handler(5, Reading)]);
    var s5 := s4.(handlers := map[0 := Handler(5, Closing)]);
    OneHandler(Handler(5, Reading), Handler(5, Closing));
    OneHandler(Handler(5, Closing), Handler(5, Decrementing));
    assert (map[])[5 := 0] == map[5 := 0] && s5.open - {5} == map[];
    assert (map[])[0 := Handler(5, Reading)] == map[0 := Handler(5, Reading)];
    assert s6 == Apply(s5, HClose(0));
    steps := LegalCons(s5, HClose(0), rest);
    steps := LegalCons(s4, HRequest(0, false), steps);
    steps := LegalCons(s3, ASpawn, steps);
    steps := LegalCons(s2, ACount, steps);
    steps := LegalCons(s1, AAccept(5), steps);
    steps := LegalCons(INIT, ATest, steps);
  }

  /** A connection that ends between the predicate's evaluation and the sleep is missed: only the timeout ends the wait. */
  lemma LastExitCanBeMissed()
    ensures exists steps :: Legal(INIT, steps) && Overslept(After(INIT, steps))
  {
    hide Legal, After;
    var s11 := LAST_HANDLER.(stopper := Committing);
    var s12 := s11.(handlers := map[0 := Handler(5, Notifying)], active := 0);
    var s13 := s12.(handlers := map[0 := Handler(5, Gone)]);
    OneHandler(Handler(5, Decrementing), Handler(5, Notifying));
    OneHandler(Handler(5, Notifying), Handler(5, Gone));
    var steps := LegalNil(s13.(stopper := Sleeping));
    steps := LegalCons(s13, SSleep, steps);
    steps := LegalCons(s12, HNotify(0), steps);
    steps := LegalCons(s11, HDecrement(0), steps);
    steps := LegalCons(LAST_HANDLER, SCheck, steps);
    steps := ToLastHandler(steps);
  }

  /** stop() can return having seen the zero while the last handler is still about to notify. */
  lemma HandlerCanOutliveStop()
    ensures exists steps, c :: Legal(INIT, steps) && After(INIT, steps).stopper == Stopped(true) && At(After(INIT, steps), c, Notifying)
  {
    hide Legal, After;
    var s11 := LAST_HANDLER.(handlers := map[0 := Handler(5, Notifying)], active := 0);
    OneHandler(Handler(5, Decrementing), Handler(5, Notifying));
    var steps := LegalNil(s11.(stopper := Stopped(true)));
    steps := LegalCons(s11, SCheck, steps);
    steps := LegalCons(LAST_HANDLER, HDecrement(0), steps);
    steps := ToLastHandler(steps);
    assert At(After(INIT, steps), 0, Notifying);
  }
}
