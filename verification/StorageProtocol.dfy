/**
 * The threads of server/src/storage/storage_manager.cpp as atomic steps: producers that push,
 * the writer in flush_loop, and the thread that calls stop().
 */
module StorageProtocol {

  datatype Writer<P> =
    | Testing                  // reading running_ at the head of the loop
    | Locking                  // about to take stop_mutex_
    | Checking                 // holds the mutex, about to evaluate the wait predicate
    | Committing               // the predicate was false: about to release the mutex and sleep
    | Sleeping                 // blocked on stop_cv_, mutex released
    | Waking(timedOut: bool)   // woken, about to take the mutex again
    | Unlocking                // the wait is over, mutex still held
    | Draining                 // flush_now, before drain_nowait
    | Writing(batch: seq<P>)   // flush_now, inside write_packets
    | Exited

  datatype Stopper<P> =
    | NotStopping
    | StopLocking              // running_ exchanged, about to take stop_mutex_
    | Notifying                // holds the mutex
    | StopUnlocking            // has notified, holds the mutex
    | Joining
    | FinalDraining
    | FinalWriting(last: seq<P>)
    | Stopped

  datatype Owner = Free | ByWriter | ByStopper

  datatype Entry<P> = Entry(batch: seq<P>, ok: bool)

  datatype State<P> = State(
    capacity: nat,
    running: bool,
    mutex: Owner,
    writer: Writer<P>,
    stopper: Stopper<P>,
    ring: seq<P>,
    producersJoined: bool,
    uncounted: nat,            // refused pushes whose ++dropped_packets_ is still to come
    dropped: nat,              // dropped_packets_
    written: nat,              // written_packets_
    // history
    pushes: nat,
    accepted: seq<P>,
    drained: seq<P>,
    log: seq<Entry<P>>)        // the finished calls of write_packets, in order

  function Init<P>(capacity: nat): State<P> {
    State(capacity, true, Free, Testing, NotStopping, [], false, 0, 0, 0, 0, [], [], [])
  }

  datatype Step<P> =
    | Push(p: P) | CountDrop | JoinProducers
    | WTest | WLock | WCheck | WSleep | WTimeout | WSpurious | WRelock | WUnlock | WDrain | WWrite(ok: bool)
    | SBegin | SLock | SNotify | SUnlock | SJoin | SDrain | SWrite(ok: bool)

  predicate Enabled<P>(s: State<P>, step: Step<P>) {
    match step
    case Push(_) => !s.producersJoined
    case CountDrop => s.uncounted > 0
    case JoinProducers => !s.producersJoined && s.uncounted == 0
    case WTest => s.writer.Testing?
    case WLock => s.writer.Locking? && s.mutex.Free?
    case WCheck => s.writer.Checking?
    case WSleep => s.writer.Committing?
    case WTimeout => s.writer.Sleeping?
    case WSpurious => s.writer.Sleeping?
    case WRelock => s.writer.Waking? && s.mutex.Free?
    case WUnlock => s.writer.Unlocking?
    case WDrain => s.writer.Draining?
    case WWrite(_) => s.writer.Writing?
    case SBegin => s.stopper.NotStopping? && s.running
    case SLock => s.stopper.StopLocking? && s.mutex.Free?
    case SNotify => s.stopper.Notifying?
    case SUnlock => s.stopper.StopUnlocking?
    case SJoin => s.stopper.Joining? && s.writer.Exited?
    case SDrain => s.stopper.FinalDraining?
    case SWrite(_) => s.stopper.FinalWriting?
  }

  /** write_packets returned: the batch is written or lost. */
  function Resolve<P>(s: State<P>, batch: seq<P>, ok: bool): State<P> {
    s.(log := s.log + [Entry(batch, ok)], written := if ok then s.written + |batch| else s.written)
  }

  function Drain<P>(s: State<P>): State<P> {
    s.(ring := [], drained := s.drained + s.ring)
  }

  function Apply<P>(s: State<P>, step: Step<P>): State<P>
    requires Enabled(s, step)
  {
    match step
    case Push(p) =>
      if |s.ring| < s.capacity
      then s.(pushes := s.pushes + 1, ring := s.ring + [p], accepted := s.accepted + [p])
      else s.(pushes := s.pushes + 1, uncounted := s.uncounted + 1)
    case CountDrop => s.(uncounted := s.uncounted - 1, dropped := s.dropped + 1)
    case JoinProducers => s.(producersJoined := true)
    case WTest => s.(writer := if s.running then Locking else Exited)
    case WLock => s.(writer := Checking, mutex := ByWriter)
    case WCheck => s.(writer := if s.running then Committing else Unlocking)
    case WSleep => s.(writer := Sleeping, mutex := Free)
    case WTimeout => s.(writer := Waking(true))
    case WSpurious => s.(writer := Waking(false))
    case WRelock => s.(writer := if s.writer.timedOut then Unlocking else Checking, mutex := ByWriter)
    case WUnlock => s.(writer := Draining, mutex := Free)
    case WDrain => Drain(s).(writer := if s.ring == [] then Testing else Writing(s.ring))
    case WWrite(ok) => Resolve(s, s.writer.batch, ok).(writer := Testing)
    case SBegin => s.(running := false, stopper := StopLocking)
    case SLock => s.(stopper := Notifying, mutex := ByStopper)
    case SNotify => s.(stopper := StopUnlocking, writer := if s.writer.Sleeping? then Waking(false) else s.writer)
    case SUnlock => s.(stopper := Joining, mutex := Free)
    case SJoin => s.(stopper := FinalDraining)
    case SDrain => Drain(s).(stopper := if s.ring == [] then Stopped else FinalWriting(s.ring))
    case SWrite(ok) => Resolve(s, s.stopper.last, ok).(stopper := Stopped)
  }

  predicate Legal<P>(s: State<P>, steps: seq<Step<P>>)
    decreases |steps|
  {
    steps == [] || (Enabled(s, steps[0]) && Legal(Apply(s, steps[0]), steps[1..]))
  }

  function After<P>(s: State<P>, steps: seq<Step<P>>): State<P>
    requires Legal(s, steps)
    decreases |steps|
  {
    if steps == [] then s else After(Apply(s, steps[0]), steps[1..])
  }

  // History in numbers.

  function Batches<P>(log: seq<Entry<P>>): seq<P> {
    if log == [] then [] else Batches(log[..|log| - 1]) + log[|log| - 1].batch
  }

  /** How many packets the calls of write_packets with this result were given. */
  function Total<P>(log: seq<Entry<P>>, ok: bool): nat {
    if log == [] then 0
    else Total(log[..|log| - 1], ok) + (if log[|log| - 1].ok == ok then |log[|log| - 1].batch| else 0)
  }

  function InFlight<P>(s: State<P>): seq<P> {
    if s.writer.Writing? then s.writer.batch else if s.stopper.FinalWriting? then s.stopper.last else []
  }

  // Invariants.

  predicate Notified<P>(s: State<P>) {
    !(s.stopper.NotStopping? || s.stopper.StopLocking? || s.stopper.Notifying?)
  }

  predicate WriterJoined<P>(s: State<P>) {
    s.stopper.FinalDraining? || s.stopper.FinalWriting? || s.stopper.Stopped?
  }

  predicate Control<P>(s: State<P>) {
    && (s.mutex == ByWriter <==> s.writer.Checking? || s.writer.Committing? || s.writer.Unlocking?)
    && (s.mutex == ByStopper <==> s.stopper.Notifying? || s.stopper.StopUnlocking?)
    && (s.running <==> s.stopper.NotStopping?)
    && (s.writer.Exited? ==> !s.running)
    && (WriterJoined(s) ==> s.writer.Exited?)
    && (s.producersJoined ==> s.uncounted == 0)
  }

  /** No lost wake-up: after the notification the writer is neither asleep nor going to sleep. */
  predicate Awake<P>(s: State<P>) {
    Notified(s) ==> !s.writer.Sleeping? && !s.writer.Committing?
  }

  ghost predicate Accounts<P>(s: State<P>) {
    && |s.ring| <= s.capacity
    && s.drained + s.ring == s.accepted
    && Batches(s.log) + InFlight(s) == s.drained
    && s.pushes == |s.accepted| + s.uncounted + s.dropped
    && s.written == Total(s.log, true)
  }

  ghost predicate Inv<P>(s: State<P>) {
    Control(s) && Awake(s) && Accounts(s)
  }

  lemma ControlStep<P>(s: State<P>, step: Step<P>)
    requires Control(s) && Awake(s) && Enabled(s, step)
    ensures Control(Apply(s, step)) && Awake(Apply(s, step))
  {
  }

  lemma AccountsStep<P>(s: State<P>, step: Step<P>)
    requires Control(s) && Accounts(s) && Enabled(s, step)
    ensures Accounts(Apply(s, step))
  {
    hide Batches, Total;
    match step
    case Push(p) => assert s.drained + (s.ring + [p]) == (s.drained + s.ring) + [p];
    case WWrite(ok) => LogGrows(s.log, Entry(s.writer.batch, ok));
    case SWrite(ok) => LogGrows(s.log, Entry(s.stopper.last, ok));
    case _ =>
  }

  lemma LogGrows<P>(log: seq<Entry<P>>, e: Entry<P>)
    ensures Batches(log + [e]) == Batches(log) + e.batch && Batches(log) + e.batch + [] == Batches(log) + e.batch
    ensures Total(log + [e], true) == Total(log, true) + (if e.ok then |e.batch| else 0)
  {
    assert (log + [e])[..|log|] == log;
  }

  lemma {:induction false} InvAlways<P>(s: State<P>, steps: seq<Step<P>>)
    requires Inv(s) && Legal(s, steps)
    ensures Inv(After(s, steps))
    decreases |steps|
  {
    if steps != [] {
      ControlStep(s, steps[0]);
      AccountsStep(s, steps[0]);
      InvAlways(Apply(s, steps[0]), steps[1..]);
    }
  }

  lemma {:induction false} TotalIsBatches<P>(log: seq<Entry<P>>)
    ensures Total(log, true) + Total(log, false) == |Batches(log)|
  {
    if log != [] { TotalIsBatches(log[..|log| - 1]); }
  }

  /**
   * In every reachable state each push is in exactly one place, the calls of write_packets have
   * received a prefix of the accepted packets in order, and a notified writer is awake.
   */
  lemma Conservation<P>(capacity: nat, steps: seq<Step<P>>)
    requires Legal(Init(capacity), steps)
    ensures var s := After(Init(capacity), steps);
            && s.pushes == s.dropped + s.uncounted + |s.ring| + |InFlight(s)| + s.written + Total(s.log, false)
            && Batches(s.log) <= Batches(s.log) + InFlight(s) <= s.accepted
            && s.accepted == Batches(s.log) + InFlight(s) + s.ring
            && |s.ring| <= capacity
            && (Notified(s) ==> !s.writer.Sleeping? && !s.writer.Committing?)
  {
    InvAlways(Init(capacity), steps);
    CapacityFixed(Init(capacity), steps);
    TotalIsBatches(After(Init(capacity), steps).log);
  }

  lemma {:induction false} CapacityFixed<P>(s: State<P>, steps: seq<Step<P>>)
    requires Legal(s, steps)
    ensures After(s, steps).capacity == s.capacity
    decreases |steps|
  {
    if steps != [] { CapacityFixed(Apply(s, steps[0]), steps[1..]); }
  }

  // The shutdown order of main: the transport thread is joined before stop() is called.

  predicate StopsAfterJoin<P>(s: State<P>, steps: seq<Step<P>>)
    requires Legal(s, steps)
    decreases |steps|
  {
    steps == [] || ((steps[0].SBegin? ==> s.producersJoined) && StopsAfterJoin(Apply(s, steps[0]), steps[1..]))
  }

  ghost predicate Ordered<P>(s: State<P>) {
    && (!s.stopper.NotStopping? ==> s.producersJoined)
    && (s.stopper.FinalWriting? || s.stopper.Stopped? ==> s.ring == [])
  }

  lemma {:induction false} OrderedAlways<P>(s: State<P>, steps: seq<Step<P>>)
    requires Inv(s) && Ordered(s) && Legal(s, steps) && StopsAfterJoin(s, steps)
    ensures Ordered(After(s, steps))
    decreases |steps|
  {
    if steps != [] {
      ControlStep(s, steps[0]);
      AccountsStep(s, steps[0]);
      assert Ordered(Apply(s, steps[0]));
      OrderedAlways(Apply(s, steps[0]), steps[1..]);
    }
  }

  /** After stop() every push was dropped, written or in a failed batch, and all accepted packets were handed over in order. */
  lemma NothingLeftBehind<P>(capacity: nat, steps: seq<Step<P>>)
    requires Legal(Init(capacity), steps) && StopsAfterJoin(Init(capacity), steps)
    requires After(Init(capacity), steps).stopper.Stopped?
    ensures var s := After(Init(capacity), steps);
            && s.ring == [] && InFlight(s) == [] && s.uncounted == 0
            && Batches(s.log) == s.accepted
            && s.pushes == s.dropped + s.written + Total(s.log, false)
            && |s.accepted| == s.written + Total(s.log, false)
  {
    InvAlways(Init(capacity), steps);
    OrderedAlways(Init(capacity), steps);
    TotalIsBatches(After(Init(capacity), steps).log);
  }

  /** Without that order it can fail: a push that comes after the final drain stays in the buffer. */
  lemma LatePushStays<P>(p: P)
    ensures exists steps: seq<Step<P>> ::
              && Legal(Init(1), steps)
              && After(Init(1), steps).stopper.Stopped?
              && After(Init(1), steps).ring == [p]
  {
    hide Legal, After;
    var s0: State<P> := Init(1);
    var s1 := s0.(running := false, stopper := StopLocking);
    var s2 := s1.(stopper := Notifying, mutex := ByStopper);
    var steps := NotifyThenPush(p);
    steps := LegalCons(s1, SLock, steps);
    steps := LegalCons(s0, SBegin, steps);
  }

  lemma NotifyThenPush<P>(p: P) returns (steps: seq<Step<P>>)
    ensures var s: State<P> := Init(1).(running := false, stopper := Notifying, mutex := ByStopper);
            Legal(s, steps) && After(s, steps).stopper.Stopped? && After(s, steps).ring == [p]
  {
    hide Legal, After;
    var s2: State<P> := Init(1).(running := false, stopper := Notifying, mutex := ByStopper);
    var s3 := s2.(stopper := StopUnlocking);
    steps := JoinThenPush(p);
    steps := LegalCons(s3, SUnlock, steps);
    steps := LegalCons(s2, SNotify, steps);
  }

  /** Once the final drain is done nobody takes packets out any more. */
  predicate Drained<P>(s: State<P>) {
    s.stopper.FinalWriting? || s.stopper.Stopped?
  }

  lemma DrainedStep<P>(s: State<P>, step: Step<P>) returns (late: seq<P>)
    requires Control(s) && Drained(s) && Enabled(s, step)
    ensures var t := Apply(s, step);
            Drained(t) && t.accepted == s.accepted + late && t.ring == s.ring + late
  {
    late := if step.Push? && |s.ring| < s.capacity then [step.p] else [];
    assert s.accepted + [] == s.accepted && s.ring + [] == s.ring;
  }

  /** Exactly the packets accepted after the final drain are left behind: none if and only if none came late. */
  lemma {:induction false} LateIsLeft<P>(s: State<P>, steps: seq<Step<P>>)
    requires Inv(s) && s.stopper.FinalDraining? && Legal(s, [SDrain] + steps)
    ensures var t := After(s, [SDrain] + steps);
            s.accepted <= t.accepted && t.ring == t.accepted[|s.accepted|..]
  {
    assert ([SDrain] + steps)[1..] == steps;
    ControlStep(s, SDrain);
    AccountsStep(s, SDrain);
    LateStays(Apply(s, SDrain), steps);
  }

  lemma {:induction false} LateStays<P>(s: State<P>, steps: seq<Step<P>>)
    requires Inv(s) && Drained(s) && Legal(s, steps)
    ensures var t := After(s, steps);
            s.accepted <= t.accepted && t.ring == s.ring + t.accepted[|s.accepted|..]
    decreases |steps|
  {
    hide Apply, Enabled, Control, Accounts, Awake, Drained;
    if steps != [] {
      ControlStep(s, steps[0]);
      AccountsStep(s, steps[0]);
      var late := DrainedStep(s, steps[0]);
      var u := Apply(s, steps[0]);
      LateStays(u, steps[1..]);
      LateJoined(s.accepted, late, s.ring, After(u, steps[1..]).accepted);
    } else {
      LateJoined(s.accepted, [], s.ring, s.accepted);
    }
  }

  lemma LateJoined<P>(before: seq<P>, late: seq<P>, ring: seq<P>, end: seq<P>)
    requires before + late <= end
    ensures before <= end && ring + late + end[|before + late|..] == ring + end[|before|..]
    ensures ring + [] == ring && end[|end|..] == []
  {
    assert end[|before|..] == late + end[|before + late|..];
  }

  lemma JoinThenPush<P>(p: P) returns (steps: seq<Step<P>>)
    ensures var s: State<P> := Init(1).(running := false, stopper := Joining);
            Legal(s, steps) && After(s, steps).stopper.Stopped? && After(s, steps).ring == [p]
  {
    hide Legal, After;
    var s4: State<P> := Init(1).(running := false, stopper := Joining);
    var s5 := s4.(writer := Exited);
    var s6 := s5.(stopper := FinalDraining);
    var s7 := s6.(stopper := Stopped);
    assert s6.drained + s6.ring == s7.drained && s7.ring + [p] == [p];
    steps := LegalNil(Apply(s7, Push(p)));
    steps := LegalCons(s7, Push(p), steps);
    steps := LegalCons(s6, SDrain, steps);
    steps := LegalCons(s5, SJoin, steps);
    steps := LegalCons(s4, WTest, steps);
  }

  lemma LegalNil<P>(s: State<P>) returns (steps: seq<Step<P>>)
    ensures Legal(s, steps) && After(s, steps) == s
  {
    steps := [];
  }

  lemma LegalCons<P>(s: State<P>, step: Step<P>, rest: seq<Step<P>>) returns (steps: seq<Step<P>>)
    requires Enabled(s, step) && Legal(Apply(s, step), rest)
    ensures Legal(s, steps) && After(s, steps) == After(Apply(s, step), rest)
  {
    steps := [step] + rest;
    assert steps[1..] == rest;
  }

  // Termination of stop().

  predicate ByProducer<P>(step: Step<P>) {
    step.Push? || step.CountDrop? || step.JoinProducers?
  }

  predicate ByClock<P>(step: Step<P>) {
    step.WTimeout? || step.WSpurious?
  }

  function WriterRank<P>(w: Writer<P>): nat {
    match w
    case Committing => 8
    case Sleeping => 7
    case Waking(_) => 6
    case Locking => 6
    case Checking => 5
    case Unlocking => 4
    case Draining => 3
    case Writing(_) => 2
    case Testing => 1
    case Exited => 0
  }

  function StopperRank<P>(t: Stopper<P>): nat {
    match t
    case NotStopping => 7
    case StopLocking => 6
    case Notifying => 5
    case StopUnlocking => 4
    case Joining => 3
    case FinalDraining => 2
    case FinalWriting(_) => 1
    case Stopped => 0
  }

  function Remaining<P>(s: State<P>): nat {
    WriterRank(s.writer) + StopperRank(s.stopper)
  }

  /** Once stop() has begun, every step of the writer or the stopper brings its end nearer; producers do not delay it. */
  lemma StopGetsNearer<P>(s: State<P>, step: Step<P>)
    requires Inv(s) && !s.running && Enabled(s, step)
    ensures if ByProducer(step) then Remaining(Apply(s, step)) == Remaining(s)
            else Remaining(Apply(s, step)) < Remaining(s)
    ensures Remaining(s) <= 14
  {
  }

  function OwnSteps<P>(steps: seq<Step<P>>): nat {
    if steps == [] then 0 else (if ByProducer(steps[0]) then 0 else 1) + OwnSteps(steps[1..])
  }

  /** So from there the writer and the stopper take at most fourteen steps between them, in every interleaving. */
  lemma {:induction false} StopIsBounded<P>(s: State<P>, steps: seq<Step<P>>)
    requires Inv(s) && !s.running && Legal(s, steps)
    ensures OwnSteps(steps) + Remaining(After(s, steps)) <= Remaining(s) <= 14
    decreases |steps|
  {
    if steps != [] {
      var t := Apply(s, steps[0]);
      ControlStep(s, steps[0]);
      AccountsStep(s, steps[0]);
      StopGetsNearer(s, steps[0]);
      StopIsBounded(t, steps[1..]);
    }
  }

  /** And some such step is always possible without any timeout or spurious wake-up. */
  lemma StopNeverStuck<P>(s: State<P>)
    requires Inv(s) && !s.running && !s.stopper.Stopped?
    ensures exists step: Step<P> :: Enabled(s, step) && !ByProducer(step) && !ByClock(step)
  {
    var step := Helpful(s);
    assert Enabled(s, step) && !ByProducer(step) && !ByClock(step);
  }

  ghost function Helpful<P>(s: State<P>): (step: Step<P>)
    requires Inv(s) && !s.running && !s.stopper.Stopped?
    ensures Enabled(s, step) && !ByProducer(step) && !ByClock(step)
  {
    if s.stopper.Notifying? then SNotify
    else if s.stopper.StopUnlocking? then SUnlock
    else if s.stopper.FinalDraining? then SDrain
    else if s.stopper.FinalWriting? then SWrite(true)
    else
      match s.writer
      case Testing => WTest
      case Locking => WLock
      case Checking => WCheck
      case Committing => WSleep
      case Sleeping => SLock
      case Waking(_) => WRelock
      case Unlocking => WUnlock
      case Draining => WDrain
      case Writing(_) => WWrite(true)
      case Exited => if s.stopper.StopLocking? then SLock else SJoin
  }
}
