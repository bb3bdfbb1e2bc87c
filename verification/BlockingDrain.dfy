/** The blocking drain() of server/include/ringbuffer/ringbuffer.hpp: any number of consumers, one condition variable. */
module BlockingDrain {

  /** waiting: asleep in cv_.wait; woken: notified or woken, about to take the mutex again. */
  datatype State = State(capacity: nat, count: nat, stopped: bool, waiting: set<nat>, woken: set<nat>)

  datatype Step =
    | PushNotify(target: nat)  // try_push with room, notify_one picks target
    | PushQuiet                // try_push with room and nobody waiting, or refused because full
    | Enter(c: nat)            // a consumer calls drain()
    | Resume(c: nat)           // a woken consumer re-checks the predicate under the mutex
    | Spurious(c: nat)
    | DrainNoWait
    | Stop

  predicate Ready(s: State) {
    s.count > 0 || s.stopped
  }

  predicate Enabled(s: State, step: Step) {
    match step
    case PushNotify(target) => s.count < s.capacity && target in s.waiting
    case PushQuiet => s.count == s.capacity || s.waiting == {}
    case Enter(c) => c !in s.waiting && c !in s.woken
    case Resume(c) => c in s.woken
    case Spurious(c) => c in s.waiting
    case DrainNoWait => true
    case Stop => true
  }

  function Apply(s: State, step: Step): State
    requires Enabled(s, step)
  {
    match step
    case PushNotify(t) => s.(count := s.count + 1, waiting := s.waiting - {t}, woken := s.woken + {t})
    case PushQuiet => if s.count == s.capacity then s else s.(count := s.count + 1)
    case Enter(c) => if Ready(s) then s.(count := 0) else s.(waiting := s.waiting + {c})
    case Resume(c) =>
      if Ready(s) then s.(count := 0, woken := s.woken - {c})
      else s.(waiting := s.waiting + {c}, woken := s.woken - {c})
    case Spurious(c) => s.(waiting := s.waiting - {c}, woken := s.woken + {c})
    case DrainNoWait => s.(count := 0)
    case Stop => s.(stopped := true, waiting := {}, woken := s.woken + s.waiting)
  }

  function Init(capacity: nat): State {
    State(capacity, 0, false, {}, {})
  }

  predicate Legal(s: State, steps: seq<Step>)
    decreases |steps|
  {
    steps == [] || (Enabled(s, steps[0]) && Legal(Apply(s, steps[0]), steps[1..]))
  }

  function After(s: State, steps: seq<Step>): State
    requires Legal(s, steps)
    decreases |steps|
  {
    if steps == [] then s else After(Apply(s, steps[0]), steps[1..])
  }

  predicate Inv(s: State) {
    && (s.count > 0 && s.waiting != {} ==> s.woken != {})
    && (s.stopped ==> s.waiting == {})
    && s.waiting !! s.woken
    && s.count <= s.capacity
  }

  lemma InitInv(capacity: nat)
    ensures Inv(Init(capacity))
  {
  }

  lemma {:induction false} InvAlways(s: State, steps: seq<Step>)
    requires Inv(s) && Legal(s, steps)
    ensures Inv(After(s, steps))
    decreases |steps|
  {
    if steps != [] {
      assert Inv(Apply(s, steps[0]));
      InvAlways(Apply(s, steps[0]), steps[1..]);
    }
  }

  /**
   * In no interleaving does a consumer sleep through items or a stop: whenever there is something to
   * return and a consumer is inside drain(), some consumer has been woken, and it would take everything.
   */
  lemma NoLostWakeup(capacity: nat, steps: seq<Step>)
    requires Legal(Init(capacity), steps)
    ensures var t := After(Init(capacity), steps);
            && t.count <= t.capacity
            && (Ready(t) && t.waiting + t.woken != {} ==>
                  exists c :: Enabled(t, Resume(c)) && Apply(t, Resume(c)).count == 0
                           && Apply(t, Resume(c)).waiting + Apply(t, Resume(c)).woken == t.waiting + t.woken - {c})
  {
    InitInv(capacity);
    InvAlways(Init(capacity), steps);
    var t := After(Init(capacity), steps);
    if Ready(t) && t.waiting + t.woken != {} {
      assert t.woken != {};
      var c :| c in t.woken;
      assert Enabled(t, Resume(c)) && Apply(t, Resume(c)).waiting + Apply(t, Resume(c)).woken == t.waiting + t.woken - {c};
    }
  }

  function Resumes(steps: seq<Step>): nat {
    if steps == [] then 0 else (if steps[0].Resume? then 1 else 0) + Resumes(steps[1..])
  }

  /** After stop() nobody waits any more: each consumer inside drain() leaves with its next step, and late ones do not enter. */
  lemma {:induction false} StopReleasesAll(s: State, steps: seq<Step>)
    requires Inv(s) && s.stopped && Legal(s, steps)
    ensures var t := After(s, steps);
            t.waiting == {} && t.woken <= s.woken && Resumes(steps) + |t.woken| == |s.woken|
    decreases |steps|
  {
    if steps != [] {
      assert Inv(Apply(s, steps[0]));
      StopReleasesAll(Apply(s, steps[0]), steps[1..]);
    }
  }
}
