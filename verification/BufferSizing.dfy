/** How large the ring buffer must be: the comments of servertypes.hpp and the auto-sizing in main. */
module BufferSizing {
  import P = StorageProtocol

  const PUSH_SPACING: nat := 5  // milliseconds between packets at the assumed 200 Hz

  /** A step of the storage threads and the millisecond it happens in. */
  datatype Timed<T> = Timed(at: nat, step: P.Step<T>)

  /** The times the bounds refer to. */
  datatype Clock = Clock(nextPush: nat, lastDrain: nat, now: nat)

  const START: Clock := Clock(0, 0, 0)

  function Steps<T>(run: seq<Timed<T>>): seq<P.Step<T>> {
    if run == [] then [] else [run[0].step] + Steps(run[1..])
  }

  predicate Drains<T>(step: P.Step<T>) {
    step.WDrain? || step.SDrain?
  }

  /** Time never runs backwards, pushes keep their spacing and come at most gap after the last drain. */
  predicate Admissible<T>(c: Clock, e: Timed<T>, gap: nat) {
    c.now <= e.at && (e.step.Push? ==> c.nextPush <= e.at <= c.lastDrain + gap)
  }

  function Tick<T>(c: Clock, e: Timed<T>): Clock {
    Clock(if e.step.Push? then e.at + PUSH_SPACING else c.nextPush, if Drains(e.step) then e.at else c.lastDrain, e.at)
  }

  predicate Timely<T>(c: Clock, run: seq<Timed<T>>, gap: nat)
    decreases |run|
  {
    run == [] || (Admissible(c, run[0], gap) && Timely(Tick(c, run[0]), run[1..], gap))
  }

  /** No timely run of the storage threads, however they interleave, refuses a push. */
  ghost predicate NeverDrops<T(!new)>(capacity: nat, gap: nat) {
    forall run: seq<Timed<T>> :: P.Legal(P.Init(capacity), Steps(run)) && Timely(START, run, gap) ==>
      P.After(P.Init(capacity), Steps(run)).dropped == 0 && P.After(P.Init(capacity), Steps(run)).uncounted == 0
  }

  /** Since the last drain, time enough has passed for what is buffered. */
  predicate OnTime<T>(s: P.State<T>, c: Clock) {
    && s.dropped == 0 && s.uncounted == 0
    && |s.ring| <= s.capacity && c.lastDrain <= c.now
    && (s.ring != [] ==> c.nextPush >= c.lastDrain + PUSH_SPACING * |s.ring|)
  }

  lemma OnTimeStep<T>(s: P.State<T>, c: Clock, e: Timed<T>, gap: nat)
    requires gap < PUSH_SPACING * s.capacity
    requires OnTime(s, c) && P.Enabled(s, e.step) && Admissible(c, e, gap)
    ensures OnTime(P.Apply(s, e.step), Tick(c, e)) && P.Apply(s, e.step).capacity == s.capacity
  {
    if e.step.Push? { assert |s.ring| < s.capacity; }
  }

  /** In a timely run from any state that is on time, no push is ever refused. */
  lemma {:induction false} NoDropWhenTimely<T>(s: P.State<T>, c: Clock, run: seq<Timed<T>>, gap: nat)
    requires gap < PUSH_SPACING * s.capacity
    requires OnTime(s, c) && P.Legal(s, Steps(run)) && Timely(c, run, gap)
    ensures var t := P.After(s, Steps(run)); t.dropped == 0 && t.uncounted == 0
    decreases |run|
  {
    hide P.Apply, P.Enabled, Admissible, Tick;
    if run != [] {
      assert Steps(run)[1..] == Steps(run[1..]);
      OnTimeStep(s, c, run[0], gap);
      NoDropWhenTimely(P.Apply(s, run[0].step), Tick(c, run[0]), run[1..], gap);
    }
  }

  /** n pushes at the fastest rate, the first at time t. */
  function Burst<T>(p: T, t: nat, n: nat): (run: seq<Timed<T>>)
    decreases n
  {
    if n == 0 then [] else [Timed(t, P.Push(p))] + Burst(p, t + PUSH_SPACING, n - 1)
  }

  lemma {:induction false} BurstOverflows<T>(s: P.State<T>, c: Clock, p: T, n: nat, gap: nat)
    requires s.uncounted == 0 && !s.producersJoined && |s.ring| + n == s.capacity + 1 && |s.ring| <= s.capacity
    requires c.lastDrain == 0 && c.now <= c.nextPush == PUSH_SPACING * |s.ring| && PUSH_SPACING * s.capacity <= gap
    ensures var run := Burst(p, c.nextPush, n);
            P.Legal(s, Steps(run)) && Timely(c, run, gap) && P.After(s, Steps(run)).uncounted == 1
    decreases n
  {
    var run := Burst(p, c.nextPush, n);
    var e := Timed(c.nextPush, P.Push(p));
    var rest := Burst(p, c.nextPush + PUSH_SPACING, n - 1);
    assert run == [e] + rest && run[1..] == rest && Steps(run)[1..] == Steps(rest);
    var t := P.Apply(s, e.step);
    if n > 1 {
      BurstOverflows(t, Tick(c, e), p, n - 1, gap);
    } else {
      assert rest == [] && Steps(rest) == [] && Timely(Tick(c, e), rest, gap);
      assert P.Legal(t, []) && P.After(t, []) == t;
    }
  }

  /**
   * A buffer never drops a packet if and only if drains are less than 5 ms times its capacity apart.
   * At exactly that distance one more packet can arrive than fits.
   */
  lemma SafeGap<T(!new)>(capacity: nat, gap: nat, p: T)
    ensures NeverDrops<T>(capacity, gap) <==> gap < PUSH_SPACING * capacity
  {
    hide P.Legal, P.After, Timely;
    var start: P.State<T> := P.Init(capacity);
    if gap < PUSH_SPACING * capacity {
      forall run: seq<Timed<T>> | P.Legal(start, Steps(run)) && Timely(START, run, gap)
        ensures P.After(start, Steps(run)).dropped == 0 && P.After(start, Steps(run)).uncounted == 0
      {
        NoDropWhenTimely(start, START, run, gap);
      }
    } else {
      BurstOverflows(start, START, p, capacity + 1, gap);
    }
  }

  /** Step 5 of main: the capacity after auto-sizing for a flush interval in milliseconds. */
  function AutoCapacity(configured: nat, flushInterval: nat): nat {
    var wanted := (200.0 * flushInterval as real / 1000.0 * 2.0).Floor;
    var minBuf := if wanted < 64 then 64 else wanted;
    if configured < minBuf then minBuf else configured
  }

  /** Auto-sizing lets the writer be late by almost a whole extra interval. */
  lemma AutoCapacityTolerates<T(!new)>(configured: nat, flushInterval: nat, gap: nat, p: T)
    ensures AutoCapacity(configured, flushInterval) >= configured
    ensures PUSH_SPACING * AutoCapacity(configured, flushInterval) > 2 * flushInterval - PUSH_SPACING
    ensures gap + PUSH_SPACING <= 2 * flushInterval || gap < 320 ==> NeverDrops<T>(AutoCapacity(configured, flushInterval), gap)
  {
    var r := 200.0 * flushInterval as real / 1000.0 * 2.0;
    assert r == 0.4 * flushInterval as real;
    assert r < (r.Floor + 1) as real;
    SafeGap(AutoCapacity(configured, flushInterval), gap, p);
  }
}
