/** server/src/misc/stats_analyzer.cpp: running statistics against the history they summarise. */
module Stats {
  import opened Bytes

  const UINT32_MODULUS: nat := 0x1_0000_0000
  const MAX_GAP: nat := 10000
  const NO_MINIMUM: int := 1_000_000_000_000_000_000
  const MINIMUM_BOUND: int := 100_000_000_000_000_000

  type uint32 = n: nat | n <= UINT32_MAX
  type uint64 = n: nat | n < UINT64_MODULUS

  datatype Sample = Sample(serverTime: uint64, packetTime: uint64, sequence: uint32) {
    function Latency(): int { serverTime - packetTime }
  }

  function Abs(x: int): nat { if x < 0 then -x else x }

  function Max(a: int, b: int): int { if a < b then b else a }

  function Min(a: int, b: int): int { if b < a then b else a }

  function Last(h: seq<Sample>): Sample
    requires h != []
  {
    h[|h| - 1]
  }

  function Init(h: seq<Sample>): seq<Sample>
    requires h != []
  {
    h[..|h| - 1]
  }

  /** The jitter of the newest sample: its distance in latency from the one before. */
  function Jitter(h: seq<Sample>): nat
    requires h != []
  {
    if |h| == 1 then 0 else Abs(Last(h).Latency() - Last(Init(h)).Latency())
  }

  function SumLatency(h: seq<Sample>): int {
    if h == [] then 0 else SumLatency(Init(h)) + Last(h).Latency()
  }

  function MinLatency(h: seq<Sample>): int {
    if h == [] then NO_MINIMUM else Min(MinLatency(Init(h)), Last(h).Latency())
  }

  function MaxLatency(h: seq<Sample>): int {
    if h == [] then 0 else Max(MaxLatency(Init(h)), Last(h).Latency())
  }

  function SumJitter(h: seq<Sample>): nat {
    if h == [] then 0 else SumJitter(Init(h)) + Jitter(h)
  }

  function MaxJitter(h: seq<Sample>): nat {
    if h == [] then 0 else Max(MaxJitter(Init(h)), Jitter(h))
  }

  function Latencies(h: seq<Sample>): (r: seq<int>)
    ensures |r| == |h|
  {
    if h == [] then [] else Latencies(Init(h)) + [Last(h).Latency()]
  }

  /** The newest latencies, at most size of them. */
  function Window(h: seq<Sample>, size: nat): seq<int> {
    var all := Latencies(h);
    if |all| <= size then all else all[|all| - size..]
  }

  // Loss.

  /** The source's 32-bit arithmetic between two consecutive sequence numbers. */
  function Gap(last: uint32, seqNo: uint32): (gap: uint32)
  {
    var expected := (last + 1) % UINT32_MODULUS;
    if seqNo == expected then 0
    else if seqNo > expected then seqNo - expected
    else (UINT32_MAX - expected + seqNo + 1) % UINT32_MODULUS
  }

  /** How many sequence numbers were skipped, going round at 2^32. */
  function Skipped(last: uint32, seqNo: uint32): uint32 {
    (seqNo - last - 1) % UINT32_MODULUS
  }

  /** Both branches compute the skipped count, and the sum in the second one does not wrap. */
  lemma GapIsSkipped(last: uint32, seqNo: uint32)
    ensures Gap(last, seqNo) == Skipped(last, seqNo)
    ensures var expected := (last + 1) % UINT32_MODULUS;
            seqNo < expected ==> UINT32_MAX - expected + seqNo + 1 < UINT32_MODULUS
  {
  }

  /** UINT32_MAX doubles as "no packet yet", so nothing is counted after it. */
  predicate Counted(last: uint32, seqNo: uint32) {
    last != UINT32_MAX && Gap(last, seqNo) < MAX_GAP
  }

  function Lost(h: seq<Sample>): nat {
    if |h| < 2 then 0
    else
      var last, now := Last(Init(h)).sequence, Last(h).sequence;
      Lost(Init(h)) + (if Counted(last, now) then Gap(last, now) else 0)
  }

  /** Sequence values from the first sample's to the newest one's, all the way round as often as needed. */
  function Span(h: seq<Sample>): nat {
    if h == [] then 0 else if |h| == 1 then 1
    else Span(Init(h)) + 1 + Skipped(Last(Init(h)).sequence, Last(h).sequence)
  }

  lemma {:induction false} SpanReachesLast(h: seq<Sample>)
    requires h != []
    ensures (h[0].sequence + Span(h) - 1) % UINT32_MODULUS == Last(h).sequence
  {
    if |h| > 1 {
      SpanReachesLast(Init(h));
      var last, now := Last(Init(h)).sequence, Last(h).sequence;
      AddMod(h[0].sequence + Span(Init(h)) - 1, last, now);
    }
  }

  lemma AddMod(a: nat, last: uint32, now: uint32)
    requires a % UINT32_MODULUS == last
    ensures (a + 1 + Skipped(last, now)) % UINT32_MODULUS == now
  {
    var q := a / UINT32_MODULUS;
    assert a == UINT32_MODULUS * q + last;
    if now > last {
      assert Skipped(last, now) == now - last - 1;
    } else {
      assert Skipped(last, now) == now - last - 1 + UINT32_MODULUS;
    }
  }

  predicate NoneMissed(h: seq<Sample>) {
    forall i :: 0 < i < |h| ==>
      Counted(h[i - 1].sequence, h[i].sequence) || Skipped(h[i - 1].sequence, h[i].sequence) == 0
  }

  /** Received and lost packets make up the whole span exactly when no gap went uncounted. */
  lemma {:induction false} LossConservation(h: seq<Sample>)
    requires h != []
    ensures |h| + Lost(h) <= Span(h)
    ensures |h| + Lost(h) == Span(h) <==> NoneMissed(h)
  {
    if |h| > 1 {
      LossConservation(Init(h));
      var last, now := Last(Init(h)).sequence, Last(h).sequence;
      GapIsSkipped(last, now);
      assert h[|h| - 2] == Last(Init(h));
      assert NoneMissed(h) <==> NoneMissed(Init(h)) && (Counted(last, now) || Skipped(last, now) == 0) by {
        assert forall i :: 0 <= i < |h| - 1 ==> h[i] == Init(h)[i];
        if NoneMissed(Init(h)) && (Counted(last, now) || Skipped(last, now) == 0) {
          forall i | 0 < i < |h|
            ensures Counted(h[i - 1].sequence, h[i].sequence) || Skipped(h[i - 1].sequence, h[i].sequence) == 0
          {
            if i < |h| - 1 { assert Init(h)[i] == h[i] && Init(h)[i - 1] == h[i - 1]; }
          }
        }
      }
    }
  }

  /** A packet seen twice in a row adds no loss. */
  lemma DuplicateLosesNothing(h: seq<Sample>, s: Sample)
    requires h != [] && s.sequence == Last(h).sequence
    ensures Lost(h + [s]) == Lost(h)
  {
    assert Init(h + [s]) == h;
    GapIsSkipped(s.sequence, s.sequence);
  }

  /** The client's counter, which goes round at 2^32, is never mistaken for a loss. */
  lemma {:induction false} CounterLosesNothing(h: seq<Sample>)
    requires h != [] && forall i :: 0 <= i < |h| ==> h[i].sequence == (h[0].sequence + i) % UINT32_MODULUS
    ensures Lost(h) == 0 && Span(h) == |h|
  {
    if |h| > 1 {
      CounterLosesNothing(Init(h));
      NextInLine(h[0].sequence + |h| - 2, Last(Init(h)).sequence, Last(h).sequence);
    }
  }

  lemma NextInLine(n: nat, last: uint32, now: uint32)
    requires last == n % UINT32_MODULUS && now == (n + 1) % UINT32_MODULUS
    ensures Gap(last, now) == Skipped(last, now) == 0
  {
    assert now == (last + 1) % UINT32_MODULUS;
    GapIsSkipped(last, now);
  }

  // Receive rate.

  datatype Rate = Rate(start: uint64, count: nat, hz: real)

  /** The rate window after a sample; elapsed time wraps like the uint64 it is. */
  function RateStep(r: Rate, now: uint64, interval: nat): Rate
    requires interval > 0
  {
    var start, count := if r.start == 0 then now else r.start, if r.start == 0 then 1 else r.count + 1;
    var elapsed := (now - start) % UINT64_MODULUS;
    if elapsed >= interval then
      Rate(now, 0, count as real / (elapsed as real / 1000.0))
    else Rate(start, count, r.hz)
  }

  function RateOf(h: seq<Sample>, interval: nat): Rate
    requires interval > 0
  {
    if h == [] then Rate(0, 0, 0.0) else RateStep(RateOf(Init(h), interval), Last(h).serverTime, interval)
  }

  lemma NoHistory(size: nat, interval: nat)
    requires interval > 0
    ensures SumLatency([]) == 0 && MinLatency([]) == NO_MINIMUM && MaxLatency([]) == 0
    ensures SumJitter([]) == 0 && MaxJitter([]) == 0 && Lost([]) == 0
    ensures Window([], size) == [] && RateOf([], interval) == Rate(0, 0, 0.0)
  {
  }

  lemma RateUnfolds(h: seq<Sample>, interval: nat)
    requires h != [] && interval > 0
    ensures RateOf(h, interval) == RateStep(RateOf(Init(h), interval), Last(h).serverTime, interval)
  {
  }

  /** Pushing the newest latency and dropping the oldest beyond the size moves the window along. */
  lemma WindowStep(h: seq<Sample>, s: Sample, size: nat)
    ensures var grown := Window(h, size) + [s.Latency()];
            Window(h + [s], size) == if |grown| > size then grown[1..] else grown
  {
    assert Init(h + [s]) == h;
  }

  datatype Snapshot = Snapshot(
    received: nat, lost: nat, avgLatency: real, minLatency: int, maxLatency: int,
    avgJitter: real, maxJitter: nat, lossRate: real, rxRate: real, lastSeq: uint32)

  /** What snapshot() reports for a history. */
  function Report(h: seq<Sample>, interval: nat): Snapshot
    requires interval > 0
  {
    var n, lost := |h|, Lost(h);
    Snapshot(
      n, lost,
      if n > 0 then SumLatency(h) as real / n as real else 0.0,
      if MinLatency(h) < MINIMUM_BOUND then MinLatency(h) else 0,
      MaxLatency(h),
      if n > 1 then SumJitter(h) as real / (n - 1) as real else 0.0,
      MaxJitter(h),
      if n + lost > 0 then 100.0 * lost as real / (n + lost) as real else 0.0,
      RateOf(h, interval).hz,
      if h == [] then UINT32_MAX else Last(h).sequence)
  }

  // What the reported figures mean.

  function TrueMax(h: seq<Sample>): int
    requires h != []
  {
    if |h| == 1 then h[0].Latency() else Max(TrueMax(Init(h)), Last(h).Latency())
  }

  predicate ClockInRange(h: seq<Sample>) {
    forall s :: s in h ==> s.serverTime < MINIMUM_BOUND
  }

  lemma MulGrows(n: nat, a: int, b: int)
    requires a <= b
    ensures n * a <= n * b
  {
  }

  /** Adding one term keeps a sum of n terms above n + 1 times a common lower bound. */
  lemma BelowStep(n: nat, prior: int, low: int, sum: int, next: int)
    requires n * prior <= sum && low <= prior && low <= next
    ensures (n + 1) * low <= sum + next
  {
    MulGrows(n, low, prior);
    assert (n + 1) * low == n * low + low;
  }

  lemma AboveStep(n: nat, prior: int, high: int, sum: int, next: int)
    requires sum <= n * prior && prior <= high && next <= high
    ensures sum + next <= (n + 1) * high
  {
    MulGrows(n, prior, high);
    assert (n + 1) * high == n * high + high;
  }

  lemma {:induction false} LatencyRange(h: seq<Sample>)
    requires h != [] && ClockInRange(h)
    ensures MinLatency(h) <= Last(h).Latency() <= TrueMax(h) && MinLatency(h) < MINIMUM_BOUND
    ensures MinLatency(h) <= h[0].Latency() <= TrueMax(h)
  {
    assert Last(h) in h;
    if |h| == 1 {
      assert MinLatency(Init(h)) == NO_MINIMUM;
    } else {
      LatencyRange(Init(h));
    }
  }

  lemma {:induction false} SumRange(h: seq<Sample>)
    requires h != [] && ClockInRange(h)
    ensures |h| * MinLatency(h) <= SumLatency(h) <= |h| * TrueMax(h)
  {
    LatencyRange(h);
    if |h| == 1 {
      assert SumLatency(Init(h)) == 0;
    } else {
      SumRange(Init(h));
      hide ClockInRange;
      BelowStep(|h| - 1, MinLatency(Init(h)), MinLatency(h), SumLatency(Init(h)), Last(h).Latency());
      AboveStep(|h| - 1, TrueMax(Init(h)), TrueMax(h), SumLatency(Init(h)), Last(h).Latency());
    }
  }

  /** Reported maximum: never below zero, because the running maximum starts there. */
  lemma {:induction false} MaxStartsAtZero(h: seq<Sample>)
    requires h != []
    ensures MaxLatency(h) == Max(0, TrueMax(h))
  {
    if |h| == 1 {
      assert MaxLatency(Init(h)) == 0;
    } else {
      MaxStartsAtZero(Init(h));
    }
  }

  lemma {:induction false} NoLatencyAboveTrueMax(h: seq<Sample>, i: nat)
    requires i < |h|
    ensures h[i].Latency() <= TrueMax(h)
    ensures exists k :: 0 <= k < |h| && h[k].Latency() == TrueMax(h)
  {
    if |h| > 1 {
      if i < |h| - 1 {
        NoLatencyAboveTrueMax(Init(h), i);
        assert Init(h)[i] == h[i];
      } else {
        NoLatencyAboveTrueMax(Init(h), 0);
      }
      if TrueMax(h) == TrueMax(Init(h)) {
        var k :| 0 <= k < |h| - 1 && Init(h)[k].Latency() == TrueMax(Init(h));
        assert h[k].Latency() == TrueMax(h);
      } else {
        assert h[|h| - 1].Latency() == TrueMax(h);
      }
    } else {
      assert h[0].Latency() == TrueMax(h);
    }
  }

  /** So it is the largest latency seen if and only if some latency was not negative. */
  lemma MaxReportedIsTrue(h: seq<Sample>)
    requires h != []
    ensures MaxLatency(h) == TrueMax(h) <==> exists s :: s in h && s.Latency() >= 0
  {
    MaxStartsAtZero(h);
    NoLatencyAboveTrueMax(h, 0);
    if s :| s in h && s.Latency() >= 0 {
      var i :| 0 <= i < |h| && h[i] == s;
      NoLatencyAboveTrueMax(h, i);
    } else {
      var k :| 0 <= k < |h| && h[k].Latency() == TrueMax(h);
      assert h[k] in h;
    }
  }

  lemma {:induction false} JitterRange(h: seq<Sample>)
    requires h != [] && ClockInRange(h)
    ensures MaxJitter(h) <= TrueMax(h) - MinLatency(h)
    ensures Abs(Last(h).Latency() - h[0].Latency()) <= SumJitter(h)
  {
    LatencyRange(h);
    if |h| == 1 {
      assert SumJitter(Init(h)) == 0 && MaxJitter(Init(h)) == 0;
    } else {
      JitterRange(Init(h));
      LatencyRange(Init(h));
    }
  }

  lemma {:induction false} JitterSum(h: seq<Sample>)
    requires h != []
    ensures SumJitter(h) <= (|h| - 1) * MaxJitter(h)
  {
    if |h| == 1 {
      assert SumJitter(Init(h)) == 0;
    } else {
      JitterSum(Init(h));
      AboveStep(|h| - 2, MaxJitter(Init(h)), MaxJitter(h), SumJitter(Init(h)), Jitter(h));
    }
  }

  lemma RealProduct(a: real, b: real, n: real)
    requires n > 0.0 && a * n <= b * n
    ensures a <= b
  {
  }

  lemma AverageBetween(sum: int, n: nat, low: int, high: int)
    requires n > 0 && n * low <= sum <= n * high
    ensures low as real <= sum as real / n as real <= high as real
  {
    var avg := sum as real / n as real;
    assert avg * n as real == sum as real;
    assert low as real * n as real == (n * low) as real;
    assert high as real * n as real == (n * high) as real;
    RealProduct(low as real, avg, n as real);
    RealProduct(avg, high as real, n as real);
  }

  /** The reported latencies and jitters are ordered as their names promise. */
  lemma ReportIsOrdered(h: seq<Sample>, interval: nat)
    requires h != [] && ClockInRange(h) && interval > 0
    ensures var r := Report(h, interval);
            && r.minLatency as real <= r.avgLatency <= r.maxLatency as real
            && r.avgJitter <= r.maxJitter as real
            && r.maxJitter <= r.maxLatency - r.minLatency
  {
    LatencyRange(h);
    SumRange(h);
    MaxStartsAtZero(h);
    JitterRange(h);
    JitterSum(h);
    MulGrows(|h|, TrueMax(h), MaxLatency(h));
    AverageBetween(SumLatency(h), |h|, MinLatency(h), MaxLatency(h));
    if |h| > 1 {
      AverageBetween(SumJitter(h), |h| - 1, 0, MaxJitter(h));
    }
  }

  class StatsAnalyzer {
    const historySize: nat
    const reportInterval: nat
    var latencyHistory: seq<int>
    var packetsReceived: nat
    var packetsLost: nat
    var lastSeq: uint32
    var firstPacket: bool
    var prevLatency: int
    var sumJitter: nat
    var maxJitter: nat
    var sumLatency: int
    var minLatency: int
    var maxLatency: int
    var rateWindowStart: uint64
    var rateWindowCount: nat
    var currentRate: real
    ghost var history: seq<Sample>

    ghost predicate Valid()
      reads this
    {
      && reportInterval > 0
      && ValidLatency(history) && ValidJitter(history)
      && latencyHistory == Window(history, historySize)
      && packetsReceived == |history| && packetsLost == Lost(history)
      && lastSeq == (if history == [] then UINT32_MAX else Last(history).sequence)
      && Rate(rateWindowStart, rateWindowCount, currentRate) == RateOf(history, reportInterval)
    }

    ghost predicate ValidLatency(h: seq<Sample>)
      reads this`sumLatency, this`minLatency, this`maxLatency
    {
      sumLatency == SumLatency(h) && minLatency == MinLatency(h) && maxLatency == MaxLatency(h)
    }

    ghost predicate ValidJitter(h: seq<Sample>)
      reads this`sumJitter, this`maxJitter, this`prevLatency, this`firstPacket
    {
      && sumJitter == SumJitter(h) && maxJitter == MaxJitter(h)
      && firstPacket == (h == [])
      && (h != [] ==> prevLatency == Last(h).Latency())
    }

    constructor (historySize: nat, reportInterval: nat)
      requires reportInterval > 0
      ensures Valid() && history == []
      ensures this.historySize == historySize && this.reportInterval == reportInterval
    {
      this.historySize, this.reportInterval := historySize, reportInterval;
      latencyHistory, packetsReceived, packetsLost, lastSeq := [], 0, 0, UINT32_MAX;
      firstPacket, prevLatency, sumJitter, maxJitter, sumLatency := true, 0, 0, 0, 0;
      minLatency, maxLatency := NO_MINIMUM, 0;
      rateWindowStart, rateWindowCount, currentRate := 0, 0, 0.0;
      history := [];
    }

    method Record(serverTime: uint64, packetTime: uint64, seqNo: uint32)
      requires Valid()
      modifies this
      ensures Valid() && history == old(history) + [Sample(serverTime, packetTime, seqNo)]
    {
      hide SumLatency, MinLatency, MaxLatency, SumJitter, MaxJitter, Window, RateOf, RateStep, Counted, Gap;
      hide ValidLatency, ValidJitter;
      ghost var h := history + [Sample(serverTime, packetTime, seqNo)];
      assert Init(h) == history;
      var latency: int := serverTime - packetTime;
      UpdateJitter(latency, h);
      UpdateLatency(latency, h);
      UpdateWindow(latency, h);
      UpdateSequence(seqNo, h);
      UpdateRate(serverTime, h);
      history := h;
    }

    method UpdateWindow(latency: int, ghost h: seq<Sample>)
      requires h != [] && latencyHistory == Window(Init(h), historySize) && latency == Last(h).Latency()
      modifies this`latencyHistory
      ensures latencyHistory == Window(h, historySize)
    {
      WindowStep(Init(h), Last(h), historySize);
      assert Init(h) + [Last(h)] == h;
      latencyHistory := latencyHistory + [latency];
      if |latencyHistory| > historySize { latencyHistory := latencyHistory[1..]; }
    }

    method UpdateSequence(seqNo: uint32, ghost h: seq<Sample>)
      requires h != [] && seqNo == Last(h).sequence
      requires packetsReceived == |Init(h)| && packetsLost == Lost(Init(h))
      requires lastSeq == (if Init(h) == [] then UINT32_MAX else Last(Init(h)).sequence)
      modifies this`packetsReceived, this`packetsLost, this`lastSeq
      ensures packetsReceived == |h| && packetsLost == Lost(h) && lastSeq == seqNo
    {
      hide Gap;
      packetsReceived := packetsReceived + 1;
      CountLoss(seqNo);
      lastSeq := seqNo;
    }

    method UpdateJitter(latency: int, ghost h: seq<Sample>)
      requires h != [] && ValidJitter(Init(h)) && latency == Last(h).Latency()
      modifies this`sumJitter, this`maxJitter, this`prevLatency, this`firstPacket
      ensures ValidJitter(h)
    {
      if !firstPacket {
        var jitter := Abs(latency - prevLatency);
        sumJitter := sumJitter + jitter;
        if jitter > maxJitter { maxJitter := jitter; }
      }
      prevLatency, firstPacket := latency, false;
    }

    method UpdateLatency(latency: int, ghost h: seq<Sample>)
      requires h != [] && ValidLatency(Init(h)) && latency == Last(h).Latency()
      modifies this`sumLatency, this`minLatency, this`maxLatency
      ensures ValidLatency(h)
    {
      sumLatency := sumLatency + latency;
      if latency < minLatency { minLatency := latency; }
      if latency > maxLatency { maxLatency := latency; }
    }

    method UpdateRate(now: uint64, ghost h: seq<Sample>)
      requires reportInterval > 0 && h != [] && now == Last(h).serverTime
      requires Rate(rateWindowStart, rateWindowCount, currentRate) == RateOf(Init(h), reportInterval)
      modifies this`rateWindowStart, this`rateWindowCount, this`currentRate
      ensures Rate(rateWindowStart, rateWindowCount, currentRate) == RateOf(h, reportInterval)
    {
      RateUnfolds(h, reportInterval);
      if rateWindowStart == 0 { rateWindowStart, rateWindowCount := now, 0; }
      rateWindowCount := rateWindowCount + 1;
      var elapsed := (now - rateWindowStart) % UINT64_MODULUS;
      if elapsed >= reportInterval {
        currentRate := rateWindowCount as real / (elapsed as real / 1000.0);
        rateWindowStart, rateWindowCount := now, 0;
      }
    }

    method CountLoss(seqNo: uint32)
      modifies this`packetsLost
      ensures packetsLost == old(packetsLost) + (if Counted(lastSeq, seqNo) then Gap(lastSeq, seqNo) else 0)
    {
      if lastSeq != UINT32_MAX {
        var expected := lastSeq + 1;
        if seqNo != expected {
          var gap := if seqNo > expected then seqNo - expected else (UINT32_MAX - expected + seqNo + 1) % UINT32_MODULUS;
          if gap < MAX_GAP { packetsLost := packetsLost + gap; }
        }
      }
    }

    method TakeSnapshot() returns (s: Snapshot)
      requires Valid()
      ensures s == Report(history, reportInterval)
    {
      var total := packetsReceived + packetsLost;
      var lossRate := if total > 0 then 100.0 * packetsLost as real / total as real else 0.0;
      var avgLatency, avgJitter := 0.0, 0.0;
      if packetsReceived > 0 { avgLatency := sumLatency as real / packetsReceived as real; }
      if packetsReceived > 1 { avgJitter := sumJitter as real / (packetsReceived - 1) as real; }
      s := Snapshot(packetsReceived, packetsLost, avgLatency,
                    if minLatency < MINIMUM_BOUND then minLatency else 0, maxLatency,
                    avgJitter, maxJitter, lossRate, currentRate, lastSeq);
    }

    method Reset()
      requires Valid()
      modifies this
      ensures Valid() && history == []
    {
      hide SumLatency, MinLatency, MaxLatency, SumJitter, MaxJitter, Window, RateOf, Lost;
      hide ValidLatency, ValidJitter;
      NoHistory(historySize, reportInterval);
      packetsReceived, packetsLost, lastSeq := 0, 0, UINT32_MAX;
      ResetLatencies();
      rateWindowStart, rateWindowCount, currentRate := 0, 0, 0.0;
      latencyHistory := [];
      history := [];
    }

    method ResetLatencies()
      modifies this`firstPacket, this`prevLatency, this`sumJitter, this`maxJitter, this`sumLatency, this`minLatency, this`maxLatency
      ensures ValidLatency([]) && ValidJitter([])
    {
      firstPacket, prevLatency := true, 0;
      sumJitter, maxJitter, sumLatency := 0, 0, 0;
      minLatency, maxLatency := NO_MINIMUM, 0;
    }
  }
}
