/** Sending on a data channel: the drop test of unreliable channels and the retry loop of
    reliable ones. What the transport does is an oracle: one `Attempt` per write, with the
    instant its rate sample is taken and the buffered amount read after it. */
module DataChannel {
  import opened Results
  import opened SendRate

  const WRITE_TIMEOUT: nat := 50 * MILLI

  /** 2 s and 1 ns: the longest pause between attempts that cannot empty the deque. */
  const LONGEST_PAUSE: nat := 2_000 * MILLI + 1

  const UNRELIABLE_TARGET_LATENCY_MS: nat := 100
  const UNRELIABLE_MIN_BUFFERED: nat := 2_000

  datatype Write = Written(bytes: usize) | TimedOut | Failed

  /** `buffered` is `None` when the buffered amount cannot be read. */
  datatype Attempt = Attempt(write: Write, buffered: Option<usize>, now: Instant)

  /** `Retrying` means that the oracle ended while the sender was still trying. */
  datatype Outcome = Sent | BufferTooFull | SlowReader | WriteTimeout | TransportError | Retrying

  /** The threshold below which a blocked reliable write is dropped: the high-water mark unless
      one is configured; a configured zero switches retrying off. */
  function SlowReaderThreshold(configured: Option<nat>, highThreshold: nat): Option<nat> {
    match configured
    case None => Some(highThreshold)
    case Some(bps) => if bps == 0 then None else Some(bps)
  }

  // ---------- What sending computes ----------

  function ShouldRetry(rate: Option<nat>, threshold: nat): bool {
    rate.Some? ==> rate.value >= threshold
  }

  /** One pass of the loop; the outcome `Retrying` asks for another. */
  function Try(s: Samples, unreliable: bool, threshold: Option<nat>, a: Attempt): (Samples, Outcome) {
    if a.buffered == None then (s, TransportError)
    else
      match a.write
      case Written(bytes) => (AfterSample(s, a.now, bytes, a.buffered.value), Sent)
      case Failed => (s, TransportError)
      case TimedOut =>
        if unreliable then (s, WriteTimeout)
        else
          var s' := AfterSample(s, a.now, 0, a.buffered.value);
          if threshold == None then (s', WriteTimeout)
          else (s', if ShouldRetry(BitrateBps(s', a.now), threshold.value) then Retrying else SlowReader)
  }

  /** The loop: final estimator, outcome, and number of attempts used. */
  function Loop(s: Samples, unreliable: bool, threshold: Option<nat>, attempts: seq<Attempt>)
    : (r: (Samples, Outcome, nat))
    ensures r.2 <= |attempts|
    decreases |attempts|
  {
    if attempts == [] then (s, Retrying, 0)
    else
      var (s', outcome) := Try(s, unreliable, threshold, attempts[0]);
      if outcome != Retrying then (s', outcome, 1)
      else
        var rest := Loop(s', unreliable, threshold, attempts[1..]);
        (rest.0, rest.1, rest.2 + 1)
  }

  /** The whole loop comes to what is left of it after `used` attempts. */
  ghost predicate Continues(all: (Samples, Outcome, nat), s: Samples, unreliable: bool, threshold: Option<nat>,
                            attempts: seq<Attempt>, used: nat)
    requires used <= |attempts|
  {
    var rest := Loop(s, unreliable, threshold, attempts[used..]);
    all == (rest.0, rest.1, rest.2 + used)
  }

  lemma {:induction false} ContinuesStep(all: (Samples, Outcome, nat), s: Samples, unreliable: bool,
                                         threshold: Option<nat>, attempts: seq<Attempt>, used: nat)
    requires used < |attempts| && Continues(all, s, unreliable, threshold, attempts, used)
    ensures var (s', outcome) := Try(s, unreliable, threshold, attempts[used]);
            if outcome == Retrying then Continues(all, s', unreliable, threshold, attempts, used + 1)
            else all == (s', outcome, used + 1)
  {
    assert attempts[used..][0] == attempts[used] && attempts[used..][1..] == attempts[used + 1..];
  }

  function DroppedUpFront(s: Samples, now: Instant, buffered: usize): bool {
    var rate := BitrateBps(s, now);
    rate.Some? && buffered > rate.value * UNRELIABLE_TARGET_LATENCY_MS / 8 / 1_000 && buffered > UNRELIABLE_MIN_BUFFERED
  }

  class Channel {
    const samples: SendRateSamples
    const highThreshold: nat
    const maxRetransmits: Option<nat>
    var configuredThreshold: Option<nat>
    var bufferedAmountHigh: bool

    constructor (now: Instant, highThreshold: nat, maxRetransmits: Option<nat>)
      ensures fresh(samples) && samples.View() == Fresh(now)
      ensures configuredThreshold == None && !bufferedAmountHigh
      ensures this.highThreshold == highThreshold && this.maxRetransmits == maxRetransmits
    {
      this.samples := new SendRateSamples(now);
      this.highThreshold, this.maxRetransmits := highThreshold, maxRetransmits;
      this.configuredThreshold, this.bufferedAmountHigh := None, false;
    }

    /** One write and what is made of its result. */
    method TryOnce(unreliable: bool, threshold: Option<nat>, attempt: Attempt) returns (outcome: Outcome)
      modifies this`bufferedAmountHigh, samples
      ensures (samples.View(), outcome) == Try(old(samples.View()), unreliable, threshold, attempt)
      ensures bufferedAmountHigh == if attempt.buffered.Some? then attempt.buffered.value >= highThreshold
                                    else old(bufferedAmountHigh)
    {
      if attempt.buffered == None {
        return TransportError;
      }
      var buffered := attempt.buffered.value;
      bufferedAmountHigh := buffered >= highThreshold;
      match attempt.write {
        case Written(bytes) =>
          samples.AddSample(attempt.now, bytes, buffered);
          return Sent;
        case Failed =>
          return TransportError;
        case TimedOut =>
          if unreliable {
            return WriteTimeout;
          }
          samples.AddSample(attempt.now, 0, buffered);
          if threshold == None {
            return WriteTimeout;
          }
          var bitrate := samples.CurrentBitrate(attempt.now);
          var shouldRetry := bitrate == None || bitrate.value >= threshold.value;
          outcome := if shouldRetry then Retrying else SlowReader;
      }
    }

    method RetryLoop(unreliable: bool, threshold: Option<nat>, attempts: seq<Attempt>)
      returns (outcome: Outcome, used: nat)
      modifies this`bufferedAmountHigh, samples
      ensures (samples.View(), outcome, used) == Loop(old(samples.View()), unreliable, threshold, attempts)
      ensures used > 0 && attempts[used - 1].buffered.Some? ==>
                bufferedAmountHigh == (attempts[used - 1].buffered.value >= highThreshold)
    {
      outcome, used := Retrying, 0;
      ghost var all := Loop(samples.View(), unreliable, threshold, attempts);
      assert attempts[0..] == attempts;
      while used < |attempts|
        invariant used <= |attempts|
        invariant Continues(all, samples.View(), unreliable, threshold, attempts, used)
        invariant used > 0 && attempts[used - 1].buffered.Some? ==>
                    bufferedAmountHigh == (attempts[used - 1].buffered.value >= highThreshold)
      {
        ContinuesStep(all, samples.View(), unreliable, threshold, attempts, used);
        outcome := TryOnce(unreliable, threshold, attempts[used]);
        used := used + 1;
        if outcome != Retrying {
          return;
        }
      }
      outcome := Retrying;
    }

    /** Sends one message; `opening` is the buffered amount read before the first write. */
    method SendBytes(now: Instant, opening: Option<usize>, attempts: seq<Attempt>) returns (outcome: Outcome, used: nat)
      modifies this`bufferedAmountHigh, samples
      ensures var unreliable := maxRetransmits == Some(0);
              var s := old(samples.View());
              var measured := unreliable && BitrateBps(s, now).Some?;
              (samples.View(), outcome, used)
              == if measured && opening == None then (s, TransportError, 0)
                 else if measured && DroppedUpFront(s, now, opening.value) then (s, BufferTooFull, 0)
                 else Loop(s, unreliable, SlowReaderThreshold(configuredThreshold, highThreshold), attempts)
    {
      var threshold := SlowReaderThreshold(configuredThreshold, highThreshold);
      var unreliable := maxRetransmits == Some(0);
      if unreliable {
        var bitrate := samples.CurrentBitrate(now);
        if bitrate.Some? {
          if opening == None {
            return TransportError, 0;
          }
          var limit := bitrate.value * UNRELIABLE_TARGET_LATENCY_MS / 8 / 1_000;
          if opening.value > limit && opening.value > UNRELIABLE_MIN_BUFFERED {
            return BufferTooFull, 0;
          }
        }
      }
      outcome, used := RetryLoop(unreliable, threshold, attempts);
    }
  }

  // ---------- A blocked reliable send gives up ----------

  ghost predicate Timeouts(attempts: seq<Attempt>) {
    forall i :: 0 <= i < |attempts| ==> attempts[i].write == TimedOut && attempts[i].buffered.Some?
  }

  /** Every write times out, the buffer does not drain from one attempt to the next, and no pause between
      attempts is longer than the longest. */
  ghost predicate Stalled(attempts: seq<Attempt>) {
    && Timeouts(attempts)
    && (forall i :: 0 < i < |attempts| ==>
          && attempts[i - 1].buffered.value <= attempts[i].buffered.value
          && attempts[i - 1].now <= attempts[i].now <= attempts[i - 1].now + LONGEST_PAUSE)
  }

  /** Besides, every write took its 50 ms to time out. */
  ghost predicate Blocked(attempts: seq<Attempt>) {
    && Stalled(attempts)
    && (forall i :: 0 < i < |attempts| ==> attempts[i - 1].now + WRITE_TIMEOUT <= attempts[i].now)
  }

  /** The estimator after the samples of `attempts`, all of zero bytes. */
  function Fed(s: Samples, attempts: seq<Attempt>): Samples
    requires forall i :: 0 <= i < |attempts| ==> attempts[i].buffered.Some?
  {
    if attempts == [] then s
    else
      var last := attempts[|attempts| - 1];
      AfterSample(Fed(s, attempts[..|attempts| - 1]), last.now, 0, last.buffered.value)
  }

  lemma {:induction false} FedFront(s: Samples, attempts: seq<Attempt>)
    requires attempts != [] && forall i :: 0 <= i < |attempts| ==> attempts[i].buffered.Some?
    ensures Fed(s, attempts) == Fed(AfterSample(s, attempts[0].now, 0, attempts[0].buffered.value), attempts[1..])
    decreases |attempts|
  {
    var n := |attempts|;
    if n > 1 {
      FedFront(s, attempts[..n - 1]);
      assert attempts[..n - 1][1..] == attempts[1..][..n - 2];
    }
  }

  /** One pass of the loop on a blocked attempt. */
  lemma {:induction false} BlockedPass(s: Samples, threshold: nat, attempts: seq<Attempt>)
    requires attempts != [] && attempts[0].write == TimedOut && attempts[0].buffered.Some?
    ensures var s' := AfterSample(s, attempts[0].now, 0, attempts[0].buffered.value);
            var rest := Loop(s', false, Some(threshold), attempts[1..]);
            Loop(s, false, Some(threshold), attempts)
            == if ShouldRetry(BitrateBps(s', attempts[0].now), threshold) then (rest.0, rest.1, rest.2 + 1)
               else (s', SlowReader, 1)
  {}

  /** If the rate measured at attempt `k` is below the threshold, the loop has dropped the
      message at attempt `k` or before. */
  lemma {:induction false} DropsBy(s: Samples, threshold: nat, attempts: seq<Attempt>, k: nat)
    requires k < |attempts| && Timeouts(attempts)
    requires !ShouldRetry(BitrateBps(Fed(s, attempts[..k + 1]), attempts[k].now), threshold)
    ensures var r := Loop(s, false, Some(threshold), attempts); r.1 == SlowReader && r.2 <= k + 1
    decreases k
  {
    FedFront(s, attempts[..k + 1]);
    BlockedPass(s, threshold, attempts);
    if k > 0 {
      var s' := AfterSample(s, attempts[0].now, 0, attempts[0].buffered.value);
      assert attempts[..k + 1][1..] == attempts[1..][..k];
      DropsBy(s', threshold, attempts[1..], k - 1);
    }
  }

  /** Bytes are only held by sub-windows that began by `t0`. */
  ghost predicate Drained(s: Samples, t0: Instant) {
    forall i :: 0 <= i < |Chain(s)| ==> Chain(s)[i].start <= t0 || Chain(s)[i].bytes == 0
  }

  lemma {:induction false} SumOfEmpty(ws: seq<Window>)
    requires forall i :: 0 <= i < |ws| ==> ws[i].bytes == 0
    ensures Sum(ws) == 0
  {
    if ws != [] {
      SumOfEmpty(ws[1..]);
    }
  }

  /** A zero-byte sample on a buffer that did not drain counts nothing. */
  lemma {:induction false} RetryChain(s: Samples, last: Instant, now: Instant, buffered: usize) returns (k: nat)
    requires Regular(s, last) && last <= now && s.lastBuffered <= buffered
    ensures var s' := AfterSample(s, now, 0, buffered);
            && k <= |Chain(s)| && s'.lastBuffered == buffered
            && (Chain(s') == Chain(s) || Chain(s') == Chain(s)[k..] + [Window(now, 0)])
  {
    k := 0;
    if Since(now, s.active.start) >= MIN_WINDOW {
      k := ExpireDropsPrefix(Chain(s), s.bytesTotal, now);
    }
  }

  /** After the sample of a blocked attempt at `now`, with the first one at `t0`. */
  ghost predicate Stuck(s: Samples, t0: Instant, now: Instant, buffered: usize) {
    Regular(s, now) && Drained(s, t0) && s.lastBuffered == buffered
  }

  lemma {:induction false} RetryKeepsDrained(s: Samples, t0: Instant, last: Instant, now: Instant, buffered: usize)
    requires Regular(s, last) && Drained(s, t0) && last <= now && s.lastBuffered <= buffered
    ensures Stuck(AfterSample(s, now, 0, buffered), t0, now, buffered)
  {
    AddSampleRegular(s, last, now, 0, buffered);
    var k := RetryChain(s, last, now, buffered);
  }

  lemma {:induction false} FirstIsDrained(s: Samples, previous: Instant, t0: Instant, buffered: usize)
    requires s.initialized ==> Regular(s, previous) && previous <= t0
    ensures Stuck(AfterSample(s, t0, 0, buffered), t0, t0, buffered)
  {
    AddSampleRegular(s, previous, t0, 0, buffered);
    var s' := AfterSample(s, t0, 0, buffered);
    forall i | 0 <= i < |Chain(s')| ensures Chain(s')[i].start <= t0 {
      SpacedOrder(Chain(s'), i, |s'.windows|);
    }
  }

  /** A rollover within 2.1 s of the sub-window it closes keeps that sub-window. */
  lemma {:induction false} RollOverKeepsClosed(s: Samples, last: Instant, now: Instant, buffered: usize)
    requires Regular(s, last)
    requires last <= now <= last + LONGEST_PAUSE
    requires Since(now, s.active.start) >= MIN_WINDOW
    ensures var s' := AfterSample(s, now, 0, buffered);
            && s'.start + MIN_WINDOW <= now
            && s'.windows != [] && now - s'.start <= HORIZON
  {
    var s' := AfterSample(s, now, 0, buffered);
    var k := ExpireDropsPrefix(Chain(s), s.bytesTotal, now);
    assert s'.windows == Chain(s)[k..];
    assert Chain(s)[|s.windows|] == s.active;
    SpacedOrder(Chain(s), if k < |Chain(s)| then k else 0, |s.windows|);
  }

  lemma {:induction false} NothingCounted(s: Samples, t0: Instant, now: Instant)
    requires Regular(s, now) && Drained(s, t0)
    requires s.start > t0
    ensures s.bytesTotal == 0
  {
    forall i | 0 <= i < |Chain(s)| ensures Chain(s)[i].bytes == 0 {
      SpacedOrder(Chain(s), 0, i);
    }
    SumOfEmpty(Chain(s));
  }

  lemma {:induction false} ZeroRate(s: Samples, now: Instant)
    requires s.initialized && s.bytesTotal == 0 && s.start + MIN_WINDOW <= now
    ensures BitrateBps(s, now) == Some(0)
  {}

  /** A rollover more than 2.1 s after `t0` leaves no byte counted, yet keeps a sub-window, so a
      rate is measured and it is zero. */
  lemma {:induction false} LateRollOverMeasuresZero(s: Samples, t0: Instant, last: Instant, now: Instant,
                                                    buffered: usize)
    requires Regular(s, last) && Drained(s, t0) && s.lastBuffered <= buffered
    requires last <= now <= last + LONGEST_PAUSE
    requires Since(now, s.active.start) >= MIN_WINDOW
    requires now > t0 + HORIZON
    ensures BitrateBps(AfterSample(s, now, 0, buffered), now) == Some(0)
  {
    RollOverKeepsClosed(s, last, now, buffered);
    RetryKeepsDrained(s, t0, last, now, buffered);
    NothingCounted(AfterSample(s, now, 0, buffered), t0, now);
    ZeroRate(AfterSample(s, now, 0, buffered), now);
  }

  lemma {:induction false} FedLast(s: Samples, attempts: seq<Attempt>, k: nat)
    requires k < |attempts| && Timeouts(attempts)
    ensures Fed(s, attempts[..k + 1])
         == AfterSample(Fed(s, attempts[..k]), attempts[k].now, 0, attempts[k].buffered.value)
  {
    assert attempts[..k + 1][..k] == attempts[..k];
  }

  lemma {:induction false} BlockedSpan(attempts: seq<Attempt>, k: nat)
    requires k < |attempts| && Blocked(attempts)
    ensures attempts[0].now + k * WRITE_TIMEOUT <= attempts[k].now
  {
    if k > 0 {
      BlockedSpan(attempts, k - 1);
    }
  }

  lemma {:induction false} StalledAgain(s: Samples, attempts: seq<Attempt>, k: nat)
    requires 0 < k < |attempts| && Stalled(attempts)
    requires Stuck(Fed(s, attempts[..k]), attempts[0].now, attempts[k - 1].now, attempts[k - 1].buffered.value)
    ensures Stuck(Fed(s, attempts[..k + 1]), attempts[0].now, attempts[k].now, attempts[k].buffered.value)
  {
    FedLast(s, attempts, k);
    RetryKeepsDrained(Fed(s, attempts[..k]), attempts[0].now, attempts[k - 1].now, attempts[k].now,
                      attempts[k].buffered.value);
  }

  /** The state after `k + 1` stalled attempts on an estimator that was regular (or unused). */
  lemma {:induction false} StalledState(s: Samples, previous: Instant, attempts: seq<Attempt>, k: nat)
    requires k < |attempts| && Stalled(attempts)
    requires s.initialized ==> Regular(s, previous) && previous <= attempts[0].now
    ensures Stuck(Fed(s, attempts[..k + 1]), attempts[0].now, attempts[k].now, attempts[k].buffered.value)
  {
    if k == 0 {
      FedLast(s, attempts, 0);
      FirstIsDrained(s, previous, attempts[0].now, attempts[0].buffered.value);
    } else {
      StalledState(s, previous, attempts, k - 1);
      StalledAgain(s, attempts, k);
    }
  }

  /** An attempt more than 2.1 s after the first that closes a sub-window ends the send. */
  lemma {:induction false} LateRollOverDrops(s: Samples, previous: Instant, threshold: nat, attempts: seq<Attempt>,
                                             k: nat)
    requires threshold > 0 && 0 < k < |attempts| && Stalled(attempts)
    requires s.initialized ==> Regular(s, previous) && previous <= attempts[0].now
    requires attempts[k].now > attempts[0].now + HORIZON
    requires Since(attempts[k].now, Fed(s, attempts[..k]).active.start) >= MIN_WINDOW
    ensures var r := Loop(s, false, Some(threshold), attempts); r.1 == SlowReader && r.2 <= k + 1
  {
    StalledState(s, previous, attempts, k - 1);
    FedLast(s, attempts, k);
    LateRollOverMeasuresZero(Fed(s, attempts[..k]), attempts[0].now, attempts[k - 1].now,
                             attempts[k].now, attempts[k].buffered.value);
    DropsBy(s, threshold, attempts, k);
  }

  /** A sample that closes no sub-window leaves the active one; one that does begins a new one. */
  lemma {:induction false} ActiveStart(s: Samples, last: Instant, now: Instant, buffered: usize)
    requires Regular(s, last) && last <= now
    ensures AfterSample(s, now, 0, buffered).active.start
         == if Since(now, s.active.start) >= MIN_WINDOW then now else s.active.start
  {}

  /** If the active sub-window began more than 2.1 s after the first attempt, the attempt that began it, or an
      earlier one, ended the send. */
  lemma {:induction false} LateWindowDrops(s: Samples, previous: Instant, threshold: nat, attempts: seq<Attempt>,
                                           k: nat)
    requires threshold > 0 && k < |attempts| && Stalled(attempts)
    requires s.initialized ==> Regular(s, previous) && previous <= attempts[0].now
    requires Fed(s, attempts[..k + 1]).active.start > attempts[0].now + HORIZON
    ensures var r := Loop(s, false, Some(threshold), attempts); r.1 == SlowReader && r.2 <= k + 1
  {
    StalledState(s, previous, attempts, k);
    if k > 0 {
      StalledState(s, previous, attempts, k - 1);
      FedLast(s, attempts, k);
      ActiveStart(Fed(s, attempts[..k]), attempts[k - 1].now, attempts[k].now, attempts[k].buffered.value);
      if Since(attempts[k].now, Fed(s, attempts[..k]).active.start) >= MIN_WINDOW {
        LateRollOverDrops(s, previous, threshold, attempts, k);
      } else {
        LateWindowDrops(s, previous, threshold, attempts, k - 1);
      }
    }
  }

  /** After any earlier history with a non-decreasing clock, a stalled reliable send with a nonzero threshold is
      dropped by the first attempt 2.2 s after its first one, however close together the attempts are. */
  lemma {:induction false} StalledSendGivesUpInTime(inputs: seq<Sample>, threshold: nat, attempts: seq<Attempt>, n: nat)
    requires threshold > 0 && Ordered(inputs) && Stalled(attempts) && n < |attempts|
    requires inputs != [] ==> inputs[|inputs| - 1].now <= attempts[0].now
    requires attempts[n].now >= attempts[0].now + HORIZON + MIN_WINDOW
    ensures var r := Loop(Replay(inputs), false, Some(threshold), attempts); r.1 == SlowReader && r.2 <= n + 1
  {
    var s := Replay(inputs);
    var previous := if inputs == [] then 0 else inputs[|inputs| - 1].now;
    if inputs != [] {
      RunIsRegular(inputs);
    }
    StalledState(s, previous, attempts, n);
    LateWindowDrops(s, previous, threshold, attempts, n);
  }

  /** So a blocked one, whose attempts take 50 ms each, is dropped within 45 attempts. */
  lemma {:induction false} BlockedSendGivesUp(inputs: seq<Sample>, threshold: nat, attempts: seq<Attempt>)
    requires threshold > 0
    requires Ordered(inputs) && Blocked(attempts) && |attempts| >= 45
    requires inputs != [] ==> inputs[|inputs| - 1].now <= attempts[0].now
    ensures var r := Loop(Replay(inputs), false, Some(threshold), attempts); r.1 == SlowReader && r.2 <= 45
  {
    BlockedSpan(attempts, 44);
    StalledSendGivesUpInTime(inputs, threshold, attempts, 44);
  }

  // ---------- The conditions of that bound are needed ----------

  /** The rate measured at attempt `k`, if any, is not below the threshold. */
  ghost predicate RetriedAt(s: Samples, threshold: nat, attempts: seq<Attempt>, k: nat)
    requires k < |attempts| && Timeouts(attempts)
  {
    ShouldRetry(BitrateBps(Fed(s, attempts[..k + 1]), attempts[k].now), threshold)
  }

  lemma {:induction false} RetriedShift(s: Samples, threshold: nat, attempts: seq<Attempt>, k: nat)
    requires k + 1 < |attempts| && Timeouts(attempts)
    ensures RetriedAt(s, threshold, attempts, k + 1)
       <==> RetriedAt(AfterSample(s, attempts[0].now, 0, attempts[0].buffered.value), threshold, attempts[1..], k)
  {
    FedFront(s, attempts[..k + 2]);
    assert attempts[..k + 2][1..] == attempts[1..][..k + 1];
  }

  lemma {:induction false} KeepsRetrying(s: Samples, threshold: nat, attempts: seq<Attempt>)
    requires Timeouts(attempts)
    requires forall k: nat :: k < |attempts| ==> RetriedAt(s, threshold, attempts, k)
    ensures var r := Loop(s, false, Some(threshold), attempts); r.1 == Retrying && r.2 == |attempts|
    decreases |attempts|
  {
    if attempts != [] {
      var s' := AfterSample(s, attempts[0].now, 0, attempts[0].buffered.value);
      forall k: nat | k < |attempts[1..]| ensures RetriedAt(s', threshold, attempts[1..], k) {
        RetriedShift(s, threshold, attempts, k);
      }
      assert RetriedAt(s, threshold, attempts, 0);
      FedFront(s, attempts[..1]);
      assert attempts[..1][1..] == [];
      BlockedPass(s, threshold, attempts);
      KeepsRetrying(s', threshold, attempts[1..]);
    }
  }

  /** With a threshold of zero (an unconfigured channel whose high-water mark is zero) a send is retried for
      as long as its writes time out. */
  lemma {:induction false} ZeroThresholdNeverGivesUp(s: Samples, attempts: seq<Attempt>)
    requires Timeouts(attempts)
    ensures SlowReaderThreshold(None, 0) == Some(0)
    ensures var r := Loop(s, false, Some(0), attempts); r.1 == Retrying && r.2 == |attempts|
  {
    KeepsRetrying(s, 0, attempts);
  }

  /** Attempts in rounds of two: the second of a round comes too early to close the sub-window of the first,
      and the next round comes so late that this sub-window expires as soon as it is closed. */
  ghost predicate Straggling(attempts: seq<Attempt>) {
    && Timeouts(attempts)
    && (forall i :: 0 < i < |attempts| && i % 2 == 1 ==>
          attempts[i - 1].now <= attempts[i].now < attempts[i - 1].now + MIN_WINDOW)
    && (forall i :: 1 < i < |attempts| && i % 2 == 0 ==> attempts[i - 2].now + HORIZON < attempts[i].now)
  }

  /** Nothing but the active sub-window is left. */
  ghost predicate Alone(s: Samples, start: Instant) {
    s.initialized && s.windows == [] && s.start == s.active.start == start
  }

  /** A sample that comes more than 2.1 s after the active sub-window began empties the deque. */
  lemma {:induction false} LateSampleLeavesAlone(s: Samples, last: Instant, now: Instant, buffered: usize)
    requires s.initialized ==> Regular(s, last) && s.active.start + HORIZON < now
    ensures Alone(AfterSample(s, now, 0, buffered), now)
  {
    if s.initialized {
      var k := ExpireDropsPrefix(Chain(s), s.bytesTotal, now);
      if k < |Chain(s)| {
        SpacedOrder(Chain(s), k, |s.windows|);
      }
    }
  }

  /** The instant at which the round of attempt `k` began. */
  function RoundStart(attempts: seq<Attempt>, k: nat): Instant
    requires k < |attempts|
  {
    attempts[k - k % 2].now
  }

  /** A sample within 100 ms of the active sub-window's start joins it. */
  lemma {:induction false} EarlySampleStaysAlone(s: Samples, start: Instant, now: Instant, buffered: usize)
    requires Alone(s, start) && start <= now < start + MIN_WINDOW
    ensures Alone(AfterSample(s, now, 0, buffered), start)
  {}

  /** The state within a round that began at `start`, after a sample at `now`. */
  ghost predicate InRound(s: Samples, start: Instant, now: Instant) { Alone(s, start) && Regular(s, now) }

  lemma {:induction false} RoundBegins(s: Samples, last: Instant, now: Instant, buffered: usize)
    requires s.initialized ==> Regular(s, last) && last <= now && s.active.start + HORIZON < now
    ensures InRound(AfterSample(s, now, 0, buffered), now, now)
  {
    LateSampleLeavesAlone(s, last, now, buffered);
    AddSampleRegular(s, last, now, 0, buffered);
  }

  lemma {:induction false} RoundEnds(s: Samples, start: Instant, now: Instant, buffered: usize)
    requires InRound(s, start, start) && start <= now < start + MIN_WINDOW
    ensures InRound(AfterSample(s, now, 0, buffered), start, now)
  {
    EarlySampleStaysAlone(s, start, now, buffered);
    AddSampleRegular(s, start, now, 0, buffered);
  }

  lemma {:induction false} RoundStarts(attempts: seq<Attempt>, k: nat)
    requires k < |attempts|
    ensures k % 2 == 0 ==> RoundStart(attempts, k) == attempts[k].now
    ensures k % 2 == 1 ==> RoundStart(attempts, k) == RoundStart(attempts, k - 1) == attempts[k - 1].now
    ensures k % 2 == 0 && k > 0 ==> RoundStart(attempts, k - 1) == attempts[k - 2].now
  {}

  lemma {:induction false} RoundGoesOn(s: Samples, attempts: seq<Attempt>, k: nat)
    requires 0 < k < |attempts| && Straggling(attempts)
    requires InRound(Fed(s, attempts[..k]), RoundStart(attempts, k - 1), attempts[k - 1].now)
    ensures InRound(Fed(s, attempts[..k + 1]), RoundStart(attempts, k), attempts[k].now)
  {
    FedLast(s, attempts, k);
    RoundStarts(attempts, k);
    var a := attempts[k];
    if k % 2 == 1 {
      RoundEnds(Fed(s, attempts[..k]), attempts[k - 1].now, a.now, a.buffered.value);
    } else {
      assert attempts[k - 2].now <= attempts[k - 1].now < attempts[k - 2].now + MIN_WINDOW;
      RoundBegins(Fed(s, attempts[..k]), attempts[k - 1].now, a.now, a.buffered.value);
    }
  }

  lemma {:induction false} StragglingState(s: Samples, last: Instant, attempts: seq<Attempt>, k: nat)
    requires k < |attempts| && Straggling(attempts)
    requires s.initialized ==> Regular(s, last) && last <= attempts[0].now && s.active.start + HORIZON < attempts[0].now
    ensures InRound(Fed(s, attempts[..k + 1]), RoundStart(attempts, k), attempts[k].now)
  {
    if k == 0 {
      FedLast(s, attempts, 0);
      RoundBegins(s, last, attempts[0].now, attempts[0].buffered.value);
    } else {
      StragglingState(s, last, attempts, k - 1);
      RoundGoesOn(s, attempts, k);
    }
  }

  /** From a channel that was never used, or idle for more than 2.1 s, a send that is tried in such rounds is
      retried for ever, whatever the threshold, because no rate is ever measured. */
  lemma {:induction false} StragglingNeverGivesUp(s: Samples, last: Instant, threshold: nat, attempts: seq<Attempt>)
    requires Straggling(attempts)
    requires attempts != [] && s.initialized ==>
               Regular(s, last) && last <= attempts[0].now && s.active.start + HORIZON < attempts[0].now
    ensures var r := Loop(s, false, Some(threshold), attempts); r.1 == Retrying && r.2 == |attempts|
  {
    forall k: nat | k < |attempts| ensures RetriedAt(s, threshold, attempts, k) {
      StragglingState(s, last, attempts, k);
    }
    KeepsRetrying(s, threshold, attempts);
  }

  /** Rounds with pauses of 1 ns under 100 ms and of 1 ns over the longest pause. */
  function Stragglers(n: nat): (attempts: seq<Attempt>)
    ensures |attempts| == n
    ensures forall i :: 0 <= i < n ==> attempts[i] == Attempt(TimedOut, Some(0), StragglerInstant(i))
  {
    seq(n, (i: nat) => Attempt(TimedOut, Some(0), StragglerInstant(i)))
  }

  function StragglerInstant(i: nat): Instant {
    i / 2 * (HORIZON + 1) + (if i % 2 == 1 then MIN_WINDOW - 1 else 0)
  }

  /** So the longest pause is exact: let pauses be 1 ns longer, and some blocked send is never dropped. */
  lemma {:induction false} LongerPausesNeverGiveUp(threshold: nat, n: nat)
    ensures var attempts := Stragglers(n);
            && (forall i :: 0 < i < n ==>
                  WRITE_TIMEOUT <= attempts[i].now - attempts[i - 1].now <= LONGEST_PAUSE + 1)
            && var r := Loop(Fresh(0), false, Some(threshold), attempts); r.1 == Retrying && r.2 == n
  {
    var attempts := Stragglers(n);
    forall i | 0 < i < n
      ensures WRITE_TIMEOUT <= attempts[i].now - attempts[i - 1].now <= LONGEST_PAUSE + 1
      ensures i % 2 == 1 ==> attempts[i - 1].now <= attempts[i].now < attempts[i - 1].now + MIN_WINDOW
      ensures i % 2 == 0 ==> attempts[i - 2].now + HORIZON < attempts[i].now
    {
      if i % 2 == 1 {
        assert (i - 1) / 2 == i / 2;
      } else {
        assert (i - 1) / 2 == i / 2 - 1 && (i - 2) / 2 == i / 2 - 1;
        assert (i / 2 - 1) * (HORIZON + 1) == i / 2 * (HORIZON + 1) - (HORIZON + 1);
      }
    }
    StragglingNeverGivesUp(Fresh(0), 0, threshold, attempts);
  }

  /** Blocked attempts every 50 ms from instant 0. */
  function Beats(n: nat): (attempts: seq<Attempt>)
    ensures |attempts| == n
    ensures forall i :: 0 <= i < n ==> attempts[i] == Attempt(TimedOut, Some(0), i * WRITE_TIMEOUT)
  {
    seq(n, (i: nat) => Attempt(TimedOut, Some(0), i * WRITE_TIMEOUT))
  }

  /** 1000 bytes counted from instant 0, and sub-windows closed up to the `k`-th beat. */
  ghost predicate Counting(s: Samples, k: nat) {
    && s.initialized && s.start == 0 && s.bytesTotal == 1_000 && s.lastBuffered == 0
    && Chain(s)[0].start == 0 && s.active.start == k / 2 * MIN_WINDOW
  }

  lemma {:induction false} BeatCounts(s: Samples, k: nat)
    requires 0 < k < 44 && Counting(s, k - 1)
    ensures Counting(AfterSample(s, k * WRITE_TIMEOUT, 0, 0), k)
  {
    var now := k * WRITE_TIMEOUT;
    var s' := AfterSample(s, now, 0, 0);
    if Since(now, s.active.start) >= MIN_WINDOW {
      assert Expire(Chain(s), s.bytesTotal, now) == (Chain(s), s.bytesTotal);
      assert s'.windows == Chain(s);
    } else {
      assert Chain(s') == Chain(s);
    }
  }

  lemma {:induction false} BeatsCount(s: Samples, k: nat)
    requires k < 44 && Counting(s, 0)
    ensures Counting(Fed(s, Beats(k + 1)), k)
  {
    assert Beats(k + 1)[..k] == Beats(k);
    if k > 0 {
      BeatsCount(s, k - 1);
      BeatCounts(Fed(s, Beats(k)), k);
    }
  }

  lemma {:induction false} CountingRetries(s: Samples, k: nat)
    requires k < 44 && Counting(s, k)
    ensures ShouldRetry(BitrateBps(s, k * WRITE_TIMEOUT), 1)
  {}

  lemma {:induction false} BeatsNeedAll(s: Samples, attempts: seq<Attempt>)
    requires Counting(s, 0) && attempts == Beats(45)
    ensures Loop(s, false, Some(1), attempts).2 == 45
  {
    var first := attempts[..44];
    forall k: nat | k < 44 ensures RetriedAt(s, 1, first, k) {
      assert first[..k + 1] == Beats(k + 1);
      BeatsCount(s, k);
      CountingRetries(Fed(s, first[..k + 1]), k);
    }
    KeepsRetrying(s, 1, first);
    LoopExtends(s, 1, attempts, 44);
  }

  lemma {:induction false} BeatsAreBlocked(n: nat)
    ensures Blocked(Beats(n))
  {
    var attempts := Beats(n);
    forall i | 0 < i < n ensures attempts[i].now == attempts[i - 1].now + WRITE_TIMEOUT {
      assert i * WRITE_TIMEOUT == (i - 1) * WRITE_TIMEOUT + WRITE_TIMEOUT;
    }
  }

  lemma {:induction false} BurstCounts(inputs: seq<Sample>)
    requires inputs == [Sample(0, 1_000, 0)]
    ensures Counting(Replay(inputs), 0)
  {
    assert inputs[..0] == [];
    assert Replay(inputs) == AfterSample(Replay(inputs[..0]), 0, 1_000, 0);
  }

  /** The bound of 45 is reached: after one write of 1000 bytes, this blocked send uses all 45. */
  lemma {:induction false} FortyFiveAttemptsCanBeNeeded(inputs: seq<Sample>, attempts: seq<Attempt>)
    requires inputs == [Sample(0, 1_000, 0)] && attempts == Beats(45)
    ensures Ordered(inputs) && Blocked(attempts)
    ensures Loop(Replay(inputs), false, Some(1), attempts).2 == 45
  {
    BeatsAreBlocked(45);
    BurstCounts(inputs);
    BeatsNeedAll(Replay(inputs), attempts);
  }

  /** A loop that is still retrying after `n` attempts uses more of them when it is given more. */
  lemma {:induction false} LoopExtends(s: Samples, threshold: nat, attempts: seq<Attempt>, n: nat)
    requires n < |attempts| && Timeouts(attempts)
    requires Loop(s, false, Some(threshold), attempts[..n]).1 == Retrying
    ensures Loop(s, false, Some(threshold), attempts).2 > n
    decreases n
  {
    BlockedPass(s, threshold, attempts);
    if n > 0 {
      BlockedPass(s, threshold, attempts[..n]);
      assert attempts[..n][1..] == attempts[1..][..n - 1];
      LoopExtends(AfterSample(s, attempts[0].now, 0, attempts[0].buffered.value), threshold, attempts[1..], n - 1);
    }
  }

  // ---------- Single passes and what they leave ----------

  /** How one pass ends, told by what the transport did. */
  lemma {:induction false} OutcomeExactly(s: Samples, unreliable: bool, threshold: Option<nat>, a: Attempt)
    ensures var (s', outcome) := Try(s, unreliable, threshold, a);
            && (outcome == TransportError <==> a.buffered == None || a.write == Failed)
            && (outcome == Sent <==> a.buffered.Some? && a.write.Written?)
            && (outcome == WriteTimeout <==>
                  a.buffered.Some? && a.write == TimedOut && (unreliable || threshold == None))
            && (outcome == SlowReader <==>
                  && a.buffered.Some? && a.write == TimedOut && !unreliable && threshold.Some?
                  && BitrateBps(s', a.now).Some? && BitrateBps(s', a.now).value < threshold.value)
            && outcome != BufferTooFull
  {}

  /** What a timed-out reliable write comes to, told by how the channel is configured: not configured, the
      high-water mark is the least rate; a configured zero gives up at the first timeout. */
  lemma {:induction false} ThresholdExactly(s: Samples, configured: Option<nat>, highThreshold: nat, a: Attempt)
    requires a.write == TimedOut && a.buffered.Some?
    ensures var (s', outcome) := Try(s, false, SlowReaderThreshold(configured, highThreshold), a);
            var rate := BitrateBps(s', a.now);
            && (outcome == WriteTimeout <==> configured == Some(0))
            && (configured == None ==> (outcome == Retrying <==> rate == None || rate.value >= highThreshold))
            && (configured.Some? && configured.value > 0 ==>
                  (outcome == Retrying <==> rate == None || rate.value >= configured.value))
  {}

  lemma {:induction false} FloorExceeded(buffered: nat, rate: nat)
    ensures buffered > rate * 100 / 8 / 1_000 <==> buffered * 8 * 1_000 > rate * 100
  {
    assert rate * 100 / 8 / 1_000 == rate * 100 / 8_000;
  }

  /** An unreliable message is dropped up front exactly when a rate is known, more is buffered than leaves within
      100 ms at that rate, and more than 2000 bytes. */
  lemma {:induction false} DroppedUpFrontExactly(s: Samples, now: Instant, buffered: usize)
    ensures DroppedUpFront(s, now, buffered)
       <==> && BitrateBps(s, now).Some? && buffered > 2_000
            && buffered * 8 * 1_000 > BitrateBps(s, now).value * 100
  {
    if BitrateBps(s, now).Some? {
      FloorExceeded(buffered, BitrateBps(s, now).value);
    }
  }

  /** The samples that a send gives to the estimator: what was written, and zero bytes for each timeout of a
      reliable write. */
  function SamplesOf(unreliable: bool, attempts: seq<Attempt>): seq<Sample> {
    if attempts == [] then []
    else
      var a := attempts[|attempts| - 1];
      SamplesOf(unreliable, attempts[..|attempts| - 1])
      + match a {
          case Attempt(Written(bytes), Some(buffered), now) => [Sample(now, bytes, buffered)]
          case Attempt(TimedOut, Some(buffered), now) => if unreliable then [] else [Sample(now, 0, buffered)]
          case _ => []
        }
  }

  lemma {:induction false} TryReplays(inputs: seq<Sample>, unreliable: bool, threshold: Option<nat>, a: Attempt)
    ensures Try(Replay(inputs), unreliable, threshold, a).0 == Replay(inputs + SamplesOf(unreliable, [a]))
  {
    assert [a][..0] == [] && SamplesOf(unreliable, []) == [];
    var more := SamplesOf(unreliable, [a]);
    if more == [] {
      assert inputs + more == inputs;
    } else {
      assert (inputs + more)[..|inputs|] == inputs;
    }
  }

  lemma {:induction false} SamplesOfFront(unreliable: bool, attempts: seq<Attempt>)
    requires attempts != []
    ensures SamplesOf(unreliable, attempts)
         == SamplesOf(unreliable, attempts[..1]) + SamplesOf(unreliable, attempts[1..])
    decreases |attempts|
  {
    var n := |attempts|;
    if n > 1 {
      SamplesOfFront(unreliable, attempts[..n - 1]);
      assert attempts[..n - 1][..1] == attempts[..1] && attempts[..n - 1][1..] == attempts[1..][..n - 2];
    } else {
      assert attempts[..1] == attempts;
    }
  }

  lemma {:induction false} LoopUnfolds(s: Samples, unreliable: bool, threshold: Option<nat>, attempts: seq<Attempt>)
    requires attempts != []
    ensures var (s', outcome) := Try(s, unreliable, threshold, attempts[0]);
            var rest := Loop(s', unreliable, threshold, attempts[1..]);
            Loop(s, unreliable, threshold, attempts)
            == if outcome != Retrying then (s', outcome, 1) else (rest.0, rest.1, rest.2 + 1)
  {}

  /** The history that the samples of the first `used` attempts make of an earlier one. */
  function Extended(inputs: seq<Sample>, unreliable: bool, attempts: seq<Attempt>, used: nat): seq<Sample>
    requires used <= |attempts|
  {
    inputs + SamplesOf(unreliable, attempts[..used])
  }

  lemma {:induction false} ExtendedInTurn(inputs: seq<Sample>, unreliable: bool, attempts: seq<Attempt>, used: nat)
    requires used < |attempts|
    ensures Extended(Extended(inputs, unreliable, attempts, 1), unreliable, attempts[1..], used)
         == Extended(inputs, unreliable, attempts, used + 1)
  {
    SamplesOfFront(unreliable, attempts[..used + 1]);
    assert attempts[..used + 1][..1] == attempts[..1] && attempts[..used + 1][1..] == attempts[1..][..used];
  }

  /** After a send the estimator is that of the whole history: all earlier samples and those of the attempts
      that were used. */
  lemma {:induction false} LoopReplays(s: Samples, inputs: seq<Sample>, unreliable: bool, threshold: Option<nat>,
                                       attempts: seq<Attempt>)
    requires s == Replay(inputs)
    ensures var r := Loop(s, unreliable, threshold, attempts);
            r.0 == Replay(Extended(inputs, unreliable, attempts, r.2))
    decreases |attempts|
  {
    if attempts == [] {
      assert Extended(inputs, unreliable, attempts, 0) == inputs;
    } else {
      var (s', outcome) := Try(s, unreliable, threshold, attempts[0]);
      var inputs' := Extended(inputs, unreliable, attempts, 1);
      FirstReplays(inputs, unreliable, threshold, attempts);
      LoopUnfolds(s, unreliable, threshold, attempts);
      if outcome == Retrying {
        var rest := Loop(s', unreliable, threshold, attempts[1..]);
        LoopReplays(s', inputs', unreliable, threshold, attempts[1..]);
        ExtendedInTurn(inputs, unreliable, attempts, rest.2);
      }
    }
  }

  lemma {:induction false} FirstReplays(inputs: seq<Sample>, unreliable: bool, threshold: Option<nat>,
                                        attempts: seq<Attempt>)
    requires attempts != []
    ensures Try(Replay(inputs), unreliable, threshold, attempts[0]).0
         == Replay(Extended(inputs, unreliable, attempts, 1))
  {
    assert attempts[..1] == [attempts[0]];
    TryReplays(inputs, unreliable, threshold, attempts[0]);
  }
}
