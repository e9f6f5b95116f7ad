/** The sliding-window send-rate estimator of a data channel. Instants are nanoseconds. */
module SendRate {
  import opened Results

  const MILLI: nat := 1_000_000
  const MIN_WINDOW: nat := 100 * MILLI
  const HORIZON: nat := 2_000 * MILLI + MIN_WINDOW
  const USIZE_MAX: nat := 0xFFFF_FFFF_FFFF_FFFF
  const U32_MAX: nat := 0xFFFF_FFFF

  type usize = x: nat | x <= USIZE_MAX
  type Instant = nat

  datatype Window = Window(start: Instant, bytes: usize)

  datatype Samples = Samples(bytesTotal: usize, windows: seq<Window>, active: Window,
                             lastBuffered: usize, start: Instant, initialized: bool)

  // ---------- One sample ----------

  function Since(now: Instant, earlier: Instant): nat {
    if now >= earlier then now - earlier else 0
  }

  function SaturatingAdd(a: usize, b: usize): usize { if a + b > USIZE_MAX then USIZE_MAX else a + b }

  function SaturatingSub(a: usize, b: usize): usize { if a >= b then a - b else 0 }

  function Fresh(now: Instant): Samples { Samples(0, [], Window(now, 0), 0, now, false) }

  /** Written bytes minus the growth of the buffer, never negative, cast to `usize`. */
  function Delivered(bytes: usize, buffered: usize, lastBuffered: usize): usize {
    var delivered := bytes - (buffered - lastBuffered);
    if delivered < 0 then 0 else delivered % (USIZE_MAX + 1)
  }

  function Expire(windows: seq<Window>, total: usize, now: Instant): (seq<Window>, usize) {
    if windows != [] && Since(now, windows[0].start) > HORIZON
    then Expire(windows[1..], SaturatingSub(total, windows[0].bytes), now)
    else (windows, total)
  }

  function RollOver(s: Samples, now: Instant): Samples {
    var (windows, total) := Expire(s.windows + [s.active], s.bytesTotal, now);
    s.(windows := windows, active := Window(now, 0),
       start := if windows != [] then windows[0].start else now,
       bytesTotal := if windows != [] then total else 0)
  }

  function Rolled(s: Samples, now: Instant): Samples {
    if Since(now, s.active.start) >= MIN_WINDOW then RollOver(s, now) else s
  }

  function Initialized(s: Samples, now: Instant): Samples {
    if s.initialized then s else Fresh(now).(initialized := true)
  }

  function Credit(s: Samples, delivered: usize): Samples {
    s.(bytesTotal := SaturatingAdd(s.bytesTotal, delivered),
       active := Window(s.active.start, SaturatingAdd(s.active.bytes, delivered)))
  }

  function AfterSample(s: Samples, now: Instant, bytes: usize, buffered: usize): Samples {
    var s0 := Initialized(s, now);
    var delivered := Delivered(bytes, buffered, s0.lastBuffered);
    Credit(Rolled(s0.(lastBuffered := buffered), now), delivered)
  }

  function BitrateBps(s: Samples, now: Instant): (rate: Option<nat>)
    ensures rate.Some? ==> rate.value <= U32_MAX
  {
    if !s.initialized || Since(now, s.start) < MIN_WINDOW then None
    else
      var millis := Since(now, s.start) / MILLI;
      var bps := s.bytesTotal * 8 * 1_000 / millis;
      Some(if bps > U32_MAX then U32_MAX else bps)
  }

  /** The estimator as the channel holds it. */
  class SendRateSamples {
    var bytesTotal: usize
    var windows: seq<Window>
    var active: Window
    var lastBuffered: usize
    var start: Instant
    var initialized: bool

    ghost function View(): Samples
      reads this
    {
      Samples(bytesTotal, windows, active, lastBuffered, start, initialized)
    }

    constructor (now: Instant)
      ensures View() == Fresh(now)
    {
      bytesTotal, windows, active, lastBuffered, start, initialized := 0, [], Window(now, 0), 0, now, false;
    }

    method AddSample(now: Instant, bytes: usize, buffered: usize)
      modifies this
      ensures View() == AfterSample(old(View()), now, bytes, buffered)
    {
      if !initialized {
        bytesTotal, windows, active, lastBuffered, start := 0, [], Window(now, 0), 0, now;
        initialized := true;
      }
      var bufferedDelta := buffered - lastBuffered;
      var deliveredBytes := if bytes - bufferedDelta < 0 then 0 else (bytes - bufferedDelta) % (USIZE_MAX + 1);
      lastBuffered := buffered;

      if Since(now, active.start) >= MIN_WINDOW {
        windows := windows + [active];
        active := Window(now, 0);
        ghost var (keep, total) := Expire(windows, bytesTotal, now);
        while windows != [] && Since(now, windows[0].start) > HORIZON
          invariant Expire(windows, bytesTotal, now) == (keep, total)
          invariant active == Window(now, 0) && initialized && lastBuffered == buffered
          decreases |windows|
        {
          bytesTotal := SaturatingSub(bytesTotal, windows[0].bytes);
          windows := windows[1..];
        }
        if windows != [] {
          start := windows[0].start;
        } else {
          start := now;
          bytesTotal := 0;
        }
      }

      bytesTotal := SaturatingAdd(bytesTotal, deliveredBytes);
      active := Window(active.start, SaturatingAdd(active.bytes, deliveredBytes));
    }

    method CurrentBitrate(now: Instant) returns (rate: Option<nat>)
      ensures rate == BitrateBps(View(), now)
    {
      if !initialized {
        return None;
      }
      var elapsed := Since(now, start);
      if elapsed < MIN_WINDOW {
        return None;
      }
      var bps := bytesTotal * 8 * 1_000 / (elapsed / MILLI);
      rate := Some(if bps > U32_MAX then U32_MAX else bps);
    }
  }

  // ---------- Runs ----------

  datatype Sample = Sample(now: Instant, bytes: usize, buffered: usize)

  ghost predicate Ordered(inputs: seq<Sample>) {
    forall i, j :: 0 <= i <= j < |inputs| ==> inputs[i].now <= inputs[j].now
  }

  /** The estimator after a run of samples, starting from a channel opened at instant 0. */
  function Replay(inputs: seq<Sample>): Samples {
    if inputs == [] then Fresh(0)
    else
      var last := inputs[|inputs| - 1];
      AfterSample(Replay(inputs[..|inputs| - 1]), last.now, last.bytes, last.buffered)
  }

  /** Bytes delivered by the last sample, from the run alone. */
  function LastDelivered(inputs: seq<Sample>): usize
    requires inputs != []
  {
    var n := |inputs|;
    Delivered(inputs[n - 1].bytes, inputs[n - 1].buffered, if n == 1 then 0 else inputs[n - 2].buffered)
  }

  /** The reference: all bytes delivered by samples taken at or after `start`. */
  function DeliveredSince(inputs: seq<Sample>, start: Instant): nat {
    if inputs == [] then 0
    else
      DeliveredSince(inputs[..|inputs| - 1], start)
      + (if inputs[|inputs| - 1].now >= start then LastDelivered(inputs) else 0)
  }

  function Sum(ws: seq<Window>): nat {
    if ws == [] then 0 else ws[0].bytes + Sum(ws[1..])
  }

  lemma {:induction false} SumAppend(ws: seq<Window>, w: Window)
    ensures Sum(ws + [w]) == Sum(ws) + w.bytes
  {
    if ws == [] {
      assert ws + [w] == [w];
    } else {
      SumAppend(ws[1..], w);
      assert (ws + [w])[1..] == ws[1..] + [w];
    }
  }

  /** Sub-windows from the oldest to the active one. */
  function Chain(s: Samples): seq<Window> { s.windows + [s.active] }

  // ---------- Window geometry and bounded memory ----------

  ghost predicate Spaced(ws: seq<Window>) {
    forall i :: 0 <= i < |ws| - 1 ==> ws[i].start + MIN_WINDOW <= ws[i + 1].start
  }

  /** What every state keeps after a sample at `now`. */
  ghost predicate Regular(s: Samples, now: Instant) {
    && s.initialized
    && s.start == Chain(s)[0].start
    && Spaced(Chain(s))
    && s.active.start <= now < s.active.start + MIN_WINDOW
    && s.active.start <= Chain(s)[0].start + HORIZON
    && s.bytesTotal <= Sum(Chain(s))
  }

  /** Expiry drops exactly the windows at the front that are too old. */
  lemma {:induction false} ExpireDropsPrefix(windows: seq<Window>, total: usize, now: Instant) returns (k: nat)
    ensures k <= |windows|
    ensures Expire(windows, total, now).0 == windows[k..]
    ensures forall i :: 0 <= i < k ==> Since(now, windows[i].start) > HORIZON
    ensures k < |windows| ==> Since(now, windows[k].start) <= HORIZON
    ensures total == Sum(windows) ==> Expire(windows, total, now).1 == Sum(windows[k..])
    ensures total <= Sum(windows) ==> Expire(windows, total, now).1 <= Sum(windows[k..])
  {
    if windows != [] && Since(now, windows[0].start) > HORIZON {
      var j := ExpireDropsPrefix(windows[1..], SaturatingSub(total, windows[0].bytes), now);
      k := j + 1;
      assert windows[1..][j..] == windows[k..];
      assert forall i :: 0 < i < k ==> windows[i] == windows[1..][i - 1];
    } else {
      k := 0;
      assert windows[0..] == windows;
    }
  }

  lemma {:induction false} RollOverRegular(s: Samples, last: Instant, now: Instant)
    requires Regular(s, last) && last <= now
    requires Since(now, s.active.start) >= MIN_WINDOW
    ensures Regular(RollOver(s, now), now)
  {
    var s' := RollOver(s, now);
    var k := ExpireDropsPrefix(Chain(s), s.bytesTotal, now);
    assert s'.windows == Chain(s)[k..];
    SumAppend(s'.windows, s'.active);
    assert forall i :: 0 <= i < |s'.windows| ==> Chain(s')[i] == Chain(s)[k + i];
  }

  lemma {:induction false} CreditRegular(s: Samples, now: Instant, delivered: usize)
    requires Regular(s, now)
    ensures Regular(Credit(s, delivered), now)
  {
    var s' := Credit(s, delivered);
    SumAppend(s.windows, s.active);
    SumAppend(s.windows, s'.active);
    assert forall i :: 0 <= i < |s.windows| ==> Chain(s')[i] == Chain(s)[i];
  }

  lemma {:induction false} AddSampleRegular(s: Samples, last: Instant, now: Instant, bytes: usize, buffered: usize)
    requires !s.initialized || (Regular(s, last) && last <= now)
    ensures Regular(AfterSample(s, now, bytes, buffered), now)
  {
    var s0 := Initialized(s, now);
    var s1 := s0.(lastBuffered := buffered);
    assert Regular(s1, if s.initialized then last else now);
    if Since(now, s1.active.start) >= MIN_WINDOW {
      RollOverRegular(s1, last, now);
    }
    CreditRegular(Rolled(s1, now), now, Delivered(bytes, buffered, s0.lastBuffered));
  }

  lemma {:induction false} RunIsRegular(inputs: seq<Sample>)
    requires inputs != [] && Ordered(inputs)
    ensures Regular(Replay(inputs), inputs[|inputs| - 1].now)
  {
    var n := |inputs|;
    var front := inputs[..n - 1];
    var last := inputs[n - 1];
    if front == [] {
      AddSampleRegular(Replay(front), 0, last.now, last.bytes, last.buffered);
    } else {
      RunIsRegular(front);
      AddSampleRegular(Replay(front), front[n - 2].now, last.now, last.bytes, last.buffered);
    }
  }

  lemma {:induction false} SpacedSpan(ws: seq<Window>)
    requires ws != [] && Spaced(ws)
    ensures ws[0].start + (|ws| - 1) * MIN_WINDOW <= ws[|ws| - 1].start
  {
    if |ws| > 1 {
      SpacedSpan(ws[..|ws| - 1]);
    }
  }

  /** In every run with a non-decreasing clock, sub-windows start at least 100 ms apart and the
      deque holds at most 21 of them. */
  lemma {:induction false} BoundedMemory(inputs: seq<Sample>)
    requires Ordered(inputs)
    ensures Spaced(Chain(Replay(inputs)))
    ensures |Replay(inputs).windows| <= 21
  {
    if inputs != [] {
      RunIsRegular(inputs);
      SpacedSpan(Chain(Replay(inputs)));
    }
  }

  // ---------- The estimator refines the sample history ----------

  /** Each suffix of sub-windows holds exactly the bytes delivered since its first start. */
  ghost predicate Counts(ws: seq<Window>, inputs: seq<Sample>) {
    forall i {:trigger ws[i..]} :: 0 <= i < |ws| ==> DeliveredSince(inputs, ws[i].start) == Sum(ws[i..])
  }

  ghost predicate Refines(s: Samples, inputs: seq<Sample>) {
    && s.bytesTotal == Sum(Chain(s))
    && Counts(Chain(s), inputs)
  }

  lemma {:induction false} SpacedOrder(ws: seq<Window>, i: nat, j: nat)
    requires Spaced(ws) && i <= j < |ws|
    ensures ws[i].start <= ws[j].start
    decreases j
  {
    if i < j {
      SpacedOrder(ws, i, j - 1);
    }
  }

  lemma {:induction false} NothingLater(inputs: seq<Sample>, start: Instant)
    requires forall i :: 0 <= i < |inputs| ==> inputs[i].now < start
    ensures DeliveredSince(inputs, start) == 0
  {
    if inputs != [] {
      NothingLater(inputs[..|inputs| - 1], start);
    }
  }

  /** A rollover moves and drops windows but loses no counted byte; in particular the explicit
      reset to zero only ever meets a total of zero. */
  lemma {:induction false} RollOverRefines(s: Samples, front: seq<Sample>, last: Instant, now: Instant)
    requires Regular(s, last) && Refines(s, front)
    requires last <= now && Since(now, s.active.start) >= MIN_WINDOW
    requires forall i :: 0 <= i < |front| ==> front[i].now <= last
    ensures Refines(RollOver(s, now), front)
    ensures Expire(Chain(s), s.bytesTotal, now).0 == [] ==> Expire(Chain(s), s.bytesTotal, now).1 == 0
  {
    var s' := RollOver(s, now);
    var k := ExpireDropsPrefix(Chain(s), s.bytesTotal, now);
    assert s'.windows == Chain(s)[k..];
    SumAppend(s'.windows, s'.active);
    NothingLater(front, now);
    forall i | 0 <= i < |Chain(s')|
      ensures DeliveredSince(front, Chain(s')[i].start) == Sum(Chain(s')[i..])
    {
      SuffixSum(s'.windows, s'.active, i);
      if i < |s'.windows| {
        assert s'.windows[i..] == Chain(s)[k + i..];
      }
    }
  }

  lemma {:induction false} SuffixSum(ws: seq<Window>, w: Window, i: nat)
    requires i <= |ws|
    ensures Sum((ws + [w])[i..]) == Sum(ws[i..]) + w.bytes
  {
    assert (ws + [w])[i..] == ws[i..] + [w];
    SumAppend(ws[i..], w);
  }

  lemma {:induction false} CreditSuffix(s: Samples, inputs: seq<Sample>, i: nat)
    requires inputs != [] && i < |Chain(s)|
    requires Regular(s, inputs[|inputs| - 1].now) && Refines(s, inputs[..|inputs| - 1])
    ensures var s' := Credit(s, LastDelivered(inputs));
            && Chain(s')[i].start == Chain(s)[i].start
            && DeliveredSince(inputs, Chain(s)[i].start) == Sum(Chain(s)[i..]) + LastDelivered(inputs)
            && Sum(Chain(s')[i..]) == Sum(Chain(s)[i..]) + s'.active.bytes - s.active.bytes
  {
    SpacedOrder(Chain(s), i, |s.windows|);
    SuffixSum(s.windows, s.active, i);
    SuffixSum(s.windows, Credit(s, LastDelivered(inputs)).active, i);
  }

  /** Crediting a sample keeps the refinement exactly when the new total fits in a `usize`. */
  lemma {:induction false} CreditRefines(s: Samples, inputs: seq<Sample>)
    requires inputs != []
    requires Regular(s, inputs[|inputs| - 1].now) && Refines(s, inputs[..|inputs| - 1])
    ensures Refines(Credit(s, LastDelivered(inputs)), inputs)
       <==> s.bytesTotal + LastDelivered(inputs) <= USIZE_MAX
  {
    var s' := Credit(s, LastDelivered(inputs));
    assert Chain(s)[0..] == Chain(s) && Chain(s')[0..] == Chain(s');
    CreditSuffix(s, inputs, 0);
    SumAppend(s.windows, s.active);
    if s.bytesTotal + LastDelivered(inputs) <= USIZE_MAX {
      forall i | 0 <= i < |Chain(s')|
        ensures DeliveredSince(inputs, Chain(s')[i].start) == Sum(Chain(s')[i..])
      {
        CreditSuffix(s, inputs, i);
      }
    }
  }

  lemma {:induction false} LastBufferedIsRemembered(inputs: seq<Sample>)
    requires inputs != []
    ensures Replay(inputs).initialized && Replay(inputs).lastBuffered == inputs[|inputs| - 1].buffered
  {}

  /** The estimator just before the last sample is credited. */
  function BeforeCredit(inputs: seq<Sample>): Samples
    requires inputs != []
  {
    var last := inputs[|inputs| - 1];
    Rolled(Initialized(Replay(inputs[..|inputs| - 1]), last.now).(lastBuffered := last.buffered), last.now)
  }

  /** No saturating addition of the run has to clip. */
  ghost predicate NeverClips(inputs: seq<Sample>) {
    inputs != [] ==>
      && NeverClips(inputs[..|inputs| - 1])
      && BeforeCredit(inputs).bytesTotal + LastDelivered(inputs) <= USIZE_MAX
  }

  ghost predicate AlwaysRefines(inputs: seq<Sample>) {
    inputs != [] ==> AlwaysRefines(inputs[..|inputs| - 1]) && Refines(Replay(inputs), inputs)
  }

  lemma {:induction false} RolledRefines(s: Samples, front: seq<Sample>, last: Instant, now: Instant)
    requires Regular(s, last) && Refines(s, front) && last <= now
    requires forall i :: 0 <= i < |front| ==> front[i].now <= last
    ensures Regular(Rolled(s, now), now) && Refines(Rolled(s, now), front)
  {
    if Since(now, s.active.start) >= MIN_WINDOW {
      RollOverRegular(s, last, now);
      RollOverRefines(s, front, last, now);
    }
  }

  lemma {:induction false} FirstRefines(now: Instant, buffered: usize)
    ensures var s := Fresh(now).(initialized := true, lastBuffered := buffered);
            Rolled(s, now) == s && Regular(s, now) && Refines(s, [])
  {
    var s := Fresh(now).(initialized := true, lastBuffered := buffered);
    assert Chain(s) == [s.active] && Chain(s)[0..] == [s.active] && [s.active][1..] == [];
  }

  lemma {:induction false} BufferedDoesNotMatter(s: Samples, front: seq<Sample>, last: Instant, buffered: usize)
    requires Regular(s, last) && Refines(s, front)
    ensures Regular(s.(lastBuffered := buffered), last) && Refines(s.(lastBuffered := buffered), front)
  {
    assert Chain(s.(lastBuffered := buffered)) == Chain(s);
  }

  lemma {:induction false} ReplayCredits(inputs: seq<Sample>)
    requires inputs != []
    ensures Replay(inputs) == Credit(BeforeCredit(inputs), LastDelivered(inputs))
  {
    if |inputs| > 1 {
      LastBufferedIsRemembered(inputs[..|inputs| - 1]);
    }
  }

  lemma {:induction false} BeforeCreditRefines(inputs: seq<Sample>)
    requires inputs != [] && Ordered(inputs) && AlwaysRefines(inputs[..|inputs| - 1])
    ensures Regular(BeforeCredit(inputs), inputs[|inputs| - 1].now)
    ensures Refines(BeforeCredit(inputs), inputs[..|inputs| - 1])
    ensures Replay(inputs) == Credit(BeforeCredit(inputs), LastDelivered(inputs))
  {
    var n := |inputs|;
    var front, last := inputs[..n - 1], inputs[n - 1];
    ReplayCredits(inputs);
    if front == [] {
      FirstRefines(last.now, last.buffered);
    } else {
      RunIsRegular(front);
      LastBufferedIsRemembered(front);
      BufferedDoesNotMatter(Replay(front), front, front[n - 2].now, last.buffered);
      RolledRefines(Replay(front).(lastBuffered := last.buffered), front, front[n - 2].now, last.now);
    }
  }

  /** With a non-decreasing clock the estimator refines the sample history at every point of a
      run if and only if no addition clips. */
  lemma {:induction false} RefinesExactlyUnlessClipped(inputs: seq<Sample>)
    requires Ordered(inputs)
    ensures AlwaysRefines(inputs) <==> NeverClips(inputs)
  {
    if inputs != [] {
      RefinesExactlyUnlessClipped(inputs[..|inputs| - 1]);
      if AlwaysRefines(inputs[..|inputs| - 1]) {
        BeforeCreditRefines(inputs);
        CreditRefines(BeforeCredit(inputs), inputs);
      }
    }
  }

  lemma {:induction false} LaterIsLess(inputs: seq<Sample>, start: Instant)
    ensures DeliveredSince(inputs, start) <= DeliveredSince(inputs, 0)
  {
    if inputs != [] {
      LaterIsLess(inputs[..|inputs| - 1], start);
    }
  }

  /** A run that delivers less than 2^64 bytes in all never clips. */
  lemma {:induction false} SmallRunsNeverClip(inputs: seq<Sample>)
    requires Ordered(inputs) && DeliveredSince(inputs, 0) <= USIZE_MAX
    ensures NeverClips(inputs)
  {
    if inputs != [] {
      SmallRunsNeverClip(inputs[..|inputs| - 1]);
      RefinesExactlyUnlessClipped(inputs[..|inputs| - 1]);
      BeforeCreditRefines(inputs);
      var s := BeforeCredit(inputs);
      assert Chain(s)[0..] == Chain(s);
      CreditSuffix(s, inputs, 0);
      LaterIsLess(inputs, Chain(s)[0].start);
    }
  }

  /** For every such run: the running total, the sum of the sub-windows and the bytes delivered
      by exactly the samples at or after `start` are one number. */
  lemma {:induction false} RunRefinesHistory(inputs: seq<Sample>)
    requires inputs != [] && Ordered(inputs) && NeverClips(inputs)
    ensures var s := Replay(inputs);
            s.bytesTotal == Sum(s.windows) + s.active.bytes == DeliveredSince(inputs, s.start)
  {
    RefinesExactlyUnlessClipped(inputs);
    RunIsRegular(inputs);
    var s := Replay(inputs);
    SumAppend(s.windows, s.active);
    assert Chain(s)[0..] == Chain(s);
  }

  /** The rate asked for after a run is the volume that left since the retained start over the time since it,
      capped at 32 bits; the retained start never lags the last sample by 2.2 seconds. */
  lemma {:induction false} RateMeasuresDelivery(inputs: seq<Sample>, now: Instant)
    requires inputs != [] && Ordered(inputs) && NeverClips(inputs) && now >= inputs[|inputs| - 1].now
    ensures var s := Replay(inputs);
            && inputs[|inputs| - 1].now - s.start < HORIZON + MIN_WINDOW
            && (BitrateBps(s, now) == None <==> now - s.start < MIN_WINDOW)
            && (now - s.start >= MIN_WINDOW ==>
                  var bps := DeliveredSince(inputs, s.start) * 8_000 / ((now - s.start) / MILLI);
                  BitrateBps(s, now) == Some(if bps > U32_MAX then U32_MAX else bps))
  {
    RunRefinesHistory(inputs);
    RunIsRegular(inputs);
  }

  // ---------- The bound of 21 windows is reached ----------

  /** A sample every 100 ms, the first at instant 0. */
  function Ticks(n: nat): (inputs: seq<Sample>)
    ensures |inputs| == n
    ensures forall i :: 0 <= i < n ==> inputs[i] == Sample(i * MIN_WINDOW, 0, 0)
  {
    seq(n, (i: nat) => Sample(i * MIN_WINDOW, 0, 0))
  }

  lemma {:induction false} TickAppends(s: Samples, now: Instant)
    requires s.initialized && Since(now, s.active.start) >= MIN_WINDOW
    requires Since(now, Chain(s)[0].start) <= HORIZON
    ensures var s' := AfterSample(s, now, 0, 0); s'.initialized && s'.active.start == now && s'.windows == Chain(s)
  {}

  lemma {:induction false} TicksFillTheDeque(k: nat)
    requires k <= 21
    ensures var s := Replay(Ticks(k + 1));
            && s.initialized && s.active.start == k * MIN_WINDOW
            && |s.windows| == k && Chain(s)[0].start == 0
  {
    assert Ticks(k + 1)[..k] == Ticks(k);
    if k > 0 {
      TicksFillTheDeque(k - 1);
      TickAppends(Replay(Ticks(k)), k * MIN_WINDOW);
    }
  }

  lemma {:induction false} TwentyOneWindowsOccur()
    ensures exists inputs :: Ordered(inputs) && |Replay(inputs).windows| == 21
  {
    var inputs := Ticks(22);
    assert Ordered(inputs);
    TicksFillTheDeque(21);
  }

  // ---------- What is delivered is what is written, less what is buffered ----------

  function WrittenTotal(inputs: seq<Sample>): nat {
    if inputs == [] then 0 else WrittenTotal(inputs[..|inputs| - 1]) + inputs[|inputs| - 1].bytes
  }

  /** The amount still buffered after a run. */
  function BufferedAfter(inputs: seq<Sample>): nat {
    if inputs == [] then 0 else inputs[|inputs| - 1].buffered
  }

  /** What left the buffer with the last sample is an amount that the estimator can hold. */
  predicate Plausible(inputs: seq<Sample>)
    requires inputs != []
  {
    var last := inputs[|inputs| - 1];
    0 <= BufferedAfter(inputs[..|inputs| - 1]) + last.bytes - last.buffered <= USIZE_MAX
  }

  /** Every byte written has been delivered or is still buffered. */
  predicate Conserved(inputs: seq<Sample>) {
    WrittenTotal(inputs) == DeliveredSince(inputs, 0) + BufferedAfter(inputs)
  }

  /** A sample delivers the bytes that went in less the growth of the buffer; nothing when the buffer grew by at
      least the bytes; and what exceeds the machine word is cut to it. */
  lemma {:induction false} DeliveredExactly(bytes: usize, buffered: usize, lastBuffered: usize)
    ensures buffered >= lastBuffered + bytes ==> Delivered(bytes, buffered, lastBuffered) == 0
    ensures buffered < lastBuffered + bytes ==>
              var moved := lastBuffered + bytes - buffered;
              Delivered(bytes, buffered, lastBuffered) == if moved <= USIZE_MAX then moved else moved - USIZE_MAX - 1
  {}

  lemma {:induction false} ConservedStep(inputs: seq<Sample>)
    requires inputs != [] && Conserved(inputs[..|inputs| - 1])
    ensures Conserved(inputs) <==> Plausible(inputs)
  {
    var n := |inputs|;
    var last := inputs[n - 1];
    assert n > 1 ==> inputs[..n - 1][n - 2] == inputs[n - 2];
    DeliveredExactly(last.bytes, last.buffered, if n == 1 then 0 else inputs[n - 2].buffered);
  }

  /** Throughout a run, what was written is what was delivered and what is still buffered, if and only if at
      every sample a plausible amount left the buffer. */
  lemma {:induction false} DeliveryIsConservedExactly(inputs: seq<Sample>)
    ensures (forall n: nat :: n <= |inputs| ==> Conserved(inputs[..n]))
       <==> (forall n: nat :: 0 < n <= |inputs| ==> Plausible(inputs[..n]))
  {
    if inputs != [] {
      var front := inputs[..|inputs| - 1];
      DeliveryIsConservedExactly(front);
      assert forall n: nat :: n <= |front| ==> front[..n] == inputs[..n];
      assert inputs[..|inputs|] == inputs;
      if Conserved(front) {
        ConservedStep(inputs);
      }
      assert front == inputs[..|front|];
    }
  }
}
