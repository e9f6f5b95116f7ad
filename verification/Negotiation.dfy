/** The offer/answer negotiation controller of a peer connection. */
module Negotiation {
  import opened Results

  const U32_MAX: nat := 0xFFFF_FFFF

  /** Offer IDs run from 1 to 2^32 - 1 and start over; zero is skipped. */
  const OFFER_IDS: nat := U32_MAX

  type u32 = x: nat | x <= U32_MAX

  datatype Phase = Idle | Remote | Retry

  datatype Controller = Controller(nextOfferId: u32, pending: Option<u32>, retryQueued: bool, phase: Phase)

  datatype Event = Negotiate(force: bool) | IceRestart | Answer(id: u32) | Timeout

  const INITIAL := Controller(0, None, false, Idle)

  // ---------- What one event does ----------

  function WrappingIncrement(x: u32): u32 { (x + 1) % (U32_MAX + 1) }

  function IssueOffer(c: Controller): Controller {
    var next := WrappingIncrement(c.nextOfferId);
    var id := if next == 0 then 1 else next;
    c.(nextOfferId := id, pending := Some(id), phase := Remote)
  }

  function Step(c: Controller, e: Event): Controller {
    match e
    case Negotiate(force) =>
      if !force then c
      else if c.pending == None then IssueOffer(c)
      else c.(phase := if c.phase == Remote then Retry else c.phase, retryQueued := true)
    case IceRestart =>
      IssueOffer(if c.pending.Some? then c.(retryQueued := true) else c)
    case Answer(id) =>
      if c.pending != Some(id) then c
      else if c.retryQueued then IssueOffer(c.(pending := None, retryQueued := false))
      else c.(pending := None, phase := Idle)
    case Timeout =>
      if c.pending == None then c else c.(pending := None, retryQueued := false, phase := Idle)
  }

  /** Whether the event makes the controller issue an offer. */
  predicate Issues(c: Controller, e: Event) {
    match e
    case Negotiate(force) => force && c.pending == None
    case IceRestart => true
    case Answer(id) => c.pending == Some(id) && c.retryQueued
    case Timeout => false
  }

  function Offer(c: Controller, e: Event): Option<u32> {
    if Issues(c, e) then Some(Step(c, e).nextOfferId) else None
  }

  class NegotiationController {
    var nextOfferId: u32
    var pendingOfferId: Option<u32>
    var retryQueued: bool
    var state: Phase

    ghost function View(): Controller
      reads this
    {
      Controller(nextOfferId, pendingOfferId, retryQueued, state)
    }

    constructor ()
      ensures View() == INITIAL
    {
      nextOfferId, pendingOfferId, retryQueued, state := 0, None, false, Idle;
    }

    method NegotiateOffer(force: bool) returns (offer: Option<u32>)
      modifies this
      ensures View() == Step(old(View()), Negotiate(force))
      ensures offer == Offer(old(View()), Negotiate(force))
    {
      if !force {
        return None;
      }
      if pendingOfferId == None {
        var id := Issue();
        return Some(id);
      }
      if state == Remote {
        state := Retry;
      }
      retryQueued := true;
      offer := None;
    }

    method RestartIce() returns (offer: Option<u32>)
      modifies this
      ensures View() == Step(old(View()), IceRestart)
      ensures offer == Offer(old(View()), IceRestart)
    {
      if pendingOfferId.Some? {
        retryQueued := true;
      }
      var id := Issue();
      offer := Some(id);
    }

    method HandleRemoteAnswer(answerId: u32) returns (offer: Option<u32>)
      modifies this
      ensures View() == Step(old(View()), Answer(answerId))
      ensures offer == Offer(old(View()), Answer(answerId))
    {
      if pendingOfferId != Some(answerId) {
        return None;
      }
      pendingOfferId := None;
      if retryQueued {
        retryQueued := false;
        var id := Issue();
        return Some(id);
      }
      state := Idle;
      offer := None;
    }

    method OnNegotiationTimeout() returns (failed: bool)
      modifies this
      ensures View() == Step(old(View()), Timeout)
      ensures failed == old(pendingOfferId).Some?
    {
      if pendingOfferId == None {
        return false;
      }
      pendingOfferId, retryQueued, state := None, false, Idle;
      failed := true;
    }

    method Issue() returns (id: u32)
      modifies this
      ensures View() == IssueOffer(old(View())) && id == nextOfferId
    {
      nextOfferId := WrappingIncrement(nextOfferId);
      if nextOfferId == 0 {
        nextOfferId := 1;
      }
      pendingOfferId := Some(nextOfferId);
      state := Remote;
      id := nextOfferId;
    }
  }

  // ---------- Runs ----------

  function Run(c: Controller, es: seq<Event>): Controller {
    if es == [] then c else Step(Run(c, es[..|es| - 1]), es[|es| - 1])
  }

  /** Number of offers issued in a run. */
  function Offers(c: Controller, es: seq<Event>): nat {
    if es == [] then 0
    else
      var front := es[..|es| - 1];
      Offers(c, front) + (if Issues(Run(c, front), es[|es| - 1]) then 1 else 0)
  }

  /** The ID of the `k`-th offer of a run; 0 before the first. */
  function NthId(k: nat): u32 {
    if k == 0 then 0 else (k - 1) % OFFER_IDS + 1
  }

  lemma {:induction false} NextNthId(k: nat)
    ensures var next := WrappingIncrement(NthId(k)); NthId(k + 1) == if next == 0 then 1 else next
  {
    if k > 0 {
      var m := (k - 1) % OFFER_IDS;
      assert k == (k - 1) / OFFER_IDS * OFFER_IDS + m + 1;
      if m + 1 < OFFER_IDS {
        assert k % OFFER_IDS == m + 1;
      } else {
        assert k % OFFER_IDS == 0;
      }
    }
  }

  /** What every reachable state keeps after `n` offers. */
  ghost predicate Coherent(c: Controller, n: nat) {
    && c.nextOfferId == NthId(n)
    && (c.pending == None <==> c.phase == Idle)
    && (c.pending.Some? ==> n > 0 && c.pending.value == c.nextOfferId)
    && (c.retryQueued ==> c.pending.Some?)
    && (c.phase == Retry ==> c.retryQueued)
  }

  lemma {:induction false} StepCoherent(c: Controller, n: nat, e: Event)
    requires Coherent(c, n)
    ensures Coherent(Step(c, e), if Issues(c, e) then n + 1 else n)
  {
    NextNthId(n);
  }

  /** In every reachable state a pending ID is the latest offer's, the controller is idle exactly
      when nothing is pending, and a queued retry has an offer to wait for. */
  lemma {:induction false} RunCoherent(es: seq<Event>)
    ensures Coherent(Run(INITIAL, es), Offers(INITIAL, es))
  {
    if es != [] {
      var front := es[..|es| - 1];
      RunCoherent(front);
      StepCoherent(Run(INITIAL, front), Offers(INITIAL, front), es[|es| - 1]);
    }
  }

  /** The k-th offer of any run has ID ((k - 1) mod (2^32 - 1)) + 1. */
  lemma {:induction false} OfferIdFormula(es: seq<Event>, e: Event)
    requires Issues(Run(INITIAL, es), e)
    ensures Offer(Run(INITIAL, es), e) == Some(NthId(Offers(INITIAL, es) + 1))
    ensures NthId(Offers(INITIAL, es) + 1) != 0
  {
    RunCoherent(es);
    NextNthId(Offers(INITIAL, es));
  }

  // ---------- Stale answers ----------

  lemma {:induction false} SameIdExactly(k: nat, n: nat)
    requires 1 <= k <= n
    ensures NthId(k) == NthId(n) <==> (n - k) % OFFER_IDS == 0
  {
    var a, b := (k - 1) / OFFER_IDS, (n - 1) / OFFER_IDS;
    var r, s := (k - 1) % OFFER_IDS, (n - 1) % OFFER_IDS;
    assert n - k == (b - a) * OFFER_IDS + (s - r);
    if s >= r {
      RemainderOf(n - k, b - a, s - r);
    } else {
      assert n - k == (b - a - 1) * OFFER_IDS + (s - r + OFFER_IDS);
      RemainderOf(n - k, b - a - 1, s - r + OFFER_IDS);
    }
  }

  lemma {:induction false} RemainderOf(x: nat, q: int, r: nat)
    requires x == q * OFFER_IDS + r && r < OFFER_IDS
    ensures x % OFFER_IDS == r
  {}

  /** An answer to the k-th of n offers has an effect exactly when an offer is pending and k lies
      a whole number of ID cycles before n. So an answer to any earlier offer among the last
      2^32 - 1 leaves the controller as it was. */
  lemma {:induction false} StaleAnswers(es: seq<Event>, k: nat)
    requires 1 <= k <= Offers(INITIAL, es)
    ensures var c := Run(INITIAL, es);
            Step(c, Answer(NthId(k))) != c
            <==> c.pending.Some? && (Offers(INITIAL, es) - k) % OFFER_IDS == 0
    ensures 0 < Offers(INITIAL, es) - k < OFFER_IDS ==>
              Step(Run(INITIAL, es), Answer(NthId(k))) == Run(INITIAL, es)
  {
    RunCoherent(es);
    SameIdExactly(k, Offers(INITIAL, es));
  }

  // ---------- No request is lost, none is answered twice ----------

  predicate Requests(e: Event) { e == Negotiate(true) || e == IceRestart }

  predicate NoTimeout(es: seq<Event>) { forall i :: 0 <= i < |es| ==> es[i] != Timeout }

  lemma {:induction false} RunConcat(c: Controller, a: seq<Event>, b: seq<Event>)
    ensures Run(c, a + b) == Run(Run(c, a), b)
    ensures Offers(c, a + b) == Offers(c, a) + Offers(Run(c, a), b)
  {
    if b == [] {
      assert a + b == a;
    } else {
      RunConcat(c, a, b[..|b| - 1]);
      assert (a + b)[..|a + b| - 1] == a + b[..|b| - 1];
    }
  }

  /** A queued retry stays queued until an offer is issued. */
  lemma {:induction false} QueuedUntilOffered(c: Controller, es: seq<Event>)
    requires c.retryQueued && NoTimeout(es)
    ensures Run(c, es).retryQueued || Offers(c, es) > 0
  {
    if es != [] {
      QueuedUntilOffered(c, es[..|es| - 1]);
    }
  }

  /** After every forced negotiate or restart, the controller issues an offer before it is idle
      again, unless a timeout intervenes; a restart that interrupts a cycle issues two. */
  lemma {:induction false} NoRequestIsLost(before: seq<Event>, request: Event, after: seq<Event>)
    requires Requests(request) && NoTimeout(after)
    requires Run(INITIAL, before + [request] + after).phase == Idle
    ensures var interrupted := request == IceRestart && Run(INITIAL, before).pending.Some?;
            Offers(INITIAL, before + [request] + after) >= Offers(INITIAL, before) + (if interrupted then 2 else 1)
  {
    var es := before + [request];
    assert es[..|es| - 1] == before;
    RunConcat(INITIAL, es, after);
    RunCoherent(es + after);
    RunCoherent(before);
    if Run(INITIAL, before).pending.Some? {
      QueuedUntilOffered(Run(INITIAL, es), after);
    }
  }

  function CountEvents(es: seq<Event>, e: Event): nat {
    if es == [] then 0 else CountEvents(es[..|es| - 1], e) + (if es[|es| - 1] == e then 1 else 0)
  }

  /** Over any run, offers number at most the forced negotiates plus twice the restarts. */
  lemma {:induction false} OffersAreRequested(es: seq<Event>)
    ensures Offers(INITIAL, es) + (if Run(INITIAL, es).retryQueued then 1 else 0)
         <= CountEvents(es, Negotiate(true)) + 2 * CountEvents(es, IceRestart)
  {
    if es != [] {
      OffersAreRequested(es[..|es| - 1]);
    }
  }

  /** Without new requests, answering what is pending at most twice makes the controller idle. */
  lemma {:induction false} TwoAnswersSettle(es: seq<Event>)
    requires Run(INITIAL, es).pending.Some?
    ensures var c := Run(INITIAL, es);
            var c1 := Step(c, Answer(c.pending.value));
            && (!c.retryQueued ==> c1.phase == Idle)
            && (c.retryQueued ==> c1.pending.Some? && Step(c1, Answer(c1.pending.value)).phase == Idle)
  {
    RunCoherent(es);
  }

  // ---------- Events in reachable states ----------

  /** `c'` has just issued the offer. */
  predicate Issued(c': Controller, offer: Option<u32>, retryQueued: bool) {
    offer == Some(c'.nextOfferId) && c' == Controller(c'.nextOfferId, Some(c'.nextOfferId), retryQueued, Remote)
  }

  /** A request that nobody forces does nothing; a forced one waits for the pending answer, at most once. */
  lemma {:induction false} NegotiateExactly(es: seq<Event>)
    ensures var c := Run(INITIAL, es);
            && Step(c, Negotiate(false)) == c && Offer(c, Negotiate(false)) == None
            && (c.pending.Some? ==>
                  Step(c, Negotiate(true)) == Controller(c.nextOfferId, c.pending, true, Retry)
                  && Offer(c, Negotiate(true)) == None)
            && (c.pending == None ==> Issued(Step(c, Negotiate(true)), Offer(c, Negotiate(true)), false))
  {
    RunCoherent(es);
  }

  /** A restart always offers, and asks for one more when it interrupts a cycle. */
  lemma {:induction false} RestartExactly(es: seq<Event>)
    ensures var c := Run(INITIAL, es);
            Issued(Step(c, IceRestart), Offer(c, IceRestart), c.pending.Some?)
  {
    RunCoherent(es);
  }

  /** The pending answer settles the cycle or releases the queued offer; no other answer does anything. */
  lemma {:induction false} AnswerExactly(es: seq<Event>, id: u32)
    ensures var c := Run(INITIAL, es);
            && (c.pending != Some(id) ==> Step(c, Answer(id)) == c && Offer(c, Answer(id)) == None)
            && (c.pending == Some(id) && !c.retryQueued ==>
                  Step(c, Answer(id)) == Controller(c.nextOfferId, None, false, Idle) && Offer(c, Answer(id)) == None)
            && (c.pending == Some(id) && c.retryQueued ==>
                  Issued(Step(c, Answer(id)), Offer(c, Answer(id)), false))
  {
    RunCoherent(es);
  }

  /** A timeout settles every cycle: no answer has an effect any more, and a forced request is offered at once. */
  lemma {:induction false} TimeoutExactly(es: seq<Event>, id: u32)
    ensures var c := Step(Run(INITIAL, es), Timeout);
            && c == Controller(Run(INITIAL, es).nextOfferId, None, false, Idle)
            && Issues(c, Negotiate(true)) && Step(c, Answer(id)) == c
    ensures Offer(Run(INITIAL, es), Timeout) == None
  {
    RunCoherent(es);
  }
}
