/** What every interleaving of the dispatch protocol keeps. */
module AgentSafety {
  import opened Results
  import opened AgentDispatch

  // ---------- Assignments are backed by a request and a willing answer ----------

  /** Everything the protocol needs to have happened before this assignment. */
  ghost predicate BackedBy(e: Entry, earlier: seq<Entry>)
    requires e.Assigned?
  {
    && Registered(e.worker, e.key.Type()) in earlier
    && Requested(e.worker, e.job, e.key) in earlier
    && Answered(e.worker, e.job, Reply(true, false)) in earlier
  }

  ghost predicate Backed(log: seq<Entry>) {
    forall n :: 0 <= n < |log| && log[n].Assigned? ==> BackedBy(log[n], log[..n])
  }

  /** No job is assigned twice and no waiting call is answered twice. */
  ghost predicate Once(log: seq<Entry>) {
    && (forall m, n :: 0 <= m < n < |log| && log[m].Assigned? && log[n].Assigned? ==> log[m].job != log[n].job)
    && (forall m, n :: 0 <= m < n < |log| && log[m].Delivered? && log[n].Delivered? ==> log[m].job != log[n].job)
  }

  ghost predicate AssignedIn(job: JobId, log: seq<Entry>) {
    exists n :: 0 <= n < |log| && log[n].Assigned? && log[n].job == job
  }

  ghost predicate DeliveredIn(job: JobId, log: seq<Entry>) {
    exists n :: 0 <= n < |log| && log[n].Delivered? && log[n].job == job
  }

  ghost predicate Waiting(s: State, job: JobId) {
    exists w :: w in s.workers && job in s.workers[w].pending
  }

  ghost predicate WorkersKnown(s: State) {
    forall w :: w in s.workers ==>
      && w < s.nextWorker && Registered(w, s.workers[w].jobType) in s.log
      && forall job :: job in s.workers[w].pending ==> job < s.nextJob && !DeliveredIn(job, s.log)
  }

  /** A job waits at one worker only. */
  ghost predicate WaitsOnce(s: State) {
    forall v, w, job :: v in s.workers && w in s.workers && job in s.workers[v].pending && job in s.workers[w].pending
      ==> v == w
  }

  ghost predicate CallSound(s: State, key: Key, c: Call) {
    && c.job < s.nextJob
    && Registered(c.worker, key.Type()) in s.log
    && !AssignedIn(c.job, s.log)
    && (c.stage == Chosen ==> c.reply == None && !DeliveredIn(c.job, s.log) && !Waiting(s, c.job))
    && (c.stage == Asked ==> Requested(c.worker, c.job, key) in s.log)
    && (c.reply.Some? ==> Answered(c.worker, c.job, c.reply.value) in s.log)
    && (forall w :: w in s.workers && c.job in s.workers[w].pending ==> w == c.worker)
  }

  ghost predicate CallsSound(s: State) {
    forall i :: 0 <= i < |s.attempts| && s.attempts[i].call.Some? ==>
      CallSound(s, s.attempts[i].key, s.attempts[i].call.value)
  }

  ghost predicate CallsDistinct(s: State) {
    forall i, j :: 0 <= i < j < |s.attempts| && s.attempts[i].call.Some? && s.attempts[j].call.Some? ==>
      s.attempts[i].call.value.job != s.attempts[j].call.value.job
  }

  ghost predicate JobsIssued(s: State) {
    forall n :: 0 <= n < |s.log| && (s.log[n].Assigned? || s.log[n].Delivered?) ==> s.log[n].job < s.nextJob
  }

  ghost predicate Sound(s: State) {
    && Backed(s.log) && Once(s.log) && JobsIssued(s)
    && WorkersKnown(s) && WaitsOnce(s) && CallsSound(s) && CallsDistinct(s)
  }

  lemma {:induction false} LogPush(log: seq<Entry>, e: Entry)
    ensures Backed(log) && (e.Assigned? ==> BackedBy(e, log)) ==> Backed(log + [e])
    ensures Once(log) && (e.Assigned? ==> !AssignedIn(e.job, log)) && (e.Delivered? ==> !DeliveredIn(e.job, log))
        ==> Once(log + [e])
    ensures forall job :: AssignedIn(job, log + [e]) <==> AssignedIn(job, log) || (e.Assigned? && e.job == job)
    ensures forall job :: DeliveredIn(job, log + [e]) <==> DeliveredIn(job, log) || (e.Delivered? && e.job == job)
    ensures forall x :: x in log + [e] <==> x in log || x == e
  {
    var log' := log + [e];
    forall n | 0 <= n < |log| ensures log'[n] == log[n] && log'[..n] == log[..n] {}
    assert log'[..|log|] == log;
    forall job ensures AssignedIn(job, log') <==> AssignedIn(job, log) || (e.Assigned? && e.job == job) {
      if e.Assigned? && e.job == job { assert log'[|log|].Assigned?; }
      if AssignedIn(job, log) {
        var n :| 0 <= n < |log| && log[n].Assigned? && log[n].job == job;
        assert log'[n].Assigned?;
      }
    }
    forall job ensures DeliveredIn(job, log') <==> DeliveredIn(job, log) || (e.Delivered? && e.job == job) {
      if e.Delivered? && e.job == job { assert log'[|log|].Delivered?; }
      if DeliveredIn(job, log) {
        var n :| 0 <= n < |log| && log[n].Delivered? && log[n].job == job;
        assert log'[n].Delivered?;
      }
    }
  }

  lemma {:induction false} RegisterSound(s: State, t: JobType, ns: string, name: string, deployment: string)
    requires Sound(s)
    ensures Sound(Next(s, Register(t, ns, name, deployment)))
  {
    LogPush(s.log, Registered(s.nextWorker, t));
  }

  lemma {:induction false} ChooseSound(s: State, i: nat, w: WorkerId, d: Dispatch)
    requires Sound(s)
    ensures Sound(Next(s, Choose(i, w, d)))
  {
    assert !AssignedIn(s.nextJob, s.log) && !DeliveredIn(s.nextJob, s.log);
  }

  /** Listing a job makes exactly its own call wait, at its own worker. */
  lemma {:induction false} ListWaits(s: State, i: nat)
    requires Sound(s) && Calling(s, i, Chosen) && s.attempts[i].call.value.worker in s.workers
    ensures var c := s.attempts[i].call.value;
            var s' := Next(s, List(i));
            forall w, job :: w in s'.workers && job in s'.workers[w].pending ==>
              w in s.workers && (job in s.workers[w].pending || (job == c.job && w == c.worker))
    ensures WorkersKnown(Next(s, List(i))) && WaitsOnce(Next(s, List(i)))
  {
    assert CallSound(s, s.attempts[i].key, s.attempts[i].call.value);
  }

  lemma {:induction false} ListCalls(s: State, i: nat, j: nat)
    requires Sound(s) && Calling(s, i, Chosen) && s.attempts[i].call.value.worker in s.workers
    requires j < |s.attempts| && s.attempts[j].call.Some?
    ensures var s' := Next(s, List(i));
            && s'.attempts[j].call.Some? && s'.attempts[j].call.value.job == s.attempts[j].call.value.job
            && CallSound(s', s'.attempts[j].key, s'.attempts[j].call.value)
  {
    ListWaits(s, i);
    assert CallSound(s, s.attempts[j].key, s.attempts[j].call.value);
    if j != i {
      assert s.attempts[j].call.value.job != s.attempts[i].call.value.job;
    }
  }

  lemma {:induction false} ListSound(s: State, i: nat)
    requires Sound(s)
    ensures Sound(Next(s, List(i)))
  {
    if Calling(s, i, Chosen) {
      if s.attempts[i].call.value.worker !in s.workers {
        DropCallSound(s, i);
      } else {
        ListWaits(s, i);
        forall j: nat | j < |s.attempts| && s.attempts[j].call.Some?
          ensures var s' := Next(s, List(i));
                  && s'.attempts[j].call.Some? && s'.attempts[j].call.value.job == s.attempts[j].call.value.job
                  && CallSound(s', s'.attempts[j].key, s'.attempts[j].call.value)
        {
          ListCalls(s, i, j);
        }
      }
    }
  }

  lemma {:induction false} DropCallSound(s: State, i: nat)
    requires Sound(s) && i < |s.attempts|
    ensures Sound(SetCall(s, i, None))
  {
    var s' := SetCall(s, i, None);
    forall j | 0 <= j < |s'.attempts| && s'.attempts[j].call.Some?
      ensures s'.attempts[j] == s.attempts[j] && CallSound(s', s'.attempts[j].key, s'.attempts[j].call.value)
    {
      assert CallSound(s, s.attempts[j].key, s.attempts[j].call.value);
    }
  }

  /** Workers may leave, change status, or have jobs taken off their lists. */
  lemma {:induction false} WorkersShrinkSound(s: State, workers: map<WorkerId, Worker>)
    requires Sound(s)
    requires forall v :: v in workers ==>
               && v in s.workers && workers[v].jobType == s.workers[v].jobType
                && workers[v].pending <= s.workers[v].pending
    ensures Sound(s.(workers := workers))
  {
    var s' := s.(workers := workers);
    forall i | 0 <= i < |s'.attempts| && s'.attempts[i].call.Some?
      ensures CallSound(s', s'.attempts[i].key, s'.attempts[i].call.value)
    {
      assert CallSound(s, s.attempts[i].key, s.attempts[i].call.value);
    }
  }

  /** Recording a message that is neither an assignment nor a delivery. */
  lemma {:induction false} PlainEntrySound(s: State, e: Entry)
    requires Sound(s) && !e.Assigned? && !e.Delivered?
    ensures Sound(s.(log := s.log + [e]))
  {
    LogPush(s.log, e);
    var s' := s.(log := s.log + [e]);
    forall i | 0 <= i < |s'.attempts| && s'.attempts[i].call.Some?
      ensures CallSound(s', s'.attempts[i].key, s'.attempts[i].call.value)
    {
      assert CallSound(s, s.attempts[i].key, s.attempts[i].call.value);
    }
  }

  lemma {:induction false} StageSound(s: State, i: nat)
    requires Sound(s) && Calling(s, i, Listed)
    requires Requested(s.attempts[i].call.value.worker, s.attempts[i].call.value.job, s.attempts[i].key) in s.log
    ensures Sound(SetCall(s, i, Some(s.attempts[i].call.value.(stage := Asked))))
  {
    var s' := SetCall(s, i, Some(s.attempts[i].call.value.(stage := Asked)));
    forall j | 0 <= j < |s'.attempts| && s'.attempts[j].call.Some?
      ensures s.attempts[j].call.Some? && s.attempts[j].call.value.job == s'.attempts[j].call.value.job
      ensures CallSound(s', s'.attempts[j].key, s'.attempts[j].call.value)
    {
      assert CallSound(s, s.attempts[j].key, s.attempts[j].call.value);
    }
  }

  lemma {:induction false} AskSound(s: State, i: nat, sent: bool)
    requires Sound(s)
    ensures Sound(Next(s, Ask(i, sent)))
  {
    if Calling(s, i, Listed) {
      var c := s.attempts[i].call.value;
      if sent {
        var request := Requested(c.worker, c.job, s.attempts[i].key);
        PlainEntrySound(s, request);
        StageSound(s.(log := s.log + [request]), i);
      } else {
        DropCallSound(s, i);
        WorkersShrinkSound(SetCall(s, i, None), Unlist(s.workers, c.worker, c.job));
      }
    }
  }

  /** Delivering an answer takes the job off the worker's list and hands the reply to its call. */
  lemma {:induction false} DeliverSound(s: State, w: WorkerId, job: JobId, reply: Reply)
    requires Sound(s)
    requires w in s.workers && job in s.workers[w].pending
    requires Answered(w, job, reply) in s.log
    ensures Sound(s.(workers := Unlist(s.workers, w, job), attempts := Deliver(s.attempts, job, reply),
                     log := s.log + [Delivered(w, job)]))
  {
    var s' := s.(workers := Unlist(s.workers, w, job), attempts := Deliver(s.attempts, job, reply),
                 log := s.log + [Delivered(w, job)]);
    LogPush(s.log, Delivered(w, job));
    forall v, j | v in s'.workers && j in s'.workers[v].pending
      ensures v in s.workers && j in s.workers[v].pending && j != job
    {}
    forall i | 0 <= i < |s'.attempts| && s'.attempts[i].call.Some?
      ensures s.attempts[i].call.Some?
      ensures s'.attempts[i].call.value.job == s.attempts[i].call.value.job
      ensures CallSound(s', s'.attempts[i].key, s'.attempts[i].call.value)
    {
      assert CallSound(s, s.attempts[i].key, s.attempts[i].call.value);
    }
  }

  lemma {:induction false} RespondSound(s: State, w: WorkerId, job: JobId, reply: Reply)
    requires Sound(s)
    ensures Sound(Next(s, Respond(w, job, reply)))
  {
    PlainEntrySound(s, Answered(w, job, reply));
    if w in s.workers && job in s.workers[w].pending {
      DeliverSound(s.(log := s.log + [Answered(w, job, reply)]), w, job, reply);
    }
  }

  /** An assignment is recorded only after its call is over, so no call carries its job any more. */
  lemma {:induction false} AssignedEntrySound(s: State, w: WorkerId, job: JobId, key: Key)
    requires Sound(s) && job < s.nextJob && !AssignedIn(job, s.log)
    requires BackedBy(Assigned(w, job, key), s.log)
    requires forall i :: 0 <= i < |s.attempts| && s.attempts[i].call.Some? ==> s.attempts[i].call.value.job != job
    ensures Sound(s.(log := s.log + [Assigned(w, job, key)]))
  {
    LogPush(s.log, Assigned(w, job, key));
    var s' := s.(log := s.log + [Assigned(w, job, key)]);
    forall i | 0 <= i < |s'.attempts| && s'.attempts[i].call.Some?
      ensures CallSound(s', s'.attempts[i].key, s'.attempts[i].call.value)
    {
      assert CallSound(s, s.attempts[i].key, s.attempts[i].call.value);
    }
  }

  /** Soundness does not look at the jobs an attempt has collected or whether it is over. */
  lemma {:induction false} BookkeepingSound(s: State, i: nat, jobs: set<JobId>, finished: bool)
    requires Sound(s) && i < |s.attempts|
    ensures Sound(s.(attempts := s.attempts[i := s.attempts[i].(jobs := jobs, finished := finished)]))
  {
    var s' := s.(attempts := s.attempts[i := s.attempts[i].(jobs := jobs, finished := finished)]);
    forall j | 0 <= j < |s'.attempts| && s'.attempts[j].call.Some?
      ensures s'.attempts[j].call == s.attempts[j].call
      ensures CallSound(s', s'.attempts[j].key, s'.attempts[j].call.value)
    {
      assert CallSound(s, s.attempts[j].key, s.attempts[j].call.value);
    }
  }

  lemma {:induction false} AssignSound(s: State, i: nat, sent: bool)
    requires Sound(s)
    ensures Sound(Next(s, Assign(i, sent)))
  {
    if Calling(s, i, Asked) && s.attempts[i].call.value.reply.Some? {
      var a := s.attempts[i];
      var c := a.call.value;
      DropCallSound(s, i);
      if !c.reply.value.terminate && c.reply.value.available && sent {
        assert CallSound(s, a.key, c);
        assert c.reply.value == Reply(true, false);
        var s1 := SetCall(s, i, None);
        AssignedEntrySound(s1, c.worker, c.job, a.key);
        var s2 := s1.(log := s.log + [Assigned(c.worker, c.job, a.key)]);
        BookkeepingSound(s2, i, a.jobs + {c.job}, false);
        assert s2.attempts[i := s2.attempts[i].(jobs := a.jobs + {c.job}, finished := false)]
            == s.attempts[i := a.(call := None, jobs := a.jobs + {c.job})];
      }
    }
  }

  lemma {:induction false} BeginSound(s: State, key: Key)
    requires Sound(s)
    ensures Sound(Next(s, Begin(key)))
  {
    var s' := Next(s, Begin(key));
    forall j | 0 <= j < |s'.attempts| && s'.attempts[j].call.Some?
      ensures j < |s.attempts| && s'.attempts[j] == s.attempts[j]
      ensures CallSound(s', s'.attempts[j].key, s'.attempts[j].call.value)
    {
      assert CallSound(s, s.attempts[j].key, s.attempts[j].call.value);
    }
  }

  /** Soundness does not look at the markers. */
  lemma {:induction false} MarkersSound(s: State, marked: set<Key>)
    requires Sound(s)
    ensures Sound(s.(marked := marked))
  {
    var s' := s.(marked := marked);
    forall j | 0 <= j < |s'.attempts| && s'.attempts[j].call.Some?
      ensures CallSound(s', s'.attempts[j].key, s'.attempts[j].call.value)
    {
      assert CallSound(s, s.attempts[j].key, s.attempts[j].call.value);
    }
  }

  lemma {:induction false} NextSound(s: State, e: Event)
    requires Sound(s)
    ensures Sound(Next(s, e))
  {
    match e
    case Register(t, ns, name, deployment) => RegisterSound(s, t, ns, name, deployment);
    case Choose(i, w, d) => ChooseSound(s, i, w, d);
    case List(i) => ListSound(s, i);
    case Ask(i, sent) => AskSound(s, i, sent);
    case Respond(w, job, reply) => RespondSound(s, w, job, reply);
    case Assign(i, sent) => AssignSound(s, i, sent);
    case UpdateStatus(w, available, overloaded) => WorkersShrinkSound(s, Next(s, e).workers);
    case Unregister(w) => WorkersShrinkSound(s, s.workers - {w});
    case Begin(key) => BeginSound(s, key);
    case GiveUp(i) =>
      if i < |s.attempts| {
        DropCallSound(s, i);
      }
    case Finish(i) =>
      if i < |s.attempts| {
        BookkeepingSound(s, i, s.attempts[i].jobs, true);
        MarkersSound(s.(attempts := s.attempts[i := s.attempts[i].(finished := true)]), Next(s, e).marked);
      }
    case ReleaseMarks(_) => MarkersSound(s, Next(s, e).marked);
  }

  lemma {:induction false} RunSound(es: seq<Event>)
    ensures Sound(Run(INITIAL, es))
  {
    if es != [] {
      RunSound(es[..|es| - 1]);
      NextSound(Run(INITIAL, es[..|es| - 1]), es[|es| - 1]);
    }
  }

  /** In every interleaving, each assignment sent to a worker comes after that worker registered
      for the job's type, was asked about the job, and answered available and not terminating. */
  lemma {:induction false} AssignmentsAreBacked(es: seq<Event>, n: nat)
    requires n < |Run(INITIAL, es).log| && Run(INITIAL, es).log[n].Assigned?
    ensures var log := Run(INITIAL, es).log;
            && Registered(log[n].worker, log[n].key.Type()) in log[..n]
            && Requested(log[n].worker, log[n].job, log[n].key) in log[..n]
            && Answered(log[n].worker, log[n].job, Reply(true, false)) in log[..n]
  {
    RunSound(es);
  }

  /** In every interleaving, a job is assigned at most once and its waiting call is answered at
      most once. */
  lemma {:induction false} JobsAreAssignedOnce(es: seq<Event>, m: nat, n: nat)
    requires m < n < |Run(INITIAL, es).log|
    requires var log := Run(INITIAL, es).log;
             (log[m].Assigned? && log[n].Assigned?) || (log[m].Delivered? && log[n].Delivered?)
    ensures Run(INITIAL, es).log[m].job != Run(INITIAL, es).log[n].job
  {
    RunSound(es);
  }

  // ---------- No marker is stuck ----------

  /** The attempt holds the marker of `k`: it is running, or it got a job assigned. */
  ghost predicate Supports(s: State, i: nat, k: Key) {
    i < |s.attempts| && s.attempts[i].key == k && (!s.attempts[i].finished || s.attempts[i].jobs != {})
  }

  ghost predicate Supported(s: State) {
    forall k :: k in s.marked ==> exists i :: Supports(s, i, k)
  }

  ghost predicate JobsLogged(s: State) {
    forall i, job :: 0 <= i < |s.attempts| && job in s.attempts[i].jobs ==>
      exists w :: Assigned(w, job, s.attempts[i].key) in s.log
  }

  /** No event but the failure of the attempt itself ends its support, and that takes the marker. */
  lemma {:induction false} SupportLasts(s: State, e: Event, i: nat, k: Key)
    requires Supports(s, i, k)
    ensures Supports(Next(s, e), i, k) || k !in Next(s, e).marked
  {}

  lemma {:induction false} NextSupported(s: State, e: Event)
    requires Supported(s)
    ensures Supported(Next(s, e))
  {
    var s' := Next(s, e);
    forall k | k in s'.marked ensures exists i :: Supports(s', i, k) {
      if k in s.marked {
        var i: nat :| Supports(s, i, k);
        SupportLasts(s, e, i, k);
      } else {
        assert Supports(s', |s.attempts|, k);
      }
    }
  }

  lemma {:induction false} NextJobsLogged(s: State, e: Event)
    requires JobsLogged(s)
    ensures JobsLogged(Next(s, e))
  {
    var s' := Next(s, e);
    forall i, job | 0 <= i < |s'.attempts| && job in s'.attempts[i].jobs
      ensures exists w :: Assigned(w, job, s'.attempts[i].key) in s'.log
    {
      if i < |s.attempts| && job in s.attempts[i].jobs {
        var w :| Assigned(w, job, s.attempts[i].key) in s.log;
        assert Assigned(w, job, s'.attempts[i].key) in s'.log;
      } else {
        var c := s.attempts[i].call.value;
        assert s'.log[|s.log|] == Assigned(c.worker, job, s'.attempts[i].key);
      }
    }
  }

  /** In every interleaving of attempts, successes, failures and releases, a marked key has an
      attempt that is running or that sent an assignment for that key. */
  lemma {:induction false} MarkersAreNeverStuck(es: seq<Event>, k: Key)
    requires k in Run(INITIAL, es).marked
    ensures var s := Run(INITIAL, es);
            exists i :: 0 <= i < |s.attempts| && s.attempts[i].key == k
              && (!s.attempts[i].finished
                  || exists w, job :: job in s.attempts[i].jobs && Assigned(w, job, k) in s.log)
  {
    RunSupported(es);
    var s := Run(INITIAL, es);
    var i: nat :| Supports(s, i, k);
    if s.attempts[i].finished {
      var job :| job in s.attempts[i].jobs;
      var w :| Assigned(w, job, s.attempts[i].key) in s.log;
    }
  }

  lemma {:induction false} RunSupported(es: seq<Event>)
    ensures Supported(Run(INITIAL, es)) && JobsLogged(Run(INITIAL, es))
  {
    if es != [] {
      RunSupported(es[..|es| - 1]);
      NextSupported(Run(INITIAL, es[..|es| - 1]), es[|es| - 1]);
      NextJobsLogged(Run(INITIAL, es[..|es| - 1]), es[|es| - 1]);
    }
  }

  // ---------- One attempt at a time, exactly when releases are harmless ----------

  ghost predicate Failed(s: State, i: nat)
    requires i < |s.attempts|
  {
    s.attempts[i].finished && s.attempts[i].jobs == {}
  }

  /** Among the attempts for `k` from index `base` on, all but the last have failed, and one that
      has not failed holds the marker. */
  ghost predicate OneAtATime(s: State, k: Key, base: nat) {
    && base <= |s.attempts|
    && (forall i :: base <= i < |s.attempts| && s.attempts[i].key == k ==> Failed(s, i) || k in s.marked)
    && (forall i, j :: base <= i < j < |s.attempts| && s.attempts[i].key == k && s.attempts[j].key == k ==>
          Failed(s, i))
    && (forall i :: 0 <= i < base && s.attempts[i].key == k ==> s.attempts[i].finished)
  }

  /** What an event may do to attempts and markers. */
  ghost predicate Frame(s: State, e: Event, s': State) {
    && |s.attempts| <= |s'.attempts|
    && (forall i :: 0 <= i < |s.attempts| ==>
          && s'.attempts[i].key == s.attempts[i].key
          && (s.attempts[i].finished ==> s'.attempts[i].finished && s'.attempts[i].jobs == s.attempts[i].jobs))
    && (|s.attempts| < |s'.attempts| ==>
          && |s'.attempts| == |s.attempts| + 1
          && s'.attempts[|s.attempts|].key !in s.marked && s'.attempts[|s.attempts|].key in s'.marked)
    && (forall k :: k in s.marked && k !in s'.marked ==>
          || (e.ReleaseMarks? && Covers(e.release, k))
          || (e.Finish? && InFlight(s, e.attempt) && s.attempts[e.attempt].key == k && Failed(s', e.attempt)))
  }

  lemma {:induction false} NextFrame(s: State, e: Event)
    ensures Frame(s, e, Next(s, e))
  {}

  /** Every attempt for `k` from index `base` on has failed. */
  ghost predicate AllFailed(s: State, k: Key, base: nat) {
    forall i :: base <= i < |s.attempts| && s.attempts[i].key == k ==> Failed(s, i)
  }

  lemma {:induction false} FrameOneAtATime(s: State, e: Event, s': State, k: Key, base: nat)
    requires OneAtATime(s, k, base) && Frame(s, e, s')
    requires e.ReleaseMarks? && Covers(e.release, k) ==> AllFailed(s, k, base)
    ensures OneAtATime(s', k, base)
  {}

  /** Whenever `k` is released, every attempt for it begun since `s` has failed. */
  ghost predicate HarmlessReleases(s: State, es: seq<Event>, k: Key) {
    forall n :: 0 <= n < |es| && es[n].ReleaseMarks? && Covers(es[n].release, k) ==>
      AllFailed(Run(s, es[..n]), k, |s.attempts|)
  }

  lemma {:induction false} HarmlessPrefix(s: State, es: seq<Event>, k: Key, n: nat)
    requires HarmlessReleases(s, es, k) && n <= |es|
    ensures HarmlessReleases(s, es[..n], k)
  {
    assert forall i :: 0 <= i < n ==> es[..n][..i] == es[..i];
  }

  ghost predicate NoneRunning(s: State, k: Key) {
    forall i :: 0 <= i < |s.attempts| && s.attempts[i].key == k ==> s.attempts[i].finished
  }

  lemma {:induction false} StretchOneAtATime(s: State, es: seq<Event>, k: Key)
    requires NoneRunning(s, k) && HarmlessReleases(s, es, k)
    ensures OneAtATime(Run(s, es), k, |s.attempts|)
  {
    if es != [] {
      var front := es[..|es| - 1];
      HarmlessPrefix(s, es, k, |es| - 1);
      StretchOneAtATime(s, front, k);
      NextFrame(Run(s, front), es[|es| - 1]);
      FrameOneAtATime(Run(s, front), es[|es| - 1], Run(s, es), k, |s.attempts|);
    }
  }

  /** Two attempts for `k` from index `base` on, neither of which has failed. */
  ghost predicate Overlap(s: State, k: Key, base: nat) {
    exists i, j :: base <= i < j < |s.attempts| && s.attempts[i].key == k && s.attempts[j].key == k
      && !Failed(s, i) && !Failed(s, j)
  }

  /** Releasing `k` under an attempt that has not failed lets the next one begin beside it. */
  lemma {:induction false} ReleaseOverlaps(s: State, k: Key, r: Release, base: nat)
    requires Covers(r, k) && !AllFailed(s, k, base)
    ensures Overlap(Next(Next(s, ReleaseMarks(r)), Begin(k)), k, base)
  {
    var i :| base <= i < |s.attempts| && s.attempts[i].key == k && !Failed(s, i);
    var s' := Next(Next(s, ReleaseMarks(r)), Begin(k));
    assert s'.attempts[i] == s.attempts[i] && !Failed(s', i);
    assert s'.attempts[|s.attempts|].key == k && !Failed(s', |s.attempts|);
  }

  /** From any state with no running attempt for `k`, through any interleaving: whenever `k` is tried,
      at most one attempt begun since is running or got a job, exactly when `k` is released only after
      the attempts for it have failed. */
  lemma {:induction false} OneAttemptExactly(s: State, es: seq<Event>, k: Key)
    requires NoneRunning(s, k)
    ensures (forall n :: 0 <= n <= |es| ==> !Overlap(Next(Run(s, es[..n]), Begin(k)), k, |s.attempts|))
            <==> HarmlessReleases(s, es, k)
  {
    if HarmlessReleases(s, es, k) {
      forall n | 0 <= n <= |es| ensures !Overlap(Next(Run(s, es[..n]), Begin(k)), k, |s.attempts|) {
        HarmlessPrefix(s, es, k, n);
        StretchOneAtATime(s, es[..n], k);
        NextFrame(Run(s, es[..n]), Begin(k));
        FrameOneAtATime(Run(s, es[..n]), Begin(k), Next(Run(s, es[..n]), Begin(k)), k, |s.attempts|);
      }
    } else {
      var n :| 0 <= n < |es| && es[n].ReleaseMarks? && Covers(es[n].release, k)
               && !AllFailed(Run(s, es[..n]), k, |s.attempts|);
      ReleaseOverlaps(Run(s, es[..n]), k, es[n].release, |s.attempts|);
      assert es[..n + 1][..n] == es[..n];
      assert Run(s, es[..n + 1]) == Next(Run(s, es[..n]), es[n]);
    }
  }

  /** A run that breaks it: two attempts for one key run at once. */
  lemma {:induction false} ReleaseAllowsOverlap(k: Key, es: seq<Event>)
    requires es == [Begin(k), ReleaseMarks(OneKey(k)), Begin(k)]
    ensures var s := Run(INITIAL, es);
            |s.attempts| == 2 && forall i :: 0 <= i < 2 ==> s.attempts[i].key == k && !s.attempts[i].finished
  {
    var es1, es2 := es[..1], es[..2];
    assert es1 == [Begin(k)] && es1[..0] == [];
    assert es2 == [Begin(k), ReleaseMarks(OneKey(k))] && es2[..1] == es1;
    var s1 := Next(INITIAL, Begin(k));
    assert Run(INITIAL, es1) == s1;
    var s2 := Next(s1, ReleaseMarks(OneKey(k)));
    assert Run(INITIAL, es2) == s2 && k !in s2.marked;
    assert Run(INITIAL, es) == Next(s2, Begin(k));
  }

  // ---------- What an attempt can come to ----------

  /** The state after an attempt has chosen a worker, put the job on its list and asked it. */
  function Offered(s: State, i: nat, w: WorkerId, d: Dispatch): State {
    Next(Next(Next(s, Choose(i, w, d)), List(i)), Ask(i, true))
  }

  /** An attempt offers a job to a worker exactly when it is running and between calls and the worker is registered
      for its type and namespace, available, not overloaded, and has the agent name and the deployment asked for,
      if any. The job is new. */
  lemma {:induction false} ChooseExactly(s: State, i: nat, w: WorkerId, d: Dispatch)
    ensures Next(s, Choose(i, w, d)) != s
       <==> && i < |s.attempts| && !s.attempts[i].finished && s.attempts[i].call == None && w in s.workers
            && (s.workers[w].jobType == match s.attempts[i].key {
                  case RoomKey(_) => JtRoom
                  case ParticipantKey(_, _) => JtParticipant
                  case PublisherKey(_, _) => JtPublisher
                })
            && s.workers[w].namespace == d.namespace && s.workers[w].available && !s.workers[w].overloaded
            && (d.agentName != "" ==> s.workers[w].agentName == d.agentName)
            && (d.deployment != "" ==> s.workers[w].deployment == d.deployment)
    ensures Next(s, Choose(i, w, d)) != s ==>
              && i < |s.attempts|
              && Next(s, Choose(i, w, d)).attempts[i].call == Some(Call(s.nextJob, w, Chosen, None))
  {
    assert Next(s, Choose(i, w, d)) != s ==> Next(s, Choose(i, w, d)).nextJob == s.nextJob + 1;
  }

  /** A worker that registers gets an ID of its own and can be chosen at once for what it registered for. */
  lemma {:induction false} RegisteredCanBeChosen(s: State, i: nat, t: JobType, ns: string, name: string, dep: string)
    requires Sound(s) && InFlight(s, i) && s.attempts[i].call == None && s.attempts[i].key.Type() == t
    ensures s.nextWorker !in s.workers
    ensures var s' := Next(s, Register(t, ns, name, dep));
            && s'.workers - {s.nextWorker} == s.workers
            && Next(s', Choose(i, s.nextWorker, Dispatch(ns, name, dep))) != s'
  {
    var s' := Next(s, Register(t, ns, name, dep));
    assert s'.workers - {s.nextWorker} == s.workers;
    ChooseExactly(s', i, s.nextWorker, Dispatch(ns, name, dep));
  }

  /** What a worker reports decides whether it may be chosen, in all else it stays as it registered; nobody else is
      concerned. */
  lemma {:induction false} StatusDecides(s: State, w: WorkerId, available: bool, overloaded: bool, t: JobType,
                                         d: Dispatch)
    ensures var s' := Next(s, UpdateStatus(w, available, overloaded));
            && s'.workers.Keys == s.workers.Keys && s'.workers - {w} == s.workers - {w}
            && s' == s.(workers := s'.workers)
            && (w in s.workers ==>
                  && (Eligible(s'.workers[w], t, d)
                      <==> && available && !overloaded
                           && Eligible(s.workers[w].(available := true, overloaded := false), t, d))
                  && s'.workers[w].pending == s.workers[w].pending)
  {}

  lemma {:induction false} AbsentStaysAway(s: State, es: seq<Event>, w: WorkerId)
    requires w < s.nextWorker && w !in s.workers
    ensures w < Run(s, es).nextWorker && w !in Run(s, es).workers
  {
    if es != [] {
      AbsentStaysAway(s, es[..|es| - 1], w);
    }
  }

  /** A worker that unregisters does not come back, and is never chosen again; the others stay. */
  lemma {:induction false} UnregisteredStaysAway(s: State, es: seq<Event>, w: WorkerId, i: nat, d: Dispatch)
    requires w < s.nextWorker
    ensures Next(s, Unregister(w)).workers == s.workers - {w}
    ensures var s' := Run(Next(s, Unregister(w)), es);
            w !in s'.workers && Next(s', Choose(i, w, d)) == s'
  {
    AbsentStaysAway(Next(s, Unregister(w)), es, w);
  }

  lemma {:induction false} AskedCall(s: State, i: nat, w: WorkerId, d: Dispatch)
    requires InFlight(s, i) && s.attempts[i].call == None && w in s.workers
    requires Eligible(s.workers[w], s.attempts[i].key.Type(), d)
    ensures var s' := Offered(s, i, w, d);
            && |s'.attempts| == |s.attempts| && w in s'.workers && s.nextJob in s'.workers[w].pending
            && s'.attempts[i] == s.attempts[i].(call := Some(Call(s.nextJob, w, Asked, None)))
            && s'.marked == s.marked
            && s'.log == s.log + [Requested(w, s.nextJob, s.attempts[i].key)]
  {}

  /** The answer of a worker that still waits reaches the call. */
  lemma {:induction false} AnswerArrives(s: State, i: nat, c: Call, reply: Reply)
    requires i < |s.attempts| && s.attempts[i].call == Some(c) && c.stage == Asked
    requires c.worker in s.workers && c.job in s.workers[c.worker].pending
    ensures var s' := Next(s, Respond(c.worker, c.job, reply));
            && |s'.attempts| == |s.attempts|
            && s'.attempts[i] == s.attempts[i].(call := Some(c.(reply := Some(reply))))
            && c.worker in s'.workers && c.job !in s'.workers[c.worker].pending && s'.marked == s.marked
  {}

  /** A call that is answered leads to an assignment exactly when the answer is available and not terminating and
      the assignment is sent; either way the attempt goes on. */
  lemma {:induction false} AssignExactly(s: State, i: nat, c: Call, sent: bool)
    requires InFlight(s, i) && s.attempts[i].call == Some(c) && c.stage == Asked && c.reply.Some?
    ensures var s' := Next(s, Assign(i, sent));
            var assigns := c.reply.value.available && !c.reply.value.terminate && sent;
            && |s'.attempts| == |s.attempts| && !s'.attempts[i].finished && s'.attempts[i].call == None
            && s'.attempts[i].key == s.attempts[i].key && s'.marked == s.marked
            && s'.attempts[i].jobs == s.attempts[i].jobs + (if assigns then {c.job} else {})
            && s'.log == s.log + (if assigns then [Assigned(c.worker, c.job, s.attempts[i].key)] else [])
  {}

  /** When an attempt ends, its marker stays exactly when it got a job; the other markers stay anyway. */
  lemma {:induction false} FinishExactly(s: State, i: nat, k: Key)
    requires InFlight(s, i) && s.attempts[i].call == None
    ensures var s' := Next(s, Finish(i));
            && |s'.attempts| == |s.attempts| && s'.attempts[i] == s.attempts[i].(finished := true)
            && (k in s'.marked <==> k in s.marked && (k == s.attempts[i].key ==> s.attempts[i].jobs != {}))
  {}

  /** From every state, an attempt that chooses a worker and hears from it in time gets the job through exactly
      when the worker is willing: then the key stays marked, and otherwise it may be tried again. */
  lemma {:induction false} AttemptComesTo(s: State, i: nat, w: WorkerId, d: Dispatch, reply: Reply)
    requires InFlight(s, i) && s.attempts[i].call == None && s.attempts[i].jobs == {} && s.attempts[i].key in s.marked
    requires w in s.workers && Eligible(s.workers[w], s.attempts[i].key.Type(), d)
    ensures var key := s.attempts[i].key;
            var s1 := Offered(s, i, w, d);
            var s2 := Next(Next(s1, Respond(w, s.nextJob, reply)), Assign(i, true));
            var s3 := Next(s2, Finish(i));
            var willing := reply.available && !reply.terminate;
            && (Assigned(w, s.nextJob, key) in s2.log[|s1.log|..] <==> willing)
            && (key in s3.marked <==> willing)
  {
    AskedCall(s, i, w, d);
    var s1 := Offered(s, i, w, d);
    AnswerArrives(s1, i, s1.attempts[i].call.value, reply);
    var r := Next(s1, Respond(w, s.nextJob, reply));
    AssignExactly(r, i, r.attempts[i].call.value, true);
    FinishExactly(Next(r, Assign(i, true)), i, s.attempts[i].key);
    var news := [Answered(w, s.nextJob, reply), Delivered(w, s.nextJob)];
    assert r.log == s1.log + news;
    var s2 := Next(r, Assign(i, true));
    assert s2.log[|s1.log|..] == if reply.available && !reply.terminate
                                 then news + [Assigned(w, s.nextJob, s.attempts[i].key)] else news;
  }

  /** Whenever a call ends without a job - the worker is gone, the request cannot be sent, or no answer comes in
      time - the attempt goes on as before; if it then ends, the key may be tried again. */
  lemma {:induction false} FailedCallsRelease(s: State, i: nat, e: Event)
    requires InFlight(s, i) && s.attempts[i].call.Some? && s.attempts[i].jobs == {}
    requires || (e == List(i) && s.attempts[i].call.value.stage == Chosen
                 && s.attempts[i].call.value.worker !in s.workers)
             || (e == Ask(i, false) && s.attempts[i].call.value.stage == Listed)
             || (e == GiveUp(i) && s.attempts[i].call.value.stage == Asked && s.attempts[i].call.value.reply == None)
    ensures var s' := Next(s, e);
            && |s'.attempts| == |s.attempts| && s'.attempts[i] == s.attempts[i].(call := None)
            && s.attempts[i].key !in Next(s', Finish(i)).marked
            && s'.log == s.log
    ensures e == Ask(i, false) && s.attempts[i].call.value.worker in s.workers ==>
              var c := s.attempts[i].call.value;
              c.worker in Next(s, e).workers && c.job !in Next(s, e).workers[c.worker].pending
  {
    FinishExactly(Next(s, e), i, s.attempts[i].key);
  }
}
