/** Agent job dispatch as a concurrent protocol. Every block of the original that holds one lock,
    and every send, is one atomic event; events of different dispatch attempts interleave freely. */
module AgentDispatch {
  import opened Results

  datatype JobType = JtRoom | JtPublisher | JtParticipant

  /** What a job is dispatched for; the three marker sets of the original are one set of keys. */
  datatype Key = RoomKey(room: string) | ParticipantKey(room: string, identity: string)
               | PublisherKey(room: string, identity: string)
  {
    function Type(): JobType {
      match this
      case RoomKey(_) => JtRoom
      case ParticipantKey(_, _) => JtParticipant
      case PublisherKey(_, _) => JtPublisher
    }
  }

  type WorkerId = nat
  type JobId = nat

  datatype Worker = Worker(jobType: JobType, namespace: string, agentName: string, deployment: string,
                           available: bool, overloaded: bool, pending: set<JobId>)

  /** A room's agent dispatch entry together with the namespace being served. */
  datatype Dispatch = Dispatch(namespace: string, agentName: string, deployment: string)

  predicate Eligible(w: Worker, jobType: JobType, d: Dispatch) {
    && w.jobType == jobType && w.namespace == d.namespace
    && w.available && !w.overloaded
    && (d.agentName == "" || w.agentName == d.agentName)
    && (d.deployment == "" || w.deployment == d.deployment)
  }

  datatype Stage = Chosen | Listed | Asked
  datatype Reply = Reply(available: bool, terminate: bool)

  /** One job offered to one worker. */
  datatype Call = Call(job: JobId, worker: WorkerId, stage: Stage, reply: Option<Reply>)

  /** One `try_dispatch` in progress or done; its calls run one after another. */
  datatype Attempt = Attempt(key: Key, call: Option<Call>, jobs: set<JobId>, finished: bool)

  /** What went over the wire, in order; `Delivered` marks an answer that found its waiting call. */
  datatype Entry =
    | Registered(worker: WorkerId, jobType: JobType)
    | Requested(worker: WorkerId, job: JobId, key: Key)
    | Answered(worker: WorkerId, job: JobId, reply: Reply)
    | Delivered(worker: WorkerId, job: JobId)
    | Assigned(worker: WorkerId, job: JobId, key: Key)

  datatype State = State(workers: map<WorkerId, Worker>, nextWorker: WorkerId, nextJob: JobId,
                         marked: set<Key>, attempts: seq<Attempt>, log: seq<Entry>)

  const INITIAL := State(map[], 1, 1, {}, [], [])

  /** The locked sections that take markers away. */
  datatype Release = OneKey(key: Key) | RoomOf(jobType: JobType, room: string) | AllOf(jobType: JobType)

  predicate Covers(r: Release, k: Key) {
    match r
    case OneKey(key) => k == key
    case RoomOf(t, room) => k.Type() == t && k.room == room
    case AllOf(t) => k.Type() == t
  }

  datatype Event =
    | Register(jobType: JobType, namespace: string, agentName: string, deployment: string)
    | UpdateStatus(worker: WorkerId, available: bool, overloaded: bool)
    | Unregister(worker: WorkerId)
    | Begin(key: Key)
    | Choose(attempt: nat, worker: WorkerId, dispatch: Dispatch)
    | List(attempt: nat)
    | Ask(attempt: nat, sent: bool)
    | Respond(worker: WorkerId, job: JobId, reply: Reply)
    | GiveUp(attempt: nat)
    | Assign(attempt: nat, sent: bool)
    | Finish(attempt: nat)
    | ReleaseMarks(release: Release)

  // ---------- Events ----------

  predicate InFlight(s: State, i: nat) { i < |s.attempts| && !s.attempts[i].finished }

  predicate Calling(s: State, i: nat, stage: Stage) {
    InFlight(s, i) && s.attempts[i].call.Some? && s.attempts[i].call.value.stage == stage
  }

  function SetCall(s: State, i: nat, call: Option<Call>): State
    requires i < |s.attempts|
  {
    s.(attempts := s.attempts[i := s.attempts[i].(call := call)])
  }

  function Unlist(workers: map<WorkerId, Worker>, w: WorkerId, job: JobId): map<WorkerId, Worker> {
    if w in workers then workers[w := workers[w].(pending := workers[w].pending - {job})] else workers
  }

  /** The oneshot send: the call waiting for `job`, if it still waits, gets the reply. */
  function Deliver(attempts: seq<Attempt>, job: JobId, reply: Reply): (r: seq<Attempt>)
    ensures |r| == |attempts|
  {
    seq(|attempts|, i requires 0 <= i < |attempts| =>
      var a := attempts[i];
      if a.call.Some? && a.call.value.job == job && a.call.value.stage != Chosen
      then a.(call := Some(a.call.value.(reply := Some(reply)))) else a)
  }

  /** The state after an event; an event that is not enabled changes nothing. */
  function Next(s: State, e: Event): State {
    match e
    case Register(t, ns, name, deployment) =>
      s.(workers := s.workers[s.nextWorker := Worker(t, ns, name, deployment, true, false, {})],
         nextWorker := s.nextWorker + 1, log := s.log + [Registered(s.nextWorker, t)])
    case UpdateStatus(w, available, overloaded) =>
      if w !in s.workers then s
      else s.(workers := s.workers[w := s.workers[w].(available := available, overloaded := overloaded)])
    case Unregister(w) => s.(workers := s.workers - {w})
    case Begin(key) =>
      if key in s.marked then s
      else s.(marked := s.marked + {key}, attempts := s.attempts + [Attempt(key, None, {}, false)])
    case Choose(i, w, d) =>
      if !(InFlight(s, i) && s.attempts[i].call == None && w in s.workers
           && Eligible(s.workers[w], s.attempts[i].key.Type(), d)) then s
      else SetCall(s, i, Some(Call(s.nextJob, w, Chosen, None))).(nextJob := s.nextJob + 1)
    case List(i) =>
      if !Calling(s, i, Chosen) then s
      else
        var c := s.attempts[i].call.value;
        if c.worker !in s.workers then SetCall(s, i, None)
        else
          var w := s.workers[c.worker];
          SetCall(s, i, Some(c.(stage := Listed)))
            .(workers := s.workers[c.worker := w.(pending := w.pending + {c.job})])
    case Ask(i, sent) =>
      if !Calling(s, i, Listed) then s
      else
        var c := s.attempts[i].call.value;
        if sent
        then SetCall(s, i, Some(c.(stage := Asked))).(log := s.log + [Requested(c.worker, c.job, s.attempts[i].key)])
        else SetCall(s, i, None).(workers := Unlist(s.workers, c.worker, c.job))
    case Respond(w, job, reply) =>
      var s' := s.(log := s.log + [Answered(w, job, reply)]);
      if w !in s.workers || job !in s.workers[w].pending then s'
      else s'.(workers := Unlist(s.workers, w, job), attempts := Deliver(s.attempts, job, reply),
               log := s'.log + [Delivered(w, job)])
    case GiveUp(i) =>
      if !(Calling(s, i, Asked) && s.attempts[i].call.value.reply == None) then s else SetCall(s, i, None)
    case Assign(i, sent) =>
      if !(Calling(s, i, Asked) && s.attempts[i].call.value.reply.Some?) then s
      else
        var a := s.attempts[i];
        var c := a.call.value;
        if c.reply.value.terminate || !c.reply.value.available || !sent then SetCall(s, i, None)
        else s.(attempts := s.attempts[i := a.(call := None, jobs := a.jobs + {c.job})],
                log := s.log + [Assigned(c.worker, c.job, a.key)])
    case Finish(i) =>
      if !(InFlight(s, i) && s.attempts[i].call == None) then s
      else
        var a := s.attempts[i];
        s.(attempts := s.attempts[i := a.(finished := true)],
           marked := if a.jobs == {} then s.marked - {a.key} else s.marked)
    case ReleaseMarks(r) => s.(marked := set k | k in s.marked && !Covers(r, k))
  }

  function Run(s: State, es: seq<Event>): State {
    if es == [] then s else Next(Run(s, es[..|es| - 1]), es[|es| - 1])
  }

  // ---------- The marker sets as the runtime holds them ----------

  /** What an event makes of the markers when it depends on nothing else. */
  ghost function MarkedAfter(marked: set<Key>, e: Event): set<Key>
    requires e.Begin? || e.ReleaseMarks?
  {
    Next(INITIAL.(marked := marked), e).marked
  }

  /** Beginning an attempt and releasing markers look at the markers only. */
  lemma {:induction false} MarkersAlone(s: State, e: Event)
    requires e.Begin? || e.ReleaseMarks?
    ensures Next(s, e).marked == MarkedAfter(s.marked, e)
    ensures e.Begin? ==> (e.key !in s.marked <==> |Next(s, e).attempts| > |s.attempts|)
  {}

  /** An attempt that fails takes its marker away as a release of that key does. */
  lemma {:induction false} FailureReleases(s: State, i: nat)
    requires InFlight(s, i) && s.attempts[i].call == None && s.attempts[i].jobs == {}
    ensures Next(s, Finish(i)).marked == MarkedAfter(s.marked, ReleaseMarks(OneKey(s.attempts[i].key)))
  {}

  /** The releases that a source function makes, each under a lock of its own. */
  function RoomReleases(room: string): seq<Release> {
    [RoomOf(JtRoom, room), RoomOf(JtParticipant, room), RoomOf(JtPublisher, room)]
  }

  function DepartureReleases(room: string, identity: string, roomIsEmpty: bool): seq<Release> {
    [OneKey(ParticipantKey(room, identity)), OneKey(PublisherKey(room, identity))]
    + if roomIsEmpty then RoomReleases(room) else []
  }

  ghost function Released(marked: set<Key>, releases: seq<Release>): set<Key> {
    if releases == [] then marked
    else MarkedAfter(Released(marked, releases[..|releases| - 1]), ReleaseMarks(releases[|releases| - 1]))
  }

  /** A sequence of releases leaves what none of them covers. */
  lemma {:induction false} ReleasedExactly(marked: set<Key>, releases: seq<Release>, k: Key)
    ensures k in Released(marked, releases)
       <==> k in marked && forall i :: 0 <= i < |releases| ==> !Covers(releases[i], k)
  {
    if releases != [] {
      ReleasedExactly(marked, releases[..|releases| - 1], k);
    }
  }

  lemma {:induction false} ReleasedPush(marked: set<Key>, releases: seq<Release>, r: Release)
    ensures Released(marked, releases + [r]) == MarkedAfter(Released(marked, releases), ReleaseMarks(r))
  {
    assert (releases + [r])[..|releases|] == releases;
  }

  /** Everything a room's releases cover, and nothing else, is of that room. */
  lemma {:induction false} RoomReleasesExactly(marked: set<Key>, room: string, k: Key)
    ensures k in Released(marked, RoomReleases(room)) <==> k in marked && k.room != room
  {
    ReleasedExactly(marked, RoomReleases(room), k);
    assert RoomReleases(room)[0] == RoomOf(JtRoom, room) && RoomReleases(room)[1] == RoomOf(JtParticipant, room)
        && RoomReleases(room)[2] == RoomOf(JtPublisher, room);
  }

  /** A departure takes the participant's two markers, and all of the room's when nobody is left. */
  lemma {:induction false} DepartureReleasesExactly(marked: set<Key>, room: string, identity: string,
                                                    roomIsEmpty: bool, k: Key)
    ensures k in Released(marked, DepartureReleases(room, identity, roomIsEmpty))
       <==> && k in marked && k != ParticipantKey(room, identity) && k != PublisherKey(room, identity)
            && (roomIsEmpty ==> k.room != room)
  {
    var rs := DepartureReleases(room, identity, roomIsEmpty);
    ReleasedExactly(marked, rs, k);
    assert rs[0] == OneKey(ParticipantKey(room, identity)) && rs[1] == OneKey(PublisherKey(room, identity));
    if roomIsEmpty {
      assert rs[2] == RoomOf(JtRoom, room) && rs[3] == RoomOf(JtParticipant, room);
      assert rs[4] == RoomOf(JtPublisher, room);
    }
  }

  /** Releasing a job type takes every marker of that kind and no other. */
  lemma {:induction false} TypeReleasesExactly(marked: set<Key>, k: Key)
    ensures k in MarkedAfter(marked, ReleaseMarks(AllOf(JtRoom))) <==> k in marked && !k.RoomKey?
    ensures k in MarkedAfter(marked, ReleaseMarks(AllOf(JtParticipant))) <==> k in marked && !k.ParticipantKey?
    ensures k in MarkedAfter(marked, ReleaseMarks(AllOf(JtPublisher))) <==> k in marked && !k.PublisherKey?
  {}

  class RuntimeState {
    var roomJobs: set<string>
    var participantJobs: set<(string, string)>
    var publisherJobs: set<(string, string)>

    /** The three sets as one set of keys. */
    ghost function View(): set<Key>
      reads this
    {
      (set r | r in roomJobs :: RoomKey(r))
      + (set p | p in participantJobs :: ParticipantKey(p.0, p.1))
      + (set p | p in publisherJobs :: PublisherKey(p.0, p.1))
    }

    ghost predicate Marks(k: Key)
      reads this
    {
      match k
      case RoomKey(room) => room in roomJobs
      case ParticipantKey(room, identity) => (room, identity) in participantJobs
      case PublisherKey(room, identity) => (room, identity) in publisherJobs
    }

    lemma {:induction false} ViewMarks(k: Key)
      ensures k in View() <==> Marks(k)
    {
      match k
      case RoomKey(_) =>
      case ParticipantKey(room, identity) =>
        if Marks(k) { assert (room, identity) in participantJobs; }
      case PublisherKey(room, identity) =>
        if Marks(k) { assert (room, identity) in publisherJobs; }
    }

    constructor ()
      ensures View() == {}
    {
      roomJobs, participantJobs, publisherJobs := {}, {}, {};
    }

    /** The locked test-and-mark that begins an attempt. */
    method TryMark(key: Key) returns (begun: bool)
      modifies this
      ensures begun == (key !in old(View()))
      ensures View() == MarkedAfter(old(View()), Begin(key))
    {
      ViewMarks(key);
      match key {
        case RoomKey(room) =>
          if room in roomJobs {
            return false;
          }
          roomJobs := roomJobs + {room};
        case ParticipantKey(room, identity) =>
          if (room, identity) in participantJobs {
            return false;
          }
          participantJobs := participantJobs + {(room, identity)};
        case PublisherKey(room, identity) =>
          if (room, identity) in publisherJobs {
            return false;
          }
          publisherJobs := publisherJobs + {(room, identity)};
      }
      begun := true;
    }

    /** The locked removal of one marker. */
    method Unmark(key: Key)
      modifies this
      ensures View() == MarkedAfter(old(View()), ReleaseMarks(OneKey(key)))
    {
      match key {
        case RoomKey(room) => roomJobs := roomJobs - {room};
        case ParticipantKey(room, identity) => participantJobs := participantJobs - {(room, identity)};
        case PublisherKey(room, identity) => publisherJobs := publisherJobs - {(room, identity)};
      }
    }

    /** The locked section that takes one set's markers of a room. */
    method UnmarkRoom(jobType: JobType, room: string)
      modifies this
      ensures View() == MarkedAfter(old(View()), ReleaseMarks(RoomOf(jobType, room)))
    {
      match jobType {
        case JtRoom => roomJobs := roomJobs - {room};
        case JtParticipant => participantJobs := set k | k in participantJobs && k.0 != room;
        case JtPublisher => publisherJobs := set k | k in publisherJobs && k.0 != room;
      }
    }

    /** Three locked sections; other tasks may come in between. */
    method ReleaseRoomJobs(room: string)
      modifies this
      ensures View() == Released(old(View()), RoomReleases(room))
    {
      ghost var before := View();
      var r := RoomReleases(room);
      UnmarkRoom(JtRoom, room);
      ReleasedPush(before, [], r[0]);
      UnmarkRoom(JtParticipant, room);
      ReleasedPush(before, [r[0]], r[1]);
      UnmarkRoom(JtPublisher, room);
      ReleasedPush(before, [r[0], r[1]], r[2]);
      assert [] + [r[0]] == [r[0]] && [r[0]] + [r[1]] == [r[0], r[1]] && [r[0], r[1]] + [r[2]] == r;
    }

    /** Two locked sections, and those of the room when nobody is left. */
    method ReleaseDepartedParticipantJobs(room: string, identity: string, roomIsEmpty: bool)
      modifies this
      ensures View() == Released(old(View()), DepartureReleases(room, identity, roomIsEmpty))
    {
      ghost var before := View();
      var p, q := OneKey(ParticipantKey(room, identity)), OneKey(PublisherKey(room, identity));
      Unmark(ParticipantKey(room, identity));
      ReleasedPush(before, [], p);
      Unmark(PublisherKey(room, identity));
      ReleasedPush(before, [p], q);
      assert [] + [p] == [p] && [p] + [q] == [p, q];
      if roomIsEmpty {
        ReleasedInTurn(before, [p, q], RoomReleases(room));
        ReleaseRoomJobs(room);
      } else {
        assert [p, q] + [] == [p, q];
      }
    }

    method ReleaseJobsForType(jobType: JobType)
      modifies this
      ensures View() == MarkedAfter(old(View()), ReleaseMarks(AllOf(jobType)))
    {
      match jobType {
        case JtRoom => roomJobs := {};
        case JtPublisher => publisherJobs := {};
        case JtParticipant => participantJobs := {};
      }
    }
  }

  lemma {:induction false} ReleasedInTurn(marked: set<Key>, a: seq<Release>, b: seq<Release>)
    ensures Released(marked, a + b) == Released(Released(marked, a), b)
  {
    if b == [] {
      assert a + b == a;
    } else {
      ReleasedInTurn(marked, a, b[..|b| - 1]);
      assert (a + b)[..|a + b| - 1] == a + b[..|b| - 1];
    }
  }
}
