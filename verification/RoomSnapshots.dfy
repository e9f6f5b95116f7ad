/** Participant snapshots over a run: SIDs, versions, and what the subscription revision tells. */
module RoomSnapshots {
  import opened RoomState

  // ---------- Where a participant record comes from ----------

  /** `p'` in `s'` is the record `p` of `s`, unchanged or one version on; its permission is the
      same unless the subscription revision moved. */
  ghost predicate Follows(p: Participant, p': Participant, sameRevision: bool) {
    && p'.sid == p.sid
    && (p' == p || p'.version == Increment32(p.version))
    && (sameRevision ==> p'.permission == p.permission)
  }

  /** The revision has not moved, though it could have. */
  ghost predicate SameRevision(s: Store, s': Store) { s'.revision == s.revision < U64_MAX }

  lemma {:induction false} EditFollows(p: Participant, e: Edit, sameRevision: bool)
    requires ApplyEdit(p, e).Some?
    ensures Follows(p, ApplyEdit(p, e).value, sameRevision)
  {}

  lemma {:induction false} ChangesFollow(p: Participant, c: Changes)
    ensures Follows(p, ApplyChanges(p, c), !ChangesPermission(p, c))
  {}

  /** The room a participant of the new state was in before. */
  function OriginRoom(s: Store, op: Op, room: string, identity: string): string {
    if op.Move? && op.destination in s.rooms && Has(s, op.room, op.identity)
       && room == op.destination && identity == op.identity
    then op.room else room
  }

  ghost predicate Arrives(s: Store, s': Store, op: Op, room: string, identity: string)
    requires Has(s', room, identity)
  {
    && op.Join? && room == op.room && identity == op.identity
    && At(s', room, identity).sid == s'.nextParticipantId == Increment64(s.nextParticipantId)
  }

  /** Everyone in the new state just joined or was there before. */
  ghost predicate Traced(s: Store, op: Op, s': Store) {
    forall r, k :: Has(s', r, k) ==>
      || Arrives(s, s', op, r, k)
      || (Has(s, OriginRoom(s, op, r, k), k)
          && Follows(At(s, OriginRoom(s, op, r, k), k), At(s', r, k), SameRevision(s, s')))
  }

  lemma {:induction false} JoinTraced(s: Store, d: Defaults, op: Op, now: nat)
    requires op.Join?
    ensures Traced(s, op, DoJoin(s, d, op, now))
  {
    var s1 := EnsureRoom(s, d, op.room, now);
    var s' := DoJoin(s, d, op, now);
    forall r, k | Has(s', r, k) && !(r == op.room && k == op.identity)
      ensures Has(s, r, k) && At(s', r, k) == At(s, r, k)
    {
      assert Has(s1, r, k) && At(s', r, k) == At(s1, r, k);
    }
  }

  lemma {:induction false} RemoveTraced(s: Store, op: Op, now: nat)
    requires op.Remove?
    ensures Traced(s, op, DoRemove(s, op.room, op.identity, op.reason, now))
    ensures Has(s, op.room, op.identity) ==>
              !Has(DoRemove(s, op.room, op.identity, op.reason, now), op.room, op.identity)
  {}

  lemma {:induction false} PutParticipantTraced(s: Store, op: Op, room: string, identity: string, p: Participant,
                                                s': Store)
    requires Has(s, room, identity) && !op.Move?
    requires Follows(At(s, room, identity), p, SameRevision(s, s'))
    requires s'.rooms == PutParticipant(s, room, identity, p).rooms
    ensures Traced(s, op, s')
  {}

  lemma {:induction false} UpdateTraced(s: Store, op: Op)
    requires op.Update?
    ensures Traced(s, op, DoUpdate(s, op.room, op.identity, op.changes))
  {
    if Has(s, op.room, op.identity) && !Oversized(At(s, op.room, op.identity), op.changes) {
      var p := At(s, op.room, op.identity);
      var p' := ApplyChanges(p, op.changes);
      ChangesFollow(p, op.changes);
      var s' := PutUpdated(s, op.room, op.identity, p', ChangesPermission(p, op.changes));
      var s1 := PutParticipant(s, op.room, op.identity, p').(revision := s'.revision);
      PutParticipantTraced(s, op, op.room, op.identity, p', s1);
      assert forall r, k :: Has(s', r, k) ==> Has(s1, r, k) && At(s', r, k) == At(s1, r, k);
    }
  }

  /** Who is where after a move. */
  lemma {:induction false} MovePlaces(s: Store, room: string, identity: string, destination: string, now: nat,
                                      r: string, k: string)
    requires destination in s.rooms && Has(s, room, identity)
    ensures var s' := DoMove(s, room, identity, destination, now);
            && (r == destination && k == identity ==> Has(s', r, k) && At(s', r, k) == Bump(At(s, room, identity)))
            && (r == room && k == identity && r != destination ==> !Has(s', r, k))
            && (k != identity || (r != room && r != destination) ==>
                  (Has(s', r, k) <==> Has(s, r, k)) && (Has(s, r, k) ==> At(s', r, k) == At(s, r, k)))
  {}

  lemma {:induction false} MoveTraced(s: Store, op: Op, now: nat)
    requires op.Move?
    ensures Traced(s, op, DoMove(s, op.room, op.identity, op.destination, now))
  {
    var s' := DoMove(s, op.room, op.identity, op.destination, now);
    if op.destination in s.rooms && Has(s, op.room, op.identity) {
      forall r, k | Has(s', r, k)
        ensures Has(s, OriginRoom(s, op, r, k), k)
        ensures Follows(At(s, OriginRoom(s, op, r, k), k), At(s', r, k), SameRevision(s, s'))
      {
        MovePlaces(s, op.room, op.identity, op.destination, now, r, k);
      }
    }
  }

  /** Every operation makes each participant of the new state one that just joined, one that was there
      before, or the next version of it. */
  lemma {:induction false} StepTraced(s: Store, d: Defaults, op: Op, now: nat)
    ensures Traced(s, op, Step(s, d, op, now))
  {
    var s' := Step(s, d, op, now);
    match op
    case Join(_, _, _, _, _, _) => JoinTraced(s, d, op, now);
    case Remove(_, _, _) => RemoveTraced(s, op, now);
    case EditParticipant(room, identity, edit) =>
      if Has(s, room, identity) && ApplyEdit(At(s, room, identity), edit).Some? {
        EditFollows(At(s, room, identity), edit, SameRevision(s, s'));
        PutParticipantTraced(s, op, room, identity, ApplyEdit(At(s, room, identity), edit).value, s');
      }
    case RemoveTrack(room, identity, trackSid) =>
      if Has(s, room, identity) {
        var p := At(s, room, identity);
        PutParticipantTraced(s, op, room, identity, Bump(p.(tracks := WithoutTrack(p.tracks, trackSid))), s');
      }
    case Update(_, _, _) => UpdateTraced(s, op);
    case Move(_, _, _) => MoveTraced(s, op, now);
    case _ => OtherTraced(s, d, op, now);
  }

  lemma {:induction false} OtherTraced(s: Store, d: Defaults, op: Op, now: nat)
    requires !op.Join? && !op.Remove? && !op.EditParticipant? && !op.RemoveTrack? && !op.Update? && !op.Move?
    ensures Traced(s, op, Step(s, d, op, now))
  {
    var s' := Step(s, d, op, now);
    assert forall r, k :: Has(s', r, k) ==> Has(s, r, k) && At(s', r, k) == At(s, r, k);
  }

  // ---------- SIDs are never reused ----------

  ghost predicate SidsUnique(s: Store) {
    && (forall r, k :: Has(s, r, k) ==> At(s, r, k).sid <= s.nextParticipantId)
    && (forall r, k, r', k' :: Has(s, r, k) && Has(s, r', k') && At(s, r, k).sid == At(s, r', k').sid < U64_MAX ==>
          r == r' && k == k')
  }

  /** A move takes the participant out of the room it leaves. */
  ghost predicate LeavesOnMove(s: Store, op: Op, s': Store) {
    op.Move? && op.destination in s.rooms && Has(s, op.room, op.identity) && op.destination != op.room ==>
      !Has(s', op.room, op.identity)
  }

  lemma {:induction false} TracedUnique(s: Store, op: Op, s': Store)
    requires Traced(s, op, s') && SidsUnique(s) && LeavesOnMove(s, op, s')
    requires s.nextParticipantId <= s'.nextParticipantId
    ensures SidsUnique(s')
  {
    forall r, k, r', k' | Has(s', r, k) && Has(s', r', k') && At(s', r, k).sid == At(s', r', k').sid < U64_MAX
      ensures r == r' && k == k'
    {
      if !Arrives(s, s', op, r, k) && !Arrives(s, s', op, r', k') {
        assert At(s, OriginRoom(s, op, r, k), k).sid == At(s, OriginRoom(s, op, r', k'), k').sid;
      }
    }
  }

  /** Counters do not fall, and the preferences stay unless the revision moves. */
  ghost predicate Grows(s: Store, s': Store) {
    && s.nextParticipantId <= s'.nextParticipantId
    && s.revision <= s'.revision
    && (SameRevision(s, s') ==> s'.unsubscribed == s.unsubscribed)
  }

  lemma {:induction false} JoinGrows(s: Store, d: Defaults, op: Op, now: nat)
    requires op.Join?
    ensures Grows(s, DoJoin(s, d, op, now))
  {}

  lemma {:induction false} UpdateGrows(s: Store, room: string, identity: string, changes: Changes)
    ensures Grows(s, DoUpdate(s, room, identity, changes))
  {}

  lemma {:induction false} LeaveGrows(s: Store, d: Defaults, op: Op, now: nat)
    requires op.Remove? || op.Move?
    ensures Grows(s, Step(s, d, op, now))
  {}

  lemma {:induction false} RoomOpGrows(s: Store, d: Defaults, op: Op, now: nat)
    requires op.CreateRoom? || op.DeleteRoom? || op.Cleanup? || op.StoreRoom? || op.UpdateRoomMetadata?
    ensures Grows(s, Step(s, d, op, now))
  {}

  lemma {:induction false} StepMonotone(s: Store, d: Defaults, op: Op, now: nat)
    ensures Grows(s, Step(s, d, op, now))
  {
    match op
    case Join(_, _, _, _, _, _) => JoinGrows(s, d, op, now);
    case Update(room, identity, changes) => UpdateGrows(s, room, identity, changes);
    case Remove(_, _, _) => LeaveGrows(s, d, op, now);
    case Move(_, _, _) => LeaveGrows(s, d, op, now);
    case EditParticipant(_, _, _) =>
    case RemoveTrack(_, _, _) =>
    case SubscribeByTrack(_, _, _, _) =>
    case SubscribeByPublisher(_, _, _, _, _, _) =>
    case Subscribe(_, _, _, _, _) =>
    case LockRoom(_, _) =>
    case UnlockRoom(_, _) =>
    case _ => RoomOpGrows(s, d, op, now);
  }

  lemma {:induction false} StepUnique(s: Store, d: Defaults, op: Op, now: nat)
    requires SidsUnique(s)
    ensures SidsUnique(Step(s, d, op, now))
  {
    StepTraced(s, d, op, now);
    StepMonotone(s, d, op, now);
    if op.Move? && op.destination in s.rooms && Has(s, op.room, op.identity) {
      MovePlaces(s, op.room, op.identity, op.destination, now, op.room, op.identity);
    }
    TracedUnique(s, op, Step(s, d, op, now));
  }

  // ---------- Runs ----------

  /** Operation `i` leads from state `i` to state `i + 1`. */
  ghost predicate Linked(d: Defaults, ops: seq<Timed>, ss: seq<Store>, i: nat)
    requires i < |ops| && |ss| == |ops| + 1
  {
    ss[i + 1] == Step(ss[i], d, ops[i].op, ops[i].now)
  }

  /** `ss` are the states of a run of `ops` from the empty store. */
  ghost predicate IsRun(d: Defaults, ops: seq<Timed>, ss: seq<Store>) {
    && |ss| == |ops| + 1 && ss[0] == EMPTY
    && forall i: nat :: i < |ops| ==> Linked(d, ops, ss, i)
  }

  lemma {:induction false} CountersGrow(d: Defaults, ops: seq<Timed>, ss: seq<Store>, i: nat, j: nat)
    requires IsRun(d, ops, ss) && i <= j < |ss|
    ensures ss[i].nextParticipantId <= ss[j].nextParticipantId && ss[i].revision <= ss[j].revision
    decreases j
  {
    if i < j {
      CountersGrow(d, ops, ss, i, j - 1);
      assert Linked(d, ops, ss, j - 1);
      StepMonotone(ss[j - 1], d, ops[j - 1].op, ops[j - 1].now);
    }
  }

  /** In every state of every run, SIDs have been issued and no two participants share one below the largest. */
  lemma {:induction false} StateUnique(d: Defaults, ops: seq<Timed>, ss: seq<Store>, i: nat)
    requires IsRun(d, ops, ss) && i < |ss|
    ensures SidsUnique(ss[i])
  {
    if i > 0 {
      StateUnique(d, ops, ss, i - 1);
      assert Linked(d, ops, ss, i - 1);
      StepUnique(ss[i - 1], d, ops[i - 1].op, ops[i - 1].now);
    }
  }

  /** Once the counter is at its ceiling, every join hands out the largest SID again. */
  lemma {:induction false} SaturatedSidsCollide(s: Store, d: Defaults, op: Op, now: nat, room: string, identity: string)
    requires s.nextParticipantId == U64_MAX && Has(s, room, identity) && At(s, room, identity).sid == U64_MAX
    requires op.Join? && op.room == room && op.identity != identity && !Full(s.rooms[room], op.identity)
    ensures var s' := DoJoin(s, d, op, now);
            && Has(s', room, identity) && Has(s', room, op.identity)
            && At(s', room, identity).sid == At(s', room, op.identity).sid
  {}

  /** What one operation of a run does, as far as SIDs, permissions and preferences go. */
  ghost predicate Evolves(s: Store, op: Op, s': Store) {
    && Traced(s, op, s') && SidsUnique(s) && Grows(s, s')
    && (op.Remove? && Has(s, op.room, op.identity) ==> !Has(s', op.room, op.identity))
  }

  lemma {:induction false} RunEvolves(d: Defaults, ops: seq<Timed>, ss: seq<Store>, i: nat)
    requires IsRun(d, ops, ss) && i < |ops|
    ensures Evolves(ss[i], ops[i].op, ss[i + 1])
  {
    var s, op, now := ss[i], ops[i].op, ops[i].now;
    StateUnique(d, ops, ss, i);
    assert Linked(d, ops, ss, i);
    StepTraced(s, d, op, now);
    StepMonotone(s, d, op, now);
    if op.Remove? && Has(s, op.room, op.identity) {
      RemoveTraced(s, op, now);
    }
  }

  // ---------- Snapshots of one SID ----------

  ghost predicate IsFarewell(s: Store, op: Op, x: Participant) {
    op.Remove? && Has(s, op.room, op.identity) && x == Farewell(At(s, op.room, op.identity), op.reason)
  }

  ghost predicate InStore(s: Store, x: Participant) {
    exists r, k :: Has(s, r, k) && At(s, r, k) == x
  }

  /** `x` is seen after operation `i`: it is in the store, or that operation removed and returned it. */
  ghost predicate IsSnapshot(ops: seq<Timed>, ss: seq<Store>, i: nat, x: Participant)
    requires |ss| == |ops| + 1 && i < |ss|
  {
    InStore(ss[i], x) || (i > 0 && IsFarewell(ss[i - 1], ops[i - 1].op, x))
  }

  /** `y` is `x` or has a higher version, unless both versions are at the ceiling. */
  ghost predicate Newer(x: Participant, y: Participant) {
    x == y || x.version < y.version || x.version == y.version == U32_MAX
  }

  /** Whoever carries `x`'s SID now is `x` itself or newer. */
  ghost predicate Superseded(x: Participant, s: Store) {
    && x.sid <= s.nextParticipantId
    && forall r, k :: Has(s, r, k) && At(s, r, k).sid == x.sid ==> Newer(x, At(s, r, k))
  }

  lemma {:induction false} EvolvesSuperseded(x: Participant, s: Store, op: Op, s': Store)
    requires Superseded(x, s) && Evolves(s, op, s') && x.sid < U64_MAX
    ensures Superseded(x, s')
  {}

  /** Nobody in the store carries the SID of someone just removed. */
  lemma {:induction false} FarewellIsGone(s: Store, op: Op, s': Store, x: Participant)
    requires IsFarewell(s, op, x) && Evolves(s, op, s') && x.sid < U64_MAX
    ensures forall r, k :: Has(s', r, k) ==> At(s', r, k).sid != x.sid
  {}

  /** The SID of a snapshot has been issued. */
  lemma {:induction false} SidsAreIssued(d: Defaults, ops: seq<Timed>, ss: seq<Store>, i: nat, j: nat, x: Participant)
    requires IsRun(d, ops, ss) && i <= j < |ss| && IsSnapshot(ops, ss, i, x)
    ensures x.sid <= ss[j].nextParticipantId
  {
    StateUnique(d, ops, ss, i);
    CountersGrow(d, ops, ss, i, j);
    if !InStore(ss[i], x) {
      StateUnique(d, ops, ss, i - 1);
      CountersGrow(d, ops, ss, i - 1, i);
    }
  }

  lemma {:induction false} StaysSuperseded(d: Defaults, ops: seq<Timed>, ss: seq<Store>, i: nat, j: nat,
                                           x: Participant)
    requires IsRun(d, ops, ss) && i <= j < |ss| && IsSnapshot(ops, ss, i, x) && x.sid < U64_MAX
    ensures Superseded(x, ss[j])
    decreases j
  {
    if i < j {
      StaysSuperseded(d, ops, ss, i, j - 1, x);
      RunEvolves(d, ops, ss, j - 1);
      EvolvesSuperseded(x, ss[j - 1], ops[j - 1].op, ss[j]);
    } else {
      StateUnique(d, ops, ss, i);
      SidsAreIssued(d, ops, ss, i, i, x);
      if i > 0 && IsFarewell(ss[i - 1], ops[i - 1].op, x) {
        RunEvolves(d, ops, ss, i - 1);
        FarewellIsGone(ss[i - 1], ops[i - 1].op, ss[i], x);
      }
    }
  }

  /** Within any run, and across joins, edits, updates, moves and removals: versions seen for one SID below
      the largest never decrease, and two snapshots with such a SID and the same version are identical
      unless that version is the largest. */
  lemma {:induction false} SnapshotsAgree(d: Defaults, ops: seq<Timed>, ss: seq<Store>, i: nat, j: nat,
                                          x: Participant, y: Participant)
    requires IsRun(d, ops, ss) && i <= j < |ss|
    requires IsSnapshot(ops, ss, i, x) && IsSnapshot(ops, ss, j, y) && x.sid == y.sid < U64_MAX
    ensures x.version <= y.version
    ensures x.version == y.version < U32_MAX ==> x == y
  {
    StaysSuperseded(d, ops, ss, i, j, x);
    if !InStore(ss[j], y) {
      RunEvolves(d, ops, ss, j - 1);
      FarewellIsGone(ss[j - 1], ops[j - 1].op, ss[j], y);
      if i < j {
        StaysSuperseded(d, ops, ss, i, j - 1, x);
      }
    }
  }

  /** A join that is let in gets a SID above every one seen before, exactly unless that was the largest. */
  lemma {:induction false} JoinedSidsAreNewExactly(d: Defaults, ops: seq<Timed>, ss: seq<Store>, i: nat, j: nat,
                                                   x: Participant)
    requires IsRun(d, ops, ss) && i <= j < |ops| && IsSnapshot(ops, ss, i, x)
    requires ops[j].op.Join?
    requires ops[j].op.room in ss[j].rooms ==> !Full(ss[j].rooms[ops[j].op.room], ops[j].op.identity)
    ensures var op := ops[j].op;
            && Has(ss[j + 1], op.room, op.identity)
            && (At(ss[j + 1], op.room, op.identity).sid > x.sid <==> x.sid < U64_MAX)
  {
    SidsAreIssued(d, ops, ss, i, j, x);
    assert Linked(d, ops, ss, j);
  }

  /** At the largest version the guarantee ends: an edit changes the record under the same version. */
  lemma {:induction false} SaturatedVersionsCollide(p: Participant, track: Track)
    requires p.version == U32_MAX
    ensures var p' := ApplyEdit(p, AddTrack(track)).value; p' != p && p'.sid == p.sid && p'.version == p.version
  {
    assert |p.tracks + [track]| != |p.tracks|;
  }

  // ---------- Rejoining ----------

  /** After a removal the same identity joins with a version above the one its farewell carried, exactly
      when that was not the largest. */
  lemma {:induction false} RejoinAfterRemovalIsNewerExactly(s: Store, d: Defaults, reason: int, op: Op, removed: nat,
                                                            now: nat)
    requires op.Join? && Has(s, op.room, op.identity)
    requires var s1 := DoRemove(s, op.room, op.identity, reason, removed); !Full(s1.rooms[op.room], op.identity)
    ensures var s2 := DoJoin(DoRemove(s, op.room, op.identity, reason, removed), d, op, now);
            var farewell := Farewell(At(s, op.room, op.identity), reason);
            && Has(s2, op.room, op.identity)
            && (At(s2, op.room, op.identity).version > farewell.version <==> farewell.version < U32_MAX)
  {
    var s1 := DoRemove(s, op.room, op.identity, reason, removed);
    assert s1.rooms[op.room].versions[op.identity] == Farewell(At(s, op.room, op.identity), reason).version;
  }

  /** A join over a present identity continues from the version kept aside, not from the live one,
      so it is newer than the record it replaces exactly when that record has not moved past it and is
      not at the largest version. */
  lemma {:induction false} RejoinOverPresentIsNewerExactly(s: Store, d: Defaults, op: Op, now: nat)
    requires op.Join? && Has(s, op.room, op.identity)
    ensures Has(DoJoin(s, d, op, now), op.room, op.identity)
    ensures At(DoJoin(s, d, op, now), op.room, op.identity).version > At(s, op.room, op.identity).version
       <==> op.identity in s.rooms[op.room].versions
            && At(s, op.room, op.identity).version <= s.rooms[op.room].versions[op.identity]
            && At(s, op.room, op.identity).version < U32_MAX
  {}

  // ---------- What the subscription revision tells ----------

  predicate IsMediaTrackSubscribed(s: Store, x: Pref) { x !in s.unsubscribed }

  /** The room exists, and the subscriber is not there with a permission that forbids subscribing. */
  predicate MaySubscribe(s: Store, room: string, subscriber: string) {
    && room in s.rooms
    && (Has(s, room, subscriber) && At(s, room, subscriber).permission.Some? ==>
          At(s, room, subscriber).permission.value.canSubscribe)
  }

  predicate CanSubscribe(s: Store, x: Pref) {
    MaySubscribe(s, x.room, x.subscriber) && x !in s.unsubscribed
  }

  /** Two states of a run with one revision below its ceiling answer every subscription query alike. */
  lemma {:induction false} RevisionFixesSubscriptions(d: Defaults, ops: seq<Timed>, ss: seq<Store>, i: nat, j: nat)
    requires IsRun(d, ops, ss) && i <= j < |ss| && ss[i].revision == ss[j].revision < U64_MAX
    ensures forall x :: IsMediaTrackSubscribed(ss[i], x) == IsMediaTrackSubscribed(ss[j], x)
    decreases j
  {
    if i < j {
      CountersGrow(d, ops, ss, i, j - 1);
      CountersGrow(d, ops, ss, j - 1, j);
      RevisionFixesSubscriptions(d, ops, ss, i, j - 1);
      assert Linked(d, ops, ss, j - 1);
      StepMonotone(ss[j - 1], d, ops[j - 1].op, ops[j - 1].now);
    }
  }

  /** Whoever carries `x`'s SID still has `x`'s permission. */
  ghost predicate PermissionKept(x: Participant, s: Store) {
    && x.sid <= s.nextParticipantId
    && forall r, k :: Has(s, r, k) && At(s, r, k).sid == x.sid ==> At(s, r, k).permission == x.permission
  }

  lemma {:induction false} EvolvesPermission(x: Participant, s: Store, op: Op, s': Store)
    requires PermissionKept(x, s) && Evolves(s, op, s') && SameRevision(s, s') && x.sid < U64_MAX
    ensures PermissionKept(x, s')
  {}

  lemma {:induction false} RevisionFixesPermission(d: Defaults, ops: seq<Timed>, ss: seq<Store>, i: nat, j: nat,
                                                   x: Participant)
    requires IsRun(d, ops, ss) && i <= j < |ss| && ss[i].revision == ss[j].revision < U64_MAX
    requires InStore(ss[i], x) && x.sid < U64_MAX
    ensures PermissionKept(x, ss[j])
    decreases j
  {
    if i == j {
      StateUnique(d, ops, ss, i);
    } else {
      CountersGrow(d, ops, ss, i, j - 1);
      CountersGrow(d, ops, ss, j - 1, j);
      RunEvolves(d, ops, ss, j - 1);
      RevisionFixesPermission(d, ops, ss, i, j - 1, x);
      EvolvesPermission(x, ss[j - 1], ops[j - 1].op, ss[j]);
    }
  }

  /** At one revision a forwarding decision is the same in two states of a run, exactly when it was not wanted
      anyway or the first guard of the query, on room and permission, is the same. */
  lemma {:induction false} OneDecisionExactly(d: Defaults, ops: seq<Timed>, ss: seq<Store>, i: nat, j: nat, x: Pref)
    requires IsRun(d, ops, ss) && i <= j < |ss| && ss[i].revision == ss[j].revision < U64_MAX
    ensures CanSubscribe(ss[i], x) == CanSubscribe(ss[j], x)
       <==> || !IsMediaTrackSubscribed(ss[i], x)
            || MaySubscribe(ss[i], x.room, x.subscriber) == MaySubscribe(ss[j], x.room, x.subscriber)
  {
    RevisionFixesSubscriptions(d, ops, ss, i, j);
    assert IsMediaTrackSubscribed(ss[i], x) == IsMediaTrackSubscribed(ss[j], x);
  }

  /** A track that nobody has unsubscribed from. */
  lemma {:induction false} UnnamedTrack(prefs: set<Pref>) returns (track: string)
    ensures forall x :: x in prefs ==> |x.track| < |track|
  {
    if prefs == {} {
      track := "t";
    } else {
      var x :| x in prefs;
      var rest := UnnamedTrack(prefs - {x});
      track := rest + x.track + "t";
      forall y | y in prefs ensures |y.track| < |track| {
        if y != x {
          assert y in prefs - {x};
        }
      }
    }
  }

  /** So a cache of a subscriber's forwarding decisions, keyed by the revision, agrees with a direct lookup for
      all publishers and tracks if and only if that guard answers alike when it is filled and when it is read. */
  lemma {:induction false} RevisionFixesForwardingExactly(d: Defaults, ops: seq<Timed>, ss: seq<Store>, i: nat, j: nat,
                                                          room: string, subscriber: string)
    requires IsRun(d, ops, ss) && i <= j < |ss| && ss[i].revision == ss[j].revision < U64_MAX
    ensures (forall x: Pref :: x.room == room && x.subscriber == subscriber ==>
               CanSubscribe(ss[i], x) == CanSubscribe(ss[j], x))
       <==> MaySubscribe(ss[i], room, subscriber) == MaySubscribe(ss[j], room, subscriber)
  {
    forall x: Pref | x.room == room && x.subscriber == subscriber
      ensures CanSubscribe(ss[i], x) == CanSubscribe(ss[j], x)
         <==> || !IsMediaTrackSubscribed(ss[i], x)
              || MaySubscribe(ss[i], room, subscriber) == MaySubscribe(ss[j], room, subscriber)
    {
      OneDecisionExactly(d, ops, ss, i, j, x);
    }
    var track := UnnamedTrack(ss[i].unsubscribed);
    var wanted := Pref(room, "", track, subscriber);
    assert IsMediaTrackSubscribed(ss[i], wanted);
  }

  /** The subscriber's place is held by nobody in both states, or by the same participant. */
  ghost predicate SamePlace(s: Store, s': Store, room: string, identity: string) {
    && (room in s.rooms <==> room in s'.rooms)
    && (Has(s, room, identity) <==> Has(s', room, identity))
    && (Has(s, room, identity) ==> At(s, room, identity).sid == At(s', room, identity).sid < U64_MAX)
  }

  /** In particular it agrees for as long as the room exists and the subscriber's place is not taken by
      somebody else, for no change of permission goes without a new revision. */
  lemma {:induction false} RevisionFixesForwarding(d: Defaults, ops: seq<Timed>, ss: seq<Store>, i: nat, j: nat,
                                                   room: string, subscriber: string)
    requires IsRun(d, ops, ss) && i <= j < |ss| && ss[i].revision == ss[j].revision < U64_MAX
    requires SamePlace(ss[i], ss[j], room, subscriber)
    ensures forall x: Pref :: x.room == room && x.subscriber == subscriber ==>
              CanSubscribe(ss[i], x) == CanSubscribe(ss[j], x)
  {
    if Has(ss[i], room, subscriber) {
      RevisionFixesPermission(d, ops, ss, i, j, At(ss[i], room, subscriber));
    }
    RevisionFixesForwardingExactly(d, ops, ss, i, j, room, subscriber);
  }
}
