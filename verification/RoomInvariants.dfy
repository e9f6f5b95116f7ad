/** Invariants of the room store over every run: the emptiness stamp, the participant count, the
    capacity limit, and the preferences. */
module RoomInvariants {
  import opened Results
  import opened RoomState

  // ---------- Stamp, count and capacity ----------

  /** A room carries an emptiness stamp exactly when nobody is in it. */
  ghost predicate Stamped(rec: Record) { rec.emptySince.Some? <==> rec.participants == map[] }

  /** The advertised count is the number of participants that are not hidden. */
  ghost predicate Counted(rec: Record) { rec.room.numParticipants == Visible(rec.participants) }

  /** A room with a maximum holds no more participants than that. */
  ghost predicate Capped(rec: Record) {
    rec.room.maxParticipants > 0 ==> |rec.participants| <= rec.room.maxParticipants
  }

  /** A snapshot that is stored advertises the right count. */
  predicate TrueCount(s: Store, op: Op) {
    op.StoreRoom? && op.snapshot.name != "" ==>
      op.snapshot.numParticipants
      == if op.snapshot.name in s.rooms then Visible(s.rooms[op.snapshot.name].participants) else 0
  }

  /** A move finds a free place at its destination, or one under the same identity, or stays in its room;
      a snapshot that is stored has a maximum that suits who is there. */
  predicate RoomFor(s: Store, op: Op) {
    match op
    case Move(room, identity, destination) =>
      Has(s, room, identity) && destination in s.rooms ==>
        !Full(s.rooms[destination], identity) || destination == room
    case StoreRoom(snapshot, _) =>
      snapshot.name != "" && snapshot.name in s.rooms && snapshot.maxParticipants > 0 ==>
        |s.rooms[snapshot.name].participants| <= snapshot.maxParticipants
    case _ => true
  }

  /** The stamp is always kept. Whether count and capacity are depends on two operations: storing a
      snapshot overwrites count and maximum unread, and moving checks no maximum. A regime says which of
      the two are asked for. */
  datatype Regime = Regime(counted: bool, capped: bool)

  predicate Allowed(g: Regime, s: Store, op: Op) {
    (g.counted ==> TrueCount(s, op)) && (g.capped ==> RoomFor(s, op))
  }

  ghost predicate Sane(g: Regime, rec: Record) {
    Stamped(rec) && (g.counted ==> Counted(rec)) && (g.capped ==> Capped(rec))
  }

  ghost predicate AllSane(g: Regime, s: Store) { forall r :: r in s.rooms ==> Sane(g, s.rooms[r]) }

  lemma {:induction false} EmptyRecordSane(g: Regime, room: Room, internal: Option<Internal>,
                                           dispatches: seq<AgentDispatch>, now: nat)
    ensures Sane(g, EmptyRecord(room, internal, dispatches, now)) <==> room.numParticipants == 0 || !g.counted
  {
    var ps := EmptyRecord(room, internal, dispatches, now).participants;
    assert (set k | k in ps && !Hidden(ps[k])) == {};
  }

  lemma {:induction false} WithSane(g: Regime, rec: Record, identity: string, p: Participant)
    requires Sane(g, rec) && (g.capped ==> !Full(rec, identity))
    ensures Sane(g, With(rec, identity, p))
  {
    assert identity in With(rec, identity, p).participants;
  }

  lemma {:induction false} WithoutSane(g: Regime, rec: Record, identity: string, now: nat)
    requires Sane(g, rec) && identity in rec.participants
    ensures Sane(g, Without(rec, identity, now))
  {
    var rest := rec.participants - {identity};
    assert rec.participants != map[];
    assert rest.Keys <= rec.participants.Keys;
    assert |rest| == |rest.Keys| && |rec.participants| == |rec.participants.Keys|;
    SubsetSize(rest.Keys, rec.participants.Keys);
  }

  lemma {:induction false} SubsetSize<T>(a: set<T>, b: set<T>)
    requires a <= b
    ensures |a| <= |b| && (|a| == |b| ==> a == b)
  {
    assert b == a + (b - a);
    assert |b| == |a| + |b - a|;
  }

  lemma {:induction false} ReplacedSane(g: Regime, rec: Record, identity: string, p: Participant)
    requires Sane(g, rec) && identity in rec.participants
    requires g.counted ==> Hidden(p) == Hidden(rec.participants[identity])
    ensures Sane(g, rec.(participants := rec.participants[identity := p]))
  {
    var ps := rec.participants[identity := p];
    assert identity in ps && rec.participants != map[];
    assert ps.Keys == rec.participants.Keys;
    assert |ps| == |ps.Keys| && |rec.participants| == |rec.participants.Keys|;
    if g.counted {
      assert (set k | k in ps && !Hidden(ps[k])) == (set k | k in rec.participants && !Hidden(rec.participants[k]));
    }
  }

  lemma {:induction false} JoinSane(g: Regime, s: Store, d: Defaults, op: Op, now: nat)
    requires AllSane(g, s) && op.Join?
    ensures AllSane(g, DoJoin(s, d, op, now))
  {
    var s1 := EnsureRoom(s, d, op.room, now);
    if op.room !in s.rooms {
      EmptyRecordSane(g, NewRoom(s, d, op.room, now), None, [], now);
    }
    var rec := s1.rooms[op.room];
    assert Sane(g, rec);
    if !Full(rec, op.identity) {
      var p := Joining(s1, rec, op, now);
      WithSane(g, rec.(versions := rec.versions[op.identity := p.version], hadParticipants := true), op.identity, p);
    }
  }

  lemma {:induction false} PutParticipantSane(g: Regime, s: Store, room: string, identity: string, p: Participant)
    requires AllSane(g, s) && Has(s, room, identity)
    requires g.counted ==> Hidden(p) == Hidden(At(s, room, identity))
    ensures AllSane(g, PutParticipant(s, room, identity, p))
  {
    ReplacedSane(g, s.rooms[room], identity, p);
  }

  /** No edit touches the permission, so none touches visibility. */
  lemma {:induction false} EditKeepsPermission(p: Participant, e: Edit)
    requires ApplyEdit(p, e).Some?
    ensures ApplyEdit(p, e).value.permission == p.permission
  {}

  lemma {:induction false} RecountSane(g: Regime, s: Store, room: string)
    requires AllSane(Regime(false, g.capped), s) && room in s.rooms
    requires g.counted ==> forall r :: r in s.rooms && r != room ==> Counted(s.rooms[r])
    ensures AllSane(g, PutRecord(s, room, Recount(s.rooms[room])))
  {}

  lemma {:induction false} UpdateSane(g: Regime, s: Store, room: string, identity: string, changes: Changes)
    requires AllSane(g, s)
    ensures AllSane(g, DoUpdate(s, room, identity, changes))
  {
    if Has(s, room, identity) && !Oversized(At(s, room, identity), changes) {
      var p := At(s, room, identity);
      PutUpdatedSane(g, s, room, identity, ApplyChanges(p, changes), ChangesPermission(p, changes));
    }
  }

  lemma {:induction false} PutUpdatedSane(g: Regime, s: Store, room: string, identity: string, p: Participant,
                                          permissionChanged: bool)
    requires AllSane(g, s) && Has(s, room, identity)
    ensures AllSane(g, PutUpdated(s, room, identity, p, permissionChanged))
  {
    if Hidden(At(s, room, identity)) == Hidden(p) {
      PutParticipantSane(g, s, room, identity, p);
    } else {
      PutParticipantSane(Regime(false, g.capped), s, room, identity, p);
      RecountSane(g, PutParticipant(s, room, identity, p), room);
    }
  }

  /** Taking somebody out of a room that is not over its maximum makes a free place. */
  lemma {:induction false} LeavingFrees(rec: Record, identity: string, now: nat)
    requires Capped(rec) && identity in rec.participants
    ensures !Full(Without(rec, identity, now), identity)
  {
    var rest := rec.participants - {identity};
    assert rec.participants.Keys == rest.Keys + {identity};
    assert |rest| == |rest.Keys| && |rec.participants| == |rec.participants.Keys|;
  }

  lemma {:induction false} MoveSane(g: Regime, s: Store, op: Op, now: nat)
    requires AllSane(g, s) && op.Move? && Allowed(g, s, op)
    ensures AllSane(g, DoMove(s, op.room, op.identity, op.destination, now))
  {
    if op.destination in s.rooms && Has(s, op.room, op.identity) {
      WithoutSane(g, s.rooms[op.room], op.identity, now);
      if g.capped {
        LeavingFrees(s.rooms[op.room], op.identity, now);
      }
      var s1 := PutRecord(s, op.room, Without(s.rooms[op.room], op.identity, now));
      WithSane(g, s1.rooms[op.destination], op.identity, Bump(At(s, op.room, op.identity)));
    }
  }

  /** Storing a snapshot keeps what is asked for exactly when the snapshot is right about it. */
  lemma {:induction false} StoreRoomExactly(g: Regime, s: Store, snapshot: Room, internal: Option<Internal>, now: nat)
    requires AllSane(g, s)
    ensures AllSane(g, DoStoreRoom(s, snapshot, internal, now)) <==> Allowed(g, s, StoreRoom(snapshot, internal))
  {
    var s' := DoStoreRoom(s, snapshot, internal, now);
    if snapshot.name != "" {
      EmptyRecordSane(g, snapshot, internal, [], now);
      assert AllSane(g, s') <==> Sane(g, s'.rooms[snapshot.name]);
    }
  }

  lemma {:induction false} RoomOpSane(g: Regime, s: Store, d: Defaults, op: Op, now: nat)
    requires AllSane(g, s)
    requires op.CreateRoom? || op.DeleteRoom? || op.Cleanup? || op.UpdateRoomMetadata?
    ensures AllSane(g, Step(s, d, op, now))
  {
    if op.CreateRoom? && op.room !in s.rooms {
      var rec := DoCreateRoom(s, d, op, now).rooms[op.room];
      EmptyRecordSane(g, rec.room, None, rec.dispatches, now);
    }
  }

  lemma {:induction false} StepSane(g: Regime, s: Store, d: Defaults, op: Op, now: nat)
    requires AllSane(g, s) && Allowed(g, s, op)
    ensures AllSane(g, Step(s, d, op, now))
  {
    match op
    case Join(_, _, _, _, _, _) => JoinSane(g, s, d, op, now);
    case Remove(room, identity, reason) =>
      if Has(s, room, identity) {
        WithoutSane(g, s.rooms[room], identity, now);
      }
    case EditParticipant(room, identity, edit) =>
      if Has(s, room, identity) && ApplyEdit(At(s, room, identity), edit).Some? {
        EditKeepsPermission(At(s, room, identity), edit);
        PutParticipantSane(g, s, room, identity, ApplyEdit(At(s, room, identity), edit).value);
      }
    case RemoveTrack(room, identity, trackSid) =>
      if Has(s, room, identity) {
        var p := At(s, room, identity);
        PutParticipantSane(g, s, room, identity, Bump(p.(tracks := WithoutTrack(p.tracks, trackSid))));
      }
    case Update(room, identity, changes) => UpdateSane(g, s, room, identity, changes);
    case Move(_, _, _) => MoveSane(g, s, op, now);
    case StoreRoom(snapshot, internal) => StoreRoomExactly(g, s, snapshot, internal, now);
    case SubscribeByTrack(_, _, _, _) =>
    case SubscribeByPublisher(_, _, _, _, _, _) =>
    case Subscribe(_, _, _, _, _) =>
    case LockRoom(_, _) =>
    case UnlockRoom(_, _) =>
    case _ => RoomOpSane(g, s, d, op, now);
  }

  /** A move keeps the destination within its maximum exactly when the destination had room for
      the participant, or had one under that identity already, or is the room itself. */
  lemma {:induction false} MoveKeepsCapacityExactly(s: Store, op: Op, now: nat)
    requires op.Move? && Has(s, op.room, op.identity) && op.destination in s.rooms
    requires Capped(s.rooms[op.destination])
    ensures op.destination in DoMove(s, op.room, op.identity, op.destination, now).rooms
    ensures Capped(DoMove(s, op.room, op.identity, op.destination, now).rooms[op.destination]) <==> RoomFor(s, op)
  {
    var before := s.rooms[op.destination].participants;
    var after := DoMove(s, op.room, op.identity, op.destination, now).rooms[op.destination].participants;
    assert after.Keys == before.Keys + {op.identity};
    assert |after| == |after.Keys| && |before| == |before.Keys|;
  }

  /** One operation keeps what a regime asks for exactly when it is allowed. */
  lemma {:induction false} StepExactly(g: Regime, s: Store, d: Defaults, op: Op, now: nat)
    requires AllSane(g, s)
    ensures AllSane(g, Step(s, d, op, now)) <==> Allowed(g, s, op)
  {
    if Allowed(g, s, op) {
      StepSane(g, s, d, op, now);
    } else if op.StoreRoom? {
      StoreRoomExactly(g, s, op.snapshot, op.internal, now);
    } else {
      MoveKeepsCapacityExactly(s, op, now);
      assert !Capped(Step(s, d, op, now).rooms[op.destination]);
    }
  }

  /** The state after the first `n` operations of a run. */
  ghost function After(d: Defaults, ops: seq<Timed>, n: nat): Store
    requires n <= |ops|
  {
    Run(EMPTY, d, ops[..n])
  }

  lemma {:induction false} AfterStep(d: Defaults, ops: seq<Timed>, n: nat)
    requires n < |ops|
    ensures After(d, ops, n + 1) == Step(After(d, ops, n), d, ops[n].op, ops[n].now)
  {
    assert ops[..n + 1][..n] == ops[..n];
  }

  lemma {:induction false} AfterSane(g: Regime, d: Defaults, ops: seq<Timed>, n: nat)
    requires n <= |ops| && forall i: nat :: i < n ==> Allowed(g, After(d, ops, i), ops[i].op)
    ensures AllSane(g, After(d, ops, n))
  {
    if n > 0 {
      AfterSane(g, d, ops, n - 1);
      AfterStep(d, ops, n - 1);
      StepSane(g, After(d, ops, n - 1), d, ops[n - 1].op, ops[n - 1].now);
    }
  }

  /** Every state of a run is as a regime asks if and only if every operation of it is allowed. */
  lemma {:induction false} RunExactly(g: Regime, d: Defaults, ops: seq<Timed>)
    ensures (forall n: nat :: n <= |ops| ==> AllSane(g, After(d, ops, n)))
       <==> (forall n: nat :: n < |ops| ==> Allowed(g, After(d, ops, n), ops[n].op))
  {
    if forall n: nat :: n < |ops| ==> Allowed(g, After(d, ops, n), ops[n].op) {
      forall n: nat | n <= |ops| ensures AllSane(g, After(d, ops, n)) {
        AfterSane(g, d, ops, n);
      }
    } else {
      var n: nat :| n < |ops| && !Allowed(g, After(d, ops, n), ops[n].op);
      if AllSane(g, After(d, ops, n)) {
        AfterStep(d, ops, n);
        StepExactly(g, After(d, ops, n), d, ops[n].op, ops[n].now);
        assert !AllSane(g, After(d, ops, n + 1));
      }
    }
  }

  lemma {:induction false} RunStamped(d: Defaults, ops: seq<Timed>)
    ensures AllSane(Regime(false, false), Run(EMPTY, d, ops))
  {
    AfterSane(Regime(false, false), d, ops, |ops|);
    assert ops[..|ops|] == ops;
  }

  /** In every reachable store a room has an emptiness stamp exactly when it has no participants. */
  lemma {:induction false} StampsAreExact(d: Defaults, ops: seq<Timed>, room: string)
    requires room in Run(EMPTY, d, ops).rooms
    ensures var rec := Run(EMPTY, d, ops).rooms[room]; rec.emptySince.Some? <==> rec.participants == map[]
  {
    RunStamped(d, ops);
  }

  /** So cleanup never removes, or touches, an occupied room. */
  lemma {:induction false} CleanupSparesTheOccupied(d: Defaults, ops: seq<Timed>, defaultAgeMs: int, now: nat,
                                                    room: string, identity: string)
    requires Has(Run(EMPTY, d, ops), room, identity)
    ensures var s := Run(EMPTY, d, ops);
            var s' := DoCleanup(s, defaultAgeMs, now);
            room in s'.rooms && s'.rooms[room] == s.rooms[room]
  {
    RunStamped(d, ops);
  }

  /** The advertised count of every room is the number of participants that are not hidden, capped at
      the largest 32-bit number. */
  ghost predicate CountsVisible(s: Store) {
    forall r :: r in s.rooms ==>
      var rec := s.rooms[r];
      var visible := |set k | k in rec.participants && !Hidden(rec.participants[k])|;
      rec.room.numParticipants == if visible < U32_MAX then visible else U32_MAX
  }

  /** That holds throughout a run if and only if every snapshot that was stored had the right count. */
  lemma {:induction false} CountIsVisibleExactly(d: Defaults, ops: seq<Timed>)
    ensures (forall n: nat :: n <= |ops| ==> CountsVisible(After(d, ops, n)))
       <==> (forall n: nat :: n < |ops| ==> TrueCount(After(d, ops, n), ops[n].op))
  {
    var g := Regime(true, false);
    RunExactly(g, d, ops);
    forall n: nat | n <= |ops| ensures CountsVisible(After(d, ops, n)) <==> AllSane(g, After(d, ops, n)) {
      AfterSane(Regime(false, false), d, ops, n);
    }
    assert forall n: nat :: n < |ops| ==>
      (Allowed(g, After(d, ops, n), ops[n].op) <==> TrueCount(After(d, ops, n), ops[n].op));
  }

  /** No room with a maximum holds more participants than that. */
  ghost predicate WithinCapacity(s: Store) {
    forall r :: r in s.rooms && s.rooms[r].room.maxParticipants > 0 ==>
      |s.rooms[r].participants| <= s.rooms[r].room.maxParticipants
  }

  /** That holds throughout a run if and only if every move had room and every snapshot that was stored
      had a maximum to suit. */
  lemma {:induction false} CapacityIsKeptExactly(d: Defaults, ops: seq<Timed>)
    ensures (forall n: nat :: n <= |ops| ==> WithinCapacity(After(d, ops, n)))
       <==> (forall n: nat :: n < |ops| ==> RoomFor(After(d, ops, n), ops[n].op))
  {
    var g := Regime(false, true);
    RunExactly(g, d, ops);
    forall n: nat | n <= |ops| ensures WithinCapacity(After(d, ops, n)) <==> AllSane(g, After(d, ops, n)) {
      AfterSane(Regime(false, false), d, ops, n);
    }
    assert forall n: nat :: n < |ops| ==>
      (Allowed(g, After(d, ops, n), ops[n].op) <==> RoomFor(After(d, ops, n), ops[n].op));
  }

  // ---------- Preferences name people who are there ----------

  ghost predicate PrefsLive(s: Store) {
    forall x :: x in s.unsubscribed ==> Has(s, x.room, x.publisher) && Has(s, x.room, x.subscriber)
  }

  /** The setter that takes a publisher's word for it is only used for people in the room. */
  ghost predicate Honest(s: Store, op: Op) {
    op.Subscribe? && !op.subscribed && op.room in s.rooms ==>
      Has(s, op.room, op.publisher) && Has(s, op.room, op.subscriber)
  }

  lemma {:induction false} PutStillHas(s: Store, r: string, rec: Record, room: string, identity: string)
    requires Has(s, room, identity)
    requires r == room ==> identity in rec.participants
    ensures Has(PutRecord(s, r, rec), room, identity)
  {}

  lemma {:induction false} MoveStillHas(s: Store, room: string, identity: string, destination: string, now: nat,
                                        r: string, k: string)
    requires Has(s, r, k) && !(r == room && k == identity)
    ensures Has(DoMove(s, room, identity, destination, now), r, k)
  {
    if destination in s.rooms && Has(s, room, identity) {
      var src := Without(s.rooms[room], identity, now);
      PutStillHas(s, room, src, r, k);
      var s1 := PutRecord(s, room, src);
      PutStillHas(s1, destination, With(s1.rooms[destination], identity, Bump(At(s, room, identity))), r, k);
    }
  }

  lemma {:induction false} RemoveStillHas(s: Store, room: string, identity: string, reason: int, now: nat, r: string,
                                          k: string)
    requires Has(s, r, k) && !(r == room && k == identity)
    ensures Has(DoRemove(s, room, identity, reason, now), r, k)
  {
    if Has(s, room, identity) {
      PutStillHas(s, room, Without(s.rooms[room], identity, now), r, k);
    }
  }

  lemma {:induction false} JoinStillHas(s: Store, d: Defaults, op: Op, now: nat, r: string, k: string)
    requires op.Join? && Has(s, r, k)
    ensures Has(DoJoin(s, d, op, now), r, k)
  {
    assert Has(EnsureRoom(s, d, op.room, now), r, k);
  }

  lemma {:induction false} PutParticipantStillHas(s: Store, room: string, identity: string, p: Participant, r: string,
                                                  k: string)
    requires Has(s, room, identity) && Has(s, r, k)
    ensures Has(PutParticipant(s, room, identity, p), r, k)
  {}

  lemma {:induction false} UpdateStillHas(s: Store, room: string, identity: string, changes: Changes, r: string,
                                          k: string)
    requires Has(s, r, k)
    ensures Has(DoUpdate(s, room, identity, changes), r, k)
  {
    if Has(s, room, identity) {
      PutParticipantStillHas(s, room, identity, ApplyChanges(At(s, room, identity), changes), r, k);
    }
  }

  lemma {:induction false} RemoveTrackStillHas(s: Store, room: string, identity: string, trackSid: string, r: string,
                                               k: string)
    requires Has(s, r, k)
    ensures Has(DoRemoveTrack(s, room, identity, trackSid), r, k)
  {
    if Has(s, room, identity) {
      var p := At(s, room, identity);
      PutParticipantStillHas(s, room, identity, Bump(p.(tracks := WithoutTrack(p.tracks, trackSid))), r, k);
    }
  }

  /** Preference setters and locks leave the rooms alone. */
  lemma {:induction false} RoomsUntouched(s: Store, d: Defaults, op: Op, now: nat)
    requires op.SubscribeByTrack? || op.SubscribeByPublisher? || op.Subscribe? || op.LockRoom? || op.UnlockRoom?
    ensures Step(s, d, op, now).rooms == s.rooms
  {}

  lemma {:induction false} EditStillHas(s: Store, room: string, identity: string, edit: Edit, r: string, k: string)
    requires Has(s, r, k)
    ensures Has(DoEdit(s, room, identity, edit), r, k)
  {
    if Has(s, room, identity) && ApplyEdit(At(s, room, identity), edit).Some? {
      PutParticipantStillHas(s, room, identity, ApplyEdit(At(s, room, identity), edit).value, r, k);
    }
  }

  lemma {:induction false} RoomOpStillHas(s: Store, d: Defaults, op: Op, now: nat, r: string, k: string)
    requires Has(s, r, k) && AllSane(Regime(false, false), s)
    requires op.CreateRoom? || op.DeleteRoom? || op.Cleanup? || op.StoreRoom? || op.UpdateRoomMetadata?
    requires !(op.DeleteRoom? && r == op.room)
    ensures Has(Step(s, d, op, now), r, k)
  {
    assert s.rooms[r].participants != map[];
  }

  /** The operation takes this participant away. */
  predicate Dismisses(op: Op, room: string, identity: string) {
    || ((op.Remove? || op.Move?) && room == op.room && identity == op.identity)
    || (op.DeleteRoom? && room == op.room)
  }

  lemma {:induction false} ParticipantOpStillHas(s: Store, d: Defaults, op: Op, now: nat, room: string,
                                                 identity: string)
    requires Has(s, room, identity) && !Dismisses(op, room, identity)
    requires op.Join? || op.Remove? || op.Move? || op.Update? || op.EditParticipant? || op.RemoveTrack?
    ensures Has(Step(s, d, op, now), room, identity)
  {
    match op
    case Join(_, _, _, _, _, _) => JoinStillHas(s, d, op, now, room, identity);
    case Remove(r, k, reason) => RemoveStillHas(s, r, k, reason, now, room, identity);
    case Move(r, k, destination) => MoveStillHas(s, r, k, destination, now, room, identity);
    case Update(r, k, changes) => UpdateStillHas(s, r, k, changes, room, identity);
    case EditParticipant(r, k, edit) => EditStillHas(s, r, k, edit, room, identity);
    case RemoveTrack(r, k, trackSid) => RemoveTrackStillHas(s, r, k, trackSid, room, identity);
  }

  /** Nobody leaves but the one an operation forgets. */
  lemma {:induction false} StillHas(s: Store, d: Defaults, op: Op, now: nat, room: string, identity: string)
    requires Has(s, room, identity) && AllSane(Regime(false, false), s) && !Dismisses(op, room, identity)
    ensures Has(Step(s, d, op, now), room, identity)
  {
    if op.SubscribeByTrack? || op.SubscribeByPublisher? || op.Subscribe? || op.LockRoom? || op.UnlockRoom? {
      RoomsUntouched(s, d, op, now);
    } else if op.CreateRoom? || op.DeleteRoom? || op.Cleanup? || op.StoreRoom? || op.UpdateRoomMetadata? {
      RoomOpStillHas(s, d, op, now, room, identity);
    } else {
      ParticipantOpStillHas(s, d, op, now, room, identity);
    }
  }

  lemma {:induction false} PrefsShrink(s: Store, d: Defaults, op: Op, now: nat, x: Pref)
    requires x in Step(s, d, op, now).unsubscribed
    requires !op.SubscribeByTrack? && !op.SubscribeByPublisher? && !op.Subscribe?
    ensures x in s.unsubscribed
    ensures (op.Remove? || op.Move?) && Step(s, d, op, now) != s ==> !Mentions(x, op.room, op.identity)
    ensures op.DeleteRoom? && op.room in s.rooms ==> x.room != op.room
  {}

  lemma {:induction false} StepPrefsLive(s: Store, d: Defaults, op: Op, now: nat)
    requires PrefsLive(s) && AllSane(Regime(false, false), s) && Honest(s, op)
    ensures PrefsLive(Step(s, d, op, now))
  {
    var s' := Step(s, d, op, now);
    if s' != s && !op.SubscribeByTrack? && !op.SubscribeByPublisher? && !op.Subscribe? {
      forall x | x in s'.unsubscribed ensures Has(s', x.room, x.publisher) && Has(s', x.room, x.subscriber) {
        PrefsShrink(s, d, op, now, x);
        assert !Dismisses(op, x.room, x.publisher) && !Dismisses(op, x.room, x.subscriber);
        StillHas(s, d, op, now, x.room, x.publisher);
        StillHas(s, d, op, now, x.room, x.subscriber);
      }
    }
  }

  lemma {:induction false} AfterPrefsLive(d: Defaults, ops: seq<Timed>, n: nat)
    requires n <= |ops| && forall i: nat :: i < n ==> Honest(After(d, ops, i), ops[i].op)
    ensures PrefsLive(After(d, ops, n))
  {
    if n > 0 {
      AfterPrefsLive(d, ops, n - 1);
      AfterSane(Regime(false, false), d, ops, n - 1);
      AfterStep(d, ops, n - 1);
      StepPrefsLive(After(d, ops, n - 1), d, ops[n - 1].op, ops[n - 1].now);
    }
  }

  /** The unchecked setter keeps preferences live exactly when it is used honestly. */
  lemma {:induction false} UncheckedSetterExactly(s: Store, d: Defaults, now: nat, x: Pref)
    requires PrefsLive(s) && x.room in s.rooms
    ensures PrefsLive(Step(s, d, Subscribe(x.room, x.publisher, x.track, x.subscriber, false), now))
       <==> Has(s, x.room, x.publisher) && Has(s, x.room, x.subscriber)
  {
    var s' := Step(s, d, Subscribe(x.room, x.publisher, x.track, x.subscriber, false), now);
    assert x in s'.unsubscribed;
  }

  /** Throughout a run every stored tuple names a live room and two present participants, although cleanup
      never prunes tuples, if and only if preferences are only set for people in the room. */
  lemma {:induction false} PreferencesNameThePresentExactly(d: Defaults, ops: seq<Timed>)
    ensures (forall n: nat :: n <= |ops| ==> PrefsLive(After(d, ops, n)))
       <==> (forall n: nat :: n < |ops| ==> Honest(After(d, ops, n), ops[n].op))
  {
    if forall n: nat :: n < |ops| ==> Honest(After(d, ops, n), ops[n].op) {
      forall n: nat | n <= |ops| ensures PrefsLive(After(d, ops, n)) {
        AfterPrefsLive(d, ops, n);
      }
    } else {
      var n: nat :| n < |ops| && !Honest(After(d, ops, n), ops[n].op);
      if PrefsLive(After(d, ops, n)) {
        var op := ops[n].op;
        AfterStep(d, ops, n);
        UncheckedSetterExactly(After(d, ops, n), d, ops[n].now,
                               Pref(op.room, op.publisher, op.trackSid, op.subscriber));
        assert !PrefsLive(After(d, ops, n + 1));
      }
    }
  }
}
