/** Short runs of the store in which a property that a caller may expect does not hold. */
module RoomCases {
  import opened Results
  import opened RoomState
  import opened RoomInvariants
  import opened RoomSnapshots

  /** A join without metadata or attributes. */
  function Enter(room: string, identity: string, permission: Option<Permission>): Timed {
    Timed(Join(room, identity, identity, "", map[], permission), 0)
  }

  function Open(room: string, maxParticipants: nat): Timed {
    Timed(CreateRoom(room, 0, 0, maxParticipants, "", []), 0)
  }

  // ---------- A move overfills its destination ----------

  /** `s'` is `s` with `identity` alone in `room`, which keeps its maximum. */
  ghost predicate Occupies(s: Store, s': Store, room: string, identity: string) {
    && room in s'.rooms && s'.rooms[room].participants.Keys == {identity}
    && (room in s.rooms ==> s'.rooms[room].room.maxParticipants == s.rooms[room].room.maxParticipants)
    && forall r :: r != room ==> (r in s'.rooms <==> r in s.rooms) && (r in s.rooms ==> s'.rooms[r] == s.rooms[r])
  }

  lemma {:induction false} Enters(s: Store, d: Defaults, op: Op)
    requires op.Join? && (op.room in s.rooms ==> s.rooms[op.room].participants == map[])
    ensures Occupies(s, DoJoin(s, d, op, 0), op.room, op.identity)
  {
    var s1 := EnsureRoom(s, d, op.room, 0);
    assert !Full(s1.rooms[op.room], op.identity);
  }

  lemma {:induction false} EntersAfter(d: Defaults, ops: seq<Timed>, n: nat, room: string, identity: string)
    requires n < |ops| && ops[n] == Enter(room, identity, None)
    requires room in After(d, ops, n).rooms ==> After(d, ops, n).rooms[room].participants == map[]
    ensures Occupies(After(d, ops, n), After(d, ops, n + 1), room, identity)
  {
    AfterStep(d, ops, n);
    Enters(After(d, ops, n), d, ops[n].op);
  }

  lemma {:induction false} OpensFirst(d: Defaults, ops: seq<Timed>, room: string, maxParticipants: nat)
    requires ops != [] && ops[0] == Open(room, maxParticipants)
    ensures var s := After(d, ops, 1);
            && s.rooms.Keys == {room} && s.rooms[room].participants == map[] && s.unsubscribed == {}
            && (maxParticipants > 0 ==> s.rooms[room].room.maxParticipants == maxParticipants)
  {
    assert After(d, ops, 0) == EMPTY;
    AfterStep(d, ops, 0);
    assert After(d, ops, 1) == DoCreateRoom(EMPTY, d, ops[0].op, 0);
  }

  lemma {:induction false} BothEnter(d: Defaults, ops: seq<Timed>)
    requires |ops| >= 3
    requires ops[0] == Open("b", 1) && ops[1] == Enter("b", "x", None) && ops[2] == Enter("a", "y", None)
    ensures var s := After(d, ops, 3);
            && "a" in s.rooms && s.rooms["a"].participants.Keys == {"y"}
            && "b" in s.rooms && s.rooms["b"].participants.Keys == {"x"} && s.rooms["b"].room.maxParticipants == 1
            && s.rooms.Keys == {"a", "b"}
  {
    OpensFirst(d, ops, "b", 1);
    EntersAfter(d, ops, 1, "b", "x");
    EntersAfter(d, ops, 2, "a", "y");
  }

  lemma {:induction false} MoveOverfillsFull(d: Defaults, ops: seq<Timed>, n: nat, op: Op)
    requires n < |ops| && ops[n] == Timed(op, 0) && op.Move? && op.destination != op.room
    requires Has(After(d, ops, n), op.room, op.identity) && op.destination in After(d, ops, n).rooms
    requires WithinCapacity(After(d, ops, n)) && Full(After(d, ops, n).rooms[op.destination], op.identity)
    ensures !WithinCapacity(After(d, ops, n + 1))
  {
    AfterStep(d, ops, n);
    MoveKeepsCapacityExactly(After(d, ops, n), op, 0);
  }

  /** Two rooms with one participant each, the second of which takes no more. */
  lemma {:induction false} SinglesWithin(s: Store)
    requires s.rooms.Keys == {"a", "b"} && s.rooms["a"].participants.Keys == {"y"}
    requires s.rooms["b"].participants.Keys == {"x"} && s.rooms["b"].room.maxParticipants == 1
    ensures WithinCapacity(s) && Full(s.rooms["b"], "y") && Has(s, "a", "y")
  {
    var a, b := s.rooms["a"].participants, s.rooms["b"].participants;
    assert |a| == |a.Keys| == 1 && |b| == |b.Keys| == 1;
    assert "y" in a.Keys;
  }

  /** Room b takes one participant and has one; another is moved there from room a. */
  lemma {:induction false} MoveOverfills(d: Defaults, ops: seq<Timed>)
    requires |ops| == 4 && ops[3] == Timed(Move("a", "y", "b"), 0)
    requires ops[0] == Open("b", 1) && ops[1] == Enter("b", "x", None) && ops[2] == Enter("a", "y", None)
    ensures WithinCapacity(After(d, ops, 3)) && !WithinCapacity(After(d, ops, 4))
  {
    BothEnter(d, ops);
    SinglesWithin(After(d, ops, 3));
    MoveOverfillsFull(d, ops, 3, Move("a", "y", "b"));
  }

  // ---------- A preference names people who are not there ----------

  lemma {:induction false} SetterNamesTheAbsent(d: Defaults, ops: seq<Timed>)
    requires ops == [Open("a", 0), Timed(Subscribe("a", "x", "track", "y", false), 0)]
    ensures PrefsLive(After(d, ops, 1)) && !PrefsLive(After(d, ops, 2))
  {
    OpensFirst(d, ops, "a", 0);
    AfterStep(d, ops, 1);
    UncheckedSetterExactly(After(d, ops, 1), d, 0, Pref("a", "x", "track", "y"));
  }

  // ---------- Joining again over oneself ----------

  lemma {:induction false} FirstJoin(d: Defaults, ops: seq<Timed>, permission: Option<Permission>)
    requires ops != [] && ops[0] == Enter("a", "x", permission)
    ensures var s := After(d, ops, 1);
            && Has(s, "a", "x") && At(s, "a", "x").permission == permission && s.unsubscribed == {} && s.revision == 0
            && At(s, "a", "x").version == 0 && s.rooms["a"].versions == map["x" := 0]
            && At(s, "a", "x").sid == s.nextParticipantId == 1
  {
    assert After(d, ops, 0) == EMPTY;
    AfterStep(d, ops, 0);
    var s1 := EnsureRoom(EMPTY, d, "a", 0);
    assert !Full(s1.rooms["a"], "x");
    assert After(d, ops, 1) == Admit(s1, ops[0].op, 0);
  }

  lemma {:induction false} TrackAdded(d: Defaults, ops: seq<Timed>, track: Track)
    requires |ops| > 1 && ops[0] == Enter("a", "x", None)
    requires ops[1] == Timed(EditParticipant("a", "x", AddTrack(track)), 0)
    ensures var s := After(d, ops, 2);
            && Has(s, "a", "x") && At(s, "a", "x").version == 1 && At(s, "a", "x").sid == s.nextParticipantId == 1
            && s.rooms["a"].versions == map["x" := 0]
  {
    FirstJoin(d, ops, None);
    AfterStep(d, ops, 1);
    assert After(d, ops, 2) == DoEdit(After(d, ops, 1), "a", "x", AddTrack(track));
  }

  /** A join, a published track, and a join over the present identity: the second SID starts with the version
      that the first one already had. */
  lemma {:induction false} RejoinIsNotNewer(d: Defaults, ops: seq<Timed>, track: Track)
    requires ops == [Enter("a", "x", None), Timed(EditParticipant("a", "x", AddTrack(track)), 0), Enter("a", "x", None)]
    ensures var s, s' := After(d, ops, 2), After(d, ops, 3);
            && Has(s, "a", "x") && Has(s', "a", "x") && At(s, "a", "x").sid != At(s', "a", "x").sid
            && At(s, "a", "x").version == At(s', "a", "x").version == 1
  {
    TrackAdded(d, ops, track);
    AfterStep(d, ops, 2);
    assert After(d, ops, 3) == Admit(After(d, ops, 2), ops[2].op, 0);
  }

  // ---------- One revision, two forwarding decisions ----------

  /** A permission that forbids subscribing. */
  const CANNOT_SUBSCRIBE := Permission(false, true, true, false)

  /** Two states with one revision, the decision in the one and in the other. */
  ghost predicate Flips(s: Store, s': Store, x: Pref, before: bool, after: bool) {
    s.revision == s'.revision < U64_MAX && CanSubscribe(s, x) == before && CanSubscribe(s', x) == after
  }

  /** The subscriber joins again over itself, with less permission. */
  lemma {:induction false} RejoinKeepsRevision(d: Defaults, ops: seq<Timed>, x: Pref)
    requires ops == [Enter("a", "x", None), Enter("a", "x", Some(CANNOT_SUBSCRIBE))]
    requires x.room == "a" && x.subscriber == "x"
    ensures Flips(After(d, ops, 1), After(d, ops, 2), x, true, false)
  {
    FirstJoin(d, ops, None);
    AfterStep(d, ops, 1);
    var s := After(d, ops, 1);
    assert After(d, ops, 2) == DoJoin(s, d, ops[1].op, 0) == Admit(s, ops[1].op, 0);
  }

  /** A subscriber who may not subscribe leaves, and what is nobody's place may be forwarded to. */
  lemma {:induction false} RemovalKeepsRevision(d: Defaults, ops: seq<Timed>, x: Pref)
    requires ops == [Enter("a", "x", Some(CANNOT_SUBSCRIBE)), Timed(Remove("a", "x", 0), 0)]
    requires x.room == "a" && x.subscriber == "x"
    ensures Flips(After(d, ops, 1), After(d, ops, 2), x, false, true)
  {
    FirstJoin(d, ops, Some(CANNOT_SUBSCRIBE));
    AfterStep(d, ops, 1);
    assert After(d, ops, 2) == DoRemove(After(d, ops, 1), "a", "x", 0, 0);
  }

  /** A room is created. */
  lemma {:induction false} CreationKeepsRevision(d: Defaults, ops: seq<Timed>, x: Pref)
    requires ops == [Open("a", 0)] && x.room == "a"
    ensures Flips(After(d, ops, 0), After(d, ops, 1), x, false, true)
  {
    assert After(d, ops, 0) == EMPTY;
    AfterStep(d, ops, 0);
    OpensFirst(d, ops, "a", 0);
    assert After(d, ops, 1) == DoCreateRoom(EMPTY, d, ops[0].op, 0);
  }
}
