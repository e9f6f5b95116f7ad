/** What the operations of the store leave for those who ask it: each stated by what can be seen before and
    after, without the functions that the operations are made of. */
module RoomEffects {
  import opened Results
  import opened RoomState
  import opened RoomEdits
  import opened RoomSnapshots
  import Text

  // ---------- Subscription setters and the query ----------

  /** The setter that goes by track decides for everybody in the room who has some track of that SID, and for no
      other tuple. */
  ghost predicate DecidedByTrack(s: Store, op: Op, x: Pref)
    requires op.SubscribeByTrack?
  {
    && Has(s, op.room, op.subscriber) && x.room == op.room && x.track == op.trackSid && x.subscriber == op.subscriber
    && Has(s, op.room, x.publisher)
    && exists i :: 0 <= i < |At(s, op.room, x.publisher).tracks|
         && At(s, op.room, x.publisher).tracks[i].sid == op.trackSid
  }

  lemma {:induction false} SetByTrackExactly(s: Store, d: Defaults, op: Op, now: nat, x: Pref)
    requires op.SubscribeByTrack?
    ensures var s' := Step(s, d, op, now);
            && IsMediaTrackSubscribed(s', x)
               == (if DecidedByTrack(s, op, x) then op.subscribed else IsMediaTrackSubscribed(s, x))
            && s'.rooms == s.rooms && s'.locks == s.locks
  {
    if Has(s, op.room, op.subscriber) {
      var publishers := PublishersOf(s.rooms[op.room].participants, op.trackSid);
      var keys := PrefsFor(op.room, publishers, op.trackSid, op.subscriber);
      SettersDecide(s, keys, op.subscribed);
      assert x in keys <==> x.publisher in publishers && x == Pref(op.room, x.publisher, op.trackSid, op.subscriber);
      assert x == Pref(x.room, x.publisher, x.track, x.subscriber);
      if Has(s, op.room, x.publisher) {
        assert x.publisher in publishers <==> Publishes(At(s, op.room, x.publisher), op.trackSid);
      }
      assert x in keys <==> DecidedByTrack(s, op, x);
    }
  }

  /** The setter that goes by publisher SID decides for the one it finds, who is in the room and has that SID. */
  lemma {:induction false} SetByPublisherExactly(s: Store, d: Defaults, op: Op, now: nat, x: Pref)
    requires op.SubscribeByPublisher?
    ensures var s' := Step(s, d, op, now);
            var decided := && Has(s, op.room, op.subscriber) && Has(s, op.room, op.found)
                           && At(s, op.room, op.found).sid == op.publisherSid
                           && x == Pref(op.room, op.found, op.trackSid, op.subscriber);
            && IsMediaTrackSubscribed(s', x) == (if decided then op.subscribed else IsMediaTrackSubscribed(s, x))
            && s'.rooms == s.rooms && s'.locks == s.locks
  {
    SettersDecide(s, {Pref(op.room, op.found, op.trackSid, op.subscriber)}, op.subscribed);
  }

  /** The setter that checks only the room decides for the tuple it names. */
  lemma {:induction false} SetDirectlyExactly(s: Store, d: Defaults, op: Op, now: nat, x: Pref)
    requires op.Subscribe?
    ensures var s' := Step(s, d, op, now);
            var decided := op.room in s.rooms && x == Pref(op.room, op.publisher, op.trackSid, op.subscriber);
            && IsMediaTrackSubscribed(s', x) == (if decided then op.subscribed else IsMediaTrackSubscribed(s, x))
            && s'.rooms == s.rooms && s'.locks == s.locks
  {
    SettersDecide(s, {Pref(op.room, op.publisher, op.trackSid, op.subscriber)}, op.subscribed);
  }

  /** Of the other operations only the removal of a participant or a track, a move and the deletion of a room touch
      the preferences, and these only drop what they make pointless. */
  lemma {:induction false} PrefsDroppedExactly(s: Store, d: Defaults, op: Op, now: nat, x: Pref)
    requires !op.SubscribeByTrack? && !op.SubscribeByPublisher? && !op.Subscribe?
    ensures var dropped := match op {
              case Remove(room, identity, _) =>
                Has(s, room, identity) && x.room == room && (x.publisher == identity || x.subscriber == identity)
              case Move(room, identity, destination) =>
                && Has(s, room, identity) && destination in s.rooms
                && x.room == room && (x.publisher == identity || x.subscriber == identity)
              case RemoveTrack(room, identity, trackSid) =>
                Has(s, room, identity) && x.room == room && x.publisher == identity && x.track == trackSid
              case DeleteRoom(room) => room in s.rooms && x.room == room
              case _ => false
            };
            IsMediaTrackSubscribed(Step(s, d, op, now), x) == (dropped || IsMediaTrackSubscribed(s, x))
  {}

  // ---------- Joining, leaving and moving ----------

  /** Everybody but the one named is as before, in all rooms. */
  ghost predicate OthersKept(s: Store, s': Store, room: string, identity: string) {
    forall r, k :: !(r == room && k == identity) ==>
      (Has(s', r, k) <==> Has(s, r, k)) && (Has(s, r, k) ==> At(s', r, k) == At(s, r, k))
  }

  /** A join is turned away exactly by a room that has a maximum, holds that many and not this identity; whoever is
      let in is there with all they brought and nothing else, and nobody else has changed. */
  lemma {:induction false} JoinExactly(s: Store, d: Defaults, op: Op, now: nat)
    requires op.Join?
    ensures var s' := Step(s, d, op, now);
            var turnedAway := && op.room in s.rooms && op.identity !in s.rooms[op.room].participants
                              && s.rooms[op.room].room.maxParticipants > 0
                              && |s.rooms[op.room].participants| >= s.rooms[op.room].room.maxParticipants;
            && (turnedAway ==> s' == s)
            && (!turnedAway ==>
                  && Has(s', op.room, op.identity) && OthersKept(s, s', op.room, op.identity)
                  && var p := At(s', op.room, op.identity);
                  && p.identity == op.identity && p.name == op.name && p.metadata == op.metadata
                  && p.attributes == op.attributes && p.permission == op.permission
                  && p.state == Joined && p.joinedAt == now / 1000 && p.kind == 0 && p.kindDetails == []
                  && p.tracks == [] && p.dataTracks == [] && p.disconnectReason == 0
                  && s'.rooms[op.room].hadParticipants && s'.rooms[op.room].emptySince == None
                  && op.identity in s'.rooms[op.room].versions
                  && s'.rooms[op.room].versions[op.identity] == p.version)
  {
    var s1 := EnsureRoom(s, d, op.room, now);
    assert forall r, k :: (Has(s1, r, k) <==> Has(s, r, k)) && (Has(s, r, k) ==> At(s1, r, k) == At(s, r, k));
    assert Step(s, d, op, now) == Admit(s1, op, now);
  }

  /** The room that a join makes has the defaults, and a room that is there keeps its settings. */
  lemma {:induction false} JoinedRoomExactly(s: Store, d: Defaults, op: Op, now: nat)
    requires op.Join?
    ensures op.room in Step(s, d, op, now).rooms
    ensures var room := Step(s, d, op, now).rooms[op.room].room;
            if op.room in s.rooms then
              room == s.rooms[op.room].room.(numParticipants := room.numParticipants)
            else
              && room.name == op.room && room.emptyTimeout == d.emptyTimeout
              && room.departureTimeout == d.departureTimeout && room.maxParticipants == d.maxParticipants
              && room.creationTimeMs == now && room.metadata == ""
  {
    assert Step(s, d, op, now) == Admit(EnsureRoom(s, d, op.room, now), op, now);
  }

  /** A removal returns the participant as it was, but disconnected, with the reason and one version on; that
      version is kept aside for the identity; nobody else has changed; and a room left empty is stamped. */
  lemma {:induction false} RemoveExactly(s: Store, d: Defaults, room: string, identity: string, reason: int, now: nat)
    requires Has(s, room, identity)
    ensures var p := At(s, room, identity);
            var f := Farewell(p, reason);
            && f.state == Disconnected && f.disconnectReason == reason && f.version == Increment32(p.version)
            && p == f.(state := p.state, disconnectReason := p.disconnectReason, version := p.version)
    ensures var s' := Step(s, d, Remove(room, identity, reason), now);
            && !Has(s', room, identity) && OthersKept(s, s', room, identity) && s'.rooms.Keys == s.rooms.Keys
            && s'.rooms[room].versions
               == s.rooms[room].versions[identity := Increment32(At(s, room, identity).version)]
            && s'.rooms[room].emptySince
               == (if s.rooms[room].participants.Keys == {identity} then Some(now) else s.rooms[room].emptySince)
  {
    var rest := s.rooms[room].participants - {identity};
    assert rest == map[] <==> s.rooms[room].participants.Keys == {identity} by {
      if s.rooms[room].participants.Keys == {identity} {
        assert rest.Keys == {};
      } else {
        var k :| k in s.rooms[room].participants && k != identity;
        assert k in rest;
      }
    }
  }

  /** A move puts the participant, one version on and otherwise the same, where it says; the destination is not
      empty any more, but its memory of versions and of having had participants is as before. */
  lemma {:induction false} MoveExactly(s: Store, d: Defaults, op: Op, now: nat)
    requires op.Move?
    ensures var s' := Step(s, d, op, now);
            if Has(s, op.room, op.identity) && op.destination in s.rooms then
              && Has(s', op.destination, op.identity)
              && var p, p' := At(s, op.room, op.identity), At(s', op.destination, op.identity);
              && p' == p.(version := p'.version) && p'.version == Increment32(p.version)
              && (op.destination != op.room ==> !Has(s', op.room, op.identity))
              && (forall r, k :: k != op.identity || (r != op.room && r != op.destination) ==>
                    (Has(s', r, k) <==> Has(s, r, k)) && (Has(s, r, k) ==> At(s', r, k) == At(s, r, k)))
              && s'.rooms[op.destination].emptySince == None
              && s'.rooms[op.destination].hadParticipants == s.rooms[op.destination].hadParticipants
              && s'.rooms[op.destination].versions == s.rooms[op.destination].versions
            else s' == s
  {
    if Has(s, op.room, op.identity) && op.destination in s.rooms {
      forall r, k
        ensures k != op.identity || (r != op.room && r != op.destination) ==>
                  (Has(Step(s, d, op, now), r, k) <==> Has(s, r, k))
                  && (Has(s, r, k) ==> At(Step(s, d, op, now), r, k) == At(s, r, k))
      {
        MovePlaces(s, op.room, op.identity, op.destination, now, r, k);
      }
      MovePlaces(s, op.room, op.identity, op.destination, now, op.room, op.identity);
      MovePlaces(s, op.room, op.identity, op.destination, now, op.destination, op.identity);
    }
  }

  /** The count of a room leaves out exactly those who have a permission that hides them. */
  lemma {:induction false} VisibleExactly(participants: map<string, Participant>)
    ensures var shown := set k | k in participants
                           && (participants[k].permission == None || !participants[k].permission.value.hidden);
            Visible(participants) == if |shown| < U32_MAX then |shown| else U32_MAX
  {
    assert (set k | k in participants && !Hidden(participants[k]))
        == (set k | k in participants
              && (participants[k].permission == None || !participants[k].permission.value.hidden));
  }

  // ---------- Edits and updates ----------

  /** Publishing and the kind setter change what they name and the version. */
  lemma {:induction false} PlainEditsExactly(p: Participant, kind: int, details: seq<int>, t: Track, dt: DataTrack)
    ensures ApplyEdit(p, SetKind(kind, details)).Some? && ApplyEdit(p, AddTrack(t)).Some?
            && ApplyEdit(p, AddDataTrack(dt)).Some?
    ensures var q := ApplyEdit(p, SetKind(kind, details)).value;
            && q.kind == kind && q.kindDetails == details && q.version == Increment32(p.version)
            && p == q.(kind := p.kind, kindDetails := p.kindDetails, version := p.version)
    ensures var q := ApplyEdit(p, AddTrack(t)).value;
            && |q.tracks| == |p.tracks| + 1 && q.tracks[..|p.tracks|] == p.tracks && q.tracks[|p.tracks|] == t
            && q.version == Increment32(p.version) && p == q.(tracks := p.tracks, version := p.version)
    ensures var q := ApplyEdit(p, AddDataTrack(dt)).value;
            && |q.dataTracks| == |p.dataTracks| + 1 && q.dataTracks[..|p.dataTracks|] == p.dataTracks
            && q.dataTracks[|p.dataTracks|] == dt
            && q.version == Increment32(p.version) && p == q.(dataTracks := p.dataTracks, version := p.version)
  {}

  /** An edit of a track leaves its other fields alone; a new MIME type comes with one codec of that type. */
  lemma {:induction false} TrackEditKeeps(t: Track, e: Edit)
    requires EditsTrack(e)
    ensures var t' := EditTrack(t, e);
            && t'.sid == t.sid
            && (!e.SetTrackMime? ==>
                  && t'.mimeType == t.mimeType && |t'.codecs| == |t.codecs|
                  && forall i :: 0 <= i < |t.codecs| ==> t'.codecs[i].mimeType == t.codecs[i].mimeType)
            && (!e.SetTrackMid? ==> t'.mid == t.mid)
            && (!e.SetTrackMuted? ==> t'.muted == t.muted)
            && (!e.SetTrackSdpCid? && !e.SetTrackMime? ==> t'.codecs == t.codecs)
            && (e.SetTrackMime? && !Shows(t, e) ==> t'.codecs == [Codec(e.mimeType, "")])
            && (e.SetTrackMime? && Shows(t, e) ==> t' == t)
  {}

  /** `rec'` is `rec` but for the participant named and the count. */
  ghost predicate SameBut(rec: Record, rec': Record, identity: string) {
    && rec' == rec.(participants := rec'.participants, room := rec'.room)
    && rec'.room == rec.room.(numParticipants := rec'.room.numParticipants)
    && rec'.participants - {identity} == rec.participants - {identity}
    && (identity in rec'.participants <==> identity in rec.participants)
  }

  /** `s'` is `s` but for one participant, the count of its room, the preferences and the revision. */
  ghost predicate Local(s: Store, s': Store, room: string, identity: string) {
    && s'.rooms.Keys == s.rooms.Keys && s'.rooms - {room} == s.rooms - {room}
    && (room in s.rooms ==> SameBut(s.rooms[room], s'.rooms[room], identity))
    && s' == s.(rooms := s'.rooms, unsubscribed := s'.unsubscribed, revision := s'.revision)
  }

  lemma {:induction false} PutStaysLocal(s: Store, room: string, identity: string, p: Participant)
    requires Has(s, room, identity)
    ensures Local(s, PutParticipant(s, room, identity, p), room, identity)
    ensures At(PutParticipant(s, room, identity, p), room, identity) == p
  {
    var rec := s.rooms[room];
    assert rec.participants[identity := p] - {identity} == rec.participants - {identity};
  }

  lemma {:induction false} UpdateStaysLocal(s: Store, room: string, identity: string, p: Participant, changed: bool)
    requires Has(s, room, identity)
    ensures var s' := PutUpdated(s, room, identity, p, changed);
            Local(s, s', room, identity) && Has(s', room, identity) && At(s', room, identity) == p
  {
    PutStaysLocal(s, room, identity, p);
    var s1 := PutParticipant(s, room, identity, p);
    assert PutRecord(s1, room, Recount(s1.rooms[room])).rooms - {room} == s1.rooms - {room};
  }

  /** Edits and updates of one participant touch nobody else, and of the rooms at most the count of that one. */
  lemma {:induction false} EditsStayLocal(s: Store, d: Defaults, op: Op, now: nat)
    requires op.EditParticipant? || op.RemoveTrack? || op.Update?
    ensures Local(s, Step(s, d, op, now), op.room, op.identity)
  {
    if Has(s, op.room, op.identity) {
      var p := At(s, op.room, op.identity);
      match op
      case EditParticipant(room, identity, edit) =>
        if ApplyEdit(p, edit).Some? {
          PutStaysLocal(s, room, identity, ApplyEdit(p, edit).value);
        }
      case RemoveTrack(room, identity, trackSid) =>
        PutStaysLocal(s, room, identity, Bump(p.(tracks := WithoutTrack(p.tracks, trackSid))));
      case Update(room, identity, changes) =>
        UpdateStaysLocal(s, room, identity, ApplyChanges(p, changes), ChangesPermission(p, changes));
    }
  }

  /** What a text counts for against a limit is the length of its UTF-8 encoding. */
  lemma {:induction false} BytesExactly(s: string)
    ensures var cs := seq(|s|, i requires 0 <= i < |s| => s[i] as int);
            && (forall i :: 0 <= i < |cs| ==> Text.IsScalar(cs[i]))
            && Bytes(s) == |Text.EncodeScalars(cs)|
  {
    var cs := seq(|s|, i requires 0 <= i < |s| => s[i] as int);
    if s != "" {
      var rest := seq(|s[1..]|, i requires 0 <= i < |s[1..]| => s[1..][i] as int);
      BytesExactly(s[1..]);
      assert cs[1..] == rest;
      assert cs[0] == s[0] as int;
    }
  }

  /** An update is refused exactly for metadata over 512 KiB, or for leaving attributes over 64 KiB. */
  lemma {:induction false} UpdateRefusedExactly(s: Store, d: Defaults, op: Op, now: nat)
    requires op.Update? && Has(s, op.room, op.identity)
    ensures var p := At(s, op.room, op.identity);
            var refused := || Bytes(op.changes.metadata) > 524_288
                           || AttributesSize(ApplyChanges(p, op.changes).attributes) > 65_536;
            && (refused ==> Step(s, d, op, now) == s)
            && (!refused ==> Has(Step(s, d, op, now), op.room, op.identity)
                             && At(Step(s, d, op, now), op.room, op.identity) == ApplyChanges(p, op.changes))
  {
    var p := At(s, op.room, op.identity);
    assert ApplyChanges(p, op.changes).attributes == MergeAttributes(p.attributes, op.changes.attributes);
    UpdateStaysLocal(s, op.room, op.identity, ApplyChanges(p, op.changes), ChangesPermission(p, op.changes));
  }

  // ---------- Rooms ----------

  /** A new room has what the request says, and the default where it says nothing. */
  lemma {:induction false} CreateRoomExactly(s: Store, d: Defaults, op: Op, now: nat)
    requires op.CreateRoom?
    ensures var s' := Step(s, d, op, now);
            && s'.rooms.Keys == s.rooms.Keys + {op.room} && s'.rooms - {op.room} == s.rooms - {op.room}
            && (op.room in s.rooms ==> s' == s)
            && (op.room !in s.rooms ==>
                  var rec := s'.rooms[op.room];
                  && rec.room.name == op.room && rec.room.metadata == op.metadata
                  && rec.room.creationTimeMs == now && rec.room.numParticipants == 0
                  && (op.emptyTimeout > 0 ==> rec.room.emptyTimeout == op.emptyTimeout)
                  && (op.emptyTimeout == 0 ==> rec.room.emptyTimeout == d.emptyTimeout)
                  && (op.departureTimeout > 0 ==> rec.room.departureTimeout == op.departureTimeout)
                  && (op.departureTimeout == 0 ==> rec.room.departureTimeout == d.departureTimeout)
                  && (op.maxParticipants > 0 ==> rec.room.maxParticipants == op.maxParticipants)
                  && (op.maxParticipants == 0 ==> rec.room.maxParticipants == d.maxParticipants)
                  && rec.participants == map[] && rec.versions == map[] && !rec.hadParticipants
                  && rec.emptySince == Some(now) && |rec.dispatches| == |op.agents|)
  {
    if op.room !in s.rooms {
      DispatchesInOrder(op.agents, op.room, s.nextDispatchId, now);
    }
  }

  /** Dispatches are made one for one, with the IDs that follow the counter. */
  lemma {:induction false} DispatchesInOrder(agents: seq<Agent>, room: string, counter: u64, now: nat)
    ensures var made := DispatchesFor(agents, room, counter, now);
            && |made| == |agents|
            && forall i :: 0 <= i < |agents| ==>
                 made[i] == AgentDispatch(DispatchIdAfter(counter, i + 1), room, agents[i], now)
  {
    if agents != [] {
      DispatchesInOrder(agents[1..], room, Increment64(counter), now);
    }
  }

  /** The dispatches of a new room are for its agents, in order, under IDs that were not issued before, unless the
      counter is at its ceiling. */
  lemma {:induction false} DispatchesAreNew(s: Store, d: Defaults, op: Op, now: nat)
    requires op.CreateRoom? && op.room !in s.rooms
    ensures var s' := Step(s, d, op, now);
            var made := s'.rooms[op.room].dispatches;
            && |made| == |op.agents|
            && (forall i :: 0 <= i < |made| ==>
                  && made[i].agent == op.agents[i] && made[i].room == op.room && made[i].createdAt == now
                  && made[i].id <= s'.nextDispatchId && (s.nextDispatchId < U64_MAX ==> made[i].id > s.nextDispatchId))
            && (forall i, j :: 0 <= i < j < |made| && made[i].id < U64_MAX ==> made[i].id < made[j].id)
  {
    DispatchesInOrder(op.agents, op.room, s.nextDispatchId, now);
  }

  // ---------- Room SIDs ----------

  /** A room of the new state was there before under the same SID, or was made now and has the counter's value. */
  ghost predicate RoomTraced(s: Store, s': Store, op: Op) {
    && s.nextRoomId <= s'.nextRoomId
    && forall r :: r in s'.rooms ==>
         || (r in s.rooms && s'.rooms[r].room.sid == s.rooms[r].room.sid)
         || (r !in s.rooms && (op.Join? || op.CreateRoom?) && r == op.room
             && s'.rooms[r].room.sid == s'.nextRoomId == Increment64(s.nextRoomId))
  }

  lemma {:induction false} JoinRoomsTraced(s: Store, d: Defaults, op: Op, now: nat)
    requires op.Join?
    ensures RoomTraced(s, DoJoin(s, d, op, now), op)
  {
    var s1 := EnsureRoom(s, d, op.room, now);
    assert RoomTraced(s, s1, op);
  }

  lemma {:induction false} LeaveRoomsTraced(s: Store, d: Defaults, op: Op, now: nat)
    requires op.Remove? || op.Move?
    ensures RoomTraced(s, Step(s, d, op, now), op)
  {}

  lemma {:induction false} RoomsTraced(s: Store, d: Defaults, op: Op, now: nat)
    requires !op.StoreRoom?
    ensures RoomTraced(s, Step(s, d, op, now), op)
  {
    if op.Join? {
      JoinRoomsTraced(s, d, op, now);
    } else if op.Remove? || op.Move? {
      LeaveRoomsTraced(s, d, op, now);
    } else if op.EditParticipant? || op.RemoveTrack? || op.Update? {
      EditsStayLocal(s, d, op, now);
      LocalTraced(s, Step(s, d, op, now), op);
    }
  }

  lemma {:induction false} LocalTraced(s: Store, s': Store, op: Op)
    requires op.EditParticipant? || op.RemoveTrack? || op.Update?
    requires Local(s, s', op.room, op.identity)
    ensures RoomTraced(s, s', op)
  {
    forall r | r in s'.rooms ensures r in s.rooms && s'.rooms[r].room.sid == s.rooms[r].room.sid {
      if r != op.room {
        assert (s'.rooms - {op.room})[r] == (s.rooms - {op.room})[r];
      }
    }
  }

  /** Room SIDs have been issued, and no two rooms share one below the largest. */
  ghost predicate Numbered(s: Store) {
    && (forall r :: r in s.rooms ==> s.rooms[r].room.sid <= s.nextRoomId)
    && (forall r, r' :: r in s.rooms && r' in s.rooms && s.rooms[r].room.sid == s.rooms[r'].room.sid < U64_MAX ==>
          r == r')
  }

  lemma {:induction false} TracedNumbered(s: Store, s': Store, op: Op)
    requires Numbered(s) && RoomTraced(s, s', op)
    ensures Numbered(s')
  {
    forall r, r' | r in s'.rooms && r' in s'.rooms && s'.rooms[r].room.sid == s'.rooms[r'].room.sid < U64_MAX
      ensures r == r'
    {
      assert r !in s.rooms ==> s'.rooms[r].room.sid > s.nextRoomId;
      assert r' !in s.rooms ==> s'.rooms[r'].room.sid > s.nextRoomId;
    }
  }

  /** That holds in every state of every run that stores no snapshot from elsewhere. */
  lemma {:induction false} RoomSidsAreUnique(d: Defaults, ops: seq<Timed>, ss: seq<Store>, i: nat)
    requires IsRun(d, ops, ss) && i < |ss| && forall j :: 0 <= j < i ==> !ops[j].op.StoreRoom?
    ensures Numbered(ss[i])
  {
    if i > 0 {
      RoomSidsAreUnique(d, ops, ss, i - 1);
      assert Linked(d, ops, ss, i - 1);
      RoomsTraced(ss[i - 1], d, ops[i - 1].op, ops[i - 1].now);
      TracedNumbered(ss[i - 1], ss[i], ops[i - 1].op);
    }
  }

  // ---------- Cleaning up, deleting, describing and locking ----------

  /** Cleanup takes exactly the rooms that have been empty for their time: the departure timeout in seconds if
      somebody has been there and it is set, else the empty timeout in seconds if it is set, else the default age
      in milliseconds. */
  lemma {:induction false} CleanupExactly(s: Store, d: Defaults, defaultAgeMs: int, now: nat, r: string)
    ensures var s' := Step(s, d, Cleanup(defaultAgeMs), now);
            && (r in s'.rooms ==> r in s.rooms && s'.rooms[r] == s.rooms[r])
            && (r in s.rooms ==>
                  var rec := s.rooms[r];
                  var after := if rec.hadParticipants && rec.room.departureTimeout > 0 then
                                 1_000 * rec.room.departureTimeout
                               else if rec.room.emptyTimeout > 0 then 1_000 * rec.room.emptyTimeout
                               else defaultAgeMs;
                  (r !in s'.rooms <==> rec.emptySince.Some? && now >= rec.emptySince.value + after))
            && s'.locks == s.locks && s'.unsubscribed == s.unsubscribed
  {}

  /** Deletion takes the room and its lock and leaves every other room and lock. */
  lemma {:induction false} DeleteExactly(s: Store, d: Defaults, room: string, now: nat)
    ensures var s' := Step(s, d, DeleteRoom(room), now);
            if room !in s.rooms then s' == s
            else && room !in s'.rooms && room !in s'.locks
                 && forall r :: r != room ==>
                      && (r in s'.rooms <==> r in s.rooms) && (r in s.rooms ==> s'.rooms[r] == s.rooms[r])
                      && (r in s'.locks <==> r in s.locks) && (r in s.locks ==> s'.locks[r] == s.locks[r])
  {}

  /** Storing a snapshot or new metadata changes that room's description and nothing of who is there. */
  lemma {:induction false} DescriptionsExactly(s: Store, d: Defaults, op: Op, now: nat)
    requires op.StoreRoom? || op.UpdateRoomMetadata?
    ensures var s' := Step(s, d, op, now);
            var name := if op.StoreRoom? then op.snapshot.name else op.room;
            && (forall r :: r != name ==>
                  (r in s'.rooms <==> r in s.rooms) && (r in s.rooms ==> s'.rooms[r] == s.rooms[r]))
            && (name in s.rooms && (op.StoreRoom? ==> name != "") ==>
                  && name in s'.rooms && s'.rooms[name].participants == s.rooms[name].participants
                  && s'.rooms[name].emptySince == s.rooms[name].emptySince
                  && (op.StoreRoom? ==> s'.rooms[name].room == op.snapshot && s'.rooms[name].internal == op.internal)
                  && (op.UpdateRoomMetadata? ==>
                        && s'.rooms[name].room.metadata == op.metadata
                        && s.rooms[name].room == s'.rooms[name].room.(metadata := s.rooms[name].room.metadata)))
            && (name !in s.rooms ==>
                  (name in s'.rooms <==> op.StoreRoom? && name != "")
                  && (name in s'.rooms ==>
                        && s'.rooms[name].room == op.snapshot && s'.rooms[name].internal == op.internal
                        && s'.rooms[name].participants == map[] && s'.rooms[name].versions == map[]
                        && s'.rooms[name].dispatches == [] && !s'.rooms[name].hadParticipants
                        && s'.rooms[name].emptySince == Some(now)))
            && (op.StoreRoom? && op.snapshot.name == "" ==> s' == s)
  {}

  /** A room can be locked exactly when nobody holds an unexpired lock of it; the lock then lasts the interval, as
      far as the clock can tell. The matching token alone takes it away. */
  lemma {:induction false} LockExactly(s: Store, d: Defaults, room: string, intervalMs: int, token: u64, now: nat)
    ensures var s' := Step(s, d, LockRoom(room, intervalMs), now);
            var free := room !in s.locks || s.locks[room].expiresAt <= now;
            if room != "" && intervalMs > 0 && free then
              && room in s'.locks && s'.locks[room].token == s'.nextToken
              && (now + intervalMs <= 0x7FFF_FFFF_FFFF_FFFF ==> s'.locks[room].expiresAt == now + intervalMs)
              && (now + intervalMs > 0x7FFF_FFFF_FFFF_FFFF ==> s'.locks[room].expiresAt == 0x7FFF_FFFF_FFFF_FFFF)
              && s'.locks - {room} == s.locks - {room} && s'.rooms == s.rooms
            else s' == s
    ensures var s' := Step(s, d, UnlockRoom(room, token), now);
            var held := room != "" && room in s.locks && s.locks[room].token == token;
            s' == if held then s.(locks := s.locks - {room}) else s
  {}
}
