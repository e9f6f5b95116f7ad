/** The room store as an object: its locked methods, step by step. The instant read from the system
    clock is an argument. */
module RoomStore {
  import opened Results
  import opened RoomState
  import opened RoomEdits
  import opened RoomEffects
  import opened RoomInvariants

  datatype Error = RoomNotFound | ParticipantNotFound | MaxParticipantsExceeded | InvalidArgument

  datatype JoinReply = JoinReply(room: Room, participant: Participant, others: map<string, Participant>)

  /** What a lookup of a participant fails with, if it fails. */
  function Missing(s: Store, room: string): Error {
    if room in s.rooms then ParticipantNotFound else RoomNotFound
  }

  lemma {:induction false} RetainChanges<T>(kept: set<T>, all: set<T>)
    requires kept <= all
    ensures |kept| != |all| <==> kept != all
  {
    SubsetSize(kept, all);
  }

  /** Putting a participant back as it is changes nothing. */
  lemma {:induction false} Unchanged(s: Store, room: string, identity: string)
    requires Has(s, room, identity)
    ensures PutParticipant(s, room, identity, At(s, room, identity)) == s
  {
    var rec := s.rooms[room];
    assert rec.participants[identity := rec.participants[identity]] == rec.participants;
    assert s.rooms[room := rec] == s.rooms;
  }

  /** What an edit of a participant returns. */
  function EditReply(s: Store, room: string, identity: string, edit: Edit): Result<Participant, Error> {
    if !Has(s, room, identity) then Err(Missing(s, room))
    else
      match ApplyEdit(At(s, room, identity), edit)
      case None => Err(ParticipantNotFound)
      case Some(p) => Ok(p)
  }

  /** Which error an edit gives: the room is missing, or the participant or its track is; otherwise it returns what
      the store holds afterwards. */
  lemma {:induction false} EditReplyExactly(s: Store, room: string, identity: string, edit: Edit)
    ensures var r := EditReply(s, room, identity, edit);
            && (r == Err(RoomNotFound) <==> room !in s.rooms)
            && (r == Err(ParticipantNotFound) <==>
                  && room in s.rooms
                  && (identity in s.rooms[room].participants ==>
                        && EditsTrack(edit)
                        && forall i :: 0 <= i < |At(s, room, identity).tracks| ==>
                             At(s, room, identity).tracks[i].sid != edit.trackSid))
            && r != Err(MaxParticipantsExceeded) && r != Err(InvalidArgument)
            && (r.Ok? ==> Has(DoEdit(s, room, identity, edit), room, identity)
                          && r.value == At(DoEdit(s, room, identity, edit), room, identity))
  {}

  /** The size of attributes is the sum of its entries' sizes, in whatever order they are added up. */
  lemma {:induction false} SizeOfEntry(m: map<string, string>, k: string)
    requires k in m
    ensures AttributesSize(m) == Bytes(k) + Bytes(m[k]) + AttributesSize(m - {k})
    decreases |m|
  {
    var first :| first in m && AttributesSize(m) == Bytes(first) + Bytes(m[first]) + AttributesSize(m - {first});
    if first != k {
      SizeOfEntry(m - {first}, k);
      SizeOfEntry(m - {k}, first);
      assert m - {first} - {k} == m - {k} - {first};
    }
  }

  /** Merging one more key, and when that makes a difference. */
  lemma {:induction false} MergeStep(current: map<string, string>, changes: map<string, string>, done: set<string>,
                                     k: string)
    requires done <= changes.Keys && k in changes && k !in done
    ensures var before := MergeKeys(current, changes, done);
            var after := MergeKeys(current, changes, done + {k});
            && after == (if changes[k] == "" then before - {k} else before[k := changes[k]])
            && (after != current <==>
                  || before != current
                  || (if changes[k] == "" then k in before else !(k in before && before[k] == changes[k])))
  {
    var before := MergeKeys(current, changes, done);
    var after := MergeKeys(current, changes, done + {k});
    assert (k in before <==> k in current) && (k in current ==> before[k] == current[k]);
    if changes[k] == "" {
      assert after == before - {k};
    } else {
      assert after == before[k := changes[k]];
    }
    if before != current && after == current {
      MergeAgreesOnDone(current, changes, done, k);
    }
  }

  /** Merging `k` does not hide a difference made by another key. */
  lemma {:induction false} MergeAgreesOnDone(current: map<string, string>, changes: map<string, string>,
                                             done: set<string>, k: string)
    requires done <= changes.Keys && k in changes && k !in done
    requires MergeKeys(current, changes, done + {k}) == current
    ensures MergeKeys(current, changes, done) == current
  {
    var before := MergeKeys(current, changes, done);
    var after := MergeKeys(current, changes, done + {k});
    forall x ensures (x in before <==> x in current) && (x in current ==> before[x] == current[x]) {
      if x != k {
        assert (x in before <==> x in after) && (x in after ==> before[x] == after[x]);
      }
    }
    assert before.Keys == current.Keys;
  }

  /** How far a merge of attributes has come: `left` are the changes not yet seen. */
  ghost predicate Merging(current: map<string, string>, changes: map<string, string>, left: set<string>,
                          attributes: map<string, string>, changed: bool)
  {
    left <= changes.Keys && attributes == MergeKeys(current, changes, changes.Keys - left)
    && (changed <==> attributes != current)
  }

  lemma {:induction false} MergingStarts(current: map<string, string>, changes: map<string, string>)
    ensures Merging(current, changes, changes.Keys, current, false)
  {
    assert changes.Keys - changes.Keys == {};
    assert MergeKeys(current, changes, {}) == current;
  }

  lemma {:induction false} MergingStep(current: map<string, string>, changes: map<string, string>, left: set<string>,
                                       attributes: map<string, string>, changed: bool, k: string)
    requires Merging(current, changes, left, attributes, changed) && k in left
    ensures if changes[k] == ""
            then Merging(current, changes, left - {k}, attributes - {k}, changed || k in attributes)
            else Merging(current, changes, left - {k}, attributes[k := changes[k]],
                         changed || !(k in attributes && attributes[k] == changes[k]))
  {
    MergeStep(current, changes, changes.Keys - left, k);
    assert changes.Keys - (left - {k}) == changes.Keys - left + {k};
  }

  lemma {:induction false} MergingEnds(current: map<string, string>, changes: map<string, string>,
                                       attributes: map<string, string>, changed: bool)
    requires Merging(current, changes, {}, attributes, changed)
    ensures attributes == MergeAttributes(current, changes) && (changed <==> attributes != current)
  {
    assert changes.Keys - {} == changes.Keys;
  }

  /** How far a cleanup has come: `names` are the rooms dropped so far, `left` those not yet seen. */
  ghost predicate CleaningUp(all: map<string, Record>, kept: map<string, Record>, left: set<string>,
                             names: seq<string>, removed: seq<Room>, defaultAgeMs: int, now: nat)
  {
    && kept == (map k | k in all && (k in left || !TimedOut(all[k], defaultAgeMs, now)) :: all[k])
    && (forall k :: k in names <==> k in all && k !in kept)
    && (forall i, j :: 0 <= i < j < |names| ==> names[i] != names[j])
    && |removed| == |names| && (forall i :: 0 <= i < |names| ==> removed[i] == all[names[i]].room)
  }

  lemma {:induction false} CleanupStep(all: map<string, Record>, kept: map<string, Record>, left: set<string>,
                                       names: seq<string>, removed: seq<Room>, defaultAgeMs: int, now: nat, k: string)
    requires CleaningUp(all, kept, left, names, removed, defaultAgeMs, now) && k in left && left <= all.Keys
    ensures if TimedOut(all[k], defaultAgeMs, now)
            then CleaningUp(all, kept - {k}, left - {k}, names + [k], removed + [all[k].room], defaultAgeMs, now)
            else CleaningUp(all, kept, left - {k}, names, removed, defaultAgeMs, now)
  {
    if TimedOut(all[k], defaultAgeMs, now) {
      assert k !in names;
      assert kept - {k} == (map x | x in all && (x in left - {k} || !TimedOut(all[x], defaultAgeMs, now)) :: all[x]);
    } else {
      assert kept == (map x | x in all && (x in left - {k} || !TimedOut(all[x], defaultAgeMs, now)) :: all[x]);
    }
  }

  class Rooms {
    const defaults: Defaults
    var rooms: map<string, Record>
    var nextRoomId: u64
    var nextParticipantId: u64
    var nextDispatchId: u64
    var unsubscribed: set<Pref>
    var revision: u64
    var locks: map<string, Lock>
    var nextToken: u64

    ghost function View(): Store
      reads this
    {
      Store(rooms, nextRoomId, nextParticipantId, nextDispatchId, unsubscribed, revision, locks, nextToken)
    }

    constructor (defaults: Defaults)
      ensures View() == EMPTY && this.defaults == defaults
    {
      this.defaults := defaults;
      rooms, nextRoomId, nextParticipantId, nextDispatchId := map[], 0, 0, 0;
      unsubscribed, revision, locks, nextToken := {}, 0, map[], 0;
    }

    /** Creates the room of a join if it is not there. */
    method OpenRoom(room: string, now: nat)
      modifies this`rooms, this`nextRoomId
      ensures View() == EnsureRoom(old(View()), defaults, room, now)
    {
      if room !in rooms {
        nextRoomId := Increment64(nextRoomId);
        var created := Room(nextRoomId, room, defaults.emptyTimeout, defaults.departureTimeout,
                            defaults.maxParticipants, 0, now, "");
        rooms := rooms[room := Record(created, None, map[], map[], [], Some(now), false)];
      }
    }

    /** Admits a participant to a room that is there. */
    method AdmitParticipant(room: string, identity: string, name: string, metadata: string,
                            attributes: map<string, string>, permission: Option<Permission>, now: nat)
      returns (r: Result<JoinReply, Error>)
      requires room in rooms
      modifies this`rooms, this`nextParticipantId
      ensures View() == Admit(old(View()), Join(room, identity, name, metadata, attributes, permission), now)
      ensures r.Err? <==> Full(old(rooms)[room], identity)
      ensures r.Err? ==> r.error == MaxParticipantsExceeded
      ensures r.Ok? ==>
                && Has(View(), room, identity)
                && r.value == JoinReply(rooms[room].room, At(View(), room, identity), old(rooms)[room].participants)
    {
      var existing := rooms[room];
      var replacing := identity in existing.participants;
      if existing.room.maxParticipants > 0 && !replacing && |existing.participants| >= existing.room.maxParticipants {
        return Err(MaxParticipantsExceeded);
      }
      var version := if identity in existing.versions then Increment32(existing.versions[identity]) else 0;
      nextParticipantId := Increment64(nextParticipantId);
      var participant := Participant(nextParticipantId, version, identity, name, metadata, attributes, permission,
                                     Joined, now / 1000, 0, [], [], [], 0);
      var record := existing.(participants := existing.participants[identity := participant],
                              versions := existing.versions[identity := version],
                              hadParticipants := true);
      record := record.(room := record.room.(numParticipants := Visible(record.participants)), emptySince := None);
      rooms := rooms[room := record];
      r := Ok(JoinReply(record.room, participant, existing.participants));
    }

    method JoinParticipant(room: string, identity: string, name: string, metadata: string,
                           attributes: map<string, string>, permission: Option<Permission>, now: nat)
      returns (r: Result<JoinReply, Error>)
      modifies this
      ensures View() == DoJoin(old(View()), defaults, Join(room, identity, name, metadata, attributes, permission), now)
      ensures r.Err? <==> room in old(rooms) && Full(old(rooms)[room], identity)
      ensures r.Err? ==> r.error == MaxParticipantsExceeded && View() == old(View())
      ensures r.Ok? ==>
                && Has(View(), room, identity) && r.value.participant == At(View(), room, identity)
                && r.value.room == rooms[room].room
                && r.value.others == if room in old(rooms) then old(rooms)[room].participants else map[]
    {
      OpenRoom(room, now);
      r := AdmitParticipant(room, identity, name, metadata, attributes, permission, now);
    }

    /** Keeps the preferences that `kept` holds and moves the revision if any went. */
    method RetainPrefs(kept: set<Pref>)
      requires kept <= unsubscribed
      modifies this`unsubscribed, this`revision
      ensures View() == SetPrefs(old(View()), kept)
    {
      var before := |unsubscribed|;
      RetainChanges(kept, unsubscribed);
      unsubscribed := kept;
      if |unsubscribed| != before {
        revision := Increment64(revision);
      }
    }

    method RemoveParticipant(room: string, identity: string, reason: int, now: nat)
      returns (r: Result<Participant, Error>)
      modifies this
      ensures View() == Step(old(View()), defaults, Remove(room, identity, reason), now)
      ensures r == if old(Has(View(), room, identity)) then Ok(Farewell(old(At(View(), room, identity)), reason))
                   else Err(Missing(old(View()), room))
    {
      if room !in rooms {
        return Err(RoomNotFound);
      }
      var record := rooms[room];
      if identity !in record.participants {
        return Err(ParticipantNotFound);
      }
      var participant := record.participants[identity].(state := Disconnected, disconnectReason := reason);
      participant := participant.(version := Increment32(participant.version));
      record := record.(participants := record.participants - {identity},
                        versions := record.versions[identity := participant.version]);
      record := record.(room := record.room.(numParticipants := Visible(record.participants)));
      if record.participants == map[] {
        record := record.(emptySince := Some(now));
      }
      rooms := rooms[room := record];
      RetainPrefs(set x | x in unsubscribed && !Mentions(x, room, identity));
      r := Ok(participant);
    }

    // ---------- Setters that edit one participant in place ----------

    /** The lookup that every setter begins with. */
    method Find(room: string, identity: string) returns (r: Result<Participant, Error>)
      ensures r == if Has(View(), room, identity) then Ok(At(View(), room, identity)) else Err(Missing(View(), room))
    {
      if room !in rooms {
        return Err(RoomNotFound);
      }
      if identity !in rooms[room].participants {
        return Err(ParticipantNotFound);
      }
      r := Ok(rooms[room].participants[identity]);
    }

    /** Stores a participant with its version moved on. */
    method PutBumped(room: string, identity: string, p: Participant) returns (updated: Participant)
      requires Has(View(), room, identity)
      modifies this`rooms
      ensures updated == Bump(p) && View() == PutParticipant(old(View()), room, identity, updated)
    {
      updated := p.(version := Increment32(p.version));
      var record := rooms[room];
      rooms := rooms[room := record.(participants := record.participants[identity := updated])];
    }

    /** The search for the first track with a SID. */
    static method FindTrackIndex(tracks: seq<Track>, sid: string) returns (r: Option<nat>)
      ensures r == FindTrack(tracks, sid)
    {
      var i := 0;
      while i < |tracks|
        invariant 0 <= i <= |tracks|
        invariant forall j :: 0 <= j < i ==> tracks[j].sid != sid
      {
        if tracks[i].sid == sid {
          FindTrackExactly(tracks, sid, i);
          return Some(i);
        }
        i := i + 1;
      }
      r := None;
    }

    method SetKind(room: string, identity: string, kind: int, details: seq<int>) returns (r: Result<Participant, Error>)
      modifies this`rooms
      ensures View() == DoEdit(old(View()), room, identity, Edit.SetKind(kind, details))
      ensures r == EditReply(old(View()), room, identity, Edit.SetKind(kind, details))
    {
      r := Find(room, identity);
      if r.Ok? {
        var p := PutBumped(room, identity, r.value.(kind := kind, kindDetails := details));
        r := Ok(p);
      }
    }

    method AddTrack(room: string, identity: string, track: Track) returns (r: Result<Participant, Error>)
      modifies this`rooms
      ensures View() == DoEdit(old(View()), room, identity, Edit.AddTrack(track))
      ensures r == EditReply(old(View()), room, identity, Edit.AddTrack(track))
    {
      r := Find(room, identity);
      if r.Ok? {
        var p := PutBumped(room, identity, r.value.(tracks := r.value.tracks + [track]));
        r := Ok(p);
      }
    }

    method SetTrackMime(room: string, identity: string, trackSid: string, mimeType: string)
      returns (r: Result<Participant, Error>)
      modifies this`rooms
      ensures View() == DoEdit(old(View()), room, identity, Edit.SetTrackMime(trackSid, Normalized(mimeType)))
      ensures r == EditReply(old(View()), room, identity, Edit.SetTrackMime(trackSid, Normalized(mimeType)))
    {
      r := Find(room, identity);
      if r.Err? {
        return;
      }
      var p := r.value;
      var found := FindTrackIndex(p.tracks, trackSid);
      if found == None {
        return Err(ParticipantNotFound);
      }
      var track := p.tracks[found.value];
      var mime := Normalized(mimeType);
      if mime == "" || track.mimeType == mime {
        Unchanged(View(), room, identity);
        return;
      }
      track := track.(mimeType := mime, codecs := [Codec(mime, "")]);
      var updated := PutBumped(room, identity, p.(tracks := p.tracks[found.value := track]));
      r := Ok(updated);
    }

    method SetTrackMid(room: string, identity: string, trackSid: string, mid: string)
      returns (r: Result<Participant, Error>)
      modifies this`rooms
      ensures View() == DoEdit(old(View()), room, identity, Edit.SetTrackMid(trackSid, mid))
      ensures r == EditReply(old(View()), room, identity, Edit.SetTrackMid(trackSid, mid))
    {
      r := Find(room, identity);
      if r.Err? {
        return;
      }
      var p := r.value;
      var found := FindTrackIndex(p.tracks, trackSid);
      if found == None {
        return Err(ParticipantNotFound);
      }
      var track := p.tracks[found.value];
      if track.mid == mid {
        Unchanged(View(), room, identity);
        return;
      }
      track := track.(mid := mid);
      var updated := PutBumped(room, identity, p.(tracks := p.tracks[found.value := track]));
      r := Ok(updated);
    }

    /** The test that all codecs have the client ID already. */
    static method AllHaveCid(codecs: seq<Codec>, cid: string) returns (all: bool)
      ensures all <==> forall i :: 0 <= i < |codecs| ==> codecs[i].sdpCid == cid
    {
      var i := 0;
      while i < |codecs|
        invariant 0 <= i <= |codecs|
        invariant forall j :: 0 <= j < i ==> codecs[j].sdpCid == cid
      {
        if codecs[i].sdpCid != cid {
          return false;
        }
        i := i + 1;
      }
      all := true;
    }

    /** The loop that gives every codec the client ID. */
    static method GiveCid(codecs: seq<Codec>, cid: string) returns (given: seq<Codec>)
      ensures |given| == |codecs| && forall i :: 0 <= i < |codecs| ==> given[i] == codecs[i].(sdpCid := cid)
    {
      given := codecs;
      var i := 0;
      while i < |given|
        invariant 0 <= i <= |given| == |codecs|
        invariant forall j :: 0 <= j < i ==> given[j] == codecs[j].(sdpCid := cid)
        invariant forall j :: i <= j < |codecs| ==> given[j] == codecs[j]
      {
        given := given[i := given[i].(sdpCid := cid)];
        i := i + 1;
      }
    }

    method SetTrackSdpCid(room: string, identity: string, trackSid: string, cid: string)
      returns (r: Result<Participant, Error>)
      modifies this`rooms
      ensures View() == DoEdit(old(View()), room, identity, Edit.SetTrackSdpCid(trackSid, cid))
      ensures r == EditReply(old(View()), room, identity, Edit.SetTrackSdpCid(trackSid, cid))
    {
      r := Find(room, identity);
      if r.Err? {
        return;
      }
      var p := r.value;
      var found := FindTrackIndex(p.tracks, trackSid);
      if found == None {
        return Err(ParticipantNotFound);
      }
      var track := p.tracks[found.value];
      EditTrackShows(track, Edit.SetTrackSdpCid(trackSid, cid));
      var all := AllHaveCid(track.codecs, cid);
      if all {
        Unchanged(View(), room, identity);
        return;
      }
      var codecs := GiveCid(track.codecs, cid);
      track := track.(codecs := codecs);
      assert track == EditTrack(p.tracks[found.value], Edit.SetTrackSdpCid(trackSid, cid));
      var updated := PutBumped(room, identity, p.(tracks := p.tracks[found.value := track]));
      r := Ok(updated);
    }

    /** Returns the track, not the participant. */
    method SetTrackMuted(room: string, identity: string, trackSid: string, muted: bool)
      returns (r: Result<Track, Error>)
      modifies this`rooms
      ensures View() == DoEdit(old(View()), room, identity, Edit.SetTrackMuted(trackSid, muted))
      ensures r.Err? <==> EditReply(old(View()), room, identity, Edit.SetTrackMuted(trackSid, muted)).Err?
      ensures r.Err? ==> Err(r.error) == EditReply(old(View()), room, identity, Edit.SetTrackMuted(trackSid, muted))
      ensures r.Ok? ==> Has(View(), room, identity)
                        && exists i: nat :: FirstTrack(At(View(), room, identity).tracks, trackSid, i)
                             && r.value == At(View(), room, identity).tracks[i] && r.value.muted == muted
    {
      var edit := Edit.SetTrackMuted(trackSid, muted);
      var lookup := Find(room, identity);
      if lookup.Err? {
        return Err(lookup.error);
      }
      var p := lookup.value;
      var found := FindTrackIndex(p.tracks, trackSid);
      if found == None {
        return Err(ParticipantNotFound);
      }
      var track := p.tracks[found.value];
      FindTrackExactly(p.tracks, trackSid, found.value);
      if track.muted != muted {
        track := track.(muted := muted);
        var updated := PutBumped(room, identity, p.(tracks := p.tracks[found.value := track]));
      } else {
        Unchanged(View(), room, identity);
      }
      assert FirstTrack(At(View(), room, identity).tracks, trackSid, found.value);
      r := Ok(track);
    }

    method AddDataTrack(room: string, identity: string, track: DataTrack) returns (r: Result<Participant, Error>)
      modifies this`rooms
      ensures View() == DoEdit(old(View()), room, identity, Edit.AddDataTrack(track))
      ensures r == EditReply(old(View()), room, identity, Edit.AddDataTrack(track))
    {
      r := Find(room, identity);
      if r.Ok? {
        var p := PutBumped(room, identity, r.value.(dataTracks := r.value.dataTracks + [track]));
        r := Ok(p);
      }
    }

    static method RetainDataTracks(tracks: seq<DataTrack>, pubHandle: nat) returns (kept: seq<DataTrack>)
      ensures kept == WithoutHandle(tracks, pubHandle)
    {
      kept := [];
      var i := 0;
      while i < |tracks|
        invariant 0 <= i <= |tracks|
        invariant kept == WithoutHandle(tracks[..i], pubHandle)
      {
        WithoutHandlePush(tracks[..i], tracks[i], pubHandle);
        assert tracks[..i + 1] == tracks[..i] + [tracks[i]];
        if tracks[i].pubHandle != pubHandle {
          kept := kept + [tracks[i]];
        }
        i := i + 1;
      }
      assert tracks[..i] == tracks;
    }

    method RemoveDataTrack(room: string, identity: string, pubHandle: nat) returns (r: Result<Participant, Error>)
      modifies this`rooms
      ensures View() == DoEdit(old(View()), room, identity, Edit.RemoveDataTrack(pubHandle))
      ensures r == EditReply(old(View()), room, identity, Edit.RemoveDataTrack(pubHandle))
    {
      r := Find(room, identity);
      if r.Ok? {
        var kept := RetainDataTracks(r.value.dataTracks, pubHandle);
        var p := PutBumped(room, identity, r.value.(dataTracks := kept));
        r := Ok(p);
      }
    }

    static method RetainTracks(tracks: seq<Track>, sid: string) returns (kept: seq<Track>)
      ensures kept == WithoutTrack(tracks, sid)
    {
      kept := [];
      var i := 0;
      while i < |tracks|
        invariant 0 <= i <= |tracks|
        invariant kept == WithoutTrack(tracks[..i], sid)
      {
        WithoutTrackPush(tracks[..i], tracks[i], sid);
        assert tracks[..i + 1] == tracks[..i] + [tracks[i]];
        if tracks[i].sid != sid {
          kept := kept + [tracks[i]];
        }
        i := i + 1;
      }
      assert tracks[..i] == tracks;
    }

    method RemoveParticipantTrack(room: string, identity: string, trackSid: string)
      returns (r: Result<Participant, Error>)
      modifies this
      ensures View() == Step(old(View()), defaults, RemoveTrack(room, identity, trackSid), 0)
      ensures r.Ok? <==> old(Has(View(), room, identity))
      ensures r.Ok? ==> Has(View(), room, identity) && r.value == At(View(), room, identity)
      ensures r.Err? ==> r.error == Missing(old(View()), room)
    {
      r := Find(room, identity);
      if r.Err? {
        return;
      }
      var kept := RetainTracks(r.value.tracks, trackSid);
      var updated := PutBumped(room, identity, r.value.(tracks := kept));
      RetainPrefs(set x | x in unsubscribed && !(x.room == room && x.publisher == identity && x.track == trackSid));
      r := Ok(updated);
    }

    // ---------- Updates ----------

    /** Merges attribute changes one by one; tells whether anything changed. */
    static method ApplyAttributes(current: map<string, string>, changes: map<string, string>)
      returns (attributes: map<string, string>, changed: bool)
      ensures attributes == MergeAttributes(current, changes)
      ensures changed <==> attributes != current
    {
      attributes, changed := current, false;
      var left := changes.Keys;
      MergingStarts(current, changes);
      while left != {}
        invariant Merging(current, changes, left, attributes, changed)
        decreases |left|
      {
        var k :| k in left;
        MergingStep(current, changes, left, attributes, changed, k);
        left := left - {k};
        if changes[k] == "" {
          changed := changed || k in attributes;
          attributes := attributes - {k};
        } else {
          changed := changed || !(k in attributes && attributes[k] == changes[k]);
          attributes := attributes[k := changes[k]];
        }
      }
      MergingEnds(current, changes, attributes, changed);
    }

    /** Applies metadata, name, permission and attributes to one participant. */
    static method ChangeParticipant(current: Participant, changes: Changes)
      returns (participant: Participant, permissionChanged: bool)
      ensures participant == ApplyChanges(current, changes)
      ensures permissionChanged == ChangesPermission(current, changes)
    {
      participant, permissionChanged := current, false;
      var changed := false;
      if changes.metadata != "" && participant.metadata != changes.metadata {
        participant := participant.(metadata := changes.metadata);
        changed := true;
      }
      if changes.name != "" && participant.name != changes.name {
        participant := participant.(name := changes.name);
        changed := true;
      }
      if changes.permission.Some? && participant.permission != changes.permission {
        if !changes.permission.value.canPublish {
          participant := participant.(tracks := [], dataTracks := []);
        }
        participant := participant.(permission := changes.permission);
        permissionChanged, changed := true, true;
      }
      var attributes, merged := ApplyAttributes(participant.attributes, changes.attributes);
      participant := participant.(attributes := attributes);
      if changed || merged {
        participant := participant.(version := Increment32(participant.version));
      }
    }

    /** Adds up the sizes of all entries, in any order. */
    static method SumSizes(attributes: map<string, string>) returns (size: nat)
      ensures size == AttributesSize(attributes)
    {
      size := 0;
      var left := attributes;
      while left != map[]
        invariant size + AttributesSize(left) == AttributesSize(attributes)
        decreases |left|
      {
        var k :| k in left;
        SizeOfEntry(left, k);
        size := size + Bytes(k) + Bytes(left[k]);
        left := left - {k};
      }
    }

    /** Stores an updated participant, recounts its room and moves the revision, as far as needed. */
    method StoreUpdated(room: string, identity: string, p: Participant, permissionChanged: bool)
      requires Has(View(), room, identity)
      modifies this`rooms, this`revision
      ensures View() == PutUpdated(old(View()), room, identity, p, permissionChanged)
    {
      var record := rooms[room];
      var visibilityChanged := Hidden(record.participants[identity]) != Hidden(p);
      record := record.(participants := record.participants[identity := p]);
      if visibilityChanged {
        record := record.(room := record.room.(numParticipants := Visible(record.participants)));
      }
      rooms := rooms[room := record];
      if permissionChanged {
        revision := Increment64(revision);
      }
    }

    method UpdateParticipant(room: string, identity: string, changes: Changes) returns (r: Result<Participant, Error>)
      modifies this`rooms, this`revision
      ensures View() == DoUpdate(old(View()), room, identity, changes)
      ensures r == if Bytes(changes.metadata) > MAX_METADATA_BYTES then Err(InvalidArgument)
                   else if !old(Has(View(), room, identity)) then Err(Missing(old(View()), room))
                   else if Oversized(old(At(View(), room, identity)), changes) then Err(InvalidArgument)
                   else Ok(ApplyChanges(old(At(View(), room, identity)), changes))
    {
      if Bytes(changes.metadata) > MAX_METADATA_BYTES {
        return Err(InvalidArgument);
      }
      r := Find(room, identity);
      if r.Err? {
        return;
      }
      var nextAttributes, _ := ApplyAttributes(r.value.attributes, changes.attributes);
      var size := SumSizes(nextAttributes);
      if size > MAX_ATTRIBUTES_BYTES {
        return Err(InvalidArgument);
      }
      var participant, permissionChanged := ChangeParticipant(r.value, changes);
      StoreUpdated(room, identity, participant, permissionChanged);
      r := Ok(participant);
    }

    method MoveParticipant(room: string, identity: string, destination: string, now: nat)
      returns (r: Result<Participant, Error>)
      modifies this
      ensures View() == Step(old(View()), defaults, Move(room, identity, destination), now)
      ensures r == if destination !in old(rooms) then Err(RoomNotFound)
                   else if !old(Has(View(), room, identity)) then Err(Missing(old(View()), room))
                   else Ok(Bump(old(At(View(), room, identity))))
    {
      if destination !in rooms || room !in rooms {
        return Err(RoomNotFound);
      }
      var source := rooms[room];
      if identity !in source.participants {
        return Err(ParticipantNotFound);
      }
      var participant := source.participants[identity];
      source := source.(participants := source.participants - {identity});
      source := source.(room := source.room.(numParticipants := Visible(source.participants)));
      if source.participants == map[] {
        source := source.(emptySince := Some(now));
      }
      rooms := rooms[room := source];
      participant := participant.(version := Increment32(participant.version));
      var target := rooms[destination];
      target := target.(participants := target.participants[identity := participant]);
      target := target.(room := target.room.(numParticipants := Visible(target.participants)), emptySince := None);
      rooms := rooms[destination := target];
      RetainPrefs(set x | x in unsubscribed && !Mentions(x, room, identity));
      r := Ok(participant);
    }

    /** One insertion or removal; tells whether the set changed. */
    method SetPref(key: Pref, subscribed: bool) returns (changed: bool)
      modifies this`unsubscribed
      ensures unsubscribed == if subscribed then old(unsubscribed) - {key} else old(unsubscribed) + {key}
      ensures changed <==> unsubscribed != old(unsubscribed)
    {
      if subscribed {
        changed := key in unsubscribed;
        unsubscribed := unsubscribed - {key};
      } else {
        changed := key !in unsubscribed;
        unsubscribed := unsubscribed + {key};
      }
    }

    /** Sets the preference for every given publisher; tells whether any changed. */
    method SetPrefsFor(room: string, publishers: set<string>, trackSid: string, subscriber: string, subscribed: bool)
      returns (changed: bool)
      modifies this`unsubscribed
      ensures var keys := PrefsFor(room, publishers, trackSid, subscriber);
              unsubscribed == if subscribed then old(unsubscribed) - keys else old(unsubscribed) + keys
      ensures changed <==> unsubscribed != old(unsubscribed)
    {
      changed := false;
      var left := publishers;
      while left != {}
        invariant left <= publishers
        invariant var done := PrefsFor(room, publishers - left, trackSid, subscriber);
                  unsubscribed == if subscribed then old(unsubscribed) - done else old(unsubscribed) + done
        invariant changed <==> unsubscribed != old(unsubscribed)
        decreases |left|
      {
        var publisher :| publisher in left;
        var key := Pref(room, publisher, trackSid, subscriber);
        assert PrefsFor(room, publishers - (left - {publisher}), trackSid, subscriber)
            == PrefsFor(room, publishers - left, trackSid, subscriber) + {key};
        var one := SetPref(key, subscribed);
        changed := changed || one;
        left := left - {publisher};
      }
      assert publishers - left == publishers;
    }

    method SetSubscribedByTrack(room: string, subscriber: string, trackSid: string, subscribed: bool)
      returns (r: Result<bool, Error>)
      modifies this
      ensures View() == Step(old(View()), defaults, SubscribeByTrack(room, subscriber, trackSid, subscribed), 0)
      ensures r == if !old(Has(View(), room, subscriber)) then Err(Missing(old(View()), room))
                   else Ok(PublishersOf(old(rooms)[room].participants, trackSid) != {})
    {
      if room !in rooms {
        return Err(RoomNotFound);
      }
      var participants := rooms[room].participants;
      if subscriber !in participants {
        return Err(ParticipantNotFound);
      }
      var publishers := PublishersOf(participants, trackSid);
      if publishers == {} {
        assert PrefsFor(room, publishers, trackSid, subscriber) == {};
        return Ok(false);
      }
      var changed := SetPrefsFor(room, publishers, trackSid, subscriber, subscribed);
      if changed {
        revision := Increment64(revision);
      }
      r := Ok(true);
    }

    /** `found` is the holder of the SID that the search comes across first. */
    method SetSubscribedByPublisher(room: string, publisherSid: u64, trackSid: string, subscriber: string,
                                    subscribed: bool)
      returns (r: Result<bool, Error>, found: string)
      modifies this
      ensures View() == Step(old(View()), defaults,
                             SubscribeByPublisher(room, publisherSid, found, trackSid, subscriber, subscribed), 0)
      ensures r == if !old(Has(View(), room, subscriber)) then Err(Missing(old(View()), room))
                   else Ok(HoldersOf(old(rooms)[room].participants, publisherSid) != {})
      ensures r == Ok(true) ==> found in HoldersOf(old(rooms)[room].participants, publisherSid)
    {
      found := "";
      if room !in rooms {
        return Err(RoomNotFound), found;
      }
      var participants := rooms[room].participants;
      if subscriber !in participants {
        return Err(ParticipantNotFound), found;
      }
      var holders := HoldersOf(participants, publisherSid);
      if holders == {} {
        return Ok(false), found;
      }
      found :| found in holders;
      var changed := SetPref(Pref(room, found, trackSid, subscriber), subscribed);
      if changed {
        revision := Increment64(revision);
      }
      r := Ok(true);
    }

    method SetSubscribed(room: string, publisher: string, trackSid: string, subscriber: string, subscribed: bool)
      returns (r: Result<(), Error>)
      modifies this
      ensures View() == Step(old(View()), defaults, Subscribe(room, publisher, trackSid, subscriber, subscribed), 0)
      ensures r == if room in old(rooms) then Ok(()) else Err(RoomNotFound)
    {
      if room !in rooms {
        return Err(RoomNotFound);
      }
      var changed := SetPref(Pref(room, publisher, trackSid, subscriber), subscribed);
      if changed {
        revision := Increment64(revision);
      }
      r := Ok(());
    }

    /** Makes the agent dispatches of a new room, one after another. */
    method MakeDispatches(agents: seq<Agent>, room: string, now: nat) returns (made: seq<AgentDispatch>)
      modifies this`nextDispatchId
      ensures made == DispatchesFor(agents, room, old(nextDispatchId), now)
      ensures nextDispatchId == DispatchIdAfter(old(nextDispatchId), |agents|)
    {
      made := [];
      var i := 0;
      while i < |agents|
        invariant 0 <= i <= |agents| && |made| == i
        invariant nextDispatchId == DispatchIdAfter(old(nextDispatchId), i)
        invariant forall j :: 0 <= j < i ==>
                    made[j] == AgentDispatch(DispatchIdAfter(old(nextDispatchId), j + 1), room, agents[j], now)
      {
        nextDispatchId := Increment64(nextDispatchId);
        made := made + [AgentDispatch(nextDispatchId, room, agents[i], now)];
        i := i + 1;
      }
      DispatchesInOrder(agents, room, old(nextDispatchId), now);
    }

    method CreateRoom(room: string, emptyTimeout: nat, departureTimeout: nat, maxParticipants: nat, metadata: string,
                      agents: seq<Agent>, now: nat) returns (created: Room)
      modifies this`rooms, this`nextRoomId, this`nextDispatchId
      ensures View() == DoCreateRoom(old(View()), defaults,
                          Op.CreateRoom(room, emptyTimeout, departureTimeout, maxParticipants, metadata, agents), now)
      ensures room in rooms && created == rooms[room].room
    {
      if room in rooms {
        return rooms[room].room;
      }
      nextRoomId := Increment64(nextRoomId);
      created := Room(nextRoomId, room,
                      if emptyTimeout == 0 then defaults.emptyTimeout else emptyTimeout,
                      if departureTimeout == 0 then defaults.departureTimeout else departureTimeout,
                      if maxParticipants == 0 then defaults.maxParticipants else maxParticipants,
                      0, now, metadata);
      var dispatches := MakeDispatches(agents, room, now);
      rooms := rooms[room := Record(created, None, map[], map[], dispatches, Some(now), false)];
    }

    method DeleteRoomWithSnapshot(room: string) returns (r: Result<Room, Error>)
      modifies this
      ensures View() == Step(old(View()), defaults, DeleteRoom(room), 0)
      ensures r == if room in old(rooms) then Ok(old(rooms)[room].room) else Err(RoomNotFound)
    {
      if room !in rooms {
        return Err(RoomNotFound);
      }
      var record := rooms[room];
      rooms := rooms - {room};
      locks := locks - {room};
      RetainPrefs(set x | x in unsubscribed && x.room != room);
      r := Ok(record.room);
    }

    /** Removes the rooms that stayed empty past their timeout and collects them; `names` are theirs. */
    method CleanupExpired(defaultAgeMs: int, now: nat) returns (removed: seq<Room>, ghost names: seq<string>)
      modifies this`rooms
      ensures View() == DoCleanup(old(View()), defaultAgeMs, now)
      ensures forall k :: k in names <==> k in old(rooms) && k !in rooms
      ensures forall i, j :: 0 <= i < j < |names| ==> names[i] != names[j]
      ensures |removed| == |names| && forall i :: 0 <= i < |names| ==> removed[i] == old(rooms)[names[i]].room
    {
      removed, names := [], [];
      var all := rooms;
      var left := rooms.Keys;
      while left != {}
        invariant left <= all.Keys
        invariant CleaningUp(all, rooms, left, names, removed, defaultAgeMs, now)
        decreases |left|
      {
        var k :| k in left;
        CleanupStep(all, rooms, left, names, removed, defaultAgeMs, now, k);
        left := left - {k};
        var drop := Outlived(all[k], defaultAgeMs, now);
        if drop {
          removed, names := removed + [all[k].room], names + [k];
          rooms := rooms - {k};
        }
      }
    }

    /** The test cleanup makes of one room. */
    static method Outlived(record: Record, defaultAgeMs: int, now: nat) returns (drop: bool)
      ensures drop == TimedOut(record, defaultAgeMs, now)
    {
      if record.emptySince == None {
        return false;
      }
      var elapsed := now - record.emptySince.value;
      var seconds := record.room.emptyTimeout;
      if record.hadParticipants && record.room.departureTimeout > 0 {
        seconds := record.room.departureTimeout;
      }
      var timeout := if seconds > 0 then seconds * 1000 else defaultAgeMs;
      drop := elapsed >= timeout;
    }

    method StoreSnapshot(snapshot: Room, internal: Option<Internal>, now: nat) returns (r: Result<(), Error>)
      modifies this`rooms
      ensures View() == Step(old(View()), defaults, StoreRoom(snapshot, internal), now)
      ensures r == if snapshot.name == "" then Err(InvalidArgument) else Ok(())
    {
      if snapshot.name == "" {
        return Err(InvalidArgument);
      }
      if snapshot.name in rooms {
        rooms := rooms[snapshot.name := rooms[snapshot.name].(room := snapshot, internal := internal)];
      } else {
        rooms := rooms[snapshot.name := Record(snapshot, internal, map[], map[], [], Some(now), false)];
      }
      r := Ok(());
    }

    /** One pass of the loop that waits for a room's lock; `Ok(None)` means to try again. */
    method TryLockRoom(room: string, intervalMs: int, now: nat) returns (r: Result<Option<u64>, Error>)
      modifies this`locks, this`nextToken
      ensures View() == Step(old(View()), defaults, LockRoom(room, intervalMs), now)
      ensures r == if room == "" || intervalMs <= 0 then Err(InvalidArgument)
                   else if CanLock(old(View()), room, intervalMs, now) then Ok(Some(nextToken)) else Ok(None)
    {
      if room == "" || intervalMs <= 0 {
        return Err(InvalidArgument);
      }
      var canAcquire := room in locks ==> locks[room].expiresAt <= now;
      if !canAcquire {
        return Ok(None);
      }
      nextToken := Increment64(nextToken);
      locks := locks[room := Lock(nextToken, if now + intervalMs < I64_MAX then now + intervalMs else I64_MAX)];
      r := Ok(Some(nextToken));
    }

    /** `None` stands for an empty token. */
    method Unlock(room: string, token: Option<u64>) returns (r: Result<(), Error>)
      modifies this`locks
      ensures View() == if token == None then old(View())
                        else Step(old(View()), defaults, UnlockRoom(room, token.value), 0)
      ensures r == if room == "" || token == None then Err(InvalidArgument) else Ok(())
    {
      if room == "" {
        return Err(InvalidArgument);
      }
      if token == None {
        return Err(InvalidArgument);
      }
      if room in locks && locks[room].token == token.value {
        locks := locks - {room};
      }
      r := Ok(());
    }
  }
}
