/** The room store's state and what each locked operation does to it. Participant and token IDs
    are the counters they are printed from. */
module RoomState {
  import opened Results

  const U32_MAX: nat := 0xFFFF_FFFF
  const U64_MAX: nat := 0xFFFF_FFFF_FFFF_FFFF
  const I64_MAX: nat := 0x7FFF_FFFF_FFFF_FFFF

  type u32 = x: nat | x <= U32_MAX
  type u64 = x: nat | x <= U64_MAX

  function Increment32(x: u32): u32 { if x < U32_MAX then x + 1 else U32_MAX }
  function Increment64(x: u64): u64 { if x < U64_MAX then x + 1 else U64_MAX }

  // ---------- Entities ----------

  datatype Permission = Permission(canSubscribe: bool, canPublish: bool, canPublishData: bool, hidden: bool)
  datatype Codec = Codec(mimeType: string, sdpCid: string)
  datatype Track = Track(sid: string, mimeType: string, mid: string, codecs: seq<Codec>, muted: bool)
  datatype DataTrack = DataTrack(pubHandle: nat, name: string)
  datatype ConnectionState = Joined | Disconnected

  datatype Participant = Participant(
    sid: u64, version: u32, identity: string, name: string, metadata: string, attributes: map<string, string>,
    permission: Option<Permission>, state: ConnectionState, joinedAt: nat, kind: int, kindDetails: seq<int>,
    tracks: seq<Track>, dataTracks: seq<DataTrack>, disconnectReason: int)

  datatype Room = Room(sid: u64, name: string, emptyTimeout: nat, departureTimeout: nat, maxParticipants: nat,
                       numParticipants: nat, creationTimeMs: nat, metadata: string)

  /** The internal part of a stored room: who is recorded automatically, and how. */
  datatype Internal = Internal(trackEgress: Option<string>, participantEgress: Option<string>)

  /** What a room is created with for its agents, and what is kept of it. */
  datatype Agent = Agent(agentName: string, metadata: string, restartPolicy: int, deployment: string,
                         attributes: map<string, string>)
  datatype AgentDispatch = AgentDispatch(id: u64, room: string, agent: Agent, createdAt: nat)

  datatype Record = Record(room: Room, internal: Option<Internal>, participants: map<string, Participant>,
                           versions: map<string, u32>, dispatches: seq<AgentDispatch>,
                           emptySince: Option<nat>, hadParticipants: bool)

  datatype Defaults = Defaults(maxParticipants: nat, emptyTimeout: nat, departureTimeout: nat)

  /** "`subscriber` does not want `track` of `publisher` in `room`". */
  datatype Pref = Pref(room: string, publisher: string, track: string, subscriber: string)

  datatype Lock = Lock(token: u64, expiresAt: nat)

  datatype Store = Store(
    rooms: map<string, Record>, nextRoomId: u64, nextParticipantId: u64, nextDispatchId: u64,
    unsubscribed: set<Pref>, revision: u64, locks: map<string, Lock>, nextToken: u64)

  const EMPTY := Store(map[], 0, 0, 0, {}, 0, map[], 0)

  predicate Has(s: Store, room: string, identity: string) {
    room in s.rooms && identity in s.rooms[room].participants
  }

  function At(s: Store, room: string, identity: string): Participant
    requires Has(s, room, identity)
  {
    s.rooms[room].participants[identity]
  }

  // ---------- Parts of operations ----------

  predicate Hidden(p: Participant) { p.permission.Some? && p.permission.value.hidden }

  function Visible(participants: map<string, Participant>): nat {
    var n := |set k | k in participants && !Hidden(participants[k])|;
    if n < U32_MAX then n else U32_MAX
  }

  function Recount(rec: Record): Record {
    rec.(room := rec.room.(numParticipants := Visible(rec.participants)))
  }

  function PutRecord(s: Store, room: string, rec: Record): Store { s.(rooms := s.rooms[room := rec]) }

  /** Replaces the preferences; the revision moves exactly when they change. */
  function SetPrefs(s: Store, prefs: set<Pref>): Store {
    s.(unsubscribed := prefs, revision := if prefs == s.unsubscribed then s.revision else Increment64(s.revision))
  }

  function Toggle(s: Store, keys: set<Pref>, subscribed: bool): Store {
    SetPrefs(s, if subscribed then s.unsubscribed - keys else s.unsubscribed + keys)
  }

  predicate Mentions(x: Pref, room: string, identity: string) {
    x.room == room && (x.publisher == identity || x.subscriber == identity)
  }

  function Forget(s: Store, room: string, identity: string): Store {
    SetPrefs(s, set x | x in s.unsubscribed && !Mentions(x, room, identity))
  }

  function Bump(p: Participant): Participant { p.(version := Increment32(p.version)) }

  function NewRoom(s: Store, d: Defaults, name: string, now: nat): Room {
    Room(Increment64(s.nextRoomId), name, d.emptyTimeout, d.departureTimeout, d.maxParticipants, 0, now, "")
  }

  /** The record without a participant; a room left empty is stamped. */
  function Without(rec: Record, identity: string, now: nat): Record {
    var rest := rec.participants - {identity};
    Recount(rec.(participants := rest, emptySince := if rest == map[] then Some(now) else rec.emptySince))
  }

  function With(rec: Record, identity: string, p: Participant): Record {
    Recount(rec.(participants := rec.participants[identity := p], emptySince := None))
  }

  // ---------- Edits of one participant ----------

  datatype Edit =
    | SetKind(kind: int, kindDetails: seq<int>)
    | AddTrack(track: Track)
    | SetTrackMime(trackSid: string, mimeType: string)
    | SetTrackMid(trackSid: string, mid: string)
    | SetTrackSdpCid(trackSid: string, sdpCid: string)
    | SetTrackMuted(trackSid: string, muted: bool)
    | AddDataTrack(dataTrack: DataTrack)
    | RemoveDataTrack(pubHandle: nat)

  /** The first track with the given SID. */
  function FindTrack(tracks: seq<Track>, sid: string): (i: Option<nat>)
    ensures i.Some? ==> i.value < |tracks| && tracks[i.value].sid == sid
    ensures i.Some? ==> forall j :: 0 <= j < i.value ==> tracks[j].sid != sid
    ensures i == None ==> forall j :: 0 <= j < |tracks| ==> tracks[j].sid != sid
  {
    if tracks == [] then None
    else if tracks[0].sid == sid then Some(0)
    else
      var rest := FindTrack(tracks[1..], sid);
      if rest == None then None else Some(rest.value + 1)
  }

  function WithoutHandle(tracks: seq<DataTrack>, pubHandle: nat): seq<DataTrack> {
    if tracks == [] then []
    else (if tracks[0].pubHandle != pubHandle then [tracks[0]] else []) + WithoutHandle(tracks[1..], pubHandle)
  }

  function WithoutTrack(tracks: seq<Track>, sid: string): seq<Track> {
    if tracks == [] then []
    else (if tracks[0].sid != sid then [tracks[0]] else []) + WithoutTrack(tracks[1..], sid)
  }

  function EditTrack(t: Track, e: Edit): Track
    requires e.SetTrackMime? || e.SetTrackMid? || e.SetTrackSdpCid? || e.SetTrackMuted?
  {
    match e
    case SetTrackMime(_, mime) =>
      if mime == "" || t.mimeType == mime then t else t.(mimeType := mime, codecs := [Codec(mime, "")])
    case SetTrackMid(_, mid) => t.(mid := mid)
    case SetTrackSdpCid(_, cid) =>
      t.(codecs := seq(|t.codecs|, i requires 0 <= i < |t.codecs| => t.codecs[i].(sdpCid := cid)))
    case SetTrackMuted(_, muted) => t.(muted := muted)
  }

  /** `None` when the edited track does not exist; a track edit that changes nothing keeps the version. */
  function ApplyEdit(p: Participant, e: Edit): Option<Participant> {
    match e
    case SetKind(kind, details) => Some(Bump(p.(kind := kind, kindDetails := details)))
    case AddTrack(track) => Some(Bump(p.(tracks := p.tracks + [track])))
    case AddDataTrack(track) => Some(Bump(p.(dataTracks := p.dataTracks + [track])))
    case RemoveDataTrack(handle) => Some(Bump(p.(dataTracks := WithoutHandle(p.dataTracks, handle))))
    case _ =>
      var i := FindTrack(p.tracks, e.trackSid);
      if i == None then None
      else
        var t := EditTrack(p.tracks[i.value], e);
        if t == p.tracks[i.value] then Some(p) else Some(Bump(p.(tracks := p.tracks[i.value := t])))
  }

  /** The attributes once the changes under `keys` are merged: empty values remove, others set. */
  function MergeKeys(current: map<string, string>, changes: map<string, string>, keys: set<string>): map<string, string>
    requires keys <= changes.Keys
  {
    map k | k in current.Keys + keys && !(k in keys && changes[k] == "") ::
      if k in keys then changes[k] else current[k]
  }

  function MergeAttributes(current: map<string, string>, changes: map<string, string>): map<string, string> {
    MergeKeys(current, changes, changes.Keys)
  }

  /** Bytes of a text in UTF-8. */
  function Bytes(s: string): nat {
    if s == "" then 0
    else
      var c := s[0] as int;
      (if c < 0x80 then 1 else if c < 0x800 then 2 else if c < 0x1_0000 then 3 else 4) + Bytes(s[1..])
  }

  /** Bytes of all keys and values. */
  ghost function AttributesSize(m: map<string, string>): nat {
    if m == map[] then 0
    else
      var k :| k in m;
      Bytes(k) + Bytes(m[k]) + AttributesSize(m - {k})
  }

  datatype Changes = Changes(metadata: string, name: string, permission: Option<Permission>,
                             attributes: map<string, string>)

  function GrantPermission(p: Participant, permission: Permission): Participant {
    var p1 := if permission.canPublish then p else p.(tracks := [], dataTracks := []);
    p1.(permission := Some(permission))
  }

  const MAX_METADATA_BYTES: nat := 512 * 1024
  const MAX_ATTRIBUTES_BYTES: nat := 64 * 1024

  /** An update is refused for its metadata, or for the attributes it would leave. */
  ghost predicate Oversized(p: Participant, c: Changes) {
    || Bytes(c.metadata) > MAX_METADATA_BYTES
    || AttributesSize(MergeAttributes(p.attributes, c.attributes)) > MAX_ATTRIBUTES_BYTES
  }

  predicate ChangesPermission(p: Participant, c: Changes) { c.permission.Some? && p.permission != c.permission }

  function ApplyChanges(p: Participant, c: Changes): Participant {
    var p1 := if c.metadata != "" then p.(metadata := c.metadata) else p;
    var p2 := if c.name != "" then p1.(name := c.name) else p1;
    var p3 := if ChangesPermission(p, c) then GrantPermission(p2, c.permission.value) else p2;
    var p4 := p3.(attributes := MergeAttributes(p.attributes, c.attributes));
    if p4 == p then p else Bump(p4)
  }

  // ---------- Operations ----------

  /** `found` is the holder of the publisher SID that the lookup comes across. */
  datatype Op =
    | Join(room: string, identity: string, name: string, metadata: string, attributes: map<string, string>,
           permission: Option<Permission>)
    | Remove(room: string, identity: string, reason: int)
    | EditParticipant(room: string, identity: string, edit: Edit)
    | RemoveTrack(room: string, identity: string, trackSid: string)
    | Update(room: string, identity: string, changes: Changes)
    | Move(room: string, identity: string, destination: string)
    | SubscribeByTrack(room: string, subscriber: string, trackSid: string, subscribed: bool)
    | SubscribeByPublisher(room: string, publisherSid: u64, found: string, trackSid: string, subscriber: string,
                           subscribed: bool)
    | Subscribe(room: string, publisher: string, trackSid: string, subscriber: string, subscribed: bool)
    | CreateRoom(room: string, emptyTimeout: nat, departureTimeout: nat, maxParticipants: nat, metadata: string,
                 agents: seq<Agent>)
    | DeleteRoom(room: string)
    | Cleanup(defaultAgeMs: int)
    | StoreRoom(snapshot: Room, internal: Option<Internal>)
    | UpdateRoomMetadata(room: string, metadata: string)
    | LockRoom(room: string, intervalMs: int)
    | UnlockRoom(room: string, token: u64)

  function EmptyRecord(room: Room, internal: Option<Internal>, dispatches: seq<AgentDispatch>, now: nat): Record {
    Record(room, internal, map[], map[], dispatches, Some(now), false)
  }

  function EnsureRoom(s: Store, d: Defaults, room: string, now: nat): Store {
    if room in s.rooms then s
    else
      PutRecord(s, room, EmptyRecord(NewRoom(s, d, room, now), None, [], now))
        .(nextRoomId := Increment64(s.nextRoomId))
  }

  predicate Full(rec: Record, identity: string) {
    rec.room.maxParticipants > 0 && identity !in rec.participants && |rec.participants| >= rec.room.maxParticipants
  }

  function Joining(s: Store, rec: Record, op: Op, now: nat): Participant
    requires op.Join?
  {
    var version := if op.identity in rec.versions then Increment32(rec.versions[op.identity]) else 0;
    Participant(Increment64(s.nextParticipantId), version, op.identity, op.name, op.metadata, op.attributes,
                op.permission, Joined, now / 1000, 0, [], [], [], 0)
  }

  /** A join once its room is there. */
  function Admit(s: Store, op: Op, now: nat): Store
    requires op.Join? && op.room in s.rooms
  {
    var rec := s.rooms[op.room];
    if Full(rec, op.identity) then s
    else
      var p := Joining(s, rec, op, now);
      PutRecord(s, op.room, With(rec.(versions := rec.versions[op.identity := p.version], hadParticipants := true),
                                 op.identity, p))
        .(nextParticipantId := p.sid)
  }

  function DoJoin(s: Store, d: Defaults, op: Op, now: nat): Store
    requires op.Join?
  {
    Admit(EnsureRoom(s, d, op.room, now), op, now)
  }

  /** The snapshot a removal returns. */
  function Farewell(p: Participant, reason: int): Participant {
    Bump(p.(state := Disconnected, disconnectReason := reason))
  }

  function DoRemove(s: Store, room: string, identity: string, reason: int, now: nat): Store {
    if !Has(s, room, identity) then s
    else
      var rec := s.rooms[room];
      var p := Farewell(rec.participants[identity], reason);
      Forget(PutRecord(s, room, Without(rec, identity, now).(versions := rec.versions[identity := p.version])),
             room, identity)
  }

  function PutParticipant(s: Store, room: string, identity: string, p: Participant): Store
    requires Has(s, room, identity)
  {
    var rec := s.rooms[room];
    PutRecord(s, room, rec.(participants := rec.participants[identity := p]))
  }

  function DoEdit(s: Store, room: string, identity: string, edit: Edit): Store {
    if !Has(s, room, identity) || ApplyEdit(At(s, room, identity), edit) == None then s
    else PutParticipant(s, room, identity, ApplyEdit(At(s, room, identity), edit).value)
  }

  function DoRemoveTrack(s: Store, room: string, identity: string, trackSid: string): Store {
    if !Has(s, room, identity) then s
    else
      var p := At(s, room, identity);
      var s1 := PutParticipant(s, room, identity, Bump(p.(tracks := WithoutTrack(p.tracks, trackSid))));
      SetPrefs(s1, set x | x in s.unsubscribed && !(x.room == room && x.publisher == identity && x.track == trackSid))
  }

  /** The store with an updated participant, its room recounted and the revision moved if need be. */
  function PutUpdated(s: Store, room: string, identity: string, p: Participant, permissionChanged: bool): Store
    requires Has(s, room, identity)
  {
    var s1 := PutParticipant(s, room, identity, p);
    var s2 := if Hidden(At(s, room, identity)) != Hidden(p) then PutRecord(s1, room, Recount(s1.rooms[room])) else s1;
    if permissionChanged then s2.(revision := Increment64(s2.revision)) else s2
  }

  ghost function DoUpdate(s: Store, room: string, identity: string, changes: Changes): Store {
    if !Has(s, room, identity) || Oversized(At(s, room, identity), changes) then s
    else
      var p := At(s, room, identity);
      PutUpdated(s, room, identity, ApplyChanges(p, changes), ChangesPermission(p, changes))
  }

  function DoMove(s: Store, room: string, identity: string, destination: string, now: nat): Store {
    if destination !in s.rooms || !Has(s, room, identity) then s
    else
      var p := Bump(At(s, room, identity));
      var s1 := PutRecord(s, room, Without(s.rooms[room], identity, now));
      Forget(PutRecord(s1, destination, With(s1.rooms[destination], identity, p)), room, identity)
  }

  predicate Publishes(p: Participant, trackSid: string) {
    exists i :: 0 <= i < |p.tracks| && p.tracks[i].sid == trackSid
  }

  function PublishersOf(participants: map<string, Participant>, trackSid: string): set<string> {
    set k | k in participants && Publishes(participants[k], trackSid)
  }

  function HoldersOf(participants: map<string, Participant>, sid: u64): set<string> {
    set k | k in participants && participants[k].sid == sid
  }

  /** The tuples a subscription setter is about. */
  function PrefsFor(room: string, publishers: set<string>, trackSid: string, subscriber: string): set<Pref> {
    set k | k in publishers :: Pref(room, k, trackSid, subscriber)
  }

  /** The dispatches made for `agents`, with IDs from the counter on. */
  function DispatchesFor(agents: seq<Agent>, room: string, counter: u64, now: nat): seq<AgentDispatch> {
    if agents == [] then []
    else
      var id := Increment64(counter);
      [AgentDispatch(id, room, agents[0], now)] + DispatchesFor(agents[1..], room, id, now)
  }

  function DispatchIdAfter(counter: u64, n: nat): u64 {
    if counter + n < U64_MAX then counter + n else U64_MAX
  }

  function DoCreateRoom(s: Store, d: Defaults, op: Op, now: nat): Store
    requires op.CreateRoom?
  {
    if op.room in s.rooms then s
    else
      var room := Room(Increment64(s.nextRoomId), op.room,
                       if op.emptyTimeout == 0 then d.emptyTimeout else op.emptyTimeout,
                       if op.departureTimeout == 0 then d.departureTimeout else op.departureTimeout,
                       if op.maxParticipants == 0 then d.maxParticipants else op.maxParticipants,
                       0, now, op.metadata);
      PutRecord(s, op.room, EmptyRecord(room, None, DispatchesFor(op.agents, op.room, s.nextDispatchId, now), now))
        .(nextRoomId := Increment64(s.nextRoomId), nextDispatchId := DispatchIdAfter(s.nextDispatchId, |op.agents|))
  }

  function DoDeleteRoom(s: Store, room: string): Store {
    if room !in s.rooms then s
    else SetPrefs(s.(rooms := s.rooms - {room}, locks := s.locks - {room}),
                  set x | x in s.unsubscribed && x.room != room)
  }

  /** Whether cleanup removes a room. */
  predicate TimedOut(rec: Record, defaultAgeMs: int, now: nat) {
    rec.emptySince.Some? &&
    var seconds := if rec.hadParticipants && rec.room.departureTimeout > 0 then rec.room.departureTimeout
                   else rec.room.emptyTimeout;
    var timeout := if seconds > 0 then seconds * 1000 else defaultAgeMs;
    now - rec.emptySince.value >= timeout
  }

  function DoCleanup(s: Store, defaultAgeMs: int, now: nat): Store {
    s.(rooms := map r | r in s.rooms && !TimedOut(s.rooms[r], defaultAgeMs, now) :: s.rooms[r])
  }

  function DoStoreRoom(s: Store, snapshot: Room, internal: Option<Internal>, now: nat): Store {
    if snapshot.name == "" then s
    else if snapshot.name in s.rooms
    then PutRecord(s, snapshot.name, s.rooms[snapshot.name].(room := snapshot, internal := internal))
    else PutRecord(s, snapshot.name, EmptyRecord(snapshot, internal, [], now))
  }

  predicate CanLock(s: Store, room: string, intervalMs: int, now: nat) {
    room != "" && intervalMs > 0 && (room in s.locks ==> s.locks[room].expiresAt <= now)
  }

  /** One pass of the lock loop; without success nothing changes. */
  function DoLockRoom(s: Store, room: string, intervalMs: int, now: nat): Store {
    if !CanLock(s, room, intervalMs, now) then s
    else
      var token := Increment64(s.nextToken);
      var expiresAt := if now + intervalMs < I64_MAX then now + intervalMs else I64_MAX;
      s.(nextToken := token, locks := s.locks[room := Lock(token, expiresAt)])
  }

  function DoUnlockRoom(s: Store, room: string, token: u64): Store {
    if room != "" && room in s.locks && s.locks[room].token == token then s.(locks := s.locks - {room}) else s
  }

  ghost function Step(s: Store, d: Defaults, op: Op, now: nat): Store {
    match op
    case Join(_, _, _, _, _, _) => DoJoin(s, d, op, now)
    case Remove(room, identity, reason) => DoRemove(s, room, identity, reason, now)
    case EditParticipant(room, identity, edit) => DoEdit(s, room, identity, edit)
    case RemoveTrack(room, identity, trackSid) => DoRemoveTrack(s, room, identity, trackSid)
    case Update(room, identity, changes) => DoUpdate(s, room, identity, changes)
    case Move(room, identity, destination) => DoMove(s, room, identity, destination, now)
    case SubscribeByTrack(room, subscriber, trackSid, subscribed) =>
      if !Has(s, room, subscriber) then s
      else
        var publishers := PublishersOf(s.rooms[room].participants, trackSid);
        Toggle(s, PrefsFor(room, publishers, trackSid, subscriber), subscribed)
    case SubscribeByPublisher(room, publisherSid, found, trackSid, subscriber, subscribed) =>
      if !Has(s, room, subscriber) || found !in HoldersOf(s.rooms[room].participants, publisherSid) then s
      else Toggle(s, {Pref(room, found, trackSid, subscriber)}, subscribed)
    case Subscribe(room, publisher, trackSid, subscriber, subscribed) =>
      if room !in s.rooms then s else Toggle(s, {Pref(room, publisher, trackSid, subscriber)}, subscribed)
    case CreateRoom(_, _, _, _, _, _) => DoCreateRoom(s, d, op, now)
    case DeleteRoom(room) => DoDeleteRoom(s, room)
    case Cleanup(defaultAgeMs) => DoCleanup(s, defaultAgeMs, now)
    case StoreRoom(snapshot, internal) => DoStoreRoom(s, snapshot, internal, now)
    case UpdateRoomMetadata(room, metadata) =>
      if room !in s.rooms then s
      else PutRecord(s, room, s.rooms[room].(room := s.rooms[room].room.(metadata := metadata)))
    case LockRoom(room, intervalMs) => DoLockRoom(s, room, intervalMs, now)
    case UnlockRoom(room, token) => DoUnlockRoom(s, room, token)
  }

  datatype Timed = Timed(op: Op, now: nat)

  ghost function Run(s: Store, d: Defaults, ops: seq<Timed>): Store {
    if ops == [] then s
    else
      var last := ops[|ops| - 1];
      Step(Run(s, d, ops[..|ops| - 1]), d, last.op, last.now)
  }
}
