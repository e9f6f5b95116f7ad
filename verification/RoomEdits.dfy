/** What a participant edit and a participant update leave behind, said without their code. */
module RoomEdits {
  import opened Results
  import opened RoomState

  predicate EditsTrack(e: Edit) { e.SetTrackMime? || e.SetTrackMid? || e.SetTrackSdpCid? || e.SetTrackMuted? }

  /** The track already is what the edit asks for. */
  ghost predicate Shows(t: Track, e: Edit)
    requires EditsTrack(e)
  {
    match e
    case SetTrackMime(_, mime) => mime == "" || t.mimeType == mime
    case SetTrackMid(_, mid) => t.mid == mid
    case SetTrackSdpCid(_, cid) => forall i :: 0 <= i < |t.codecs| ==> t.codecs[i].sdpCid == cid
    case SetTrackMuted(_, muted) => t.muted == muted
  }

  lemma {:induction false} EditTrackShows(t: Track, e: Edit)
    requires EditsTrack(e)
    ensures Shows(EditTrack(t, e), e) && EditTrack(t, e).sid == t.sid
    ensures EditTrack(t, e) == t <==> Shows(t, e)
  {
    if e.SetTrackSdpCid? {
      var t' := EditTrack(t, e);
      assert t' == t ==> forall i :: 0 <= i < |t.codecs| ==> t.codecs[i] == t'.codecs[i];
      if Shows(t, e) { assert t'.codecs == t.codecs; }
    }
  }

  // ---------- MIME types ----------

  /** The Unicode property White_Space. */
  predicate IsSpace(c: char) {
    var x := c as int;
    || 0x9 <= x <= 0xD || x == 0x20 || x == 0x85 || x == 0xA0 || x == 0x1680 || 0x2000 <= x <= 0x200A
    || x == 0x2028 || x == 0x2029 || x == 0x202F || x == 0x205F || x == 0x3000
  }

  function TrimStart(s: string): string {
    if s != "" && IsSpace(s[0]) then TrimStart(s[1..]) else s
  }

  function TrimEnd(s: string): string {
    if s != "" && IsSpace(s[|s| - 1]) then TrimEnd(s[..|s| - 1]) else s
  }

  function AsciiLower(c: char): char { if 'A' <= c <= 'Z' then c - 'A' + 'a' else c }

  /** The MIME type that a setter stores: without white space around it and in lower case. */
  function Normalized(s: string): string {
    var t := TrimEnd(TrimStart(s));
    seq(|t|, i requires 0 <= i < |t| => AsciiLower(t[i]))
  }

  lemma {:induction false} TrimStartSplits(s: string) returns (i: nat)
    ensures i <= |s| && TrimStart(s) == s[i..] && (forall j :: 0 <= j < i ==> IsSpace(s[j]))
    ensures TrimStart(s) != "" ==> !IsSpace(TrimStart(s)[0])
  {
    i := 0;
    if s != "" && IsSpace(s[0]) {
      var k := TrimStartSplits(s[1..]);
      i := k + 1;
      assert s[1..][k..] == s[i..];
    }
  }

  lemma {:induction false} TrimEndSplits(s: string) returns (i: nat)
    ensures i <= |s| && TrimEnd(s) == s[..i] && (forall j :: i <= j < |s| ==> IsSpace(s[j]))
    ensures TrimEnd(s) != "" ==> !IsSpace(TrimEnd(s)[|TrimEnd(s)| - 1])
  {
    i := |s|;
    if s != "" && IsSpace(s[|s| - 1]) {
      i := TrimEndSplits(s[..|s| - 1]);
      assert s[..|s| - 1][..i] == s[..i];
    }
  }

  /** `t` is what stands in `s` between the white space at its ends, in lower case. */
  ghost predicate Normalizes(s: string, t: string, i: nat) {
    && i + |t| <= |s|
    && (forall j :: 0 <= j < |t| ==> t[j] == AsciiLower(s[i + j]))
    && (forall j :: 0 <= j < i ==> IsSpace(s[j])) && (forall j :: i + |t| <= j < |s| ==> IsSpace(s[j]))
    && (t != "" ==> !IsSpace(t[0]) && !IsSpace(t[|t| - 1]))
  }

  /** Normalising finds the one such text, and leaves it as it is. */
  lemma {:induction false} NormalizedExactly(s: string)
    ensures exists i: nat :: Normalizes(s, Normalized(s), i)
    ensures forall t, i: nat :: Normalizes(s, t, i) ==> t == Normalized(s)
    ensures Normalized(Normalized(s)) == Normalized(s)
  {
    var i := TrimStartSplits(s);
    var n := TrimEndSplits(s[i..]);
    var t := Normalized(s);
    assert TrimEnd(TrimStart(s)) == s[i..][..n] == s[i..i + n];
    assert n > 0 ==> s[i..][0] == s[i];
    assert Normalizes(s, t, i);
    forall t', i': nat | Normalizes(s, t', i') ensures t' == t {
      NormalUnique(s, t, i, t', i');
    }
    NormalIsFixed(t);
  }

  lemma {:induction false} NormalUnique(s: string, t: string, i: nat, t': string, i': nat)
    requires Normalizes(s, t, i) && Normalizes(s, t', i')
    ensures t == t'
  {
    if t != "" {
      SpacesStay(s, t, i);
    }
    if t' != "" {
      SpacesStay(s, t', i');
    }
    if t != "" && t' != "" {
      assert i == i' && i + |t| == i' + |t'|;
    }
  }

  /** Lower case makes no white space, so the ends are no white space in the text itself. */
  lemma {:induction false} SpacesStay(s: string, t: string, i: nat)
    requires Normalizes(s, t, i) && t != ""
    ensures !IsSpace(s[i]) && !IsSpace(s[i + |t| - 1])
  {
    assert t[0] == AsciiLower(s[i]) && t[|t| - 1] == AsciiLower(s[i + |t| - 1]);
  }

  lemma {:induction false} NormalIsFixed(t: string)
    requires t != "" ==> !IsSpace(t[0]) && !IsSpace(t[|t| - 1])
    requires forall j :: 0 <= j < |t| ==> AsciiLower(t[j]) == t[j]
    ensures Normalized(t) == t
  {}

  // ---------- Edits of a track ----------

  /** `i` is the position of the first track with the SID. */
  predicate FirstTrack(tracks: seq<Track>, sid: string, i: nat) {
    i < |tracks| && tracks[i].sid == sid && forall j :: 0 <= j < i ==> tracks[j].sid != sid
  }

  lemma {:induction false} FindTrackExactly(tracks: seq<Track>, sid: string, i: nat)
    ensures FindTrack(tracks, sid) == Some(i) <==> FirstTrack(tracks, sid, i)
  {
    if FirstTrack(tracks, sid, i) && FindTrack(tracks, sid).Some? {
      var j := FindTrack(tracks, sid).value;
      assert tracks[j].sid == sid;
    }
  }

  /** A track edit fails exactly when no track has the SID. Otherwise only the first such track changes, it
      comes to show the edit, and the version moves exactly when it did not show it before. */
  lemma {:induction false} TrackEditExactly(p: Participant, e: Edit)
    requires EditsTrack(e)
    ensures ApplyEdit(p, e) == None <==> !exists i: nat :: FirstTrack(p.tracks, e.trackSid, i)
    ensures forall i: nat :: FirstTrack(p.tracks, e.trackSid, i) ==>
      && ApplyEdit(p, e).Some?
      && var p' := ApplyEdit(p, e).value;
      && |p'.tracks| == |p.tracks| && p'.tracks == p.tracks[i := p'.tracks[i]]
      && Shows(p'.tracks[i], e) && p'.tracks[i].sid == e.trackSid
      && p' == p.(tracks := p'.tracks, version := if Shows(p.tracks[i], e) then p.version else Increment32(p.version))
      && (Shows(p.tracks[i], e) ==> p' == p)
  {
    forall i: nat | FirstTrack(p.tracks, e.trackSid, i)
      ensures FindTrack(p.tracks, e.trackSid) == Some(i)
    {
      FindTrackExactly(p.tracks, e.trackSid, i);
    }
    var found := FindTrack(p.tracks, e.trackSid);
    if found.Some? {
      FindTrackExactly(p.tracks, e.trackSid, found.value);
      EditTrackShows(p.tracks[found.value], e);
      assert p.tracks[found.value := p.tracks[found.value]] == p.tracks;
    }
  }

  /** Repeating a track edit changes nothing, the version included. */
  lemma {:induction false} TrackEditIsIdempotent(p: Participant, e: Edit)
    requires EditsTrack(e) && ApplyEdit(p, e).Some?
    ensures ApplyEdit(ApplyEdit(p, e).value, e) == ApplyEdit(p, e)
  {
    TrackEditExactly(p, e);
    var i: nat :| FirstTrack(p.tracks, e.trackSid, i);
    var p' := ApplyEdit(p, e).value;
    assert forall j :: 0 <= j < |p.tracks| && j != i ==> p'.tracks[j] == p.tracks[j];
    assert FirstTrack(p'.tracks, e.trackSid, i);
    TrackEditExactly(p', e);
  }

  lemma {:induction false} WithoutHandlePush(tracks: seq<DataTrack>, t: DataTrack, handle: nat)
    ensures WithoutHandle(tracks + [t], handle)
         == WithoutHandle(tracks, handle) + (if t.pubHandle != handle then [t] else [])
  {
    if tracks == [] {
      assert tracks + [t] == [t];
    } else {
      WithoutHandlePush(tracks[1..], t, handle);
      assert (tracks + [t])[1..] == tracks[1..] + [t];
    }
  }

  lemma {:induction false} WithoutTrackPush(tracks: seq<Track>, t: Track, sid: string)
    ensures WithoutTrack(tracks + [t], sid) == WithoutTrack(tracks, sid) + (if t.sid != sid then [t] else [])
  {
    if tracks == [] {
      assert tracks + [t] == [t];
    } else {
      WithoutTrackPush(tracks[1..], t, sid);
      assert (tracks + [t])[1..] == tracks[1..] + [t];
    }
  }

  lemma {:induction false} WithoutTrackExactly(tracks: seq<Track>, sid: string, t: Track)
    ensures multiset(WithoutTrack(tracks, sid))[t] == if t.sid != sid then multiset(tracks)[t] else 0
  {
    if tracks != [] {
      var front, last := tracks[..|tracks| - 1], tracks[|tracks| - 1];
      assert tracks == front + [last];
      WithoutTrackPush(front, last, sid);
      WithoutTrackExactly(front, sid, t);
    }
  }

  lemma {:induction false} WithoutHandleExactly(tracks: seq<DataTrack>, handle: nat, t: DataTrack)
    ensures multiset(WithoutHandle(tracks, handle))[t] == if t.pubHandle != handle then multiset(tracks)[t] else 0
  {
    if tracks != [] {
      var front, last := tracks[..|tracks| - 1], tracks[|tracks| - 1];
      assert tracks == front + [last];
      WithoutHandlePush(front, last, handle);
      WithoutHandleExactly(front, handle, t);
    }
  }

  /** Removing a published track leaves every other track as often as it was there, and nobody's preference
      names the removed one. */
  lemma {:induction false} RemovedTrackIsForgotten(s: Store, room: string, identity: string, trackSid: string)
    requires Has(s, room, identity)
    ensures var s' := DoRemoveTrack(s, room, identity, trackSid);
            && Has(s', room, identity)
            && (forall t :: multiset(At(s', room, identity).tracks)[t]
                         == if t.sid != trackSid then multiset(At(s, room, identity).tracks)[t] else 0)
            && (forall x :: x in s'.unsubscribed <==>
                  x in s.unsubscribed && !(x.room == room && x.publisher == identity && x.track == trackSid))
            && (s'.revision == s.revision <==> s'.unsubscribed == s.unsubscribed || s.revision == U64_MAX)
  {
    var p := At(s, room, identity);
    assert At(DoRemoveTrack(s, room, identity, trackSid), room, identity).tracks == WithoutTrack(p.tracks, trackSid);
    forall t
      ensures multiset(WithoutTrack(p.tracks, trackSid))[t] == if t.sid != trackSid then multiset(p.tracks)[t] else 0
    {
      WithoutTrackExactly(p.tracks, trackSid, t);
    }
  }

  /** Removing data tracks by handle leaves every other one as often as it was there, and only moves the
      version besides. */
  lemma {:induction false} RemovedDataTrackIsGone(p: Participant, handle: nat)
    ensures ApplyEdit(p, RemoveDataTrack(handle)).Some?
    ensures var p' := ApplyEdit(p, RemoveDataTrack(handle)).value;
            && p' == p.(dataTracks := p'.dataTracks, version := Increment32(p.version))
            && forall t :: multiset(p'.dataTracks)[t]
                        == if t.pubHandle != handle then multiset(p.dataTracks)[t] else 0
  {
    forall t
      ensures multiset(WithoutHandle(p.dataTracks, handle))[t]
           == if t.pubHandle != handle then multiset(p.dataTracks)[t] else 0
    {
      WithoutHandleExactly(p.dataTracks, handle, t);
    }
  }

  lemma {:induction false} WithoutUnused(tracks: seq<DataTrack>, handle: nat)
    requires forall i :: 0 <= i < |tracks| ==> tracks[i].pubHandle != handle
    ensures WithoutHandle(tracks, handle) == tracks
  {
    if tracks != [] {
      WithoutUnused(tracks[1..], handle);
    }
  }

  /** Removing a data track just added under a new handle gives back what was there, in order. */
  lemma {:induction false} DataTrackRoundTrip(p: Participant, t: DataTrack)
    requires forall i :: 0 <= i < |p.dataTracks| ==> p.dataTracks[i].pubHandle != t.pubHandle
    ensures var added := ApplyEdit(p, AddDataTrack(t)).value;
            ApplyEdit(added, RemoveDataTrack(t.pubHandle)).value.dataTracks == p.dataTracks
  {
    WithoutHandlePush(p.dataTracks, t, t.pubHandle);
    WithoutUnused(p.dataTracks, t.pubHandle);
  }

  // ---------- Updates ----------

  function Lookup(m: map<string, string>, k: string): string { if k in m then m[k] else "" }

  /** The attributes are what the changes ask for. */
  ghost predicate Agrees(attributes: map<string, string>, changes: map<string, string>) {
    forall k :: k in changes ==>
      Lookup(attributes, k) == changes[k] && (k in attributes <==> changes[k] != "")
  }

  /** What the participant shows for an update: absent and empty mean "leave alone", and an attribute set to
      the empty text is one that is absent. */
  ghost predicate Satisfies(p: Participant, c: Changes) {
    && (c.metadata != "" ==> p.metadata == c.metadata)
    && (c.name != "" ==> p.name == c.name)
    && (c.permission.Some? ==> p.permission == c.permission)
    && Agrees(p.attributes, c.attributes)
  }

  lemma {:induction false} MergeIsFixed(current: map<string, string>, changes: map<string, string>)
    ensures MergeAttributes(current, changes) == current <==> Agrees(current, changes)
  {
    var merged := MergeAttributes(current, changes);
    if Agrees(current, changes) {
      assert merged.Keys == current.Keys;
    } else {
      var k :| k in changes && !(Lookup(current, k) == changes[k] && (k in current <==> changes[k] != ""));
      assert k in merged <==> changes[k] != "";
    }
  }

  lemma {:induction false} MergeReached(current: map<string, string>, changes: map<string, string>)
    ensures var merged := MergeAttributes(current, changes);
            && Agrees(merged, changes)
            && forall k :: k !in changes ==>
                 (k in merged <==> k in current) && Lookup(merged, k) == Lookup(current, k)
  {}

  /** An update is a no-op exactly on a participant that already satisfies it; otherwise the version moves.
      Afterwards the participant satisfies it, and what the update does not mention is as before, except that
      a new permission without publishing takes the tracks. */
  lemma {:induction false} UpdateExactly(p: Participant, c: Changes)
    ensures var p' := ApplyChanges(p, c);
            && Satisfies(p', c)
            && (Satisfies(p, c) ==> p' == p)
            && (!Satisfies(p, c) ==> p'.version == Increment32(p.version))
    ensures var p' := ApplyChanges(p, c);
            && (c.metadata == "" ==> p'.metadata == p.metadata)
            && (c.name == "" ==> p'.name == p.name)
            && (c.permission == None ==> p'.permission == p.permission)
            && (forall k :: k !in c.attributes ==>
                  (k in p'.attributes <==> k in p.attributes) && Lookup(p'.attributes, k) == Lookup(p.attributes, k))
    ensures var p' := ApplyChanges(p, c);
            if ChangesPermission(p, c) && !c.permission.value.canPublish then p'.tracks == [] && p'.dataTracks == []
            else p'.tracks == p.tracks && p'.dataTracks == p.dataTracks
  {
    MergeIsFixed(p.attributes, c.attributes);
    MergeReached(p.attributes, c.attributes);
  }

  /** Repeating an update changes nothing, the version included. */
  lemma {:induction false} UpdateIsIdempotent(p: Participant, c: Changes)
    ensures ApplyChanges(ApplyChanges(p, c), c) == ApplyChanges(p, c)
  {
    UpdateExactly(p, c);
    UpdateExactly(ApplyChanges(p, c), c);
  }

  // ---------- Subscriptions ----------

  /** A setter decides exactly the preferences it is about; the revision moves exactly when one of them was
      different (or is at its ceiling). */
  lemma {:induction false} SettersDecide(s: Store, keys: set<Pref>, subscribed: bool)
    ensures var s' := Toggle(s, keys, subscribed);
            && (forall x :: x in s'.unsubscribed <==> if x in keys then !subscribed else x in s.unsubscribed)
            && s' == s.(unsubscribed := s'.unsubscribed, revision := s'.revision)
            && (s'.revision == s.revision <==>
                  s.revision == U64_MAX || forall x :: x in keys ==> (x in s.unsubscribed <==> !subscribed))
    ensures Toggle(Toggle(s, keys, subscribed), keys, subscribed) == Toggle(s, keys, subscribed)
  {
    var s' := Toggle(s, keys, subscribed);
    if forall x :: x in keys ==> (x in s.unsubscribed <==> !subscribed) {
      assert s'.unsubscribed == s.unsubscribed;
    } else {
      var x :| x in keys && (x in s.unsubscribed <==> subscribed);
      assert x in s'.unsubscribed <==> !subscribed;
      assert s'.unsubscribed != s.unsubscribed;
    }
    assert Toggle(s', keys, subscribed).unsubscribed == s'.unsubscribed;
  }
}
