/** Room locks are leases: held from acquisition until expiry, the matching unlock, or the deletion
    of the room, whichever comes first. */
module RoomLocks {
  import opened RoomState
  import opened RoomSnapshots

  /** The clock never goes back. */
  ghost predicate Clocked(ops: seq<Timed>) {
    forall i, j :: 0 <= i <= j < |ops| ==> ops[i].now <= ops[j].now
  }

  /** Operation `i` acquires the lock of `room`. */
  ghost predicate Acquires(ops: seq<Timed>, ss: seq<Store>, i: nat, room: string)
    requires |ss| == |ops| + 1 && i < |ops|
  {
    ops[i].op.LockRoom? && ops[i].op.room == room && CanLock(ss[i], room, ops[i].op.intervalMs, ops[i].now)
  }

  /** Operation `k` gives up the lease `token` of `room` before it expires. */
  ghost predicate Ends(ops: seq<Timed>, ss: seq<Store>, k: nat, room: string, token: u64)
    requires |ss| == |ops| + 1 && k < |ops|
  {
    ops[k].op == UnlockRoom(room, token) || (ops[k].op == DeleteRoom(room) && room in ss[k].rooms)
  }

  /** Some operation between `i` and `j` gives the lease up. */
  ghost predicate EndedBetween(ops: seq<Timed>, ss: seq<Store>, i: nat, j: nat, room: string, token: u64)
    requires |ss| == |ops| + 1 && j <= |ops|
  {
    exists k: nat :: i < k < j && Ends(ops, ss, k, room, token)
  }

  // ---------- Single steps ----------

  lemma {:induction false} LeaseStands(s: Store, d: Defaults, op: Op, now: nat, room: string)
    requires room in s.locks && now < s.locks[room].expiresAt
    requires op != UnlockRoom(room, s.locks[room].token) && !(op == DeleteRoom(room) && room in s.rooms)
    ensures var s' := Step(s, d, op, now); room in s'.locks && s'.locks[room] == s.locks[room]
  {}

  /** The token counter does not fall, and an operation replaces a lock only by the counter's new value. */
  lemma {:induction false} TokenStep(s: Store, d: Defaults, op: Op, now: nat, room: string)
    ensures var s' := Step(s, d, op, now);
            && s.nextToken <= s'.nextToken
            && (room in s'.locks ==>
                  || (room in s.locks && s'.locks[room] == s.locks[room])
                  || s'.locks[room].token == s'.nextToken)
  {}

  lemma {:induction false} AcquireStep(s: Store, d: Defaults, room: string, intervalMs: int, now: nat)
    requires CanLock(s, room, intervalMs, now)
    ensures var s' := Step(s, d, LockRoom(room, intervalMs), now);
            && room in s'.locks && s'.locks[room].token == s'.nextToken == Increment64(s.nextToken)
            && (room in s.locks ==> s.locks[room].expiresAt <= now)
            && s'.locks[room].expiresAt == if now + intervalMs < I64_MAX then now + intervalMs else I64_MAX
  {}

  lemma {:induction false} ForeignUnlock(s: Store, d: Defaults, room: string, token: u64, now: nat)
    requires room in s.locks ==> s.locks[room].token != token
    ensures Step(s, d, UnlockRoom(room, token), now) == s
  {}

  lemma {:induction false} OwnUnlock(s: Store, d: Defaults, room: string, now: nat)
    requires room != "" && room in s.locks
    ensures room !in Step(s, d, UnlockRoom(room, s.locks[room].token), now).locks
  {}

  // ---------- Whole runs ----------

  lemma {:induction false} Acquired(d: Defaults, ops: seq<Timed>, ss: seq<Store>, i: nat, room: string)
    requires IsRun(d, ops, ss) && i < |ops| && Acquires(ops, ss, i, room)
    ensures room in ss[i + 1].locks
    ensures ss[i + 1].locks[room].token == ss[i + 1].nextToken == Increment64(ss[i].nextToken)
    ensures room in ss[i].locks ==> ss[i].locks[room].expiresAt <= ops[i].now
  {
    assert Linked(d, ops, ss, i);
    AcquireStep(ss[i], d, room, ops[i].op.intervalMs, ops[i].now);
  }

  /** An unexpired lease that nobody ends is still there, unchanged. */
  lemma {:induction false} LeaseLasts(d: Defaults, ops: seq<Timed>, ss: seq<Store>, i: nat, j: nat, room: string,
                                      lease: Lock)
    requires IsRun(d, ops, ss) && i <= j < |ss|
    requires room in ss[i].locks && ss[i].locks[room] == lease
    requires forall k: nat :: i <= k < j ==> ops[k].now < lease.expiresAt && !Ends(ops, ss, k, room, lease.token)
    ensures room in ss[j].locks && ss[j].locks[room] == lease
    decreases j
  {
    if i < j {
      LeaseLasts(d, ops, ss, i, j - 1, room, lease);
      assert Linked(d, ops, ss, j - 1);
      assert !Ends(ops, ss, j - 1, room, lease.token);
      LeaseStands(ss[j - 1], d, ops[j - 1].op, ops[j - 1].now, room);
    }
  }

  /** Lease periods of one room never overlap: when the lock is acquired again, the earlier lease
      has expired, or its holder has unlocked it, or the room was deleted in between. */
  lemma {:induction false} LeasesNeverOverlap(d: Defaults, ops: seq<Timed>, ss: seq<Store>, i: nat, j: nat,
                                              room: string)
    requires IsRun(d, ops, ss) && Clocked(ops)
    requires i < j < |ops| && Acquires(ops, ss, i, room) && Acquires(ops, ss, j, room)
    ensures room in ss[i + 1].locks
    ensures || ss[i + 1].locks[room].expiresAt <= ops[j].now
            || EndedBetween(ops, ss, i, j, room, ss[i + 1].locks[room].token)
  {
    Acquired(d, ops, ss, i, room);
    Acquired(d, ops, ss, j, room);
    var lease := ss[i + 1].locks[room];
    if lease.expiresAt > ops[j].now && !EndedBetween(ops, ss, i, j, room, lease.token) {
      LeaseLasts(d, ops, ss, i + 1, j, room, lease);
    }
  }

  /** After a token has been issued for a room, only that token or later ones hold the room. */
  lemma {:induction false} HolderIsNewer(d: Defaults, ops: seq<Timed>, ss: seq<Store>, j: nat, k: nat, room: string,
                                         token: u64)
    requires IsRun(d, ops, ss) && j <= k < |ss|
    requires token <= ss[j].nextToken && (room in ss[j].locks ==> token <= ss[j].locks[room].token)
    ensures token <= ss[k].nextToken && (room in ss[k].locks ==> token <= ss[k].locks[room].token)
    decreases k
  {
    if j < k {
      HolderIsNewer(d, ops, ss, j, k - 1, room, token);
      assert Linked(d, ops, ss, k - 1);
      TokenStep(ss[k - 1], d, ops[k - 1].op, ops[k - 1].now, room);
    }
  }

  lemma {:induction false} TokensGrow(d: Defaults, ops: seq<Timed>, ss: seq<Store>, j: nat, k: nat)
    requires IsRun(d, ops, ss) && j <= k < |ss|
    ensures ss[j].nextToken <= ss[k].nextToken
    decreases k
  {
    if j < k {
      TokensGrow(d, ops, ss, j, k - 1);
      assert Linked(d, ops, ss, k - 1);
      TokenStep(ss[k - 1], d, ops[k - 1].op, ops[k - 1].now, "");
    }
  }

  /** Whoever locks any room later gets a higher token, exactly unless the earlier one was the largest. */
  lemma {:induction false} TokensAreNewExactly(d: Defaults, ops: seq<Timed>, ss: seq<Store>, i: nat, j: nat,
                                               room: string, room': string)
    requires IsRun(d, ops, ss) && i < j < |ops|
    requires Acquires(ops, ss, i, room) && Acquires(ops, ss, j, room')
    ensures room in ss[i + 1].locks && room' in ss[j + 1].locks
    ensures ss[i + 1].locks[room].token <= ss[j + 1].locks[room'].token
    ensures ss[i + 1].locks[room].token < ss[j + 1].locks[room'].token <==> ss[i + 1].locks[room].token < U64_MAX
  {
    Acquired(d, ops, ss, i, room);
    Acquired(d, ops, ss, j, room');
    TokensGrow(d, ops, ss, i + 1, j);
  }

  /** After the room has been locked again, a late unlock by a former holder changes nothing, whoever holds the
      lock by then, exactly when that holder's token was below the largest or nobody holds the lock. */
  lemma {:induction false} LateUnlockIsHarmlessExactly(d: Defaults, ops: seq<Timed>, ss: seq<Store>, i: nat, j: nat,
                                                       k: nat, room: string)
    requires IsRun(d, ops, ss) && i < j < k < |ops|
    requires Acquires(ops, ss, i, room) && Acquires(ops, ss, j, room)
    requires room in ss[i + 1].locks && ops[k].op == UnlockRoom(room, ss[i + 1].locks[room].token)
    ensures ss[k + 1] == ss[k] <==> ss[i + 1].locks[room].token < U64_MAX || room !in ss[k].locks
  {
    var token := ss[i + 1].locks[room].token;
    Acquired(d, ops, ss, j, room);
    TokensAreNewExactly(d, ops, ss, i, j, room, room);
    HolderIsNewer(d, ops, ss, j + 1, k, room, ss[j + 1].locks[room].token);
    assert Linked(d, ops, ss, k);
    if room !in ss[k].locks || ss[k].locks[room].token != token {
      ForeignUnlock(ss[k], d, room, token, ops[k].now);
    } else {
      OwnUnlock(ss[k], d, room, ops[k].now);
    }
  }

  /** At the ceiling two holders share a token, and the former one's late unlock frees the room. */
  lemma {:induction false} SaturatedTokensCollide(s: Store, d: Defaults, room: string, intervalMs: int, now: nat)
    requires s.nextToken == U64_MAX && room in s.locks && s.locks[room].token == U64_MAX
    requires CanLock(s, room, intervalMs, now)
    ensures var s' := Step(s, d, LockRoom(room, intervalMs), now);
            && room in s'.locks && s'.locks[room].token == s.locks[room].token
            && room !in Step(s', d, UnlockRoom(room, s.locks[room].token), now).locks
  {}
}
