/** When the five-session cap of `Create` (src/internal/session/repository.go)
    holds and when it is exceeded: the eviction loop run to its end over the
    rounds that `SessionEviction` describes one at a time. */
module SessionCap {
  import opened Results
  import opened Uuids
  import opened Clock
  import opened SessionModel
  import opened KeyValue
  import opened SessionService
  import opened SessionRepository
  import opened SessionStates
  import opened SessionEviction
  import SessionProperties

  // ---------------------------------------------------------------------
  // When the cap holds

  /** Over stale ids, the loop succeeds and leaves `MaxSessions - 1` ids once
      the list held at least `MaxSessions`, each of them still stale. */
  lemma {:induction false} EvictStale(st: StoreState, userId: Uuid, count: int, now: Instant)
    requires StaleList(st, userId, now) && count == |st.space.ListAt(SessionsKey(userId), now).value|
    ensures Evict(st, userId, count, now).0 == Pass
    ensures StaleList(Evict(st, userId, count, now).1, userId, now)
    ensures |Evict(st, userId, count, now).1.space.ListAt(SessionsKey(userId), now).value| ==
      if count < MaxSessions then count else MaxSessions - 1
    decreases count, 1
  {
    if count >= MaxSessions {
      RoundStale(st, userId, now);
      EvictStep(st, userId, count, now);
      EvictStaleStep(st, EvictRound(st, userId, now).1, userId, count, now);
    }
  }

  /** The inductive step of `EvictStale`, from the state one round leaves. */
  lemma {:induction false} EvictStaleStep(st: StoreState, st1: StoreState, userId: Uuid, count: int, now: Instant)
    requires count >= MaxSessions && Evict(st, userId, count, now) == Evict(st1, userId, count - 1, now)
    requires StaleList(st1, userId, now) && |st1.space.ListAt(SessionsKey(userId), now).value| == count - 1
    ensures Evict(st, userId, count, now).0 == Pass
    ensures StaleList(Evict(st, userId, count, now).1, userId, now)
    ensures |Evict(st, userId, count, now).1.space.ListAt(SessionsKey(userId), now).value| == MaxSessions - 1
    decreases count, 0
  {
    EvictStale(st1, userId, count - 1, now);
  }

  /** The same loop removes keys, except perhaps the user's list, and
      changes none. */
  lemma {:induction false} EvictPrunes(st: StoreState, userId: Uuid, count: int, now: Instant)
    requires StaleList(st, userId, now) && count == |st.space.ListAt(SessionsKey(userId), now).value|
    ensures Pruned(st.space, Evict(st, userId, count, now).1.space, SessionsKey(userId), now)
    decreases count, 1
  {
    if count >= MaxSessions {
      RoundStale(st, userId, now);
      RoundPrunes(st, userId, now);
      EvictStep(st, userId, count, now);
      EvictPrunesStep(st, EvictRound(st, userId, now).1, userId, count, now);
    }
  }

  /** The inductive step of `EvictPrunes`. */
  lemma {:induction false} EvictPrunesStep(st: StoreState, st1: StoreState, userId: Uuid, count: int, now: Instant)
    requires count >= MaxSessions && Evict(st, userId, count, now) == Evict(st1, userId, count - 1, now)
    requires StaleList(st1, userId, now) && |st1.space.ListAt(SessionsKey(userId), now).value| == count - 1
    requires Pruned(st.space, st1.space, SessionsKey(userId), now)
    ensures Pruned(st.space, Evict(st, userId, count, now).1.space, SessionsKey(userId), now)
    decreases count, 0
  {
    EvictPrunes(st1, userId, count - 1, now);
    PrunedTrans(st.space, st1.space, Evict(st1, userId, count - 1, now).1.space, SessionsKey(userId), now);
  }

  /** The cap holds: on a healthy server where every listed session is stale
      (last active at least a whole second before `now`, or dangling, the
      zero time itself being a whole second before `now`), `Create`
      succeeds, puts the new id at the head, and leaves at most
      `MaxSessions` ids, the new one readable. */
  lemma CreateKeepsCap(st: StoreState, s: Session, now: Instant)
    requires st.Healthy() && UnixSeconds(ZeroTime) < UnixSeconds(now)
    requires st.space.ListAt(SessionsKey(s.userId), now).Some?
    requires var xs := st.space.ListAt(SessionsKey(s.userId), now).value;
      forall i | 0 <= i < |xs| :: Stale(st.space, xs[i], now)
    requires st.space.HashAt(SessionKey(s.id), now).Some?
    ensures CreateSpec(st, s, now).0 == Pass
    ensures CreateSpec(st, s, now).1.space.ListAt(SessionsKey(s.userId), now).Some?
    ensures var xs := st.space.ListAt(SessionsKey(s.userId), now).value;
      var ys := CreateSpec(st, s, now).1.space.ListAt(SessionsKey(s.userId), now).value;
      |ys| == (if |xs| < MaxSessions then |xs| + 1 else MaxSessions) && ys[0] == s.id
    ensures FetchSpec(CreateSpec(st, s, now).1, s.id, now).0 == Ok(s)
  {
    var lk := SessionsKey(s.userId);
    var xs := st.space.ListAt(lk, now).value;
    AllStaleIndex(st.space, xs, now);
    EvictStale(st, s.userId, |xs|, now);
    EvictPrunes(st, s.userId, |xs|, now);
    var st1 := Evict(st, s.userId, |xs|, now).1;
    SessionKeysInjectiveAndDisjoint(s.id, s.userId);
    PrunedKeeps(st.space, st1.space, s.userId, now);
    InsertEffectFor(st1, s, now);
  }

  /** At the cap, when every listed session was last active a whole second
      or more before `now`, `Create` evicts exactly one session: the least
      recently active one, the first of them when several share its second.
      The list becomes the new id followed by the others in their order, the
      evicted record is gone unless it is the new session's own, the new
      session reads back, and no other key changes. */
  lemma CreateEvictsOldest(st: StoreState, s: Session, ts: seq<Instant>, now: Instant)
    requires st.Healthy() && st.space.ListAt(SessionsKey(s.userId), now).Some?
    requires var xs := st.space.ListAt(SessionsKey(s.userId), now).value;
      |xs| == MaxSessions && Stamped(st.space, xs, ts, now)
    requires forall i | 0 <= i < |ts| :: UnixSeconds(ts[i]) < UnixSeconds(now)
    requires st.space.HashAt(SessionKey(s.id), now).Some?
    ensures CreateSpec(st, s, now).0 == Pass
    ensures FetchSpec(CreateSpec(st, s, now).1, s.id, now).0 == Ok(s)
    ensures var xs := st.space.ListAt(SessionsKey(s.userId), now).value;
      var sp := CreateSpec(st, s, now).1.space;
      exists j | FirstLeast(ts, j) ::
        && sp.ListAt(SessionsKey(s.userId), now) == Some([s.id] + RemoveFirst(xs, xs[j]))
        && (xs[j] != s.id ==> sp.Lookup(SessionKey(xs[j]), now).None?)
        && SameOutside(st.space, sp, {SessionsKey(s.userId), SessionKey(s.id), SessionKey(xs[j])})
  {
    var lk := SessionsKey(s.userId);
    var xs := st.space.ListAt(lk, now).value;
    assert st.LLen(lk, now) == (Ok(MaxSessions), st);
    var j := EvictAtCapOldest(st, s.userId, ts, now);
    var y: Uuid := xs[j];
    InsertAfterRemoval(st, s, y, now);
    assert CreateSpec(st, s, now) == InsertSpec(StoreState(AfterRemoval(st.space, s.userId, y, now), []), s, now);
  }

  /** The one round of the loop at the cap over stamped sessions older than
      `now`: the first least recently active id `xs[j]` is removed. */
  lemma EvictAtCapOldest(st: StoreState, userId: Uuid, ts: seq<Instant>, now: Instant) returns (j: int)
    requires st.Healthy() && st.space.ListAt(SessionsKey(userId), now).Some?
    requires var xs := st.space.ListAt(SessionsKey(userId), now).value;
      |xs| == MaxSessions && Stamped(st.space, xs, ts, now)
    requires forall i | 0 <= i < |ts| :: UnixSeconds(ts[i]) < UnixSeconds(now)
    ensures FirstLeast(ts, j) && IsUuid(st.space.ListAt(SessionsKey(userId), now).value[j])
    ensures Evict(st, userId, MaxSessions, now) ==
      (Pass, StoreState(AfterRemoval(st.space, userId, st.space.ListAt(SessionsKey(userId), now).value[j], now), []))
  {
    var xs := st.space.ListAt(SessionsKey(userId), now).value;
    assert xs[..MaxSessions] == xs;
    FetchOldestPicks(st, userId, ts, now);
    assert UnixSeconds(ts[0]) < UnixSeconds(now);
    var y: Uuid := FetchOldestSpec(st, userId, now).0.value;
    j :| FirstLeast(ts, j) && y == xs[j];
    RemoveAndDelete(st, userId, y, now);
    var st1 := StoreState(AfterRemoval(st.space, userId, y, now), []);
    assert EvictRound(st, userId, now) == (Pass, st1);
    EvictStep(st, userId, MaxSessions, now);
  }

  /** After one round removed `y`, the insert puts the new id at the head of
      what is left, and only the list, the new record and the record of `y`
      differ from before the round. */
  lemma InsertAfterRemoval(st: StoreState, s: Session, y: Uuid, now: Instant)
    requires st.Healthy() && st.space.ListAt(SessionsKey(s.userId), now).Some?
    requires st.space.HashAt(SessionKey(s.id), now).Some?
    ensures var st1 := StoreState(AfterRemoval(st.space, s.userId, y, now), []);
      var xs := st.space.ListAt(SessionsKey(s.userId), now).value;
      var (o, st2) := InsertSpec(st1, s, now);
      && o == Pass && FetchSpec(st2, s.id, now).0 == Ok(s)
      && st2.space.ListAt(SessionsKey(s.userId), now) == Some([s.id] + RemoveFirst(xs, y))
      && (y != s.id ==> st2.space.Lookup(SessionKey(y), now).None?)
      && SameOutside(st.space, st2.space, {SessionsKey(s.userId), SessionKey(s.id), SessionKey(y)})
  {
    var lk := SessionsKey(s.userId);
    RemovalKeepsRecord(st, s, y, now);
    var st1 := StoreState(AfterRemoval(st.space, s.userId, y, now), []);
    InsertEffectFor(st1, s, now);
    SessionProperties.InsertEffect(st1, s, now);
    var sp := InsertSpec(st1, s, now).1.space;
    SameOutsideTrans(st.space, st1.space, sp, {lk, SessionKey(y)}, {SessionKey(s.id), lk});
    assert {lk, SessionKey(y)} + {SessionKey(s.id), lk} == {lk, SessionKey(s.id), SessionKey(y)};
    if y != s.id {
      SessionKeysInjectiveAndDisjoint(s.id, y);
      assert Agree(st1.space, sp, SessionKey(y));
    }
  }

  /** The removal of `y` keeps the new session's record key a hash (or
      absent), and leaves the record of `y` absent. */
  lemma RemovalKeepsRecord(st: StoreState, s: Session, y: Uuid, now: Instant)
    requires st.Healthy() && st.space.ListAt(SessionsKey(s.userId), now).Some?
    requires st.space.HashAt(SessionKey(s.id), now).Some?
    ensures var sp1 := AfterRemoval(st.space, s.userId, y, now);
      && sp1.HashAt(SessionKey(s.id), now).Some?
      && sp1.ListAt(SessionsKey(s.userId), now) == Some(RemoveFirst(st.space.ListAt(SessionsKey(s.userId), now).value, y))
      && sp1.Lookup(SessionKey(y), now).None?
      && SameOutside(st.space, sp1, {SessionsKey(s.userId), SessionKey(y)})
  {
    var lk := SessionsKey(s.userId);
    RemoveAndDelete(st, s.userId, y, now);
    SessionKeysInjectiveAndDisjoint(s.id, s.userId);
    PrunedKeeps(st.space, AfterRemoval(st.space, s.userId, y, now), s.userId, now);
    DeleteWrites(st.space.LRemItem(lk, y, now), {SessionKey(y)}, now);
  }

  /** At the cap, when some listed record has no `last_activity` and every
      stamp is after the zero time, `Create` evicts the first such id: its
      list entry goes, every record without `last_activity` is deleted, the
      new session reads back at the head, and no other key changes. */
  lemma CreateEvictsDangling(st: StoreState, s: Session, j: int, now: Instant)
    requires st.Healthy() && st.space.ListAt(SessionsKey(s.userId), now).Some?
    requires var xs := st.space.ListAt(SessionsKey(s.userId), now).value;
      |xs| == MaxSessions && StampedOrBare(st.space, xs, now) && FirstBare(st.space, xs, j, now)
    requires UnixSeconds(ZeroTime) < UnixSeconds(now)
    requires st.space.HashAt(SessionKey(s.id), now).Some?
    ensures CreateSpec(st, s, now).0 == Pass
    ensures FetchSpec(CreateSpec(st, s, now).1, s.id, now).0 == Ok(s)
    ensures var xs := st.space.ListAt(SessionsKey(s.userId), now).value;
      var sp := CreateSpec(st, s, now).1.space;
      && sp.ListAt(SessionsKey(s.userId), now) == Some([s.id] + RemoveFirst(xs, xs[j]))
      && (forall k | k in BareKeys(st.space, xs, now) && k != SessionKey(s.id) :: sp.Lookup(k, now).None?)
      && SameOutside(st.space, sp, {SessionsKey(s.userId), SessionKey(s.id)} + BareKeys(st.space, xs, now))
  {
    var lk := SessionsKey(s.userId);
    var key := SessionKey(s.id);
    var xs := st.space.ListAt(lk, now).value;
    var bare := BareKeys(st.space, xs, now);
    var y: Uuid := xs[j];
    assert st.LLen(lk, now) == (Ok(MaxSessions), st);
    EvictAtCapDangling(st, s.userId, j, now);
    var st0 := StoreState(st.space.Delete(bare), []);
    DeleteFrame(st.space, bare);
    DeleteWrites(st.space, bare, now);
    if key !in bare {
      AgreeReads(st.space, st0.space, key, now);
    }
    InsertAfterRemoval(st0, s, y, now);
    var sp := InsertSpec(StoreState(AfterRemoval(st0.space, s.userId, y, now), []), s, now).1.space;
    assert CreateSpec(st, s, now).1.space == sp;
    SameOutsideTrans(st.space, st0.space, sp, bare, {lk, key, SessionKey(y)});
    assert SessionKey(y) in bare;
    assert bare + {lk, key, SessionKey(y)} == {lk, key} + bare;
    forall k | k in bare && k != key
      ensures sp.Lookup(k, now).None?
    {
      if k != SessionKey(y) {
        assert Agree(st0.space, sp, k);
      }
    }
  }

  /** The one round of the loop at the cap when `xs[j]` is the first record
      without `last_activity`: the scan deletes every such record and the
      round then removes `xs[j]`; the user's list is untouched until then. */
  lemma EvictAtCapDangling(st: StoreState, userId: Uuid, j: int, now: Instant)
    requires st.Healthy() && st.space.ListAt(SessionsKey(userId), now).Some?
    requires var xs := st.space.ListAt(SessionsKey(userId), now).value;
      |xs| == MaxSessions && StampedOrBare(st.space, xs, now) && FirstBare(st.space, xs, j, now)
    requires UnixSeconds(ZeroTime) < UnixSeconds(now)
    ensures var xs := st.space.ListAt(SessionsKey(userId), now).value;
      var sp0 := st.space.Delete(BareKeys(st.space, xs, now));
      && sp0.ListAt(SessionsKey(userId), now) == Some(xs)
      && Evict(st, userId, MaxSessions, now) == (Pass, StoreState(AfterRemoval(sp0, userId, xs[j], now), []))
  {
    var lk := SessionsKey(userId);
    var xs := st.space.ListAt(lk, now).value;
    var bare := BareKeys(st.space, xs, now);
    assert xs[..MaxSessions] == xs;
    FetchOldestPicksBare(st, userId, j, now);
    var y: Uuid := xs[j];
    var st0 := StoreState(st.space.Delete(bare), []);
    DeleteFrame(st.space, bare);
    forall i | 0 <= i < |xs| && Bare(st.space, xs[i], now)
      ensures SessionsKeyBase + xs[i] != lk
    {
      SessionKeysInjectiveAndDisjoint(xs[i], userId);
    }
    assert lk !in bare;
    AgreeReads(st.space, st0.space, lk, now);
    RemoveAndDelete(st0, userId, y, now);
    var st1 := StoreState(AfterRemoval(st0.space, userId, y, now), []);
    assert EvictRound(st, userId, now) == (Pass, st1);
    EvictStep(st, userId, MaxSessions, now);
  }

  /** `Create`'s insert on a healthy server, from `SessionProperties`
      restated here for the keys it touches. */
  lemma InsertEffectFor(st: StoreState, s: Session, now: Instant)
    requires st.Healthy()
    requires st.space.HashAt(SessionKey(s.id), now).Some?
    requires st.space.ListAt(SessionsKey(s.userId), now).Some?
    ensures var (o, st1) := InsertSpec(st, s, now);
      && o == Pass
      && st1.space.ListAt(SessionsKey(s.userId), now) == Some([s.id] + st.space.ListAt(SessionsKey(s.userId), now).value)
      && FetchSpec(st1, s.id, now).0 == Ok(s)
  {
    SessionProperties.InsertEffect(st, s, now);
    var st1 := InsertSpec(st, s, now).1;
    SessionProperties.FetchOutcomes(st1, s.id, s, now);
  }

  // ---------------------------------------------------------------------
  // When the cap is exceeded

  /** A listed id that the scan never prefers to the `now` baseline: a
      canonical id other than `uuid.Nil` whose record was last active in the
      current whole second (or later). */
  predicate Recent(sp: Space, x: string, now: Instant) {
    && IsUuid(x) && x != NilUuid
    && sp.HashAt(SessionKey(x), now).Some?
    && "last_activity" in sp.HashAt(SessionKey(x), now).value
    && sp.HashAt(SessionKey(x), now).value["last_activity"].Stamp?
    && UnixSeconds(now) <= UnixSeconds(sp.HashAt(SessionKey(x), now).value["last_activity"].at)
  }

  lemma {:induction false} ScanRecent(st: StoreState, ids: seq<string>, now: Instant)
    requires st.Healthy()
    requires forall i | 0 <= i < |ids| :: Recent(st.space, ids[i], now)
    ensures ScanOldest(st, ids, now, NilUuid, now) == (Ok(NilUuid), st)
    decreases |ids|
  {
    if ids != [] {
      var id: Uuid := ids[0];
      assert ParseUuid(ids[0]) == Some(id);
      assert ReadActivity(st, id, now).1 == st;
      forall i | 0 <= i < |ids[1..]|
        ensures Recent(st.space, ids[1..][i], now)
      {
        assert ids[1..][i] == ids[i + 1];
      }
      ScanRecent(st, ids[1..], now);
    }
  }

  /** When the first `MaxSessions` listed ids are recent and `uuid.Nil` is
      not listed, a round finds no candidate, removes nothing from the list
      and only deletes the record key of `uuid.Nil`. */
  lemma RoundRecent(st: StoreState, userId: Uuid, now: Instant)
    requires st.Healthy()
    requires st.space.ListAt(SessionsKey(userId), now).Some?
    requires var xs := st.space.ListAt(SessionsKey(userId), now).value;
      && xs != [] && NilUuid !in xs
      && forall i | 0 <= i < |xs| && i < MaxSessions :: Recent(st.space, xs[i], now)
    ensures EvictRound(st, userId, now) == (Pass, StoreState(st.space.Delete({SessionKey(NilUuid)}), []))
  {
    var lk := SessionsKey(userId);
    FetchOldestRecent(st, userId, now);
    LRemAbsent(st.space, lk, NilUuid, now);
    assert st.LRem(lk, NilUuid, now) == (Pass, st);
  }

  lemma FetchOldestRecent(st: StoreState, userId: Uuid, now: Instant)
    requires st.Healthy()
    requires st.space.ListAt(SessionsKey(userId), now).Some?
    requires var xs := st.space.ListAt(SessionsKey(userId), now).value;
      forall i | 0 <= i < |xs| && i < MaxSessions :: Recent(st.space, xs[i], now)
    ensures FetchOldestSpec(st, userId, now) == (Ok(NilUuid), st)
  {
    var xs := st.space.ListAt(SessionsKey(userId), now).value;
    var ids := if |xs| <= MaxSessions - 1 then xs else xs[..MaxSessions];
    forall i | 0 <= i < |ids|
      ensures Recent(st.space, ids[i], now)
    {
      assert ids[i] == xs[i];
    }
    ScanRecent(st, ids, now);
  }

  /** LREM of an id that is not listed changes nothing. */
  lemma LRemAbsent(sp: Space, key: string, x: string, now: Instant)
    requires sp.ListAt(key, now).Some? && sp.ListAt(key, now).value != []
    requires x !in sp.ListAt(key, now).value
    ensures sp.LRemItem(key, x, now) == sp
  {
    var xs := sp.ListAt(key, now).value;
    assert sp.Live(key, now) && sp.data[key] == List(xs);
    assert sp.data[key := List(xs)] == sp.data;
  }

  /** Deleting the record of `uuid.Nil` keeps every listed recent id recent
      and the user's list as it was. */
  lemma NilDeleteKeeps(sp: Space, userId: Uuid, now: Instant)
    ensures forall x | Recent(sp, x, now) :: Recent(sp.Delete({SessionKey(NilUuid)}), x, now)
    ensures sp.Delete({SessionKey(NilUuid)}).ListAt(SessionsKey(userId), now) == sp.ListAt(SessionsKey(userId), now)
    ensures sp.Delete({SessionKey(NilUuid)}).Delete({SessionKey(NilUuid)}) == sp.Delete({SessionKey(NilUuid)})
  {
    var d := sp.Delete({SessionKey(NilUuid)});
    DeleteFrame(sp, {SessionKey(NilUuid)});
    forall x | Recent(sp, x, now)
      ensures Recent(d, x, now)
    {
      SessionKeysInjectiveAndDisjoint(x, NilUuid);
      assert Agree(sp, d, SessionKey(x));
      AgreeReads(sp, d, SessionKey(x), now);
    }
    SessionKeysInjectiveAndDisjoint(NilUuid, userId);
    assert Agree(sp, d, SessionsKey(userId));
    AgreeReads(sp, d, SessionsKey(userId), now);
    assert d.Delete({SessionKey(NilUuid)}).data == d.data;
    assert d.Delete({SessionKey(NilUuid)}).expiry == d.expiry;
  }

  lemma RecentAfterRound(st: StoreState, userId: Uuid, now: Instant)
    requires st.space.ListAt(SessionsKey(userId), now).Some?
    requires var xs := st.space.ListAt(SessionsKey(userId), now).value;
      forall i | 0 <= i < |xs| && i < MaxSessions :: Recent(st.space, xs[i], now)
    ensures var d := st.space.Delete({SessionKey(NilUuid)});
      && d.ListAt(SessionsKey(userId), now) == st.space.ListAt(SessionsKey(userId), now)
      && d.Delete({SessionKey(NilUuid)}) == d
      && var xs := st.space.ListAt(SessionsKey(userId), now).value;
      && forall i | 0 <= i < |xs| && i < MaxSessions :: Recent(d, xs[i], now)
  {
    var xs := st.space.ListAt(SessionsKey(userId), now).value;
    NilDeleteKeeps(st.space, userId, now);
    forall i | 0 <= i < |xs| && i < MaxSessions
      ensures Recent(st.space.Delete({SessionKey(NilUuid)}), xs[i], now)
    {
      assert Recent(st.space, xs[i], now);
    }
  }

  /** Once a round changes nothing, neither do the remaining rounds. */
  lemma {:induction false} EvictFixed(st: StoreState, userId: Uuid, count: int, now: Instant)
    requires EvictRound(st, userId, now) == (Pass, st)
    ensures Evict(st, userId, count, now) == (Pass, st)
    decreases count
  {
    if count >= MaxSessions {
      var round := EvictRound(st, userId, now);
      assert round.0 == Pass && round.1 == st;
      assert Evict(st, userId, count, now) == Evict(st, userId, count - 1, now);
      EvictFixed(st, userId, count - 1, now);
    }
  }

  lemma EvictSettles(st: StoreState, st1: StoreState, userId: Uuid, count: int, now: Instant)
    requires count >= MaxSessions
    requires EvictRound(st, userId, now) == (Pass, st1) && EvictRound(st1, userId, now) == (Pass, st1)
    ensures Evict(st, userId, count, now) == (Pass, st1)
  {
    var round := EvictRound(st, userId, now);
    assert round.0 == Pass && round.1 == st1;
    assert Evict(st, userId, count, now) == Evict(st1, userId, count - 1, now);
    EvictFixed(st1, userId, count - 1, now);
  }

  /** Under the same conditions every round of the loop is such a round: the
      loop ends with the list unchanged. */
  lemma EvictRecent(st: StoreState, userId: Uuid, count: int, now: Instant)
    requires st.Healthy()
    requires st.space.ListAt(SessionsKey(userId), now).Some?
    requires var xs := st.space.ListAt(SessionsKey(userId), now).value;
      && xs != [] && NilUuid !in xs
      && forall i | 0 <= i < |xs| && i < MaxSessions :: Recent(st.space, xs[i], now)
    ensures count < MaxSessions ==> Evict(st, userId, count, now) == (Pass, st)
    ensures count >= MaxSessions ==>
      Evict(st, userId, count, now) == (Pass, StoreState(st.space.Delete({SessionKey(NilUuid)}), []))
  {
    if count >= MaxSessions {
      var st1 := StoreState(st.space.Delete({SessionKey(NilUuid)}), []);
      RoundRecent(st, userId, now);
      assert EvictRound(st1, userId, now) == (Pass, st1) by {
        RecentAfterRound(st, userId, now);
        RoundRecent(st1, userId, now);
        assert StoreState(st1.space.Delete({SessionKey(NilUuid)}), []) == st1;
      }
      EvictSettles(st, st1, userId, count, now);
    }
  }

  /** The cap is exceeded: on a healthy server whose list already holds
      `MaxSessions` or more ids, none of them `uuid.Nil`, and whose first
      `MaxSessions` sessions were active in the current second, `Create`
      evicts nothing and leaves one id more than before, so more than
      `MaxSessions`. */
  lemma CreateExceedsCap(st: StoreState, s: Session, now: Instant)
    requires st.Healthy()
    requires st.space.ListAt(SessionsKey(s.userId), now).Some?
    requires var xs := st.space.ListAt(SessionsKey(s.userId), now).value;
      && |xs| >= MaxSessions && NilUuid !in xs
      && forall i | 0 <= i < MaxSessions :: Recent(st.space, xs[i], now)
    requires st.space.HashAt(SessionKey(s.id), now).Some?
    ensures var xs := st.space.ListAt(SessionsKey(s.userId), now).value;
      var (o, st1) := CreateSpec(st, s, now);
      && o == Pass
      && st1.space.ListAt(SessionsKey(s.userId), now) == Some([s.id] + xs)
      && |[s.id] + xs| > MaxSessions
  {
    var lk := SessionsKey(s.userId);
    var xs := st.space.ListAt(lk, now).value;
    EvictRecent(st, s.userId, |xs|, now);
    NilDeleteKeeps(st.space, s.userId, now);
    var d := st.space.Delete({SessionKey(NilUuid)});
    DeleteFrame(st.space, {SessionKey(NilUuid)});
    if s.id != NilUuid {
      SessionKeysInjectiveAndDisjoint(s.id, NilUuid);
      assert Agree(st.space, d, SessionKey(s.id));
      AgreeReads(st.space, d, SessionKey(s.id), now);
    }
    InsertEffectFor(StoreState(d, []), s, now);
  }
}
