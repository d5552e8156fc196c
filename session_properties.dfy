/** What the session store promises: reading back what was written, the
    error mapping of `Fetch` and `Delete`, the effect of `Create`'s insert and
    of `Update`, and the life cycle its test walks through. */
module SessionProperties {
  import opened Results
  import opened Uuids
  import opened Clock
  import opened SessionModel
  import opened KeyValue
  import opened SessionService
  import opened SessionRepository

  /** Decoding a hash that holds the five fields of `s` gives back `s`,
      whatever other fields it holds. */
  lemma ScanReadsBack(m: map<string, Field>, s: Session)
    requires HoldsSession(m, s)
    ensures ScanSession(m) == Ok(s)
  {
    assert ParseUuid(s.id) == Some(s.id) && ParseUuid(s.userId) == Some(s.userId);
  }

  /** `Fetch` passes a transport failure through, reports an absent, expired
      or empty record as `ErrSessionIsNotExists`, decodes a record that holds
      a session, and changes nothing on the server. */
  lemma FetchOutcomes(st: StoreState, id: Uuid, s: Session, now: Instant)
    ensures FetchSpec(st, id, now).1 == st.Tick()
    ensures st.NextFails() ==> FetchSpec(st, id, now).0 == Err(StoreFailure)
    ensures !st.NextFails() && st.space.HashAt(SessionKey(id), now) == Some(map[]) ==>
      FetchSpec(st, id, now).0 == Err(SessionNotExists)
    ensures (!st.NextFails() && st.space.HashAt(SessionKey(id), now).Some? &&
             HoldsSession(st.space.HashAt(SessionKey(id), now).value, s)) ==> FetchSpec(st, id, now).0 == Ok(s)
  {
    if st.space.HashAt(SessionKey(id), now).Some? && HoldsSession(st.space.HashAt(SessionKey(id), now).value, s) {
      ScanReadsBack(st.space.HashAt(SessionKey(id), now).value, s);
    }
  }

  /** On a healthy server, `Create`'s insert succeeds whenever the record key
      holds a hash or nothing and the list key a list or nothing: the record
      holds the session, the id is at the head of the list, both carry the
      session TTL, and no other key changes. */
  lemma InsertEffect(st: StoreState, s: Session, now: Instant)
    requires st.Healthy()
    requires st.space.HashAt(SessionKey(s.id), now).Some?
    requires st.space.ListAt(SessionsKey(s.userId), now).Some?
    ensures var (o, st1) := InsertSpec(st, s, now);
      var key := SessionKey(s.id);
      var lk := SessionsKey(s.userId);
      && o == Pass && st1.Healthy()
      && st1.space.HashAt(key, now).Some? && HoldsSession(st1.space.HashAt(key, now).value, s)
      && st1.space.ListAt(lk, now) == Some([s.id] + st.space.ListAt(lk, now).value)
      && key in st1.space.expiry && st1.space.expiry[key] == now + SessionTTL
      && lk in st1.space.expiry && st1.space.expiry[lk] == now + SessionTTL
      && SameOutside(st.space, st1.space, {key, lk})
  {
    var key := SessionKey(s.id);
    var lk := SessionsKey(s.userId);
    SessionKeysInjectiveAndDisjoint(s.id, s.userId);
    var m := Assigned(st.space.HashAt(key, now).value, FieldWrites(s));
    HSetHealthy(st, s, now);
    var sp1 := st.space.Put(key, Hash(m), now);
    PutFrame(st.space, key, Hash(m), now);
    PutWrites(st.space, key, Hash(m), now);
    var sp2 := sp1.ExpireAt(key, SessionTTL, now);
    ExpireFrame(sp1, key, SessionTTL, now);
    ExpireWrites(sp1, key, SessionTTL, now);
    SameOutsideTrans(st.space, sp1, sp2, {key}, {key});
    assert Agree(st.space, sp2, lk);
    AgreeReads(st.space, sp2, lk, now);
    var sp3 := sp2.LPushItem(lk, s.id, now);
    LPushWrites(sp2, lk, s.id, now);
    assert sp3 == sp2.Put(lk, List([s.id] + sp2.ListAt(lk, now).value), now);
    PutFrame(sp2, lk, List([s.id] + sp2.ListAt(lk, now).value), now);
    assert Agree(sp2, sp3, key);
    AgreeReads(sp2, sp3, key, now);
    var sp4 := sp3.ExpireAt(lk, SessionTTL, now);
    ExpireFrame(sp3, lk, SessionTTL, now);
    ExpireWrites(sp3, lk, SessionTTL, now);
    assert Agree(sp3, sp4, key);
    AgreeReads(sp3, sp4, key, now);
    SameOutsideTrans(st.space, sp2, sp3, {key}, {lk});
    SameOutsideTrans(st.space, sp3, sp4, {key, lk}, {lk});
    assert {key, lk} + {lk} == {key, lk};
  }

  /** On a healthy server, `Update` succeeds whenever the record key holds a
      hash or nothing, leaves the record holding the session with a fresh
      TTL, refreshes the list's TTL, and leaves every list's contents and
      every other key as they were: it never checks that the session still
      exists, so it recreates a deleted record. */
  lemma UpdateEffect(st: StoreState, s: Session, now: Instant)
    requires st.Healthy()
    requires st.space.HashAt(SessionKey(s.id), now).Some?
    ensures var (o, st1) := UpdateSpec(st, s, now);
      var key := SessionKey(s.id);
      var lk := SessionsKey(s.userId);
      && o == Pass && st1.Healthy()
      && st1.space.HashAt(key, now).Some? && HoldsSession(st1.space.HashAt(key, now).value, s)
      && key in st1.space.expiry && st1.space.expiry[key] == now + SessionTTL
      && (st.space.Live(lk, now) ==> lk in st1.space.expiry && st1.space.expiry[lk] == now + SessionTTL)
      && (forall u: Uuid :: st1.space.ListAt(SessionsKey(u), now) == st.space.ListAt(SessionsKey(u), now))
      && SameOutside(st.space, st1.space, {key, lk})
  {
    var key := SessionKey(s.id);
    var lk := SessionsKey(s.userId);
    SessionKeysInjectiveAndDisjoint(s.id, s.userId);
    var m := Assigned(st.space.HashAt(key, now).value, FieldWrites(s));
    HSetHealthy(st, s, now);
    var sp1 := st.space.Put(key, Hash(m), now);
    PutFrame(st.space, key, Hash(m), now);
    PutWrites(st.space, key, Hash(m), now);
    var sp2 := sp1.ExpireAt(key, SessionTTL, now);
    ExpireFrame(sp1, key, SessionTTL, now);
    ExpireWrites(sp1, key, SessionTTL, now);
    SameOutsideTrans(st.space, sp1, sp2, {key}, {key});
    assert Agree(st.space, sp2, lk);
    var sp3 := sp2.ExpireAt(lk, SessionTTL, now);
    ExpireFrame(sp2, lk, SessionTTL, now);
    ExpireWrites(sp2, lk, SessionTTL, now);
    assert Agree(sp2, sp3, key);
    AgreeReads(sp2, sp3, key, now);
    SameOutsideTrans(st.space, sp2, sp3, {key}, {lk});
    forall u: Uuid
      ensures sp3.ListAt(SessionsKey(u), now) == st.space.ListAt(SessionsKey(u), now)
    {
      SessionKeysInjectiveAndDisjoint(s.id, u);
      assert Agree(st.space, sp2, SessionsKey(u));
      AgreeReads(st.space, sp2, SessionsKey(u), now);
      if SessionsKey(u) != lk {
        assert Agree(sp2, sp3, SessionsKey(u));
        AgreeReads(sp2, sp3, SessionsKey(u), now);
      }
    }
  }

  /** `Delete` reports every failure of its inner `Fetch`, a transport
      failure included, as `ErrSessionIsNotExists`, and then changes nothing
      beyond what that `Fetch` consumed. */
  lemma DeleteMapsFetchErrors(st: StoreState, id: Uuid, now: Instant)
    requires FetchSpec(st, id, now).0.Err?
    ensures DeleteSpec(st, id, now) == (Fail(SessionNotExists), st.Tick())
  {
    FetchOutcomes(st, id, Session(id, id, "", 0, 0), now);
  }

  /** Once `Fetch` has found `s`, `Delete` is LREM then DEL. */
  lemma DeleteAfterFetch(st: StoreState, s: Session, now: Instant)
    requires FetchSpec(st, s.id, now) == (Ok(s), st)
    ensures DeleteSpec(st, s.id, now) ==
      var (o, st2) := st.LRem(SessionsKey(s.userId), s.id, now);
      if o.Fail? then (o, st2) else st2.Del({SessionKey(s.id)})
  {
  }

  /** On a healthy server, deleting a stored session removes one occurrence
      of its id from its user's list and its record, and nothing else. */
  lemma DeleteEffect(st: StoreState, s: Session, now: Instant)
    requires st.Healthy()
    requires st.space.HashAt(SessionKey(s.id), now).Some?
    requires HoldsSession(st.space.HashAt(SessionKey(s.id), now).value, s)
    requires st.space.ListAt(SessionsKey(s.userId), now).Some?
    ensures DeleteSpec(st, s.id, now).0 == Pass && DeleteSpec(st, s.id, now).1.Healthy()
    ensures DeleteSpec(st, s.id, now).1.space.Lookup(SessionKey(s.id), now).None?
    ensures DeleteSpec(st, s.id, now).1.space.ListAt(SessionsKey(s.userId), now) ==
      Some(RemoveFirst(st.space.ListAt(SessionsKey(s.userId), now).value, s.id))
    ensures SameOutside(st.space, DeleteSpec(st, s.id, now).1.space, {SessionKey(s.id), SessionsKey(s.userId)})
  {
    var key := SessionKey(s.id);
    var lk := SessionsKey(s.userId);
    SessionKeysInjectiveAndDisjoint(s.id, s.userId);
    FetchOutcomes(st, s.id, s, now);
    DeleteAfterFetch(st, s, now);
    HealthyLRem(st, lk, s.id, now);
    var st1 := StoreState(st.space.LRemItem(lk, s.id, now), []);
    HealthyDel(st1, {key}, now);
    var sp2 := st1.space.Delete({key});
    assert Agree(st1.space, sp2, lk);
    AgreeReads(st1.space, sp2, lk, now);
    SameOutsideTrans(st.space, st1.space, sp2, {lk}, {key});
  }

  /** `FetchAll`'s loop on a healthy server changes nothing; it succeeds only
      with one session per id, and every listed id whose record is absent
      makes it fail with `ErrSessionIsNotExists` unless an earlier id failed:
      the dangling-id cleanup in the source is never reached. */
  lemma {:induction false} FetchEachOutcomes(st: StoreState, ids: seq<string>, now: Instant, acc: seq<Session>)
    requires st.Healthy()
    ensures var (r, st1) := FetchEach(st, ids, now, acc);
      && st1 == st
      && (r.Ok? ==> |r.value| == |acc| + |ids|)
      && (forall i | 0 <= i < |ids| && IsUuid(ids[i]) && st.space.HashAt(SessionKey(ids[i]), now) == Some(map[]) :: r.Err?)
    decreases |ids|
  {
    if ids != [] {
      match ParseUuid(ids[0])
      case None =>
      case Some(id) =>
        FetchOutcomes(st, id, Session(id, id, "", 0, 0), now);
        var (r, st1) := FetchSpec(st, id, now);
        if r.Ok? {
          FetchEachOutcomes(st, ids[1..], now, acc + [r.value]);
          forall i | 0 <= i < |ids| && IsUuid(ids[i]) && st.space.HashAt(SessionKey(ids[i]), now) == Some(map[])
            ensures FetchEach(st, ids, now, acc).0.Err?
          {
            if i > 0 {
              assert ids[1..][i - 1] == ids[i];
            }
          }
        }
    }
  }

  /** `FetchAll` reads the first `MaxSessions` ids of the list; on a healthy
      server a success has one session per listed id (at most five), and a
      dangling id among them makes it fail. */
  lemma FetchAllOutcomes(st: StoreState, userId: Uuid, now: Instant)
    requires st.Healthy()
    requires st.space.ListAt(SessionsKey(userId), now).Some?
    ensures var xs := st.space.ListAt(SessionsKey(userId), now).value;
      var ids := if |xs| <= MaxSessions - 1 then xs else xs[..MaxSessions];
      var (r, st1) := FetchAllSpec(st, userId, now);
      && st1 == st
      && (r.Ok? ==> |r.value| == |ids| <= MaxSessions)
      && (forall i | 0 <= i < |ids| && IsUuid(ids[i]) && st.space.HashAt(SessionKey(ids[i]), now) == Some(map[]) :: r.Err?)
  {
    var xs := st.space.ListAt(SessionsKey(userId), now).value;
    var ids := if |xs| <= MaxSessions - 1 then xs else xs[..MaxSessions];
    FetchEachOutcomes(st, ids, now, []);
  }

  /** On a healthy server, a list that names only `s`, whose record holds
      `s`, makes `FetchAll` return exactly `[s]`. */
  lemma FetchAllSingle(st: StoreState, userId: Uuid, s: Session, now: Instant)
    requires st.Healthy() && st.space.ListAt(SessionsKey(userId), now) == Some([s.id])
    requires st.space.HashAt(SessionKey(s.id), now).Some?
    requires HoldsSession(st.space.HashAt(SessionKey(s.id), now).value, s)
    ensures FetchAllSpec(st, userId, now) == (Ok([s]), st)
  {
    FetchOutcomes(st, s.id, s, now);
    assert st.Tick() == st && ParseUuid(s.id) == Some(s.id);
    assert st.LRange(SessionsKey(userId), MaxSessions - 1, now) == (Ok([s.id]), st);
    assert [s.id][1..] == [] && [] + [s] == [s];
    assert FetchEach(st, [s.id], now, []) == FetchEach(st, [], now, [s]);
  }

  /** An empty (or absent) list makes `FetchAll` return no sessions. */
  lemma FetchAllNone(st: StoreState, userId: Uuid, now: Instant)
    requires st.Healthy() && st.space.ListAt(SessionsKey(userId), now) == Some([])
    ensures FetchAllSpec(st, userId, now) == (Ok([]), st)
  {
  }

  /** The life cycle of one session on a server that starts out empty and
      healthy, every call made at the same instant `now`: nothing is found
      before `Create`; after it `Fetch` returns the session and `FetchAll`
      returns it alone; after `UpdateActivity` and `Update`, `Fetch` returns
      the updated session; after `Delete`, `Fetch` fails with
      `ErrSessionIsNotExists` and `FetchAll` is empty again. */
  lemma LifeCycle(s: Session, t: Instant, now: Instant)
    ensures var st0 := StoreState(Space(map[], map[]), []);
      && FetchSpec(st0, s.id, now).0 == Err(SessionNotExists)
      && FetchAllSpec(st0, s.userId, now).0 == Ok([])
      && var (o1, st1) := CreateSpec(st0, s, now);
      && o1 == Pass
      && FetchSpec(st1, s.id, now).0 == Ok(s)
      && FetchAllSpec(st1, s.userId, now).0 == Ok([s])
      && var s2 := UpdateActivity(s, t);
      && var (o2, st2) := UpdateSpec(st1, s2, now);
      && o2 == Pass
      && FetchSpec(st2, s.id, now).0 == Ok(s2)
      && var (o3, st3) := DeleteSpec(st2, s.id, now);
      && o3 == Pass
      && FetchSpec(st3, s.id, now).0 == Err(SessionNotExists)
      && FetchAllSpec(st3, s.userId, now).0 == Ok([])
  {
    var st0 := StoreState(Space(map[], map[]), []);
    var key := SessionKey(s.id);
    var lk := SessionsKey(s.userId);
    FetchOutcomes(st0, s.id, s, now);
    FetchAllNone(st0, s.userId, now);
    assert CreateSpec(st0, s, now) == InsertSpec(st0, s, now);
    InsertEffect(st0, s, now);
    var st1 := CreateSpec(st0, s, now).1;
    assert st0.space.ListAt(lk, now) == Some([]) && [s.id] + [] == [s.id];
    assert st1.space.ListAt(lk, now) == Some([s.id]);
    FetchOutcomes(st1, s.id, s, now);
    FetchAllSingle(st1, s.userId, s, now);
    var s2 := UpdateActivity(s, t);
    UpdateEffect(st1, s2, now);
    var st2 := UpdateSpec(st1, s2, now).1;
    FetchOutcomes(st2, s.id, s2, now);
    assert st2.space.ListAt(lk, now) == Some([s.id]);
    DeleteEffect(st2, s2, now);
    var st3 := DeleteSpec(st2, s.id, now).1;
    assert RemoveFirst([s.id], s.id) == [];
    assert st3.space.HashAt(key, now) == Some(map[]);
    FetchOutcomes(st3, s.id, s, now);
    FetchAllNone(st3, s.userId, now);
  }
}
