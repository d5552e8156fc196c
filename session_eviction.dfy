/** `Create`'s eviction loop and the scan it relies on
    (src/internal/session/repository.go): how many rounds it runs, what one
    round touches, which id `FetchOldest` picks, and exactly when the
    five-session cap holds after `Create` and when it is exceeded. */
module SessionEviction {
  import opened Results
  import opened Uuids
  import opened Clock
  import opened SessionModel
  import opened KeyValue
  import opened SessionService
  import opened SessionRepository
  import SessionProperties
  import opened SessionStates

  // ---------------------------------------------------------------------
  // Counting rounds

  /** `n` eviction rounds in a row, stopping at the first failure. */
  function Rounds(st: StoreState, userId: Uuid, n: nat, now: Instant): (Outcome, StoreState)
    decreases n
  {
    if n == 0 then (Pass, st)
    else
      var round := EvictRound(st, userId, now);
      if round.0.Fail? then round else Rounds(round.1, userId, n - 1, now)
  }

  /** Below the cap the loop evicts nothing; from `count >= MaxSessions` it
      runs exactly `count - MaxSessions + 1` rounds, whatever each round
      finds, because every pass decrements `count`. */
  lemma {:induction false} EvictRunsRounds(st: StoreState, userId: Uuid, count: int, now: Instant)
    ensures Evict(st, userId, count, now) ==
      Rounds(st, userId, if count < MaxSessions then 0 else count - MaxSessions + 1, now)
    decreases count
  {
    if count >= MaxSessions {
      var round := EvictRound(st, userId, now);
      var n := count - MaxSessions + 1;
      assert Evict(st, userId, count, now) ==
        if round.0.Fail? then round else Evict(round.1, userId, count - 1, now);
      assert Rounds(st, userId, n, now) ==
        if round.0.Fail? then round else Rounds(round.1, userId, n - 1, now);
      if round.0.Pass? {
        EvictRunsRounds(round.1, userId, count - 1, now);
      }
    }
  }

  // ---------------------------------------------------------------------
  // What one round touches

  /** The record keys of the listed ids that parse as UUIDs. */
  function RecordKeys(ids: seq<string>): set<string> {
    set i | 0 <= i < |ids| && IsUuid(ids[i]) :: SessionsKeyBase + ids[i]
  }

  lemma RecordKeysCons(ids: seq<string>)
    requires ids != [] && IsUuid(ids[0])
    ensures RecordKeys(ids) == {SessionsKeyBase + ids[0]} + RecordKeys(ids[1..])
  {
    forall k | k in RecordKeys(ids)
      ensures k in {SessionsKeyBase + ids[0]} + RecordKeys(ids[1..])
    {
      var i :| 0 <= i < |ids| && IsUuid(ids[i]) && k == SessionsKeyBase + ids[i];
      if i > 0 {
        assert ids[1..][i - 1] == ids[i];
      }
    }
    forall k | k in RecordKeys(ids[1..])
      ensures k in RecordKeys(ids)
    {
      var i :| 0 <= i < |ids[1..]| && IsUuid(ids[1..][i]) && k == SessionsKeyBase + ids[1..][i];
      assert ids[i + 1] == ids[1..][i];
    }
  }

  lemma ReadActivityFrame(st: StoreState, id: Uuid, now: Instant)
    ensures SameOutside(st.space, ReadActivity(st, id, now).1.space, {SessionKey(id)})
  {
    DeleteFrame(st.space, {SessionKey(id)});
  }

  /** The scan deletes nothing but records of the ids it reads, and returns
      either its starting candidate or one of those ids. */
  lemma {:induction false} ScanFrame(st: StoreState, ids: seq<string>, now: Instant, oldest: Uuid, least: Instant)
    ensures SameOutside(st.space, ScanOldest(st, ids, now, oldest, least).1.space, RecordKeys(ids))
    ensures ScanOldest(st, ids, now, oldest, least).0.Ok? ==>
      ScanOldest(st, ids, now, oldest, least).0.value == oldest || ScanOldest(st, ids, now, oldest, least).0.value in ids
    ensures st.Healthy() ==> ScanOldest(st, ids, now, oldest, least).1.Healthy()
    decreases |ids|
  {
    if ids != [] {
      match ParseUuid(ids[0])
      case None =>
      case Some(id) =>
        ReadActivityFrame(st, id, now);
        RecordKeysCons(ids);
        var (r, st1) := ReadActivity(st, id, now);
        if r.Ok? {
          var t := r.value;
          if UnixSeconds(t) < UnixSeconds(least) {
            ScanFrame(st1, ids[1..], now, id, t);
          } else {
            ScanFrame(st1, ids[1..], now, oldest, least);
          }
          SameOutsideTrans(st.space, st1.space, ScanOldest(st, ids, now, oldest, least).1.space,
                           {SessionKey(id)}, RecordKeys(ids[1..]));
        }
    }
  }

  /** The ids `FetchOldest` reads: LRANGE 0 `MaxSessions - 1`. */
  function Scanned(xs: seq<string>): (ids: seq<string>)
    ensures |ids| == if |xs| < MaxSessions then |xs| else MaxSessions
    ensures forall i | 0 <= i < |ids| :: ids[i] == xs[i]
  {
    if |xs| <= MaxSessions - 1 then xs else xs[..MaxSessions]
  }

  /** On a healthy server, once `FetchOldest` succeeds the round succeeds
      and changes nothing but the user's list, the records of the ids it
      scanned and the record of the id it evicts, which is `uuid.Nil` or one
      of those scanned ids; the list loses one occurrence of that id. */
  lemma RoundFrame(st: StoreState, userId: Uuid, now: Instant)
    requires st.Healthy() && st.space.ListAt(SessionsKey(userId), now).Some?
    requires FetchOldestSpec(st, userId, now).0.Ok?
    ensures var y := FetchOldestSpec(st, userId, now).0.value;
      y == NilUuid || y in Scanned(st.space.ListAt(SessionsKey(userId), now).value)
    ensures EvictRound(st, userId, now).0 == Pass
    ensures SameOutside(st.space, EvictRound(st, userId, now).1.space,
      {SessionsKey(userId), SessionKey(FetchOldestSpec(st, userId, now).0.value)}
      + RecordKeys(Scanned(st.space.ListAt(SessionsKey(userId), now).value)))
    ensures st.space.Live(SessionsKey(userId), now) ==>
      EvictRound(st, userId, now).1.space.ListAt(SessionsKey(userId), now) ==
      Some(RemoveFirst(st.space.ListAt(SessionsKey(userId), now).value, FetchOldestSpec(st, userId, now).0.value))
  {
    var lk := SessionsKey(userId);
    var xs := st.space.ListAt(lk, now).value;
    var ids := Scanned(xs);
    var st1 := FetchOldestSpec(st, userId, now).1;
    var y := FetchOldestSpec(st, userId, now).0.value;
    ScanFrame(st, ids, now, NilUuid, now);
    forall i | 0 <= i < |ids| && IsUuid(ids[i])
      ensures SessionsKeyBase + ids[i] != lk
    {
      SessionKeysInjectiveAndDisjoint(ids[i], userId);
    }
    assert lk !in RecordKeys(ids);
    assert Agree(st.space, st1.space, lk);
    AgreeReads(st.space, st1.space, lk, now);
    RemoveAndDelete(st1, userId, y, now);
    assert EvictRound(st, userId, now) == (Pass, StoreState(AfterRemoval(st1.space, userId, y, now), []));
    SameOutsideTrans(st.space, st1.space, AfterRemoval(st1.space, userId, y, now), RecordKeys(ids), {lk, SessionKey(y)});
    assert RecordKeys(ids) + {lk, SessionKey(y)} == {lk, SessionKey(y)} + RecordKeys(ids);
  }

  // ---------------------------------------------------------------------
  // Which id FetchOldest picks

  /** The records of `ids` hold the last-activity stamps `ts`. */
  predicate Stamped(sp: Space, ids: seq<string>, ts: seq<Instant>, now: Instant) {
    && |ids| == |ts|
    && forall i | 0 <= i < |ids| ::
         && IsUuid(ids[i])
         && sp.HashAt(SessionKey(ids[i]), now).Some?
         && "last_activity" in sp.HashAt(SessionKey(ids[i]), now).value
         && sp.HashAt(SessionKey(ids[i]), now).value["last_activity"] == Stamp(ts[i])
  }

  /** Position `j` holds the least whole second of `ts` and no earlier
      position holds it too. */
  predicate FirstLeast(ts: seq<Instant>, j: int) {
    && 0 <= j < |ts|
    && (forall i | 0 <= i < |ts| :: UnixSeconds(ts[j]) <= UnixSeconds(ts[i]))
    && (forall i | 0 <= i < j :: UnixSeconds(ts[j]) < UnixSeconds(ts[i]))
  }

  /** The scan reads the first stamped record without touching the server
      and carries on with the candidate it then holds. */
  lemma ScanStep(st: StoreState, ids: seq<string>, ts: seq<Instant>, now: Instant, oldest: Uuid, least: Instant)
    requires st.Healthy() && Stamped(st.space, ids, ts, now) && ids != []
    ensures Stamped(st.space, ids[1..], ts[1..], now)
    ensures ScanOldest(st, ids, now, oldest, least) ==
      if UnixSeconds(ts[0]) < UnixSeconds(least) then ScanOldest(st, ids[1..], now, ids[0], ts[0])
      else ScanOldest(st, ids[1..], now, oldest, least)
  {
    var id: Uuid := ids[0];
    assert ParseUuid(ids[0]) == Some(id);
    assert ReadActivity(st, id, now) == (Ok(ts[0]), st);
    forall i | 0 <= i < |ids| - 1
      ensures ids[1..][i] == ids[i + 1] && ts[1..][i] == ts[i + 1]
    {
    }
  }

  /** Over stamped records the scan changes nothing and returns its starting
      candidate when no stamp is a whole second before `least`, and
      otherwise the first id with the least second. */
  lemma {:induction false} ScanPicksFirstLeast(st: StoreState, ids: seq<string>, ts: seq<Instant>, now: Instant, oldest: Uuid, least: Instant)
    requires st.Healthy() && Stamped(st.space, ids, ts, now)
    ensures ScanOldest(st, ids, now, oldest, least).1 == st
    ensures ScanOldest(st, ids, now, oldest, least).0.Ok?
    ensures (forall i | 0 <= i < |ts| :: UnixSeconds(least) <= UnixSeconds(ts[i])) ==>
      ScanOldest(st, ids, now, oldest, least).0.value == oldest
    ensures (exists i | 0 <= i < |ts| :: UnixSeconds(ts[i]) < UnixSeconds(least)) ==>
      exists j | FirstLeast(ts, j) :: ScanOldest(st, ids, now, oldest, least).0.value == ids[j] && UnixSeconds(ts[j]) < UnixSeconds(least)
    decreases |ids|
  {
    if ids != [] {
      ScanStep(st, ids, ts, now, oldest, least);
      var r := ScanOldest(st, ids, now, oldest, least).0;
      if UnixSeconds(ts[0]) < UnixSeconds(least) {
        ScanPicksFirstLeast(st, ids[1..], ts[1..], now, ids[0], ts[0]);
        HeadTaken(ids, ts, least, r.value);
      } else {
        ScanPicksFirstLeast(st, ids[1..], ts[1..], now, oldest, least);
        HeadSkipped(ids, ts, oldest, least, r.value);
      }
    }
  }

  /** The step of the scan that takes the head as its candidate, on the
      stamps alone. */
  lemma HeadTaken(ids: seq<string>, ts: seq<Instant>, least: Instant, r: string)
    requires |ids| == |ts| > 0 && UnixSeconds(ts[0]) < UnixSeconds(least)
    requires (forall i | 0 <= i < |ts[1..]| :: UnixSeconds(ts[0]) <= UnixSeconds(ts[1..][i])) ==> r == ids[0]
    requires (exists i | 0 <= i < |ts[1..]| :: UnixSeconds(ts[1..][i]) < UnixSeconds(ts[0])) ==>
      exists j | FirstLeast(ts[1..], j) :: r == ids[1..][j] && UnixSeconds(ts[1..][j]) < UnixSeconds(ts[0])
    ensures exists j | FirstLeast(ts, j) :: r == ids[j] && UnixSeconds(ts[j]) < UnixSeconds(least)
  {
    var ts' := ts[1..];
    if forall i | 0 <= i < |ts'| :: UnixSeconds(ts[0]) <= UnixSeconds(ts'[i]) {
      forall i | 0 <= i < |ts|
        ensures UnixSeconds(ts[0]) <= UnixSeconds(ts[i])
      {
        if i > 0 {
          assert ts[i] == ts'[i - 1];
        }
      }
      assert FirstLeast(ts, 0) && r == ids[0];
    } else {
      var j' :| FirstLeast(ts', j') && r == ids[1..][j'] && UnixSeconds(ts'[j']) < UnixSeconds(ts[0]);
      NextFirstLeast(ts, j');
      assert r == ids[j' + 1];
    }
  }

  /** The step of the scan that keeps its candidate, on the stamps alone. */
  lemma HeadSkipped(ids: seq<string>, ts: seq<Instant>, oldest: string, least: Instant, r: string)
    requires |ids| == |ts| > 0 && UnixSeconds(least) <= UnixSeconds(ts[0])
    requires (forall i | 0 <= i < |ts[1..]| :: UnixSeconds(least) <= UnixSeconds(ts[1..][i])) ==> r == oldest
    requires (exists i | 0 <= i < |ts[1..]| :: UnixSeconds(ts[1..][i]) < UnixSeconds(least)) ==>
      exists j | FirstLeast(ts[1..], j) :: r == ids[1..][j] && UnixSeconds(ts[1..][j]) < UnixSeconds(least)
    ensures (forall i | 0 <= i < |ts| :: UnixSeconds(least) <= UnixSeconds(ts[i])) ==> r == oldest
    ensures (exists i | 0 <= i < |ts| :: UnixSeconds(ts[i]) < UnixSeconds(least)) ==>
      exists j | FirstLeast(ts, j) :: r == ids[j] && UnixSeconds(ts[j]) < UnixSeconds(least)
  {
    var ts' := ts[1..];
    if forall i | 0 <= i < |ts| :: UnixSeconds(least) <= UnixSeconds(ts[i]) {
      forall i | 0 <= i < |ts'|
        ensures UnixSeconds(least) <= UnixSeconds(ts'[i])
      {
        assert ts'[i] == ts[i + 1];
      }
    } else {
      var i :| 0 <= i < |ts| && UnixSeconds(ts[i]) < UnixSeconds(least);
      assert i > 0 && ts'[i - 1] == ts[i];
      var j' :| FirstLeast(ts', j') && r == ids[1..][j'] && UnixSeconds(ts'[j']) < UnixSeconds(least);
      NextFirstLeast(ts, j');
      assert r == ids[j' + 1];
    }
  }

  /** A first least position of the tail that is strictly below the head is
      the first least position of the whole. */
  lemma NextFirstLeast(ts: seq<Instant>, j': int)
    requires ts != [] && FirstLeast(ts[1..], j') && UnixSeconds(ts[1..][j']) < UnixSeconds(ts[0])
    ensures FirstLeast(ts, j' + 1)
  {
    forall i | 0 <= i < |ts|
      ensures UnixSeconds(ts[j' + 1]) <= UnixSeconds(ts[i])
    {
      if i > 0 {
        assert ts[i] == ts[1..][i - 1];
      }
    }
    forall i | 0 <= i < j' + 1
      ensures UnixSeconds(ts[j' + 1]) < UnixSeconds(ts[i])
    {
      if i > 0 {
        assert ts[i] == ts[1..][i - 1];
      }
    }
  }

  /** `FetchOldest` reads only the first `MaxSessions` ids. Over stamped
      records it changes nothing, returns `uuid.Nil` exactly when no stamp is
      a whole second before `now`, and otherwise the first of the ids with
      the least second. */
  lemma FetchOldestPicks(st: StoreState, userId: Uuid, ts: seq<Instant>, now: Instant)
    requires st.Healthy() && st.space.ListAt(SessionsKey(userId), now).Some?
    requires var xs := st.space.ListAt(SessionsKey(userId), now).value;
      Stamped(st.space, if |xs| <= MaxSessions - 1 then xs else xs[..MaxSessions], ts, now)
    ensures var xs := st.space.ListAt(SessionsKey(userId), now).value;
      var ids := if |xs| <= MaxSessions - 1 then xs else xs[..MaxSessions];
      var (r, st1) := FetchOldestSpec(st, userId, now);
      && st1 == st && r.Ok?
      && ((forall i | 0 <= i < |ts| :: UnixSeconds(now) <= UnixSeconds(ts[i])) ==> r.value == NilUuid)
      && ((exists i | 0 <= i < |ts| :: UnixSeconds(ts[i]) < UnixSeconds(now)) ==>
            exists j | FirstLeast(ts, j) :: r.value == ids[j] && UnixSeconds(ts[j]) < UnixSeconds(now))
  {
    var xs := st.space.ListAt(SessionsKey(userId), now).value;
    var ids := if |xs| <= MaxSessions - 1 then xs else xs[..MaxSessions];
    ScanPicksFirstLeast(st, ids, ts, now, NilUuid, now);
  }

  /** A listed id whose record lacks `last_activity` (or is gone) reads as
      the zero time after its record is deleted. */
  lemma DanglingReadsAsZero(st: StoreState, id: Uuid, now: Instant)
    requires st.Healthy() && st.space.HashAt(SessionKey(id), now).Some?
    requires "last_activity" !in st.space.HashAt(SessionKey(id), now).value
    ensures ReadActivity(st, id, now) == (Ok(ZeroTime), StoreState(st.space.Delete({SessionKey(id)}), []))
    ensures st.space.Delete({SessionKey(id)}).Lookup(SessionKey(id), now).None?
  {
  }

  /** The record of `id` is a hash without `last_activity`, or is gone. */
  predicate Bare(sp: Space, id: string, now: Instant) {
    sp.HashAt(SessionsKeyBase + id, now).Some? && "last_activity" !in sp.HashAt(SessionsKeyBase + id, now).value
  }

  /** The records of `ids` are hashes that are bare or hold a stamp whose
      whole second is after the zero time's. */
  predicate StampedOrBare(sp: Space, ids: seq<string>, now: Instant) {
    forall i | 0 <= i < |ids| ::
      && IsUuid(ids[i])
      && sp.HashAt(SessionsKeyBase + ids[i], now).Some?
      && ("last_activity" in sp.HashAt(SessionsKeyBase + ids[i], now).value ==>
            && sp.HashAt(SessionsKeyBase + ids[i], now).value["last_activity"].Stamp?
            && UnixSeconds(ZeroTime) < UnixSeconds(sp.HashAt(SessionsKeyBase + ids[i], now).value["last_activity"].at))
  }

  /** Position `j` holds the first bare record of `ids`. */
  predicate FirstBare(sp: Space, ids: seq<string>, j: int, now: Instant) {
    && 0 <= j < |ids|
    && Bare(sp, ids[j], now)
    && forall i | 0 <= i < j :: !Bare(sp, ids[i], now)
  }

  /** The record keys of the bare ids among `ids`. */
  function BareKeys(sp: Space, ids: seq<string>, now: Instant): set<string> {
    set i | 0 <= i < |ids| && Bare(sp, ids[i], now) :: SessionsKeyBase + ids[i]
  }

  lemma BareKeysCons(sp: Space, ids: seq<string>, now: Instant)
    requires ids != []
    ensures BareKeys(sp, ids, now) ==
      (if Bare(sp, ids[0], now) then {SessionsKeyBase + ids[0]} else {}) + BareKeys(sp, ids[1..], now)
  {
    forall k | k in BareKeys(sp, ids, now)
      ensures k in (if Bare(sp, ids[0], now) then {SessionsKeyBase + ids[0]} else {}) + BareKeys(sp, ids[1..], now)
    {
      var i :| 0 <= i < |ids| && Bare(sp, ids[i], now) && k == SessionsKeyBase + ids[i];
      if i > 0 {
        assert ids[1..][i - 1] == ids[i];
      }
    }
    forall k | k in BareKeys(sp, ids[1..], now)
      ensures k in BareKeys(sp, ids, now)
    {
      var i :| 0 <= i < |ids[1..]| && Bare(sp, ids[1..][i], now) && k == SessionsKeyBase + ids[1..][i];
      assert ids[i + 1] == ids[1..][i];
    }
  }

  lemma PrefixInjective(p: string, a: string, b: string)
    requires p + a == p + b
    ensures a == b
  {
    assert a == (p + a)[|p|..] && b == (p + b)[|p|..];
  }

  /** Deleting a bare record changes neither which records are bare nor any
      stamp: the record reads as an empty hash afterwards. */
  lemma DeleteBare(sp: Space, x: string, ids: seq<string>, now: Instant)
    requires Bare(sp, x, now) && StampedOrBare(sp, ids, now)
    ensures StampedOrBare(sp.Delete({SessionsKeyBase + x}), ids, now)
    ensures BareKeys(sp.Delete({SessionsKeyBase + x}), ids, now) == BareKeys(sp, ids, now)
  {
    var sp' := sp.Delete({SessionsKeyBase + x});
    forall i | 0 <= i < |ids|
      ensures sp'.HashAt(SessionsKeyBase + ids[i], now) ==
        if ids[i] == x then Some(map[]) else sp.HashAt(SessionsKeyBase + ids[i], now)
    {
      if ids[i] != x && SessionsKeyBase + ids[i] == SessionsKeyBase + x {
        PrefixInjective(SessionsKeyBase, ids[i], x);
      }
    }
  }

  /** Once the candidate's time is the zero time no record replaces it: the
      scan returns the candidate and deletes exactly the bare records. */
  lemma {:induction false} ScanAfterBare(st: StoreState, ids: seq<string>, now: Instant, oldest: Uuid)
    requires st.Healthy() && StampedOrBare(st.space, ids, now)
    ensures ScanOldest(st, ids, now, oldest, ZeroTime) ==
      (Ok(oldest), StoreState(st.space.Delete(BareKeys(st.space, ids, now)), []))
    decreases |ids|
  {
    if ids == [] {
      assert BareKeys(st.space, ids, now) == {};
      assert st.space.Delete({}) == st.space;
    } else {
      BareKeysCons(st.space, ids, now);
      var id: Uuid := ids[0];
      assert ParseUuid(ids[0]) == Some(id);
      assert StampedOrBare(st.space, ids[1..], now) by {
        forall i | 0 <= i < |ids| - 1 ensures ids[1..][i] == ids[i + 1] {}
      }
      if Bare(st.space, id, now) {
        var st1 := StoreState(st.space.Delete({SessionKey(id)}), []);
        assert ReadActivity(st, id, now) == (Ok(ZeroTime), st1);
        DeleteBare(st.space, id, ids[1..], now);
        ScanAfterBare(st1, ids[1..], now, oldest);
        assert st1.space.Delete(BareKeys(st.space, ids[1..], now)) == st.space.Delete(BareKeys(st.space, ids, now));
      } else {
        var t := st.space.HashAt(SessionKey(id), now).value["last_activity"].at;
        assert ReadActivity(st, id, now) == (Ok(t), st);
        assert UnixSeconds(ZeroTime) < UnixSeconds(t);
        assert ScanOldest(st, ids, now, oldest, ZeroTime) == ScanOldest(st, ids[1..], now, oldest, ZeroTime);
        assert BareKeys(st.space, ids, now) == BareKeys(st.space, ids[1..], now);
        ScanAfterBare(st, ids[1..], now, oldest);
      }
    }
  }

  /** From a candidate time after the zero time's second, the scan returns
      the first bare record's id and deletes exactly the bare records. */
  lemma {:induction false} ScanFindsBare(st: StoreState, ids: seq<string>, now: Instant, oldest: Uuid, least: Instant, j: int)
    requires st.Healthy() && StampedOrBare(st.space, ids, now) && FirstBare(st.space, ids, j, now)
    requires UnixSeconds(ZeroTime) < UnixSeconds(least)
    ensures ScanOldest(st, ids, now, oldest, least) ==
      (Ok(ids[j]), StoreState(st.space.Delete(BareKeys(st.space, ids, now)), []))
    decreases |ids|
  {
    BareKeysCons(st.space, ids, now);
    var id: Uuid := ids[0];
    assert ParseUuid(ids[0]) == Some(id);
    assert StampedOrBare(st.space, ids[1..], now) by {
      forall i | 0 <= i < |ids| - 1 ensures ids[1..][i] == ids[i + 1] {}
    }
    if j == 0 {
      ScanBareHead(st, ids, now, oldest, least);
    } else {
      assert !Bare(st.space, ids[0], now);
      var t := st.space.HashAt(SessionKey(id), now).value["last_activity"].at;
      assert ReadActivity(st, id, now) == (Ok(t), st);
      assert FirstBare(st.space, ids[1..], j - 1, now) by {
        forall i | 0 <= i < |ids| - 1 ensures ids[1..][i] == ids[i + 1] {}
      }
      assert BareKeys(st.space, ids, now) == BareKeys(st.space, ids[1..], now);
      if UnixSeconds(t) < UnixSeconds(least) {
        assert UnixSeconds(ZeroTime) < UnixSeconds(t);
        assert ScanOldest(st, ids, now, oldest, least) == ScanOldest(st, ids[1..], now, id, t);
        ScanFindsBare(st, ids[1..], now, id, t, j - 1);
      } else {
        assert ScanOldest(st, ids, now, oldest, least) == ScanOldest(st, ids[1..], now, oldest, least);
        ScanFindsBare(st, ids[1..], now, oldest, least, j - 1);
      }
      assert ids[1..][j - 1] == ids[j];
    }
  }

  /** A bare head becomes the candidate at the zero time, and the rest of
      the scan keeps it. */
  lemma ScanBareHead(st: StoreState, ids: seq<string>, now: Instant, oldest: Uuid, least: Instant)
    requires st.Healthy() && StampedOrBare(st.space, ids, now) && ids != [] && Bare(st.space, ids[0], now)
    requires UnixSeconds(ZeroTime) < UnixSeconds(least)
    ensures ScanOldest(st, ids, now, oldest, least) ==
      (Ok(ids[0]), StoreState(st.space.Delete(BareKeys(st.space, ids, now)), []))
  {
    BareKeysCons(st.space, ids, now);
    var id: Uuid := ids[0];
    assert ParseUuid(ids[0]) == Some(id);
    assert StampedOrBare(st.space, ids[1..], now) by {
      forall i | 0 <= i < |ids| - 1 ensures ids[1..][i] == ids[i + 1] {}
    }
    var st1 := StoreState(st.space.Delete({SessionKey(id)}), []);
    assert ReadActivity(st, id, now) == (Ok(ZeroTime), st1);
    DeleteBare(st.space, id, ids[1..], now);
    ScanAfterBare(st1, ids[1..], now, id);
    assert st1.space.Delete(BareKeys(st.space, ids[1..], now)) == st.space.Delete(BareKeys(st.space, ids, now));
  }

  /** A scanned id whose record lacks `last_activity` reads as the zero
      time, which no stamp after it undercuts: `FetchOldest` returns the
      first such id and deletes exactly the records of the bare ids it
      scanned, and nothing else. */
  lemma FetchOldestPicksBare(st: StoreState, userId: Uuid, j: int, now: Instant)
    requires st.Healthy() && st.space.ListAt(SessionsKey(userId), now).Some?
    requires var ids := Scanned(st.space.ListAt(SessionsKey(userId), now).value);
      StampedOrBare(st.space, ids, now) && FirstBare(st.space, ids, j, now)
    requires UnixSeconds(ZeroTime) < UnixSeconds(now)
    ensures var ids := Scanned(st.space.ListAt(SessionsKey(userId), now).value);
      FetchOldestSpec(st, userId, now) == (Ok(ids[j]), StoreState(st.space.Delete(BareKeys(st.space, ids, now)), []))
  {
    var ids := Scanned(st.space.ListAt(SessionsKey(userId), now).value);
    assert st.LRange(SessionsKey(userId), MaxSessions - 1, now) == (Ok(ids), st);
    ScanFindsBare(st, ids, now, NilUuid, now, j);
  }

  // ---------------------------------------------------------------------
  // When the cap holds

  /** `b` is `a` with some keys removed, except perhaps at `lk`. */
  ghost predicate Pruned(a: Space, b: Space, lk: string, now: Instant) {
    forall k | k != lk :: Agree(a, b, k) || b.Lookup(k, now).None?
  }

  lemma PrunedTrans(a: Space, b: Space, c: Space, lk: string, now: Instant)
    requires Pruned(a, b, lk, now) && Pruned(b, c, lk, now)
    ensures Pruned(a, c, lk, now)
  {
    forall k | k != lk
      ensures Agree(a, c, k) || c.Lookup(k, now).None?
    {
      if Agree(b, c, k) {
        AgreeReads(b, c, k, now);
      }
    }
  }

  /** Removing keys keeps every record a hash or nothing and every stale id
      stale. */
  lemma PrunedKeeps(a: Space, b: Space, userId: Uuid, now: Instant)
    requires Pruned(a, b, SessionsKey(userId), now)
    ensures forall x | Stale(a, x, now) :: Stale(b, x, now)
    ensures forall k | k != SessionsKey(userId) && a.HashAt(k, now).Some? :: b.HashAt(k, now).Some?
  {
    forall x | Stale(a, x, now)
      ensures Stale(b, x, now)
    {
      SessionKeysInjectiveAndDisjoint(x, userId);
      if Agree(a, b, SessionKey(x)) {
        AgreeReads(a, b, SessionKey(x), now);
      }
    }
    forall k | k != SessionsKey(userId) && a.HashAt(k, now).Some?
      ensures b.HashAt(k, now).Some?
    {
      if Agree(a, b, k) {
        AgreeReads(a, b, k, now);
      }
    }
  }

  lemma ReadStale(st: StoreState, id: Uuid, now: Instant)
    requires st.Healthy() && Stale(st.space, id, now) && UnixSeconds(ZeroTime) < UnixSeconds(now)
    ensures var (r, st1) := ReadActivity(st, id, now);
      && r.Ok? && UnixSeconds(r.value) < UnixSeconds(now) && st1.Healthy()
      && (st1.space == st.space || st1.space == st.space.Delete({SessionKey(id)}))
  {
  }

  /** Over stale ids the scan succeeds, deletes only records, and, started
      from the `now` baseline on a non-empty list, picks one of the ids. */
  lemma {:induction false} ScanStale(st: StoreState, ids: seq<string>, userId: Uuid, now: Instant, oldest: Uuid, least: Instant)
    requires st.Healthy() && UnixSeconds(ZeroTime) < UnixSeconds(now)
    requires forall i | 0 <= i < |ids| :: Stale(st.space, ids[i], now)
    ensures var (r, st1) := ScanOldest(st, ids, now, oldest, least);
      && r.Ok? && st1.Healthy()
      && Pruned(st.space, st1.space, SessionsKey(userId), now)
      && Agree(st.space, st1.space, SessionsKey(userId))
      && (r.value == oldest || r.value in ids)
      && (ids != [] && UnixSeconds(least) == UnixSeconds(now) ==> r.value in ids)
    decreases |ids|
  {
    var lk := SessionsKey(userId);
    if ids == [] {
    } else {
      var id: Uuid := ids[0];
      assert ParseUuid(ids[0]) == Some(id);
      ReadStale(st, id, now);
      SessionKeysInjectiveAndDisjoint(id, userId);
      var (r, st1) := ReadActivity(st, id, now);
      var t := r.value;
      assert Pruned(st.space, st1.space, lk, now);
      assert Agree(st.space, st1.space, lk);
      PrunedKeeps(st.space, st1.space, userId, now);
      forall i | 0 <= i < |ids[1..]|
        ensures Stale(st1.space, ids[1..][i], now)
      {
        assert ids[1..][i] == ids[i + 1];
      }
      var stEnd := ScanOldest(st, ids, now, oldest, least).1;
      if UnixSeconds(t) < UnixSeconds(least) {
        ScanStale(st1, ids[1..], userId, now, id, t);
      } else {
        ScanStale(st1, ids[1..], userId, now, oldest, least);
      }
      PrunedTrans(st.space, st1.space, stEnd.space, lk, now);
    }
  }

  /** The record-less key space a round leaves after LREM and DEL of `y`. */
  function AfterRemoval(sp: Space, userId: Uuid, y: Uuid, now: Instant): Space
    requires sp.ListAt(SessionsKey(userId), now).Some?
  {
    sp.LRemItem(SessionsKey(userId), y, now).Delete({SessionKey(y)})
  }

  /** The second half of a round on a healthy server: LREM of one
      occurrence, then DEL of the record. */
  lemma RemoveAndDelete(st: StoreState, userId: Uuid, y: Uuid, now: Instant)
    requires st.Healthy() && st.space.ListAt(SessionsKey(userId), now).Some?
    ensures st.LRem(SessionsKey(userId), y, now) == (Pass, StoreState(st.space.LRemItem(SessionsKey(userId), y, now), []))
    ensures StoreState(st.space.LRemItem(SessionsKey(userId), y, now), []).Del({SessionKey(y)}) ==
      (Pass, StoreState(AfterRemoval(st.space, userId, y, now), []))
    ensures Pruned(st.space, AfterRemoval(st.space, userId, y, now), SessionsKey(userId), now)
    ensures AfterRemoval(st.space, userId, y, now).ListAt(SessionsKey(userId), now) ==
      Some(RemoveFirst(st.space.ListAt(SessionsKey(userId), now).value, y))
    ensures SameOutside(st.space, AfterRemoval(st.space, userId, y, now), {SessionsKey(userId), SessionKey(y)})
  {
    var lk := SessionsKey(userId);
    SessionKeysInjectiveAndDisjoint(y, userId);
    HealthyLRem(st, lk, y, now);
    var st2 := StoreState(st.space.LRemItem(lk, y, now), []);
    assert Pruned(st.space, st2.space, lk, now);
    HealthyDel(st2, {SessionKey(y)}, now);
    var sp3 := st2.space.Delete({SessionKey(y)});
    assert Pruned(st2.space, sp3, lk, now);
    assert Agree(st2.space, sp3, lk);
    AgreeReads(st2.space, sp3, lk, now);
    PrunedTrans(st.space, st2.space, sp3, lk, now);
    SameOutsideTrans(st.space, st2.space, sp3, {lk}, {SessionKey(y)});
  }

  lemma RemoveFirstKeepsListed(xs: seq<string>, x: string)
    ensures forall i | 0 <= i < |RemoveFirst(xs, x)| :: RemoveFirst(xs, x)[i] in xs
  {
    var ys := RemoveFirst(xs, x);
    forall i | 0 <= i < |ys|
      ensures ys[i] in xs
    {
      assert ys[i] in multiset(ys);
    }
  }

  /** Over a non-empty list of stale ids, a round succeeds, evicts one of the
      listed ids and so shortens the list by one, and leaves every remaining
      id stale. */
  lemma RoundStale(st: StoreState, userId: Uuid, now: Instant)
    requires StaleList(st, userId, now) && st.space.ListAt(SessionsKey(userId), now).value != []
    ensures EvictRound(st, userId, now).0 == Pass
    ensures StaleList(EvictRound(st, userId, now).1, userId, now)
    ensures |EvictRound(st, userId, now).1.space.ListAt(SessionsKey(userId), now).value| ==
      |st.space.ListAt(SessionsKey(userId), now).value| - 1
  {
    RoundPrunes(st, userId, now);
    var lk := SessionsKey(userId);
    var xs := st.space.ListAt(lk, now).value;
    var y := FetchOldestSpec(st, userId, now).0.value;
    var st3 := EvictRound(st, userId, now).1;
    AllStaleIndex(st.space, xs, now);
    PrunedKeeps(st.space, st3.space, userId, now);
    RemoveFirstKeepsListed(xs, y);
    AllStaleIndex(st3.space, st3.space.ListAt(lk, now).value, now);
  }

  /** Such a round removes keys, except perhaps the user's list, and changes
      none; the list loses one occurrence of an id it held. */
  lemma RoundPrunes(st: StoreState, userId: Uuid, now: Instant)
    requires StaleList(st, userId, now) && st.space.ListAt(SessionsKey(userId), now).value != []
    ensures EvictRound(st, userId, now).0 == Pass && EvictRound(st, userId, now).1.Healthy()
    ensures Pruned(st.space, EvictRound(st, userId, now).1.space, SessionsKey(userId), now)
    ensures FetchOldestSpec(st, userId, now).0.Ok?
    ensures FetchOldestSpec(st, userId, now).0.value in st.space.ListAt(SessionsKey(userId), now).value
    ensures EvictRound(st, userId, now).1.space.ListAt(SessionsKey(userId), now) ==
      Some(RemoveFirst(st.space.ListAt(SessionsKey(userId), now).value, FetchOldestSpec(st, userId, now).0.value))
  {
    var lk := SessionsKey(userId);
    var xs := st.space.ListAt(lk, now).value;
    var ids := if |xs| <= MaxSessions - 1 then xs else xs[..MaxSessions];
    AllStaleIndex(st.space, xs, now);
    forall i | 0 <= i < |ids|
      ensures Stale(st.space, ids[i], now)
    {
      assert ids[i] == xs[i];
    }
    ScanStale(st, ids, userId, now, NilUuid, now);
    var st1 := FetchOldestSpec(st, userId, now).1;
    var y := FetchOldestSpec(st, userId, now).0.value;
    assert y in xs;
    AgreeReads(st.space, st1.space, lk, now);
    RemoveAndDelete(st1, userId, y, now);
    var st3 := EvictRound(st, userId, now).1;
    PrunedTrans(st.space, st1.space, st3.space, lk, now);
  }
}
