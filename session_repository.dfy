/** The Redis-backed session store (src/internal/session/repository.go).

    Each operation is given twice: as a function from the server state before
    the call to the reply and the state after it (the reference the
    properties are proved about), and as a method of `Repository` that issues
    the same commands one at a time against the shared `Store`, proved to
    agree with the function. */
module SessionRepository {
  import opened Results
  import opened Uuids
  import opened Clock
  import opened SessionModel
  import opened KeyValue
  import opened SessionService

  // ---------------------------------------------------------------------
  // Decoding a session hash (go-redis `Scan` into `Session`)

  /** A UUID field: absent reads as `uuid.Nil`, text must parse. */
  function ScanUuid(m: map<string, Field>, f: string): Option<Uuid> {
    if f !in m then Some(NilUuid)
    else match m[f]
      case Plain(t) => ParseUuid(t)
      case Stamp(_) => None
  }

  function ScanText(m: map<string, Field>, f: string): Option<string> {
    if f !in m then Some("")
    else match m[f]
      case Plain(t) => Some(t)
      case Stamp(_) => None
  }

  /** A time field: absent reads as `time.Time{}`. */
  function ScanTime(m: map<string, Field>, f: string): Option<Instant> {
    if f !in m then Some(ZeroTime)
    else match m[f]
      case Stamp(t) => Some(t)
      case Plain(_) => None
  }

  function ScanSession(m: map<string, Field>): Result<Session> {
    var id := ScanUuid(m, "id");
    var userId := ScanUuid(m, "user_id");
    var role := ScanText(m, "role");
    var createdAt := ScanTime(m, "created_at");
    var lastActivity := ScanTime(m, "last_activity");
    if id.None? || userId.None? || role.None? || createdAt.None? || lastActivity.None? then Err(Malformed)
    else Ok(Session(id.value, userId.value, role.value, createdAt.value, lastActivity.value))
  }

  // ---------------------------------------------------------------------
  // Reference definitions, one per operation

  /** `Fetch`: an absent or empty hash is `ErrSessionIsNotExists`; any other
      error passes through as it is. */
  function FetchSpec(st: StoreState, sessionId: Uuid, now: Instant): (Result<Session>, StoreState) {
    var (r, st1) := st.HGetAll(SessionKey(sessionId), now);
    match r
    case Err(e) => (Err(e), st1)
    case Ok(m) => if m == map[] then (Err(SessionNotExists), st1) else (ScanSession(m), st1)
  }

  /** One step of `FetchOldest`'s scan: the last-activity time of `id`. A
      missing field or record is `redis.Nil`: the record is deleted and the
      time reads as `ZeroTime`. */
  function ReadActivity(st: StoreState, id: Uuid, now: Instant): (Result<Instant>, StoreState) {
    var (r, st1) := st.HGet(SessionKey(id), "last_activity", now);
    match r
    case Failed(e) => (Err(e), st1)
    case Found(f) => if f.Stamp? then (Ok(f.at), st1) else (Err(Malformed), st1)
    case Missing =>
      var (o, st2) := st1.Del({SessionKey(id)});
      if o.Fail? then (Err(o.error), st2) else (Ok(ZeroTime), st2)
  }

  /** The rest of `FetchOldest`'s linear scan, from the current candidate
      `oldest` and its time `least`: a strictly earlier whole second replaces
      the candidate, so ties keep the first id met. */
  function ScanOldest(st: StoreState, ids: seq<string>, now: Instant, oldest: Uuid, least: Instant): (Result<Uuid>, StoreState)
    decreases |ids|
  {
    if ids == [] then (Ok(oldest), st)
    else match ParseUuid(ids[0])
      case None => (Err(Malformed), st)
      case Some(id) =>
        var (r, st1) := ReadActivity(st, id, now);
        match r
        case Err(e) => (Err(e), st1)
        case Ok(t) =>
          if UnixSeconds(t) < UnixSeconds(least) then ScanOldest(st1, ids[1..], now, id, t)
          else ScanOldest(st1, ids[1..], now, oldest, least)
  }

  /** `FetchOldest`: the scan over the first `MaxSessions` ids of the user's
      list, starting from `uuid.Nil` and the baseline `now`. */
  function FetchOldestSpec(st: StoreState, userId: Uuid, now: Instant): (Result<Uuid>, StoreState) {
    var (r, st1) := st.LRange(SessionsKey(userId), MaxSessions - 1, now);
    match r
    case Err(e) => (Err(e), st1)
    case Ok(ids) => ScanOldest(st1, ids, now, NilUuid, now)
  }

  /** One pass of `Create`'s eviction loop: find the oldest session, remove
      one occurrence of its id from the list and delete its record. */
  function EvictRound(st: StoreState, userId: Uuid, now: Instant): (Outcome, StoreState) {
    var (r, st1) := FetchOldestSpec(st, userId, now);
    match r
    case Err(e) => (Fail(e), st1)
    case Ok(oldest) =>
      var (o, st2) := st1.LRem(SessionsKey(userId), oldest, now);
      if o.Fail? then (o, st2) else st2.Del({SessionKey(oldest)})
  }

  /** `Create`'s loop `for count >= MaxSessions { ...; count-- }`. */
  function Evict(st: StoreState, userId: Uuid, count: int, now: Instant): (Outcome, StoreState)
    decreases count
  {
    if count < MaxSessions then (Pass, st)
    else
      var (o, st1) := EvictRound(st, userId, now);
      if o.Fail? then (o, st1) else Evict(st1, userId, count - 1, now)
  }

  /** A successful round at or above the cap hands the loop on with one
      fewer to count. */
  lemma EvictStep(st: StoreState, userId: Uuid, count: int, now: Instant)
    requires count >= MaxSessions && EvictRound(st, userId, now).0.Pass?
    ensures Evict(st, userId, count, now) == Evict(EvictRound(st, userId, now).1, userId, count - 1, now)
  {
  }

  /** `Create`'s final pipeline: the record's fields and TTL, then the id at
      the head of the user's list and the list's TTL. */
  function InsertSpec(st: StoreState, s: Session, now: Instant): (Outcome, StoreState) {
    var (o1, st1) := HSetSpec(st, s, now);
    if o1.Fail? then (o1, st1)
    else
      var (o2, st2) := st1.Expire(SessionKey(s.id), SessionTTL, now);
      if o2.Fail? then (o2, st2)
      else
        var (o3, st3) := st2.LPush(SessionsKey(s.userId), s.id, now);
        if o3.Fail? then (o3, st3)
        else st3.Expire(SessionsKey(s.userId), SessionTTL, now)
  }

  /** `Create` once the count is known. */
  function CreateFrom(st: StoreState, s: Session, count: int, now: Instant): (Outcome, StoreState) {
    var (o, st1) := Evict(st, s.userId, count, now);
    if o.Fail? then (o, st1) else InsertSpec(st1, s, now)
  }

  /** `Create`: count the user's sessions, evict while the count is at the
      cap, then insert. */
  function CreateSpec(st: StoreState, s: Session, now: Instant): (Outcome, StoreState) {
    var (c, st1) := st.LLen(SessionsKey(s.userId), now);
    match c
    case Err(e) => (Fail(e), st1)
    case Ok(count) => CreateFrom(st1, s, count, now)
  }

  /** `Update`: rewrite the fields and refresh both TTLs; nothing checks that
      the session still exists. */
  function UpdateSpec(st: StoreState, s: Session, now: Instant): (Outcome, StoreState) {
    var (o1, st1) := HSetSpec(st, s, now);
    if o1.Fail? then (o1, st1)
    else
      var (o2, st2) := st1.Expire(SessionKey(s.id), SessionTTL, now);
      if o2.Fail? then (o2, st2) else st2.Expire(SessionsKey(s.userId), SessionTTL, now)
  }

  /** `Delete`: every failure of the inner `Fetch` becomes
      `ErrSessionIsNotExists`; the list entry and the record removed are
      those named by the fetched record. */
  function DeleteSpec(st: StoreState, sessionId: Uuid, now: Instant): (Outcome, StoreState) {
    var (r, st1) := FetchSpec(st, sessionId, now);
    match r
    case Err(_) => (Fail(SessionNotExists), st1)
    case Ok(s) =>
      var (o, st2) := st1.LRem(SessionsKey(s.userId), s.id, now);
      if o.Fail? then (o, st2) else st2.Del({SessionKey(s.id)})
  }

  /** The rest of `FetchAll`'s loop, with the sessions gathered so far. The
      source's `err == redis.Nil` branch has no counterpart: `Fetch` never
      returns `redis.Nil`, so its errors all end the call. */
  function FetchEach(st: StoreState, ids: seq<string>, now: Instant, acc: seq<Session>): (Result<seq<Session>>, StoreState)
    decreases |ids|
  {
    if ids == [] then (Ok(acc), st)
    else match ParseUuid(ids[0])
      case None => (Err(Malformed), st)
      case Some(id) =>
        var (r, st1) := FetchSpec(st, id, now);
        match r
        case Err(e) => (Err(e), st1)
        case Ok(s) => FetchEach(st1, ids[1..], now, acc + [s])
  }

  /** `FetchAll`: the sessions of the first `MaxSessions` ids of the list. */
  function FetchAllSpec(st: StoreState, userId: Uuid, now: Instant): (Result<seq<Session>>, StoreState) {
    var (r, st1) := st.LRange(SessionsKey(userId), MaxSessions - 1, now);
    match r
    case Err(e) => (Err(e), st1)
    case Ok(ids) => FetchEach(st1, ids, now, [])
  }

  // ---------------------------------------------------------------------
  // The repository

  /** `repository`: the session store over the shared Redis client. */
  class Repository {
    const client: Store

    constructor(client: Store)
      ensures this.client == client
    {
      this.client := client;
    }

    method Fetch(sessionId: Uuid, now: Instant) returns (r: Result<Session>)
      modifies client
      ensures (r, client.State()) == old(FetchSpec(client.State(), sessionId, now))
    {
      var m := client.HGetAll(SessionKey(sessionId), now);
      if m.Err? {
        return Err(m.error);
      }
      if m.value == map[] {
        return Err(SessionNotExists);
      }
      r := ScanSession(m.value);
    }

    method FetchOldest(userId: Uuid, now: Instant) returns (r: Result<Uuid>)
      modifies client
      ensures (r, client.State()) == old(FetchOldestSpec(client.State(), userId, now))
    {
      var ids := client.LRange(SessionsKey(userId), MaxSessions - 1, now);
      if ids.Err? {
        return Err(ids.error);
      }
      var least := now;
      var oldest := NilUuid;
      var i := 0;
      while i < |ids.value|
        invariant 0 <= i <= |ids.value|
        invariant old(FetchOldestSpec(client.State(), userId, now))
               == ScanOldest(client.State(), ids.value[i..], now, oldest, least)
      {
        ghost var st := client.State();
        var id := ParseUuid(ids.value[i]);
        if id.None? {
          return Err(Malformed);
        }
        var lastActivity := ZeroTime;
        var reply := client.HGet(SessionKey(id.value), "last_activity", now);
        match reply {
          case Missing =>
            var o := client.Del({SessionKey(id.value)});
            if o.Fail? {
              return Err(o.error);
            }
          case Failed(e) =>
            return Err(e);
          case Found(f) =>
            if f.Plain? {
              return Err(Malformed);
            }
            lastActivity := f.at;
        }
        assert ReadActivity(st, id.value, now) == (Ok(lastActivity), client.State());
        if UnixSeconds(lastActivity) < UnixSeconds(least) {
          least := lastActivity;
          oldest := id.value;
        }
        assert ids.value[i..][1..] == ids.value[i + 1..];
        i := i + 1;
      }
      return Ok(oldest);
    }

    method Create(s: Session, now: Instant) returns (r: Outcome)
      modifies client
      ensures (r, client.State()) == old(CreateSpec(client.State(), s, now))
    {
      var c := client.LLen(SessionsKey(s.userId), now);
      if c.Err? {
        return Fail(c.error);
      }
      r := EvictWhileFull(s.userId, c.value, now);
      if r.Fail? {
        return;
      }
      r := Insert(s, now);
    }

    /** The eviction loop of `Create`: `for count >= MaxSessions`. */
    method EvictWhileFull(userId: Uuid, count: int, now: Instant) returns (r: Outcome)
      modifies client
      ensures (r, client.State()) == old(Evict(client.State(), userId, count, now))
    {
      ghost var spec := Evict(client.State(), userId, count, now);
      var n := count;
      r := Pass;
      while n >= MaxSessions
        invariant r == Pass
        invariant spec == Evict(client.State(), userId, n, now)
        decreases n
      {
        ghost var st := client.State();
        r := EvictOldest(userId, now);
        if r.Fail? {
          return;
        }
        EvictStep(st, userId, n, now);
        n := n - 1;
      }
    }

    /** One pass of the eviction loop in `Create`. */
    method EvictOldest(userId: Uuid, now: Instant) returns (r: Outcome)
      modifies client
      ensures (r, client.State()) == old(EvictRound(client.State(), userId, now))
    {
      var oldest := FetchOldest(userId, now);
      if oldest.Err? {
        return Fail(oldest.error);
      }
      r := client.LRem(SessionsKey(userId), oldest.value, now);
      if r.Fail? {
        return;
      }
      r := client.Del({SessionKey(oldest.value)});
    }

    /** The pipeline at the end of `Create`. */
    method Insert(s: Session, now: Instant) returns (r: Outcome)
      modifies client
      ensures (r, client.State()) == old(InsertSpec(client.State(), s, now))
    {
      r := HSet(s, client, now);
      if r.Fail? {
        return;
      }
      r := client.Expire(SessionKey(s.id), SessionTTL, now);
      if r.Fail? {
        return;
      }
      r := client.LPush(SessionsKey(s.userId), s.id, now);
      if r.Fail? {
        return;
      }
      r := client.Expire(SessionsKey(s.userId), SessionTTL, now);
    }

    method Update(s: Session, now: Instant) returns (r: Outcome)
      modifies client
      ensures (r, client.State()) == old(UpdateSpec(client.State(), s, now))
    {
      r := HSet(s, client, now);
      if r.Fail? {
        return;
      }
      r := client.Expire(SessionKey(s.id), SessionTTL, now);
      if r.Fail? {
        return;
      }
      r := client.Expire(SessionsKey(s.userId), SessionTTL, now);
    }

    method Delete(sessionId: Uuid, now: Instant) returns (r: Outcome)
      modifies client
      ensures (r, client.State()) == old(DeleteSpec(client.State(), sessionId, now))
    {
      var fetched := Fetch(sessionId, now);
      if fetched.Err? {
        return Fail(SessionNotExists);
      }
      var s := fetched.value;
      r := client.LRem(SessionsKey(s.userId), s.id, now);
      if r.Fail? {
        return;
      }
      r := client.Del({SessionKey(s.id)});
    }

    method FetchAll(userId: Uuid, now: Instant) returns (r: Result<seq<Session>>)
      modifies client
      ensures (r, client.State()) == old(FetchAllSpec(client.State(), userId, now))
    {
      var ids := client.LRange(SessionsKey(userId), MaxSessions - 1, now);
      if ids.Err? {
        return Err(ids.error);
      }
      var sessions: seq<Session> := [];
      var i := 0;
      while i < |ids.value|
        invariant 0 <= i <= |ids.value|
        invariant old(FetchAllSpec(client.State(), userId, now))
               == FetchEach(client.State(), ids.value[i..], now, sessions)
      {
        var id := ParseUuid(ids.value[i]);
        if id.None? {
          return Err(Malformed);
        }
        var fetched := Fetch(id.value, now);
        if fetched.Err? {
          return Err(fetched.error);
        }
        sessions := sessions + [fetched.value];
        assert ids.value[i..][1..] == ids.value[i + 1..];
        i := i + 1;
      }
      return Ok(sessions);
    }
  }
}
