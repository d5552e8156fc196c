/** Key construction, the constructor, the activity update and the field
    writes of a session (src/internal/session/service.go). */
module SessionService {
  import opened Results
  import opened Uuids
  import opened Clock
  import opened SessionModel
  import opened KeyValue

  /** The key of the list of a user's session ids. */
  function SessionsKey(userId: Uuid): string {
    SessionsUserIdKeyBase + userId
  }

  /** The key of the hash that holds one session. */
  function SessionKey(sessionId: Uuid): string {
    SessionsKeyBase + sessionId
  }

  /** Distinct ids give distinct list keys and distinct record keys, and no
      record key is a list key, although the list base extends the record
      base: the character after "ns:sessions:" is a hex digit in a record key
      and 'u' in a list key. */
  lemma SessionKeysInjectiveAndDisjoint(a: Uuid, b: Uuid)
    ensures SessionKey(a) == SessionKey(b) ==> a == b
    ensures SessionsKey(a) == SessionsKey(b) ==> a == b
    ensures SessionKey(a) != SessionsKey(b)
  {
    if SessionKey(a) == SessionKey(b) {
      assert a == SessionKey(a)[|SessionsKeyBase|..];
    }
    if SessionsKey(a) == SessionsKey(b) {
      assert a == SessionsKey(a)[|SessionsUserIdKeyBase|..];
    }
    LeadingHexDigit(a);
    assert SessionKey(a)[12] == a[0];
    assert SessionsKey(b)[12] == 'u';
  }

  /** `New`: a fresh session for `userId` with `role`. The id comes from
      `uuid.New()` and the two times from two readings of the UTC clock,
      all passed in. */
  function New(userId: Uuid, role: string, id: Uuid, createdAt: Instant, lastActivity: Instant): (s: Session)
    ensures s.id == id && s.userId == userId && s.role == role
    ensures s.createdAt == createdAt && s.lastActivity == lastActivity
  {
    Session(id, userId, role, createdAt, lastActivity)
  }

  /** `UpdateActivity`: only the last-activity time moves. */
  function UpdateActivity(s: Session, now: Instant): (r: Session)
    ensures r.lastActivity == now
    ensures r.id == s.id && r.userId == s.userId && r.role == s.role && r.createdAt == s.createdAt
  {
    s.(lastActivity := now)
  }

  /** The field writes of `HSet`, in the order it issues them. */
  function FieldWrites(s: Session): seq<(string, Field)> {
    [("id", Plain(s.id)),
     ("user_id", Plain(s.userId)),
     ("role", Plain(s.role)),
     ("created_at", Stamp(s.createdAt)),
     ("last_activity", Stamp(s.lastActivity))]
  }

  /** The fields `m` ends up with after the writes `ws`. */
  function Assigned(m: map<string, Field>, ws: seq<(string, Field)>): map<string, Field>
    decreases |ws|
  {
    if ws == [] then m else Assigned(m[ws[0].0 := ws[0].1], ws[1..])
  }

  /** A hash that holds the five fields of `s`. */
  predicate HoldsSession(m: map<string, Field>, s: Session) {
    && "id" in m && m["id"] == Plain(s.id)
    && "user_id" in m && m["user_id"] == Plain(s.userId)
    && "role" in m && m["role"] == Plain(s.role)
    && "created_at" in m && m["created_at"] == Stamp(s.createdAt)
    && "last_activity" in m && m["last_activity"] == Stamp(s.lastActivity)
  }

  /** Writing all five fields over any hash leaves a hash that holds `s`. */
  lemma AssignedHoldsSession(m: map<string, Field>, s: Session)
    ensures HoldsSession(Assigned(m, FieldWrites(s)), s)
    ensures forall f | f in m && f !in {"id", "user_id", "role", "created_at", "last_activity"} ::
      f in Assigned(m, FieldWrites(s)) && Assigned(m, FieldWrites(s))[f] == m[f]
  {
    var ws := FieldWrites(s);
    var m1 := m["id" := Plain(s.id)];
    var m2 := m1["user_id" := Plain(s.userId)];
    var m3 := m2["role" := Plain(s.role)];
    var m4 := m3["created_at" := Stamp(s.createdAt)];
    var m5 := m4["last_activity" := Stamp(s.lastActivity)];
    assert ws[1..][1..][1..][1..][1..] == [];
    assert Assigned(m4, ws[1..][1..][1..][1..]) == m5;
    assert Assigned(m3, ws[1..][1..][1..]) == m5;
    assert Assigned(m2, ws[1..][1..]) == m5;
    assert Assigned(m1, ws[1..]) == m5;
    assert Assigned(m, ws) == m5;
  }

  /** HSET of each write in turn, stopping at the first that fails. */
  function WriteFields(st: StoreState, key: string, ws: seq<(string, Field)>, now: Instant): (Outcome, StoreState)
    decreases |ws|
  {
    if ws == [] then (Pass, st)
    else
      var (o, st1) := st.HSet(key, ws[0].0, ws[0].1, now);
      if o.Fail? then (o, st1) else WriteFields(st1, key, ws[1..], now)
  }

  /** What `HSet` does to the server. */
  function HSetSpec(st: StoreState, s: Session, now: Instant): (Outcome, StoreState) {
    WriteFields(st, SessionKey(s.id), FieldWrites(s), now)
  }

  /** The number of commands, out of the next `n`, that succeed before the
      first scheduled failure. */
  function OkRun(q: seq<bool>, n: nat): (k: nat)
    ensures k <= n
    ensures forall i | 0 <= i < k && i < |q| :: !q[i]
    ensures k < n ==> k < |q| && q[k]
    decreases n
  {
    if n == 0 then 0
    else if q == [] then n
    else if q[0] then 0
    else 1 + OkRun(q[1..], n - 1)
  }

  /** The queue after `n` commands. */
  function Drop(q: seq<bool>, n: nat): seq<bool> {
    if n >= |q| then [] else q[n..]
  }

  lemma PutTwice(sp: Space, key: string, v: Value, w: Value, now: Instant)
    ensures sp.Put(key, v, now).Live(key, now)
    ensures sp.Put(key, v, now).Put(key, w, now) == sp.Put(key, w, now)
  {
  }

  /** One HSET that is scheduled to succeed on a hash (or an absent key). */
  lemma HSetStep(st: StoreState, key: string, w: (string, Field), now: Instant)
    requires st.space.HashAt(key, now).Some? && !st.NextFails()
    ensures st.HSet(key, w.0, w.1, now).0 == Pass
    ensures st.HSet(key, w.0, w.1, now).1 ==
      StoreState(st.space.Put(key, Hash(st.space.HashAt(key, now).value[w.0 := w.1]), now), st.Tick().faults)
    ensures st.HSet(key, w.0, w.1, now).1.space.HashAt(key, now) == Some(st.space.HashAt(key, now).value[w.0 := w.1])
  {
    var m := st.space.HashAt(key, now).value[w.0 := w.1];
    PutTwice(st.space, key, Hash(m), Hash(m), now);
  }

  /** HSET writes stop at the first failing one: the call fails unless the
      commands scheduled to succeed cover every write. */
  lemma {:induction false} WriteFieldsOutcome(st: StoreState, key: string, ws: seq<(string, Field)>, now: Instant)
    requires st.space.HashAt(key, now).Some?
    ensures WriteFields(st, key, ws, now).0 ==
      if OkRun(st.faults, |ws|) == |ws| then Pass else Fail(StoreFailure)
    decreases |ws|
  {
    if ws != [] && !st.NextFails() {
      HSetStep(st, key, ws[0], now);
      WriteFieldsOutcome(st.HSet(key, ws[0].0, ws[0].1, now).1, key, ws[1..], now);
      OkRunAfterTick(st, |ws|);
    }
  }

  /** With `k` commands scheduled to succeed, exactly the first `k` field
      writes reach the hash. */
  lemma {:induction false} WriteFieldsStopsAtFirstFailure(st: StoreState, key: string, ws: seq<(string, Field)>, now: Instant)
    requires st.space.HashAt(key, now).Some?
    ensures WriteFields(st, key, ws, now).1.space ==
      if OkRun(st.faults, |ws|) == 0 then st.space
      else st.space.Put(key, Hash(Assigned(st.space.HashAt(key, now).value, ws[..OkRun(st.faults, |ws|)])), now)
    decreases |ws|
  {
    if ws != [] && !st.NextFails() {
      var base := st.space.HashAt(key, now).value;
      var base1 := base[ws[0].0 := ws[0].1];
      HSetStep(st, key, ws[0], now);
      var st1 := st.HSet(key, ws[0].0, ws[0].1, now).1;
      assert WriteFields(st, key, ws, now) == WriteFields(st1, key, ws[1..], now);
      WriteFieldsStopsAtFirstFailure(st1, key, ws[1..], now);
      var k1 := OkRun(st1.faults, |ws| - 1);
      OkRunAfterTick(st, |ws|);
      assert ws[1..][..k1] == ws[..k1 + 1][1..];
      assert Assigned(base, ws[..k1 + 1]) == Assigned(base1, ws[1..][..k1]);
      if k1 > 0 {
        PutTwice(st.space, key, Hash(base1), Hash(Assigned(base1, ws[1..][..k1])), now);
      }
    }
  }

  /** A healthy server stays healthy through the writes. */
  lemma {:induction false} WriteFieldsKeepsHealthy(st: StoreState, key: string, ws: seq<(string, Field)>, now: Instant)
    requires st.Healthy()
    ensures WriteFields(st, key, ws, now).1.Healthy()
    decreases |ws|
  {
    if ws != [] {
      WriteFieldsKeepsHealthy(st.HSet(key, ws[0].0, ws[0].1, now).1, key, ws[1..], now);
    }
  }

  lemma OkRunAfterTick(st: StoreState, n: nat)
    requires n > 0 && !st.NextFails()
    ensures OkRun(st.faults, n) == 1 + OkRun(st.Tick().faults, n - 1)
  {
    if st.faults == [] {
      assert OkRun([], n - 1) == n - 1;
    }
  }

  /** On a healthy server whose record key holds a hash or nothing, `HSet`
      succeeds and leaves a live hash that holds the session, with every
      other key as it was. */
  lemma HSetHealthy(st: StoreState, s: Session, now: Instant)
    requires st.Healthy() && st.space.HashAt(SessionKey(s.id), now).Some?
    ensures var key := SessionKey(s.id);
      var m := Assigned(st.space.HashAt(key, now).value, FieldWrites(s));
      && HSetSpec(st, s, now) == (Pass, StoreState(st.space.Put(key, Hash(m), now), []))
      && HoldsSession(m, s)
  {
    var key := SessionKey(s.id);
    WriteFieldsOutcome(st, key, FieldWrites(s), now);
    WriteFieldsStopsAtFirstFailure(st, key, FieldWrites(s), now);
    WriteFieldsKeepsHealthy(st, key, FieldWrites(s), now);
    assert FieldWrites(s)[..5] == FieldWrites(s);
    AssignedHoldsSession(st.space.HashAt(key, now).value, s);
  }

  /** `HSet`: the five field writes under the session's record key. */
  method HSet(s: Session, client: Store, now: Instant) returns (r: Outcome)
    modifies client
    ensures (r, client.State()) == old(HSetSpec(client.State(), s, now))
  {
    var key := SessionKey(s.id);
    ghost var ws := FieldWrites(s);
    assert ws[1..][1..][1..][1..][1..] == [];
    r := client.HSet(key, "id", Plain(s.id), now);
    if r.Fail? {
      return;
    }
    ghost var st1 := client.State();
    assert old(HSetSpec(client.State(), s, now)) == WriteFields(st1, key, ws[1..], now);
    r := client.HSet(key, "user_id", Plain(s.userId), now);
    if r.Fail? {
      return;
    }
    ghost var st2 := client.State();
    assert WriteFields(st1, key, ws[1..], now) == WriteFields(st2, key, ws[1..][1..], now);
    r := client.HSet(key, "role", Plain(s.role), now);
    if r.Fail? {
      return;
    }
    ghost var st3 := client.State();
    assert WriteFields(st2, key, ws[1..][1..], now) == WriteFields(st3, key, ws[1..][1..][1..], now);
    r := client.HSet(key, "created_at", Stamp(s.createdAt), now);
    if r.Fail? {
      return;
    }
    ghost var st4 := client.State();
    assert WriteFields(st3, key, ws[1..][1..][1..], now) == WriteFields(st4, key, ws[1..][1..][1..][1..], now);
    r := client.HSet(key, "last_activity", Stamp(s.lastActivity), now);
    assert WriteFields(st4, key, ws[1..][1..][1..][1..], now) == (r, client.State());
  }
}
