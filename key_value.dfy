/** The Redis server the three repositories share, reduced to the commands
    the core issues (GET, SET EX, EXPIRE, DEL, HSET, HGETALL, HGET, LLEN,
    LRANGE, LPUSH, LREM).

    A key holds a hash of fields, a list of strings or a string; a string
    written by a cache holds a JSON document, modelled by the value it encodes
    (encoding is the identity, and `Unreadable` stands for bytes that do not
    decode). Expiry is lazy: a key whose deadline is not after `now` reads as
    absent, and a write to it starts from nothing. Every command may fail in
    transport: the state carries a queue of scheduled outcomes, each command
    consumes one, `true` makes it fail, and an empty queue means a healthy
    server. */
module KeyValue {
  import opened Results
  import opened Clock
  import opened NoteModel
  import opened UserModel

  /** A hash field. `Stamp` stands for the RFC 3339 text go-redis writes for
      a `time.Time` argument; `Plain` for any other text. */
  datatype Field = Plain(text: string) | Stamp(at: Instant)

  /** A cached JSON document. */
  datatype Blob =
    | NoteJson(note: Note)
    | NoteListJson(notes: seq<Note>)
    | UserJson(user: User)
    | Unreadable

  datatype Value = Hash(fields: map<string, Field>) | List(items: seq<string>) | Str(blob: Blob)

  /** A go-redis reply that distinguishes a miss (`redis.Nil`). */
  datatype Reply<+T> = Found(value: T) | Missing | Failed(error: Error)

  /** The reply of an operation of a cache, with the key-value state and
      the durable state `D` it leaves behind. */
  datatype Run<+T, +D> = Run(result: T, store: StoreState, db: D)

  /** `xs` without its first occurrence of `x` (LREM with count 1). */
  function RemoveFirst(xs: seq<string>, x: string): (r: seq<string>)
    ensures x !in xs ==> r == xs
    ensures x in xs ==> |r| == |xs| - 1
    ensures multiset(r) == multiset(xs) - multiset{x}
  {
    if xs == [] then []
    else
      assert xs == [xs[0]] + xs[1..];
      if xs[0] == x then xs[1..]
      else [xs[0]] + RemoveFirst(xs[1..], x)
  }

  /** The key space: the values and the absolute deadlines of keys that
      carry a TTL. */
  datatype Space = Space(data: map<string, Value>, expiry: map<string, Instant>) {

    predicate Live(key: string, now: Instant) {
      key in data && (key !in expiry || now < expiry[key])
    }

    function Lookup(key: string, now: Instant): Option<Value> {
      if Live(key, now) then Some(data[key]) else None
    }

    /** The fields of the hash at `key`: empty when the key is absent, `None`
        when it holds another type (a WRONGTYPE reply). */
    function HashAt(key: string, now: Instant): Option<map<string, Field>> {
      match Lookup(key, now)
      case None => Some(map[])
      case Some(Hash(m)) => Some(m)
      case Some(_) => None
    }

    /** The items of the list at `key`, in the same sense. */
    function ListAt(key: string, now: Instant): Option<seq<string>> {
      match Lookup(key, now)
      case None => Some([])
      case Some(List(xs)) => Some(xs)
      case Some(_) => None
    }

    /** Replace the value at a live key, keeping its TTL; a key that is not
        live starts over without one. */
    function Put(key: string, v: Value, now: Instant): Space {
      if Live(key, now) then Space(data[key := v], expiry)
      else Space(data[key := v], expiry - {key})
    }

    function SetEx(key: string, b: Blob, ttl: Duration, now: Instant): Space {
      Space(data[key := Str(b)], expiry[key := now + ttl])
    }

    function ExpireAt(key: string, ttl: Duration, now: Instant): Space {
      if Live(key, now) then Space(data, expiry[key := now + ttl]) else this
    }

    function Delete(keys: set<string>): Space {
      Space(data - keys, expiry - keys)
    }

    function HSetField(key: string, f: string, v: Field, now: Instant): Space
      requires HashAt(key, now).Some?
    {
      Put(key, Hash(HashAt(key, now).value[f := v]), now)
    }

    function LPushItem(key: string, x: string, now: Instant): Space
      requires ListAt(key, now).Some?
    {
      Put(key, List([x] + ListAt(key, now).value), now)
    }

    /** LREM count 1; Redis drops a list that becomes empty. */
    function LRemItem(key: string, x: string, now: Instant): Space
      requires ListAt(key, now).Some?
    {
      var ys := RemoveFirst(ListAt(key, now).value, x);
      if !Live(key, now) then this
      else if ys == [] then Delete({key})
      else Put(key, List(ys), now)
    }
  }

  /** Two key spaces agree at `k`: the same value and the same deadline. */
  predicate Agree(a: Space, b: Space, k: string) {
    && (k in a.data <==> k in b.data)
    && (k in a.data ==> a.data[k] == b.data[k])
    && (k in a.expiry <==> k in b.expiry)
    && (k in a.expiry ==> a.expiry[k] == b.expiry[k])
  }

  /** `b` differs from `a` at most at `keys`. */
  ghost predicate SameOutside(a: Space, b: Space, keys: set<string>) {
    forall k | k !in keys :: Agree(a, b, k)
  }

  lemma AgreeReads(a: Space, b: Space, k: string, now: Instant)
    requires Agree(a, b, k)
    ensures a.Lookup(k, now) == b.Lookup(k, now)
    ensures a.HashAt(k, now) == b.HashAt(k, now) && a.ListAt(k, now) == b.ListAt(k, now)
  {
  }

  lemma SameOutsideTrans(a: Space, b: Space, c: Space, ka: set<string>, kb: set<string>)
    requires SameOutside(a, b, ka) && SameOutside(b, c, kb)
    ensures SameOutside(a, c, ka + kb)
  {
    forall k | k !in ka + kb
      ensures Agree(a, c, k)
    {
      assert Agree(a, b, k) && Agree(b, c, k);
    }
  }

  /** Each primitive changes at most the keys it names. */
  lemma PutFrame(sp: Space, key: string, v: Value, now: Instant)
    ensures SameOutside(sp, sp.Put(key, v, now), {key})
  {
    forall k | k !in {key} ensures Agree(sp, sp.Put(key, v, now), k) {}
  }

  lemma SetExFrame(sp: Space, key: string, b: Blob, ttl: Duration, now: Instant)
    ensures SameOutside(sp, sp.SetEx(key, b, ttl, now), {key})
  {
    forall k | k !in {key} ensures Agree(sp, sp.SetEx(key, b, ttl, now), k) {}
  }

  lemma ExpireFrame(sp: Space, key: string, ttl: Duration, now: Instant)
    ensures SameOutside(sp, sp.ExpireAt(key, ttl, now), {key})
  {
    forall k | k !in {key} ensures Agree(sp, sp.ExpireAt(key, ttl, now), k) {}
  }

  lemma DeleteFrame(sp: Space, keys: set<string>)
    ensures SameOutside(sp, sp.Delete(keys), keys)
  {
    forall k | k !in keys ensures Agree(sp, sp.Delete(keys), k) {}
  }

  lemma LRemFrame(sp: Space, key: string, x: string, now: Instant)
    requires sp.ListAt(key, now).Some?
    ensures SameOutside(sp, sp.LRemItem(key, x, now), {key})
  {
    var ys := RemoveFirst(sp.ListAt(key, now).value, x);
    if !sp.Live(key, now) {
    } else if ys == [] {
      DeleteFrame(sp, {key});
    } else {
      PutFrame(sp, key, List(ys), now);
    }
  }

  /** What each primitive leaves at the key it names. */
  lemma PutWrites(sp: Space, key: string, v: Value, now: Instant)
    ensures sp.Put(key, v, now).Lookup(key, now) == Some(v)
    ensures sp.Live(key, now) ==> sp.Put(key, v, now).expiry == sp.expiry
  {
  }

  lemma SetExWrites(sp: Space, key: string, b: Blob, ttl: Duration, now: Instant)
    ensures ttl > 0 ==> sp.SetEx(key, b, ttl, now).Lookup(key, now) == Some(Str(b))
    ensures key in sp.SetEx(key, b, ttl, now).expiry && sp.SetEx(key, b, ttl, now).expiry[key] == now + ttl
  {
  }

  /** A positive TTL keeps a key's value readable and sets its deadline;
      EXPIRE on a key that is not live changes nothing. */
  lemma ExpireWrites(sp: Space, key: string, ttl: Duration, now: Instant)
    requires ttl > 0
    ensures sp.ExpireAt(key, ttl, now).Lookup(key, now) == sp.Lookup(key, now)
    ensures sp.Live(key, now) ==> key in sp.ExpireAt(key, ttl, now).expiry && sp.ExpireAt(key, ttl, now).expiry[key] == now + ttl
  {
  }

  lemma DeleteWrites(sp: Space, keys: set<string>, now: Instant)
    ensures forall k | k in keys :: sp.Delete(keys).Lookup(k, now).None?
  {
  }

  lemma LRemWrites(sp: Space, key: string, x: string, now: Instant)
    requires sp.ListAt(key, now).Some?
    ensures sp.LRemItem(key, x, now).ListAt(key, now) == Some(RemoveFirst(sp.ListAt(key, now).value, x))
  {
  }

  lemma LPushWrites(sp: Space, key: string, x: string, now: Instant)
    requires sp.ListAt(key, now).Some?
    ensures sp.LPushItem(key, x, now).ListAt(key, now) == Some([x] + sp.ListAt(key, now).value)
  {
  }

  /** The server together with the outcomes still scheduled for it. */
  datatype StoreState = StoreState(space: Space, faults: seq<bool>) {

    predicate Healthy() { faults == [] }

    predicate NextFails() { |faults| > 0 && faults[0] }

    /** The state after one command has consumed its scheduled outcome. */
    function Tick(): StoreState {
      if faults == [] then this else StoreState(space, faults[1..])
    }

    function After(s: Space): StoreState {
      StoreState(s, Tick().faults)
    }

    function Get(key: string, now: Instant): (Reply<Blob>, StoreState) {
      if NextFails() then (Failed(StoreFailure), Tick())
      else match space.Lookup(key, now)
        case None => (Missing, Tick())
        case Some(Str(b)) => (Found(b), Tick())
        case Some(_) => (Failed(StoreFailure), Tick())
    }

    function Set(key: string, b: Blob, ttl: Duration, now: Instant): (Outcome, StoreState) {
      if NextFails() then (Fail(StoreFailure), Tick())
      else (Pass, After(space.SetEx(key, b, ttl, now)))
    }

    /** EXPIRE; on a key that is not live it does nothing and is no error. */
    function Expire(key: string, ttl: Duration, now: Instant): (Outcome, StoreState) {
      if NextFails() then (Fail(StoreFailure), Tick())
      else (Pass, After(space.ExpireAt(key, ttl, now)))
    }

    function Del(keys: set<string>): (Outcome, StoreState) {
      if NextFails() then (Fail(StoreFailure), Tick())
      else (Pass, After(space.Delete(keys)))
    }

    function HSet(key: string, f: string, v: Field, now: Instant): (Outcome, StoreState) {
      if NextFails() || space.HashAt(key, now).None? then (Fail(StoreFailure), Tick())
      else (Pass, After(space.HSetField(key, f, v, now)))
    }

    /** HGETALL: an absent key reads as an empty hash. */
    function HGetAll(key: string, now: Instant): (Result<map<string, Field>>, StoreState) {
      if NextFails() || space.HashAt(key, now).None? then (Err(StoreFailure), Tick())
      else (Ok(space.HashAt(key, now).value), Tick())
    }

    /** HGET: a missing key or field is `redis.Nil`. */
    function HGet(key: string, f: string, now: Instant): (Reply<Field>, StoreState) {
      if NextFails() || space.HashAt(key, now).None? then (Failed(StoreFailure), Tick())
      else if f in space.HashAt(key, now).value then (Found(space.HashAt(key, now).value[f]), Tick())
      else (Missing, Tick())
    }

    /** LLEN: an absent key has length 0. */
    function LLen(key: string, now: Instant): (Result<nat>, StoreState) {
      if NextFails() || space.ListAt(key, now).None? then (Err(StoreFailure), Tick())
      else (Ok(|space.ListAt(key, now).value|), Tick())
    }

    /** LRANGE key 0 stop. */
    function LRange(key: string, stop: nat, now: Instant): (Result<seq<string>>, StoreState) {
      if NextFails() || space.ListAt(key, now).None? then (Err(StoreFailure), Tick())
      else
        var xs := space.ListAt(key, now).value;
        (Ok(if |xs| <= stop then xs else xs[..stop + 1]), Tick())
    }

    function LPush(key: string, x: string, now: Instant): (Outcome, StoreState) {
      if NextFails() || space.ListAt(key, now).None? then (Fail(StoreFailure), Tick())
      else (Pass, After(space.LPushItem(key, x, now)))
    }

    function LRem(key: string, x: string, now: Instant): (Outcome, StoreState) {
      if NextFails() || space.ListAt(key, now).None? then (Fail(StoreFailure), Tick())
      else (Pass, After(space.LRemItem(key, x, now)))
    }
  }

  /** A command that fails leaves the key space as it was; on a healthy
      server every command consumes nothing and the server stays healthy. */
  lemma FailedCommandsChangeNothing(st: StoreState, key: string, x: string, now: Instant)
    ensures st.LPush(key, x, now).0.Fail? ==> st.LPush(key, x, now).1.space == st.space
    ensures st.LRem(key, x, now).0.Fail? ==> st.LRem(key, x, now).1.space == st.space
    ensures st.Healthy() ==> st.Tick() == st
    ensures st.NextFails() ==> st.Del({key}).0 == Fail(StoreFailure)
  {
  }

  /** On a healthy server each command succeeds (when the key holds the
      right type), changes only the key it names, and leaves the server
      healthy. */
  lemma HealthyDel(st: StoreState, keys: set<string>, now: Instant)
    requires st.Healthy()
    ensures st.Del(keys) == (Pass, StoreState(st.space.Delete(keys), []))
    ensures SameOutside(st.space, st.space.Delete(keys), keys)
    ensures forall k | k in keys :: st.space.Delete(keys).Lookup(k, now).None?
  {
    DeleteFrame(st.space, keys);
  }

  lemma HealthyLRem(st: StoreState, key: string, x: string, now: Instant)
    requires st.Healthy() && st.space.ListAt(key, now).Some?
    ensures st.LRem(key, x, now) == (Pass, StoreState(st.space.LRemItem(key, x, now), []))
    ensures SameOutside(st.space, st.space.LRemItem(key, x, now), {key})
    ensures st.space.LRemItem(key, x, now).ListAt(key, now) == Some(RemoveFirst(st.space.ListAt(key, now).value, x))
  {
    LRemFrame(st.space, key, x, now);
    LRemWrites(st.space, key, x, now);
  }

  lemma HealthyLPush(st: StoreState, key: string, x: string, now: Instant)
    requires st.Healthy() && st.space.ListAt(key, now).Some?
    ensures st.LPush(key, x, now) == (Pass, StoreState(st.space.LPushItem(key, x, now), []))
    ensures SameOutside(st.space, st.space.LPushItem(key, x, now), {key})
    ensures st.space.LPushItem(key, x, now).ListAt(key, now) == Some([x] + st.space.ListAt(key, now).value)
  {
    PutFrame(st.space, key, List([x] + st.space.ListAt(key, now).value), now);
    LPushWrites(st.space, key, x, now);
  }

  lemma HealthyExpire(st: StoreState, key: string, ttl: Duration, now: Instant)
    requires st.Healthy() && ttl > 0
    ensures st.Expire(key, ttl, now) == (Pass, StoreState(st.space.ExpireAt(key, ttl, now), []))
    ensures SameOutside(st.space, st.space.ExpireAt(key, ttl, now), {key})
    ensures st.space.ExpireAt(key, ttl, now).Lookup(key, now) == st.space.Lookup(key, now)
    ensures st.space.Live(key, now) ==>
      key in st.space.ExpireAt(key, ttl, now).expiry && st.space.ExpireAt(key, ttl, now).expiry[key] == now + ttl
  {
    ExpireFrame(st.space, key, ttl, now);
    ExpireWrites(st.space, key, ttl, now);
  }

  lemma HealthySet(st: StoreState, key: string, b: Blob, ttl: Duration, now: Instant)
    requires st.Healthy() && ttl > 0
    ensures st.Set(key, b, ttl, now) == (Pass, StoreState(st.space.SetEx(key, b, ttl, now), []))
    ensures SameOutside(st.space, st.space.SetEx(key, b, ttl, now), {key})
    ensures st.space.SetEx(key, b, ttl, now).Lookup(key, now) == Some(Str(b))
    ensures key in st.space.SetEx(key, b, ttl, now).expiry && st.space.SetEx(key, b, ttl, now).expiry[key] == now + ttl
  {
    SetExFrame(st.space, key, b, ttl, now);
    SetExWrites(st.space, key, b, ttl, now);
  }

  /** The Redis client: the key space and the TTL map it mutates, and the
      outcomes scheduled for its next commands. */
  class Store {
    var data: map<string, Value>
    var expiry: map<string, Instant>
    var faults: seq<bool>

    function State(): StoreState
      reads this
    {
      StoreState(Space(data, expiry), faults)
    }

    constructor(data: map<string, Value>, expiry: map<string, Instant>, faults: seq<bool>)
      ensures State() == StoreState(Space(data, expiry), faults)
    {
      this.data, this.expiry, this.faults := data, expiry, faults;
    }

    method Become(st: StoreState)
      modifies this
      ensures State() == st
    {
      data, expiry, faults := st.space.data, st.space.expiry, st.faults;
    }

    method Get(key: string, now: Instant) returns (r: Reply<Blob>)
      modifies this
      ensures (r, State()) == old(State().Get(key, now))
    {
      var res := State().Get(key, now);
      r := res.0;
      Become(res.1);
    }

    method Set(key: string, b: Blob, ttl: Duration, now: Instant) returns (r: Outcome)
      modifies this
      ensures (r, State()) == old(State().Set(key, b, ttl, now))
    {
      var res := State().Set(key, b, ttl, now);
      r := res.0;
      Become(res.1);
    }

    method Expire(key: string, ttl: Duration, now: Instant) returns (r: Outcome)
      modifies this
      ensures (r, State()) == old(State().Expire(key, ttl, now))
    {
      var res := State().Expire(key, ttl, now);
      r := res.0;
      Become(res.1);
    }

    method Del(keys: set<string>) returns (r: Outcome)
      modifies this
      ensures (r, State()) == old(State().Del(keys))
    {
      var res := State().Del(keys);
      r := res.0;
      Become(res.1);
    }

    method HSet(key: string, f: string, v: Field, now: Instant) returns (r: Outcome)
      modifies this
      ensures (r, State()) == old(State().HSet(key, f, v, now))
    {
      var res := State().HSet(key, f, v, now);
      r := res.0;
      Become(res.1);
    }

    method HGetAll(key: string, now: Instant) returns (r: Result<map<string, Field>>)
      modifies this
      ensures (r, State()) == old(State().HGetAll(key, now))
    {
      var res := State().HGetAll(key, now);
      r := res.0;
      Become(res.1);
    }

    method HGet(key: string, f: string, now: Instant) returns (r: Reply<Field>)
      modifies this
      ensures (r, State()) == old(State().HGet(key, f, now))
    {
      var res := State().HGet(key, f, now);
      r := res.0;
      Become(res.1);
    }

    method LLen(key: string, now: Instant) returns (r: Result<nat>)
      modifies this
      ensures (r, State()) == old(State().LLen(key, now))
    {
      var res := State().LLen(key, now);
      r := res.0;
      Become(res.1);
    }

    method LRange(key: string, stop: nat, now: Instant) returns (r: Result<seq<string>>)
      modifies this
      ensures (r, State()) == old(State().LRange(key, stop, now))
    {
      var res := State().LRange(key, stop, now);
      r := res.0;
      Become(res.1);
    }

    method LPush(key: string, x: string, now: Instant) returns (r: Outcome)
      modifies this
      ensures (r, State()) == old(State().LPush(key, x, now))
    {
      var res := State().LPush(key, x, now);
      r := res.0;
      Become(res.1);
    }

    method LRem(key: string, x: string, now: Instant) returns (r: Outcome)
      modifies this
      ensures (r, State()) == old(State().LRem(key, x, now))
    {
      var res := State().LRem(key, x, now);
      r := res.0;
      Become(res.1);
    }
  }
}
