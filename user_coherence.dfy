/** A user cache that agrees with the table: a live id key holds the row
    with that id, a live login key the row with that login. Every operation
    keeps the agreement on a healthy key-value server, so reads return what
    the table holds, also after a login change, whose new login key
    `Update` leaves alone: the unique login index guarantees that no copy
    can be cached under it (src/internal/user/cache.go,
    src/internal/user/cache_test.go:80-111). */
module UserCoherence {
  import opened Results
  import opened Uuids
  import opened Clock
  import opened Text
  import opened UserModel
  import opened KeyValue
  import opened UserService
  import opened UserDb
  import opened UserCache

  predicate CachedUser(sp: Space, rows: seq<User>, id: Uuid, now: Instant) {
    match sp.Lookup(UserKey(id), now)
    case None => true
    case Some(v) => Find(rows, id).Some? && v == Str(UserJson(Find(rows, id).value))
  }

  predicate CachedLogin(sp: Space, rows: seq<User>, l: string, now: Instant) {
    match sp.Lookup(LoginKey(l), now)
    case None => true
    case Some(v) => FindLogin(rows, l).Some? && v == Str(UserJson(FindLogin(rows, l).value))
  }

  ghost predicate Coherent(sp: Space, rows: seq<User>, now: Instant) {
    && UniqueKeys(rows)
    && (forall id: Uuid :: CachedUser(sp, rows, id, now))
    && (forall l: string :: CachedLogin(sp, rows, l, now))
  }

  lemma EmptyIsCoherent(rows: seq<User>, now: Instant)
    requires UniqueKeys(rows)
    ensures Coherent(Space(map[], map[]), rows, now)
  {
  }

  lemma CoherentLater(sp: Space, rows: seq<User>, now: Instant, later: Instant)
    requires Coherent(sp, rows, now) && now <= later
    ensures Coherent(sp, rows, later)
  {
    forall id: Uuid ensures CachedUser(sp, rows, id, later) {
      assert CachedUser(sp, rows, id, now);
    }
    forall l: string ensures CachedLogin(sp, rows, l, later) {
      assert CachedLogin(sp, rows, l, now);
    }
  }

  // ---------------------------------------------------------------------
  // Frames

  /** Deleting keys never breaks the agreement. */
  lemma CoherentAfterDelete(a: Space, rows: seq<User>, keys: set<string>, now: Instant)
    requires Coherent(a, rows, now)
    ensures Coherent(a.Delete(keys), rows, now)
  {
    var b := a.Delete(keys);
    forall id: Uuid ensures CachedUser(b, rows, id, now) {
      assert CachedUser(a, rows, id, now);
    }
    forall l: string ensures CachedLogin(b, rows, l, now) {
      assert CachedLogin(a, rows, l, now);
    }
  }

  /** A table change keeps the agreement if every id and login it moves
      has no live key. */
  lemma CoherentAfterTableWrite(a: Space, rows: seq<User>, rows': seq<User>, now: Instant)
    requires Coherent(a, rows, now) && UniqueKeys(rows')
    requires forall id: Uuid :: Find(rows', id) == Find(rows, id) || a.Lookup(UserKey(id), now).None?
    requires forall l: string :: FindLogin(rows', l) == FindLogin(rows, l) || a.Lookup(LoginKey(l), now).None?
    ensures Coherent(a, rows', now)
  {
    forall id: Uuid ensures CachedUser(a, rows', id, now) {
      assert CachedUser(a, rows, id, now);
    }
    forall l: string ensures CachedLogin(a, rows', l, now) {
      assert CachedLogin(a, rows, l, now);
    }
  }

  lemma CoherentAfterIdWrite(a: Space, b: Space, rows: seq<User>, i: Uuid, now: Instant)
    requires Coherent(a, rows, now) && SameOutside(a, b, {UserKey(i)}) && CachedUser(b, rows, i, now)
    ensures Coherent(b, rows, now)
  {
    forall id: Uuid ensures CachedUser(b, rows, id, now) {
      if id != i {
        UserKeysInjectiveAndDisjoint(id, i, "", "");
        AgreeReads(a, b, UserKey(id), now);
        assert CachedUser(a, rows, id, now);
      }
    }
    forall l: string ensures CachedLogin(b, rows, l, now) {
      UserKeysInjectiveAndDisjoint(i, i, l, l);
      AgreeReads(a, b, LoginKey(l), now);
      assert CachedLogin(a, rows, l, now);
    }
  }

  lemma CoherentAfterLoginWrite(a: Space, b: Space, rows: seq<User>, m: string, now: Instant)
    requires Coherent(a, rows, now) && SameOutside(a, b, {LoginKey(m)}) && CachedLogin(b, rows, m, now)
    ensures Coherent(b, rows, now)
  {
    forall id: Uuid ensures CachedUser(b, rows, id, now) {
      UserKeysInjectiveAndDisjoint(id, id, m, m);
      AgreeReads(a, b, UserKey(id), now);
      assert CachedUser(a, rows, id, now);
    }
    forall l: string ensures CachedLogin(b, rows, l, now) {
      if l != m {
        UserKeysInjectiveAndDisjoint(NilUuid, NilUuid, l, m);
        AgreeReads(a, b, LoginKey(l), now);
        assert CachedLogin(a, rows, l, now);
      }
    }
  }

  // ---------------------------------------------------------------------
  // Reads

  lemma FetchKeepsCoherent(st: StoreState, db: DbState, id: Uuid, now: Instant)
    requires st.Healthy() && Coherent(st.space, db.rows, now)
    ensures Coherent(FetchSpec(st, db, id, now).store.space, FetchSpec(st, db, id, now).db.rows, now)
    ensures FetchSpec(st, db, id, now).store.Healthy()
    ensures FetchSpec(st, db, id, now).result.Ok? ==> Find(db.rows, id) == Some(FetchSpec(st, db, id, now).result.value)
  {
    var f := FetchSpec(st, db, id, now);
    assert CachedUser(st.space, db.rows, id, now);
    match st.space.Lookup(UserKey(id), now)
    case None =>
      var r := db.Fetch(id).0;
      if r.Ok? {
        HealthySet(st, UserKey(id), UserJson(r.value), DefaultTTL, now);
        CoherentAfterIdWrite(st.space, f.store.space, db.rows, id, now);
      }
    case Some(v) =>
      HealthyExpire(st, UserKey(id), DefaultTTL, now);
      CoherentAfterIdWrite(st.space, f.store.space, db.rows, id, now);
  }

  /** On a healthy server and table, `Fetch` returns exactly the table's
      answer. */
  lemma FetchReadsThrough(st: StoreState, db: DbState, id: Uuid, now: Instant)
    requires st.Healthy() && db.Healthy() && Coherent(st.space, db.rows, now)
    ensures FetchSpec(st, db, id, now).result == if Find(db.rows, id).Some? then Ok(Find(db.rows, id).value) else Err(UserNotExists)
  {
    assert CachedUser(st.space, db.rows, id, now);
  }

  lemma FetchLoginKeepsCoherent(st: StoreState, db: DbState, login: string, now: Instant)
    requires st.Healthy() && Coherent(st.space, db.rows, now)
    ensures Coherent(FetchLoginSpec(st, db, login, now).store.space, FetchLoginSpec(st, db, login, now).db.rows, now)
    ensures FetchLoginSpec(st, db, login, now).store.Healthy()
  {
    var l := Lower(login);
    LowerIsLower(login);
    var f := FetchLoginSpec(st, db, login, now);
    assert CachedLogin(st.space, db.rows, l, now);
    match st.space.Lookup(LoginKey(l), now)
    case None =>
      var r := db.FetchLogin(l).0;
      if r.Ok? {
        HealthySet(st, LoginKey(l), UserJson(r.value), DefaultTTL, now);
        CoherentAfterLoginWrite(st.space, f.store.space, db.rows, l, now);
      }
    case Some(v) =>
      HealthyExpire(st, LoginKey(l), DefaultTTL, now);
      CoherentAfterLoginWrite(st.space, f.store.space, db.rows, l, now);
  }

  /** `FetchLogin` returns the row whose login is the lower-cased
      argument, so spellings that differ only in case find the same
      user. */
  lemma FetchLoginReadsThrough(st: StoreState, db: DbState, login: string, now: Instant)
    requires st.Healthy() && db.Healthy() && Coherent(st.space, db.rows, now)
    ensures FetchLoginSpec(st, db, login, now).result ==
      if FindLogin(db.rows, Lower(login)).Some? then Ok(FindLogin(db.rows, Lower(login)).value) else Err(UserNotExists)
  {
    LowerIsLower(login);
    assert CachedLogin(st.space, db.rows, Lower(login), now);
  }

  // ---------------------------------------------------------------------
  // Writes

  lemma CreateKeepsCoherent(st: StoreState, db: DbState, u: User, now: Instant)
    requires Coherent(st.space, db.rows, now)
    ensures Coherent(CreateSpec(st, db, u).store.space, CreateSpec(st, db, u).db.rows, now)
  {
    CreateKeepsUniqueKeys(db, u);
    if db.Create(u).0.Pass? {
      var rows' := db.rows + [u];
      forall id: Uuid ensures Find(rows', id) == Find(db.rows, id) || st.space.Lookup(UserKey(id), now).None? {
        FindAppend(db.rows, u, id, u.login);
        assert CachedUser(st.space, db.rows, id, now);
      }
      forall l: string ensures FindLogin(rows', l) == FindLogin(db.rows, l) || st.space.Lookup(LoginKey(l), now).None? {
        FindAppend(db.rows, u, u.id, l);
        assert CachedLogin(st.space, db.rows, l, now);
      }
      CoherentAfterTableWrite(st.space, db.rows, rows', now);
    }
  }

  /** Saving a row over `v` and deleting `v`'s two keys restores the
      agreement. */
  lemma SavedCoherent(sp: Space, rows: seq<User>, v: User, u: User, now: Instant)
    requires Coherent(sp, rows, now) && Find(rows, u.id) == Some(v) && !LoginTaken(rows, u)
    ensures Coherent(sp.Delete(UserKeys(v.id, v.login)), Saved(rows, u), now)
  {
    var a := sp.Delete(UserKeys(v.id, v.login));
    CoherentAfterDelete(sp, rows, UserKeys(v.id, v.login), now);
    var k :| 0 <= k < |rows| && rows[k] == v;
    ReplacedKeys(rows, v, u, k);
    forall id: Uuid ensures Find(ReplaceAll(rows, u), id) == Find(rows, id) || a.Lookup(UserKey(id), now).None? {
      FindReplaced(rows, u, id);
    }
    SavedLogins(sp, rows, v, u, now);
    CoherentAfterTableWrite(a, rows, Saved(rows, u), now);
  }

  /** Only the old login and the new one move, and neither has a live key
      once the old login's key is deleted. */
  lemma SavedLogins(sp: Space, rows: seq<User>, v: User, u: User, now: Instant)
    requires Coherent(sp, rows, now) && Find(rows, u.id) == Some(v) && !LoginTaken(rows, u)
    ensures forall l: string ::
      FindLogin(Saved(rows, u), l) == FindLogin(rows, l) || sp.Delete(UserKeys(v.id, v.login)).Lookup(LoginKey(l), now).None?
  {
    var a := sp.Delete(UserKeys(v.id, v.login));
    forall l: string ensures FindLogin(Saved(rows, u), l) == FindLogin(rows, l) || a.Lookup(LoginKey(l), now).None? {
      FindLoginReplaced(rows, v, u, l);
      if l == u.login && l != v.login {
        // the new login was free, so nothing can be cached under it
        NewLoginFree(rows, v, u);
        assert CachedLogin(sp, rows, l, now);
      }
    }
  }

  /** A login change that the unique index admits moves to a login no
      row holds. */
  lemma NewLoginFree(rows: seq<User>, v: User, u: User)
    requires UniqueKeys(rows) && Find(rows, u.id) == Some(v) && !LoginTaken(rows, u) && u.login != v.login
    ensures FindLogin(rows, u.login).None?
  {
    if FindLogin(rows, u.login).Some? {
      var w := FindLogin(rows, u.login).value;
      FindBoth(rows, w);
    }
  }

  /** Removing the row `v` and deleting its two keys restores the
      agreement. */
  lemma WithoutCoherent(sp: Space, rows: seq<User>, v: User, now: Instant)
    requires Coherent(sp, rows, now) && v in rows
    ensures Coherent(sp.Delete(UserKeys(v.id, v.login)), Without(rows, v.id), now)
  {
    var a := sp.Delete(UserKeys(v.id, v.login));
    CoherentAfterDelete(sp, rows, UserKeys(v.id, v.login), now);
    var rows' := Without(rows, v.id);
    FindWithout(rows, v, v.id, "");
    forall x: Uuid ensures Find(rows', x) == Find(rows, x) || a.Lookup(UserKey(x), now).None? {
      FindWithout(rows, v, x, "");
    }
    forall l: string ensures FindLogin(rows', l) == FindLogin(rows, l) || a.Lookup(LoginKey(l), now).None? {
      FindWithout(rows, v, v.id, l);
    }
    CoherentAfterTableWrite(a, rows, rows', now);
  }

  lemma UpdateKeepsCoherent(st: StoreState, db: DbState, u: User, now: Instant)
    requires st.Healthy() && Coherent(st.space, db.rows, now)
    ensures Coherent(UpdateSpec(st, db, u, now).store.space, UpdateSpec(st, db, u, now).db.rows, now)
    ensures UpdateSpec(st, db, u, now).store.Healthy()
  {
    var f := FetchSpec(st, db, u.id, now);
    FetchKeepsCoherent(st, db, u.id, now);
    if f.result.Ok? && f.db.Update(u).0.Pass? {
      SavedCoherent(f.store.space, db.rows, f.result.value, u, now);
    }
  }

  lemma DeleteKeepsCoherent(st: StoreState, db: DbState, id: Uuid, now: Instant)
    requires st.Healthy() && Coherent(st.space, db.rows, now)
    ensures Coherent(DeleteSpec(st, db, id, now).store.space, DeleteSpec(st, db, id, now).db.rows, now)
    ensures DeleteSpec(st, db, id, now).store.Healthy()
  {
    var f := FetchSpec(st, db, id, now);
    FetchKeepsCoherent(st, db, id, now);
    if f.result.Ok? && f.db.Delete(id).0.Pass? {
      WithoutCoherent(f.store.space, db.rows, f.result.value, now);
    }
  }

  // ---------------------------------------------------------------------
  // Reads after writes (cache_test.go:80-111)

  /** After creating a user, `Fetch` by id and `FetchLogin` by the stored
      login both return it. */
  lemma CreateThenFetch(st: StoreState, db: DbState, u: User, now: Instant, later: Instant)
    requires st.Healthy() && db.Healthy() && Coherent(st.space, db.rows, now) && now <= later && IsLower(u.login)
    ensures CreateSpec(st, db, u).result.Pass? ==>
      && FetchSpec(CreateSpec(st, db, u).store, CreateSpec(st, db, u).db, u.id, later).result == Ok(u)
      && FetchLoginSpec(CreateSpec(st, db, u).store, CreateSpec(st, db, u).db, u.login, later).result == Ok(u)
  {
    var c := CreateSpec(st, db, u);
    CreateKeepsCoherent(st, db, u, now);
    if c.result.Pass? {
      CoherentLater(c.store.space, c.db.rows, now, later);
      FindAppend(db.rows, u, u.id, u.login);
      LowerOfLower(u.login);
      FetchReadsThrough(c.store, c.db, u.id, later);
      FetchLoginReadsThrough(c.store, c.db, u.login, later);
    }
  }

  /** After an `Update` that changes the login, `Fetch` returns the new
      row, the new login finds it, and the old login finds nothing. */
  lemma UpdateThenFetch(st: StoreState, db: DbState, u: User, now: Instant, later: Instant)
    requires st.Healthy() && db.Healthy() && Coherent(st.space, db.rows, now) && now <= later
    requires Find(db.rows, u.id).Some? && IsLower(u.login) && IsLower(Find(db.rows, u.id).value.login)
    ensures UpdateSpec(st, db, u, now).result == if LoginTaken(db.rows, u) then Fail(DbFailure) else Pass
    ensures UpdateSpec(st, db, u, now).result.Pass? ==>
      && FetchSpec(UpdateSpec(st, db, u, now).store, UpdateSpec(st, db, u, now).db, u.id, later).result == Ok(u)
      && FetchLoginSpec(UpdateSpec(st, db, u, now).store, UpdateSpec(st, db, u, now).db, u.login, later).result == Ok(u)
    ensures UpdateSpec(st, db, u, now).result.Pass? && u.login != Find(db.rows, u.id).value.login ==>
      FetchLoginSpec(UpdateSpec(st, db, u, now).store, UpdateSpec(st, db, u, now).db, Find(db.rows, u.id).value.login, later).result
        == Err(UserNotExists)
  {
    var v := Find(db.rows, u.id).value;
    var r := UpdateSpec(st, db, u, now);
    FetchReadsThrough(st, db, u.id, now);
    FetchKeepsCoherent(st, db, u.id, now);
    UpdateKeepsCoherent(st, db, u, now);
    if r.result.Pass? {
      CoherentLater(r.store.space, r.db.rows, now, later);
      assert r.db.rows == ReplaceAll(db.rows, u);
      FindReplaced(db.rows, u, u.id);
      FindLoginReplaced(db.rows, v, u, u.login);
      FindLoginReplaced(db.rows, v, u, v.login);
      LowerOfLower(u.login);
      LowerOfLower(v.login);
      FetchReadsThrough(r.store, r.db, u.id, later);
      FetchLoginReadsThrough(r.store, r.db, u.login, later);
      FetchLoginReadsThrough(r.store, r.db, v.login, later);
    }
  }

  /** After `Delete`, neither the id nor the login finds the user. */
  lemma DeleteThenFetch(st: StoreState, db: DbState, id: Uuid, now: Instant, later: Instant)
    requires st.Healthy() && db.Healthy() && Coherent(st.space, db.rows, now) && now <= later
    ensures DeleteSpec(st, db, id, now).result == if Find(db.rows, id).Some? then Pass else Fail(UserNotExists)
    ensures DeleteSpec(st, db, id, now).result.Pass? ==>
      FetchSpec(DeleteSpec(st, db, id, now).store, DeleteSpec(st, db, id, now).db, id, later).result == Err(UserNotExists)
    ensures DeleteSpec(st, db, id, now).result.Pass? && IsLower(Find(db.rows, id).value.login) ==>
      FetchLoginSpec(DeleteSpec(st, db, id, now).store, DeleteSpec(st, db, id, now).db, Find(db.rows, id).value.login, later).result
           == Err(UserNotExists)
  {
    var r := DeleteSpec(st, db, id, now);
    FetchReadsThrough(st, db, id, now);
    DeleteKeepsCoherent(st, db, id, now);
    if r.result.Pass? {
      var v := Find(db.rows, id).value;
      CoherentLater(r.store.space, r.db.rows, now, later);
      FindWithout(db.rows, v, id, v.login);
      if IsLower(v.login) {
        LowerOfLower(v.login);
      }
      FetchReadsThrough(r.store, r.db, id, later);
      FetchLoginReadsThrough(r.store, r.db, v.login, later);
    }
  }
}
