/** What the user cache promises one call at a time: which keys each
    operation touches, that the login is lower-cased before every lookup,
    and how errors propagate (src/internal/user/cache.go). */
module UserProperties {
  import opened Results
  import opened Uuids
  import opened Clock
  import opened Text
  import opened UserModel
  import opened KeyValue
  import opened UserService
  import opened UserDb
  import opened UserCache

  /** `Create` only passes through: no key is written or deleted. */
  lemma CreatePassesThrough(st: StoreState, db: DbState, u: User)
    ensures CreateSpec(st, db, u).store == st
    ensures CreateSpec(st, db, u).result == db.Create(u).0 && CreateSpec(st, db, u).db == db.Create(u).1
    ensures CreateSpec(st, db, u).result.Pass? ==> CreateSpec(st, db, u).db.rows == db.rows + [u]
  {
  }

  /** A miss reads the table; its failure, `ErrUserIsNotExists` included,
      is returned uncached, and a row found is cached under its id. */
  lemma FetchMiss(st: StoreState, db: DbState, id: Uuid, now: Instant)
    requires !st.NextFails() && st.space.Lookup(UserKey(id), now).None?
    ensures FetchSpec(st, db, id, now).db == db.Fetch(id).1
    ensures db.Fetch(id).0.Err? ==>
      FetchSpec(st, db, id, now).result == db.Fetch(id).0 && FetchSpec(st, db, id, now).store.space == st.space
    ensures SameOutside(st.space, FetchSpec(st, db, id, now).store.space, {UserKey(id)})
    ensures FetchSpec(st, db, id, now).result.Ok? ==>
      && FetchSpec(st, db, id, now).result == db.Fetch(id).0
      && FetchSpec(st, db, id, now).store.space.Lookup(UserKey(id), now) == Some(Str(UserJson(FetchSpec(st, db, id, now).result.value)))
      && FetchSpec(st, db, id, now).store.space.expiry[UserKey(id)] == now + DefaultTTL
  {
    var f := db.Fetch(id).0;
    if f.Ok? {
      SetExFrame(st.space, UserKey(id), UserJson(f.value), DefaultTTL, now);
      SetExWrites(st.space, UserKey(id), UserJson(f.value), DefaultTTL, now);
    }
  }

  /** A hit never consults the table; a document that is not a user is a
      decoding error, not a miss. */
  lemma FetchHit(st: StoreState, db: DbState, id: Uuid, b: Blob, now: Instant)
    requires !st.NextFails() && st.space.Lookup(UserKey(id), now) == Some(Str(b))
    ensures FetchSpec(st, db, id, now).db == db
    ensures !b.UserJson? ==> FetchSpec(st, db, id, now).result == Err(Malformed) && FetchSpec(st, db, id, now).store.space == st.space
    ensures b.UserJson? ==> FetchSpec(st, db, id, now).result in {Ok(b.user), Err(StoreFailure)}
    ensures SameOutside(st.space, FetchSpec(st, db, id, now).store.space, {UserKey(id)})
    ensures FetchSpec(st, db, id, now).result.Ok? ==> FetchSpec(st, db, id, now).store.space.expiry[UserKey(id)] == now + DefaultTTL
  {
    ExpireFrame(st.space, UserKey(id), DefaultTTL, now);
    ExpireWrites(st.space, UserKey(id), DefaultTTL, now);
  }

  lemma FetchStoreError(st: StoreState, db: DbState, id: Uuid, now: Instant)
    requires st.NextFails() || (st.space.Lookup(UserKey(id), now).Some? && !st.space.Lookup(UserKey(id), now).value.Str?)
    ensures FetchSpec(st, db, id, now).result == Err(StoreFailure)
    ensures FetchSpec(st, db, id, now).db == db && FetchSpec(st, db, id, now).store.space == st.space
  {
  }

  /** A miss by login asks the table for the lower-cased login and caches
      the row under the key later lookups of any spelling of that login
      use; a failure of the table is returned uncached. */
  lemma FetchLoginMiss(st: StoreState, db: DbState, login: string, now: Instant)
    requires !st.NextFails() && st.space.Lookup(LoginKey(Lower(login)), now).None?
    ensures FetchLoginSpec(st, db, login, now).db == db.FetchLogin(Lower(login)).1
    ensures db.FetchLogin(login).0.Err? ==>
      FetchLoginSpec(st, db, login, now).result == db.FetchLogin(login).0 && FetchLoginSpec(st, db, login, now).store.space == st.space
    ensures SameOutside(st.space, FetchLoginSpec(st, db, login, now).store.space, {LoginKey(Lower(login))})
    ensures FetchLoginSpec(st, db, login, now).result.Ok? ==>
      && FetchLoginSpec(st, db, login, now).result == db.FetchLogin(login).0
      && FetchLoginSpec(st, db, login, now).result.value.login == Lower(login)
      && FetchLoginSpec(st, db, login, now).store.space.Lookup(LoginKey(Lower(login)), now)
           == Some(Str(UserJson(FetchLoginSpec(st, db, login, now).result.value)))
      && FetchLoginSpec(st, db, login, now).store.space.expiry[LoginKey(Lower(login))] == now + DefaultTTL
  {
    LowerIsLower(login);
    var f := db.FetchLogin(Lower(login)).0;
    if f.Ok? {
      SetExFrame(st.space, LoginKey(f.value.login), UserJson(f.value), DefaultTTL, now);
      SetExWrites(st.space, LoginKey(f.value.login), UserJson(f.value), DefaultTTL, now);
    }
  }

  /** A hit by login returns the decoded user without consulting the
      table, and restarts the TTL of the key of the decoded user's login,
      which need not be the key just read. */
  lemma FetchLoginHit(st: StoreState, db: DbState, login: string, b: Blob, now: Instant)
    requires !st.NextFails() && st.space.Lookup(LoginKey(Lower(login)), now) == Some(Str(b))
    ensures FetchLoginSpec(st, db, login, now).db == db
    ensures !b.UserJson? ==> FetchLoginSpec(st, db, login, now).result == Err(Malformed) && FetchLoginSpec(st, db, login, now).store.space == st.space
    ensures b.UserJson? ==>
      && FetchLoginSpec(st, db, login, now).result in {Ok(b.user), Err(StoreFailure)}
      && SameOutside(st.space, FetchLoginSpec(st, db, login, now).store.space, {LoginKey(b.user.login)})
      && FetchLoginSpec(st, db, login, now).store.space.Lookup(LoginKey(b.user.login), now) == st.space.Lookup(LoginKey(b.user.login), now)
      && (FetchLoginSpec(st, db, login, now).result.Ok? && st.space.Live(LoginKey(b.user.login), now) ==>
            FetchLoginSpec(st, db, login, now).store.space.expiry[LoginKey(b.user.login)] == now + DefaultTTL)
  {
    if b.UserJson? {
      ExpireFrame(st.space, LoginKey(b.user.login), DefaultTTL, now);
      ExpireWrites(st.space, LoginKey(b.user.login), DefaultTTL, now);
    }
  }

  /** `Update` saves the row only after a successful `Fetch`, then deletes
      the id key and the key of the login as fetched; the key of the new
      login is left as it was. */
  lemma UpdateFetchesFirst(st: StoreState, db: DbState, u: User, now: Instant)
    ensures FetchSpec(st, db, u.id, now).result.Err? ==>
      && UpdateSpec(st, db, u, now).result == Fail(FetchSpec(st, db, u.id, now).result.error)
      && UpdateSpec(st, db, u, now).db.rows == db.rows
    ensures FetchSpec(st, db, u.id, now).result.Ok? ==>
      && UpdateSpec(st, db, u, now).db == FetchSpec(st, db, u.id, now).db.Update(u).1
      && SameOutside(FetchSpec(st, db, u.id, now).store.space, UpdateSpec(st, db, u, now).store.space,
                     UserKeys(FetchSpec(st, db, u.id, now).result.value.id, FetchSpec(st, db, u.id, now).result.value.login))
    ensures FetchSpec(st, db, u.id, now).result.Ok? && u.login != FetchSpec(st, db, u.id, now).result.value.login ==>
      Agree(FetchSpec(st, db, u.id, now).store.space, UpdateSpec(st, db, u, now).store.space, LoginKey(u.login))
    ensures UpdateSpec(st, db, u, now).result.Pass? ==>
      && UpdateSpec(st, db, u, now).db.rows == Saved(db.rows, u)
      && UpdateSpec(st, db, u, now).store.space.Lookup(UserKey(FetchSpec(st, db, u.id, now).result.value.id), now).None?
      && UpdateSpec(st, db, u, now).store.space.Lookup(LoginKey(FetchSpec(st, db, u.id, now).result.value.login), now).None?
  {
    var f := FetchSpec(st, db, u.id, now);
    if f.result.Ok? {
      var v := f.result.value;
      DeleteFrame(f.store.space, UserKeys(v.id, v.login));
      UserKeysInjectiveAndDisjoint(v.id, v.id, u.login, v.login);
    }
  }

  /** `Delete` in the same shape: no fetched user, no row removed. */
  lemma DeleteFetchesFirst(st: StoreState, db: DbState, id: Uuid, now: Instant)
    ensures FetchSpec(st, db, id, now).result.Err? ==>
      && DeleteSpec(st, db, id, now).result == Fail(FetchSpec(st, db, id, now).result.error)
      && DeleteSpec(st, db, id, now).db.rows == db.rows
    ensures FetchSpec(st, db, id, now).result.Ok? ==>
      && DeleteSpec(st, db, id, now).db == FetchSpec(st, db, id, now).db.Delete(id).1
      && SameOutside(FetchSpec(st, db, id, now).store.space, DeleteSpec(st, db, id, now).store.space,
                     UserKeys(id, FetchSpec(st, db, id, now).result.value.login))
    ensures DeleteSpec(st, db, id, now).result.Pass? ==>
      && DeleteSpec(st, db, id, now).db.rows == Without(db.rows, id)
      && DeleteSpec(st, db, id, now).store.space.Lookup(UserKey(id), now).None?
      && DeleteSpec(st, db, id, now).store.space.Lookup(LoginKey(FetchSpec(st, db, id, now).result.value.login), now).None?
  {
    var f := FetchSpec(st, db, id, now);
    if f.result.Ok? {
      DeleteFrame(f.store.space, UserKeys(id, f.result.value.login));
    }
  }
}
