/** The read-through, invalidate-on-write user cache (src/internal/user/cache.go),
    given as functions over the key-value state and the table, and as the
    methods of `RepositoryCache` proved to agree with them. */
module UserCache {
  import opened Results
  import opened Uuids
  import opened Clock
  import opened Text
  import opened UserModel
  import opened KeyValue
  import opened UserService
  import opened UserDb

  /** `json.Unmarshal` into a `User`. */
  function DecodeUser(b: Blob): (r: Result<User>)
    ensures r.Ok? <==> b.UserJson?
    ensures r.Ok? ==> b == UserJson(r.value)
    ensures r.Err? ==> r.error == Malformed
  {
    if b.UserJson? then Ok(b.user) else Err(Malformed)
  }

  /** The two keys that can hold a copy of user `u`. */
  function UserKeys(id: Uuid, login: string): set<string> {
    {UserKey(id), LoginKey(login)}
  }

  /** `Create`: straight to the table; the cache is not touched. */
  function CreateSpec(st: StoreState, db: DbState, u: User): Run<Outcome, DbState> {
    Run(db.Create(u).0, st, db.Create(u).1)
  }

  /** `Fetch`: GET the id key; on a miss read the table and SET the user
      under its id for an hour; on a hit decode and EXPIRE. */
  function FetchSpec(st: StoreState, db: DbState, userId: Uuid, now: Instant): Run<Result<User>, DbState> {
    var (g, st1) := st.Get(UserKey(userId), now);
    match g
    case Missing =>
      var (f, db1) := db.Fetch(userId);
      if f.Err? then Run(f, st1, db1)
      else
        var (o, st2) := st1.Set(UserKey(f.value.id), UserJson(f.value), DefaultTTL, now);
        Run(if o.Fail? then Err(o.error) else f, st2, db1)
    case Failed(e) => Run(Err(e), st1, db)
    case Found(b) =>
      var u := DecodeUser(b);
      if u.Err? then Run(u, st1, db)
      else
        var (o, st2) := st1.Expire(UserKey(userId), DefaultTTL, now);
        Run(if o.Fail? then Err(o.error) else u, st2, db)
  }

  /** `FetchLogin`: the login is lower-cased first. A miss caches the row
      under the key of its stored login; a hit restarts the TTL of the key
      of the decoded user's login. */
  function FetchLoginSpec(st: StoreState, db: DbState, login: string, now: Instant): Run<Result<User>, DbState> {
    var l := Lower(login);
    var (g, st1) := st.Get(LoginKey(l), now);
    match g
    case Missing =>
      var (f, db1) := db.FetchLogin(l);
      if f.Err? then Run(f, st1, db1)
      else
        var (o, st2) := st1.Set(LoginKey(f.value.login), UserJson(f.value), DefaultTTL, now);
        Run(if o.Fail? then Err(o.error) else f, st2, db1)
    case Failed(e) => Run(Err(e), st1, db)
    case Found(b) =>
      var u := DecodeUser(b);
      if u.Err? then Run(u, st1, db)
      else
        var (o, st2) := st1.Expire(LoginKey(u.value.login), DefaultTTL, now);
        Run(if o.Fail? then Err(o.error) else u, st2, db)
  }

  /** `Update`: fetch the current user, save the new row, then delete the
      id key and the key of the current (old) login. */
  function UpdateSpec(st: StoreState, db: DbState, u: User, now: Instant): Run<Outcome, DbState> {
    var f := FetchSpec(st, db, u.id, now);
    if f.result.Err? then Run(Fail(f.result.error), f.store, f.db)
    else
      var (o, db2) := f.db.Update(u);
      if o.Fail? then Run(o, f.store, db2)
      else
        var (p, st2) := f.store.Del(UserKeys(f.result.value.id, f.result.value.login));
        Run(p, st2, db2)
  }

  /** `Delete`: fetch, remove the row, delete the id key and the fetched
      user's login key. */
  function DeleteSpec(st: StoreState, db: DbState, userId: Uuid, now: Instant): Run<Outcome, DbState> {
    var f := FetchSpec(st, db, userId, now);
    if f.result.Err? then Run(Fail(f.result.error), f.store, f.db)
    else
      var (o, db2) := f.db.Delete(userId);
      if o.Fail? then Run(o, f.store, db2)
      else
        var (p, st2) := f.store.Del(UserKeys(userId, f.result.value.login));
        Run(p, st2, db2)
  }

  /** The cache: the shared Redis client and the table it fronts. */
  class RepositoryCache {
    const client: Store
    const repo: Db

    constructor(client: Store, repo: Db)
      ensures this.client == client && this.repo == repo
    {
      this.client, this.repo := client, repo;
    }

    method Create(u: User) returns (r: Outcome)
      modifies repo
      ensures Run(r, client.State(), repo.State()) == old(CreateSpec(client.State(), repo.State(), u))
    {
      r := repo.Create(u);
    }

    method Fetch(userId: Uuid, now: Instant) returns (r: Result<User>)
      modifies client, repo
      ensures Run(r, client.State(), repo.State()) == old(FetchSpec(client.State(), repo.State(), userId, now))
    {
      var g := client.Get(UserKey(userId), now);
      match g {
        case Missing =>
          r := repo.Fetch(userId);
          if r.Err? {
            return;
          }
          var o := client.Set(UserKey(r.value.id), UserJson(r.value), DefaultTTL, now);
          if o.Fail? {
            r := Err(o.error);
          }
        case Failed(e) =>
          r := Err(e);
        case Found(b) =>
          r := DecodeUser(b);
          if r.Err? {
            return;
          }
          var o := client.Expire(UserKey(userId), DefaultTTL, now);
          if o.Fail? {
            r := Err(o.error);
          }
      }
    }

    method FetchLogin(login: string, now: Instant) returns (r: Result<User>)
      modifies client, repo
      ensures Run(r, client.State(), repo.State()) == old(FetchLoginSpec(client.State(), repo.State(), login, now))
    {
      var l := Lower(login);
      var g := client.Get(LoginKey(l), now);
      match g {
        case Missing =>
          r := repo.FetchLogin(l);
          if r.Err? {
            return;
          }
          var o := client.Set(LoginKey(r.value.login), UserJson(r.value), DefaultTTL, now);
          if o.Fail? {
            r := Err(o.error);
          }
        case Failed(e) =>
          r := Err(e);
        case Found(b) =>
          r := DecodeUser(b);
          if r.Err? {
            return;
          }
          var o := client.Expire(LoginKey(r.value.login), DefaultTTL, now);
          if o.Fail? {
            r := Err(o.error);
          }
      }
    }

    method Update(u: User, now: Instant) returns (r: Outcome)
      modifies client, repo
      ensures Run(r, client.State(), repo.State()) == old(UpdateSpec(client.State(), repo.State(), u, now))
    {
      var f := Fetch(u.id, now);
      if f.Err? {
        return Fail(f.error);
      }
      r := repo.Update(u);
      if r.Fail? {
        return;
      }
      r := client.Del(UserKeys(f.value.id, f.value.login));
    }

    method Delete(userId: Uuid, now: Instant) returns (r: Outcome)
      modifies client, repo
      ensures Run(r, client.State(), repo.State()) == old(DeleteSpec(client.State(), repo.State(), userId, now))
    {
      var f := Fetch(userId, now);
      if f.Err? {
        return Fail(f.error);
      }
      r := repo.Delete(userId);
      if r.Fail? {
        return;
      }
      r := client.Del(UserKeys(userId, f.value.login));
    }
  }
}
