/** The relational user store behind the cache (src/internal/user/repository.go),
    reduced to the contract the cache relies on: rows with a unique id and
    a unique login, `Fetch` and `FetchLogin` reporting `ErrUserIsNotExists`
    for an absent row, `FetchLogin` lower-casing its argument, and any call
    able to fail (one scheduled outcome per call, as for the notes). */
module UserDb {
  import opened Results
  import opened Uuids
  import opened Text
  import opened UserModel

  function Find(rows: seq<User>, id: Uuid): (r: Option<User>)
    ensures r.Some? ==> r.value in rows && r.value.id == id
    ensures r.None? <==> forall i | 0 <= i < |rows| :: rows[i].id != id
  {
    if rows == [] then None
    else if rows[0].id == id then Some(rows[0])
    else Find(rows[1..], id)
  }

  function FindLogin(rows: seq<User>, login: string): (r: Option<User>)
    ensures r.Some? ==> r.value in rows && r.value.login == login
    ensures r.None? <==> forall i | 0 <= i < |rows| :: rows[i].login != login
  {
    if rows == [] then None
    else if rows[0].login == login then Some(rows[0])
    else FindLogin(rows[1..], login)
  }

  /** GORM's `Save`: the row with `u`'s id rewritten, or, when no row was
      updated, `u` inserted. */
  function Saved(rows: seq<User>, u: User): (r: seq<User>)
    ensures Find(rows, u.id).None? ==> r == rows + [u]
    ensures Find(rows, u.id).Some? ==> |r| == |rows|
  {
    if Find(rows, u.id).None? then rows + [u] else ReplaceAll(rows, u)
  }

  function ReplaceAll(rows: seq<User>, u: User): (r: seq<User>)
    ensures |r| == |rows|
    ensures forall i | 0 <= i < |rows| :: r[i] == if rows[i].id == u.id then u else rows[i]
  {
    if rows == [] then []
    else [if rows[0].id == u.id then u else rows[0]] + ReplaceAll(rows[1..], u)
  }

  function Without(rows: seq<User>, id: Uuid): (r: seq<User>)
    ensures forall u :: u in r <==> u in rows && u.id != id
  {
    if rows == [] then []
    else if rows[0].id == id then Without(rows[1..], id)
    else [rows[0]] + Without(rows[1..], id)
  }

  /** The primary key and the unique index on the login column. */
  predicate UniqueKeys(rows: seq<User>) {
    forall i, j | 0 <= i < j < |rows| :: rows[i].id != rows[j].id && rows[i].login != rows[j].login
  }

  /** Another row already holds `u`'s login. */
  predicate LoginTaken(rows: seq<User>, u: User) {
    FindLogin(rows, u.login).Some? && FindLogin(rows, u.login).value.id != u.id
  }

  datatype DbState = DbState(rows: seq<User>, faults: seq<bool>) {

    predicate Healthy() { faults == [] }

    predicate NextFails() { |faults| > 0 && faults[0] }

    function Tick(): DbState {
      if faults == [] then this else DbState(rows, faults[1..])
    }

    function After(rows': seq<User>): DbState {
      DbState(rows', Tick().faults)
    }

    function Fetch(id: Uuid): (Result<User>, DbState) {
      if NextFails() then (Err(DbFailure), Tick())
      else match Find(rows, id)
        case None => (Err(UserNotExists), Tick())
        case Some(u) => (Ok(u), Tick())
    }

    /** `FetchLogin`: `First` by the lower-cased login. */
    function FetchLogin(login: string): (Result<User>, DbState) {
      if NextFails() then (Err(DbFailure), Tick())
      else match FindLogin(rows, Lower(login))
        case None => (Err(UserNotExists), Tick())
        case Some(u) => (Ok(u), Tick())
    }

    /** `Create`: an insert; a taken id or login violates a key. */
    function Create(u: User): (Outcome, DbState) {
      if NextFails() || Find(rows, u.id).Some? || FindLogin(rows, u.login).Some? then (Fail(DbFailure), Tick())
      else (Pass, After(rows + [u]))
    }

    /** `Update`: `Save` of the whole row, an insert when the id is new; a
        login held by another row violates the unique index. */
    function Update(u: User): (Outcome, DbState) {
      if NextFails() || LoginTaken(rows, u) then (Fail(DbFailure), Tick())
      else (Pass, After(Saved(rows, u)))
    }

    function Delete(id: Uuid): (Outcome, DbState) {
      if NextFails() then (Fail(DbFailure), Tick())
      else (Pass, After(Without(rows, id)))
    }
  }

  // ---------------------------------------------------------------------
  // What each write leaves behind, as `Fetch` and `FetchLogin` see it

  lemma FindIn(rows: seq<User>, i: int)
    requires UniqueKeys(rows) && 0 <= i < |rows|
    ensures Find(rows, rows[i].id) == Some(rows[i])
    ensures FindLogin(rows, rows[i].login) == Some(rows[i])
  {
    if i > 0 {
      assert rows[0].id != rows[i].id && rows[0].login != rows[i].login;
      assert rows[1..][i - 1] == rows[i];
      FindIn(rows[1..], i - 1);
    }
  }

  /** Under the keys, the row found by id and the row found by its login
      are the same row. */
  lemma FindBoth(rows: seq<User>, u: User)
    requires UniqueKeys(rows) && u in rows
    ensures Find(rows, u.id) == Some(u) && FindLogin(rows, u.login) == Some(u)
  {
    var i :| 0 <= i < |rows| && rows[i] == u;
    FindIn(rows, i);
  }

  /** A new row takes a free id and a free login. */
  lemma {:induction false} FindAppend(rows: seq<User>, u: User, id: Uuid, l: string)
    requires Find(rows, u.id).None? && FindLogin(rows, u.login).None?
    ensures Find(rows + [u], id) == if id == u.id then Some(u) else Find(rows, id)
    ensures FindLogin(rows + [u], l) == if l == u.login then Some(u) else FindLogin(rows, l)
  {
    if rows != [] {
      assert (rows + [u])[1..] == rows[1..] + [u];
      FindAppend(rows[1..], u, id, l);
    }
  }

  lemma {:induction false} FindReplaced(rows: seq<User>, u: User, id: Uuid)
    ensures Find(ReplaceAll(rows, u), id) == if id == u.id && Find(rows, id).Some? then Some(u) else Find(rows, id)
  {
    if rows != [] {
      assert ReplaceAll(rows, u)[1..] == ReplaceAll(rows[1..], u);
      FindReplaced(rows[1..], u, id);
    }
  }

  /** Replacing the row `v` by `u` (same id) keeps both keys unique when
      no other row holds `u`'s login; `u` then sits where `v` was. */
  lemma ReplacedKeys(rows: seq<User>, v: User, u: User, k: int)
    requires UniqueKeys(rows) && 0 <= k < |rows| && rows[k] == v && v.id == u.id && !LoginTaken(rows, u)
    ensures UniqueKeys(ReplaceAll(rows, u))
    ensures forall i | 0 <= i < |rows| :: ReplaceAll(rows, u)[i] == if i == k then u else rows[i]
  {
    forall i | 0 <= i < |rows| && i != k ensures rows[i].id != u.id && rows[i].login != u.login {
      assert rows[i].id != rows[k].id;
      if rows[i].login == u.login {
        FindIn(rows, i);
      }
    }
  }

  /** ... and moves the login `v.login` to `u.login`, leaving every other
      login where it was. */
  lemma FindLoginReplaced(rows: seq<User>, v: User, u: User, l: string)
    requires UniqueKeys(rows) && v in rows && v.id == u.id && !LoginTaken(rows, u)
    ensures FindLogin(ReplaceAll(rows, u), l) ==
      if l == u.login then Some(u) else if l == v.login then None else FindLogin(rows, l)
  {
    var k :| 0 <= k < |rows| && rows[k] == v;
    ReplacedKeys(rows, v, u, k);
    var r := ReplaceAll(rows, u);
    if l == u.login {
      FindIn(r, k);
    } else if l == v.login {
      OldLoginFreed(rows, r, k, l);
    } else {
      OtherLoginKept(rows, r, k, l);
    }
  }

  lemma OldLoginFreed(rows: seq<User>, r: seq<User>, k: int, l: string)
    requires UniqueKeys(rows) && |r| == |rows| && 0 <= k < |rows| && rows[k].login == l && r[k].login != l
    requires forall i | 0 <= i < |rows| && i != k :: r[i] == rows[i]
    ensures FindLogin(r, l).None?
  {
    forall i | 0 <= i < |r| ensures r[i].login != l {
      if i != k {
        assert rows[i].login != rows[k].login;
      }
    }
  }

  lemma OtherLoginKept(rows: seq<User>, r: seq<User>, k: int, l: string)
    requires UniqueKeys(rows) && UniqueKeys(r) && |r| == |rows| && 0 <= k < |rows| && rows[k].login != l && r[k].login != l
    requires forall i | 0 <= i < |rows| && i != k :: r[i] == rows[i]
    ensures FindLogin(r, l) == FindLogin(rows, l)
  {
    if FindLogin(rows, l).Some? {
      var w := FindLogin(rows, l).value;
      var j :| 0 <= j < |rows| && rows[j] == w;
      FindIn(r, j);
    } else {
      assert forall i | 0 <= i < |r| :: r[i].login != l;
    }
  }

  lemma FindSaved(rows: seq<User>, u: User, id: Uuid)
    ensures Find(Saved(rows, u), id) == if id == u.id then Some(u) else Find(rows, id)
  {
    if Find(rows, u.id).None? {
      FindAppendId(rows, u, id);
    } else {
      FindReplaced(rows, u, id);
    }
  }

  lemma {:induction false} FindAppendId(rows: seq<User>, u: User, id: Uuid)
    requires Find(rows, u.id).None?
    ensures Find(rows + [u], id) == if id == u.id then Some(u) else Find(rows, id)
  {
    if rows != [] {
      assert (rows + [u])[1..] == rows[1..] + [u];
      FindAppendId(rows[1..], u, id);
    }
  }

  /** Removing the row `v` frees its id and its login and nothing else. */
  lemma FindWithout(rows: seq<User>, v: User, id: Uuid, l: string)
    requires UniqueKeys(rows) && v in rows
    ensures UniqueKeys(Without(rows, v.id))
    ensures Find(Without(rows, v.id), id) == if id == v.id then None else Find(rows, id)
    ensures FindLogin(Without(rows, v.id), l) == if l == v.login then None else FindLogin(rows, l)
  {
    var w := Without(rows, v.id);
    WithoutUnique(rows, v.id);
    var k :| 0 <= k < |rows| && rows[k] == v;
    if id != v.id && Find(rows, id).Some? {
      FindBoth(w, Find(rows, id).value);
    }
    if l == v.login {
      forall x | x in w ensures x.login != l {
        var j :| 0 <= j < |rows| && rows[j] == x;
        assert j != k;
      }
    } else if FindLogin(rows, l).Some? {
      var x := FindLogin(rows, l).value;
      var j :| 0 <= j < |rows| && rows[j] == x;
      FindIn(rows, j);
      FindIn(rows, k);
      FindBoth(w, x);
    }
  }

  lemma {:induction false} WithoutUnique(rows: seq<User>, x: Uuid)
    requires UniqueKeys(rows)
    ensures UniqueKeys(Without(rows, x))
  {
    if rows != [] {
      var t := rows[1..];
      UniqueKeysTail(rows);
      WithoutUnique(t, x);
      if rows[0].id != x {
        var w := Without(t, x);
        forall n | n in w ensures n.id != rows[0].id && n.login != rows[0].login {
          var k :| 0 <= k < |t| && t[k] == n;
          assert rows[k + 1] == n;
        }
        UniqueKeysCons(rows[0], w);
      }
    }
  }

  lemma UniqueKeysTail(rows: seq<User>)
    requires UniqueKeys(rows) && rows != []
    ensures UniqueKeys(rows[1..])
  {
    var t := rows[1..];
    forall i, j | 0 <= i < j < |t| ensures t[i].id != t[j].id && t[i].login != t[j].login {
      assert t[i] == rows[i + 1] && t[j] == rows[j + 1];
    }
  }

  lemma UniqueKeysCons(x: User, w: seq<User>)
    requires UniqueKeys(w) && forall n | n in w :: n.id != x.id && n.login != x.login
    ensures UniqueKeys([x] + w)
  {
    var r := [x] + w;
    forall i, j | 0 <= i < j < |r| ensures r[i].id != r[j].id && r[i].login != r[j].login {
      if i == 0 {
        assert r[j] == w[j - 1];
      } else {
        assert r[i] == w[i - 1] && r[j] == w[j - 1];
      }
    }
  }

  /** The keys stay unique after every write. */
  lemma CreateKeepsUniqueKeys(db: DbState, u: User)
    requires UniqueKeys(db.rows)
    ensures UniqueKeys(db.Create(u).1.rows)
  {
  }

  lemma UpdateKeepsUniqueKeys(db: DbState, u: User)
    requires UniqueKeys(db.rows)
    ensures UniqueKeys(db.Update(u).1.rows)
  {
    if db.Update(u).0.Pass? {
      match Find(db.rows, u.id)
      case None =>
      case Some(v) =>
        var k :| 0 <= k < |db.rows| && db.rows[k] == v;
        ReplacedKeys(db.rows, v, u, k);
    }
  }

  lemma DeleteKeepsUniqueKeys(db: DbState, x: Uuid)
    requires UniqueKeys(db.rows)
    ensures UniqueKeys(db.Delete(x).1.rows)
  {
    WithoutUnique(db.rows, x);
  }

  /** The durable repository: its table and the outcomes scheduled for its
      next calls. */
  class Db {
    var rows: seq<User>
    var faults: seq<bool>

    function State(): DbState
      reads this
    {
      DbState(rows, faults)
    }

    constructor(rows: seq<User>, faults: seq<bool>)
      ensures State() == DbState(rows, faults)
    {
      this.rows, this.faults := rows, faults;
    }

    method Become(db: DbState)
      modifies this
      ensures State() == db
    {
      rows, faults := db.rows, db.faults;
    }

    method Fetch(id: Uuid) returns (r: Result<User>)
      modifies this
      ensures (r, State()) == old(State().Fetch(id))
    {
      var res := State().Fetch(id);
      r := res.0;
      Become(res.1);
    }

    method FetchLogin(login: string) returns (r: Result<User>)
      modifies this
      ensures (r, State()) == old(State().FetchLogin(login))
    {
      var res := State().FetchLogin(login);
      r := res.0;
      Become(res.1);
    }

    method Create(u: User) returns (r: Outcome)
      modifies this
      ensures (r, State()) == old(State().Create(u))
    {
      var res := State().Create(u);
      r := res.0;
      Become(res.1);
    }

    method Update(u: User) returns (r: Outcome)
      modifies this
      ensures (r, State()) == old(State().Update(u))
    {
      var res := State().Update(u);
      r := res.0;
      Become(res.1);
    }

    method Delete(id: Uuid) returns (r: Outcome)
      modifies this
      ensures (r, State()) == old(State().Delete(id))
    {
      var res := State().Delete(id);
      r := res.0;
      Become(res.1);
    }
  }
}
