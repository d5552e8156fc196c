/** The relational note store behind the cache (src/internal/note/repository.go),
    reduced to the contract the cache relies on: rows keyed by a unique id,
    `Fetch` reporting `ErrNoteIsNotExists` for an absent id, and any call
    able to fail. As with the key-value store, the state carries a queue of
    scheduled outcomes, one consumed per call, `true` making the call fail
    with `DbFailure` and change nothing. */
module NoteDb {
  import opened Results
  import opened Uuids
  import opened NoteModel

  /** The first row with `id`. */
  function Find(rows: seq<Note>, id: Uuid): (r: Option<Note>)
    ensures r.Some? ==> r.value in rows && r.value.id == id
    ensures r.None? <==> forall i | 0 <= i < |rows| :: rows[i].id != id
  {
    if rows == [] then None
    else if rows[0].id == id then Some(rows[0])
    else Find(rows[1..], id)
  }

  /** The rows written by `authorId`, in table order. */
  function Authored(rows: seq<Note>, authorId: Uuid): (r: seq<Note>)
    ensures forall n :: n in r <==> n in rows && n.authorId == authorId
    ensures |r| <= |rows|
  {
    if rows == [] then []
    else if rows[0].authorId == authorId then [rows[0]] + Authored(rows[1..], authorId)
    else Authored(rows[1..], authorId)
  }

  /** Every row with the patch's id, patched. */
  function PatchRows(rows: seq<Note>, d: NoteDTO): (r: seq<Note>)
    ensures |r| == |rows|
    ensures forall i | 0 <= i < |rows| :: r[i] == if rows[i].id == d.id then Patched(rows[i], d) else rows[i]
  {
    if rows == [] then []
    else [if rows[0].id == d.id then Patched(rows[0], d) else rows[0]] + PatchRows(rows[1..], d)
  }

  /** The rows without those with `id`. */
  function Without(rows: seq<Note>, id: Uuid): (r: seq<Note>)
    ensures forall n :: n in r <==> n in rows && n.id != id
  {
    if rows == [] then []
    else if rows[0].id == id then Without(rows[1..], id)
    else [rows[0]] + Without(rows[1..], id)
  }

  /** The primary key: no two rows share an id. */
  predicate UniqueIds(rows: seq<Note>) {
    forall i, j | 0 <= i < j < |rows| :: rows[i].id != rows[j].id
  }

  datatype DbState = DbState(rows: seq<Note>, faults: seq<bool>) {

    predicate Healthy() { faults == [] }

    predicate NextFails() { |faults| > 0 && faults[0] }

    function Tick(): DbState {
      if faults == [] then this else DbState(rows, faults[1..])
    }

    function After(rows': seq<Note>): DbState {
      DbState(rows', Tick().faults)
    }

    /** `Fetch`: `First` by id; no row is `ErrNoteIsNotExists`. */
    function Fetch(id: Uuid): (Result<Note>, DbState) {
      if NextFails() then (Err(DbFailure), Tick())
      else match Find(rows, id)
        case None => (Err(NoteNotExists), Tick())
        case Some(n) => (Ok(n), Tick())
    }

    /** `FetchAll`: `Find` by author, possibly empty. */
    function FetchAll(authorId: Uuid): (Result<seq<Note>>, DbState) {
      if NextFails() then (Err(DbFailure), Tick())
      else (Ok(Authored(rows, authorId)), Tick())
    }

    /** `Create`: an insert; a taken id violates the primary key. */
    function Create(n: Note): (Outcome, DbState) {
      if NextFails() || Find(rows, n.id).Some? then (Fail(DbFailure), Tick())
      else (Pass, After(rows + [n]))
    }

    /** `Update`: `Save` of the patch, which rewrites the title, the content
        and the update time of the row with its id. */
    function Update(d: NoteDTO): (Outcome, DbState) {
      if NextFails() then (Fail(DbFailure), Tick())
      else (Pass, After(PatchRows(rows, d)))
    }

    /** `Delete`: removing an absent id is no error. */
    function Delete(id: Uuid): (Outcome, DbState) {
      if NextFails() then (Fail(DbFailure), Tick())
      else (Pass, After(Without(rows, id)))
    }
  }

  // ---------------------------------------------------------------------
  // What each write leaves behind, as `Fetch` and `FetchAll` see it

  lemma FindIn(rows: seq<Note>, i: int)
    requires UniqueIds(rows) && 0 <= i < |rows|
    ensures Find(rows, rows[i].id) == Some(rows[i])
  {
    if i > 0 {
      assert rows[0].id != rows[i].id;
      assert rows[1..][i - 1] == rows[i];
      FindIn(rows[1..], i - 1);
    }
  }

  /** Under the primary key, `Find` names the one row with the id. */
  lemma FindUnique(rows: seq<Note>, n: Note)
    requires UniqueIds(rows) && n in rows
    ensures Find(rows, n.id) == Some(n)
  {
    var i :| 0 <= i < |rows| && rows[i] == n;
    FindIn(rows, i);
  }

  lemma {:induction false} FindAppend(rows: seq<Note>, n: Note, id: Uuid)
    requires Find(rows, n.id).None?
    ensures Find(rows + [n], id) == if id == n.id then Some(n) else Find(rows, id)
  {
    if rows == [] {
    } else {
      assert (rows + [n])[1..] == rows[1..] + [n];
      if rows[0].id != id {
        FindAppend(rows[1..], n, id);
      }
    }
  }

  lemma {:induction false} AuthoredAppend(rows: seq<Note>, n: Note, a: Uuid)
    ensures Authored(rows + [n], a) == Authored(rows, a) + (if n.authorId == a then [n] else [])
  {
    if rows == [] {
      assert rows + [n] == [n];
    } else {
      assert (rows + [n])[1..] == rows[1..] + [n];
      AuthoredAppend(rows[1..], n, a);
    }
  }

  lemma {:induction false} FindPatched(rows: seq<Note>, d: NoteDTO, id: Uuid)
    ensures Find(PatchRows(rows, d), id) ==
      if id == d.id && Find(rows, id).Some? then Some(Patched(Find(rows, id).value, d)) else Find(rows, id)
  {
    if rows != [] {
      assert PatchRows(rows, d)[1..] == PatchRows(rows[1..], d);
      FindPatched(rows[1..], d, id);
    }
  }

  /** A patch moves no row to another author, so only the list of the
      patched row's author can change. */
  lemma {:induction false} AuthoredPatched(rows: seq<Note>, d: NoteDTO, a: Uuid)
    requires forall i | 0 <= i < |rows| :: rows[i].id == d.id ==> rows[i].authorId != a
    ensures Authored(PatchRows(rows, d), a) == Authored(rows, a)
  {
    if rows != [] {
      assert PatchRows(rows, d)[1..] == PatchRows(rows[1..], d);
      assert forall i | 0 <= i < |rows[1..]| :: rows[1..][i] == rows[i + 1];
      AuthoredPatched(rows[1..], d, a);
    }
  }

  lemma {:induction false} FindWithout(rows: seq<Note>, x: Uuid, id: Uuid)
    ensures Find(Without(rows, x), id) == if id == x then None else Find(rows, id)
  {
    if rows != [] {
      FindWithout(rows[1..], x, id);
    }
  }

  lemma {:induction false} AuthoredWithout(rows: seq<Note>, x: Uuid, a: Uuid)
    requires forall i | 0 <= i < |rows| :: rows[i].id == x ==> rows[i].authorId != a
    ensures Authored(Without(rows, x), a) == Authored(rows, a)
  {
    if rows != [] {
      assert forall i | 0 <= i < |rows[1..]| :: rows[1..][i] == rows[i + 1];
      AuthoredWithout(rows[1..], x, a);
    }
  }

  /** The primary key holds after every write. */
  lemma CreateKeepsUniqueIds(db: DbState, n: Note)
    requires UniqueIds(db.rows)
    ensures UniqueIds(db.Create(n).1.rows)
  {
  }

  lemma UpdateKeepsUniqueIds(db: DbState, d: NoteDTO)
    requires UniqueIds(db.rows)
    ensures UniqueIds(db.Update(d).1.rows)
  {
    var p := PatchRows(db.rows, d);
    assert forall i | 0 <= i < |p| :: p[i].id == db.rows[i].id;
  }

  lemma DeleteKeepsUniqueIds(db: DbState, x: Uuid)
    requires UniqueIds(db.rows)
    ensures UniqueIds(db.Delete(x).1.rows)
  {
    WithoutUnique(db.rows, x);
  }

  lemma {:induction false} WithoutUnique(rows: seq<Note>, x: Uuid)
    requires UniqueIds(rows)
    ensures UniqueIds(Without(rows, x))
  {
    if rows != [] {
      var t := rows[1..];
      UniqueIdsTail(rows);
      WithoutUnique(t, x);
      if rows[0].id != x {
        var w := Without(t, x);
        forall n | n in w ensures n.id != rows[0].id {
          var k :| 0 <= k < |t| && t[k] == n;
          assert rows[k + 1] == n;
        }
        UniqueIdsCons(rows[0], w);
      }
    }
  }

  lemma UniqueIdsTail(rows: seq<Note>)
    requires UniqueIds(rows) && rows != []
    ensures UniqueIds(rows[1..])
  {
    var t := rows[1..];
    forall i, j | 0 <= i < j < |t| ensures t[i].id != t[j].id {
      assert t[i] == rows[i + 1] && t[j] == rows[j + 1];
    }
  }

  lemma UniqueIdsCons(x: Note, w: seq<Note>)
    requires UniqueIds(w) && forall n | n in w :: n.id != x.id
    ensures UniqueIds([x] + w)
  {
    var r := [x] + w;
    forall i, j | 0 <= i < j < |r| ensures r[i].id != r[j].id {
      if i == 0 {
        assert r[j] == w[j - 1];
      } else {
        assert r[i] == w[i - 1] && r[j] == w[j - 1];
      }
    }
  }

  /** The durable repository: its table and the outcomes scheduled for its
      next calls. */
  class Db {
    var rows: seq<Note>
    var faults: seq<bool>

    function State(): DbState
      reads this
    {
      DbState(rows, faults)
    }

    constructor(rows: seq<Note>, faults: seq<bool>)
      ensures State() == DbState(rows, faults)
    {
      this.rows, this.faults := rows, faults;
    }

    method Become(db: DbState)
      modifies this
      ensures State() == db
    {
      rows, faults := db.rows, db.faults;
    }

    method Fetch(id: Uuid) returns (r: Result<Note>)
      modifies this
      ensures (r, State()) == old(State().Fetch(id))
    {
      var res := State().Fetch(id);
      r := res.0;
      Become(res.1);
    }

    method FetchAll(authorId: Uuid) returns (r: Result<seq<Note>>)
      modifies this
      ensures (r, State()) == old(State().FetchAll(authorId))
    {
      var res := State().FetchAll(authorId);
      r := res.0;
      Become(res.1);
    }

    method Create(n: Note) returns (r: Outcome)
      modifies this
      ensures (r, State()) == old(State().Create(n))
    {
      var res := State().Create(n);
      r := res.0;
      Become(res.1);
    }

    method Update(d: NoteDTO) returns (r: Outcome)
      modifies this
      ensures (r, State()) == old(State().Update(d))
    {
      var res := State().Update(d);
      r := res.0;
      Become(res.1);
    }

    method Delete(id: Uuid) returns (r: Outcome)
      modifies this
      ensures (r, State()) == old(State().Delete(id))
    {
      var res := State().Delete(id);
      r := res.0;
      Become(res.1);
    }
  }
}
