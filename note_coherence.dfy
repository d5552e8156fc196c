/** A note cache that agrees with the table: every live key of a note holds
    that note's row, every live list key holds its author's rows. Each
    operation keeps the agreement on a healthy key-value server, whatever
    the table does, and under it the cache is transparent: a read returns
    what the table holds, so a read after a write sees the write
    (src/internal/note/cache.go, src/internal/note/cache_test.go:30-80). */
module NoteCoherence {
  import opened Results
  import opened Uuids
  import opened Clock
  import opened NoteModel
  import opened KeyValue
  import opened NoteService
  import opened NoteDb
  import opened NoteCache

  /** The note key of `id`, if live, holds the row with `id`. */
  predicate CachedNote(sp: Space, rows: seq<Note>, id: Uuid, now: Instant) {
    match sp.Lookup(NoteKey(id), now)
    case None => true
    case Some(v) => Find(rows, id).Some? && v == Str(NoteJson(Find(rows, id).value))
  }

  /** The list key of `u`, if live, holds the rows of `u`. */
  predicate CachedList(sp: Space, rows: seq<Note>, u: Uuid, now: Instant) {
    match sp.Lookup(NotesKey(u), now)
    case None => true
    case Some(v) => v == Str(NoteListJson(Authored(rows, u)))
  }

  ghost predicate Coherent(sp: Space, rows: seq<Note>, now: Instant) {
    && UniqueIds(rows)
    && (forall id: Uuid :: CachedNote(sp, rows, id, now))
    && (forall u: Uuid :: CachedList(sp, rows, u, now))
  }

  /** An empty cache agrees with any table that keeps its primary key. */
  lemma EmptyIsCoherent(rows: seq<Note>, now: Instant)
    requires UniqueIds(rows)
    ensures Coherent(Space(map[], map[]), rows, now)
  {
  }

  /** Keys only expire as time passes, so agreement now is agreement
      later. */
  lemma CoherentLater(sp: Space, rows: seq<Note>, now: Instant, later: Instant)
    requires Coherent(sp, rows, now) && now <= later
    ensures Coherent(sp, rows, later)
  {
    forall id: Uuid ensures CachedNote(sp, rows, id, later) {
      assert CachedNote(sp, rows, id, now);
    }
    forall u: Uuid ensures CachedList(sp, rows, u, later) {
      assert CachedList(sp, rows, u, now);
    }
  }

  // ---------------------------------------------------------------------
  // Frames

  lemma CoherentAfterNoteWrite(a: Space, b: Space, rows: seq<Note>, i: Uuid, now: Instant)
    requires Coherent(a, rows, now) && SameOutside(a, b, {NoteKey(i)}) && CachedNote(b, rows, i, now)
    ensures Coherent(b, rows, now)
  {
    forall id: Uuid ensures CachedNote(b, rows, id, now) {
      if id != i {
        NoteKeysInjectiveAndDisjoint(id, i);
        AgreeReads(a, b, NoteKey(id), now);
        assert CachedNote(a, rows, id, now);
      }
    }
    forall u: Uuid ensures CachedList(b, rows, u, now) {
      NoteKeysInjectiveAndDisjoint(i, u);
      AgreeReads(a, b, NotesKey(u), now);
      assert CachedList(a, rows, u, now);
    }
  }

  lemma CoherentAfterListWrite(a: Space, b: Space, rows: seq<Note>, w: Uuid, now: Instant)
    requires Coherent(a, rows, now) && SameOutside(a, b, {NotesKey(w)}) && CachedList(b, rows, w, now)
    ensures Coherent(b, rows, now)
  {
    forall id: Uuid ensures CachedNote(b, rows, id, now) {
      NoteKeysInjectiveAndDisjoint(id, w);
      AgreeReads(a, b, NoteKey(id), now);
      assert CachedNote(a, rows, id, now);
    }
    forall u: Uuid ensures CachedList(b, rows, u, now) {
      if u != w {
        NoteKeysInjectiveAndDisjoint(u, w);
        AgreeReads(a, b, NotesKey(u), now);
        assert CachedList(a, rows, u, now);
      }
    }
  }

  /** Deleting a note's two keys restores agreement with a table that
      changed only at that note's id and that author's rows. */
  lemma CoherentAfterInvalidate(a: Space, rows: seq<Note>, rows': seq<Note>, w: Uuid, i: Uuid, now: Instant)
    requires Coherent(a, rows, now) && UniqueIds(rows')
    requires forall id: Uuid | id != i :: Find(rows', id) == Find(rows, id)
    requires forall u: Uuid | u != w :: Authored(rows', u) == Authored(rows, u)
    ensures Coherent(a.Delete(NoteKeys(w, i)), rows', now)
  {
    var b := a.Delete(NoteKeys(w, i));
    DeleteFrame(a, NoteKeys(w, i));
    forall id: Uuid ensures CachedNote(b, rows', id, now) {
      if id != i {
        NoteKeysInjectiveAndDisjoint(id, i);
        NoteKeysInjectiveAndDisjoint(id, w);
        AgreeReads(a, b, NoteKey(id), now);
        assert CachedNote(a, rows, id, now);
      }
    }
    forall u: Uuid ensures CachedList(b, rows', u, now) {
      if u != w {
        NoteKeysInjectiveAndDisjoint(i, u);
        NoteKeysInjectiveAndDisjoint(w, u);
        AgreeReads(a, b, NotesKey(u), now);
        assert CachedList(a, rows, u, now);
      }
    }
  }

  // ---------------------------------------------------------------------
  // Reads

  /** On a healthy server, `Fetch` keeps the agreement and the server's
      health, and returns only a row of the table. */
  lemma FetchKeepsCoherent(st: StoreState, db: DbState, id: Uuid, now: Instant)
    requires st.Healthy() && Coherent(st.space, db.rows, now)
    ensures Coherent(FetchSpec(st, db, id, now).store.space, FetchSpec(st, db, id, now).db.rows, now)
    ensures FetchSpec(st, db, id, now).store.Healthy()
    ensures FetchSpec(st, db, id, now).result.Ok? ==> Find(db.rows, id) == Some(FetchSpec(st, db, id, now).result.value)
  {
    var f := FetchSpec(st, db, id, now);
    assert CachedNote(st.space, db.rows, id, now);
    match st.space.Lookup(NoteKey(id), now)
    case None =>
      var r := db.Fetch(id).0;
      if r.Ok? {
        HealthySet(st, NoteKey(id), NoteJson(r.value), DefaultTTL, now);
        CoherentAfterNoteWrite(st.space, f.store.space, db.rows, id, now);
      }
    case Some(v) =>
      HealthyExpire(st, NoteKey(id), DefaultTTL, now);
      CoherentAfterNoteWrite(st.space, f.store.space, db.rows, id, now);
  }

  /** The cache is transparent: on a healthy server and a healthy table,
      `Fetch` returns exactly the table's answer, and in particular never
      a decoding error. */
  lemma FetchReadsThrough(st: StoreState, db: DbState, id: Uuid, now: Instant)
    requires st.Healthy() && db.Healthy() && Coherent(st.space, db.rows, now)
    ensures FetchSpec(st, db, id, now).result == if Find(db.rows, id).Some? then Ok(Find(db.rows, id).value) else Err(NoteNotExists)
  {
    assert CachedNote(st.space, db.rows, id, now);
  }

  lemma FetchAllKeepsCoherent(st: StoreState, db: DbState, u: Uuid, now: Instant)
    requires st.Healthy() && Coherent(st.space, db.rows, now)
    ensures Coherent(FetchAllSpec(st, db, u, now).store.space, FetchAllSpec(st, db, u, now).db.rows, now)
    ensures FetchAllSpec(st, db, u, now).store.Healthy()
    ensures FetchAllSpec(st, db, u, now).result.Ok? ==> FetchAllSpec(st, db, u, now).result.value == Authored(db.rows, u)
  {
    var f := FetchAllSpec(st, db, u, now);
    assert CachedList(st.space, db.rows, u, now);
    match st.space.Lookup(NotesKey(u), now)
    case None =>
      if db.FetchAll(u).0.Ok? {
        HealthySet(st, NotesKey(u), NoteListJson(Authored(db.rows, u)), DefaultTTL, now);
        CoherentAfterListWrite(st.space, f.store.space, db.rows, u, now);
      }
    case Some(v) =>
      HealthyExpire(st, NotesKey(u), DefaultTTL, now);
      CoherentAfterListWrite(st.space, f.store.space, db.rows, u, now);
  }

  lemma FetchAllReadsThrough(st: StoreState, db: DbState, u: Uuid, now: Instant)
    requires st.Healthy() && db.Healthy() && Coherent(st.space, db.rows, now)
    ensures FetchAllSpec(st, db, u, now).result == Ok(Authored(db.rows, u))
  {
    assert CachedList(st.space, db.rows, u, now);
  }

  // ---------------------------------------------------------------------
  // Writes

  lemma CreateKeepsCoherent(st: StoreState, db: DbState, n: Note, now: Instant)
    requires st.Healthy() && Coherent(st.space, db.rows, now)
    ensures Coherent(CreateSpec(st, db, n).store.space, CreateSpec(st, db, n).db.rows, now)
    ensures CreateSpec(st, db, n).store.Healthy()
  {
    CreateKeepsUniqueIds(db, n);
    if db.Create(n).0.Pass? {
      var rows' := db.rows + [n];
      forall id: Uuid | id != n.id ensures Find(rows', id) == Find(db.rows, id) {
        FindAppend(db.rows, n, id);
      }
      forall u: Uuid | u != n.authorId ensures Authored(rows', u) == Authored(db.rows, u) {
        AuthoredAppend(db.rows, n, u);
      }
      CoherentAfterInvalidate(st.space, db.rows, rows', n.authorId, n.id, now);
    }
  }

  /** Under the primary key, only the author of the row with `x` has rows
      with `x`. */
  lemma OnlyAuthorOf(rows: seq<Note>, x: Uuid, n: Note, a: Uuid)
    requires UniqueIds(rows) && Find(rows, x) == Some(n) && a != n.authorId
    ensures forall i | 0 <= i < |rows| :: rows[i].id == x ==> rows[i].authorId != a
  {
    forall i | 0 <= i < |rows| && rows[i].id == x ensures rows[i].authorId != a {
      FindIn(rows, i);
    }
  }

  lemma UpdateKeepsCoherent(st: StoreState, db: DbState, d: NoteDTO, now: Instant)
    requires st.Healthy() && Coherent(st.space, db.rows, now)
    ensures Coherent(UpdateSpec(st, db, d, now).store.space, UpdateSpec(st, db, d, now).db.rows, now)
    ensures UpdateSpec(st, db, d, now).store.Healthy()
  {
    var f := FetchSpec(st, db, d.id, now);
    FetchKeepsCoherent(st, db, d.id, now);
    if f.result.Ok? && f.db.Update(d).0.Pass? {
      var n := f.result.value;
      var rows' := PatchRows(db.rows, d);
      UpdateKeepsUniqueIds(f.db, d);
      forall id: Uuid | id != n.id ensures Find(rows', id) == Find(db.rows, id) {
        FindPatched(db.rows, d, id);
      }
      forall u: Uuid | u != n.authorId ensures Authored(rows', u) == Authored(db.rows, u) {
        OnlyAuthorOf(db.rows, d.id, n, u);
        AuthoredPatched(db.rows, d, u);
      }
      CoherentAfterInvalidate(f.store.space, db.rows, rows', n.authorId, n.id, now);
    }
  }

  lemma DeleteKeepsCoherent(st: StoreState, db: DbState, id: Uuid, now: Instant)
    requires st.Healthy() && Coherent(st.space, db.rows, now)
    ensures Coherent(DeleteSpec(st, db, id, now).store.space, DeleteSpec(st, db, id, now).db.rows, now)
    ensures DeleteSpec(st, db, id, now).store.Healthy()
  {
    var f := FetchSpec(st, db, id, now);
    FetchKeepsCoherent(st, db, id, now);
    if f.result.Ok? && f.db.Delete(id).0.Pass? {
      var n := f.result.value;
      var rows' := Without(db.rows, id);
      DeleteKeepsUniqueIds(f.db, id);
      forall x: Uuid | x != n.id ensures Find(rows', x) == Find(db.rows, x) {
        FindWithout(db.rows, id, x);
      }
      forall u: Uuid | u != n.authorId ensures Authored(rows', u) == Authored(db.rows, u) {
        OnlyAuthorOf(db.rows, id, n, u);
        AuthoredWithout(db.rows, id, u);
      }
      CoherentAfterInvalidate(f.store.space, db.rows, rows', n.authorId, n.id, now);
    }
  }

  // ---------------------------------------------------------------------
  // Reads after writes

  /** After a successful `Create`, the note and its author's list are read
      back from the table, at any later time. */
  lemma CreateThenFetch(st: StoreState, db: DbState, n: Note, now: Instant, later: Instant)
    requires st.Healthy() && db.Healthy() && Coherent(st.space, db.rows, now) && now <= later
    ensures CreateSpec(st, db, n).result == if Find(db.rows, n.id).None? then Pass else Fail(DbFailure)
    ensures CreateSpec(st, db, n).result.Pass? ==>
      && FetchSpec(CreateSpec(st, db, n).store, CreateSpec(st, db, n).db, n.id, later).result == Ok(n)
      && FetchAllSpec(CreateSpec(st, db, n).store, CreateSpec(st, db, n).db, n.authorId, later).result == Ok(Authored(db.rows, n.authorId) + [n])
  {
    var c := CreateSpec(st, db, n);
    CreateKeepsCoherent(st, db, n, now);
    if c.result.Pass? {
      CoherentLater(c.store.space, c.db.rows, now, later);
      FindAppend(db.rows, n, n.id);
      AuthoredAppend(db.rows, n, n.authorId);
      FetchReadsThrough(c.store, c.db, n.id, later);
      FetchAllReadsThrough(c.store, c.db, n.authorId, later);
    }
  }

  /** After a successful `Update`, `Fetch` returns the stored note with the
      patch applied (cache_test.go:47-66); an absent note is reported as
      such and nothing is saved. */
  lemma UpdateThenFetch(st: StoreState, db: DbState, d: NoteDTO, now: Instant, later: Instant)
    requires st.Healthy() && db.Healthy() && Coherent(st.space, db.rows, now) && now <= later
    ensures UpdateSpec(st, db, d, now).result == if Find(db.rows, d.id).Some? then Pass else Fail(NoteNotExists)
    ensures UpdateSpec(st, db, d, now).result.Pass? ==>
      FetchSpec(UpdateSpec(st, db, d, now).store, UpdateSpec(st, db, d, now).db, d.id, later).result
        == Ok(Patched(Find(db.rows, d.id).value, d))
  {
    var u := UpdateSpec(st, db, d, now);
    FetchReadsThrough(st, db, d.id, now);
    UpdateKeepsCoherent(st, db, d, now);
    if u.result.Pass? {
      CoherentLater(u.store.space, u.db.rows, now, later);
      FindPatched(db.rows, d, d.id);
      FetchReadsThrough(u.store, u.db, d.id, later);
    }
  }

  /** After a successful `Delete`, `Fetch` reports the note as absent
      (cache_test.go:68-80). */
  lemma DeleteThenFetch(st: StoreState, db: DbState, id: Uuid, now: Instant, later: Instant)
    requires st.Healthy() && db.Healthy() && Coherent(st.space, db.rows, now) && now <= later
    ensures DeleteSpec(st, db, id, now).result == if Find(db.rows, id).Some? then Pass else Fail(NoteNotExists)
    ensures DeleteSpec(st, db, id, now).result.Pass? ==>
      FetchSpec(DeleteSpec(st, db, id, now).store, DeleteSpec(st, db, id, now).db, id, later).result == Err(NoteNotExists)
  {
    var r := DeleteSpec(st, db, id, now);
    FetchReadsThrough(st, db, id, now);
    DeleteKeepsCoherent(st, db, id, now);
    if r.result.Pass? {
      CoherentLater(r.store.space, r.db.rows, now, later);
      FindWithout(db.rows, id, id);
      FetchReadsThrough(r.store, r.db, id, later);
    }
  }

  /** The agreement needs the invalidation to succeed: when the DEL after a
      saved patch fails, the table holds the patched note while the cache
      goes on serving the note as it was. */
  lemma FailedInvalidationServesStale(st: StoreState, db: DbState, n: Note, d: NoteDTO, now: Instant)
    requires db.Healthy() && Find(db.rows, d.id) == Some(n) && Patched(n, d) != n
    requires st.faults == [false, false, true] && st.space.Lookup(NoteKey(d.id), now) == Some(Str(NoteJson(n)))
    ensures UpdateSpec(st, db, d, now).result == Fail(StoreFailure)
    ensures Find(UpdateSpec(st, db, d, now).db.rows, d.id) == Some(Patched(n, d))
    ensures FetchSpec(UpdateSpec(st, db, d, now).store, UpdateSpec(st, db, d, now).db, d.id, now).result == Ok(n)
  {
    var f := FetchSpec(st, db, d.id, now);
    ExpireWrites(st.space, NoteKey(d.id), DefaultTTL, now);
    assert f.result == Ok(n) && f.store.faults == [true];
    FindPatched(db.rows, d, d.id);
  }
}
