/** What the note cache promises: which keys and which rows each operation
    touches, how errors propagate, and that a cache which agrees with the
    table keeps agreeing, so that every read after a write sees the write
    (src/internal/note/cache.go, src/internal/note/cache_test.go). */
module NoteProperties {
  import opened Results
  import opened Uuids
  import opened Clock
  import opened NoteModel
  import opened KeyValue
  import opened NoteService
  import opened NoteDb
  import opened NoteCache

  // ---------------------------------------------------------------------
  // One call at a time

  /** `Create` writes the table first; when that fails the cache is not
      touched, and otherwise exactly the author's list key and the note's
      key are deleted. */
  lemma CreateInvalidatesAfterInsert(st: StoreState, db: DbState, n: Note, now: Instant)
    ensures CreateSpec(st, db, n).db == db.Create(n).1
    ensures db.Create(n).0.Fail? ==> CreateSpec(st, db, n).result == Fail(DbFailure) && CreateSpec(st, db, n).store == st
    ensures SameOutside(st.space, CreateSpec(st, db, n).store.space, NoteKeys(n.authorId, n.id))
    ensures CreateSpec(st, db, n).result.Pass? ==>
      && CreateSpec(st, db, n).store.space.Lookup(NotesKey(n.authorId), now).None?
      && CreateSpec(st, db, n).store.space.Lookup(NoteKey(n.id), now).None?
  {
    DeleteFrame(st.space, NoteKeys(n.authorId, n.id));
  }

  /** No operation of the cache adds, changes or removes a row by reading. */
  lemma ReadsKeepRows(st: StoreState, db: DbState, id: Uuid, now: Instant)
    ensures FetchSpec(st, db, id, now).db.rows == db.rows
    ensures FetchAllSpec(st, db, id, now).db.rows == db.rows
  {
  }

  /** A miss reads the table once. Its failure, `ErrNoteIsNotExists`
      included, is returned and nothing is cached; a row found is stored
      under the note's key for `defaultTTL`. */
  lemma FetchMiss(st: StoreState, db: DbState, id: Uuid, now: Instant)
    requires !st.NextFails() && st.space.Lookup(NoteKey(id), now).None?
    ensures FetchSpec(st, db, id, now).db == db.Fetch(id).1
    ensures db.Fetch(id).0.Err? ==>
      FetchSpec(st, db, id, now).result == db.Fetch(id).0 && FetchSpec(st, db, id, now).store.space == st.space
    ensures SameOutside(st.space, FetchSpec(st, db, id, now).store.space, {NoteKey(id)})
    ensures FetchSpec(st, db, id, now).result.Ok? ==>
      && FetchSpec(st, db, id, now).result == db.Fetch(id).0
      && FetchSpec(st, db, id, now).store.space.Lookup(NoteKey(id), now) == Some(Str(NoteJson(FetchSpec(st, db, id, now).result.value)))
      && FetchSpec(st, db, id, now).store.space.expiry[NoteKey(id)] == now + DefaultTTL
  {
    var f := db.Fetch(id).0;
    if f.Ok? {
      SetExFrame(st.space, NoteKey(id), NoteJson(f.value), DefaultTTL, now);
      SetExWrites(st.space, NoteKey(id), NoteJson(f.value), DefaultTTL, now);
    }
  }

  /** A hit does not consult the table at all. A document that is not a
      note is a decoding error, not a miss; a note is returned and its
      TTL restarted. */
  lemma FetchHit(st: StoreState, db: DbState, id: Uuid, b: Blob, now: Instant)
    requires !st.NextFails() && st.space.Lookup(NoteKey(id), now) == Some(Str(b))
    ensures FetchSpec(st, db, id, now).db == db
    ensures !b.NoteJson? ==> FetchSpec(st, db, id, now).result == Err(Malformed) && FetchSpec(st, db, id, now).store.space == st.space
    ensures b.NoteJson? ==> FetchSpec(st, db, id, now).result in {Ok(b.note), Err(StoreFailure)}
    ensures SameOutside(st.space, FetchSpec(st, db, id, now).store.space, {NoteKey(id)})
    ensures FetchSpec(st, db, id, now).store.space.Lookup(NoteKey(id), now) == st.space.Lookup(NoteKey(id), now)
    ensures FetchSpec(st, db, id, now).result.Ok? ==> FetchSpec(st, db, id, now).store.space.expiry[NoteKey(id)] == now + DefaultTTL
  {
    ExpireFrame(st.space, NoteKey(id), DefaultTTL, now);
    ExpireWrites(st.space, NoteKey(id), DefaultTTL, now);
  }

  /** A failing GET, or a key of another type, is returned as it is and
      neither the table nor the key space is touched. */
  lemma FetchStoreError(st: StoreState, db: DbState, id: Uuid, now: Instant)
    requires st.NextFails() || (st.space.Lookup(NoteKey(id), now).Some? && !st.space.Lookup(NoteKey(id), now).value.Str?)
    ensures FetchSpec(st, db, id, now).result == Err(StoreFailure)
    ensures FetchSpec(st, db, id, now).db == db && FetchSpec(st, db, id, now).store.space == st.space
  {
  }

  /** `FetchAll` on a miss: the author's rows, possibly none, are cached
      for `defaultTTL`; a failure of the table is returned uncached. */
  lemma FetchAllMiss(st: StoreState, db: DbState, u: Uuid, now: Instant)
    requires !st.NextFails() && st.space.Lookup(NotesKey(u), now).None?
    ensures FetchAllSpec(st, db, u, now).db == db.FetchAll(u).1
    ensures db.FetchAll(u).0.Err? ==>
      FetchAllSpec(st, db, u, now).result == Err(DbFailure) && FetchAllSpec(st, db, u, now).store.space == st.space
    ensures SameOutside(st.space, FetchAllSpec(st, db, u, now).store.space, {NotesKey(u)})
    ensures FetchAllSpec(st, db, u, now).result.Ok? ==>
      && FetchAllSpec(st, db, u, now).result == Ok(Authored(db.rows, u))
      && FetchAllSpec(st, db, u, now).store.space.Lookup(NotesKey(u), now) == Some(Str(NoteListJson(Authored(db.rows, u))))
      && FetchAllSpec(st, db, u, now).store.space.expiry[NotesKey(u)] == now + DefaultTTL
  {
    var f := db.FetchAll(u).0;
    if f.Ok? {
      SetExFrame(st.space, NotesKey(u), NoteListJson(f.value), DefaultTTL, now);
      SetExWrites(st.space, NotesKey(u), NoteListJson(f.value), DefaultTTL, now);
    }
  }

  lemma FetchAllHit(st: StoreState, db: DbState, u: Uuid, b: Blob, now: Instant)
    requires !st.NextFails() && st.space.Lookup(NotesKey(u), now) == Some(Str(b))
    ensures FetchAllSpec(st, db, u, now).db == db
    ensures !b.NoteListJson? ==> FetchAllSpec(st, db, u, now).result == Err(Malformed) && FetchAllSpec(st, db, u, now).store.space == st.space
    ensures b.NoteListJson? ==> FetchAllSpec(st, db, u, now).result in {Ok(b.notes), Err(StoreFailure)}
    ensures SameOutside(st.space, FetchAllSpec(st, db, u, now).store.space, {NotesKey(u)})
    ensures FetchAllSpec(st, db, u, now).result.Ok? ==> FetchAllSpec(st, db, u, now).store.space.expiry[NotesKey(u)] == now + DefaultTTL
  {
    ExpireFrame(st.space, NotesKey(u), DefaultTTL, now);
    ExpireWrites(st.space, NotesKey(u), DefaultTTL, now);
  }

  lemma FetchAllStoreError(st: StoreState, db: DbState, u: Uuid, now: Instant)
    requires st.NextFails() || (st.space.Lookup(NotesKey(u), now).Some? && !st.space.Lookup(NotesKey(u), now).value.Str?)
    ensures FetchAllSpec(st, db, u, now).result == Err(StoreFailure)
    ensures FetchAllSpec(st, db, u, now).db == db && FetchAllSpec(st, db, u, now).store.space == st.space
  {
  }

  /** `Update` saves the patch only after a successful `Fetch`, and then
      deletes exactly the keys of the note as that fetch returned it, before
      the patch. */
  lemma UpdateFetchesFirst(st: StoreState, db: DbState, d: NoteDTO, now: Instant)
    ensures FetchSpec(st, db, d.id, now).result.Err? ==>
      && UpdateSpec(st, db, d, now).result == Fail(FetchSpec(st, db, d.id, now).result.error)
      && UpdateSpec(st, db, d, now).db.rows == db.rows
    ensures FetchSpec(st, db, d.id, now).result.Ok? ==>
      && UpdateSpec(st, db, d, now).db == FetchSpec(st, db, d.id, now).db.Update(d).1
      && SameOutside(FetchSpec(st, db, d.id, now).store.space, UpdateSpec(st, db, d, now).store.space,
                     NoteKeys(FetchSpec(st, db, d.id, now).result.value.authorId, FetchSpec(st, db, d.id, now).result.value.id))
    ensures UpdateSpec(st, db, d, now).result.Pass? ==>
      && UpdateSpec(st, db, d, now).db.rows == PatchRows(db.rows, d)
      && UpdateSpec(st, db, d, now).store.space.Lookup(NoteKey(FetchSpec(st, db, d.id, now).result.value.id), now).None?
      && UpdateSpec(st, db, d, now).store.space.Lookup(NotesKey(FetchSpec(st, db, d.id, now).result.value.authorId), now).None?
  {
    var f := FetchSpec(st, db, d.id, now);
    if f.result.Ok? {
      DeleteFrame(f.store.space, NoteKeys(f.result.value.authorId, f.result.value.id));
    }
  }

  /** `Delete` in the same shape: no fetched note, no row removed. */
  lemma DeleteFetchesFirst(st: StoreState, db: DbState, id: Uuid, now: Instant)
    ensures FetchSpec(st, db, id, now).result.Err? ==>
      && DeleteSpec(st, db, id, now).result == Fail(FetchSpec(st, db, id, now).result.error)
      && DeleteSpec(st, db, id, now).db.rows == db.rows
    ensures FetchSpec(st, db, id, now).result.Ok? ==>
      && DeleteSpec(st, db, id, now).db == FetchSpec(st, db, id, now).db.Delete(id).1
      && SameOutside(FetchSpec(st, db, id, now).store.space, DeleteSpec(st, db, id, now).store.space,
                     NoteKeys(FetchSpec(st, db, id, now).result.value.authorId, FetchSpec(st, db, id, now).result.value.id))
    ensures DeleteSpec(st, db, id, now).result.Pass? ==>
      && DeleteSpec(st, db, id, now).db.rows == Without(db.rows, id)
      && DeleteSpec(st, db, id, now).store.space.Lookup(NoteKey(FetchSpec(st, db, id, now).result.value.id), now).None?
      && DeleteSpec(st, db, id, now).store.space.Lookup(NotesKey(FetchSpec(st, db, id, now).result.value.authorId), now).None?
  {
    var f := FetchSpec(st, db, id, now);
    if f.result.Ok? {
      DeleteFrame(f.store.space, NoteKeys(f.result.value.authorId, f.result.value.id));
    }
  }
}
