/** The read-through, invalidate-on-write note cache (src/internal/note/cache.go).

    Each operation is a function from the key-value state and the durable
    state before the call to a `Run` (the reply and both states after it),
    and a method of `RepositoryCache` that issues the same calls one at a
    time, proved to agree with the function. */
module NoteCache {
  import opened Results
  import opened Uuids
  import opened Clock
  import opened NoteModel
  import opened KeyValue
  import opened NoteService
  import opened NoteDb

  /** `json.Unmarshal` into a `Note`: a cached document of any other shape
      is a decoding error. */
  function DecodeNote(b: Blob): (r: Result<Note>)
    ensures r.Ok? <==> b.NoteJson?
    ensures r.Ok? ==> b == NoteJson(r.value)
    ensures r.Err? ==> r.error == Malformed
  {
    if b.NoteJson? then Ok(b.note) else Err(Malformed)
  }

  /** `json.Unmarshal` into a `[]*Note`. */
  function DecodeNotes(b: Blob): (r: Result<seq<Note>>)
    ensures r.Ok? <==> b.NoteListJson?
    ensures r.Ok? ==> b == NoteListJson(r.value)
    ensures r.Err? ==> r.error == Malformed
  {
    if b.NoteListJson? then Ok(b.notes) else Err(Malformed)
  }

  /** The two keys that can hold a copy of a note: its own and its author's
      list. */
  function NoteKeys(authorId: Uuid, noteId: Uuid): set<string> {
    {NotesKey(authorId), NoteKey(noteId)}
  }

  /** `invalidateNoteCache`: one DEL of both keys. */
  function InvalidateSpec(st: StoreState, authorId: Uuid, noteId: Uuid): (Outcome, StoreState) {
    st.Del(NoteKeys(authorId, noteId))
  }

  /** `Create`: insert, then invalidate. */
  function CreateSpec(st: StoreState, db: DbState, n: Note): Run<Outcome, DbState> {
    var (o, db1) := db.Create(n);
    if o.Fail? then Run(o, st, db1)
    else
      var (p, st1) := InvalidateSpec(st, n.authorId, n.id);
      Run(p, st1, db1)
  }

  /** `Fetch`: GET; on a miss read the table and SET the note for an hour;
      on a hit decode and EXPIRE. */
  function FetchSpec(st: StoreState, db: DbState, noteId: Uuid, now: Instant): Run<Result<Note>, DbState> {
    var (g, st1) := st.Get(NoteKey(noteId), now);
    match g
    case Missing =>
      var (f, db1) := db.Fetch(noteId);
      if f.Err? then Run(f, st1, db1)
      else
        var (o, st2) := st1.Set(NoteKey(noteId), NoteJson(f.value), DefaultTTL, now);
        Run(if o.Fail? then Err(o.error) else f, st2, db1)
    case Failed(e) => Run(Err(e), st1, db)
    case Found(b) =>
      var n := DecodeNote(b);
      if n.Err? then Run(n, st1, db)
      else
        var (o, st2) := st1.Expire(NoteKey(noteId), DefaultTTL, now);
        Run(if o.Fail? then Err(o.error) else n, st2, db)
  }

  /** `FetchAll`: the same pattern on the author's list key. */
  function FetchAllSpec(st: StoreState, db: DbState, userId: Uuid, now: Instant): Run<Result<seq<Note>>, DbState> {
    var (g, st1) := st.Get(NotesKey(userId), now);
    match g
    case Missing =>
      var (f, db1) := db.FetchAll(userId);
      if f.Err? then Run(f, st1, db1)
      else
        var (o, st2) := st1.Set(NotesKey(userId), NoteListJson(f.value), DefaultTTL, now);
        Run(if o.Fail? then Err(o.error) else f, st2, db1)
    case Failed(e) => Run(Err(e), st1, db)
    case Found(b) =>
      var ns := DecodeNotes(b);
      if ns.Err? then Run(ns, st1, db)
      else
        var (o, st2) := st1.Expire(NotesKey(userId), DefaultTTL, now);
        Run(if o.Fail? then Err(o.error) else ns, st2, db)
  }

  /** `Delete`: fetch, remove the row, invalidate the fetched note's keys. */
  function DeleteSpec(st: StoreState, db: DbState, noteId: Uuid, now: Instant): Run<Outcome, DbState> {
    var f := FetchSpec(st, db, noteId, now);
    if f.result.Err? then Run(Fail(f.result.error), f.store, f.db)
    else
      var (o, db2) := f.db.Delete(noteId);
      if o.Fail? then Run(o, f.store, db2)
      else
        var (p, st2) := InvalidateSpec(f.store, f.result.value.authorId, f.result.value.id);
        Run(p, st2, db2)
  }

  /** `Update`: fetch, save the patch, invalidate the pre-update note's
      keys. */
  function UpdateSpec(st: StoreState, db: DbState, d: NoteDTO, now: Instant): Run<Outcome, DbState> {
    var f := FetchSpec(st, db, d.id, now);
    if f.result.Err? then Run(Fail(f.result.error), f.store, f.db)
    else
      var (o, db2) := f.db.Update(d);
      if o.Fail? then Run(o, f.store, db2)
      else
        var (p, st2) := InvalidateSpec(f.store, f.result.value.authorId, f.result.value.id);
        Run(p, st2, db2)
  }

  /** The cache: the shared Redis client and the table it fronts. */
  class RepositoryCache {
    const client: Store
    const repo: Db

    constructor(client: Store, repo: Db)
      ensures this.client == client && this.repo == repo
    {
      this.client, this.repo := client, repo;
    }

    method Invalidate(authorId: Uuid, noteId: Uuid) returns (r: Outcome)
      modifies client
      ensures (r, client.State()) == old(InvalidateSpec(client.State(), authorId, noteId))
    {
      r := client.Del(NoteKeys(authorId, noteId));
    }

    method Create(n: Note) returns (r: Outcome)
      modifies client, repo
      ensures Run(r, client.State(), repo.State()) == old(CreateSpec(client.State(), repo.State(), n))
    {
      r := repo.Create(n);
      if r.Fail? {
        return;
      }
      r := Invalidate(n.authorId, n.id);
    }

    method Fetch(noteId: Uuid, now: Instant) returns (r: Result<Note>)
      modifies client, repo
      ensures Run(r, client.State(), repo.State()) == old(FetchSpec(client.State(), repo.State(), noteId, now))
    {
      var g := client.Get(NoteKey(noteId), now);
      match g {
        case Missing =>
          r := repo.Fetch(noteId);
          if r.Err? {
            return;
          }
          var o := client.Set(NoteKey(noteId), NoteJson(r.value), DefaultTTL, now);
          if o.Fail? {
            r := Err(o.error);
          }
        case Failed(e) =>
          r := Err(e);
        case Found(b) =>
          r := DecodeNote(b);
          if r.Err? {
            return;
          }
          var o := client.Expire(NoteKey(noteId), DefaultTTL, now);
          if o.Fail? {
            r := Err(o.error);
          }
      }
    }

    method FetchAll(userId: Uuid, now: Instant) returns (r: Result<seq<Note>>)
      modifies client, repo
      ensures Run(r, client.State(), repo.State()) == old(FetchAllSpec(client.State(), repo.State(), userId, now))
    {
      var g := client.Get(NotesKey(userId), now);
      match g {
        case Missing =>
          r := repo.FetchAll(userId);
          if r.Err? {
            return;
          }
          var o := client.Set(NotesKey(userId), NoteListJson(r.value), DefaultTTL, now);
          if o.Fail? {
            r := Err(o.error);
          }
        case Failed(e) =>
          r := Err(e);
        case Found(b) =>
          r := DecodeNotes(b);
          if r.Err? {
            return;
          }
          var o := client.Expire(NotesKey(userId), DefaultTTL, now);
          if o.Fail? {
            r := Err(o.error);
          }
      }
    }

    method Delete(noteId: Uuid, now: Instant) returns (r: Outcome)
      modifies client, repo
      ensures Run(r, client.State(), repo.State()) == old(DeleteSpec(client.State(), repo.State(), noteId, now))
    {
      var f := Fetch(noteId, now);
      if f.Err? {
        return Fail(f.error);
      }
      r := repo.Delete(noteId);
      if r.Fail? {
        return;
      }
      r := Invalidate(f.value.authorId, f.value.id);
    }

    method Update(d: NoteDTO, now: Instant) returns (r: Outcome)
      modifies client, repo
      ensures Run(r, client.State(), repo.State()) == old(UpdateSpec(client.State(), repo.State(), d, now))
    {
      var f := Fetch(d.id, now);
      if f.Err? {
        return Fail(f.error);
      }
      r := repo.Update(d);
      if r.Fail? {
        return;
      }
      r := Invalidate(f.value.authorId, f.value.id);
    }
  }
}
