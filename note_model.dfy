/** The note record, the patch that updates it, and the cache's constants
    (src/internal/note/model.go). */
module NoteModel {
  import opened Uuids
  import opened Clock

  const NotesUserIdKeyBase: string := "ns:notes:users:"
  const NotesKeyBase: string := "ns:notes:"

  /** How long a cached note or note list lives without being read. */
  const DefaultTTL: Duration := Hour

  datatype Note = Note(
    id: Uuid,
    authorId: Uuid,
    title: string,
    content: string,
    createdAt: Instant,
    updatedAt: Instant)

  /** `NoteDTO`: the only fields an update carries. The author and the
      creation time are not among them. */
  datatype NoteDTO = NoteDTO(
    id: Uuid,
    title: string,
    content: string,
    updatedAt: Instant)

  /** The row an update leaves behind: the patch's fields over the stored
      note's. */
  function Patched(n: Note, d: NoteDTO): (r: Note)
    requires n.id == d.id
    ensures r.id == n.id && r.authorId == n.authorId && r.createdAt == n.createdAt
    ensures r.title == d.title && r.content == d.content && r.updatedAt == d.updatedAt
  {
    n.(title := d.title, content := d.content, updatedAt := d.updatedAt)
  }

  /** A patch cannot move a note to another author or change when it was
      created: applying two patches in turn is applying the last. */
  lemma PatchesCompose(n: Note, d1: NoteDTO, d2: NoteDTO)
    requires n.id == d1.id == d2.id
    ensures Patched(Patched(n, d1), d2) == Patched(n, d2)
  {
  }
}
