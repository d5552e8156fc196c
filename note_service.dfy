/** Cache keys and the constructor of a note (src/internal/note/service.go). */
module NoteService {
  import opened Uuids
  import opened Clock
  import opened NoteModel

  /** `getNoteKey`: the `"%s:%s"` format puts a second colon after a base
      that already ends in one, so the key is "ns:notes::<id>". */
  function NoteKey(noteId: Uuid): (k: string)
    ensures k == "ns:notes::" + noteId
  {
    NotesKeyBase + ":" + noteId
  }

  /** `getNotesKey`: "ns:notes:users::<userId>", the key of a user's list. */
  function NotesKey(userId: Uuid): (k: string)
    ensures k == "ns:notes:users::" + userId
  {
    NotesUserIdKeyBase + ":" + userId
  }

  /** Distinct ids give distinct keys in each family, and the families are
      disjoint: the tenth character is ':' in a note key and 'u' in a list
      key. */
  lemma NoteKeysInjectiveAndDisjoint(a: Uuid, b: Uuid)
    ensures NoteKey(a) == NoteKey(b) ==> a == b
    ensures NotesKey(a) == NotesKey(b) ==> a == b
    ensures NoteKey(a) != NotesKey(b)
  {
    if NoteKey(a) == NoteKey(b) {
      assert a == NoteKey(a)[10..];
    }
    if NotesKey(a) == NotesKey(b) {
      assert a == NotesKey(a)[16..];
    }
    assert NoteKey(a)[9] == ':' && NotesKey(b)[9] == 'u';
  }

  /** `New`: a note by `authorId`. The id comes from `uuid.New()` and the
      single clock reading stamps both times, all passed in. */
  function New(authorId: Uuid, title: string, content: string, id: Uuid, now: Instant): (n: Note)
    ensures n.id == id && n.authorId == authorId
    ensures n.title == title && n.content == content
    ensures n.createdAt == n.updatedAt == now
  {
    Note(id, authorId, title, content, now, now)
  }
}
