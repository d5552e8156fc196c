/** The three caches share one Redis database. Their six key families never
    meet: the character after "ns:" is 's' for sessions, 'n' for notes and
    'u' for users (src/internal/session/service.go:13-19,
    src/internal/note/service.go:11-18, src/internal/user/service.go:14-20). */
module KeySpace {
  import opened Uuids
  import opened SessionService
  import opened NoteService
  import opened UserService

  lemma FamiliesDisjoint(a: Uuid, b: Uuid, l: string)
    ensures SessionKey(a) != NoteKey(b) && SessionKey(a) != NotesKey(b)
    ensures SessionsKey(a) != NoteKey(b) && SessionsKey(a) != NotesKey(b)
    ensures SessionKey(a) != UserKey(b) && SessionKey(a) != LoginKey(l)
    ensures SessionsKey(a) != UserKey(b) && SessionsKey(a) != LoginKey(l)
    ensures NoteKey(a) != UserKey(b) && NoteKey(a) != LoginKey(l)
    ensures NotesKey(a) != UserKey(b) && NotesKey(a) != LoginKey(l)
  {
    assert SessionKey(a)[3] == 's' && SessionsKey(a)[3] == 's';
    assert NoteKey(a)[3] == 'n' && NotesKey(a)[3] == 'n';
    assert NoteKey(b)[3] == 'n' && NotesKey(b)[3] == 'n';
    assert UserKey(b)[3] == 'u' && LoginKey(l)[3] == 'u';
  }
}
