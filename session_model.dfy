/** The session record, its constants and its key bases
    (src/internal/session/model.go). */
module SessionModel {
  import opened Uuids
  import opened Clock

  const SessionsUserIdKeyBase: string := "ns:sessions:user:"
  const SessionsKeyBase: string := "ns:sessions:"

  /** The cap on the sessions a user keeps. */
  const MaxSessions: int := 5

  /** The lifetime of a session record and of the user's session list. */
  const SessionTTL: Duration := Hour * 24 * 30

  /** One login of one user; `lastActivity` is the only field that changes. */
  datatype Session = Session(
    id: Uuid,
    userId: Uuid,
    role: string,
    createdAt: Instant,
    lastActivity: Instant)

  /** The list base extends the record base: a key that starts with
      "ns:sessions:" may still be a list key, so the prefix alone does not
      tell the two families apart. */
  lemma KeyBasesNest()
    ensures SessionsKeyBase <= SessionsUserIdKeyBase
    ensures SessionsUserIdKeyBase == SessionsKeyBase + "user:"
    ensures SessionTTL == 2_592_000 * Second
  {
  }
}
