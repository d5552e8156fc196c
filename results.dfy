/** Outcomes shared by every layer of the note service's state model.

    The Go code returns `error` values; the model keeps only the distinctions
    the core makes: the three not-found sentinels, a failure reported by the
    key-value store, a failure reported by the relational store, and a payload
    that cannot be decoded. Go's `errors.Join` wrapping keeps the kind of the
    wrapped error, so a joined error is the same `Error` here. */
module Results {

  datatype Error =
    | StoreFailure      // any reply of the key-value store other than a value or a miss
    | DbFailure         // any failure reported by the relational store
    | Malformed         // a stored value that cannot be decoded (JSON, time, UUID text)
    | SessionNotExists  // session.ErrSessionIsNotExists
    | NoteNotExists     // note.ErrNoteIsNotExists
    | UserNotExists     // user.ErrUserIsNotExists

  /** A value or an error, as a Go `(T, error)` pair. */
  datatype Result<+T> = Ok(value: T) | Err(error: Error)

  /** The result of an operation that returns only `error`. */
  datatype Outcome = Pass | Fail(error: Error)

  datatype Option<+T> = None | Some(value: T)
}
