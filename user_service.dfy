/** Cache keys, the constructor and the password check of a user
    (src/internal/user/service.go). */
module UserService {
  import opened Uuids
  import opened Clock
  import opened Text
  import opened UserModel

  /** `getUserLoginKey`: "ns:users:login:<login>". */
  function LoginKey(login: string): (k: string)
    ensures k == UserLoginKeyBase + login
  {
    "ns:users:login:" + login
  }

  /** `getUserKey`: "ns:users:<id>". */
  function UserKey(userId: Uuid): (k: string)
    ensures k == UserKeyBase + userId
  {
    "ns:users:" + userId
  }

  /** Each family is injective, and no id key is a login key although the
      login base extends the id base: after "ns:users:" an id key has a hex
      digit and a login key the 'l' of "login:". */
  lemma UserKeysInjectiveAndDisjoint(a: Uuid, b: Uuid, l: string, m: string)
    ensures UserKey(a) == UserKey(b) ==> a == b
    ensures LoginKey(l) == LoginKey(m) ==> l == m
    ensures UserKey(a) != LoginKey(l)
  {
    if UserKey(a) == UserKey(b) {
      assert a == UserKey(a)[9..];
    }
    if LoginKey(l) == LoginKey(m) {
      assert l == LoginKey(l)[15..];
    }
    LeadingHexDigit(a);
    assert UserKey(a)[9] == a[0] && LoginKey(l)[9] == 'l';
  }

  /** The salted password hash (SHA-512, then base64), a parameter of the
      model. */
  type Digest = string -> string

  /** `New`: the login is stored lower-cased; the salt, the id and the
      clock reading are inputs, and one reading stamps both times. */
  function New(login: string, password: string, hash: Digest, salt: string, id: Uuid, now: Instant): (u: User)
    ensures u.id == id && u.login == Lower(login) && IsLower(u.login)
    ensures u.password == hash(password + salt) && u.salt == salt
    ensures u.role == DefaultRole
    ensures u.registeredAt == u.lastLoginAt == now
  {
    LowerIsLower(login);
    User(id, Lower(login), hash(password + salt), salt, DefaultRole, now, now)
  }

  /** `ValidatePassword`: the candidate, salted with the user's salt,
      hashes to the stored password. */
  predicate ValidatePassword(u: User, password: string, hash: Digest) {
    u.password == hash(password + u.salt)
  }

  /** A new user accepts the password it was made with, and rejects every
      password whose salted hash differs. */
  lemma NewValidates(login: string, password: string, other: string, hash: Digest, salt: string, id: Uuid, now: Instant)
    ensures ValidatePassword(New(login, password, hash, salt, id, now), password, hash)
    ensures ValidatePassword(New(login, password, hash, salt, id, now), other, hash) <==> hash(other + salt) == hash(password + salt)
  {
  }

  /** Logins that differ only in case make the same user name and so the
      same login key. */
  lemma NewIgnoresCase(a: string, b: string, password: string, hash: Digest, salt: string, id: Uuid, now: Instant)
    requires Lower(a) == Lower(b)
    ensures New(a, password, hash, salt, id, now) == New(b, password, hash, salt, id, now)
    ensures LoginKey(New(a, password, hash, salt, id, now).login) == LoginKey(Lower(b))
  {
  }
}
