/** The user record, its validation rule and the cache's constants
    (src/internal/user/model.go). */
module UserModel {
  import opened Uuids
  import opened Clock
  import opened Text

  const UserLoginKeyBase: string := "ns:users:login:"
  const UserKeyBase: string := "ns:users:"

  /** How long a cached user lives without being read. */
  const DefaultTTL: Duration := Hour

  /** The role every new account receives. */
  const DefaultRole: string := "user"

  datatype User = User(
    id: Uuid,
    login: string,
    password: string,
    salt: string,
    role: string,
    registeredAt: Instant,
    lastLoginAt: Instant)

  /** The validator tag on `Login`: `required,min=3,max=32,alphanum`. */
  predicate ValidLogin(login: string) {
    3 <= |login| <= 32 && AllAlphaNum(login)
  }

  /** A valid login stays valid when lower-cased, so storing the lower-case
      form never turns an accepted login into a rejected one. */
  lemma ValidLoginLowered(login: string)
    requires ValidLogin(login)
    ensures ValidLogin(Lower(login))
  {
    LowerKeepsAlphaNum(login);
  }

  /** The login base extends the id base. */
  lemma KeyBasesNest()
    ensures UserKeyBase <= UserLoginKeyBase
    ensures UserLoginKeyBase == UserKeyBase + "login:"
  {
  }
}
