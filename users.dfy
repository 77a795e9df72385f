/**
 * The `User` collaborator, as far as a post sees it. User's own persistence
 * is not part of this model: a lookup by identity stands in for `User::load`.
 */
module Users {
  import opened Wrappers

  /** A User object. A post reads only its `identity`; `None` is a User whose
      load found nobody, so that its identity was never set. */
  datatype User = User(identity: Option<string>)

  /** What `User::load` leaves in a fresh User when asked for an identity. */
  type UserLookup = string -> User

  /** A lookup that, whenever it finds a user, finds the one it was asked for. */
  ghost predicate Faithful(find: UserLookup) {
    forall x :: find(x).identity.Some? ==> find(x).identity == Some(x)
  }

  /** The `author` field: an identity string or a resolved User. */
  datatype UserRef = UserId(id: string) | UserObj(user: User)

  /** The identity either form of the reference names (unset for an unready User). */
  function Identity(a: UserRef): Option<string> {
    match a
    case UserId(x) => Some(x)
    case UserObj(u) => u.identity
  }
}
