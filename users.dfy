/** The `User` entity and the invariants of the table that stores it. */
module Users {

  /** `LocalDateTime` of the source: an opaque value, never computed with. */
  type Timestamp = int

  /** A stored user. `password` holds the encoded password, never the
      plaintext. `id` and `createdAt` are assigned by the store. */
  datatype User = User(
    id: int,
    username: string,
    email: string,
    password: string,
    createdAt: Timestamp,
    isActive: bool)

  /** The value of `isActive` of a freshly created user. The registration
      code never sets it, so it is the entity's default; the entity class is
      not modelled, and the default is taken to be `true`, as in the listing
      example of the controller's documentation. */
  const InitialIsActive: bool := true

  ghost predicate HasUsername(users: seq<User>, name: string) {
    exists i :: 0 <= i < |users| && users[i].username == name
  }

  ghost predicate HasEmail(users: seq<User>, email: string) {
    exists i :: 0 <= i < |users| && users[i].email == email
  }

  ghost predicate UniqueUsernames(users: seq<User>) {
    forall i, j :: 0 <= i < j < |users| ==> users[i].username != users[j].username
  }

  ghost predicate UniqueEmails(users: seq<User>) {
    forall i, j :: 0 <= i < j < |users| ==> users[i].email != users[j].email
  }

  /** No two stored users share a username or an email. */
  ghost predicate Unique(users: seq<User>) {
    UniqueUsernames(users) && UniqueEmails(users)
  }

  /** Two records of the same account: everything but `isActive` agrees. */
  ghost predicate SameAccount(a: User, b: User) {
    a.id == b.id && a.username == b.username && a.email == b.email &&
    a.password == b.password && a.createdAt == b.createdAt
  }

  /** How the table may change: no record is removed or reordered, every
      record keeps its account data, and `isActive` only goes from `true`
      to `false`. */
  ghost predicate Evolves(before: seq<User>, after: seq<User>) {
    |before| <= |after| &&
    forall i :: 0 <= i < |before| ==>
      SameAccount(before[i], after[i]) && (after[i].isActive ==> before[i].isActive)
  }

  lemma EvolvesTransitive(a: seq<User>, b: seq<User>, c: seq<User>)
    requires Evolves(a, b) && Evolves(b, c)
    ensures Evolves(a, c)
  {
  }
}
