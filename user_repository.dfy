/** The queries of `UserRepository`, as functions over the stored table. The
    table is a sequence in the order `findAll` returns it. */
module UserRepository {
  import opened Wrappers
  import opened Users

  /** `existsByUsername`. */
  function ExistsByUsername(users: seq<User>, name: string): (b: bool)
    ensures b <==> HasUsername(users, name)
  {
    if |users| == 0 then false
    else users[0].username == name || ExistsByUsername(users[1..], name)
  }

  /** `existsByEmail`. */
  function ExistsByEmail(users: seq<User>, email: string): (b: bool)
    ensures b <==> HasEmail(users, email)
  {
    if |users| == 0 then false
    else users[0].email == email || ExistsByEmail(users[1..], email)
  }

  /** Position of the first stored user with this username. */
  function IndexOfUsername(users: seq<User>, name: string): (r: Option<nat>)
    ensures r.Some? ==> r.value < |users| && users[r.value].username == name
    ensures r.Some? ==> forall j :: 0 <= j < r.value ==> users[j].username != name
    ensures r.None? <==> !HasUsername(users, name)
  {
    if |users| == 0 then None
    else if users[0].username == name then Some(0)
    else match IndexOfUsername(users[1..], name)
      case None => None
      case Some(i) => Some(i + 1)
  }

  /** `findByUsername`. */
  function FindByUsername(users: seq<User>, name: string): (r: Option<User>)
    ensures r.None? <==> !HasUsername(users, name)
    ensures r.Some? ==> r.value in users && r.value.username == name
    ensures UniqueUsernames(users) ==>
      forall i :: 0 <= i < |users| && users[i].username == name ==> r == Some(users[i])
  {
    match IndexOfUsername(users, name)
    case None => None
    case Some(i) => Some(users[i])
  }

  /** The lookup only looks at usernames. */
  lemma {:induction false} IndexOfUsernameReadsNames(a: seq<User>, b: seq<User>, name: string)
    requires |a| == |b|
    requires forall i :: 0 <= i < |a| ==> a[i].username == b[i].username
    ensures IndexOfUsername(a, name) == IndexOfUsername(b, name)
  {
    if |a| > 0 {
      IndexOfUsernameReadsNames(a[1..], b[1..], name);
    }
  }
}
