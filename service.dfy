/** `UserService`: registration, authentication, logical logout and listing
    over the user table. */
module Service {
  import opened Wrappers
  import opened Users
  import opened UserRepository
  import opened PasswordEncoding
  import opened Dtos

  /** The `RuntimeException`s the service throws, one per message. */
  datatype ServiceError = UsernameInUse | EmailRegistered | UserNotFound | InvalidCredentials | UserInactive

  /** The exception's message, which the controller copies into its response. */
  function Message(e: ServiceError): (m: string) {
    match e
    case UsernameInUse => "El nombre de usuario ya está en uso"
    case EmailRegistered => "El email ya está registrado"
    case UserNotFound => "Usuario no encontrado"
    case InvalidCredentials => "Credenciales inválidas"
    case UserInactive => "Usuario inactivo"
  }

  /** Distinct errors carry distinct messages, so a client reading the
      response can tell them apart. */
  lemma MessagesDistinct(e1: ServiceError, e2: ServiceError)
    ensures e1 != e2 ==> Message(e1) != Message(e2)
  {
  }

  /** `registerUser` on the table `users`: the result and the table after it.
      `id` and `createdAt` are the values the store assigns to a new row. */
  function RegisterOutcome(users: seq<User>, encoder: PasswordEncoder, req: RegistrationRequest,
                           id: int, createdAt: Timestamp): (out: (Result<User, ServiceError>, seq<User>))
    // A taken username is reported first, whatever the email; nothing is saved.
    ensures HasUsername(users, req.username) ==> out == (Err(UsernameInUse), users)
    // A free username with a taken email; nothing is saved.
    ensures !HasUsername(users, req.username) && HasEmail(users, req.email) ==>
      out == (Err(EmailRegistered), users)
    // Otherwise exactly one user is added, and it is the one returned.
    ensures !HasUsername(users, req.username) && !HasEmail(users, req.email) ==>
      && out.0.Ok?
      && out.1 == users + [out.0.value]
      && out.0.value.username == req.username
      && out.0.value.email == req.email
      && out.0.value.password == encoder.encode(req.password)
      && out.0.value.isActive == InitialIsActive
      && out.0.value.id == id && out.0.value.createdAt == createdAt
    ensures out.0.Err? ==> out.0.error in {UsernameInUse, EmailRegistered}
    ensures Evolves(users, out.1)
    ensures Unique(users) ==> Unique(out.1)
  {
    if ExistsByUsername(users, req.username) then (Err(UsernameInUse), users)
    else if ExistsByEmail(users, req.email) then (Err(EmailRegistered), users)
    else
      var user := User(id, req.username, req.email, encoder.encode(req.password), createdAt, InitialIsActive);
      (Ok(user), users + [user])
  }

  /** `authenticateUser`: lookup, then password, then active flag. */
  function AuthenticateUser(users: seq<User>, encoder: PasswordEncoder, login: LoginRequest): (r: Result<User, ServiceError>)
    ensures r == Err(UserNotFound) <==> !HasUsername(users, login.username)
    ensures r.Ok? ==>
      && r.value in users
      && r.value.username == login.username
      && encoder.matches(login.password, r.value.password)
      && r.value.isActive
    ensures r == Err(InvalidCredentials) ==>
      exists i :: 0 <= i < |users| && users[i].username == login.username &&
        !encoder.matches(login.password, users[i].password)
    ensures r == Err(UserInactive) ==>
      exists i :: 0 <= i < |users| && users[i].username == login.username &&
        encoder.matches(login.password, users[i].password) && !users[i].isActive
    ensures r.Err? ==> r.error in {UserNotFound, InvalidCredentials, UserInactive}
  {
    match FindByUsername(users, login.username)
    case None => Err(UserNotFound)
    case Some(user) =>
      if !encoder.matches(login.password, user.password) then Err(InvalidCredentials)
      else if !user.isActive then Err(UserInactive)
      else Ok(user)
  }

  /** `logoutUser`: whether the user was found, and the table after it. */
  function LogoutOutcome(users: seq<User>, name: string): (out: (bool, seq<User>))
    ensures out.0 <==> HasUsername(users, name)
    ensures !out.0 ==> out.1 == users
    // Only the isActive flag of one user with that name changes.
    ensures out.0 ==>
      exists k :: 0 <= k < |users| && users[k].username == name &&
        out.1 == users[k := users[k].(isActive := false)]
    ensures UniqueUsernames(users) ==>
      |out.1| == |users| &&
      forall i :: 0 <= i < |users| ==>
        out.1[i] == if users[i].username == name then users[i].(isActive := false) else users[i]
    ensures Evolves(users, out.1)
    ensures Unique(users) ==> Unique(out.1)
  {
    match IndexOfUsername(users, name)
    case None => (false, users)
    case Some(k) => (true, users[k := users[k].(isActive := false)])
  }

  /** One call of `registerUser`, with the values the store assigns. */
  datatype Registration = Registration(request: RegistrationRequest, id: int, createdAt: Timestamp)

  /** The table after a sequence of `registerUser` calls, in order. */
  function RegisterAll(users: seq<User>, encoder: PasswordEncoder, regs: seq<Registration>): (after: seq<User>)
    decreases |regs|
  {
    if |regs| == 0 then users
    else
      var after := RegisterOutcome(users, encoder, regs[0].request, regs[0].id, regs[0].createdAt).1;
      RegisterAll(after, encoder, regs[1..])
  }

  /** The service, holding the repository's table and the password encoder. */
  class UserService {
    var users: seq<User>
    const encoder: PasswordEncoder

    ghost predicate Valid()
      reads this
    {
      Unique(users)
    }

    constructor (encoder: PasswordEncoder)
      ensures Valid()
      ensures users == [] && this.encoder == encoder
    {
      users := [];
      this.encoder := encoder;
    }

    /** `getAllUsers`: exactly the stored users, read without change. */
    function GetAllUsers(): (all: seq<User>)
      reads this
      ensures all == users
    {
      users
    }

    method RegisterUser(req: RegistrationRequest, id: int, createdAt: Timestamp) returns (r: Result<User, ServiceError>)
      requires Valid()
      modifies this
      ensures Valid()
      ensures (r, users) == RegisterOutcome(old(users), encoder, req, id, createdAt)
    {
      if ExistsByUsername(users, req.username) {
        return Err(UsernameInUse);
      }
      if ExistsByEmail(users, req.email) {
        return Err(EmailRegistered);
      }
      var user := User(id, req.username, req.email, encoder.encode(req.password), createdAt, InitialIsActive);
      users := users + [user];
      r := Ok(user);
    }

    method LogoutUser(name: string) returns (found: bool)
      requires Valid()
      modifies this
      ensures Valid()
      ensures (found, users) == LogoutOutcome(old(users), name)
    {
      var k := IndexOfUsername(users, name);
      if k.Some? {
        var user := users[k.value];
        users := users[k.value := user.(isActive := false)];
        return true;
      }
      return false;
    }
  }
}
