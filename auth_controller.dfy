/** `AuthController`: turns service outcomes into HTTP responses and keeps
    the caller's HTTP session. */
module Controller {
  import opened Wrappers
  import opened Users
  import opened Dtos
  import opened Service

  const StatusOk: int := 200
  const StatusBadRequest: int := 400
  const StatusUnauthorized: int := 401

  /** `ResponseEntity<ApiResponseDto>`. */
  datatype HttpResponse = HttpResponse(status: int, body: ApiResponse)

  /** An `HttpSession`, through the two attributes this code writes. */
  datatype Session = Session(username: Option<string>, userId: Option<int>)

  /** The caller's request; `session` is `None` when it carries no live
      session (`getSession(false)` returns `null`). */
  class HttpRequest {
    var session: Option<Session>

    constructor (session: Option<Session>)
      ensures this.session == session
    {
      this.session := session;
    }
  }

  /** The `username` attribute of the session, if there is a session. */
  function SessionUsername(session: Option<Session>): (name: Option<string>)
    ensures name.Some? <==> session.Some? && session.value.username.Some?
    ensures name.Some? ==> name == session.value.username
  {
    match session
    case None => None
    case Some(s) => s.username
  }

  /** The session after a successful login: the existing one, or a new one,
      with both attributes set to the user's. */
  function SignedIn(user: User): (s: Session)
    ensures s.username == Some(user.username) && s.userId == Some(user.id)
  {
    Session(Some(user.username), Some(user.id))
  }

  /** Response of `register` for the service's result. */
  function RegisterResponse(r: Result<User, ServiceError>): (resp: HttpResponse)
    ensures resp.body.success <==> r.Ok?
    ensures r.Ok? ==> resp == HttpResponse(StatusOk,
      SuccessWith("Usuario registrado exitosamente", Text(r.value.username)))
    ensures r.Err? ==> resp.status == StatusBadRequest && resp.body == Error(Message(r.error))
  {
    match r
    case Ok(user) => HttpResponse(StatusOk, SuccessWith("Usuario registrado exitosamente", Text(user.username)))
    case Err(e) => HttpResponse(StatusBadRequest, Error(Message(e)))
  }

  /** Response of `login` for the service's result. */
  function LoginResponse(r: Result<User, ServiceError>): (resp: HttpResponse)
    ensures resp.status == StatusOk <==> r.Ok?
    ensures resp.body.success <==> r.Ok?
    ensures r.Ok? ==> resp.body == SuccessWith("Login exitoso", Text(r.value.username))
    ensures r.Err? ==> resp.status == StatusUnauthorized && resp.body == Error(Message(r.error))
  {
    match r
    case Ok(user) => HttpResponse(StatusOk, SuccessWith("Login exitoso", Text(user.username)))
    case Err(e) => HttpResponse(StatusUnauthorized, Error(Message(e)))
  }

  /** Response of `logout` for the session the request carried. It does not
      depend on whether the service found the user. */
  function LogoutResponse(session: Option<Session>): (resp: HttpResponse)
    ensures SessionUsername(session).Some? ==> resp == HttpResponse(StatusOk, Success("Logout exitoso"))
    ensures SessionUsername(session).None? ==>
      resp == HttpResponse(StatusBadRequest, Error("No hay sesión activa"))
  {
    if SessionUsername(session).Some? then HttpResponse(StatusOk, Success("Logout exitoso"))
    else HttpResponse(StatusBadRequest, Error("No hay sesión activa"))
  }

  /** `getSessionStatus`: reads the session and changes nothing. */
  function GetSessionStatus(session: Option<Session>): (resp: HttpResponse)
    ensures resp.body.success <==> SessionUsername(session).Some?
    ensures SessionUsername(session).Some? ==>
      resp == HttpResponse(StatusOk, SuccessWith("Sesión activa", Text(SessionUsername(session).value)))
    ensures SessionUsername(session).None? ==>
      resp == HttpResponse(StatusUnauthorized, Error("No hay sesión activa"))
  {
    match SessionUsername(session)
    case Some(name) => HttpResponse(StatusOk, SuccessWith("Sesión activa", Text(name)))
    case None => HttpResponse(StatusUnauthorized, Error("No hay sesión activa"))
  }

  /** The response of `listUsers` for the users `getAllUsers` returned. */
  function ListUsersResponse(users: seq<User>): (resp: HttpResponse)
    ensures resp.status == StatusOk && resp.body.success
    ensures resp.body.data.UserList?
    ensures |resp.body.data.list| == |users|
    ensures forall i :: 0 <= i < |users| ==>
      var info := resp.body.data.list[i];
      info.id == users[i].id && info.username == users[i].username && info.email == users[i].email &&
      info.createdAt == users[i].createdAt && info.isActive == users[i].isActive
    ensures resp.body.message ==
      if |users| == 0 then "No hay usuarios registrados en el sistema" else "Usuarios obtenidos exitosamente"
  {
    var infos := seq(|users|, i requires 0 <= i < |users| => ToUserInfo(users[i]));
    if |infos| == 0 then HttpResponse(StatusOk, SuccessWith("No hay usuarios registrados en el sistema", UserList(infos)))
    else HttpResponse(StatusOk, SuccessWith("Usuarios obtenidos exitosamente", UserList(infos)))
  }

  class AuthController {
    const service: UserService

    constructor (service: UserService)
      ensures this.service == service
    {
      this.service := service;
    }

    /** `listUsers`: lists the service's stored table. */
    function ListUsers(): (resp: HttpResponse)
      reads this, service
      ensures resp.status == StatusOk && resp.body.success && resp.body.data.UserList?
      ensures |resp.body.data.list| == |service.users|
      ensures forall i :: 0 <= i < |service.users| ==> resp.body.data.list[i] == ToUserInfo(service.users[i])
      ensures resp.body.message ==
        if service.users == [] then "No hay usuarios registrados en el sistema" else "Usuarios obtenidos exitosamente"
    {
      ListUsersResponse(service.GetAllUsers())
    }

    /** `register`. */
    method Register(req: RegistrationRequest, id: int, createdAt: Timestamp) returns (resp: HttpResponse)
      requires service.Valid()
      modifies service
      ensures service.Valid()
      ensures var out := RegisterOutcome(old(service.users), service.encoder, req, id, createdAt);
        service.users == out.1 && resp == RegisterResponse(out.0)
    {
      var r := service.RegisterUser(req, id, createdAt);
      resp := RegisterResponse(r);
    }

    /** `login`: the session is touched only after authentication succeeded. */
    method Login(login: LoginRequest, request: HttpRequest) returns (resp: HttpResponse)
      modifies request
      ensures var r := AuthenticateUser(service.users, service.encoder, login);
        && resp == LoginResponse(r)
        && request.session == if r.Ok? then Some(SignedIn(r.value)) else old(request.session)
    {
      var r := AuthenticateUser(service.users, service.encoder, login);
      match r {
        case Ok(user) =>
          request.session := Some(SignedIn(user));
        case Err(_) =>
      }
      resp := LoginResponse(r);
    }

    /** `logout`: invalidates any session; logs the user out only when the
        session names one. */
    method Logout(request: HttpRequest) returns (resp: HttpResponse)
      requires service.Valid()
      modifies request, service
      ensures service.Valid()
      ensures request.session.None?
      ensures resp == LogoutResponse(old(request.session))
      ensures var name := SessionUsername(old(request.session));
        service.users == if name.Some? then LogoutOutcome(old(service.users), name.value).1 else old(service.users)
    {
      var session := request.session;
      if session.Some? {
        var name := session.value.username;
        request.session := None;
        if name.Some? {
          var found := service.LogoutUser(name.value);
          return HttpResponse(StatusOk, Success("Logout exitoso"));
        }
      }
      resp := HttpResponse(StatusBadRequest, Error("No hay sesión activa"));
    }
  }
}
