/** Properties of the HTTP boundary that span the service and the session. */
module ControllerProperties {
  import opened Wrappers
  import opened Users
  import opened PasswordEncoding
  import opened Dtos
  import opened Service
  import opened ServiceProperties
  import opened Controller

  /** `login` answers 200 exactly for a stored, password-matching, active user. */
  lemma LoginSucceedsIff(users: seq<User>, encoder: PasswordEncoder, login: LoginRequest)
    requires UniqueUsernames(users)
    ensures LoginResponse(AuthenticateUser(users, encoder, login)).status == StatusOk <==>
      exists k :: 0 <= k < |users| && users[k].username == login.username &&
        encoder.matches(login.password, users[k].password) && users[k].isActive
  {
  }

  /** A fresh registration answers 200 with the username, the same user can
      then log in, and the session it gets reports that username. */
  lemma RegisterLoginStatus(users: seq<User>, encoder: PasswordEncoder, req: RegistrationRequest,
                            id: int, createdAt: Timestamp)
    requires Unique(users) && Consistent(encoder)
    requires !HasUsername(users, req.username) && !HasEmail(users, req.email)
    ensures var out := RegisterOutcome(users, encoder, req, id, createdAt);
      var r := AuthenticateUser(out.1, encoder, LoginRequest(req.username, req.password));
      && RegisterResponse(out.0) == HttpResponse(StatusOk, SuccessWith("Usuario registrado exitosamente", Text(req.username)))
      && LoginResponse(r) == HttpResponse(StatusOk, SuccessWith("Login exitoso", Text(req.username)))
      && r.Ok? && SignedIn(r.value) == Session(Some(req.username), Some(id))
      && GetSessionStatus(Some(SignedIn(r.value))) ==
           HttpResponse(StatusOk, SuccessWith("Sesión activa", Text(req.username)))
  {
    RegisterThenAuthenticate(users, encoder, req, id, createdAt);
  }

  /** The response of `register` carries nothing derived from the password. */
  lemma RegisterResponseIgnoresPassword(users: seq<User>, encoder: PasswordEncoder, req: RegistrationRequest,
                                        other: string, id: int, createdAt: Timestamp)
    ensures RegisterResponse(RegisterOutcome(users, encoder, req, id, createdAt).0) ==
      RegisterResponse(RegisterOutcome(users, encoder, req.(password := other), id, createdAt).0)
  {
  }

  /** Tables that differ only in stored passwords are listed identically:
      `listUsers` never exposes a password. */
  lemma ListUsersIgnoresPasswords(a: seq<User>, b: seq<User>)
    requires |a| == |b|
    requires forall i :: 0 <= i < |a| ==> a[i].(password := b[i].password) == b[i]
    ensures ListUsersResponse(a) == ListUsersResponse(b)
  {
    assert ListUsersResponse(a).body.data.list == ListUsersResponse(b).body.data.list;
  }

  /** An example scenario, not a model of any one source member: the whole
      HTTP flow of one account through the controller, relying on the
      methods' contracts only. */
  method AccountFlow(encoder: PasswordEncoder)
    requires Consistent(encoder)
    requires !encoder.matches("wrong", encoder.encode("secret1"))
  {
    var service := new UserService(encoder);
    var controller := new AuthController(service);
    var request := new HttpRequest(None);
    var alice := RegistrationRequest("alice", "secret1", "alice@x.com");

    var resp := controller.Register(alice, 1, 0);
    assert resp.status == StatusOk && resp.body.data == Text("alice");
    assert service.users[0].username == "alice";

    resp := controller.Register(RegistrationRequest("alice", "secret2", "other@x.com"), 2, 0);
    assert resp == HttpResponse(StatusBadRequest, Error("El nombre de usuario ya está en uso"));

    resp := controller.Login(LoginRequest("alice", "wrong"), request);
    AuthenticateOutcome(service.users, encoder, 0, "wrong");
    assert resp == HttpResponse(StatusUnauthorized, Error("Credenciales inválidas"));
    assert request.session == None;

    resp := controller.Login(LoginRequest("alice", "secret1"), request);
    AuthenticateOutcome(service.users, encoder, 0, "secret1");
    assert resp.status == StatusOk;
    assert GetSessionStatus(request.session) == HttpResponse(StatusOk, SuccessWith("Sesión activa", Text("alice")));

    ghost var before := service.users;
    resp := controller.Logout(request);
    assert resp == HttpResponse(StatusOk, Success("Logout exitoso"));
    assert GetSessionStatus(request.session).status == StatusUnauthorized;
    ghost var loggedOut := service.users;
    assert loggedOut == LogoutOutcome(before, "alice").1;

    resp := controller.Logout(request);
    assert resp == HttpResponse(StatusBadRequest, Error("No hay sesión activa"));

    assert service.users == loggedOut;
    LogoutThenAuthenticate(before, encoder, 0, "secret1");
    resp := controller.Login(LoginRequest("alice", "secret1"), request);
    assert resp == HttpResponse(StatusUnauthorized, Error("Usuario inactivo"));
  }
}
