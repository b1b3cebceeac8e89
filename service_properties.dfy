/** Properties of the service that relate several calls or rely on the
    table's uniqueness invariant. */
module ServiceProperties {
  import opened Wrappers
  import opened Users
  import opened UserRepository
  import opened PasswordEncoding
  import opened Dtos
  import opened Service

  /** Error precedence of `authenticateUser` for a stored user: a wrong
      password is reported whatever `isActive` is, "inactive" only after the
      password matched, and success returns the stored record itself. */
  lemma AuthenticateOutcome(users: seq<User>, encoder: PasswordEncoder, k: nat, password: string)
    requires UniqueUsernames(users)
    requires k < |users|
    ensures AuthenticateUser(users, encoder, LoginRequest(users[k].username, password)) ==
      if !encoder.matches(password, users[k].password) then Err(InvalidCredentials)
      else if !users[k].isActive then Err(UserInactive)
      else Ok(users[k])
  {
  }

  /** Authentication succeeds exactly for a stored, password-matching,
      active user. */
  lemma AuthenticateSucceedsIff(users: seq<User>, encoder: PasswordEncoder, login: LoginRequest)
    requires UniqueUsernames(users)
    ensures AuthenticateUser(users, encoder, login).Ok? <==>
      exists k :: 0 <= k < |users| && users[k].username == login.username &&
        encoder.matches(login.password, users[k].password) && users[k].isActive
  {
  }

  /** Any sequence of registrations keeps usernames and emails unique. */
  lemma {:induction false} RegisterAllPreservesUniqueness(users: seq<User>, encoder: PasswordEncoder, regs: seq<Registration>)
    requires Unique(users)
    ensures Unique(RegisterAll(users, encoder, regs))
    decreases |regs|
  {
    if |regs| > 0 {
      var after := RegisterOutcome(users, encoder, regs[0].request, regs[0].id, regs[0].createdAt).1;
      RegisterAllPreservesUniqueness(after, encoder, regs[1..]);
    }
  }

  /** Registrations never remove, reorder or reactivate a stored user. */
  lemma {:induction false} RegisterAllEvolves(users: seq<User>, encoder: PasswordEncoder, regs: seq<Registration>)
    ensures Evolves(users, RegisterAll(users, encoder, regs))
    decreases |regs|
  {
    if |regs| > 0 {
      var after := RegisterOutcome(users, encoder, regs[0].request, regs[0].id, regs[0].createdAt).1;
      RegisterAllEvolves(after, encoder, regs[1..]);
      EvolvesTransitive(users, after, RegisterAll(after, encoder, regs[1..]));
    }
  }

  /** Registrations whose usernames and emails are new and pairwise distinct. */
  ghost predicate Fresh(users: seq<User>, regs: seq<Registration>) {
    && (forall j :: 0 <= j < |regs| ==>
          !HasUsername(users, regs[j].request.username) && !HasEmail(users, regs[j].request.email))
    && (forall i, j :: 0 <= i < j < |regs| ==>
          regs[i].request.username != regs[j].request.username &&
          regs[i].request.email != regs[j].request.email)
  }

  /** After N fresh registrations the table has N more users. */
  lemma {:induction false} RegisterAllFresh(users: seq<User>, encoder: PasswordEncoder, regs: seq<Registration>)
    requires Fresh(users, regs)
    ensures |RegisterAll(users, encoder, regs)| == |users| + |regs|
    decreases |regs|
  {
    if |regs| > 0 {
      var out := RegisterOutcome(users, encoder, regs[0].request, regs[0].id, regs[0].createdAt);
      assert out.1 == users + [out.0.value];
      forall j | 0 <= j < |regs[1..]|
        ensures !HasUsername(out.1, regs[1..][j].request.username)
        ensures !HasEmail(out.1, regs[1..][j].request.email)
      {
        assert regs[1..][j] == regs[j + 1];
      }
      assert Fresh(out.1, regs[1..]);
      RegisterAllFresh(out.1, encoder, regs[1..]);
    }
  }

  /** Logging the same user out twice has the effect of logging out once. */
  lemma LogoutIdempotent(users: seq<User>, name: string)
    ensures var once := LogoutOutcome(users, name);
      LogoutOutcome(once.1, name) == once
  {
    match IndexOfUsername(users, name)
    case None =>
    case Some(k) =>
      var after := users[k := users[k].(isActive := false)];
      IndexOfUsernameReadsNames(users, after, name);
      assert after[k := after[k].(isActive := false)] == after;
  }

  /** A user who has just registered can log in with the password given at
      registration, when the encoder accepts a password's own encoding. */
  lemma RegisterThenAuthenticate(users: seq<User>, encoder: PasswordEncoder, req: RegistrationRequest,
                                 id: int, createdAt: Timestamp)
    requires Unique(users)
    requires Consistent(encoder)
    requires RegisterOutcome(users, encoder, req, id, createdAt).0.Ok?
    ensures var out := RegisterOutcome(users, encoder, req, id, createdAt);
      AuthenticateUser(out.1, encoder, LoginRequest(req.username, req.password)) == Ok(out.0.value)
  {
    var out := RegisterOutcome(users, encoder, req, id, createdAt);
    assert out.1[|users|] == out.0.value;
    AuthenticateOutcome(out.1, encoder, |users|, req.password);
  }

  /** After logout a stored user can no longer log in: a matching password
      gets "inactive", any other password "invalid credentials". */
  lemma LogoutThenAuthenticate(users: seq<User>, encoder: PasswordEncoder, k: nat, password: string)
    requires UniqueUsernames(users)
    requires k < |users|
    ensures var after := LogoutOutcome(users, users[k].username).1;
      AuthenticateUser(after, encoder, LoginRequest(users[k].username, password)) ==
        if encoder.matches(password, users[k].password) then Err(UserInactive) else Err(InvalidCredentials)
  {
    var after := LogoutOutcome(users, users[k].username).1;
    assert after[k] == users[k].(isActive := false);
    AuthenticateOutcome(after, encoder, k, password);
  }

  /** The life of one account: register, a repeated username, a wrong
      password, a correct login, logout, and a login after logout. */
  lemma AccountScenario(encoder: PasswordEncoder, id1: int, id2: int, t1: Timestamp, t2: Timestamp)
    requires Consistent(encoder)
    requires !encoder.matches("wrong", encoder.encode("secret1"))
    ensures var first := RegisterOutcome([], encoder, RegistrationRequest("alice", "secret1", "alice@x.com"), id1, t1);
      && first.0.Ok? && first.0.value.username == "alice"
      && RegisterOutcome(first.1, encoder, RegistrationRequest("alice", "secret2", "other@x.com"), id2, t2).0 == Err(UsernameInUse)
      && AuthenticateUser(first.1, encoder, LoginRequest("alice", "wrong")) == Err(InvalidCredentials)
      && AuthenticateUser(first.1, encoder, LoginRequest("alice", "secret1")) == Ok(first.0.value)
      && LogoutOutcome(first.1, "alice").0
      && AuthenticateUser(LogoutOutcome(first.1, "alice").1, encoder, LoginRequest("alice", "secret1")) == Err(UserInactive)
  {
    var first := RegisterOutcome([], encoder, RegistrationRequest("alice", "secret1", "alice@x.com"), id1, t1);
    assert first.1 == [first.0.value];
    assert first.1[0].username == "alice";
    RegisterThenAuthenticate([], encoder, RegistrationRequest("alice", "secret1", "alice@x.com"), id1, t1);
    AuthenticateOutcome(first.1, encoder, 0, "wrong");
    LogoutThenAuthenticate(first.1, encoder, 0, "secret1");
  }
}
