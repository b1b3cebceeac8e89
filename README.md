# User authentication service: a Dafny model

This project models the core of a small user-authentication backend. The
backend registers users, checks credentials, keeps a logical logged-in flag
per user, and lists registered users. It has two parts.

- **`UserService`** works on a table of users and an opaque password encoder.
  - It registers a user after checking that the username is free, then that
    the email is free.
  - It authenticates in three steps: lookup, then password match, then the
    active flag.
  - It logs a user out by setting `isActive` to false.
  - It returns the stored users.
- **`AuthController`** maps each service outcome to an HTTP status and an
  `ApiResponseDto`. It also keeps the caller's HTTP session, with the
  `username` and `userId` attributes.

Modules, one per part of the program:

- `Wrappers`: `Option`, `Result`.
- `Users`: the `User` entity and the table invariants (unique usernames and
  emails; `Evolves`: in the model, records are never removed, moved or
  altered, and `isActive` only goes from true to false).
- `UserRepository`: the repository queries, as recursive functions over a
  `seq<User>`. The sequence keeps rows in insertion order, and the model
  takes that as the order `findAll` returns (see "## Left out").
- `PasswordEncoding`: the encoder as a pair of function values with no known
  definition. `Consistent` (a password matches its own encoding) is a
  hypothesis of the lemmas that need it, and is never assumed globally.
- `Dtos`: request DTOs, `UserInfoDto` (it has no password field), and
  `ApiResponseDto` with its `success`/`error` factories.
- `Service`:
  - the error messages;
  - the specification functions `RegisterOutcome`, `AuthenticateUser` and
    `LogoutOutcome`;
  - `RegisterAll`, which runs a sequence of registrations;
  - the class `UserService`. Its field `users` is the table. Its methods
    `RegisterUser` and `LogoutUser` change the table and are proved against
    the specification functions.
- `ServiceProperties`: lemmas that span several calls, or that rely on the
  uniqueness invariant.
- `Controller`:
  - the HTTP response and session types, and the class `HttpRequest`, which
    holds the session;
  - pure response mappings for `register`, `login`, `logout`,
    `getSessionStatus` and `listUsers`;
  - the class `AuthController`. Its methods `Register`, `Login` and `Logout`
    change the service table and the session; its function `ListUsers`
    lists the service's stored table.
- `ControllerProperties`: end-to-end lemmas, and `AccountFlow`, an example
  scenario rather than a model of a source member. It runs one account
  through register, login, logout and a second login, using only the method
  contracts.

The service's read operations (`authenticateUser`, `findByUsername`) are
functions that take the table and the encoder as parameters. `getAllUsers`
is `UserService.GetAllUsers`, which returns the table; the controller's
`ListUsers` lists it.

Where the repository's own tests expect something other than what the code
does, the model follows the code:

- `login` answers 401 for an unknown user; AuthControllerTest.java:154
  expects 404.
- A duplicate username or email at `register` gives 400;
  AuthControllerTest.java:76 expects 409.
- `logoutUser` returns `false` for an unknown name;
  UserServiceTest.java:188-190 expects it to throw.
- The controller answers 200 after logout whatever `logoutUser` returned.

## Model

| member | source | states |
|---|---|---|
| `UserRepository.ExistsByUsername` | src/main/java/com/tuempresa/userauthservice/repository/UserRepository.java:34 | true exactly when some stored user has that username |
| `UserRepository.ExistsByEmail` | src/main/java/com/tuempresa/userauthservice/repository/UserRepository.java:41 | true exactly when some stored user has that email |
| `UserRepository.IndexOfUsername` | src/main/java/com/tuempresa/userauthservice/repository/UserRepository.java:20 | the position of the first user with that username; none exactly when no stored user has it |
| `UserRepository.FindByUsername` | src/main/java/com/tuempresa/userauthservice/service/UserService.java:83-85 | empty exactly when the username is not stored; otherwise a stored user with that username, and the only one when usernames are unique |
| `Service.MessagesDistinct` | src/main/java/com/tuempresa/userauthservice/service/UserService.java:35-72 | the five exception messages of the service are pairwise distinct, so the controller's verbatim copy tells the errors apart |
| `Service.UserService.GetAllUsers` | src/main/java/com/tuempresa/userauthservice/service/UserService.java:91-93 | returns exactly the stored users, and reads the table without changing it |
| `Service.RegisterOutcome` | src/main/java/com/tuempresa/userauthservice/service/UserService.java:32-50 | a taken username gives "El nombre de usuario ya está en uso" whatever the email, and the table is unchanged; a free username with a taken email gives "El email ya está registrado", table unchanged; otherwise exactly one user is appended, with the input username and email, password `encode(input)`, the initial active flag and the store's id and timestamp, and that user is returned; existing users are untouched; uniqueness is preserved |
| `Service.AuthenticateUser` | src/main/java/com/tuempresa/userauthservice/service/UserService.java:58-76 | "Usuario no encontrado" exactly when the username is not stored; success only for a stored user with that username, a matching password and `isActive`; "Credenciales inválidas" only when such a user's password does not match; "Usuario inactivo" only when it matches and the user is inactive |
| `Service.LogoutOutcome` | src/main/java/com/tuempresa/userauthservice/service/UserService.java:100-111 | reports true exactly when the username is stored; if not, the table is unchanged; if so, only the `isActive` of that one user is set to false and nothing else changes; uniqueness is preserved |
| `Service.UserService.RegisterUser` | src/main/java/com/tuempresa/userauthservice/service/UserService.java:32-50 | returns the result and leaves the table that `RegisterOutcome` describes; keeps the uniqueness invariant |
| `Service.UserService.LogoutUser` | src/main/java/com/tuempresa/userauthservice/service/UserService.java:100-111 | returns the flag and leaves the table that `LogoutOutcome` describes; keeps the uniqueness invariant |
| `ServiceProperties.AuthenticateOutcome` | src/main/java/com/tuempresa/userauthservice/service/UserService.java:65-75 | for a stored user with unique usernames: a wrong password gives "Credenciales inválidas" whatever `isActive` is; a right password on an inactive user gives "Usuario inactivo"; otherwise the stored record itself is returned |
| `ServiceProperties.AuthenticateSucceedsIff` | src/main/java/com/tuempresa/userauthservice/service/UserService.java:58-76 | authentication succeeds if and only if a stored user has the username, a matching password and is active |
| `ServiceProperties.RegisterAllPreservesUniqueness` | src/main/java/com/tuempresa/userauthservice/service/UserService.java:34-49 | any sequence of registrations keeps usernames and emails unique |
| `ServiceProperties.RegisterAllEvolves` | src/main/java/com/tuempresa/userauthservice/service/UserService.java:43-49 | any sequence of registrations never removes, moves (in the model's row order), alters or reactivates a stored user |
| `ServiceProperties.RegisterAllFresh` | src/main/java/com/tuempresa/userauthservice/service/UserService.java:43-49 | N registrations with new, pairwise distinct usernames and emails add exactly N users |
| `ServiceProperties.LogoutIdempotent` | src/main/java/com/tuempresa/userauthservice/service/UserService.java:100-111 | logging out twice gives the same flag and table as logging out once |
| `ServiceProperties.RegisterThenAuthenticate` | src/main/java/com/tuempresa/userauthservice/service/UserService.java:44-75 | with an encoder that matches a password's own encoding, a user who has just registered authenticates with the registration password and gets the record that was saved |
| `ServiceProperties.LogoutThenAuthenticate` | src/main/java/com/tuempresa/userauthservice/service/UserService.java:71-73 | after logout a stored user gets "Usuario inactivo" with the right password and "Credenciales inválidas" with any other; never success |
| `ServiceProperties.AccountScenario` | src/main/java/com/tuempresa/userauthservice/service/UserService.java:32-111 | register alice, a repeated username is refused, a wrong password is refused, the right one succeeds, logout finds her, and then login reports her inactive |
| `Dtos.Success` | src/main/java/com/tuempresa/userauthservice/dto/ApiResponseDto.java:34-36 | a successful response with the given message and no data |
| `Dtos.SuccessWith` | src/main/java/com/tuempresa/userauthservice/dto/ApiResponseDto.java:38-40 | a successful response with the given message and data |
| `Dtos.Error` | src/main/java/com/tuempresa/userauthservice/dto/ApiResponseDto.java:42-44 | a failed response with the given message and no data |
| `Dtos.ToUserInfo` | src/main/java/com/tuempresa/userauthservice/controller/AuthController.java:284-290 | the public record carries the user's id, username, email, createdAt and isActive; the type has no password field |
| `Controller.SessionUsername` | src/main/java/com/tuempresa/userauthservice/controller/AuthController.java:184 | the session's `username` attribute when there is a session carrying one, and none otherwise |
| `Controller.SignedIn` | src/main/java/com/tuempresa/userauthservice/controller/AuthController.java:132-134 | the session after login holds the user's username and id |
| `Controller.RegisterResponse` | src/main/java/com/tuempresa/userauthservice/controller/AuthController.java:77-86 | success gives 200, success=true, "Usuario registrado exitosamente" and the username as data; any service error gives 400, success=false and the service message verbatim |
| `Controller.LoginResponse` | src/main/java/com/tuempresa/userauthservice/controller/AuthController.java:128-143 | status 200 if and only if authentication succeeded, with "Login exitoso" and the username as data; any failure gives 401, success=false and the service message verbatim |
| `Controller.LogoutResponse` | src/main/java/com/tuempresa/userauthservice/controller/AuthController.java:181-200 | 200 "Logout exitoso" when the session carries a username; 400 "No hay sesión activa" when there is no session or no username; it depends on the session only |
| `Controller.GetSessionStatus` | src/main/java/com/tuempresa/userauthservice/controller/AuthController.java:237-250 | 200 "Sesión activa" with the session's username when it has one; otherwise 401 "No hay sesión activa" |
| `Controller.ListUsersResponse` | src/main/java/com/tuempresa/userauthservice/controller/AuthController.java:283-301 | always 200 and success=true; one public record per stored user, in the same order, carrying exactly id, username, email, createdAt and isActive; "No hay usuarios registrados en el sistema" exactly when the list is empty, "Usuarios obtenidos exitosamente" otherwise |
| `Controller.AuthController.ListUsers` | src/main/java/com/tuempresa/userauthservice/controller/AuthController.java:281-302 | lists the service's stored table: always 200 and success=true, one `ToUserInfo` record per stored user in the table's order, and the message chosen by whether the table is empty |
| `Controller.AuthController.Register` | src/main/java/com/tuempresa/userauthservice/controller/AuthController.java:74-87 | the table after the call is that of `RegisterOutcome`, and the response is the mapping of its result |
| `Controller.AuthController.Login` | src/main/java/com/tuempresa/userauthservice/controller/AuthController.java:124-144 | the table is not modified; on success the session holds the user's username and id; on failure the session is left as it was; the response is the mapping of the authentication result |
| `Controller.AuthController.Logout` | src/main/java/com/tuempresa/userauthservice/controller/AuthController.java:180-201 | no session remains afterwards, even one without a username; the service logs out the session's username when there is one, and otherwise the table is unchanged; the response depends only on the session it had |
| `ControllerProperties.LoginSucceedsIff` | src/main/java/com/tuempresa/userauthservice/controller/AuthController.java:128-143 | login answers 200 if and only if a stored user has the username, a matching password and is active |
| `ControllerProperties.RegisterLoginStatus` | src/main/java/com/tuempresa/userauthservice/controller/AuthController.java:128-138 | after a fresh registration (200 with the username), login with the same password answers 200 with the username, and the resulting session reports "Sesión activa" with that username |
| `ControllerProperties.RegisterResponseIgnoresPassword` | src/main/java/com/tuempresa/userauthservice/controller/AuthController.java:79-81 | the response of `register` is the same whatever password is given |
| `ControllerProperties.ListUsersIgnoresPasswords` | src/main/java/com/tuempresa/userauthservice/controller/AuthController.java:283-291 | two tables that differ only in stored passwords are listed identically, so no password is exposed |

## Left out

- Spring wiring, dependency injection and the OpenAPI annotations: framework configuration with no behaviour. The application class and the OpenAPI configuration are not part of this model.
- The security filter chain (CSRF, `maximumSessions(1)`): framework configuration.
- BCrypt: a foreign library. It is modelled only as the opaque pair `encode`/`matches`. So the claim that a stored hash never equals the plaintext cannot be stated.
- Bean Validation of the request DTOs (not-blank fields, the length bounds 3–50 and 6–100, `@Email`): the framework enforces it before the controller runs. Its 400 answer does not come from this code.
- JPA internals: how ids are generated, what `createdAt` is set to, transactions and database unique constraints. A new user's `id` and `createdAt` are parameters of `RegisterUser`. Nothing is claimed about ids being unique.
- The concurrent check-then-act race between the existence checks and `save`: a concurrency concern. The model runs calls one after another.
- Store failures other than the service's own exceptions (for example, lost connectivity): they come from the persistence layer, not from the service.
- `findByEmail` of the repository: nothing in the core calls it.
- `Users.InitialIsActive`: the entity class is not modelled; its `isActive` default is taken to be `true`.
- Row order: the table keeps rows in insertion order, new rows last, and logout leaves a row in place. `findAll` without a sort does not guarantee any order, so "in the same order" and "never moved" describe the model, not the database.
- Password salting: `encode` is a deterministic function in the model. BCrypt salts every call, so two encodings of one password differ in the application; the salt is not modelled, and only `matches` is meant to be relied on.
- `UserRepository.FindByUsername`: when usernames are duplicated, a real query fails; the model returns the first match instead. The uniqueness invariant rules this case out.
- HTTP session lifecycle and cookies: a session is only its two attributes.
  - `getSession(true)` may reuse a session or create one; with only those two attributes the difference cannot be observed.
  - Other attributes, session ids and session-fixation handling are not modelled.
- Tests that contradict the code are not modelled. They expect "Registro exitoso", 409 and 404 statuses, and a token-based logout that the code does not implement.
