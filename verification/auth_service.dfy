/** `AuthService` of the sharing backend (src/main/java/com/cs447/
    securefiletransfer/backend/Service/AuthService.java): registration and
    login over the user repository. The password encoder, its matcher and the
    token issuer are parameters; `id` is the identity the repository
    assigns to a new row. */
module AuthService {
  import opened Wrappers
  import opened Backend

  /** `AuthResponse` (Payload/AuthResponse.java:12-15). */
  datatype AuthResponse = AuthResponse(token: string, tokenType: string)

  /** `register(request)` (AuthService.java:19-28): a taken e-mail is
      refused and nothing is saved; otherwise the user is saved with the
      encoded password under the fresh identity the repository assigns, so
      no two users share an id. */
  function Register(repos: Repos, email: string, password: string, encode: string -> string, id: int)
    : (r: Result<Repos, Error>)
    requires forall e :: e in repos.users ==> repos.users[e].id != id
    ensures r.Err? <==> email in repos.users
    ensures r.Err? ==> r.error == EmailExists
    ensures r.Ok? ==>
      && r.value.files == repos.files && r.value.shared == repos.shared
      && r.value.users.Keys == repos.users.Keys + {email}
      && r.value.users[email] == User(id, email, encode(password))
      && forall e :: e in repos.users ==> r.value.users[e] == repos.users[e]
    ensures r.Ok? && DistinctIds(repos.users) ==> DistinctIds(r.value.users)
  {
    if email in repos.users then Err(EmailExists)
    else Ok(repos.(users := repos.users[email := User(id, email, encode(password))]))
  }

  /** `login(request)` (AuthService.java:30-40): an unknown e-mail, then a
      password the matcher rejects, fail; otherwise a Bearer token is issued
      for the stored user. */
  function Login(repos: Repos, email: string, password: string, matches: (string, string) -> bool, issue: User -> string)
    : (r: Result<AuthResponse, Error>)
    ensures email !in repos.users ==> r == Err(UserNotFound)
    ensures email in repos.users && !matches(password, repos.users[email].password) ==> r == Err(InvalidCredentials)
    ensures r.Ok? <==> email in repos.users && matches(password, repos.users[email].password)
    ensures r.Ok? ==> r.value == AuthResponse(issue(repos.users[email]), "Bearer")
  {
    if email !in repos.users then Err(UserNotFound)
    else
      var user := repos.users[email];
      if !matches(password, user.password) then Err(InvalidCredentials)
      else Ok(AuthResponse(issue(user), "Bearer"))
  }

  /** After registering, logging in succeeds exactly for the passwords the
      matcher accepts against the encoded one, and a second registration of
      the same e-mail is refused. */
  lemma RegisterThenLogin(repos: Repos, email: string, password: string, attempt: string, encode: string -> string, id: int, id2: int,
                          matches: (string, string) -> bool, issue: User -> string)
    requires email !in repos.users
    requires forall e :: e in repos.users ==> repos.users[e].id != id && repos.users[e].id != id2
    requires id2 != id
    ensures Register(repos, email, password, encode, id).Ok?
    ensures var next := Register(repos, email, password, encode, id).value;
      && (Login(next, email, attempt, matches, issue).Ok? <==> matches(attempt, encode(password)))
      && Register(next, email, attempt, encode, id2) == Err(EmailExists)
  {
  }

  /** Registering one e-mail does not change how any other user logs in. */
  lemma RegisterKeepsOtherLogins(repos: Repos, email: string, password: string, encode: string -> string, id: int,
                                 other: string, attempt: string, matches: (string, string) -> bool, issue: User -> string)
    requires forall e :: e in repos.users ==> repos.users[e].id != id
    requires Register(repos, email, password, encode, id).Ok?
    requires other != email
    ensures Login(Register(repos, email, password, encode, id).value, other, attempt, matches, issue)
      == Login(repos, other, attempt, matches, issue)
  {
  }
}
