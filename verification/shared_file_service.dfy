/** `SharedFileService` of the sharing backend (src/main/java/com/cs447/
    securefiletransfer/backend/Service/SharedFileService.java): share links
    are rows keyed by a fresh token with an expiry. The token is a
    parameter the caller guarantees fresh, and `now` is the clock. */
module SharedFileService {
  import opened Wrappers
  import opened Backend
  import Paths
  import FileService

  /** What `shareFile` checks: the caller exists, the file exists and the
      caller owns it. */
  predicate MayShare(repos: Repos, fileId: int, email: string) {
    email in repos.users && fileId in repos.files && repos.files[fileId].owner == repos.users[email].id
  }

  /** The repositories with one more share row. */
  function AddShare(repos: Repos, token: string, f: StoredFile, sharer: int, expiresAt: int): Repos {
    repos.(shared := repos.shared[token := SharedFile(token, f, sharer, Some(expiresAt))])
  }

  /** `shareFile(fileId, ownerEmail)` (SharedFileService.java:28-51): the
      caller, the file and the ownership are checked in that order; the new
      row expires one day from now and the token is returned. */
  function ShareFile(repos: Repos, fileId: int, email: string, token: string, now: int): (r: Result<(Repos, string), Error>)
    requires token !in repos.shared
    ensures email !in repos.users ==> r == Err(UserNotFound)
    ensures email in repos.users && fileId !in repos.files ==> r == Err(FileNotFound)
    ensures email in repos.users && fileId in repos.files && !MayShare(repos, fileId, email) ==> r == Err(Unauthorized)
    ensures r.Ok? <==> MayShare(repos, fileId, email)
    ensures r.Ok? ==>
      r.value.1 == token && r.value.0 == AddShare(repos, token, repos.files[fileId], repos.users[email].id, now + SecondsPerDay)
  {
    if email !in repos.users then Err(UserNotFound)
    else if fileId !in repos.files then Err(FileNotFound)
    else if repos.files[fileId].owner != repos.users[email].id then Err(Unauthorized)
    else Ok((AddShare(repos, token, repos.files[fileId], repos.users[email].id, now + SecondsPerDay), token))
  }

  /** `createTokenForFile(fileId, expiresInHours)` as written
      (SharedFileService.java:53-73): the authenticated user and the file
      are looked up, but nobody checks that the user owns the file. */
  function CreateTokenForFileAsWritten(repos: Repos, fileId: int, email: string, hours: int, token: string, now: int)
    : (r: Result<(Repos, string), Error>)
    requires token !in repos.shared
    ensures email !in repos.users ==> r == Err(UserNotFound)
    ensures email in repos.users && fileId !in repos.files ==> r == Err(FileNotFound)
    ensures r.Ok? <==> email in repos.users && fileId in repos.files
    ensures r.Ok? ==>
      r.value.1 == token && r.value.0 == AddShare(repos, token, repos.files[fileId], repos.users[email].id, now + hours * SecondsPerHour)
  {
    if email !in repos.users then Err(UserNotFound)
    else if fileId !in repos.files then Err(FileNotFound)
    else Ok((AddShare(repos, token, repos.files[fileId], repos.users[email].id, now + hours * SecondsPerHour), token))
  }

  /** Any registered user obtains a working link to a file somebody else
      owns, where `shareFile` refuses. */
  lemma NonOwnerGetsToken(repos: Repos, fileId: int, email: string, hours: int, token: string, now: int)
    requires token !in repos.shared
    requires email in repos.users && fileId in repos.files
    requires repos.files[fileId].owner != repos.users[email].id
    requires hours >= 0
    ensures CreateTokenForFileAsWritten(repos, fileId, email, hours, token, now).Ok?
    ensures GetSharedFile(CreateTokenForFileAsWritten(repos, fileId, email, hours, token, now).value.0, token, now)
      == Some(SharedFile(token, repos.files[fileId], repos.users[email].id, Some(now + hours * SecondsPerHour)))
    ensures ShareFile(repos, fileId, email, token, now) == Err(Unauthorized)
  {
  }

  /** `createTokenForFile` with the ownership check `shareFile` makes. */
  function CreateTokenForFile(repos: Repos, fileId: int, email: string, hours: int, token: string, now: int)
    : (r: Result<(Repos, string), Error>)
    requires token !in repos.shared
    ensures r.Ok? <==> MayShare(repos, fileId, email)
    ensures r.Ok? ==>
      r.value.1 == token && r.value.0 == AddShare(repos, token, repos.files[fileId], repos.users[email].id, now + hours * SecondsPerHour)
  {
    if email in repos.users && fileId in repos.files && repos.files[fileId].owner != repos.users[email].id then
      Err(Unauthorized)
    else CreateTokenForFileAsWritten(repos, fileId, email, hours, token, now)
  }

  /** With the check, a 24-hour token is exactly what `shareFile` makes, in
      success and in every error. */
  lemma CorrectedTokenMatchesShareFile(repos: Repos, fileId: int, email: string, token: string, now: int)
    requires token !in repos.shared
    ensures CreateTokenForFile(repos, fileId, email, 24, token, now) == ShareFile(repos, fileId, email, token, now)
  {
  }

  /** `isExpired` (SharedFileService.java:80-82): `isBefore` is strict and a
      missing expiry never expires. */
  predicate IsExpired(sf: SharedFile, now: int) {
    sf.expiresAt.Some? && sf.expiresAt.value < now
  }

  /** `getSharedFile(token)` (SharedFileService.java:75-78). */
  function GetSharedFile(repos: Repos, token: string, now: int): (r: Option<SharedFile>)
    ensures r.Some? <==> token in repos.shared && !IsExpired(repos.shared[token], now)
    ensures r.Some? ==> r.value == repos.shared[token]
    ensures token in repos.shared && repos.shared[token].expiresAt.None? ==> r.Some?
    ensures token in repos.shared && repos.shared[token].expiresAt.Some? ==>
      (r.Some? <==> now <= repos.shared[token].expiresAt.value)
  {
    if token in repos.shared && !IsExpired(repos.shared[token], now) then Some(repos.shared[token]) else None
  }

  /** A link made by `shareFile` opens up to and including one day after it
      was made, and not a second later. */
  lemma ShareLinkLivesOneDay(repos: Repos, fileId: int, email: string, token: string, now: int, t: int)
    requires token !in repos.shared
    requires MayShare(repos, fileId, email)
    ensures GetSharedFile(ShareFile(repos, fileId, email, token, now).value.0, token, t).Some? <==> t <= now + SecondsPerDay
  {
  }

  /** A row without an expiry is served by `getSharedFile` at every time,
      while the token branch of `getFileAsResource` throws on it. */
  lemma NullExpiryDisagreement(repos: Repos, root: Paths.Path, token: string, now: int, readable: set<Paths.Path>)
    requires token in repos.shared && repos.shared[token].expiresAt.None?
    ensures GetSharedFile(repos, token, now) == Some(repos.shared[token])
    ensures FileService.GetFileAsResource(repos, root, token, true, now, readable) == Err(NullExpiry)
  {
  }

  /** A negative hour count gives a link that is already expired. */
  lemma NegativeHoursExpireAtOnce(repos: Repos, fileId: int, email: string, hours: int, token: string, now: int)
    requires token !in repos.shared
    requires email in repos.users && fileId in repos.files
    requires hours < 0
    ensures GetSharedFile(CreateTokenForFileAsWritten(repos, fileId, email, hours, token, now).value.0, token, now) == None
  {
  }
}
