/** The state of the file-sharing service: its three JPA repositories as
    maps, and the errors its services throw. Time is `LocalDateTime` counted
    in whole seconds; `plusDays` and `plusHours` add exact multiples of a
    day and an hour, which holds for `LocalDateTime` (it has no zone). */
module Backend {
  import opened Wrappers

  const SecondsPerHour: int := 3600
  const SecondsPerDay: int := 86400

  /** A `User` row: the e-mail column is unique, so the repository is keyed
      by it; `password` holds what the encoder produced. */
  datatype User = User(id: int, email: string, password: string)

  /** A `File` row: the uploader's name, the name on disk (`filePath`),
      the size and the owner's id. */
  datatype StoredFile = StoredFile(id: int, name: string, contentType: string, filePath: string, size: int, owner: int)

  /** A `SharedFile` row, found by its token. A missing expiry is `null`. */
  datatype SharedFile = SharedFile(token: string, file: StoredFile, sharedBy: int, expiresAt: Option<int>)

  /** No two users share an identity: the id column is the primary key. */
  predicate DistinctIds(users: map<string, User>) {
    forall e1, e2 :: e1 in users && e2 in users && e1 != e2 ==> users[e1].id != users[e2].id
  }

  datatype Repos = Repos(users: map<string, User>, files: map<int, StoredFile>, shared: map<string, SharedFile>)

  /** The exceptions the services throw, by message. */
  datatype Error =
    | UserNotFound          // "User not found"
    | MissingFilename       // "Original filename is missing"
    | StoreFailed           // "Failed to store file"
    | InvalidPath           // "Invalid file path: ..."
    | IllegalPathChar       // InvalidPathException: a NUL in a path string
    | FileNotFound          // "File not found"
    | Unauthorized          // "Unauthorized" / "Unauthorized file deletion"
    | DeleteFailed          // "Failed to delete file"
    | FileStillShared       // DataIntegrityViolationException: a share row references the file
    | InvalidToken          // "Invalid token"
    | TokenExpired          // "Token has expired"
    | NullExpiry            // NullPointerException on a null expiry
    | NotReadable           // "File not found or unreadable"
    | InvalidOrExpiredToken // "Invalid or expired token"
    | MissingParameter      // NullPointerException on an absent request field
    | MalformedNumber       // NumberFormatException
    | EmailExists           // "Email already exists"
    | InvalidCredentials    // "Invalid credentials"
}
