/** `FileService` of the sharing backend (src/main/java/com/cs447/
    securefiletransfer/backend/Service/FileService.java): storing uploads
    under fresh names, resolving names inside the storage root, deleting
    and serving files. The UUID, the repository's identity column and the
    file system's answers are parameters. */
module FileService {
  import opened Wrappers
  import opened JavaText
  import opened Backend
  import Paths
  import FileUtils

  /** `init()`: the configured directory, normalized. */
  function Init(uploadDir: string): (root: Paths.Path)
    ensures Paths.IsNormal(root)
  {
    Paths.Normalize(Paths.Parse(uploadDir))
  }

  // ---------------------------------------------------------------------
  // store
  // ---------------------------------------------------------------------

  /** The extension `store` keeps: from the last '.' on, the dot included, or
      "" when there is no dot. The case is kept. */
  function Extension(name: string): (ext: string)
    ensures ext == "" <==> '.' !in name
    ensures ext != "" ==> ext[0] == '.' && '.' !in ext[1..]
    ensures |ext| <= |name| && name[|name| - |ext|..] == ext
  {
    var i := LastIndexOf(name, '.');
    if i == -1 then "" else name[i..]
  }

  /** `store`'s extension and `FileUtils.getFileExtension` disagree: where the
      latter finds an extension the former is the same text with its dot and
      original case, but a leading dot makes the whole name the extension, and
      a trailing dot gives ".", where `getFileExtension` gives "". */
  lemma ExtensionVersusFileUtils(name: string)
    ensures FileUtils.GetFileExtension(name) != "" ==>
      |Extension(name)| >= 2 && FileUtils.GetFileExtension(name) == ToLowerAscii(Extension(name)[1..])
    ensures '.' in name && FileUtils.GetFileExtension(name) == "" ==>
      Extension(name) == "." || Extension(name) == name
  {
    var i := LastIndexOf(name, '.');
    if i >= 0 {
      assert Extension(name) == name[i..];
      assert name[i..][1..] == name[i + 1..];
    }
  }

  /** The upload as the multipart request presents it; a missing original
      name is `null`. */
  datatype Upload = Upload(originalName: Option<string>, contentType: string, size: int)

  /** Where `Files.copy` writes a stored name. */
  function Destination(root: Paths.Path, storedName: string): Paths.Path {
    Paths.Normalize(Paths.Resolve(root, Paths.Parse(storedName)))
  }

  /** `store(file, email)` (FileService.java:53-83): the owner is looked up
      first, then the name is checked; the stored name is the UUID followed
      by the extension, and `resolve` refuses it when the extension holds a
      NUL; the row keeps the original name, the stored name, the size and
      the owner. `copyOk` is whether `Files.copy` succeeds;
      `id` is the identity the repository assigns. The result holds the new
      repositories, the saved row and where the bytes were written. */
  function Store(repos: Repos, root: Paths.Path, upload: Upload, email: string, uuid: string, id: int, copyOk: bool)
    : (r: Result<(Repos, StoredFile, Paths.Path), Error>)
    requires id !in repos.files
    ensures email !in repos.users ==> r == Err(UserNotFound)
    ensures email in repos.users && upload.originalName.None? ==> r == Err(MissingFilename)
    ensures email in repos.users && upload.originalName.Some? ==>
      (r == Err(IllegalPathChar) <==> !Paths.Valid(uuid + Extension(upload.originalName.value)))
    ensures email in repos.users && upload.originalName.Some? && Paths.Valid(uuid + Extension(upload.originalName.value)) && !copyOk ==>
      r == Err(StoreFailed)
    ensures r.Ok? <==>
      email in repos.users && upload.originalName.Some? && Paths.Valid(uuid + Extension(upload.originalName.value)) && copyOk
    ensures r.Ok? ==>
      var (next, f, dest) := r.value;
      && f.id == id && f.name == upload.originalName.value && f.size == upload.size
      && f.owner == repos.users[email].id
      && f.filePath == uuid + Extension(upload.originalName.value)
      && dest == Destination(root, f.filePath)
      && next == repos.(files := repos.files[id := f])
  {
    if email !in repos.users then Err(UserNotFound)
    else if upload.originalName.None? then Err(MissingFilename)
    else
      var name := upload.originalName.value;
      var stored := uuid + Extension(name);
      if !Paths.Valid(stored) then Err(IllegalPathChar)
      else if !copyOk then Err(StoreFailed)
      else
        var f := StoredFile(id, name, upload.contentType, stored, upload.size, repos.users[email].id);
        Ok((repos.(files := repos.files[id := f]), f, Destination(root, stored)))
  }

  /** A UUID as `randomUUID().toString()` prints it: hex digits and dashes,
      so no '.', no '/' and no NUL. */
  predicate UuidText(uuid: string) {
    uuid != "" && '.' !in uuid && '/' !in uuid && '\0' !in uuid
  }

  /** Every '/'-field of a stored name is an ordinary name element. */
  lemma StoredNameFieldsPlain(uuid: string, original: string)
    requires UuidText(uuid)
    ensures forall k :: 0 <= k < |SplitAll(uuid + Extension(original), '/')| ==>
      Paths.Plain(SplitAll(uuid + Extension(original), '/')[k])
  {
    var ext := Extension(original);
    if ext == "" {
      assert uuid + ext == uuid;
      SplitAllNoDelimiter(uuid, '/');
      assert uuid[0] in uuid;
    } else {
      assert uuid + ext == (uuid + ".") + ext[1..] by {
        assert ext == "." + ext[1..];
      }
      DottedFieldsPlain(uuid, ext[1..]);
    }
  }

  lemma DottedFieldsPlain(uuid: string, t: string)
    requires UuidText(uuid) && '.' !in t
    ensures forall k :: 0 <= k < |SplitAll((uuid + ".") + t, '/')| ==>
      Paths.Plain(SplitAll((uuid + ".") + t, '/')[k])
  {
    var p := uuid + ".";
    assert '/' !in p;
    SplitAllPrefix(p, t, '/');
    SplitAllFieldsAvoid(t, '.', '/');
    var fs := SplitAll(p + t, '/');
    var ts := SplitAll(t, '/');
    assert fs[0] == p + ts[0];
    assert fs[0][0] == uuid[0] && uuid[0] in uuid;
    forall k | 1 <= k < |fs|
      ensures Paths.Plain(fs[k])
    {
      assert fs[k] == ts[k];
      assert '.' !in fs[k];
    }
  }

  /** The stored name cannot leave the storage root, although `store` does
      not check: the extension follows the last dot, so it holds no ".."
      element, and the UUID makes the first element an ordinary name. The
      bytes land at the root followed by the name's elements. */
  lemma StoredNameStaysUnderRoot(root: Paths.Path, uuid: string, original: string)
    requires Paths.IsNormal(root)
    requires UuidText(uuid)
    ensures var stored := Paths.Parse(uuid + Extension(original));
      Destination(root, uuid + Extension(original)) == Paths.Path(root.absolute, root.segments + stored.segments)
    ensures Paths.StartsWith(Destination(root, uuid + Extension(original)), root)
  {
    var name := uuid + Extension(original);
    StoredNameFieldsPlain(uuid, original);
    var fields := SplitAll(name, '/');
    var p := Paths.Parse(name);
    assert !p.absolute by {
      assert name[0] == uuid[0];
      assert uuid[0] in uuid;
    }
    forall i | 0 <= i < |p.segments|
      ensures Paths.Plain(p.segments[i])
    {
      assert p.segments[i] in fields;
    }
    Paths.ResolvePlainStaysUnder(root, p);
  }

  // ---------------------------------------------------------------------
  // load
  // ---------------------------------------------------------------------

  /** `load(filename)` (FileService.java:85-91): the name resolved against the
      root and normalized, refused unless the result starts with the root.
      A name holding NUL makes `resolve` throw before the check. */
  function Load(root: Paths.Path, filename: string): (r: Result<Paths.Path, Error>)
    ensures r.Ok? ==> Paths.StartsWith(r.value, root) && Paths.IsNormal(r.value)
    ensures r.Err? ==> r.error == InvalidPath || r.error == IllegalPathChar
    ensures r == Err(IllegalPathChar) <==> !Paths.Valid(filename)
  {
    if !Paths.Valid(filename) then Err(IllegalPathChar)
    else
      var p := Paths.Normalize(Paths.Resolve(root, Paths.Parse(filename)));
      if Paths.StartsWith(p, root) then Ok(p) else Err(InvalidPath)
  }

  /** A relative name made of ordinary elements is accepted and lands at the
      root followed by those elements. */
  lemma LoadAcceptsPlainNames(root: Paths.Path, filename: string)
    requires Paths.IsNormal(root)
    requires Paths.Valid(filename) && !Paths.Parse(filename).absolute
    requires forall i :: 0 <= i < |Paths.Parse(filename).segments| ==> Paths.Plain(Paths.Parse(filename).segments[i])
    ensures Load(root, filename) == Ok(Paths.Path(root.absolute, root.segments + Paths.Parse(filename).segments))
  {
    Paths.ResolvePlainStaysUnder(root, Paths.Parse(filename));
  }

  /** Under an absolute root, whatever `load` accepts is the root followed by
      ordinary elements only: no ".." walks back out. */
  lemma LoadConfinesUnderAbsoluteRoot(root: Paths.Path, filename: string)
    requires root.absolute
    ensures Load(root, filename).Ok? ==>
      var p := Load(root, filename).value;
      |root.segments| <= |p.segments| && p.segments[..|root.segments|] == root.segments
      && forall i :: |root.segments| <= i < |p.segments| ==> Paths.Plain(p.segments[i])
  {
  }

  /** "../other" under the one-element root "/dir" normalizes to "/other". */
  lemma ClimbOut(dir: string, other: string)
    requires dir != "" && other != "" && Paths.Plain(dir) && Paths.Plain(other)
    requires '/' !in dir && '/' !in other
    ensures Destination(Paths.Path(true, [dir]), "../" + other) == Paths.Path(true, [other])
  {
    ParseClimb(other);
    FoldClimb(dir, other);
    assert [dir] + ["..", other] == [dir, "..", other];
  }

  lemma ParseClimb(other: string)
    requires other != "" && '/' !in other
    ensures Paths.Parse("../" + other) == Paths.Path(false, ["..", other])
  {
    var s := "../" + other;
    assert s == ".." + ['/'] + other;
    SplitAllNoDelimiter("..", '/');
    SplitAllNoDelimiter(other, '/');
    SplitAllAppend("..", other, '/');
    assert Paths.NonEmpty([other]) == [other];
    assert Paths.NonEmpty(["..", other]) == ["..", other];
  }

  lemma FoldClimb(dir: string, other: string)
    requires Paths.Plain(dir) && Paths.Plain(other)
    ensures Paths.Fold([], [dir, "..", other], true) == [other]
  {
    var segs := [dir, "..", other];
    assert segs[1..] == ["..", other] && segs[1..][1..] == [other];
    assert Paths.Push([], dir, true) == [dir];
    assert Paths.Push([dir], "..", true) == [];
    assert Paths.Push([], other, true) == [other];
    assert Paths.Fold([], segs, true) == Paths.Fold([dir], ["..", other], true);
    assert Paths.Fold([dir], ["..", other], true) == Paths.Fold([], [other], true);
    assert Paths.Fold([], [other], true) == Paths.Fold([other], [], true);
  }

  /** A name that climbs above an absolute root is refused. */
  lemma LoadRefusesClimbingOut(dir: string, other: string)
    requires dir != "" && other != "" && Paths.Plain(dir) && Paths.Plain(other)
    requires '/' !in dir && '/' !in other && dir != other
    ensures Load(Paths.Path(true, [dir]), "../" + other) == Err(if '\0' in other then IllegalPathChar else InvalidPath)
  {
    assert Paths.Valid("../" + other) <==> '\0' !in other by {
      assert forall i :: 0 <= i < |other| ==> ("../" + other)[i + 3] == other[i];
    }
    ClimbOut(dir, other);
  }

  // ---------------------------------------------------------------------
  // deleteFile
  // ---------------------------------------------------------------------

  /** Some share row refers to the file: `SharedFile.file` is a
      many-to-one join on `file_id` with no cascade. */
  predicate Shared(repos: Repos, fileId: int) {
    exists token :: token in repos.shared && repos.shared[token].file.id == fileId
  }

  /** What `deleteFile` did: the outcome, and the disk file it removed, if
      it got that far. */
  datatype Deletion = Deletion(outcome: Result<Repos, Error>, removed: Option<Paths.Path>)

  /** `deleteFile(fileId, email)` (FileService.java:99-116): the caller, the
      file and its ownership are checked in that order; then the disk file
      (found through `load`) and the row are deleted. `ioOk` is whether
      `Files.deleteIfExists` succeeds. Deleting the row fails on the foreign
      key while a share row still refers to it, after the bytes are gone. */
  function DeleteFile(repos: Repos, root: Paths.Path, fileId: int, email: string, ioOk: bool): (d: Deletion)
    ensures email !in repos.users ==> d == Deletion(Err(UserNotFound), None)
    ensures email in repos.users && fileId !in repos.files ==> d == Deletion(Err(FileNotFound), None)
    ensures email in repos.users && fileId in repos.files && repos.files[fileId].owner != repos.users[email].id ==>
      d == Deletion(Err(Unauthorized), None)
    ensures d.removed.Some? <==>
      && email in repos.users && fileId in repos.files
      && repos.files[fileId].owner == repos.users[email].id
      && Load(root, repos.files[fileId].filePath).Ok? && ioOk
    ensures d.removed.Some? ==> d.removed.value == Load(root, repos.files[fileId].filePath).value
    ensures d.outcome.Ok? <==> d.removed.Some? && !Shared(repos, fileId)
    ensures d.outcome == Err(FileStillShared) <==> d.removed.Some? && Shared(repos, fileId)
    ensures d.outcome.Ok? ==> d.outcome.value == repos.(files := repos.files - {fileId})
  {
    if email !in repos.users then Deletion(Err(UserNotFound), None)
    else if fileId !in repos.files then Deletion(Err(FileNotFound), None)
    else
      var f := repos.files[fileId];
      if f.owner != repos.users[email].id then Deletion(Err(Unauthorized), None)
      else
        match Load(root, f.filePath)
        case Err(e) => Deletion(Err(e), None)
        case Ok(path) =>
          if !ioOk then Deletion(Err(DeleteFailed), None)
          else if Shared(repos, fileId) then Deletion(Err(FileStillShared), Some(path))
          else Deletion(Ok(repos.(files := repos.files - {fileId})), Some(path))
  }

  /** The owner deleting what was just stored, before sharing it, gets the
      repositories back as they were before the upload, and the bytes are
      removed from where `store` wrote them. */
  lemma DeleteUndoesStore(repos: Repos, root: Paths.Path, upload: Upload, email: string, uuid: string, id: int)
    requires id !in repos.files && !Shared(repos, id)
    requires Paths.IsNormal(root) && UuidText(uuid)
    requires Store(repos, root, upload, email, uuid, id, true).Ok?
    ensures var (next, _, dest) := Store(repos, root, upload, email, uuid, id, true).value;
      DeleteFile(next, root, id, email, true) == Deletion(Ok(repos), Some(dest))
  {
    var (next, f, _) := Store(repos, root, upload, email, uuid, id, true).value;
    StoredNameFieldsPlain(uuid, upload.originalName.value);
    StoredNameStaysUnderRoot(root, uuid, upload.originalName.value);
    LoadAcceptsStoredName(root, uuid, upload.originalName.value);
    assert next.files - {id} == repos.files;
  }

  /** `load` finds a stored name where `store` wrote it. */
  lemma LoadAcceptsStoredName(root: Paths.Path, uuid: string, original: string)
    requires Paths.IsNormal(root) && UuidText(uuid) && Paths.Valid(uuid + Extension(original))
    ensures Load(root, uuid + Extension(original)) == Ok(Destination(root, uuid + Extension(original)))
  {
    StoredNameStaysUnderRoot(root, uuid, original);
  }

  /** A file shared once can no longer be deleted by its owner, although the
      bytes are removed on the way. */
  lemma SharedFileOutlivesDelete(repos: Repos, root: Paths.Path, fileId: int, email: string, token: string)
    requires email in repos.users && fileId in repos.files && repos.files[fileId].owner == repos.users[email].id
    requires Load(root, repos.files[fileId].filePath).Ok?
    requires token in repos.shared && repos.shared[token].file.id == fileId
    ensures DeleteFile(repos, root, fileId, email, true) ==
      Deletion(Err(FileStillShared), Some(Load(root, repos.files[fileId].filePath).value))
  {
  }

  // ---------------------------------------------------------------------
  // getFileAsResource
  // ---------------------------------------------------------------------

  /** `getFileAsResource(key, isToken)` (FileService.java:117-144). With a
      token, the shared row must exist and not be expired, and a `null`
      expiry throws; the stored path is resolved without `load`'s check,
      though `resolve` still refuses a NUL.
      Without a token the key goes through `load`. Either way the file must
      exist and be readable: `readable` is the set of such paths. */
  function GetFileAsResource(repos: Repos, root: Paths.Path, key: string, isToken: bool, now: int, readable: set<Paths.Path>)
    : (r: Result<Paths.Path, Error>)
    ensures isToken && key !in repos.shared ==> r == Err(InvalidToken)
    ensures isToken && key in repos.shared && repos.shared[key].expiresAt.None? ==> r == Err(NullExpiry)
    ensures isToken && key in repos.shared && repos.shared[key].expiresAt.Some? && repos.shared[key].expiresAt.value < now ==>
      r == Err(TokenExpired)
    ensures isToken && r.Ok? ==>
      Paths.Valid(repos.shared[key].file.filePath) && r.value == Destination(root, repos.shared[key].file.filePath)
    ensures isToken && key in repos.shared && repos.shared[key].expiresAt.Some? && repos.shared[key].expiresAt.value >= now ==>
      (r == Err(IllegalPathChar) <==> !Paths.Valid(repos.shared[key].file.filePath))
    ensures !isToken ==>
      (r.Ok? <==> Load(root, key).Ok? && Load(root, key).value in readable)
      && (r.Ok? ==> r.value == Load(root, key).value)
    ensures r.Ok? ==> r.value in readable
  {
    var path :-
      if isToken then
        if key !in repos.shared then Err(InvalidToken)
        else
          var sf := repos.shared[key];
          if sf.expiresAt.None? then Err(NullExpiry)
          else if sf.expiresAt.value < now then Err(TokenExpired)
          else if !Paths.Valid(sf.file.filePath) then Err(IllegalPathChar)
          else Ok(Destination(root, sf.file.filePath))
      else Load(root, key);
    if path in readable then Ok(path) else Err(NotReadable)
  }

  /** The token branch does not confine: a row whose stored path climbs out
      of the root is served from outside it. */
  lemma TokenBranchSkipsContainment(repos: Repos, token: string, now: int)
    requires token in repos.shared && repos.shared[token].expiresAt == Some(now)
    requires repos.shared[token].file.filePath == "../x"
    ensures GetFileAsResource(repos, Paths.Path(true, ["srv"]), token, true, now, {Paths.Path(true, ["x"])})
      == Ok(Paths.Path(true, ["x"]))
    ensures !Paths.StartsWith(Paths.Path(true, ["x"]), Paths.Path(true, ["srv"]))
  {
    assert "../" + "x" == "../x";
    ClimbOut("srv", "x");
  }

  /** For the rows `store` creates, the token branch stays under the root
      after all. */
  lemma StoredRowsServedUnderRoot(repos: Repos, root: Paths.Path, token: string, uuid: string, original: string, now: int, readable: set<Paths.Path>)
    requires Paths.IsNormal(root) && UuidText(uuid)
    requires token in repos.shared && repos.shared[token].file.filePath == uuid + Extension(original)
    ensures GetFileAsResource(repos, root, token, true, now, readable).Ok? ==>
      Paths.StartsWith(GetFileAsResource(repos, root, token, true, now, readable).value, root)
  {
    StoredNameStaysUnderRoot(root, uuid, original);
  }
}
