/** `SharedFileController` of the sharing backend (src/main/java/com/cs447/
    securefiletransfer/backend/Controller/SharedFileController.java): the
    share endpoint, the download of a shared file with its
    Content-Disposition header, and the token endpoint's parameter flow.
    `UriUtils.encode` is a parameter; request bodies are maps from field
    name to the field's `toString()`. */
module SharedFileController {
  import opened Wrappers
  import opened JavaText
  import opened Backend
  import Paths
  import FileService
  import SharedFileService

  // ---------------------------------------------------------------------
  // shareFile
  // ---------------------------------------------------------------------

  /** `shareFile(fileId, userDetails)` (SharedFileController.java:28-34): the
      service is asked with the authenticated user's name as the owner. */
  function ShareFile(repos: Repos, fileId: int, username: string, token: string, now: int): (r: Result<(Repos, string), Error>)
    requires token !in repos.shared
    ensures r.Ok? <==> SharedFileService.MayShare(repos, fileId, username)
    ensures r.Ok? ==>
      && r.value.1 == token && token in r.value.0.shared
      && r.value.0.shared[token].sharedBy == repos.users[username].id
      && r.value.0.shared[token].file == repos.files[fileId]
  {
    SharedFileService.ShareFile(repos, fileId, username, token, now)
  }

  // ---------------------------------------------------------------------
  // The Content-Disposition header
  // ---------------------------------------------------------------------

  /** The characters the ASCII fallback keeps: 0x20 to 0x7E. */
  predicate Printable(c: char) {
    ' ' <= c <= '~'
  }

  /** `replaceAll("[^\\x20-\\x7E]", "_")`: every code point outside the
      printable ASCII range becomes '_'. A `char` here is a code point, as the
      regex sees the string. */
  function AsciiFallback(name: string): (r: string)
    ensures |r| == |name|
    ensures forall i :: 0 <= i < |r| ==> Printable(r[i])
    ensures forall i :: 0 <= i < |r| ==> (Printable(name[i]) ==> r[i] == name[i]) && (!Printable(name[i]) ==> r[i] == '_')
  {
    if |name| == 0 then ""
    else [if Printable(name[0]) then name[0] else '_'] + AsciiFallback(name[1..])
  }

  /** A printable name passes unchanged, and the fallback of a fallback is
      the fallback. */
  lemma AsciiFallbackIdempotent(name: string)
    ensures (forall i :: 0 <= i < |name| ==> Printable(name[i])) ==> AsciiFallback(name) == name
    ensures AsciiFallback(AsciiFallback(name)) == AsciiFallback(name)
  {
  }

  const DispositionPrefix: string := "attachment; filename=\""
  const ExtendedParameter: string := "\"; filename*=UTF-8''"

  /** The header as `downloadSharedFile` writes it (SharedFileController.java:
      50): the fallback name between quotes as it is, then the RFC 8187
      ext-value with the encoded name. */
  function ContentDispositionAsWritten(ascii: string, encoded: string): (h: string)
    ensures |DispositionPrefix| <= |h| && h[..|DispositionPrefix|] == DispositionPrefix
    ensures h[|DispositionPrefix|..] == ascii + ExtendedParameter + encoded
  {
    DispositionPrefix + ascii + ExtendedParameter + encoded
  }

  /** A quoted-string of section 5.6.4 of RFC 9110, read after its opening
      quote: characters up to the closing quote, a backslash taking the next
      character literally. The result is the value and what follows the
      closing quote. */
  function ParseQuoted(s: string): (r: Option<(string, string)>)
    ensures r.Some? ==> |r.value.1| < |s|
    decreases |s|
  {
    if |s| == 0 then None
    else if s[0] == '"' then Some(("", s[1..]))
    else if s[0] == '\\' then
      if |s| < 2 then None
      else match ParseQuoted(s[2..]) {
        case None => None
        case Some((v, rest)) => Some(([s[1]] + v, rest))
      }
    else match ParseQuoted(s[1..]) {
      case None => None
      case Some((v, rest)) => Some(([s[0]] + v, rest))
    }
  }

  /** The `filename` parameter a recipient reads from a header of this
      shape. */
  function FilenameOf(h: string): (r: Option<string>)
    ensures r.Some? ==> |DispositionPrefix| <= |h| && h[..|DispositionPrefix|] == DispositionPrefix
  {
    if |DispositionPrefix| <= |h| && h[..|DispositionPrefix|] == DispositionPrefix then
      match ParseQuoted(h[|DispositionPrefix|..]) {
        case None => None
        case Some((v, _)) => Some(v)
      }
    else None
  }

  /** One character as it goes between the quotes: quote and backslash
      preceded by a backslash, as a quoted-string needs them. */
  function EscapeChar(c: char): (r: string)
    ensures r == [c] || r == ['\\', c]
    ensures r[0] != '"'
  {
    if c == '"' || c == '\\' then ['\\', c] else [c]
  }

  function Escape(s: string): (r: string)
    ensures |s| <= |r|
    ensures '"' !in s && '\\' !in s ==> r == s
  {
    if |s| == 0 then "" else EscapeChar(s[0]) + Escape(s[1..])
  }

  /** Reading an ordinary character, or a backslash and any character,
      puts that character in front of the value. */
  lemma ParseQuotedPlain(c: char, e: string, v: string, rest: string)
    requires c != '"' && c != '\\'
    requires ParseQuoted(e) == Some((v, rest))
    ensures ParseQuoted([c] + e) == Some(([c] + v, rest))
  {
    assert ([c] + e)[1..] == e;
  }

  lemma ParseQuotedEscaped(c: char, e: string, v: string, rest: string)
    requires ParseQuoted(e) == Some((v, rest))
    ensures ParseQuoted(['\\', c] + e) == Some(([c] + v, rest))
  {
    assert (['\\', c] + e)[2..] == e;
  }

  lemma ParseQuotedStep(c: char, e: string, v: string, rest: string)
    requires ParseQuoted(e) == Some((v, rest))
    ensures ParseQuoted(EscapeChar(c) + e) == Some(([c] + v, rest))
  {
    if c == '"' || c == '\\' {
      ParseQuotedEscaped(c, e, v, rest);
    } else {
      ParseQuotedPlain(c, e, v, rest);
    }
  }

  /** Any value, escaped and followed by text that closes the quotes at
      once, reads back. */
  lemma {:induction false} ParseQuotedOfEscape(s: string, t: string, rest: string)
    requires ParseQuoted(t) == Some(("", rest))
    ensures ParseQuoted(Escape(s) + t) == Some((s, rest))
    decreases |s|
  {
    if |s| == 0 {
      assert Escape(s) + t == t;
      assert s == "";
    } else {
      ParseQuotedOfEscape(s[1..], t, rest);
      EscapeCons(s, t);
      ParseQuotedStep(s[0], Escape(s[1..]) + t, s[1..], rest);
      assert [s[0]] + s[1..] == s;
    }
  }

  lemma EscapeCons(s: string, t: string)
    requires |s| > 0
    ensures Escape(s) + t == EscapeChar(s[0]) + (Escape(s[1..]) + t)
  {
  }

  /** A closing quote ends the value at once. */
  lemma ParseQuotedClose(rest: string)
    ensures ParseQuoted("\"" + rest) == Some(("", rest))
  {
    assert ("\"" + rest)[0] == '"' && ("\"" + rest)[1..] == rest;
  }

  /** The header with the fallback name escaped inside the quotes. */
  function ContentDisposition(ascii: string, encoded: string): (h: string)
    ensures FilenameOf(h) == Some(ascii)
    ensures |encoded| <= |h| && h[|h| - |encoded|..] == encoded
    ensures '"' !in ascii && '\\' !in ascii ==> h == ContentDispositionAsWritten(ascii, encoded)
  {
    var h := DispositionPrefix + Escape(ascii) + ExtendedParameter + encoded;
    var t := ExtendedParameter + encoded;
    assert h[|DispositionPrefix|..] == Escape(ascii) + t;
    assert t == "\"" + t[1..];
    ParseQuotedClose(t[1..]);
    ParseQuotedOfEscape(ascii, t, t[1..]);
    h
  }

  /** A name without quote or backslash comes back from the header as
      written: there the two headers agree. */
  lemma CleanNameRoundTrips(name: string, encoded: string)
    ensures '"' !in name && '\\' !in name ==>
      FilenameOf(ContentDispositionAsWritten(AsciiFallback(name), encoded)) == Some(AsciiFallback(name))
  {
    if '"' in name || '\\' in name {
      return;
    }
    var a := AsciiFallback(name);
    forall i | 0 <= i < |a|
      ensures a[i] != '"' && a[i] != '\\'
    {
      assert name[i] in name;
    }
    assert ContentDisposition(a, encoded) == ContentDispositionAsWritten(a, encoded);
  }

  /** A printable quote in the name ends the quoted value early: the name
      `a".txt` is read back as `a`. */
  lemma QuoteInNameTruncates(encoded: string)
    ensures AsciiFallback("a\".txt") == "a\".txt"
    ensures FilenameOf(ContentDispositionAsWritten(AsciiFallback("a\".txt"), encoded)) == Some("a")
  {
    var name := "a\".txt";
    AllPrintable(name);
    var tail := ".txt" + ExtendedParameter + encoded;
    assert name + ExtendedParameter + encoded == ['a'] + ("\"" + tail) by {
      assert name == ['a'] + "\"" + ".txt";
    }
    ParseQuotedClose(tail);
    ParseQuotedPlain('a', "\"" + tail, "", tail);
    assert ['a'] + "" == "a";
    ReadBack(name, encoded, "a", tail);
  }

  /** A backslash in the name is taken as an escape: `a\b` is read back as
      `ab`. */
  lemma BackslashInNameIsLost(encoded: string)
    ensures AsciiFallback("a\\b") == "a\\b"
    ensures FilenameOf(ContentDispositionAsWritten(AsciiFallback("a\\b"), encoded)) == Some("ab")
  {
    var name := "a\\b";
    AllPrintable(name);
    var tail := ExtendedParameter[1..] + encoded;
    var e := "\"" + tail;
    assert name + ExtendedParameter + encoded == ['a'] + (['\\', 'b'] + e) by {
      assert name == ['a'] + ['\\', 'b'];
      assert ExtendedParameter == "\"" + ExtendedParameter[1..];
    }
    ParseQuotedClose(tail);
    ParseQuotedEscaped('b', e, "", tail);
    ParseQuotedPlain('a', ['\\', 'b'] + e, "b", tail);
    assert ['a'] + "b" == "ab";
    ReadBack(name, encoded, "ab", tail);
  }

  /** What the recipient reads is what the quoted-string parser reads after
      the prefix. */
  lemma ReadBack(ascii: string, encoded: string, v: string, rest: string)
    requires ParseQuoted(ascii + ExtendedParameter + encoded) == Some((v, rest))
    ensures FilenameOf(ContentDispositionAsWritten(ascii, encoded)) == Some(v)
  {
  }

  lemma AllPrintable(name: string)
    requires forall i :: 0 <= i < |name| ==> Printable(name[i])
    ensures AsciiFallback(name) == name
  {
    AsciiFallbackIdempotent(name);
  }

  // ---------------------------------------------------------------------
  // downloadSharedFile
  // ---------------------------------------------------------------------

  /** The response: the file to stream and its Content-Disposition. */
  datatype Download = Download(path: Paths.Path, contentDisposition: string)

  /** `downloadSharedFile(token)` (SharedFileController.java:36-56): an
      unknown or expired token fails before any file is looked up; the file
      is then served by name, through `load`, and the header carries the
      fallback name between quotes, unescaped, and the encoded name. A
      recipient reads the fallback name back only when it holds no quote and
      no backslash. */
  function DownloadSharedFile(repos: Repos, root: Paths.Path, token: string, now: int, readable: set<Paths.Path>,
                              encode: string -> string): (r: Result<Download, Error>)
    ensures SharedFileService.GetSharedFile(repos, token, now).None? ==> r == Err(InvalidOrExpiredToken)
    ensures r.Ok? <==>
      && SharedFileService.GetSharedFile(repos, token, now).Some?
      && FileService.GetFileAsResource(repos, root, repos.shared[token].file.filePath, false, now, readable).Ok?
    ensures r.Ok? ==>
      var f := repos.shared[token].file;
      && r.value.path in readable && Paths.StartsWith(r.value.path, root)
      && r.value.path == FileService.Load(root, f.filePath).value
      && var h := r.value.contentDisposition;
         && |DispositionPrefix| <= |h| && h[..|DispositionPrefix|] == DispositionPrefix
         && h[|DispositionPrefix|..] == AsciiFallback(f.name) + ExtendedParameter + encode(f.name)
    ensures r.Ok? && '"' !in repos.shared[token].file.name && '\\' !in repos.shared[token].file.name ==>
      FilenameOf(r.value.contentDisposition) == Some(AsciiFallback(repos.shared[token].file.name))
  {
    match SharedFileService.GetSharedFile(repos, token, now) {
      case None => Err(InvalidOrExpiredToken)
      case Some(sf) =>
        var path :- FileService.GetFileAsResource(repos, root, sf.file.filePath, false, now, readable);
        var name := sf.file.name;
        CleanNameRoundTrips(name, encode(name));
        Ok(Download(path, ContentDispositionAsWritten(AsciiFallback(name), encode(name))))
    }
  }

  // ---------------------------------------------------------------------
  // createSharedFileToken
  // ---------------------------------------------------------------------

  /** The token endpoint's body fields: `fileId` is required (its absence
      is a `NullPointerException`), `expiresInDays` defaults to 1; both go
      through the Java parsers. */
  function TokenRequest(request: map<string, string>): (r: Result<(int, int), Error>)
    ensures "fileId" !in request ==> r == Err(MissingParameter)
    ensures r.Ok? <==>
      && "fileId" in request && ParseLong(request["fileId"]).Some?
      && ("expiresInDays" in request ==> ParseInt(request["expiresInDays"]).Some?)
    ensures r.Ok? ==> r.value.0 == ParseLong(request["fileId"]).value
    ensures r.Ok? && "expiresInDays" !in request ==> r.value.1 == 1
    ensures r.Ok? && "expiresInDays" in request ==> r.value.1 == ParseInt(request["expiresInDays"]).value
  {
    if "fileId" !in request then Err(MissingParameter)
    else match ParseLong(request["fileId"]) {
      case None => Err(MalformedNumber)
      case Some(fileId) =>
        var daysText := if "expiresInDays" in request then request["expiresInDays"] else "1";
        match ParseInt(daysText) {
          case None => Err(MalformedNumber)
          case Some(days) => Ok((fileId, days))
        }
    }
  }

  /** `createSharedFileToken(request)` as written (SharedFileController.java:
      59-67): the day count is handed to the hours parameter. */
  function CreateSharedFileTokenAsWritten(repos: Repos, request: map<string, string>, email: string, token: string, now: int)
    : (r: Result<(Repos, string), Error>)
    requires token !in repos.shared
    ensures TokenRequest(request).Err? ==> r == Err(TokenRequest(request).error)
    ensures r.Ok? ==>
      && TokenRequest(request).Ok? && token in r.value.0.shared
      && r.value.0.shared[token].expiresAt == Some(now + TokenRequest(request).value.1 * SecondsPerHour)
  {
    var (fileId, days) :- TokenRequest(request);
    SharedFileService.CreateTokenForFileAsWritten(repos, fileId, email, days, token, now)
  }

  /** With no `expiresInDays` the link lives one hour, not one day. */
  lemma DefaultLinkLivesOneHour(repos: Repos, fileId: int, email: string, token: string, now: int)
    requires token !in repos.shared
    requires email in repos.users && fileId in repos.files
    requires InLong(fileId)
    ensures var r := CreateSharedFileTokenAsWritten(repos, map["fileId" := ToDecimal(fileId)], email, token, now);
      && r.Ok?
      && r.value.0.shared[token].expiresAt == Some(now + 3600)
      && SharedFileService.GetSharedFile(r.value.0, token, now + 3601).None?
  {
    ParseOfToDecimal(fileId, LongMin, LongMax);
    assert ParseInt("1") == Some(1);
  }

  /** `createSharedFileToken` with the days turned into hours and the
      ownership check of `shareFile`. */
  function CreateSharedFileToken(repos: Repos, request: map<string, string>, email: string, token: string, now: int)
    : (r: Result<(Repos, string), Error>)
    requires token !in repos.shared
    ensures TokenRequest(request).Err? ==> r == Err(TokenRequest(request).error)
    ensures r.Ok? <==> TokenRequest(request).Ok? && SharedFileService.MayShare(repos, TokenRequest(request).value.0, email)
    ensures r.Ok? ==>
      && token in r.value.0.shared
      && r.value.0.shared[token].expiresAt == Some(now + TokenRequest(request).value.1 * SecondsPerDay)
  {
    var (fileId, days) :- TokenRequest(request);
    SharedFileService.CreateTokenForFile(repos, fileId, email, days * 24, token, now)
  }

  /** A link for `expiresInDays` = d opens up to and including d days after
      it was made; with the field left out that is what `shareFile` makes. */
  lemma CorrectedLinkLivesTheDays(repos: Repos, request: map<string, string>, email: string, token: string, now: int, t: int)
    requires token !in repos.shared
    requires CreateSharedFileToken(repos, request, email, token, now).Ok?
    ensures SharedFileService.GetSharedFile(CreateSharedFileToken(repos, request, email, token, now).value.0, token, t).Some?
      <==> t <= now + TokenRequest(request).value.1 * SecondsPerDay
    ensures "expiresInDays" !in request ==>
      CreateSharedFileToken(repos, request, email, token, now)
      == SharedFileService.ShareFile(repos, TokenRequest(request).value.0, email, token, now)
  {
    if "expiresInDays" !in request {
      SharedFileService.CorrectedTokenMatchesShareFile(repos, TokenRequest(request).value.0, email, token, now);
    }
  }
}
