/** `FileUtils.getFileExtension` (src/utils/FileUtils.java:72-77). */
module FileUtils {
  import opened JavaText

  /** The text after the last '.', lower-cased; "" when there is no '.', when
      the only candidate '.' is the first character, or when it is the last. */
  function GetFileExtension(name: string): (r: string)
    ensures r != "" <==> 0 < LastIndexOf(name, '.') < |name| - 1
    ensures '.' !in r
    ensures r != "" ==> r == ToLowerAscii(name[LastIndexOf(name, '.') + 1..])
  {
    var dot := LastIndexOf(name, '.');
    if 0 < dot < |name| - 1 then
      var ext := ToLowerAscii(name[dot + 1..]);
      assert forall i :: 0 <= i < |ext| ==> ext[i] != '.' by {
        forall i | 0 <= i < |ext| ensures ext[i] != '.' {
          assert name[dot + 1..][i] in name[dot + 1..];
        }
      }
      ext
    else ""
  }

  /** The last occurrence is the one with none after it. */
  lemma LastIndexOfUnique(s: string, c: char, i: int)
    requires 0 <= i < |s| && s[i] == c && c !in s[i + 1..]
    ensures LastIndexOf(s, c) == i
  {
  }

  /** A stem with a non-empty, dot-free suffix after a dot gives that suffix,
      lower-cased, whatever dots the stem holds. */
  lemma ExtensionOfStemAndSuffix(stem: string, suffix: string)
    requires stem != "" && suffix != "" && '.' !in suffix
    ensures GetFileExtension(stem + "." + suffix) == ToLowerAscii(suffix)
  {
    var name := stem + "." + suffix;
    assert name[|stem| + 1..] == suffix;
    LastIndexOfUnique(name, '.', |stem|);
  }

  /** No dot, a leading dot as the only one, or a trailing dot: no extension. */
  lemma NoExtensionCases(base: string)
    requires '.' !in base
    ensures GetFileExtension(base) == ""
    ensures GetFileExtension("." + base) == ""
    ensures GetFileExtension(base + ".") == ""
  {
    LastIndexOfUnique("." + base, '.', 0);
    assert ("." + base)[1..] == base;
    LastIndexOfUnique(base + ".", '.', |base|);
  }
}
