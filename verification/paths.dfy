/** File-system paths as `java.nio.file` treats them on a Unix file system,
    kept abstract as a list of name elements: `Paths.get`, `resolve`,
    `normalize` and `startsWith`. Only the element structure is modelled;
    the file system itself is not. A string holding NUL is not a path:
    `Paths.get` and `resolve` throw `InvalidPathException` on it. */
module Paths {
  import opened Wrappers
  import opened JavaText

  datatype Path = Path(absolute: bool, segments: seq<string>)

  /** The non-empty elements, in order: repeated and trailing slashes vanish. */
  function NonEmpty(fields: seq<string>): (r: seq<string>)
    ensures |r| <= |fields|
    ensures forall i :: 0 <= i < |r| ==> r[i] != "" && r[i] in fields
  {
    if |fields| == 0 then []
    else if fields[0] == "" then NonEmpty(fields[1..])
    else [fields[0]] + NonEmpty(fields[1..])
  }

  /** A path string as the Unix file system parses it. */
  function Parse(s: string): (p: Path)
    ensures forall i :: 0 <= i < |p.segments| ==> p.segments[i] != "" && '/' !in p.segments[i]
  {
    SplitAllJoins(s, '/');
    Path(|s| > 0 && s[0] == '/', NonEmpty(SplitAll(s, '/')))
  }

  /** A string the Unix file system accepts as a path: no NUL character. */
  predicate Valid(s: string) {
    '\0' !in s
  }

  /** `Paths.get(first, more)`: the two strings joined with one separator
      (none when either is empty), then parsed; `None` is the
      `InvalidPathException` a NUL in either string raises. */
  function Get(first: string, more: string): (r: Option<Path>)
    ensures r.None? <==> !Valid(first) || !Valid(more)
  {
    if !Valid(first) || !Valid(more) then None
    else if more == "" then Some(Parse(first))
    else if first == "" then Some(Parse(more))
    else Some(Parse(first + "/" + more))
  }

  /** `base.resolve(other)`: an absolute `other` replaces `base`. */
  function Resolve(base: Path, other: Path): (r: Path)
    ensures other.absolute ==> r == other
    ensures !other.absolute ==> r.absolute == base.absolute && base.segments <= r.segments
  {
    if other.absolute then other else Path(base.absolute, base.segments + other.segments)
  }

  /** `p.startsWith(prefix)`: same kind of path and element-wise prefix. */
  predicate StartsWith(p: Path, prefix: Path) {
    p.absolute == prefix.absolute && prefix.segments <= p.segments
  }

  predicate Plain(seg: string) {
    seg != "." && seg != ".."
  }

  /** What `normalize` produces: no "." element, and ".." only as a run at
      the front of a relative path. */
  predicate IsNormal(p: Path) {
    forall i :: 0 <= i < |p.segments| ==>
      p.segments[i] != "."
      && (p.segments[i] == ".." ==> !p.absolute && forall j :: 0 <= j < i ==> p.segments[j] == "..")
  }

  /** One element of `normalize`: "." is dropped, ".." cancels the element
      before it (or is dropped at the root of an absolute path, or kept at the
      front of a relative one), anything else is appended. */
  function Push(stack: seq<string>, seg: string, absolute: bool): seq<string> {
    if seg == "." then stack
    else if seg == ".." then
      if |stack| > 0 && stack[|stack| - 1] != ".." then stack[..|stack| - 1]
      else if absolute then stack
      else stack + [".."]
    else stack + [seg]
  }

  function Fold(stack: seq<string>, segs: seq<string>, absolute: bool): seq<string>
    decreases |segs|
  {
    if |segs| == 0 then stack else Fold(Push(stack, segs[0], absolute), segs[1..], absolute)
  }

  /** `p.normalize()`. */
  function Normalize(p: Path): (r: Path)
    ensures r.absolute == p.absolute
    ensures IsNormal(r)
  {
    FoldNormal([], p.segments, p.absolute);
    Path(p.absolute, Fold([], p.segments, p.absolute))
  }

  lemma {:induction false} FoldNormal(stack: seq<string>, segs: seq<string>, absolute: bool)
    requires IsNormal(Path(absolute, stack))
    ensures IsNormal(Path(absolute, Fold(stack, segs, absolute)))
    decreases |segs|
  {
    if |segs| > 0 {
      var next := Push(stack, segs[0], absolute);
      assert IsNormal(Path(absolute, next));
      FoldNormal(next, segs[1..], absolute);
    }
  }

  lemma {:induction false} FoldAppend(stack: seq<string>, a: seq<string>, b: seq<string>, absolute: bool)
    ensures Fold(stack, a + b, absolute) == Fold(Fold(stack, a, absolute), b, absolute)
    decreases |a|
  {
    if |a| > 0 {
      assert (a + b)[0] == a[0] && (a + b)[1..] == a[1..] + b;
      FoldAppend(Push(stack, a[0], absolute), a[1..], b, absolute);
    } else {
      assert a + b == b;
    }
  }

  /** Elements that are neither "." nor ".." pass through `normalize`. */
  lemma {:induction false} FoldPlain(stack: seq<string>, segs: seq<string>, absolute: bool)
    requires forall i :: 0 <= i < |segs| ==> Plain(segs[i])
    ensures Fold(stack, segs, absolute) == stack + segs
    decreases |segs|
  {
    if |segs| > 0 {
      FoldPlain(stack + [segs[0]], segs[1..], absolute);
      assert stack + [segs[0]] + segs[1..] == stack + segs;
    }
  }

  /** A run of ".." elements at the front of a relative path survives. */
  lemma {:induction false} FoldLeadingParents(stack: seq<string>, n: nat)
    requires forall i :: 0 <= i < |stack| ==> stack[i] == ".."
    ensures Fold(stack, seq(n, i => ".."), false) == stack + seq(n, i => "..")
    decreases n
  {
    if n > 0 {
      var dots := seq(n, i => "..");
      assert dots[1..] == seq(n - 1, i => "..");
      FoldLeadingParents(stack + [".."], n - 1);
      assert stack + [".."] + seq(n - 1, i => "..") == stack + dots;
    }
  }

  /** Normalizing a normal path changes nothing. */
  lemma NormalizeOfNormal(p: Path)
    requires IsNormal(p)
    ensures Normalize(p) == p
  {
    var segs := p.segments;
    var n := 0;
    while n < |segs| && segs[n] == ".."
      invariant 0 <= n <= |segs|
      invariant forall i :: 0 <= i < n ==> segs[i] == ".."
    {
      n := n + 1;
    }
    var dots, rest := segs[..n], segs[n..];
    assert segs == dots + rest;
    forall i | 0 <= i < |rest|
      ensures Plain(rest[i])
    {
      assert rest[i] == segs[n + i];
    }
    FoldAppend([], dots, rest, p.absolute);
    if n > 0 {
      assert !p.absolute;
      assert dots == seq(n, i => "..");
      FoldLeadingParents([], n);
    }
    assert Fold([], dots, p.absolute) == dots;
    FoldPlain(dots, rest, p.absolute);
    assert Fold([], segs, p.absolute) == segs;
  }

  /** Resolving a relative path made only of plain elements against a normal
      base and normalizing stays under the base: it is the base followed by
      exactly those elements. */
  lemma ResolvePlainStaysUnder(base: Path, other: Path)
    requires IsNormal(base)
    requires !other.absolute
    requires forall i :: 0 <= i < |other.segments| ==> Plain(other.segments[i])
    ensures Normalize(Resolve(base, other)) == Path(base.absolute, base.segments + other.segments)
    ensures StartsWith(Normalize(Resolve(base, other)), base)
  {
    NormalizeOfNormal(base);
    FoldAppend([], base.segments, other.segments, base.absolute);
    FoldPlain(base.segments, other.segments, base.absolute);
  }

  lemma {:induction false} NonEmptyAppend(a: seq<string>, b: seq<string>)
    ensures NonEmpty(a + b) == NonEmpty(a) + NonEmpty(b)
    decreases |a|
  {
    if |a| > 0 {
      assert (a + b)[1..] == a[1..] + b;
      NonEmptyAppend(a[1..], b);
    } else {
      assert a + b == b;
    }
  }

  /** `Paths.get(dir, name)`, when it succeeds, keeps every element of
      `name`, ".." included: nothing is sanitised. */
  lemma GetKeepsElements(dir: string, name: string)
    requires dir != "" && name != ""
    ensures Get(dir, name).Some? ==>
      && Get(dir, name).value.absolute == (dir[0] == '/')
      && Get(dir, name).value.segments == Parse(dir).segments + Parse(name).segments
  {
    SplitAllAppend(dir, name, '/');
    assert dir + "/" + name == dir + ['/'] + name;
    NonEmptyAppend(SplitAll(dir, '/'), SplitAll(name, '/'));
  }
}
