/** The few pieces of `java.lang.String`, `Integer` and `Long` behaviour the
    file-transfer code relies on, over Dafny strings: decimal printing
    (`String.valueOf`, `%d`), decimal parsing (`Integer.parseInt`,
    `Long.parseLong`), `String.split` with a one-character delimiter,
    `lastIndexOf`, `trim` and ASCII lower-casing. */
module JavaText {
  import opened Wrappers

  const IntMin: int := -0x8000_0000
  const IntMax: int := 0x7FFF_FFFF
  const LongMin: int := -0x8000_0000_0000_0000
  const LongMax: int := 0x7FFF_FFFF_FFFF_FFFF

  predicate InInt(n: int) { IntMin <= n <= IntMax }
  predicate InLong(n: int) { LongMin <= n <= LongMax }

  // ---------------------------------------------------------------------
  // Decimal printing and parsing
  // ---------------------------------------------------------------------

  predicate IsDigit(c: char) { '0' <= c <= '9' }

  predicate AllDigits(s: string) {
    forall i :: 0 <= i < |s| ==> IsDigit(s[i])
  }

  function DigitChar(d: int): (c: char)
    requires 0 <= d < 10
    ensures IsDigit(c)
  {
    ('0' as int + d) as char
  }

  /** The decimal digits of `n`, most significant first, without leading zeros. */
  function Digits(n: nat): (r: string)
    ensures |r| >= 1 && AllDigits(r)
    ensures r[0] == '0' ==> n == 0
    decreases n
  {
    if n < 10 then [DigitChar(n)] else Digits(n / 10) + [DigitChar(n % 10)]
  }

  /** `String.valueOf(n)` for an integer: an optional '-' then the digits. */
  function ToDecimal(n: int): (r: string)
    ensures |r| >= 1
    ensures r[0] == '-' <==> n < 0
    ensures n >= 0 ==> AllDigits(r)
  {
    if n < 0 then "-" + Digits(-n) else Digits(n)
  }

  /** The value of a string of decimal digits. */
  function DigitsValue(s: string): nat
    requires AllDigits(s)
  {
    if |s| == 0 then 0
    else DigitsValue(s[..|s| - 1]) * 10 + (s[|s| - 1] as int - '0' as int)
  }

  /** The grammar `Integer.parseInt` and `Long.parseLong` accept (ASCII digits
      only): an optional sign followed by at least one digit, and a value in
      `[lo, hi]`. None stands for the thrown `NumberFormatException`. */
  function ParseDecimal(s: string, lo: int, hi: int): (r: Option<int>)
    ensures r.Some? ==> lo <= r.value <= hi
    ensures r.Some? ==> |s| >= 1 && (IsDigit(s[0]) || s[0] == '-' || s[0] == '+')
    ensures s == "" ==> r.None?
  {
    if |s| == 0 then None
    else
      var negative := s[0] == '-';
      var body := if s[0] == '-' || s[0] == '+' then s[1..] else s;
      if |body| == 0 || !AllDigits(body) then None
      else
        var v: int := if negative then -(DigitsValue(body) as int) else DigitsValue(body);
        if lo <= v <= hi then Some(v) else None
  }

  /** `Integer.parseInt(s)`. */
  function ParseInt(s: string): Option<int> {
    ParseDecimal(s, IntMin, IntMax)
  }

  /** `Long.parseLong(s)`. */
  function ParseLong(s: string): Option<int> {
    ParseDecimal(s, LongMin, LongMax)
  }

  lemma {:induction false} DigitsValueOfDigits(n: nat)
    ensures DigitsValue(Digits(n)) == n
    decreases n
  {
    if n >= 10 {
      var d := Digits(n);
      assert d[..|d| - 1] == Digits(n / 10);
      DigitsValueOfDigits(n / 10);
    }
  }

  /** Printing an integer and parsing it back returns it, whenever it is in
      the parser's range. */
  lemma ParseOfToDecimal(n: int, lo: int, hi: int)
    requires lo <= n <= hi
    ensures ParseDecimal(ToDecimal(n), lo, hi) == Some(n)
  {
    var s := ToDecimal(n);
    if n < 0 {
      assert s[0] == '-' && s[1..] == Digits(-n);
      DigitsValueOfDigits(-n);
    } else {
      assert s == Digits(n);
      DigitsValueOfDigits(n);
    }
  }

  /** A printed integer parses back exactly when it is in the parser's
      range. */
  lemma DecimalParsesIffInRange(n: int, lo: int, hi: int)
    ensures ParseDecimal(ToDecimal(n), lo, hi) == (if lo <= n <= hi then Some(n) else None)
  {
    var s := ToDecimal(n);
    if n < 0 {
      assert s[0] == '-' && s[1..] == Digits(-n);
      DigitsValueOfDigits(-n);
    } else {
      assert s == Digits(n);
      DigitsValueOfDigits(n);
    }
  }

  // ---------------------------------------------------------------------
  // Splitting on a one-character delimiter
  // ---------------------------------------------------------------------

  /** The fields joined with the delimiter between consecutive fields. */
  function Join(fields: seq<string>, d: char): string
    requires |fields| >= 1
  {
    if |fields| == 1 then fields[0] else fields[0] + [d] + Join(fields[1..], d)
  }

  lemma JoinOfThree(a: string, b: string, c: string, d: char)
    ensures Join([a, b, c], d) == a + [d] + b + [d] + c
  {
    var fs := [a, b, c];
    assert fs[1..] == [b, c] && fs[1..][1..] == [c];
    assert Join([c], d) == c;
    assert Join([b, c], d) == b + [d] + c;
  }

  lemma JoinOfFour(a: string, b: string, c: string, e: string, d: char)
    ensures Join([a, b, c, e], d) == a + [d] + b + [d] + c + [d] + e
  {
    var fs := [a, b, c, e];
    assert fs[1..] == [b, c, e];
    JoinOfThree(b, c, e, d);
    assert a + [d] + (b + [d] + c + [d] + e) == a + [d] + b + [d] + c + [d] + e;
  }

  /** Every field between delimiters, keeping empty fields everywhere. */
  function SplitAll(s: string, d: char): (r: seq<string>)
    ensures |r| >= 1
  {
    if |s| == 0 then [""]
    else
      var rest := SplitAll(s[1..], d);
      if s[0] == d then [""] + rest
      else [[s[0]] + rest[0]] + rest[1..]
  }

  /** The fields hold no delimiter, and joining them gives the text back. */
  lemma {:induction false} SplitAllJoins(s: string, d: char)
    ensures forall i :: 0 <= i < |SplitAll(s, d)| ==> d !in SplitAll(s, d)[i]
    ensures Join(SplitAll(s, d), d) == s
    decreases |s|
  {
    if |s| > 0 {
      SplitAllJoins(s[1..], d);
      var rest := SplitAll(s[1..], d);
      var r := SplitAll(s, d);
      assert s == [s[0]] + s[1..];
      if s[0] != d {
        assert r[1..] == rest[1..];
      }
    }
  }

  function DropTrailingEmpty(fields: seq<string>): (r: seq<string>)
    ensures r <= fields
    ensures |r| > 0 ==> r[|r| - 1] != ""
    ensures forall i :: |r| <= i < |fields| ==> fields[i] == ""
  {
    if |fields| > 0 && fields[|fields| - 1] == "" then DropTrailingEmpty(fields[..|fields| - 1])
    else fields
  }

  /** `s.split(regex)` where the regex matches exactly the character `d`:
      the input itself when `d` does not occur, otherwise every field with
      the trailing empty ones removed. */
  function Split(s: string, d: char): (r: seq<string>)
    ensures d !in s ==> r == [s]
    ensures d in s ==> r <= SplitAll(s, d) && (|r| > 0 ==> r[|r| - 1] != "")
    ensures forall i :: 0 <= i < |r| ==> d !in r[i]
  {
    if d !in s then [s]
    else
      SplitAllJoins(s, d);
      DropTrailingEmpty(SplitAll(s, d))
  }

  lemma {:induction false} SplitAllOfJoin(fields: seq<string>, d: char)
    requires |fields| >= 1
    requires forall i :: 0 <= i < |fields| ==> d !in fields[i]
    ensures SplitAll(Join(fields, d), d) == fields
    decreases |fields|
  {
    if |fields| == 1 {
      SplitAllNoDelimiter(fields[0], d);
    } else {
      SplitAllOfJoin(fields[1..], d);
      SplitAllCons(fields[0], Join(fields[1..], d), d);
    }
  }

  lemma {:induction false} SplitAllNoDelimiter(s: string, d: char)
    requires d !in s
    ensures SplitAll(s, d) == [s]
    decreases |s|
  {
    if |s| > 0 {
      SplitAllNoDelimiter(s[1..], d);
      assert s == [s[0]] + s[1..];
    }
  }

  lemma SplitAllCons(a: string, b: string, d: char)
    requires d !in a
    ensures SplitAll(a + [d] + b, d) == [a] + SplitAll(b, d)
  {
    SplitAllAppend(a, b, d);
    SplitAllNoDelimiter(a, d);
  }

  /** The first character of a string, when it is not the delimiter, joins
      the first field of the rest. */
  lemma SplitAllHead(c: char, t: string, d: char)
    requires c != d
    ensures SplitAll([c] + t, d) == [[c] + SplitAll(t, d)[0]] + SplitAll(t, d)[1..]
  {
    assert ([c] + t)[1..] == t;
  }

  /** A character absent from the string is absent from every field. */
  lemma {:induction false} SplitAllFieldsAvoid(s: string, c: char, d: char)
    requires c !in s
    ensures forall i :: 0 <= i < |SplitAll(s, d)| ==> c !in SplitAll(s, d)[i]
    decreases |s|
  {
    if |s| > 0 {
      SplitAllFieldsAvoid(s[1..], c, d);
      if s[0] != d {
        SplitAllHead(s[0], s[1..], d);
        assert s == [s[0]] + s[1..];
      }
    }
  }

  /** A prefix without the delimiter joins the first field. */
  lemma {:induction false} SplitAllPrefix(p: string, t: string, d: char)
    requires d !in p
    ensures SplitAll(p + t, d) == [p + SplitAll(t, d)[0]] + SplitAll(t, d)[1..]
    decreases |p|
  {
    if |p| > 0 {
      SplitAllPrefix(p[1..], t, d);
      assert p + t == [p[0]] + (p[1..] + t);
      SplitAllHead(p[0], p[1..] + t, d);
      assert [p[0]] + (p[1..] + SplitAll(t, d)[0]) == p + SplitAll(t, d)[0];
    } else {
      var fs := SplitAll(t, d);
      assert p + t == t && p + fs[0] == fs[0];
      assert [fs[0]] + fs[1..] == fs;
    }
  }

  /** Splitting at one delimiter splits the two sides independently. */
  lemma {:induction false} SplitAllAppend(a: string, b: string, d: char)
    ensures SplitAll(a + [d] + b, d) == SplitAll(a, d) + SplitAll(b, d)
    decreases |a|
  {
    if |a| == 0 {
      assert a + [d] + b == [d] + b;
      assert ([d] + b)[1..] == b;
    } else {
      SplitAllAppend(a[1..], b, d);
      SplitAllAppendStep(a[0], a[1..], b, d);
      assert a == [a[0]] + a[1..];
      assert a + [d] + b == [a[0]] + (a[1..] + [d] + b);
    }
  }

  /** One more leading character on the left side keeps the split additive. */
  lemma SplitAllAppendStep(c: char, a: string, b: string, d: char)
    requires SplitAll(a + [d] + b, d) == SplitAll(a, d) + SplitAll(b, d)
    ensures SplitAll([c] + (a + [d] + b), d) == SplitAll([c] + a, d) + SplitAll(b, d)
  {
    var t := a + [d] + b;
    var restA := SplitAll(a, d);
    var restB := SplitAll(b, d);
    assert ([c] + t)[1..] == t;
    assert ([c] + a)[1..] == a;
    if c == d {
      assert SplitAll([c] + t, d) == [""] + (restA + restB);
      assert SplitAll([c] + a, d) == [""] + restA;
    } else {
      SplitAllHead(c, t, d);
      SplitAllHead(c, a, d);
      JoinFirstField(c, restA, restB);
    }
  }

  /** Gluing a character onto the first field commutes with appending more
      fields. */
  lemma JoinFirstField(c: char, x: seq<string>, y: seq<string>)
    requires |x| >= 1
    ensures [[c] + (x + y)[0]] + (x + y)[1..] == ([[c] + x[0]] + x[1..]) + y
  {
    assert (x + y)[0] == x[0];
    assert (x + y)[1..] == x[1..] + y;
  }

  /** Splitting a joined record gives the fields back when no field holds the
      delimiter and the last field is not empty (or there is only one). */
  lemma SplitOfJoin(fields: seq<string>, d: char)
    requires |fields| >= 1
    requires forall i :: 0 <= i < |fields| ==> d !in fields[i]
    requires |fields| == 1 || fields[|fields| - 1] != ""
    ensures Split(Join(fields, d), d) == fields
  {
    SplitAllOfJoin(fields, d);
    var s := Join(fields, d);
    if d in s {
      assert |fields| > 1;
    } else {
      SplitAllNoDelimiter(s, d);
    }
  }

  // ---------------------------------------------------------------------
  // Searching, trimming, case
  // ---------------------------------------------------------------------

  /** `s.lastIndexOf(c)`: the greatest index holding `c`, or -1. */
  function LastIndexOf(s: string, c: char): (r: int)
    ensures -1 <= r < |s|
    ensures r == -1 <==> c !in s
    ensures r >= 0 ==> s[r] == c && c !in s[r + 1..]
  {
    if |s| == 0 then -1
    else if s[|s| - 1] == c then |s| - 1
    else
      var r := LastIndexOf(s[..|s| - 1], c);
      assert s == s[..|s| - 1] + [s[|s| - 1]];
      r
  }

  /** No character of `s` is above U+0020. */
  predicate Blank(s: string) {
    forall i :: 0 <= i < |s| ==> s[i] <= ' '
  }

  /** Where the run of characters at or below U+0020 that starts at `k`
      ends: the first loop of `trim`. */
  function BlanksEnd(s: string, k: nat): (n: nat)
    requires k <= |s|
    ensures k <= n <= |s|
    ensures forall j :: k <= j < n ==> s[j] <= ' '
    ensures n < |s| ==> s[n] > ' '
    decreases |s| - k
  {
    if k < |s| && s[k] <= ' ' then BlanksEnd(s, k + 1) else k
  }

  /** Where the run of characters at or below U+0020 that ends just before
      `e` starts, going no lower than `lo`: the second loop of `trim`. */
  function BlanksStart(s: string, lo: nat, e: nat): (n: nat)
    requires lo <= e <= |s|
    ensures lo <= n <= e
    ensures forall j :: n <= j < e ==> s[j] <= ' '
    ensures n > lo ==> s[n - 1] > ' '
    decreases e
  {
    if e > lo && s[e - 1] <= ' ' then BlanksStart(s, lo, e - 1) else e
  }

  /** `s.trim()`: skips the characters at or below U+0020 at the front,
      then those at the back down to where the first scan stopped, and
      keeps what lies between. */
  function Trim(s: string): (r: string)
    ensures |r| <= |s|
    ensures |r| > 0 ==> r[0] > ' ' && r[|r| - 1] > ' '
    ensures r == "" <==> Blank(s)
  {
    var st := BlanksEnd(s, 0);
    var len := BlanksStart(s, st, |s|);
    s[st..len]
  }

  /** How many blanks `s` starts with. */
  function LeadingBlanks(s: string): (n: nat)
    ensures n <= |s|
    ensures forall j :: 0 <= j < n ==> s[j] <= ' '
    ensures n < |s| ==> s[n] > ' '
  {
    BlanksEnd(s, 0)
  }

  /** How many blanks `s` ends with. */
  function TrailingBlanks(s: string): (n: nat)
    ensures n <= |s|
    ensures forall j :: |s| - n <= j < |s| ==> s[j] <= ' '
    ensures n < |s| ==> s[|s| - n - 1] > ' '
  {
    |s| - BlanksStart(s, 0, |s|)
  }

  /** The first scan stops at the first character above U+0020. */
  lemma BlanksEndAt(s: string, n: nat)
    requires n <= |s|
    requires forall j :: 0 <= j < n ==> s[j] <= ' '
    requires n < |s| ==> s[n] > ' '
    ensures BlanksEnd(s, 0) == n
  {
  }

  /** The second scan stops after the last character above U+0020 that lies
      above `lo`. */
  lemma BlanksStartAt(s: string, lo: nat, n: nat)
    requires lo <= n <= |s|
    requires forall j :: n <= j < |s| ==> s[j] <= ' '
    requires n > lo ==> s[n - 1] > ' '
    ensures BlanksStart(s, lo, |s|) == n
  {
  }

  /** What `trim` keeps of a text that is not all blanks (one that is gives
      "") is the text between its leading and its trailing blanks. */
  lemma TrimIsSlice(s: string)
    requires !Blank(s)
    ensures LeadingBlanks(s) + TrailingBlanks(s) < |s|
    ensures Trim(s) == s[LeadingBlanks(s)..|s| - TrailingBlanks(s)]
  {
    var st, b := BlanksEnd(s, 0), BlanksStart(s, 0, |s|);
    var k :| 0 <= k < |s| && s[k] > ' ';
    assert st <= k < b;
    BlanksStartAt(s, st, b);
  }

  /** The other way round: blanks added around a text whose ends are not
      blank are exactly what `trim` removes. */
  lemma TrimOfPadded(p: string, t: string, q: string)
    requires Blank(p) && Blank(q)
    requires |t| > 0 ==> t[0] > ' ' && t[|t| - 1] > ' '
    ensures Trim(p + t + q) == t
  {
    var s := p + t + q;
    var i, e := |p|, |p| + |t|;
    assert forall j :: 0 <= j < i ==> s[j] == p[j];
    assert forall j :: e <= j < |s| ==> s[j] == q[j - e];
    if |t| == 0 {
      assert Blank(s) by {
        forall j | 0 <= j < |s| ensures s[j] <= ' ' {
          if j >= i {
            assert s[j] == q[j - e];
          }
        }
      }
    } else {
      assert s[i] == t[0] && s[e - 1] == t[|t| - 1];
      BlanksEndAt(s, i);
      BlanksStartAt(s, i, e);
      assert s[i..e] == t;
    }
  }

  function LowerAscii(c: char): char {
    if 'A' <= c <= 'Z' then (c as int + 32) as char else c
  }

  /** `toLowerCase()` restricted to the ASCII letters. */
  function ToLowerAscii(s: string): (r: string)
    ensures |r| == |s|
    ensures forall i :: 0 <= i < |s| ==> r[i] == LowerAscii(s[i])
  {
    seq(|s|, i requires 0 <= i < |s| => LowerAscii(s[i]))
  }
}
