/** One entry of the transfer history (src/utils/TransferRecord.java). The
    creation time is a parameter (the model has no clock). A record loaded
    from the history file answers `getTimestamp()` with the stored value
    while its own field keeps the load time; `stampOverride` holds the former. */
module TransferRecord {
  import opened Wrappers
  import opened JavaText

  datatype Direction = Sent | Received

  /** `Direction.name()`. */
  function DirectionName(d: Direction): (r: string)
    ensures r != "" && ',' !in r
  {
    match d
    case Sent => "SENT"
    case Received => "RECEIVED"
  }

  /** `Direction.valueOf(s)`: exact, case-sensitive; None is the thrown
      `IllegalArgumentException`. */
  function DirectionOf(s: string): (r: Option<Direction>)
    ensures r.Some? ==> DirectionName(r.value) == s
  {
    if s == "SENT" then Some(Sent)
    else if s == "RECEIVED" then Some(Received)
    else None
  }

  lemma DirectionOfName(d: Direction)
    ensures DirectionOf(DirectionName(d)) == Some(d)
  {
  }

  datatype Record = Record(
    fileName: string,
    createdAt: int,
    fileSize: int,
    direction: Direction,
    stampOverride: Option<int>)

  /** `new TransferRecord(fileName, fileSize, direction)` at time `now`. */
  function Create(fileName: string, fileSize: int, direction: Direction, now: int): (r: Record)
    ensures r.fileName == fileName && r.fileSize == fileSize && r.direction == direction
    ensures Timestamp(r) == now && ShownTime(r) == now
  {
    Record(fileName, now, fileSize, direction, None)
  }

  /** `getTimestamp()`, overridden for loaded records. */
  function Timestamp(r: Record): int {
    r.stampOverride.GetOr(r.createdAt)
  }

  /** The instant `getFormattedTimestamp()` formats: the field, never the
      override. */
  function ShownTime(r: Record): int {
    r.createdAt
  }

  /** `getDirectionString()`. */
  function DirectionString(d: Direction): (r: string)
    ensures r != DirectionName(d)
    ensures d == Sent <==> r == "Sent"
  {
    if d == Sent then "Sent" else "Received"
  }

  /** The unit `getFormattedFileSize()` chooses. */
  datatype SizeUnit = B | KB | MB | GB

  const KiB: int := 1024

  function UnitOf(size: int): SizeUnit {
    if size < KiB then B
    else if size < KiB * KiB then KB
    else if size < KiB * KiB * KiB then MB
    else GB
  }

  function Rank(u: SizeUnit): nat {
    match u
    case B => 0
    case KB => 1
    case MB => 2
    case GB => 3
  }

  /** Each unit covers one range of sizes, and a larger size never gets a
      smaller unit. */
  lemma UnitRanges(size: int, bigger: int)
    requires size <= bigger
    ensures UnitOf(size) == B <==> size < 1024
    ensures UnitOf(size) == KB <==> 1024 <= size < 1048576
    ensures UnitOf(size) == MB <==> 1048576 <= size < 1073741824
    ensures UnitOf(size) == GB <==> 1073741824 <= size
    ensures Rank(UnitOf(size)) <= Rank(UnitOf(bigger))
  {
  }

  /** The formatted size: below 1024 bytes the exact decimal count and " B"
      (negative sizes included); above, a scaled number in the unit, whose
      digits come from floating-point formatting and are not modelled. */
  datatype SizeText = Exact(text: string) | Scaled(unit: SizeUnit)

  function FormattedFileSize(size: int): (r: SizeText)
    ensures r.Exact? <==> size < 1024
    ensures r.Exact? ==>
      && |r.text| >= 3 && r.text[|r.text| - 2..] == " B"
      && ParseLong(r.text[..|r.text| - 2]) == (if InLong(size) then Some(size) else None)
    ensures r.Scaled? ==> r.unit == UnitOf(size) && r.unit != B
  {
    if size < KiB then
      var digits := ToDecimal(size);
      var text := digits + " B";
      assert text[..|text| - 2] == digits;
      DecimalParsesIffInRange(size, LongMin, LongMax);
      Exact(text)
    else Scaled(UnitOf(size))
  }

  /** The text of the size field: the exact count below 1024 bytes, the
      library's scaled number otherwise. */
  function SizeField(size: int, scaledText: string): string {
    match FormattedFileSize(size)
    case Exact(t) => t
    case Scaled(_) => scaledText
  }

  /** `toString()`: name, formatted time, formatted size and direction word,
      separated by " | ". The date and the scaled number are formatted by
      library code and come in as text. */
  function Display(r: Record, timeText: string, scaledText: string): (s: string)
    ensures var n, t, z, d := |r.fileName|, |timeText|, |SizeField(r.fileSize, scaledText)|, |DirectionString(r.direction)|;
      && |s| == n + t + z + d + 9
      && s[..n] == r.fileName
      && s[n + 3..n + 3 + t] == timeText
      && s[n + t + 6..n + t + 6 + z] == SizeField(r.fileSize, scaledText)
      && s[|s| - d..] == DirectionString(r.direction)
      && s[n..n + 3] == s[n + t + 3..n + t + 6] == s[n + t + z + 6..n + t + z + 9] == " | "
  {
    var z := SizeField(r.fileSize, scaledText);
    FieldsAt(r.fileName, timeText, z, DirectionString(r.direction));
    r.fileName + " | " + timeText + " | " + z + " | " + DirectionString(r.direction)
  }

  /** Where each of four fields joined by " | " sits. */
  lemma FieldsAt(a: string, b: string, c: string, d: string)
    ensures var s := a + " | " + b + " | " + c + " | " + d;
      var n, t, z := |a|, |b|, |c|;
      && |s| == n + t + z + |d| + 9
      && s[..n] == a
      && s[n + 3..n + 3 + t] == b
      && s[n + t + 6..n + t + 6 + z] == c
      && s[|s| - |d|..] == d
      && s[n..n + 3] == s[n + t + 3..n + t + 6] == s[n + t + z + 6..n + t + z + 9] == " | "
  {
    var sep := " | ";
    var s1 := a + sep;
    var s2 := s1 + b;
    var s3 := s2 + sep;
    var s4 := s3 + c;
    var s5 := s4 + sep;
    var s := s5 + d;
    assert s[..|s5|] == s5 && s[|s5|..] == d;
    assert s5[..|s4|] == s4 && s5[|s4|..] == sep;
    assert s4[..|s3|] == s3 && s4[|s3|..] == c;
    assert s3[..|s2|] == s2 && s3[|s2|..] == sep;
    assert s2[..|s1|] == s1 && s2[|s1|..] == b;
    assert s1[..|a|] == a && s1[|a|..] == sep;
  }
}
