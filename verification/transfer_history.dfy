/** The transfer history and its CSV file (src/utils/TransferHistoryManager.java).
    The file is a value: `None` when it does not exist, otherwise its text.
    Lines end with "\n" (the platform separator on Unix). Listeners are
    identified by number; a notification is the listener and the list it is
    handed. A failing write or read of the file is not modelled. */
module TransferHistory {
  import opened Wrappers
  import opened JavaText
  import opened TransferRecord

  const HistoryFile: string := "transfer_history.csv"
  const HeaderLine: string := "FileName,Timestamp,FileSize,Direction"

  // ---------------------------------------------------------------------
  // Lines, as `BufferedReader.readLine` sees them
  // ---------------------------------------------------------------------

  predicate IsBreak(c: char) { c == '\n' || c == '\r' }

  predicate NoBreak(s: string) { forall i :: 0 <= i < |s| ==> !IsBreak(s[i]) }

  /** The index of the first line terminator, or the length. */
  function LineEnd(s: string): (i: nat)
    ensures i <= |s| && NoBreak(s[..i])
    ensures i < |s| ==> IsBreak(s[i])
  {
    if |s| == 0 || IsBreak(s[0]) then 0
    else
      var j := LineEnd(s[1..]);
      assert s[..j + 1] == [s[0]] + s[1..][..j];
      j + 1
  }

  /** The successive `readLine()` results: lines end at "\n", "\r" or
      "\r\n"; a last line without a terminator still counts; an empty text
      has no lines. */
  function Lines(s: string): (r: seq<string>)
    ensures forall i :: 0 <= i < |r| ==> NoBreak(r[i])
    decreases |s|
  {
    if |s| == 0 then []
    else
      var i := LineEnd(s);
      if i == |s| then
        assert s[..i] == s;
        [s]
      else
        var next := if s[i] == '\r' && i + 1 < |s| && s[i + 1] == '\n' then i + 2 else i + 1;
        [s[..i]] + Lines(s[next..])
  }

  /** The text `println` produces for the lines, one after another. */
  function Unlines(ls: seq<string>): string {
    if |ls| == 0 then "" else ls[0] + "\n" + Unlines(ls[1..])
  }

  lemma {:induction false} LinesOfUnlines(ls: seq<string>)
    requires forall i :: 0 <= i < |ls| ==> NoBreak(ls[i])
    ensures Lines(Unlines(ls)) == ls
    decreases |ls|
  {
    if |ls| > 0 {
      var s := Unlines(ls);
      var l := ls[0];
      var tail := Unlines(ls[1..]);
      assert s == l + "\n" + tail;
      LineEndOf(l, tail);
      assert s[..|l|] == l;
      assert s[|l| + 1..] == tail;
      LinesOfUnlines(ls[1..]);
    }
  }

  lemma {:induction false} LineEndOf(l: string, tail: string)
    requires NoBreak(l)
    ensures LineEnd(l + "\n" + tail) == |l|
    decreases |l|
  {
    var s := l + "\n" + tail;
    if |l| > 0 {
      assert s[0] == l[0];
      assert s[1..] == l[1..] + "\n" + tail;
      LineEndOf(l[1..], tail);
    }
  }

  // ---------------------------------------------------------------------
  // The file format
  // ---------------------------------------------------------------------

  /** One `name,timestamp,size,DIRECTION` line. */
  function RecordLine(r: Record): string {
    Join([r.fileName, ToDecimal(Timestamp(r)), ToDecimal(r.fileSize), DirectionName(r.direction)], ',')
  }

  /** The text `saveHistory` writes: the header line, then one line per
      record in list order. */
  function Save(records: seq<Record>): string {
    Unlines([HeaderLine] + RecordLines(records))
  }

  function RecordLines(records: seq<Record>): (r: seq<string>)
    ensures |r| == |records|
    ensures forall i :: 0 <= i < |r| ==> r[i] == RecordLine(records[i])
  {
    seq(|records|, i requires 0 <= i < |records| => RecordLine(records[i]))
  }

  /** Read back line by line, the saved text is the header and then one line
      per record, as long as no name holds a line terminator. */
  lemma LinesOfSave(records: seq<Record>)
    requires forall i :: 0 <= i < |records| ==> NoBreak(records[i].fileName)
    ensures Lines(Save(records)) == [HeaderLine] + RecordLines(records)
  {
    var ls := [HeaderLine] + RecordLines(records);
    forall i | 0 <= i < |ls| ensures NoBreak(ls[i]) {
      if i > 0 {
        RecordLineNoBreak(records[i - 1]);
      }
    }
    LinesOfUnlines(ls);
  }

  lemma RecordLineNoBreak(r: Record)
    requires NoBreak(r.fileName)
    ensures NoBreak(RecordLine(r))
  {
    NoBreakInDecimal(Timestamp(r));
    NoBreakInDecimal(r.fileSize);
    JoinNoBreak([r.fileName, ToDecimal(Timestamp(r)), ToDecimal(r.fileSize), DirectionName(r.direction)]);
  }

  /** One line of `loadHistory`: kept iff it has at least four fields, the
      second and third parse as `long` and the fourth names a direction.
      Fields after the fourth are ignored. The record is created at load time
      `now` and answers `getTimestamp()` with the stored value. */
  function ParseLine(line: string, now: int): (r: Option<Record>)
    ensures r.Some? <==>
      var parts := Split(line, ',');
      |parts| >= 4 && ParseLong(parts[1]).Some? && ParseLong(parts[2]).Some? && DirectionOf(parts[3]).Some?
    ensures r.Some? ==>
      var parts := Split(line, ',');
      && r.value.fileName == parts[0]
      && Some(Timestamp(r.value)) == ParseLong(parts[1])
      && Some(r.value.fileSize) == ParseLong(parts[2])
      && DirectionName(r.value.direction) == parts[3]
      && r.value.createdAt == now && r.value.stampOverride.Some?
  {
    var parts := Split(line, ',');
    if |parts| < 4 then None
    else
      var stamp :- ParseLong(parts[1]);
      var size :- ParseLong(parts[2]);
      var direction :- DirectionOf(parts[3]);
      Some(Record(parts[0], now, size, direction, Some(stamp)))
  }

  /** The records of the lines that parse, in order; the others are skipped
      one by one. */
  function ParseLines(lines: seq<string>, now: int): (r: seq<Record>)
    ensures |r| <= |lines|
  {
    if |lines| == 0 then []
    else
      match ParseLine(lines[0], now)
      case None => ParseLines(lines[1..], now)
      case Some(rec) => [rec] + ParseLines(lines[1..], now)
  }

  /** `loadHistory`: a missing file gives nothing; otherwise the first line
      is skipped whatever it holds. */
  function Load(file: Option<string>, now: int): (r: seq<Record>)
    ensures file.None? ==> r == []
  {
    match file
    case None => []
    case Some(text) =>
      var ls := Lines(text);
      if |ls| == 0 then [] else ParseLines(ls[1..], now)
  }

  /** The records whose line reads back as itself. */
  predicate Storable(r: Record) {
    && ',' !in r.fileName && NoBreak(r.fileName)
    && InLong(Timestamp(r)) && InLong(r.fileSize)
  }

  /** What loading keeps of a record: everything but the creation time. */
  predicate SameEntry(loaded: Record, saved: Record) {
    && loaded.fileName == saved.fileName
    && Timestamp(loaded) == Timestamp(saved)
    && loaded.fileSize == saved.fileSize
    && loaded.direction == saved.direction
  }

  lemma NoBreakInDecimal(n: int)
    ensures NoBreak(ToDecimal(n)) && ',' !in ToDecimal(n)
  {
    var s := ToDecimal(n);
    assert forall i :: 0 <= i < |s| ==> s[i] == '-' || IsDigit(s[i]) by {
      if n < 0 {
        assert forall i :: 1 <= i < |s| ==> s[i] == Digits(-n)[i - 1];
      }
    }
  }

  lemma RecordLineRoundTrip(r: Record, now: int)
    requires Storable(r)
    ensures NoBreak(RecordLine(r))
    ensures ParseLine(RecordLine(r), now).Some?
    ensures SameEntry(ParseLine(RecordLine(r), now).value, r)
    ensures ParseLine(RecordLine(r), now).value.createdAt == now
  {
    var fields := [r.fileName, ToDecimal(Timestamp(r)), ToDecimal(r.fileSize), DirectionName(r.direction)];
    NoBreakInDecimal(Timestamp(r));
    NoBreakInDecimal(r.fileSize);
    assert forall i :: 0 <= i < |fields| ==> ',' !in fields[i];
    SplitOfJoin(fields, ',');
    ParseOfToDecimal(Timestamp(r), LongMin, LongMax);
    ParseOfToDecimal(r.fileSize, LongMin, LongMax);
    DirectionOfName(r.direction);
    RecordLineNoBreak(r);
  }

  lemma {:induction false} JoinNoBreak(fields: seq<string>)
    requires |fields| >= 1
    requires forall i :: 0 <= i < |fields| ==> NoBreak(fields[i])
    ensures NoBreak(Join(fields, ','))
    decreases |fields|
  {
    if |fields| > 1 {
      JoinNoBreak(fields[1..]);
      var head, tail := fields[0] + [','], Join(fields[1..], ',');
      assert Join(fields, ',') == head + tail;
      assert NoBreak(head);
      forall i | 0 <= i < |head + tail| ensures !IsBreak((head + tail)[i]) {
        if i >= |head| {
          assert (head + tail)[i] == tail[i - |head|];
        }
      }
    }
  }

  lemma {:induction false} ParseLinesRoundTrip(records: seq<Record>, now: int)
    requires forall i :: 0 <= i < |records| ==> Storable(records[i])
    ensures var loaded := ParseLines(RecordLines(records), now);
      |loaded| == |records| && forall i :: 0 <= i < |records| ==> SameEntry(loaded[i], records[i]) && loaded[i].createdAt == now
    decreases |records|
  {
    var ls := RecordLines(records);
    if |records| > 0 {
      RecordLineRoundTrip(records[0], now);
      assert ls[1..] == RecordLines(records[1..]);
      ParseLinesRoundTrip(records[1..], now);
    }
  }

  /** Round trip: loading what was saved gives back every record's name,
      timestamp, size and direction, in order, as long as no name holds a
      comma or a line terminator. */
  lemma LoadOfSave(records: seq<Record>, now: int)
    requires forall i :: 0 <= i < |records| ==> Storable(records[i])
    ensures |Load(Some(Save(records)), now)| == |records|
    ensures forall i :: 0 <= i < |records| ==>
      SameEntry(Load(Some(Save(records)), now)[i], records[i])
  {
    var ls := [HeaderLine] + RecordLines(records);
    LinesOfSave(records);
    assert ls[1..] == RecordLines(records);
    ParseLinesRoundTrip(records, now);
  }

  /** A comma in a name shifts the fields: a record saved under the name
      "x,5,7,SENT" comes back as a different record, named "x", sent, of 7
      bytes, with timestamp 5. */
  lemma CommaInNameForgesRecord(now: int)
    ensures ParseLine(RecordLine(Record("x,5,7,SENT", 100, 9, Received, None)), now)
         == Some(Record("x", now, 7, Sent, Some(5)))
  {
    var fields := ["x", "5", "7", "SENT", "100", "9", "RECEIVED"];
    var line := RecordLine(Record("x,5,7,SENT", 100, 9, Received, None));
    ForgedLine();
    ForgedSplit(fields);
    assert Split(line, ',') == fields;
    assert ParseLong(fields[1]) == Some(5) by { SmallParse(); }
    assert ParseLong(fields[2]) == Some(7) by { SmallParse(); }
    assert DirectionOf(fields[3]) == Some(Sent);
    var r := ParseLine(line, now);
    assert r.Some?;
    assert r.value.fileName == "x" && r.value.fileSize == 7 && r.value.direction == Sent;
  }

  lemma SmallParse()
    ensures ParseLong("5") == Some(5) && ParseLong("7") == Some(7)
  {
    assert DigitsValue("5") == 5 && DigitsValue("7") == 7;
  }

  lemma ForgedLine()
    ensures RecordLine(Record("x,5,7,SENT", 100, 9, Received, None))
         == Join(["x", "5", "7", "SENT", "100", "9", "RECEIVED"], ',')
  {
    SmallDecimals();
    var name := ["x", "5", "7", "SENT"];
    var rest := ["100", "9", "RECEIVED"];
    JoinFour("x", "5", "7", "SENT");
    assert "x,5,7,SENT" == Join(name, ',');
    assert RecordLine(Record("x,5,7,SENT", 100, 9, Received, None)) == Join([Join(name, ',')] + rest, ',');
    JoinFlatten(name, rest, ',');
    assert name + rest == ["x", "5", "7", "SENT", "100", "9", "RECEIVED"];
  }

  lemma ForgedSplit(fields: seq<string>)
    requires fields == ["x", "5", "7", "SENT", "100", "9", "RECEIVED"]
    ensures Split(Join(fields, ','), ',') == fields
  {
    assert forall i :: 0 <= i < |fields| ==> ',' !in fields[i];
    SplitOfJoin(fields, ',');
  }

  lemma SmallDecimals()
    ensures ToDecimal(100) == "100" && ToDecimal(9) == "9"
  {
    assert Digits(10) == "10";
  }

  lemma JoinFour(a: string, b: string, c: string, d: string)
    ensures Join([a, b, c, d], ',') == a + "," + b + "," + c + "," + d
  {
    var fs := [a, b, c, d];
    assert fs[1..] == [b, c, d] && fs[1..][1..] == [c, d] && fs[1..][1..][1..] == [d];
    assert Join([d], ',') == d;
    assert Join([c, d], ',') == c + [','] + d;
    assert Join([b, c, d], ',') == b + [','] + c + [','] + d;
  }

  /** Joining a joined group as one field is joining the group's fields. */
  lemma {:induction false} JoinFlatten(group: seq<string>, rest: seq<string>, d: char)
    requires |group| >= 1 && |rest| >= 1
    ensures Join([Join(group, d)] + rest, d) == Join(group + rest, d)
    decreases |group|
  {
    if |group| > 1 {
      JoinFlatten(group[1..], rest, d);
      assert (group + rest)[1..] == group[1..] + rest;
      assert ([Join(group[1..], d)] + rest)[1..] == rest;
      assert ([Join(group, d)] + rest)[1..] == rest;
    } else {
      assert (group + rest)[1..] == rest;
      assert ([Join(group, d)] + rest)[1..] == rest;
    }
  }

  // ---------------------------------------------------------------------
  // The manager
  // ---------------------------------------------------------------------

  datatype Manager = Manager(records: seq<Record>, listeners: seq<int>, file: Option<string>)

  datatype Notification = Notification(listener: int, history: seq<Record>)

  /** The state after a change, and the notifications it caused, in order. */
  datatype Change = Change(manager: Manager, notified: seq<Notification>)

  /** `new TransferHistoryManager()`: the history is what the file holds. */
  function Open(file: Option<string>, now: int): (m: Manager)
    ensures m.records == Load(file, now) && m.listeners == [] && m.file == file
  {
    Manager(Load(file, now), [], file)
  }

  /** `getTransferHistory()`. */
  function History(m: Manager): seq<Record> {
    m.records
  }

  function Notify(listeners: seq<int>, history: seq<Record>): (r: seq<Notification>)
    ensures |r| == |listeners|
    ensures forall i :: 0 <= i < |r| ==> r[i] == Notification(listeners[i], history)
  {
    seq(|listeners|, i requires 0 <= i < |listeners| => Notification(listeners[i], history))
  }

  /** Saving, then telling every listener once about the new list. */
  function Commit(m: Manager, records: seq<Record>): (c: Change)
    ensures c.manager == Manager(records, m.listeners, Some(Save(records)))
    ensures c.notified == Notify(m.listeners, records)
  {
    Change(Manager(records, m.listeners, Some(Save(records))), Notify(m.listeners, records))
  }

  /** `addTransferRecord(r)`: appended at the end, the earlier records
      untouched and in order; saved; each listener told once. */
  function AddRecord(m: Manager, r: Record): (c: Change)
    ensures |History(c.manager)| == |History(m)| + 1
    ensures History(m) <= History(c.manager) && History(c.manager)[|History(m)|] == r
    ensures c.manager.listeners == m.listeners
    ensures c.manager.file == Some(Save(History(c.manager)))
    ensures |c.notified| == |m.listeners|
    ensures forall i :: 0 <= i < |c.notified| ==>
      c.notified[i].listener == m.listeners[i] && c.notified[i].history == History(c.manager)
  {
    Commit(m, m.records + [r])
  }

  /** `clearHistory()`. */
  function ClearHistory(m: Manager): (c: Change)
    ensures History(c.manager) == []
    ensures c.manager.listeners == m.listeners
    ensures c.manager.file == Some(Save([]))
    ensures |c.notified| == |m.listeners|
    ensures forall i :: 0 <= i < |c.notified| ==> c.notified[i].history == []
  {
    Commit(m, [])
  }

  function AddListener(m: Manager, listener: int): (r: Manager)
    ensures r.listeners == m.listeners + [listener]
    ensures r.records == m.records && r.file == m.file
  {
    m.(listeners := m.listeners + [listener])
  }

  /** `List.remove(Object)`: the first occurrence only. */
  /** Where `x` first occurs in `ls`. */
  function FirstIndex(ls: seq<int>, x: int): (k: nat)
    requires x in ls
    ensures k < |ls| && ls[k] == x && x !in ls[..k]
  {
    if ls[0] == x then 0
    else
      var k := 1 + FirstIndex(ls[1..], x);
      assert ls[..k] == [ls[0]] + ls[1..][..k - 1];
      k
  }

  /** `List.remove(Object)`: the first occurrence goes and the rest keep
      their order; without an occurrence nothing changes. */
  function RemoveFirst(ls: seq<int>, x: int): (r: seq<int>)
    ensures x in ls ==> r == ls[..FirstIndex(ls, x)] + ls[FirstIndex(ls, x) + 1..]
    ensures x !in ls ==> r == ls
  {
    if |ls| == 0 then []
    else if ls[0] == x then ls[1..]
    else
      var rest := RemoveFirst(ls[1..], x);
      assert ls == [ls[0]] + ls[1..];
      if x in ls[1..] then
        var k := FirstIndex(ls[1..], x);
        assert FirstIndex(ls, x) == k + 1;
        assert ls[..k + 1] == [ls[0]] + ls[1..][..k];
        assert ls[k + 2..] == ls[1..][k + 1..];
        [ls[0]] + rest
      else [ls[0]] + rest
  }

  /** Removing one occurrence takes exactly one copy of it from the list. */
  lemma RemoveFirstTakesOne(ls: seq<int>, x: int)
    requires x in ls
    ensures multiset(RemoveFirst(ls, x)) == multiset(ls) - multiset{x}
    ensures |RemoveFirst(ls, x)| == |ls| - 1
  {
    var k := FirstIndex(ls, x);
    var a, b := ls[..k], ls[k + 1..];
    var r := RemoveFirst(ls, x);
    assert r == a + b;
    assert ls == a + [x] + b;
    assert multiset(ls) == multiset(a) + multiset{x} + multiset(b);
  }

  /** `removeListener` (src/utils/TransferHistoryManager.java:67-69). */
  function RemoveListener(m: Manager, listener: int): (r: Manager)
    ensures r.records == m.records && r.file == m.file
    ensures listener in m.listeners ==>
      r.listeners == m.listeners[..FirstIndex(m.listeners, listener)] + m.listeners[FirstIndex(m.listeners, listener) + 1..]
    ensures listener !in m.listeners ==> r == m
  {
    m.(listeners := RemoveFirst(m.listeners, listener))
  }

  /** A history survives a restart: after an add, opening the saved file
      gives the same entries back when every record is storable. */
  lemma AddSurvivesRestart(m: Manager, r: Record, later: int)
    requires forall i :: 0 <= i < |m.records| ==> Storable(m.records[i])
    requires Storable(r)
    ensures var reopened := Open(AddRecord(m, r).manager.file, later);
      |History(reopened)| == |History(m)| + 1
      && (forall i :: 0 <= i < |History(m)| ==> SameEntry(History(reopened)[i], History(m)[i]))
      && SameEntry(History(reopened)[|History(m)|], r)
  {
    var all := m.records + [r];
    LoadOfSave(all, later);
  }

  /** A cleared history stays cleared after a restart. */
  lemma ClearSurvivesRestart(m: Manager, later: int)
    ensures History(Open(ClearHistory(m).manager.file, later)) == []
  {
    LinesOfSave([]);
    assert [HeaderLine] + RecordLines([]) == [HeaderLine];
  }
}
