/** An input stream as the copy loops see it: the bytes still to come, and
    how many of them each successful `read` hands over. `InputStream.read`
    with a positive length blocks until it can return at least one byte and
    may return fewer than asked; at the end it returns -1. How many bytes a
    read returns is the network's (or the file system's) choice, so it is a
    parameter of the stream: the `grants`, one per read, consulted in order;
    once they run out, a read returns as much as is asked for and available. */
module ByteStream {
  import opened Bytes

  datatype Stream = Stream(data: seq<byte>, grants: seq<nat>)

  datatype ReadResult = Eof | Chunk(bytes: seq<byte>)

  function Min(a: int, b: int): int { if a <= b then a else b }
  function Max(a: int, b: int): int { if a >= b then a else b }

  /** `read(buffer, 0, want)`: end of stream, or between 1 and `want` of the
      next bytes, which are removed from the stream. */
  function Read(s: Stream, want: nat): (r: (ReadResult, Stream))
    requires want >= 1
    ensures r.0.Eof? <==> |s.data| == 0
    ensures r.0.Eof? ==> r.1 == s
    ensures r.0.Chunk? ==> 1 <= |r.0.bytes| <= want
    ensures r.0.Chunk? ==> s.data == r.0.bytes + r.1.data
  {
    if |s.data| == 0 then (Eof, s)
    else
      var grant := if |s.grants| > 0 then s.grants[0] else want;
      var n := Max(1, Min(grant, Min(want, |s.data|)));
      assert s.data == s.data[..n] + s.data[n..];
      (Chunk(s.data[..n]), Stream(s.data[n..], if |s.grants| > 0 then s.grants[1..] else []))
  }

  /** Reads that find what they ask for hand over the whole stream in order,
      whatever the grants: reading is lossless. */
  lemma {:induction false} ReadAllInOrder(s: Stream, want: nat)
    requires want >= 1
    ensures Drain(s, want) == s.data
    decreases |s.data|
  {
    var (r, next) := Read(s, want);
    if r.Chunk? {
      ReadAllInOrder(next, want);
    }
  }

  /** Everything a reader gets by reading `want` at a time until the end. */
  function Drain(s: Stream, want: nat): seq<byte>
    requires want >= 1
    decreases |s.data|
  {
    var (r, next) := Read(s, want);
    if r.Eof? then [] else r.bytes + Drain(next, want)
  }

  /** The sizes successive reads of `want` bytes return, up to the end. */
  function ReadSizes(s: Stream, want: nat): (r: seq<nat>)
    requires want >= 1
    ensures |s.data| > 0 <==> |r| > 0
    decreases |s.data|
  {
    var (res, next) := Read(s, want);
    if res.Eof? then [] else [|res.bytes|] + ReadSizes(next, want)
  }

  /** One call of `read(buffer, 0, want)` as a loop performs it: what it
      returns, the stream after it, and how it fits the run of reads. */
  method ReadOnce(s: Stream, want: nat) returns (res: ReadResult, next: Stream)
    requires want >= 1
    ensures res.Eof? <==> |s.data| == 0
    ensures res.Eof? ==> ReadSizes(s, want) == [] && next == s
    ensures res.Chunk? ==>
      1 <= |res.bytes| <= want
      && s.data == res.bytes + next.data
      && ReadSizes(s, want) == [|res.bytes|] + ReadSizes(next, want)
  {
    res, next := Read(s, want).0, Read(s, want).1;
  }

  /** The sizes successive reads return when each asks for `cap` bytes but
      never for more than the `remaining` count still wanted, until nothing
      remains or the stream ends. */
  function BoundedReadSizes(s: Stream, cap: nat, remaining: int): (r: seq<nat>)
    requires cap >= 1
    ensures |r| == 0 <==> remaining <= 0 || |s.data| == 0
    decreases |s.data|
  {
    if remaining <= 0 then []
    else
      var (res, next) := Read(s, Min(cap, remaining));
      if res.Eof? then [] else [|res.bytes|] + BoundedReadSizes(next, cap, remaining - |res.bytes|)
  }

  /** One read of a loop that asks for `min(cap, remaining)` bytes, as the
      receiver's loop does, and how it continues that loop's run of reads. */
  method ReadChunk(s: Stream, cap: nat, remaining: int) returns (res: ReadResult, next: Stream)
    requires cap >= 1 && remaining >= 1
    ensures res.Eof? <==> |s.data| == 0
    ensures res.Eof? ==> next == s && BoundedReadSizes(s, cap, remaining) == []
    ensures res.Chunk? ==>
      1 <= |res.bytes| <= Min(cap, remaining) && s.data == res.bytes + next.data
      && BoundedReadSizes(s, cap, remaining) == [|res.bytes|] + BoundedReadSizes(next, cap, remaining - |res.bytes|)
  {
    res, next := Read(s, Min(cap, remaining)).0, Read(s, Min(cap, remaining)).1;
  }

  /** Consuming `n` bytes for a header leaves the grants alone:
      `DataInputStream` reads straight from the socket stream. */
  function Skip(s: Stream, n: nat): (r: Stream)
    requires n <= |s.data|
    ensures s.data == s.data[..n] + r.data
    ensures r.grants == s.grants
  {
    assert s.data == s.data[..n] + s.data[n..];
    Stream(s.data[n..], s.grants)
  }
}
