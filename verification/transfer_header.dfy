/** The header in front of every file on the transfer connection:

      [u16 big-endian body length][file name, modified UTF-8][i64 big-endian size][payload]

    The sender produces it with `writeUTF(name)` then `writeLong(size)`
    (src/network/FileSender.java:95-99), the receiver consumes it with
    `readUTF()` then `readLong()` (src/network/FileReceiver.java:160-163).
    The size is Java's signed `long`; nothing but the sender's honesty makes
    it non-negative. */
module TransferHeader {
  import opened Wrappers
  import opened JavaText
  import opened Bytes
  import ModifiedUtf8

  datatype Header = Header(fileName: string, fileSize: int)

  /** What can go wrong while writing or reading the header. All of them are
      `IOException`s in Java. */
  datatype HeaderError =
    | NameTooLong   // UTFDataFormatException from writeUTF: body over 65535 bytes
    | Truncated     // EOFException: the stream ended inside the header
    | MalformedName // UTFDataFormatException from readUTF

  const MaxUtfLength: int := 0xFFFF

  /** `writeUTF(s)`: the two-byte length, then the body. A body longer than
      65535 bytes is refused before anything is written. */
  function WriteUtf(s: string): (r: Result<seq<byte>, HeaderError>)
    ensures r.Ok? <==> |ModifiedUtf8.Encode(s)| <= MaxUtfLength
    ensures r.Ok? ==> |r.value| == 2 + |ModifiedUtf8.Encode(s)|
    ensures r.Ok? ==> r.value[2..] == ModifiedUtf8.Encode(s)
  {
    var body := ModifiedUtf8.Encode(s);
    if |body| > MaxUtfLength then Err(NameTooLong)
    else Ok(EncodeU16(|body|) + body)
  }

  /** `readUTF()` at the start of `bs`: the string and the number of bytes it
      took. */
  function ReadUtf(bs: seq<byte>): (r: Result<(string, nat), HeaderError>)
    ensures r.Ok? ==> 2 <= r.value.1 <= |bs|
    ensures |bs| < 2 ==> r == Err(Truncated)
  {
    if |bs| < 2 then Err(Truncated)
    else
      var len := FromBigEndian(bs[..2]);
      if |bs| < 2 + len then Err(Truncated)
      else
        match ModifiedUtf8.Decode(bs[2..2 + len])
        case None => Err(MalformedName)
        case Some(s) => Ok((s, 2 + len))
  }

  /** `readLong()` at the start of `bs`. */
  function ReadLong(bs: seq<byte>): (r: Result<int, HeaderError>)
    ensures r.Ok? <==> |bs| >= 8
    ensures r.Ok? ==> InLong(r.value)
  {
    if |bs| < 8 then Err(Truncated) else Ok(DecodeLong(bs[..8]))
  }

  /** The bytes the sender writes before the payload. */
  function EncodeHeader(h: Header): (r: Result<seq<byte>, HeaderError>)
    requires InLong(h.fileSize)
    ensures r.Ok? <==> |ModifiedUtf8.Encode(h.fileName)| <= MaxUtfLength
    ensures r.Ok? ==> |r.value| == 10 + |ModifiedUtf8.Encode(h.fileName)|
  {
    var name :- WriteUtf(h.fileName);
    Ok(name + EncodeLong(h.fileSize))
  }

  /** The receiver's header read: the header and the number of bytes it
      took; the payload starts right after them. */
  function DecodeHeader(bs: seq<byte>): (r: Result<(Header, nat), HeaderError>)
    ensures r.Ok? ==> 10 <= r.value.1 <= |bs|
    ensures r.Ok? ==> InLong(r.value.0.fileSize)
  {
    var (name, n) :- ReadUtf(bs);
    var size :- ReadLong(bs[n..]);
    Ok((Header(name, size), n + 8))
  }

  /** Round trip: whatever payload follows, the receiver reads back the
      header the sender wrote and stops exactly where the payload begins. */
  lemma DecodeOfEncodeHeader(h: Header, payload: seq<byte>)
    requires InLong(h.fileSize)
    requires EncodeHeader(h).Ok?
    ensures DecodeHeader(EncodeHeader(h).value + payload) == Ok((h, |EncodeHeader(h).value|))
  {
    var w := EncodeHeader(h).value;
    var bs := w + payload;
    var body := ModifiedUtf8.Encode(h.fileName);
    var len := |body|;
    assert bs[..2] == EncodeU16(len);
    assert bs[2..2 + len] == body;
    ModifiedUtf8.DecodeOfEncode(h.fileName);
    assert ReadUtf(bs) == Ok((h.fileName, 2 + len));
    assert bs[2 + len..][..8] == EncodeLong(h.fileSize);
    LongRoundTrip(h.fileSize);
  }

  /** A header cut short anywhere is a framing error, never a header: this is
      the `EOFException` that aborts one connection. */
  lemma TruncatedHeaderFails(h: Header, k: nat)
    requires InLong(h.fileSize)
    requires EncodeHeader(h).Ok?
    requires k < |EncodeHeader(h).value|
    ensures DecodeHeader(EncodeHeader(h).value[..k]) == Err(Truncated)
  {
    var w := EncodeHeader(h).value;
    var bs := w[..k];
    var len := |ModifiedUtf8.Encode(h.fileName)|;
    if k >= 2 {
      assert bs[..2] == w[..2] == EncodeU16(len);
      if k >= 2 + len {
        ModifiedUtf8.DecodeOfEncode(h.fileName);
        assert bs[2..2 + len] == w[2..2 + len] == ModifiedUtf8.Encode(h.fileName);
        assert ReadUtf(bs) == Ok((h.fileName, 2 + len));
      }
    }
  }

  /** A name whose body is too long makes `writeUTF` throw, so no header is
      written at all. */
  lemma LongNameHasNoHeader(h: Header)
    requires InLong(h.fileSize)
    requires |h.fileName| > MaxUtfLength
    ensures EncodeHeader(h) == Err(NameTooLong)
  {
    assert |ModifiedUtf8.Utf16(h.fileName)| >= |h.fileName|;
  }
}
