# FileBeam and its sharing backend, modelled in Dafny

FileBeam is a LAN file-transfer tool written in Java. The sender and the
receiver find each other with a UDP discovery exchange. They then move one
file per TCP connection, framed by a small header:

    [u16 big-endian body length][file name, Java modified UTF-8][i64 big-endian size][payload]

Both sides report progress through a throttling rule. The network sender keeps
a CSV history of the files it sends. A companion Spring service stores uploads, shares them
through expiring tokens, and serves them with a Content-Disposition header.

This project models the deterministic core of both parts:

- **The transfer header codec.**
  - `Bytes`: big-endian `u16` and two's-complement `i64` layouts.
  - `ModifiedUtf8`: `writeUTF`/`readUTF` bodies over UTF-16 code units.
  - `TransferHeader`: the whole header.
- **The copy loops.**
  - `FileSender`: the network sender's chunk loop.
  - `FileReceiver`: the receiver's bounded copy loop.
  - `LegacySender`, `LegacyReceiver`: the console versions.
  - `BackupSender`: the backup sender.
  - All of them run over an abstract input stream (`ByteStream`).
- **The progress rule** (`Progress`).
- **The receiver's start/stop flag**, as an event machine (`ReceiverControl`).
- **The discovery text protocol and the discovery service life cycle** (`PeerDiscovery`).
- **The transfer history and its CSV format** (`TransferHistory`, `TransferRecord`).
- **The extension helper** (`FileUtils`).
- **The backend services**, over repositories kept as maps:
  - `FileService`;
  - `SharedFileService`;
  - `SharedFileController`;
  - `AuthService`.
- **Java library behaviour the code relies on.**
  - `JavaText`: decimal print and parse, `String.split` on one character, `lastIndexOf`, `trim`.
  - `Paths`: `Paths.get`, `resolve`, `normalize` and `startsWith` on a Unix file system.

Modelling conventions:

- Sockets, threads and the file system are parameters.
- A stream is its bytes plus the read sizes the network chooses.
- A worker's life is a sequence of events.
- "now" is an integer count of seconds.
- UUIDs and share tokens are values the caller guarantees fresh.
- The password encoder, the matcher, the token issuer and `UriUtils.encode` are function parameters.

Behaviours of the code that are easy to miss:

- A stream that ends before the declared size is reported as a successful receive.
- A final 100 % progress value is not guaranteed.
- The size is a signed `long` that nothing forces to be non-negative.
- The network receiver records no history.
- A received name holding NUL makes `Paths.get` throw an unchecked exception, which ends the receiving worker.

## Model

Source paths are relative to the repository root. `B/` in the states column abbreviates `src/main/java/com/cs447/securefiletransfer/backend/`.

| member | source | states |
|---|---|---|
| Bytes.ToBigEndian | src/network/FileSender.java:95-99 | exactly `k` bytes, most significant first, of a value below 256^k |
| Bytes.FromBigEndian | src/network/FileReceiver.java:160-163 | the value of big-endian bytes is below 256^n |
| Bytes.FromToBigEndian | src/network/FileReceiver.java:160-163 | reading back `k` written bytes gives the value |
| Bytes.ToFromBigEndian | src/network/FileSender.java:95-99 | writing back the value of `n` bytes gives the bytes |
| Bytes.EncodeU16 | src/network/FileSender.java:95 | the `writeUTF` length prefix is two bytes whose big-endian value is the body length |
| Bytes.EncodeLong | src/network/FileSender.java:98-99 | `writeLong` gives eight bytes, with a top byte below 0x80 exactly for non-negative values |
| Bytes.DecodeLong | src/network/FileReceiver.java:163 | `readLong` gives a `long` that is non-negative exactly when the top byte is below 0x80 |
| Bytes.FirstByteOfLong | src/network/FileReceiver.java:163 | eight bytes are below 2^63 exactly when the top byte is below 0x80 |
| Bytes.HighByteSplit | src/network/FileReceiver.java:163 | the big-endian value is the first byte times the weight of the rest, plus the rest |
| Bytes.LongRoundTrip | src/network/FileSender.java:98-99 | `readLong` of what `writeLong` wrote is the value, for every `long` |
| Bytes.LongBytesRoundTrip | src/network/FileReceiver.java:163 | `writeLong` of what `readLong` read is the bytes, for all eight-byte inputs |
| ByteStream.Read | src/network/FileReceiver.java:181-183 | a read returns end of stream exactly when no byte is left, and otherwise between 1 and the requested count of the next bytes, removed from the stream |
| ByteStream.ReadAllInOrder | src/network/FileSender.java:111-112 | reading until the end hands over the whole stream in order, whatever sizes the reads return |
| ByteStream.ReadSizes | src/network/FileSender.java:111 | the run of read sizes is empty exactly when the stream is |
| ByteStream.ReadOnce | src/network/FileSender.java:111 | one read as the loop performs it: end of stream or a chunk, and how it continues the run of read sizes |
| ByteStream.ReadChunk | src/network/FileReceiver.java:181-183 | one read of at most the requested size splits the stream into the chunk and the rest, and is the first of the run of reads the size bounds |
| ByteStream.BoundedReadSizes | src/network/FileReceiver.java:181-183 | the run of reads of at most `cap` and at most the bytes still wanted is empty exactly when nothing is wanted or the stream is empty |
| ByteStream.Skip | src/network/FileReceiver.java:160-163 | consuming header bytes keeps the rest and the network's read sizes |
| ModifiedUtf8.CharUnits | src/network/FileSender.java:95 | a character is one UTF-16 unit below U+10000 and two otherwise |
| ModifiedUtf8.FromUtf16OfUtf16 | src/network/FileReceiver.java:160 | decoding the UTF-16 form of a string gives the string back |
| ModifiedUtf8.EncodeUnit | src/network/FileSender.java:95 | a unit takes one byte for U+0001..U+007F, two up to U+07FF and for U+0000, three above; no byte is zero |
| ModifiedUtf8.EncodeUnits | src/network/FileSender.java:95 | the `writeUTF` body is at least one byte per unit and holds no zero byte |
| ModifiedUtf8.DecodeUnits | src/network/FileReceiver.java:160 | `readUTF`'s decoding yields at most one unit per byte |
| ModifiedUtf8.DecodeEncodedUnit | src/network/FileReceiver.java:160 | decoding an encoded unit followed by any bytes yields that unit followed by the decoding of the bytes |
| ModifiedUtf8.DecodeUnitsOfEncodeUnits | src/network/FileReceiver.java:160 | decoding the bytes of any unit sequence gives the units back |
| ModifiedUtf8.DecodeOfEncode | src/network/FileReceiver.java:160 | `Decode` (`readUTF`) of the body `Encode` (`writeUTF`) produced gives the string back, for every string |
| ModifiedUtf8.NulIsTwoBytes | src/network/FileSender.java:95 | NUL is written as C0 80 |
| ModifiedUtf8.SupplementaryIsSixBytes | src/network/FileSender.java:95 | U+1F600 is written as two three-byte surrogate groups |
| TransferHeader.WriteUtf | src/network/FileSender.java:95 | `writeUTF` fails exactly when the body exceeds 65535 bytes; otherwise it writes the two-byte length and then the body |
| TransferHeader.ReadUtf | src/network/FileReceiver.java:160 | `readUTF` consumes at least its two length bytes and fails on fewer than two bytes |
| TransferHeader.ReadLong | src/network/FileReceiver.java:163 | `readLong` succeeds exactly on eight or more bytes and yields a `long` |
| TransferHeader.EncodeHeader | src/network/FileSender.java:95-99 | the header exists exactly when the name body fits and is ten bytes longer than the name body |
| TransferHeader.DecodeHeader | src/network/FileReceiver.java:160-163 | a decoded header takes at least ten bytes and its size is a `long` |
| TransferHeader.DecodeOfEncodeHeader | src/network/FileReceiver.java:160-163 | whatever payload follows, the receiver reads back the header the sender wrote and stops where the payload begins |
| TransferHeader.TruncatedHeaderFails | src/network/FileReceiver.java:160-219 | a header cut short anywhere is a truncation error, the per-connection `IOException` |
| TransferHeader.LongNameHasNoHeader | src/network/FileSender.java:95 | a name longer than 65535 characters gets no header at all |
| Progress.StepConsistent | src/network/FileReceiver.java:190-199 | one chunk keeps the tracker consistent: `last` is the last value emitted and never exceeds the current percentage, and the emitted values climb |
| Progress.RunConsistent | src/network/FileSender.java:111-123 | after any chunks, `Run` (the rule applied chunk by chunk by `Step`) has total equal to their sum and a consistent tracker |
| Progress.EmissionsAreMonotonePercentages | src/network/FileSender.java:117-123 | with no more bytes than the declared size, the emitted values are non-decreasing and within 0..100 |
| Progress.NoFinalHundred | src/network/FileSender.java:117-123 | a 100-byte file in chunks of 97 and 3 emits only 97 |
| Progress.ByteTestRepeatsPercentage | src/network/FileReceiver.java:194-198 | the byte test emits 0 twice on a 10^8-byte file in two chunks of 300000 bytes |
| Progress.UniformOnePercentChunks | src/network/FileSender.java:117-123 | after `k` chunks of 4096 bytes of a 409600-byte file the total, `last` and every sixth percentage are as computed |
| Progress.StopsAtNinetySix | src/network/FileSender.java:117-123 | the whole 409600-byte file emits 6, 12, ..., 96 and never 100 |
| ReceiverControl.Apply | src/network/FileReceiver.java:47-91 | `start` answers true exactly when the flag is false and never sets it; only a bind sets the flag or opens the server socket; a failed bind or an ending worker clears the flag and closes the socket; `stop` clears the flag and only logs when it was already false (also lines 137-138, 228-236) |
| ReceiverControl.RunningOnlyAfterBind | src/network/FileReceiver.java:137-138 | after any events the flag is true only if it already was or a bind succeeded |
| ReceiverControl.StopIdempotent | src/network/FileReceiver.java:67-71 | `stop` twice is `stop` once, and the second one reports not running |
| ReceiverControl.StopBeforeBindIsLost | src/network/FileReceiver.java:55-56 | a `stop` between `start` and the bind only logs, and the receiver then runs (also lines 68-71, 137-138) |
| ReceiverControl.FlagLiesAfterDoubleStart | src/network/FileReceiver.java:47-57 | two starts and one failed bind leave the flag false and the server socket closed by the failing worker's `finally`, while the first worker is still alive with no socket to accept on, so a third start is accepted (also lines 137, 228-236) |
| FileReceiver.CopyPayload | src/network/FileReceiver.java:172-200 | the chunks are the first of the reads of `min(4096, fileSize - total)` bytes; the file is a prefix of the payload, no longer than the declared size; the chunks are 1..4096 bytes and add up to it; the progress is the shared rule's emissions; completed, every such read was performed and the file is the payload cut at the size, or all of it when shorter; a cancelled read is consumed and dropped and is one of those reads; an `IOException` strikes only at the read or write after the last written chunk, before the size is reached; a size of 0 or less reads nothing |
| FileReceiver.CopyLoop | src/network/FileReceiver.java:181-190 | `Looped`: the loop's reads are the run of `min(4096, fileSize - total)`-byte reads and the chunks its first; prefix of the payload, at most the declared size, chunk sizes adding up, no fault and no cancellation before the last chunk, and how it stopped: completed after the whole run, cancelled at a read of the run, or failed at the faulting read or write |
| FileReceiver.ReceiveOne | src/network/FileReceiver.java:150-204 | `SessionOf`, which allows one session per connection: the header is read before any payload; a header error fails only this connection; a name `Paths.get` refuses gives no destination; otherwise the destination is the save directory joined with the received name and a file that cannot be created fails the connection; a receive succeeds with the payload cut at the size, also when the stream ended early; a failed or cancelled transfer keeps a prefix shorter than the size, stopping at the read the fault or cancellation meets (also lines 213-220) |
| FileReceiver.ReceivePayload | src/network/FileReceiver.java:172-204 | once the file is open, the session is received, failed or interrupted, as the run of reads decides: received after the whole run with the payload cut at the size and climbing progress, failed only on an I/O fault at the read or write it strikes, interrupted only on a cancellation seen at a read, each keeping a prefix of the payload |
| FileReceiver.SessionOfUnique | src/network/FileReceiver.java:150-220 | a connection (its bytes, the read sizes, creation, cancellation and fault) allows exactly one session |
| FileReceiver.CopyEndUnique | src/network/FileReceiver.java:181-200 | two ends of the copy loop on the same connection write the same chunks and the same file, report the same progress and stop the same way |
| FileReceiver.CancelAtSecondRead | src/network/FileReceiver.java:181-187 | two bytes granted one per read, with the cancellation seen when the second read returns, leave the transfer interrupted after one byte |
| FileReceiver.FaultAtSecondRead | src/network/FileReceiver.java:181-183 | with the second read throwing, the transfer fails after one byte |
| FileReceiver.TwoSingleReads | src/network/FileReceiver.java:160-183 | a header followed by two bytes granted one per read decodes to the header and leaves two reads of one byte |
| FileReceiver.OneByteReads | src/network/FileReceiver.java:181-183 | two bytes granted one per read are read as two chunks of one byte, though each read asks for up to 2 |
| FileReceiver.Serve | src/network/FileReceiver.java:135-253 | no bind, no sessions; one session per accepted connection, in order; the loop ends at a stop, at a cancelled transfer or at a name `Paths.get` refuses, the last two only as the final session, since neither exception is an `IOException`; every other failure costs its connection only; `done()` appends a final 0 to the progress whatever happened |
| FileReceiver.AcceptLoopDecided | src/network/FileReceiver.java:140-222 | the accept events decide the sessions, the reason the loop ended and the events it used |
| FileReceiver.SessionsOfUnique | src/network/FileReceiver.java:140-222 | a list of connections allows one list of sessions |
| FileReceiver.ConnsAreAccepted | src/network/FileReceiver.java:142-150 | the connections served are exactly the accepted ones, as many as the events only when every event is an accept |
| FileReceiver.ConnsGrow | src/network/FileReceiver.java:142-150 | later events keep the connections accepted so far, in order |
| FileReceiver.ServeGuarded | src/network/FileReceiver.java:213-220 | with the refused name caught beside the `IOException`s, a bad name costs its connection only, and only a stop or a cancelled transfer ends the loop |
| FileReceiver.NulNameEndsWorker | src/network/FileReceiver.java:160-169 | a header starting 00 01 00 names the file NUL; `readUTF` accepts it, `Paths.get` refuses it, and that session ends the worker |
| FileReceiver.TruncationIsReportedAsSuccess | src/network/FileReceiver.java:181-203 | on a connection that is not cancelled and meets no I/O error, whose file can be created under a name `Paths.get` accepts, a payload shorter than the declared size gives a session reported as received, with the file holding exactly the bytes that arrived |
| FileReceiver.NameIsNotSanitised | src/network/FileReceiver.java:169 | every element of the received name, ".." included, ends up in the destination path |
| FileSender.SendChunks | src/network/FileSender.java:105-124 | chunks of 1..4096 bytes go out in file order and add up to what was sent; the loop finishes exactly when no read fails and no zero size is divided by; a zero size with content throws after the first chunk; the progress is the shared rule's |
| FileSender.ChunkLoop | src/network/FileSender.java:111-114 | bytes written equal bytes read, as a prefix of the file; all of it unless a read or write fails |
| FileSender.SendFile | src/network/FileSender.java:83-154 | a port outside 0..65535 throws before anything is sent; success exactly when the port, the connection, the file, the header and every chunk succeed; the wire always carries a prefix of header then file; a connection breaking inside the header leaves part of the header, no progress and no record; one history record only on success with a manager; `done()` ends the progress with 0; with an honest size the progress climbs within 0..100 |
| FileSender.Transmit | src/network/FileSender.java:86-138 | a failed connection, file open or too-long name sends nothing; a connection breaking inside `writeUTF`/`writeLong` leaves a strict prefix of the header and the single error; otherwise the whole header precedes the file bytes in order, and the transfer is delivered exactly when no chunk fails and no zero size is divided by |
| FileSender.Deliver | src/network/FileSender.java:95-124 | after the header, the file goes out in order; delivered exactly when no chunk fails and no zero size is divided by |
| FileSender.EmptyFileSendsHeaderOnly | src/network/FileSender.java:98-111 | an empty file sends just the header with no division, and the progress is only the final 0 |
| LegacyReceiver.StartReceiving | src/FileReceiver.java:30-95 | a bind failure ends it at once; each connection gets the one session `SessionOf` allows for it, with reads of `min(4096, fileSize - total)` bytes, header, creation and mid-transfer failures included, with the payload cut at the declared size on success; a name `Paths.get` refuses ends it by an exception, as the last session |
| LegacySender.SendFile | src/FileSender.java:16-65 | no connection unless the chooser approved; always port 5050; the header, then the file in order, or a strict prefix of the header when the connection breaks inside it; never a crash, since nothing divides |
| LegacySender.ZeroLengthStillSendsContent | src/FileSender.java:42-53 | a file reporting size 0 still has all its content sent |
| BackupSender.LiteralRuleIsProgressRule | src/backup/FileSender.java:16-18 | the copied literals equal the configuration constants, so `LiteralRun`, the literal rule, emits what the shared rule emits (also lines 234, 246-250) |
| BackupSender.Worker | src/backup/FileSender.java:212-262 | a port outside 0..65535 is rejected before any byte; otherwise as the network sender: the header, then the file, with the progress climbing within 0..100 for an honest size; a connection breaking inside the header leaves a strict prefix of it and no progress |
| BackupSender.SendFile | src/backup/FileSender.java:158-182 | nothing happens without a file; the address is trimmed; a port field that does not parse becomes 5050 with a warning |
| BackupSender.BlankPortFieldMeansDefault | src/backup/FileSender.java:168-173 | a blank port field means port 5050 |
| BackupSender.SearchDevices | src/backup/FileSender.java:282-294 | one request to 255.255.255.255:8888 and the devices of the accepted replies, or nothing when the socket fails (also lines 331-400) |
| PeerDiscovery.Received | src/network/PeerDiscovery.java:154-165 | a datagram is read into at most 1024 characters, whole when it fits |
| PeerDiscovery.EncodeReply | src/network/PeerDiscovery.java:179 | the reply starts with the prefix and continues with the name, '\|' and the port in decimal |
| PeerDiscovery.Respond | src/network/PeerDiscovery.java:162-188 | a reply is sent exactly for the exact request text, to the endpoint it came from |
| PeerDiscovery.RequestMatchIsExact | src/network/PeerDiscovery.java:165-168 | cutting a datagram to the buffer cannot make it match the request |
| PeerDiscovery.ServeRequests | src/network/PeerDiscovery.java:152-202 | the responder answers its requests in order, at most one reply each |
| PeerDiscovery.ResponsesAnswerRequests | src/network/PeerDiscovery.java:168-185 | `Responses`: every reply goes to an endpoint that sent the request, and every such request gets a reply |
| PeerDiscovery.PortOrDefault | src/network/PeerDiscovery.java:266-270 | the port field is `parseInt`'s value, or 5050 when it does not parse |
| PeerDiscovery.ParseReply | src/network/PeerDiscovery.java:259-274 | an accepted reply starts with the prefix, and its address is the datagram's source |
| PeerDiscovery.ReplyIsJoin | src/network/PeerDiscovery.java:179 | the reply text is the tag, the name and the port joined with '\|' |
| PeerDiscovery.ReplyRoundTrip | src/network/PeerDiscovery.java:179 | for a name without '\|' and any `int` port, parsing the reply gives back the name, the port and the source address (also lines 259-270) |
| PeerDiscovery.PipeInNameBreaksRoundTrip | src/network/PeerDiscovery.java:179 | the name "a\|b" comes back as "a" with port 5050 (also lines 260-270) |
| PeerDiscovery.NonNumericPortDefaults | src/network/PeerDiscovery.java:266-270 | a port field that is not a decimal `int` gives port 5050, not a rejection |
| PeerDiscovery.EmptyPortFieldIgnored | src/network/PeerDiscovery.java:260-261 | an empty port field is dropped by `split`, so the reply is ignored |
| PeerDiscovery.SearchDevices | src/network/PeerDiscovery.java:130-139 | the list is cleared; when the socket works the request is broadcast once and each accepted reply adds one device in arrival order; when creating the socket or sending fails nothing is broadcast and the list stays empty; the callback gets the list (also lines 223-305) |
| PeerDiscovery.AcceptedAppend | src/network/PeerDiscovery.java:247-283 | `Accepted`, the devices of replies received in two stretches, is that of the first stretch followed by that of the second |
| PeerDiscovery.RepeatedReplyListedTwice | src/network/PeerDiscovery.java:273-274 | the same reply twice gives the same device twice |
| PeerDiscovery.StartReceiver | src/network/PeerDiscovery.java:91-108 | an open socket is closed before binding the discovery port; a responder is launched exactly when the bind succeeds, adding one to the running responders; an earlier responder is never cancelled |
| PeerDiscovery.Stop | src/network/PeerDiscovery.java:113-123 | the most recent responder is cancelled exactly when running and the socket closed exactly when open; afterwards only the older responders still run, so everything is idle exactly when there were none |
| PeerDiscovery.StopIsSafe | src/network/PeerDiscovery.java:113-123 | `stop` when never started does nothing, and a second `stop` does nothing |
| PeerDiscovery.DoubleStartOutlivesStop | src/network/PeerDiscovery.java:91-123 | start then stop leaves nothing running; two starts then stop leave the first responder running on a closed socket |
| JavaText.ToDecimal | src/utils/TransferHistoryManager.java:90-93 | `%d` prints a '-' exactly for negative numbers, then digits |
| JavaText.ParseDecimal | src/utils/TransferHistoryManager.java:120-121 | a parsed value lies in the type's range, and the empty string does not parse |
| JavaText.DigitsValueOfDigits | src/utils/TransferHistoryManager.java:120 | the value of a number's digits is the number |
| JavaText.ParseOfToDecimal | src/utils/TransferHistoryManager.java:90-121 | parsing a printed number in range gives it back |
| JavaText.DecimalParsesIffInRange | src/network/PeerDiscovery.java:179 | a printed number parses back exactly when it is in the parser's range (also line 267) |
| JavaText.SplitAllJoins | src/utils/TransferHistoryManager.java:117 | the fields between delimiters hold no delimiter and join back to the text |
| JavaText.DropTrailingEmpty | src/utils/TransferHistoryManager.java:117 | dropping trailing empty fields keeps a prefix ending in a non-empty field, and only empty fields are dropped |
| JavaText.Split | src/network/PeerDiscovery.java:260 | `split` gives the text itself when the delimiter is absent, otherwise the fields without the trailing empty ones; no field holds the delimiter |
| JavaText.SplitAllOfJoin | src/utils/TransferHistoryManager.java:90-117 | splitting joined fields without the delimiter gives them back, empty ones included |
| JavaText.SplitAllNoDelimiter | src/network/PeerDiscovery.java:260 | a text without the delimiter is one field |
| JavaText.SplitAllCons | src/utils/TransferHistoryManager.java:117 | a delimiter-free first field splits off on its own |
| JavaText.SplitAllFieldsAvoid | src/utils/TransferHistoryManager.java:117 | a character missing from the text is missing from every field |
| JavaText.SplitAllPrefix | src/utils/TransferHistoryManager.java:117 | a delimiter-free prefix joins the first field |
| JavaText.SplitAllAppend | src/utils/TransferHistoryManager.java:117 | splitting at one delimiter splits the two sides independently |
| JavaText.SplitOfJoin | src/network/PeerDiscovery.java:179 | `split` of joined fields gives them back when no field holds the delimiter and the last is not empty (also line 260) |
| JavaText.LastIndexOf | src/utils/FileUtils.java:72 | `lastIndexOf` is -1 exactly when the character is absent, and otherwise the index of an occurrence with none after it |
| JavaText.Trim | src/backup/FileSender.java:165-169 | `trim` gives "" exactly for an all-blank text, and otherwise a text that neither starts nor ends with a character at or below U+0020 |
| JavaText.TrimIsSlice | src/backup/FileSender.java:165-169 | of a text that is not all blank, `trim` keeps exactly what lies between the leading and the trailing blanks |
| JavaText.TrimOfPadded | src/backup/FileSender.java:165-169 | blanks added around a text whose ends are not blank are exactly what `trim` removes |
| JavaText.ToLowerAscii | src/utils/FileUtils.java:74 | lower-casing keeps the length and maps each character on its own |
| FileUtils.GetFileExtension | src/utils/FileUtils.java:71-77 | an extension exists exactly when the last '.' is neither the first nor the last character; it holds no '.' and is the lower-cased text after that dot |
| FileUtils.LastIndexOfUnique | src/utils/FileUtils.java:72 | the occurrence with none after it is the last index |
| FileUtils.ExtensionOfStemAndSuffix | src/utils/FileUtils.java:72-74 | a non-empty stem, '.', and a dot-free suffix give the lower-cased suffix |
| FileUtils.NoExtensionCases | src/utils/FileUtils.java:73-76 | no dot, a leading dot only, or a trailing dot give "" |
| TransferRecord.DirectionName | src/utils/TransferRecord.java:14-16 | a direction's name is non-empty and has no comma |
| TransferRecord.DirectionOf | src/utils/TransferHistoryManager.java:122 | `valueOf` only accepts a direction's exact name |
| TransferRecord.DirectionOfName | src/utils/TransferHistoryManager.java:94-122 | `valueOf(name())` is the direction |
| TransferRecord.Create | src/utils/TransferRecord.java:30-35 | the getters return the constructor's name, size and direction; `Timestamp` (`getTimestamp`) and `ShownTime` (what `getFormattedTimestamp` formats) are the creation time (also lines 42-53, 70-72, 96-98) |
| TransferRecord.DirectionString | src/utils/TransferRecord.java:105-107 | SENT shows as "Sent" and RECEIVED as "Received", never the enum name |
| TransferRecord.UnitRanges | src/utils/TransferRecord.java:80-88 | `UnitOf` gives B below 1024, KB up to 1024², MB up to 1024³, GB above, and a larger size never gets a smaller unit |
| TransferRecord.FormattedFileSize | src/utils/TransferRecord.java:79-89 | below 1024 the text is the exact decimal size followed by " B", negative sizes included; above, the unit of the size's range |
| TransferRecord.Display | src/utils/TransferRecord.java:110-116 | `toString` is the name, the time text, the size field and the direction word at their places, separated by " \| "; the size field is the exact text below 1024 bytes and the scaled text above |
| TransferHistory.LineEnd | src/utils/TransferHistoryManager.java:115 | a line runs up to the first terminator |
| TransferHistory.Lines | src/utils/TransferHistoryManager.java:112-115 | `readLine` results hold no terminator |
| TransferHistory.LinesOfUnlines | src/utils/TransferHistoryManager.java:86-115 | reading back lines that `println` wrote gives them back |
| TransferHistory.RecordLines | src/utils/TransferHistoryManager.java:89-95 | one `RecordLine`, `name,timestamp,size,DIRECTION`, per record, in list order |
| TransferHistory.LinesOfSave | src/utils/TransferHistoryManager.java:83-99 | the text `Save` writes reads back as the header line and then one line per record |
| TransferHistory.ParseLine | src/utils/TransferHistoryManager.java:117-133 | a line is kept exactly when it has four or more fields, the second and third `long`s and the fourth a direction name; the record has those values, `getTimestamp` answering the stored one, and the load time as its own |
| TransferHistory.ParseLines | src/utils/TransferHistoryManager.java:115-137 | bad lines are skipped one by one |
| TransferHistory.Load | src/utils/TransferHistoryManager.java:104-108 | a missing file gives an empty history |
| TransferHistory.RecordLineRoundTrip | src/utils/TransferHistoryManager.java:89-132 | a record whose name has no comma or terminator reads back with the same name, timestamp, size and direction |
| TransferHistory.ParseLinesRoundTrip | src/utils/TransferHistoryManager.java:115-133 | the lines of storable records read back record by record |
| TransferHistory.LoadOfSave | src/utils/TransferHistoryManager.java:83-141 | loading a saved history gives back each record's name, timestamp, size and direction, in order, when no name holds a comma or a terminator |
| TransferHistory.CommaInNameForgesRecord | src/utils/TransferHistoryManager.java:90-122 | the name "x,5,7,SENT" comes back as a different record: named "x", sent, 7 bytes, timestamp 5 |
| TransferHistory.JoinFlatten | src/utils/TransferHistoryManager.java:90 | a name containing commas adds fields to the line |
| TransferHistory.Open | src/utils/TransferHistoryManager.java:20-22 | a new manager holds what the file holds and has no listeners |
| TransferHistory.Notify | src/utils/TransferHistoryManager.java:74-78 | each listener is told once, in order, with the list |
| TransferHistory.Commit | src/utils/TransferHistoryManager.java:31-50 | after a change the file holds the new list and every listener is told once |
| TransferHistory.AddRecord | src/utils/TransferHistoryManager.java:29-33 | the record is appended at the end and earlier records stay in order, as `History` (`getTransferHistory`) shows; the file is saved; each listener is told once about the new list |
| TransferHistory.ClearHistory | src/utils/TransferHistoryManager.java:47-51 | the history is empty and saved as such; each listener is told once about the empty list |
| TransferHistory.AddListener | src/utils/TransferHistoryManager.java:58-60 | the listener is appended and nothing else changes |
| TransferHistory.RemoveFirst | src/utils/TransferHistoryManager.java:67-69 | `List.remove` takes out the first occurrence and keeps the rest in order, or changes nothing when absent |
| TransferHistory.RemoveFirstTakesOne | src/utils/TransferHistoryManager.java:67-69 | removing a present element takes exactly one copy of it and shortens the list by one |
| TransferHistory.RemoveListener | src/utils/TransferHistoryManager.java:67-69 | the first occurrence of the listener goes and the others keep their order; nothing changes when it is absent; the records and the file stay |
| TransferHistory.AddSurvivesRestart | src/utils/TransferHistoryManager.java:20-33 | after an add, reopening the file gives the old entries and then the new one |
| TransferHistory.ClearSurvivesRestart | src/utils/TransferHistoryManager.java:20-51 | after a clear, reopening gives an empty history |
| Paths.NonEmpty | src/main/java/com/cs447/securefiletransfer/backend/Service/FileService.java:87 | the elements are the non-empty fields, in order |
| Paths.Parse | src/main/java/com/cs447/securefiletransfer/backend/Service/FileService.java:87 | a parsed path's elements are non-empty and hold no '/' |
| Paths.Resolve | src/main/java/com/cs447/securefiletransfer/backend/Service/FileService.java:87 | an absolute argument replaces the base; a relative one extends it |
| Paths.Normalize | src/main/java/com/cs447/securefiletransfer/backend/Service/FileService.java:87 | `normalize` keeps the kind of path and leaves no "." and no ".." except a leading run in a relative path |
| Paths.FoldNormal | src/main/java/com/cs447/securefiletransfer/backend/Service/FileService.java:87 | normalizing element by element keeps a normal prefix normal |
| Paths.FoldAppend | src/main/java/com/cs447/securefiletransfer/backend/Service/FileService.java:87 | normalizing two stretches of elements is normalizing one after the other |
| Paths.FoldPlain | src/main/java/com/cs447/securefiletransfer/backend/Service/FileService.java:87 | ordinary elements pass through `normalize` |
| Paths.FoldLeadingParents | src/main/java/com/cs447/securefiletransfer/backend/Service/FileService.java:87 | a leading run of ".." in a relative path survives |
| Paths.NormalizeOfNormal | src/main/java/com/cs447/securefiletransfer/backend/Service/FileService.java:87 | `normalize` is idempotent on normal paths |
| Paths.ResolvePlainStaysUnder | src/main/java/com/cs447/securefiletransfer/backend/Service/FileService.java:87-90 | resolving ordinary relative elements against a normal base gives the base followed by them, which `StartsWith` the base |
| Paths.NonEmptyAppend | src/network/FileReceiver.java:169 | the elements of two joined texts are those of each |
| Paths.Get | src/network/FileReceiver.java:169 | `Paths.get(dir, name)` refuses exactly the strings holding NUL |
| Paths.GetKeepsElements | src/network/FileReceiver.java:169 | `Paths.get(dir, name)` keeps every element of the name, ".." included |
| FileService.Init | src/main/java/com/cs447/securefiletransfer/backend/Service/FileService.java:43-51 | the storage root is normal |
| FileService.Extension | src/main/java/com/cs447/securefiletransfer/backend/Service/FileService.java:63-64 | the extension is empty exactly when the name has no '.'; otherwise it starts with the last '.' and ends the name |
| FileService.ExtensionVersusFileUtils | src/main/java/com/cs447/securefiletransfer/backend/Service/FileService.java:63-64 | where `getFileExtension` finds an extension, `store`'s is the same text with its dot and case; a leading-only or trailing dot gives the whole name or "." where `getFileExtension` gives "" |
| FileService.Store | src/main/java/com/cs447/securefiletransfer/backend/Service/FileService.java:53-83 | an unknown user, then a missing name, then a stored name holding NUL, then a failed copy are errors; otherwise one row holds the original name, UUID plus extension as path, the size and the owner, and the bytes go to that name under the root |
| FileService.StoredNameFieldsPlain | src/main/java/com/cs447/securefiletransfer/backend/Service/FileService.java:63-65 | a stored name has no "." or ".." element |
| FileService.StoredNameStaysUnderRoot | src/main/java/com/cs447/securefiletransfer/backend/Service/FileService.java:63-68 | stored bytes land under the root: `Destination`, the normalized resolution of the stored name, is the root followed by the stored name's elements |
| FileService.Load | src/main/java/com/cs447/securefiletransfer/backend/Service/FileService.java:85-91 | a returned path starts with the root and is normal; a refusal is the invalid-path error, or the NUL error exactly when the name holds NUL |
| FileService.LoadAcceptsPlainNames | src/main/java/com/cs447/securefiletransfer/backend/Service/FileService.java:85-91 | a relative name of ordinary elements is accepted as the root followed by those elements |
| FileService.LoadConfinesUnderAbsoluteRoot | src/main/java/com/cs447/securefiletransfer/backend/Service/FileService.java:85-91 | under an absolute root, an accepted path is the root followed by ordinary elements only |
| FileService.ClimbOut | src/main/java/com/cs447/securefiletransfer/backend/Service/FileService.java:87 | "../other" under "/dir" normalizes to "/other" |
| FileService.LoadRefusesClimbingOut | src/main/java/com/cs447/securefiletransfer/backend/Service/FileService.java:88-90 | a name climbing above the root is refused: the invalid-path error, or the NUL error when the name holds NUL |
| FileService.DeleteFile | src/main/java/com/cs447/securefiletransfer/backend/Service/FileService.java:99-116 | unknown user, unknown file and foreign file are refused in that order with nothing deleted; once `load` accepts the stored path and the disk delete succeeds, the bytes are gone; the row is then removed exactly when no share row refers to it, and otherwise the foreign key fails the call |
| FileService.DeleteUndoesStore | src/main/java/com/cs447/securefiletransfer/backend/Service/FileService.java:53-116 | the owner deleting an upload before sharing it gets the repositories back as before the upload, and the bytes are removed where `store` wrote them |
| FileService.LoadAcceptsStoredName | src/main/java/com/cs447/securefiletransfer/backend/Service/FileService.java:85-111 | `load` of a stored name is where `store` wrote the bytes |
| FileService.SharedFileOutlivesDelete | src/main/java/com/cs447/securefiletransfer/backend/Service/FileService.java:110-112 | deleting a shared file removes its bytes and then fails, keeping the row |
| FileService.GetFileAsResource | src/main/java/com/cs447/securefiletransfer/backend/Service/FileService.java:117-144 | an unknown token, a null expiry and an expiry before now fail; the token branch resolves the stored path without the containment check, refusing only a NUL; the name branch goes through `load`; a result is always readable |
| FileService.TokenBranchSkipsContainment | src/main/java/com/cs447/securefiletransfer/backend/Service/FileService.java:121-130 | a shared row with path "../x" under root "/srv" is served from "/x", outside the root |
| FileService.StoredRowsServedUnderRoot | src/main/java/com/cs447/securefiletransfer/backend/Service/FileService.java:65-130 | for rows `store` made, the token branch stays under the root |
| SharedFileService.ShareFile | src/main/java/com/cs447/securefiletransfer/backend/Service/SharedFileService.java:28-51 | unknown user, unknown file and foreign file fail in that order; success exactly for the owner, saving one row with the token, the file, the owner and an expiry one day on |
| SharedFileService.CreateTokenForFileAsWritten | src/main/java/com/cs447/securefiletransfer/backend/Service/SharedFileService.java:53-73 | only the user and the file must exist; the row expires `hours` hours on |
| SharedFileService.NonOwnerGetsToken | src/main/java/com/cs447/securefiletransfer/backend/Service/SharedFileService.java:54-73 | a user who does not own the file gets a working link where `shareFile` refuses |
| SharedFileService.CreateTokenForFile | src/main/java/com/cs447/securefiletransfer/backend/Service/SharedFileService.java:30-73 | with the ownership check, success exactly for the owner |
| SharedFileService.CorrectedTokenMatchesShareFile | src/main/java/com/cs447/securefiletransfer/backend/Service/SharedFileService.java:28-73 | with the check, a 24-hour token is what `shareFile` makes, in success and in every error |
| SharedFileService.GetSharedFile | src/main/java/com/cs447/securefiletransfer/backend/Service/SharedFileService.java:75-82 | a row is found exactly when the token is known and not strictly past its expiry; a null expiry never expires |
| SharedFileService.ShareLinkLivesOneDay | src/main/java/com/cs447/securefiletransfer/backend/Service/SharedFileService.java:48-82 | a shared link opens up to and including one day after it was made |
| SharedFileService.NullExpiryDisagreement | src/main/java/com/cs447/securefiletransfer/backend/Service/SharedFileService.java:80-82 | a row without expiry is served by `getSharedFile` while `getFileAsResource` throws on it |
| SharedFileService.NegativeHoursExpireAtOnce | src/main/java/com/cs447/securefiletransfer/backend/Service/SharedFileService.java:68 | a negative hour count gives a link that is already expired |
| SharedFileController.ShareFile | src/main/java/com/cs447/securefiletransfer/backend/Controller/SharedFileController.java:28-34 | the authenticated user shares as owner: the row's sharer is that user and its file the requested one |
| SharedFileController.AsciiFallback | src/main/java/com/cs447/securefiletransfer/backend/Controller/SharedFileController.java:46 | same length, all printable ASCII; printable characters kept, every other one '_' |
| SharedFileController.AsciiFallbackIdempotent | src/main/java/com/cs447/securefiletransfer/backend/Controller/SharedFileController.java:46 | a printable name is unchanged, and the fallback of the fallback is the fallback |
| SharedFileController.ContentDispositionAsWritten | src/main/java/com/cs447/securefiletransfer/backend/Controller/SharedFileController.java:50 | the header is the prefix, the fallback name unescaped, the RFC 8187 parameter and the encoded name |
| SharedFileController.ParseQuoted | src/main/java/com/cs447/securefiletransfer/backend/Controller/SharedFileController.java:50 | a quoted-string of section 5.6.4 of RFC 9110 ends strictly inside the text |
| SharedFileController.FilenameOf | src/main/java/com/cs447/securefiletransfer/backend/Controller/SharedFileController.java:50 | a filename is only read from a header with the prefix |
| SharedFileController.EscapeChar | src/main/java/com/cs447/securefiletransfer/backend/Controller/SharedFileController.java:50 | a character is kept or preceded by a backslash, and never starts as a quote |
| SharedFileController.Escape | src/main/java/com/cs447/securefiletransfer/backend/Controller/SharedFileController.java:50 | escaping only lengthens, and changes nothing without quote or backslash |
| SharedFileController.ParseQuotedOfEscape | src/main/java/com/cs447/securefiletransfer/backend/Controller/SharedFileController.java:50 | any escaped value followed by a closing quote reads back as the value |
| SharedFileController.ContentDisposition | src/main/java/com/cs447/securefiletransfer/backend/Controller/SharedFileController.java:48-50 | the escaped header reads back as the fallback name, ends with the encoded name, and is the written header when the name needs no escape |
| SharedFileController.CleanNameRoundTrips | src/main/java/com/cs447/securefiletransfer/backend/Controller/SharedFileController.java:46-50 | a name without quote or backslash reads back from the written header as its fallback |
| SharedFileController.QuoteInNameTruncates | src/main/java/com/cs447/securefiletransfer/backend/Controller/SharedFileController.java:46-50 | the name `a".txt` reads back as `a` |
| SharedFileController.BackslashInNameIsLost | src/main/java/com/cs447/securefiletransfer/backend/Controller/SharedFileController.java:46-50 | the name `a\b` reads back as `ab` |
| SharedFileController.DownloadSharedFile | src/main/java/com/cs447/securefiletransfer/backend/Controller/SharedFileController.java:36-56 | an unknown or expired token fails first; otherwise the file comes through `load`, under the root and readable; the header is the prefix, the fallback name unescaped, the extended parameter and the encoded name, and reads back the fallback name when the name holds no quote and no backslash |
| SharedFileController.TokenRequest | src/main/java/com/cs447/securefiletransfer/backend/Controller/SharedFileController.java:60-62 | a missing `fileId` fails; both fields must parse; `expiresInDays` defaults to 1 |
| SharedFileController.CreateSharedFileTokenAsWritten | src/main/java/com/cs447/securefiletransfer/backend/Controller/SharedFileController.java:59-67 | the day count becomes the expiry in hours |
| SharedFileController.DefaultLinkLivesOneHour | src/main/java/com/cs447/securefiletransfer/backend/Controller/SharedFileController.java:62-64 | without `expiresInDays` the link expires after one hour, not one day |
| SharedFileController.CreateSharedFileToken | src/main/java/com/cs447/securefiletransfer/backend/Controller/SharedFileController.java:59-67 | days counted as days, and success exactly for the owner |
| SharedFileController.CorrectedLinkLivesTheDays | src/main/java/com/cs447/securefiletransfer/backend/Controller/SharedFileController.java:62-64 | a link for `d` days opens up to and including `d` days on; the default is what `shareFile` makes |
| AuthService.Register | src/main/java/com/cs447/securefiletransfer/backend/Service/AuthService.java:19-28 | a taken e-mail fails with nothing saved; otherwise exactly one user is added, with the encoded password and the fresh identity, the others are unchanged, and distinct identities stay distinct |
| AuthService.Login | src/main/java/com/cs447/securefiletransfer/backend/Service/AuthService.java:30-40 | an unknown e-mail, then a rejected password, fail; success exactly when the matcher accepts, with a "Bearer" response carrying the issued token |
| AuthService.RegisterThenLogin | src/main/java/com/cs447/securefiletransfer/backend/Service/AuthService.java:19-40 | after registering, login succeeds exactly for passwords matching the encoded one, and registering again fails |
| AuthService.RegisterKeepsOtherLogins | src/main/java/com/cs447/securefiletransfer/backend/Service/AuthService.java:19-40 | registering one e-mail changes no other user's login |

## Left out

- Sockets, datagrams, SwingWorker threads, the 1-second accept timeout and the 3-second discovery window are not modelled. A stream is a byte sequence with the read sizes as a parameter; a worker's life is a finite sequence of events. The races on the unsynchronised `isRunning` and on the shared device list are not modelled.
- The Swing and console user interfaces, the file chooser and `FileUtils.selectFile`/`selectDirectory` are not modelled; the chosen file and the text fields are parameters.
- Floating point is not modelled: the scaled number of `getFormattedFileSize`, and the double percentage that src/FileReceiver.java:77 prints.
- `SimpleDateFormat` is not modelled: `getFormattedTimestamp` is the raw instant, and `toString` takes the formatted texts as inputs.
- Failures while writing or reading the history file are not modelled; the file is a value.
- `long` overflow in `total*100` and `last*fileSize` is not modelled; the arithmetic is on unbounded integers, which matches Java for sizes below about 9·10^16.
- `int` overflow in `days*24` (in the corrected token endpoint) is not modelled, nor the `LocalDateTime` range exceptions.
- Lone surrogates: a Dafny `char` cannot hold one, so a name whose bytes decode to an unpaired surrogate is a decoding error in the model, where Java returns such a string.
- Platform charset decoding in `new String(bytes)` and `getBytes()` is taken as ASCII; datagram texts are character sequences.
- Library internals are parameters: UUID generation, `UriUtils.encode`, the password encoder and matcher, and `JwtUtil`. A UUID is only assumed to hold no '.', '/' or NUL.
- The JPA repositories are maps. The identity a new row gets (a new user's included) and the share token are assumed fresh (a precondition).
- The file system's answers are parameters: whether `Files.copy` or `deleteIfExists` succeeds, and which paths exist and are readable. `Files.createDirectories` in `init` is not modelled.
- `Path.normalize` and `startsWith` are modelled on name elements of a Unix path. Java's special case of the empty path is not modelled.
- `loadAllByUser` in FileService and the framework glue are not modelled: the controllers other than SharedFileController, `JwtRequestFilter`, the entities and the payload classes other than `AuthResponse`.
- The frontend is not modelled.
- JavaText.ToLowerAscii: Java's `toLowerCase` folds every Unicode letter; the model folds only A-Z, so `FileUtils.GetFileExtension` of "x.jpÉg" keeps the É where Java gives "jpég".
- JavaText.ParseDecimal: `Integer.parseInt` also accepts non-ASCII Unicode digits (Arabic-Indic, fullwidth and the like); the model accepts ASCII digits only.
- FileSender.SendFile: an `IOException` from `outputStream.flush()` after the last chunk (src/network/FileSender.java:125) is not modelled, since the socket stream buffers nothing; such a failure would skip the history record of lines 129-132, and the model does not promise that.
- FileReceiver.CopyPayload: when a write fails, the part of that chunk the stream may already hold is not modelled; the file keeps the chunks written before it.
- The platform file-name encoding is assumed to represent every received name; only the NUL character is refused by `Paths.get`.
- `FileService.init` with an upload directory holding NUL is not modelled; the root is a valid path by construction.
- LegacyReceiver.StartReceiving: the fixed port 5050 is a constant; the infinite accept loop is modelled over a finite list of connections.

## Findings

| source | as written | input that shows it | evidently intended | confidence | as-written member | corrected member |
|---|---|---|---|---|---|---|
| src/main/java/com/cs447/securefiletransfer/backend/Controller/SharedFileController.java:62-64 | the day count `expiresInDays` is passed to `createTokenForFile`'s `expiresInHours` | a request without `expiresInDays`: the link expires after one hour | a link that lives `expiresInDays` days, so one day by default, as `shareFile` gives | high, not executed | SharedFileController.DefaultLinkLivesOneHour | SharedFileController.CorrectedLinkLivesTheDays |
| src/main/java/com/cs447/securefiletransfer/backend/Controller/SharedFileController.java:46-50 | printable `"` and `\` are copied unescaped into the quoted `filename` parameter | the name `a".txt` reads back as `a`; `a\b` reads back as `ab` | a quoted-string per section 5.6.4 of RFC 9110, with `"` and `\` escaped | high, not executed | SharedFileController.QuoteInNameTruncates | SharedFileController.ContentDisposition |
| src/main/java/com/cs447/securefiletransfer/backend/Service/SharedFileService.java:54-73 | `createTokenForFile` checks only that the user and the file exist | a registered user who does not own file `f` gets a working link to `f` | the ownership check `shareFile` performs | medium, not executed | SharedFileService.NonOwnerGetsToken | SharedFileService.CorrectedTokenMatchesShareFile |
| src/network/FileReceiver.java:169 | `Paths.get(saveDirectory, fileName)` on a received name holding NUL throws `InvalidPathException`, which the per-connection `catch (IOException)` does not catch, so the worker ends | a header whose name field is the bytes 00 01 00 (the name NUL) | only that connection fails and the receiver keeps accepting | medium, not executed | FileReceiver.NulNameEndsWorker | FileReceiver.ServeGuarded |
