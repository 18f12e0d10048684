# reader — a verified model of `Reader[S]`

This project models the Go package `reader`. The package has one type,
`Reader[S]`: a read-only, seekable cursor over a byte slice or a string.
The reader never writes its data, but a `Reader[[]byte]` shares the
caller's slice, so the data stays fixed only while nobody else writes that
slice. Its state has three parts:

- the data `s`;
- the signed offset `off` of the next byte to read;
- a one-slot `lastRead` tag that remembers whether the previous call was a
  `ReadRune`, and of what width, so that `UnreadRune` can undo exactly one
  rune.

The model makes that state an immutable datatype:
`Reader(s: seq<byte>, off: int, lastRead: ReadOp)`. Each method is a pure
function that returns its Go results together with the next state.
`Reader[[]byte]` and `Reader[string]` behave the same for the same content,
so both are one `seq<byte>`.

Files:

- `io.dfy` (module `Io`) holds the shared pieces: Go's `byte`, the error
  values, the seek anchors, a writer's reply, and Go's builtin `copy`.
- `int64.dfy` (module `Int64`) models int64 and the two's-complement
  wrap-around of Go's addition, which `Seek` relies on.
- `utf8.dfy` (module `Utf8`) models `utf8.DecodeRune`. It decodes the
  UTF8-char syntax of section 4 of RFC 3629, with Go's (U+FFFD, 1) result
  for malformed input. An independent encoder (section 3 of RFC 3629) is
  its partner: decoding an encoding gives the rune back, and whatever the
  decoder accepts is the encoding of the rune it returns.
- `reader.dfy` (module `Readers`) holds the state and every method of
  `Reader[S]`. It also holds the invariant `Valid()` that every reachable
  state satisfies. Every operation keeps `Valid()`, and it implies that
  `off` is never negative. After a `ReadRune` of width k, the k bytes
  before `off` decode as one rune of width k. That is why
  `UnreadRune` followed by `ReadRune` restores the state exactly.
- `properties.dfy` (module `ReaderProperties`) holds lemmas that relate
  several operations. It also states the scenarios the repository's tests
  check as lemmas.

Two quirks of the code are modelled exactly as written:

- `Read` at or past the end returns EOF before it clears `lastRead`, so a
  pending `UnreadRune` survives it (`UnreadRuneSurvivesReadAtEnd`).
- `UnreadByte` fails only at offset 0. It never looks at `lastRead`, and it
  leaves the state untouched when it fails.

## Model

| member | source | states |
|---|---|---|
| Readers.New | reader.go:194-195 | a new reader starts at offset 0 with no undoable rune read and satisfies the reachable-state invariant; `New([])` is the zero Reader |
| Readers.Reset | reader.go:191-192 | after Reset the reader is exactly a new reader over the new data, so any pending rune undo is gone |
| Readers.OpReadRune | reader.go:28-43 | converting a rune size 1..4 to a readOp gives the rune-read constant whose int8 value is that size |
| Readers.Len | reader.go:45-52 | the unread byte count is never negative and never above the data length; it is zero exactly when the offset is at or past the end, otherwise offset plus Len is the length |
| Readers.Size | reader.go:54-58 | Size is the length of the data, whatever the offset and last operation are |
| Readers.Read | reader.go:60-73 | at or past the end: (0, EOF) with the entire state unchanged, lastRead included; otherwise min(len p, remaining) bytes equal to the data at the offset go to the front of p, the rest of p is untouched, the offset advances by that count, there is no error, lastRead is opRead exactly when the count is positive, and the invariant is kept |
| Readers.ReadAt | reader.go:75-91 | negative offset: error; offset at or past the end: (0, EOF); otherwise min(len p, len-o) bytes from offset o, EOF exactly when fewer than len p were available; no reader state is read or produced besides the data |
| Readers.ReadByte | reader.go:93-104 | EOF exactly at or past the end, with byte 0 and lastRead cleared; otherwise the byte at the offset, the offset plus one, and lastRead opRead |
| Readers.UnreadByte | reader.go:106-115 | it succeeds exactly when the offset is positive, whatever lastRead is; failure leaves the state unchanged; success moves back one byte and clears lastRead |
| Readers.ReadRune | reader.go:117-134 | EOF exactly at or past the end, with (0, 0) and lastRead cleared; otherwise the result is what the UTF-8 decoder gives at the offset (the ASCII fast path agrees with it), its width is between 1 and min(4, remaining), the offset advances by the width, and lastRead records the width |
| Readers.UnreadRune | reader.go:136-147 | it succeeds exactly when lastRead is a rune read; failure leaves the state unchanged; success moves back by the recorded width to an offset that is still non-negative, and clears lastRead |
| Readers.Seek | reader.go:149-168 | lastRead is always cleared; an unknown whence is an error with the offset unchanged; otherwise, with target = base + offset, the seek succeeds exactly when the true target is a non-negative int64 (Go's int64 wrap never yields a bogus position), and it then moves to and returns the target, even past the end |
| Readers.WriteTo | reader.go:170-189 | lastRead is cleared; an exhausted reader makes no Write call and returns (0, nil); otherwise the writer is offered exactly the unread bytes once, the offset advances by the count it took, its error is passed on, and without a writer error ShortWrite is reported exactly when it took fewer bytes than offered |
| Io.Copy | reader.go:67 | Go's copy moves min(len dst, len src) bytes to the front of dst and leaves the rest of dst as it was |
| Int64.Wrap | reader.go:157-159 | the wrapped sum is an int64, equals the true sum when that fits, and differs from it by a multiple of 2^64 |
| Int64.AddNonNegative | reader.go:156-164 | adding a non-negative int64 to an int64 wraps to a non-negative value exactly when the true sum is a non-negative int64, and then gives the true sum |
| Utf8.DecodeRune | reader.go:130 | empty input gives (U+FFFD, 0); non-empty input gives a width between 1 and min(4, len); a byte below 0x80 is itself with width 1 |
| Utf8.DecodeEncodeRune | reader.go:130 | for every Unicode scalar value, decoding its UTF-8 encoding, followed by anything, gives the value and the width of its encoding |
| Utf8.DecodedIsEncoding | reader.go:130 | the decoder either reports malformed input as (U+FFFD, 1), or the bytes it consumed are exactly the encoding of the scalar value it returns |
| Utf8.MalformedHasNoEncodingPrefix | reader.go:130 | when the decoder reports (U+FFFD, 1), no scalar value's encoding is a prefix of the input |
| ReaderProperties.ReadRuneThenUnreadRune | reader_test.go:327-343 | ReadRune then UnreadRune restores the offset exactly, and a second consecutive UnreadRune fails |
| ReaderProperties.UnreadRuneThenReadRune | reader.go:137-147 | after a successful UnreadRune, ReadRune reads the same width again and restores the reader state exactly |
| ReaderProperties.UnreadRuneFailsAfterOtherOps | reader_test.go:290-325 | UnreadRune fails after a Read that is not at the end, ReadByte, a successful UnreadByte, UnreadRune, Seek, WriteTo and Reset |
| ReaderProperties.UnreadRuneSurvivesReadAtEnd | reader.go:61-66 | a Read that hits the end keeps lastRead, so the last rune read can still be undone to its starting offset |
| ReaderProperties.ReadByteThenUnreadByte | reader.go:94-115 | ReadByte then UnreadByte returns to the same offset |
| ReaderProperties.UnreadByteAfterReadRune | reader.go:107-115 | UnreadByte after a ReadRune of any width succeeds and steps back a single byte |
| ReaderProperties.ReadAgreesWithReadAt | reader.go:61-91 | before the end, Read and ReadAt at the current offset give the same count and buffer; only ReadAt reports EOF for a short read |
| ReaderProperties.ReadIsRepeatedReadByte | reader.go:61-104 | one Read of k bytes gives the same bytes and the same next state as k ReadByte calls |
| ReaderProperties.ReadBytesSpan | reader.go:94-104 | k ReadByte calls inside the data return the k bytes at the offset and end k bytes further on with lastRead opRead |
| ReaderProperties.ReadUntilEof | reader.go:61-73 | Reads with any non-empty buffer until EOF return every unread byte once, in order; the bytes taken plus Len stay equal to the starting Len, and Len ends at zero |
| ReaderProperties.SeekCurrentReportsOffset | reader.go:150-167 | Seek(0, SeekCurrent) returns the current offset without moving it and clears lastRead |
| ReaderProperties.SeekStartThenCurrent | reader.go:150-167 | after seeking from the start to any non-negative int64 position, Seek(0, SeekCurrent) reports that position and changes nothing further |
| ReaderProperties.SeekPastEndThenRead | reader_test.go:112-123 | a seek past the end succeeds; Len is then 0 and Read returns (0, EOF) |
| ReaderProperties.SeekFromEndLeavesLen | reader_test.go:83 | seeking -k from the end, for k up to the length, leaves exactly k bytes to read |
| ReaderProperties.SeekOverflowFails | reader.go:156-164 | a SeekCurrent whose true target exceeds MaxInt64 fails with the negative-position error and leaves the offset alone |
| ReaderProperties.WriteToDrains | reader_test.go:199-265 | WriteTo into a writer that takes everything returns Len bytes, no error, offers the unread bytes once, and leaves Len 0 |
| ReaderProperties.SizeIsConstant | reader.go:54-58 | no operation except Reset changes Size |
| ReaderProperties.LenCountsBytes | reader.go:45-52 | for UTF-8 text of n runes, Len of a new reader is between n and 4n, and equals n exactly when every rune is ASCII |
| ReaderProperties.ReadRunes | reader.go:118-134 | repeated ReadRune calls return at most Len runes, because each call consumes at least one byte |
| ReaderProperties.ReadRunesDecodesText | reader.go:118-134 | reading well-formed UTF-8 text rune by rune returns exactly the encoded runes |
| ReaderProperties.ReadRuneOfEncoded | reader.go:124-133 | ReadRune at the encoding of a scalar value returns that value and moves past its encoding |
| ReaderProperties.ZeroReader | reader_test.go:443-497 | the zero reader has Len 0 and Size 0; Read, ReadAt at 11, ReadByte and ReadRune give EOF; Seek to 11 succeeds; both unreads fail; WriteTo gives (0, nil) without a Write call |
| ReaderProperties.ReadAtDigits | reader_test.go:125-156 | on "0123456789": offset 0 into 10 gives all ten bytes and no error; offset 1 gives nine bytes, with no error into 9 and EOF into 10; offset 11 gives (0, EOF); offset 0 into an empty buffer gives (0, nil); offset -1 gives the negative-offset error |
| ReaderProperties.SeekReadDigitsFirstRows | reader_test.go:75-77 | on one reader over "0123456789": a seek to 0 then a Read of 20 gives all ten bytes; a seek to 1 then a Read of 1 gives "1"; a relative seek of 1 reports 3 and a Read of 2 gives "34"; no errors |
| ReaderProperties.SeekReadDigitsMiddleRows | reader_test.go:78-80 | continuing at offset 5: a seek to -1 fails with the negative-position error and the empty Read after it reports no error; a seek to 2^33 and a relative seek to 2^33 + 1 succeed and the Reads after them give (0, EOF) |
| ReaderProperties.SeekReadDigitsLastRows | reader_test.go:81-83 | continuing past the end: a seek to 0 then a Read of 5 gives "01234"; a relative seek of 0 then a Read of 5 gives "56789"; a seek to -1 from the end reports 9 and a Read of 1 gives "9" |
| ReaderProperties.LenAfterReads | reader_test.go:267-288 | on "hello world", Len is 11, then 1 after a Read of 10, then 0 after a Read of 1 |
| ReaderProperties.LenOfJapaneseGreeting | example_test.go:9-15 | "こんにちは!" is six runes, and Len reports its 16 bytes |

## Left out

- Concurrency. The race-detector tests (reader_test.go:158-197) are out.
  ReadAt's freedom from shared state is structural instead: it receives the
  reader but returns no next state.
- `io.Copy`, `io.CopyN` and `io.ReadAll` are library code outside this
  repository. The tests that compare their results (reader_test.go:345-388
  and the copy steps at 395 and 433) are out.
- The `string`/`[]byte` distinction, Go generics and reflection-built zero
  values are out. There is one `seq<byte>`, and the zero Reader is `New([])`.
- Writes to the data while a reader uses it are out. The model fixes the
  data as a `seq<byte>`, so it assumes the backing slice of a
  `Reader[[]byte]` is not written while the reader is in use. In Go, writes
  by the caller show through the reader. So does a `Read(p)` whose `p`
  overlaps the reader's own data, because the `copy` at reader.go:67 writes
  into it. For example, `b := []byte("abcdef"); r := New(b); r.Read(b[3:])`
  makes the next Go `Read` return "abc", while the model returns "def".
- Go passes `p` as a slice that `Read` and `ReadAt` overwrite in place.
  The model returns the new contents of `p` instead.
- `unicode/utf8` is not part of this repository. `Utf8.DecodeRune` is
  written from section 4 of RFC 3629, with the same byte ranges and
  malformed-input result as Go's decoder.
- Readers.WriteTo: requires the writer to report a count from 0 to the
  number of bytes offered. The upper bound is the panic at reader.go:179-181,
  turned into a precondition. The lower bound is io.Writer's documented
  contract, which the code assumes but does not check. A writer that
  breaks it would move the offset backwards.
- The real `io.Writer` is out. A writer is a total function from the
  offered bytes to its reply: a count and an optional error.
- Readers.New: requires the data length to fit in an int64, as Go's slice
  and string lengths do on the 64-bit platforms the int64 offset assumes.
  `Len` returns Go's `int`, and the model takes that to be 64 bits wide.
- Exact error message strings are out. Errors are the constructors of
  `Io.Error`.
- The random test data of reader_test.go:24-31 is out.
