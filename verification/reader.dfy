/** The Reader: a read-only, seekable cursor over an immutable byte sequence.
    A Reader over a string and a Reader over a byte slice with the same
    content behave the same, so both are a seq<byte> here. Every method of
    the Go type is a pure function from the current state to its results and
    the next state. */
module Readers {
  import opened Io
  import opened Int64
  import Utf8

  /** The last action performed on the reader, kept so that UnreadRune can
      refuse to undo anything but a ReadRune. */
  datatype ReadOp =
    | OpRead        // any other read operation
    | OpInvalid     // a non-read operation
    | OpReadRune1   // ReadRune of a rune of size 1
    | OpReadRune2
    | OpReadRune3
    | OpReadRune4
  {
    /** The int8 value of the constant; for the rune reads it is the rune's
        size. */
    function Code(): int {
      match this
      case OpRead => -1
      case OpInvalid => 0
      case OpReadRune1 => 1
      case OpReadRune2 => 2
      case OpReadRune3 => 3
      case OpReadRune4 => 4
    }

    predicate IsRuneRead() {
      OpReadRune1? || OpReadRune2? || OpReadRune3? || OpReadRune4?
    }
  }

  /** readOp(size): the rune-read constant whose value is the rune's size. */
  function OpReadRune(size: int): (op: ReadOp)
    requires 1 <= size <= Utf8.UTFMax
    ensures op.IsRuneRead() && op.Code() == size
  {
    if size == 1 then OpReadRune1
    else if size == 2 then OpReadRune2
    else if size == 3 then OpReadRune3
    else OpReadRune4
  }

  /** The state of a Reader: the data, the offset of the next byte to read,
      and the last operation. */
  datatype Reader = Reader(s: seq<byte>, off: int, lastRead: ReadOp)
  {
    /** What every reachable state satisfies: the length and the offset fit
        in an int64, the offset is never negative, and after a read the
        bytes just consumed lie directly before the offset; after a ReadRune
        of size k they are the k bytes that decode as one rune. */
    predicate Valid() {
      && |s| <= MaxInt64
      && 0 <= off <= MaxInt64
      && (lastRead.OpRead? ==> 1 <= off <= |s|)
      && (lastRead.IsRuneRead() ==>
            && lastRead.Code() <= off <= |s|
            && Utf8.DecodeRune(s[off - lastRead.Code()..]).size == lastRead.Code())
    }
  }

  /** New(s): a reader at the start of s with no last operation. The zero
      Reader of the Go type is New([]). */
  function New(s: seq<byte>): (r: Reader)
    requires |s| <= MaxInt64
    ensures r.Valid()
    ensures r.s == s && r.off == 0 && !r.lastRead.IsRuneRead()
  {
    Reader(s, 0, OpInvalid)
  }

  /** Reset(s): a reader in exactly the state of New(s); whatever the old
      reader held, including a pending UnreadRune, is gone. */
  function Reset(r: Reader, s: seq<byte>): (r': Reader)
    requires |s| <= MaxInt64
    ensures r' == New(s)
  {
    Reader(s, 0, OpInvalid)
  }

  /** Len: the number of unread bytes, zero once the offset is at or past
      the end. */
  function Len(r: Reader): (n: int)
    requires r.Valid()
    ensures 0 <= n <= |r.s|
    ensures r.off < |r.s| ==> r.off + n == |r.s|
    ensures r.off >= |r.s| <==> n == 0
  {
    if r.off >= |r.s| then 0 else |r.s| - r.off
  }

  /** Size: the length of the data, whatever the offset. */
  function Size(r: Reader): (n: int)
    ensures n == |r.s|
  {
    |r.s|
  }

  datatype ReadResult = ReadResult(n: int, err: Option<Error>, buf: seq<byte>, next: Reader)
  datatype ReadAtResult = ReadAtResult(n: int, err: Option<Error>, buf: seq<byte>)
  datatype ByteResult = ByteResult(b: byte, err: Option<Error>, next: Reader)
  datatype RuneResult = RuneResult(ch: int, size: int, err: Option<Error>, next: Reader)
  datatype UnreadResult = UnreadResult(err: Option<Error>, next: Reader)
  datatype SeekResult = SeekResult(pos: int, err: Option<Error>, next: Reader)
  /** writes lists the byte sequences offered to the writer, one per Write call. */
  datatype WriteToResult = WriteToResult(n: int, err: Option<Error>, writes: seq<seq<byte>>, next: Reader)

  /** Read(p): fills the front of p with the next bytes. At or past the end
      it reports EOF and leaves the whole state alone, the last operation
      included. */
  function Read(r: Reader, p: seq<byte>): (res: ReadResult)
    requires r.Valid()
    ensures res.next.Valid() && res.next.s == r.s
    ensures r.off >= |r.s| ==> res == ReadResult(0, Some(EOF), p, r)
    ensures r.off < |r.s| ==>
      && res.err == None
      && res.n == Min(|p|, |r.s| - r.off)
      && |res.buf| == |p|
      && res.buf[..res.n] == r.s[r.off..r.off + res.n]
      && res.buf[res.n..] == p[res.n..]
      && res.next.off == r.off + res.n
      && (res.next.lastRead == OpRead <==> res.n > 0)
      && (res.n == 0 ==> res.next.lastRead == OpInvalid)
  {
    if r.off >= |r.s| then ReadResult(0, Some(EOF), p, r)
    else
      var c := Copy(p, r.s[r.off..]);
      var op := if c.n > 0 then OpRead else OpInvalid;
      ReadResult(c.n, None, c.dst, Reader(r.s, r.off + c.n, op))
  }

  /** ReadAt(p, o): fills the front of p with the bytes at offset o. It
      takes no part of the state but the data and gives no state back. */
  function ReadAt(r: Reader, p: seq<byte>, o: int): (res: ReadAtResult)
    requires IsInt64(o)
    ensures o < 0 ==> res == ReadAtResult(0, Some(NegativeOffset), p)
    ensures o >= |r.s| ==> res == ReadAtResult(0, Some(EOF), p)
    ensures 0 <= o < |r.s| ==>
      && res.n == Min(|p|, |r.s| - o)
      && |res.buf| == |p|
      && res.buf[..res.n] == r.s[o..o + res.n]
      && res.buf[res.n..] == p[res.n..]
      && (res.err == Some(EOF) <==> res.n < |p|)
      && (res.err != Some(EOF) ==> res.err == None)
  {
    if o < 0 then ReadAtResult(0, Some(NegativeOffset), p)
    else if o >= |r.s| then ReadAtResult(0, Some(EOF), p)
    else
      var c := Copy(p, r.s[o..]);
      ReadAtResult(c.n, if c.n < |p| then Some(EOF) else None, c.dst)
  }

  /** ReadByte: the byte at the offset. It always forgets the last
      operation, even at the end. */
  function ReadByte(r: Reader): (res: ByteResult)
    requires r.Valid()
    ensures res.next.Valid() && res.next.s == r.s
    ensures r.off >= |r.s| <==> res.err == Some(EOF)
    ensures r.off >= |r.s| ==> res.b == 0 && res.next == Reader(r.s, r.off, OpInvalid)
    ensures r.off < |r.s| ==>
      && res.err == None
      && res.b == r.s[r.off]
      && res.next == Reader(r.s, r.off + 1, OpRead)
  {
    if r.off >= |r.s| then ByteResult(0, Some(EOF), r.(lastRead := OpInvalid))
    else ByteResult(r.s[r.off], None, Reader(r.s, r.off + 1, OpRead))
  }

  /** UnreadByte: steps back one byte. It fails exactly at offset zero, and
      it never looks at the last operation. On failure nothing changes, not
      even the last operation. */
  function UnreadByte(r: Reader): (res: UnreadResult)
    requires r.Valid()
    ensures res.next.Valid() && res.next.s == r.s
    ensures res.err == None <==> r.off > 0
    ensures res.err != None ==> res.err == Some(AtBeginning) && res.next == r
    ensures res.err == None ==> res.next == Reader(r.s, r.off - 1, OpInvalid)
  {
    if r.off <= 0 then UnreadResult(Some(AtBeginning), r)
    else UnreadResult(None, Reader(r.s, r.off - 1, OpInvalid))
  }

  /** ReadRune: decodes the rune at the offset. A byte below 0x80 is taken
      as it is; otherwise the UTF-8 decoder runs. Either way the result is
      what the decoder gives for the rest of the data, and its size is
      remembered for UnreadRune. */
  function ReadRune(r: Reader): (res: RuneResult)
    requires r.Valid()
    ensures res.next.Valid() && res.next.s == r.s
    ensures r.off >= |r.s| <==> res.err == Some(EOF)
    ensures r.off >= |r.s| ==> res.ch == 0 && res.size == 0 && res.next == Reader(r.s, r.off, OpInvalid)
    ensures r.off < |r.s| ==>
      && res.err == None
      && 1 <= res.size <= Min(Utf8.UTFMax, |r.s| - r.off)
      && Utf8.DecodeRune(r.s[r.off..]) == Utf8.Decoded(res.ch, res.size)
      && res.next.off == r.off + res.size
      && res.next.lastRead.IsRuneRead() && res.next.lastRead.Code() == res.size
    ensures r.off < |r.s| && r.s[r.off] < Utf8.RuneSelf ==> res.ch == r.s[r.off] && res.size == 1
  {
    if r.off >= |r.s| then RuneResult(0, 0, Some(EOF), r.(lastRead := OpInvalid))
    else if r.s[r.off] < Utf8.RuneSelf then
      RuneResult(r.s[r.off], 1, None, Reader(r.s, r.off + 1, OpReadRune1))
    else
      var d := Utf8.DecodeRune(r.s[r.off..]);
      assert r.s[r.off + d.size - d.size..] == r.s[r.off..];
      RuneResult(d.rune, d.size, None, Reader(r.s, r.off + d.size, OpReadRune(d.size)))
  }

  /** UnreadRune: undoes the ReadRune just before it, and only that. */
  function UnreadRune(r: Reader): (res: UnreadResult)
    requires r.Valid()
    ensures res.next.Valid() && res.next.s == r.s
    ensures res.err == None <==> r.lastRead.IsRuneRead()
    ensures res.err != None ==> res.err == Some(NotAfterReadRune) && res.next == r
    ensures res.err == None ==>
      && 0 <= res.next.off == r.off - r.lastRead.Code()
      && res.next.lastRead == OpInvalid
  {
    if !r.lastRead.IsRuneRead() then UnreadResult(Some(NotAfterReadRune), r)
    else UnreadResult(None, Reader(r.s, r.off - r.lastRead.Code(), OpInvalid))
  }

  /** The position a seek is measured from. */
  function SeekBase(r: Reader, whence: int): int {
    if whence == SeekStart then 0
    else if whence == SeekCurrent then r.off
    else |r.s|
  }

  /** Seek(offset, whence): moves the offset to base + offset, where the
      base is 0, the offset or the length. Go adds in int64, so the sum
      wraps; the contract states the outcome without the wrap: the seek
      succeeds exactly when the true sum is a non-negative int64, and any
      position that large is accepted, past the end included. The last
      operation is forgotten in every case. */
  function Seek(r: Reader, offset: int, whence: int): (res: SeekResult)
    requires r.Valid() && IsInt64(offset)
    ensures res.next.Valid() && res.next.s == r.s && res.next.lastRead == OpInvalid
    ensures whence !in {SeekStart, SeekCurrent, SeekEnd} ==>
      res.err == Some(InvalidWhence) && res.pos == 0 && res.next.off == r.off
    ensures whence in {SeekStart, SeekCurrent, SeekEnd} ==>
      var target := SeekBase(r, whence) + offset;
      && (res.err == None <==> 0 <= target <= MaxInt64)
      && (res.err == None ==> res.pos == target && res.next.off == target)
      && (res.err != None ==> res.err == Some(NegativePosition) && res.pos == 0 && res.next.off == r.off)
  {
    var cleared := r.(lastRead := OpInvalid);
    if whence !in {SeekStart, SeekCurrent, SeekEnd} then SeekResult(0, Some(InvalidWhence), cleared)
    else
      var abs :=
        if whence == SeekStart then offset
        else if whence == SeekCurrent then Wrap(offset + r.off)
        else Wrap(offset + |r.s|);
      AddNonNegative(offset, SeekBase(r, whence));
      if abs < 0 then SeekResult(0, Some(NegativePosition), cleared)
      else SeekResult(abs, None, cleared.(off := abs))
  }

  /** The writer's obligation for the one Write call WriteTo may make: it
      reports a count between zero and the number of bytes it was offered. */
  predicate WriterHonest(r: Reader, w: seq<byte> -> WriteReply)
    requires r.Valid()
  {
    r.off < |r.s| ==> 0 <= w(r.s[r.off..]).n <= |r.s| - r.off
  }

  /** WriteTo(w): offers every unread byte to w in one Write call and moves
      the offset past the bytes w took. An exhausted reader calls nothing
      and reports no error. A writer that takes fewer bytes than offered
      without reporting an error yields ShortWrite; a writer's own error is
      passed on. */
  function WriteTo(r: Reader, w: seq<byte> -> WriteReply): (res: WriteToResult)
    requires r.Valid() && WriterHonest(r, w)
    ensures res.next.Valid() && res.next.s == r.s && res.next.lastRead == OpInvalid
    ensures r.off >= |r.s| ==> res.n == 0 && res.err == None && res.writes == [] && res.next.off == r.off
    ensures r.off < |r.s| ==>
      var reply := w(r.s[r.off..]);
      && res.writes == [r.s[r.off..]]
      && res.n == reply.n
      && res.next.off == r.off + reply.n
      && (reply.err != None ==> res.err == reply.err)
      && (reply.err == None ==> (res.err == Some(ShortWrite) <==> reply.n < |r.s| - r.off))
      && (reply.err == None && res.err != Some(ShortWrite) ==> res.err == None)
  {
    var cleared := r.(lastRead := OpInvalid);
    if r.off >= |r.s| then WriteToResult(0, None, [], cleared)
    else
      var offered := r.s[r.off..];
      var reply := w(offered);
      var err := if |offered| != reply.n && reply.err == None then Some(ShortWrite) else reply.err;
      WriteToResult(reply.n, err, [offered], cleared.(off := r.off + reply.n))
  }
}
