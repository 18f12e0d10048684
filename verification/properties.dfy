/** Properties that relate several Reader operations: the one-step undo of
    ReadRune, agreement between the byte-, chunk- and positional reads,
    seeking past the end, draining with WriteTo or repeated Reads, and the
    scenarios the repository's tests pin down. */
module ReaderProperties {
  import opened Io
  import opened Int64
  import Utf8
  import opened Readers

  // ---------------------------------------------------------------------
  // One-step undo of ReadRune

  /** ReadRune followed by UnreadRune puts the offset back where it was, and
      a second UnreadRune in a row fails. */
  lemma ReadRuneThenUnreadRune(r: Reader)
    requires r.Valid() && r.off < |r.s|
    ensures var u := UnreadRune(ReadRune(r).next);
      && u.err == None
      && u.next == Reader(r.s, r.off, OpInvalid)
      && UnreadRune(u.next).err == Some(NotAfterReadRune)
  {
  }

  /** UnreadRune followed by ReadRune restores the state exactly: the rune
      that is read again is the one that was unread, with the same size. */
  lemma UnreadRuneThenReadRune(r: Reader)
    requires r.Valid() && UnreadRune(r).err == None
    ensures var u := UnreadRune(r).next;
      && ReadRune(u).err == None
      && ReadRune(u).size == r.lastRead.Code()
      && ReadRune(u).next == r
  {
    var u := UnreadRune(r).next;
    var k := r.lastRead.Code();
    assert u.s[u.off..] == r.s[r.off - k..];
    var rr := ReadRune(u);
    assert rr.size == k;
    assert rr.next.lastRead == r.lastRead by {
      assert rr.next.lastRead.Code() == k;
    }
  }

  /** Every operation except ReadRune leaves a state in which UnreadRune
      fails: a Read that is not at the end, ReadByte, UnreadByte, UnreadRune
      itself, Seek, WriteTo and Reset. */
  lemma UnreadRuneFailsAfterOtherOps(
    r: Reader, p: seq<byte>, offset: int, whence: int,
    w: seq<byte> -> WriteReply, s: seq<byte>)
    requires r.Valid() && IsInt64(offset) && WriterHonest(r, w) && |s| <= MaxInt64
    ensures r.off < |r.s| ==> UnreadRune(Read(r, p).next).err == Some(NotAfterReadRune)
    ensures UnreadRune(ReadByte(r).next).err == Some(NotAfterReadRune)
    ensures UnreadByte(r).err == None ==> UnreadRune(UnreadByte(r).next).err == Some(NotAfterReadRune)
    ensures UnreadRune(UnreadRune(r).next).err == Some(NotAfterReadRune)
    ensures UnreadRune(Seek(r, offset, whence).next).err == Some(NotAfterReadRune)
    ensures UnreadRune(WriteTo(r, w).next).err == Some(NotAfterReadRune)
    ensures UnreadRune(Reset(r, s)).err == Some(NotAfterReadRune)
  {
  }

  /** The end-of-data Read returns before it clears the last operation, so
      a ReadRune of the last rune can still be undone after a Read that hit
      the end. */
  lemma UnreadRuneSurvivesReadAtEnd(r: Reader, p: seq<byte>)
    requires r.Valid() && r.off < |r.s|
    requires ReadRune(r).next.off == |r.s|
    ensures var afterRead := Read(ReadRune(r).next, p);
      && afterRead.err == Some(EOF)
      && UnreadRune(afterRead.next).err == None
      && UnreadRune(afterRead.next).next.off == r.off
  {
  }

  /** ReadByte followed by UnreadByte puts the offset back. */
  lemma ReadByteThenUnreadByte(r: Reader)
    requires r.Valid() && r.off < |r.s|
    ensures var u := UnreadByte(ReadByte(r).next);
      u.err == None && u.next == Reader(r.s, r.off, OpInvalid)
  {
  }

  /** UnreadByte needs no ReadByte before it: after a ReadRune of a rune of
      any width it steps back a single byte. */
  lemma UnreadByteAfterReadRune(r: Reader)
    requires r.Valid() && r.off < |r.s|
    ensures var rr := ReadRune(r);
      && UnreadByte(rr.next).err == None
      && UnreadByte(rr.next).next.off == r.off + rr.size - 1
  {
  }

  // ---------------------------------------------------------------------
  // Agreement between the reads

  /** Before the end, Read hands over the same bytes as ReadAt at the current
      offset; they differ only in that Read never reports EOF for a short
      read, while ReadAt does. */
  lemma ReadAgreesWithReadAt(r: Reader, p: seq<byte>)
    requires r.Valid() && r.off < |r.s|
    ensures var a := ReadAt(r, p, r.off);
      var b := Read(r, p);
      && a.n == b.n && a.buf == b.buf
      && b.err == None
      && (a.err == Some(EOF) <==> b.n < |p|)
  {
    var a := ReadAt(r, p, r.off);
    var b := Read(r, p);
    assert a.buf == a.buf[..a.n] + a.buf[a.n..];
    assert b.buf == b.buf[..b.n] + b.buf[b.n..];
  }

  /** k successive ReadByte calls: the bytes they return and the state they
      leave. */
  function ReadBytes(r: Reader, k: nat): (res: (seq<byte>, Reader))
    requires r.Valid()
    ensures res.1.Valid() && res.1.s == r.s
    decreases k
  {
    if k == 0 then ([], r)
    else
      var b := ReadByte(r);
      if b.err != None then ([], b.next)
      else
        var rest := ReadBytes(b.next, k - 1);
        ([b.b] + rest.0, rest.1)
  }

  /** One Read into a buffer of k bytes consumes what k ReadByte calls
      would: the same bytes, the same offset and the same last operation. */
  lemma {:induction false} ReadIsRepeatedReadByte(r: Reader, p: seq<byte>)
    requires r.Valid() && 0 < |p| && r.off + |p| <= |r.s|
    ensures var bytes := ReadBytes(r, |p|);
      && Read(r, p).buf == bytes.0
      && Read(r, p).next == bytes.1
  {
    ReadBytesSpan(r, |p|);
  }

  lemma {:induction false} ReadBytesSpan(r: Reader, k: nat)
    requires r.Valid() && 0 < k && r.off + k <= |r.s|
    ensures ReadBytes(r, k) == (r.s[r.off..r.off + k], Reader(r.s, r.off + k, OpRead))
    decreases k
  {
    var b := ReadByte(r);
    assert b == ByteResult(r.s[r.off], None, Reader(r.s, r.off + 1, OpRead));
    var rest := ReadBytes(b.next, k - 1);
    assert ReadBytes(r, k) == ([r.s[r.off]] + rest.0, rest.1);
    if k > 1 {
      ReadBytesSpan(b.next, k - 1);
      assert [r.s[r.off]] + r.s[r.off + 1..r.off + k] == r.s[r.off..r.off + k];
    } else {
      assert rest == ([], b.next);
      assert [r.s[r.off]] + [] == r.s[r.off..r.off + 1];
    }
  }

  /** Reading with a buffer of bufSize bytes until Read reports EOF yields
      every unread byte exactly once, in order; afterwards Len is zero and
      the bytes taken plus the bytes left always add up to the starting
      Len. */
  method ReadUntilEof(r: Reader, bufSize: nat) returns (data: seq<byte>, last: Reader)
    requires r.Valid() && bufSize > 0
    ensures data == r.s[Min(r.off, |r.s|)..]
    ensures last.Valid() && last.s == r.s && Len(last) == 0
  {
    data := [];
    last := r;
    var start := Min(r.off, |r.s|);
    while true
      invariant last.Valid() && last.s == r.s
      invariant start <= Min(last.off, |r.s|)
      invariant data == r.s[start..Min(last.off, |r.s|)]
      invariant |data| + Len(last) == Len(r)
      decreases |r.s| - Min(last.off, |r.s|)
    {
      var res := Read(last, seq(bufSize, _ => 0));
      if res.err == Some(EOF) {
        break;
      }
      data := data + res.buf[..res.n];
      last := res.next;
    }
  }

  // ---------------------------------------------------------------------
  // Seeking

  /** Seek(0, SeekCurrent) reports the offset without moving it. */
  lemma SeekCurrentReportsOffset(r: Reader)
    requires r.Valid()
    ensures Seek(r, 0, SeekCurrent) == SeekResult(r.off, None, Reader(r.s, r.off, OpInvalid))
  {
  }

  /** Seeking to a position from the start and then asking for the current
      position gives that position back, from any state. */
  lemma SeekStartThenCurrent(r: Reader, pos: int)
    requires r.Valid() && 0 <= pos <= MaxInt64
    ensures var sk := Seek(r, pos, SeekStart);
      && sk.err == None
      && Seek(sk.next, 0, SeekCurrent).pos == pos
      && Seek(sk.next, 0, SeekCurrent).next == sk.next
  {
  }

  /** A seek past the end succeeds; the next Read reports EOF and Len is
      zero. */
  lemma SeekPastEndThenRead(r: Reader, offset: int, p: seq<byte>)
    requires r.Valid() && |r.s| <= offset <= MaxInt64
    ensures var sk := Seek(r, offset, SeekStart);
      && sk.err == None && sk.pos == offset
      && Len(sk.next) == 0
      && Read(sk.next, p).err == Some(EOF) && Read(sk.next, p).n == 0
  {
  }

  /** Seeking k bytes back from the end leaves exactly k bytes to read. */
  lemma SeekFromEndLeavesLen(r: Reader, k: int)
    requires r.Valid() && 0 <= k <= |r.s|
    ensures Seek(r, -k, SeekEnd).err == None && Len(Seek(r, -k, SeekEnd).next) == k
  {
  }

  /** A relative seek that would pass MaxInt64 wraps in Go's int64
      arithmetic; the wrap shows as a negative position, never as a bogus
      offset. */
  lemma SeekOverflowFails(r: Reader, offset: int)
    requires r.Valid() && IsInt64(offset) && r.off + offset > MaxInt64
    ensures Seek(r, offset, SeekCurrent).err == Some(NegativePosition)
    ensures Seek(r, offset, SeekCurrent).next.off == r.off
  {
  }

  // ---------------------------------------------------------------------
  // Draining and length

  /** A writer that takes everything it is offered without error. */
  function AcceptAll(b: seq<byte>): WriteReply {
    WriteReply(|b|, None)
  }

  /** WriteTo into a writer that takes everything writes all unread bytes,
      reports no error, and leaves nothing to read. */
  lemma WriteToDrains(r: Reader)
    requires r.Valid()
    ensures WriterHonest(r, AcceptAll)
    ensures var wt := WriteTo(r, AcceptAll);
      && wt.n == Len(r) && wt.err == None && Len(wt.next) == 0
      && (r.off < |r.s| ==> wt.writes == [r.s[r.off..]])
  {
  }

  /** Size is the same before and after every operation but Reset. */
  lemma SizeIsConstant(r: Reader, p: seq<byte>, offset: int, whence: int, w: seq<byte> -> WriteReply)
    requires r.Valid() && IsInt64(offset) && WriterHonest(r, w)
    ensures Size(Read(r, p).next) == Size(r)
    ensures Size(ReadByte(r).next) == Size(r)
    ensures Size(UnreadByte(r).next) == Size(r)
    ensures Size(ReadRune(r).next) == Size(r)
    ensures Size(UnreadRune(r).next) == Size(r)
    ensures Size(Seek(r, offset, whence).next) == Size(r)
    ensures Size(WriteTo(r, w).next) == Size(r)
  {
  }

  /** Len counts bytes, not runes: a text of n runes takes between n and 4n
      bytes, and exactly n only when every rune is below 0x80. */
  lemma {:induction false} LenCountsBytes(cs: seq<int>)
    requires Utf8.AllScalars(cs) && |Utf8.EncodeAll(cs)| <= MaxInt64
    ensures |cs| <= Len(New(Utf8.EncodeAll(cs))) <= Utf8.UTFMax * |cs|
    ensures Len(New(Utf8.EncodeAll(cs))) == |cs| <==> forall i :: 0 <= i < |cs| ==> cs[i] < Utf8.RuneSelf
  {
    EncodeAllAscii(cs);
  }

  lemma {:induction false} EncodeAllAscii(cs: seq<int>)
    requires Utf8.AllScalars(cs)
    ensures |Utf8.EncodeAll(cs)| == |cs| <==> forall i :: 0 <= i < |cs| ==> cs[i] < Utf8.RuneSelf
  {
    if |cs| > 0 {
      EncodeAllAscii(cs[1..]);
      assert forall i :: 1 <= i < |cs| ==> cs[i] == cs[1..][i - 1];
    }
  }

  // ---------------------------------------------------------------------
  // Reading text rune by rune

  /** The runes repeated ReadRune calls return until EOF. */
  function ReadRunes(r: Reader): (cs: seq<int>)
    requires r.Valid()
    ensures |cs| <= Len(r)
    decreases Len(r)
  {
    var rr := ReadRune(r);
    if rr.err != None then [] else [rr.ch] + ReadRunes(rr.next)
  }

  /** Reading well-formed UTF-8 text rune by rune gives back exactly the
      runes it encodes. */
  lemma {:induction false} ReadRunesDecodesText(r: Reader, cs: seq<int>)
    requires r.Valid() && r.off <= |r.s| && Utf8.AllScalars(cs)
    requires r.s[r.off..] == Utf8.EncodeAll(cs)
    ensures ReadRunes(r) == cs
    decreases |cs|
  {
    if |cs| > 0 {
      var rest := Utf8.EncodeAll(cs[1..]);
      ReadRuneOfEncoded(r, cs[0], rest);
      var rr := ReadRune(r);
      assert ReadRunes(r) == [cs[0]] + ReadRunes(rr.next);
      ReadRunesDecodesText(rr.next, cs[1..]);
      assert [cs[0]] + cs[1..] == cs;
    }
  }

  /** ReadRune at the encoding of a scalar value returns that value and
      moves past its encoding. */
  lemma ReadRuneOfEncoded(r: Reader, c: int, rest: seq<byte>)
    requires r.Valid() && r.off <= |r.s| && Utf8.IsScalar(c)
    requires r.s[r.off..] == Utf8.EncodeRune(c) + rest
    ensures var rr := ReadRune(r);
      && rr.err == None && rr.ch == c && rr.size == Utf8.RuneLen(c)
      && rr.next.off <= |rr.next.s| && rr.next.s[rr.next.off..] == rest
  {
    Utf8.DecodeEncodeRune(c, rest);
    var rr := ReadRune(r);
    var e := Utf8.EncodeRune(c);
    assert r.s[r.off..][..|e|] == e;
    assert r.s[r.off + |e|..] == r.s[r.off..][|e|..] == rest;
  }

  // ---------------------------------------------------------------------
  // Scenarios of the repository's tests

  /** The zero Reader behaves like a reader of empty data. */
  lemma ZeroReader(p: seq<byte>, w: seq<byte> -> WriteReply)
    ensures var z := New([]);
      && Len(z) == 0 && Size(z) == 0
      && Read(z, p).n == 0 && Read(z, p).err == Some(EOF)
      && ReadAt(z, p, 11).n == 0 && ReadAt(z, p, 11).err == Some(EOF)
      && ReadByte(z).b == 0 && ReadByte(z).err == Some(EOF)
      && ReadRune(z).ch == 0 && ReadRune(z).size == 0 && ReadRune(z).err == Some(EOF)
      && Seek(z, 11, SeekStart).pos == 11 && Seek(z, 11, SeekStart).err == None
      && UnreadByte(z).err == Some(AtBeginning)
      && UnreadRune(z).err == Some(NotAfterReadRune)
      && WriteTo(z, w).n == 0 && WriteTo(z, w).err == None && WriteTo(z, w).writes == []
  {
  }

  /** "0123456789" as bytes. */
  const Digits: seq<byte> := [0x30, 0x31, 0x32, 0x33, 0x34, 0x35, 0x36, 0x37, 0x38, 0x39]

  /** The ReadAt table on "0123456789": offset 0 into 10 gives all ten bytes
      and no error; offset 1 gives nine bytes, with no error into a buffer
      of 9 and EOF into a buffer of 10; offset 11 gives EOF; offset 0 into
      an empty buffer gives nothing and no error; offset -1 gives the
      negative-offset error. */
  lemma ReadAtDigits()
    ensures ReadAt(New(Digits), seq(10, _ => 0), 0) == ReadAtResult(10, None, Digits)
    ensures var a := ReadAt(New(Digits), seq(10, _ => 0), 1);
      a.n == 9 && a.buf[..9] == Digits[1..] && a.err == Some(EOF)
    ensures ReadAt(New(Digits), seq(9, _ => 0), 1) == ReadAtResult(9, None, Digits[1..])
    ensures ReadAt(New(Digits), seq(10, _ => 0), 11).n == 0
    ensures ReadAt(New(Digits), seq(10, _ => 0), 11).err == Some(EOF)
    ensures ReadAt(New(Digits), [], 0) == ReadAtResult(0, None, [])
    ensures ReadAt(New(Digits), [], -1) == ReadAtResult(0, Some(NegativeOffset), [])
  {
    var a0 := ReadAt(New(Digits), seq(10, _ => 0), 0);
    assert a0.buf == a0.buf[..10];
    var a := ReadAt(New(Digits), seq(9, _ => 0), 1);
    assert a.buf == a.buf[..9];
  }

  /** One row of the seek-then-read table: Seek, then Read into a buffer of
      n zero bytes. */
  datatype Row = Row(seek: SeekResult, read: ReadResult)

  function SeekThenRead(r: Reader, offset: int, whence: int, n: nat): Row
    requires r.Valid() && IsInt64(offset)
  {
    var sk := Seek(r, offset, whence);
    Row(sk, Read(sk.next, seq(n, _ => 0)))
  }

  /** The bytes a row's Read handed over. */
  function Got(row: Row): seq<byte>
    requires 0 <= row.read.n <= |row.read.buf|
  {
    row.read.buf[..row.read.n]
  }

  /** Rows 1 to 3 of the seek-then-read table on "0123456789", run on one
      reader: read all ten bytes from the start, then "1" from offset 1, then
      "34" after a relative seek to 3. */
  lemma SeekReadDigitsFirstRows()
    ensures var a := SeekThenRead(New(Digits), 0, SeekStart, 20);
      var b := SeekThenRead(a.read.next, 1, SeekStart, 1);
      var c := SeekThenRead(b.read.next, 1, SeekCurrent, 2);
      && a.seek.err == None && a.read.err == None && Got(a) == Digits
      && b.seek.err == None && b.read.err == None && Got(b) == [0x31]
      && c.seek.err == None && c.seek.pos == 3 && c.read.err == None && Got(c) == [0x33, 0x34]
      && c.read.next == Reader(Digits, 5, OpRead)
  {
    var a := SeekThenRead(New(Digits), 0, SeekStart, 20);
    assert a.read.n == 10 && a.read.next == Reader(Digits, 10, OpRead);
    assert Got(a) == Digits[0..10] == Digits;
    var b := SeekThenRead(a.read.next, 1, SeekStart, 1);
    assert b.read.n == 1 && b.read.next == Reader(Digits, 2, OpRead);
    assert Got(b) == Digits[1..2] == [0x31];
    var c := SeekThenRead(b.read.next, 1, SeekCurrent, 2);
    assert c.seek.next == Reader(Digits, 3, OpInvalid);
    assert c.read.n == 2;
    assert Got(c) == Digits[3..5] == [0x33, 0x34];
  }

  /** Rows 4 to 6, continuing from offset 5: a seek to -1 fails and the
      empty Read after it reports no error; a seek to 2^33 succeeds and the
      Read reports EOF; a relative seek to 2^33 + 1 does the same. */
  lemma SeekReadDigitsMiddleRows()
    ensures var a := SeekThenRead(Reader(Digits, 5, OpRead), -1, SeekStart, 0);
      var b := SeekThenRead(a.read.next, 0x2_0000_0000, SeekStart, 0);
      var c := SeekThenRead(b.read.next, 1, SeekCurrent, 0);
      && a.seek.err == Some(NegativePosition) && a.read.err == None && a.read.n == 0
      && b.seek.err == None && b.seek.pos == 0x2_0000_0000 && b.read.err == Some(EOF) && b.read.n == 0
      && c.seek.err == None && c.seek.pos == 0x2_0000_0001 && c.read.err == Some(EOF) && c.read.n == 0
      && c.read.next == Reader(Digits, 0x2_0000_0001, OpInvalid)
  {
    var a := SeekThenRead(Reader(Digits, 5, OpRead), -1, SeekStart, 0);
    assert a.seek.next == Reader(Digits, 5, OpInvalid);
    assert a.read.next == Reader(Digits, 5, OpInvalid);
    var b := SeekThenRead(a.read.next, 0x2_0000_0000, SeekStart, 0);
    assert b.read.next == Reader(Digits, 0x2_0000_0000, OpInvalid);
  }

  /** Rows 7 to 9, continuing past the end: back to the start for "01234",
      a relative seek of 0 for "56789", and -1 from the end, at 9, for
      "9". */
  lemma SeekReadDigitsLastRows()
    ensures var a := SeekThenRead(Reader(Digits, 0x2_0000_0001, OpInvalid), 0, SeekStart, 5);
      var b := SeekThenRead(a.read.next, 0, SeekCurrent, 5);
      var c := SeekThenRead(b.read.next, -1, SeekEnd, 1);
      && a.seek.err == None && a.read.err == None && Got(a) == [0x30, 0x31, 0x32, 0x33, 0x34]
      && b.seek.err == None && b.read.err == None && Got(b) == [0x35, 0x36, 0x37, 0x38, 0x39]
      && c.seek.err == None && c.seek.pos == 9 && c.read.err == None && Got(c) == [0x39]
  {
    var a := SeekThenRead(Reader(Digits, 0x2_0000_0001, OpInvalid), 0, SeekStart, 5);
    assert a.read.n == 5 && a.read.next == Reader(Digits, 5, OpRead);
    assert Got(a) == Digits[0..5] == [0x30, 0x31, 0x32, 0x33, 0x34];
    var b := SeekThenRead(a.read.next, 0, SeekCurrent, 5);
    assert b.seek.next == Reader(Digits, 5, OpInvalid);
    assert b.read.n == 5 && b.read.next == Reader(Digits, 10, OpRead);
    assert Got(b) == Digits[5..10] == [0x35, 0x36, 0x37, 0x38, 0x39];
    var c := SeekThenRead(b.read.next, -1, SeekEnd, 1);
    assert c.seek.next == Reader(Digits, 9, OpInvalid);
    assert c.read.n == 1;
    assert Got(c) == Digits[9..10] == [0x39];
  }

  /** "hello world": a Read of 10 leaves Len 1, a Read of 1 leaves Len 0. */
  lemma LenAfterReads()
    ensures var hello: seq<byte> := [0x68, 0x65, 0x6c, 0x6c, 0x6f, 0x20, 0x77, 0x6f, 0x72, 0x6c, 0x64];
      var r1 := Read(New(hello), seq(10, _ => 0));
      var r2 := Read(r1.next, [0]);
      && Len(New(hello)) == 11
      && r1.n == 10 && r1.err == None && Len(r1.next) == 1
      && r2.n == 1 && r2.err == None && Len(r2.next) == 0
  {
  }

  /** "こんにちは!" is six runes but sixteen bytes, and Len reports 16. */
  lemma LenOfJapaneseGreeting()
    ensures var text := [0x3053, 0x3093, 0x306B, 0x3061, 0x306F, 0x21];
      Utf8.AllScalars(text) && Len(New(Utf8.EncodeAll(text))) == 16
  {
    var text := [0x3053, 0x3093, 0x306B, 0x3061, 0x306F, 0x21];
    assert |Utf8.EncodeAll(text[5..])| == 1;
    assert |Utf8.EncodeAll(text[4..])| == 4;
    assert |Utf8.EncodeAll(text[3..])| == 7;
    assert |Utf8.EncodeAll(text[2..])| == 10;
    assert |Utf8.EncodeAll(text[1..])| == 13;
  }
}
