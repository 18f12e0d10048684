/** Vocabulary shared by the reader model: Go's byte, the error values the
    reader returns, seek anchors, the reply of an io.Writer and Go's builtin
    copy. */
module Io {

  /** A Go byte: an unsigned 8-bit integer. */
  type byte = b: int | 0 <= b < 256

  /** Go's nil-or-error, and any other optional value. */
  datatype Option<+T> = None | Some(value: T)

  /** The errors the reader can report. WriterError stands for any error a
      writer reports itself, which the reader passes on unchanged. */
  datatype Error =
    | EOF                 // io.EOF: no more input
    | ShortWrite          // io.ErrShortWrite: the writer took fewer bytes than offered
    | NegativeOffset      // ReadAt with an offset below zero
    | AtBeginning         // UnreadByte at offset zero
    | NotAfterReadRune    // UnreadRune not directly after ReadRune
    | InvalidWhence       // Seek with an unknown anchor
    | NegativePosition    // Seek to a position below zero
    | WriterError(code: int)

  /** Seek anchors, with the values of io.SeekStart, io.SeekCurrent and io.SeekEnd. */
  const SeekStart: int := 0
  const SeekCurrent: int := 1
  const SeekEnd: int := 2

  function Min(a: int, b: int): int {
    if a <= b then a else b
  }

  /** What a writer answers to one Write call: the number of bytes it took
      and the error it reports. */
  datatype WriteReply = WriteReply(n: int, err: Option<Error>)

  /** The result of Go's builtin copy: the count copied and the destination
      after the copy. */
  datatype Copied = Copied(n: nat, dst: seq<byte>)

  /** Go's builtin copy(dst, src): as many bytes as both sides hold are
      copied to the front of dst; the rest of dst keeps its old bytes. */
  function Copy(dst: seq<byte>, src: seq<byte>): (c: Copied)
    ensures c.n == Min(|dst|, |src|)
    ensures |c.dst| == |dst|
    ensures c.dst[..c.n] == src[..c.n]
    ensures c.dst[c.n..] == dst[c.n..]
  {
    var n := Min(|dst|, |src|);
    Copied(n, src[..n] + dst[n..])
  }
}
