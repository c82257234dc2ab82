/** The in-memory byte stream (`io.BytesIO`) the extractor reads from: fixed
    contents and a cursor that `seek` and `read` move. */
module Streams {
  import opened LittleEndian

  /** What `read(n)` returns at cursor `pos`: up to `n` bytes, fewer when the
      end is near, none when the cursor is at or past the end. */
  function Peek(data: seq<Byte>, pos: nat, n: nat): (chunk: seq<Byte>)
    ensures |chunk| <= n
    ensures |chunk| == n <==> pos + n <= |data| || n == 0
    ensures pos < |data| ==> pos + |chunk| == Min(pos + n, |data|) && chunk == data[pos..pos + |chunk|]
    ensures pos >= |data| ==> chunk == []
  {
    if pos >= |data| then [] else data[pos..Min(pos + n, |data|)]
  }

  function Min(a: int, b: int): int { if a <= b then a else b }

  function Max(a: int, b: int): int { if a <= b then b else a }

  class ByteStream {
    /** The buffer's contents; reading never changes them. */
    const data: seq<Byte>
    /** The cursor. It may lie past the end: seeking there is legal. */
    var pos: nat

    constructor (content: seq<Byte>)
      ensures data == content && pos == 0
    {
      data := content;
      pos := 0;
    }

    /** `seek(offset)`: move the cursor to an absolute offset. */
    method Seek(offset: nat)
      modifies this
      ensures pos == offset
    {
      pos := offset;
    }

    /** `seek(offset, 1)`: move the cursor relative to where it is; a target
        before the start of the buffer puts the cursor at 0. */
    method SeekRelative(offset: int)
      modifies this
      ensures pos == Max(0, old(pos) + offset)
    {
      pos := Max(0, pos + offset);
    }

    /** `read(n)`: return the next bytes, up to `n` of them, and move the cursor
        past what was returned. */
    method Read(n: nat) returns (chunk: seq<Byte>)
      modifies this
      ensures chunk == Peek(data, old(pos), n)
      ensures pos == old(pos) + |chunk|
      ensures |chunk| == n <==> old(pos) + n <= |data| || n == 0
      ensures old(pos) + n <= |data| ==> chunk == data[old(pos)..old(pos) + n]
    {
      chunk := Peek(data, pos, n);
      pos := pos + |chunk|;
    }
  }
}
