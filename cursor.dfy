/**
  The in-memory byte source a RepeatReader wraps: a cursor over a fixed
  byte sequence, as `std::io::Cursor` is over a slice or a string. Only the
  two operations the reader uses are modelled: a positional read into part
  of a caller's buffer, and a seek back to offset 0.
 */
module Cursors {

  /** An unsigned 8-bit value, Rust's `u8`. */
  newtype byte = b: int | 0 <= b < 256

  class Cursor {
    /** The bytes the cursor reads; the reader never changes them. */
    const content: seq<byte>
    /** The offset of the next byte to read. */
    var pos: nat

    ghost predicate Valid()
      reads this
    {
      pos <= |content|
    }

    /** A cursor over `content`, standing at offset 0. */
    constructor (content: seq<byte>)
      ensures Valid()
      ensures this.content == content && pos == 0
    {
      this.content := content;
      pos := 0;
    }

    /**
      Reads into `buf[lo..hi]`: copies as many bytes as fit there and as are
      left before the end of the content, starting at `pos`, into the front of
      that window, advances `pos` past them and returns their number. At the
      end of the content it returns 0 and changes nothing.
     */
    method Read(buf: array<byte>, lo: nat, hi: nat) returns (n: nat)
      requires Valid()
      requires lo <= hi <= buf.Length
      modifies this, buf
      ensures Valid()
      ensures n <= hi - lo && n <= |content| - old(pos)
      ensures n == hi - lo || n == |content| - old(pos)
      ensures pos == old(pos) + n
      ensures forall i | lo <= i < lo + n :: buf[i] == content[old(pos) + (i - lo)]
      ensures forall i | 0 <= i < lo || lo + n <= i < buf.Length :: buf[i] == old(buf[i])
    {
      n := if hi - lo < |content| - pos then hi - lo else |content| - pos;
      forall i | lo <= i < lo + n {
        buf[i] := content[pos + (i - lo)];
      }
      pos := pos + n;
    }

    /** Seeks to offset 0 from the start. */
    method SeekToStart()
      requires Valid()
      modifies this
      ensures Valid()
      ensures pos == 0
    {
      pos := 0;
    }
  }
}
