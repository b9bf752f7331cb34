/**
  A bounded reader that serves exactly `size` bytes by reading its content
  over and over: each `Read` fills the front of the caller's buffer from the
  cursor, seeking the cursor back to offset 0 whenever it reaches the end of
  the content, and counts what it handed out in `read`.
 */
module RepeatReaders {
  import opened Tapes
  import opened Cursors

  /** The number of bytes one `Read` serves: the buffer length, capped by what is left. */
  function ReadLength(bufLen: nat, left: nat): (ln: nat)
    ensures ln <= bufLen && ln <= left
    ensures ln == bufLen || ln == left
  {
    if bufLen > left then left else bufLen
  }

  class RepeatReader {
    /** The total number of bytes this reader serves until it is reset. */
    const size: nat
    /** The owned byte source whose content is repeated. */
    const contents: Cursor
    /** The number of bytes served so far. */
    var read: nat

    ghost predicate Valid()
      reads this, contents
    {
      read <= size && contents.Valid()
    }

    /** The bytes still to be served before the reader is exhausted. */
    function Left(): (r: nat)
      reads this, contents
      requires Valid()
      ensures r <= size
      ensures read + r == size
    {
      size - read
    }

    /** A reader of `size` bytes over `contents`, wherever its cursor stands. */
    constructor (size: nat, contents: Cursor)
      requires contents.Valid()
      ensures Valid()
      ensures this.size == size && this.contents == contents && read == 0
      ensures Left() == size
    {
      this.size := size;
      this.contents := contents;
      read := 0;
    }

    /** A reader of `size` bytes over a new cursor on `slice`, at offset 0. */
    constructor FromSlice(size: nat, slice: seq<byte>)
      ensures Valid() && fresh(contents)
      ensures this.size == size && contents.content == slice && contents.pos == 0
      ensures read == 0 && Left() == size
    {
      this.size := size;
      contents := new Cursor(slice);
      read := 0;
    }

    /** A reader of `size` bytes over the bytes of the text `str`, at offset 0. */
    constructor FromStr(size: nat, str: string)
      requires IsAscii(str)
      ensures Valid() && fresh(contents)
      ensures this.size == size && contents.content == AsciiBytes(str) && contents.pos == 0
      ensures read == 0 && Left() == size
    {
      this.size := size;
      contents := new Cursor(AsciiBytes(str));
      read := 0;
    }

    /** Seeks the content back to offset 0 and forgets what was served. */
    method Reset()
      requires Valid()
      modifies this, contents
      ensures Valid()
      ensures read == 0 && contents.pos == 0
      ensures Left() == size
    {
      contents.SeekToStart();
      read := 0;
    }

    /**
      Fills the front of `buf` with the next bytes of the tape and returns how
      many: the buffer length, capped by `Left()`. The filled prefix is the
      content read on from the cursor's offset, wrapping to 0 at its end; the
      rest of `buf` is untouched, and `read` grows by exactly that many.
      The Rust `read` loop spins forever when the content is empty and a byte is asked
      for, so that case is excluded.
     */
    method Read(buf: array<byte>) returns (n: nat)
      requires Valid()
      requires |contents.content| > 0 || buf.Length == 0 || Left() == 0
      modifies this, contents, buf
      ensures Valid()
      ensures n == ReadLength(buf.Length, old(Left()))
      ensures read == old(read) + n
      ensures forall i | 0 <= i < n :: buf[i] == Tape(contents.content, old(contents.pos), n)[i]
      ensures forall i | n <= i < buf.Length :: buf[i] == old(buf[i])
      ensures forall i | 0 <= i < n :: buf[i] == contents.content[(old(contents.pos) + i) % |contents.content|]
      ensures contents.pos == Pos(contents.content, old(contents.pos), n)
    {
      var ln := ReadLength(buf.Length, Left());
      ghost var c, p := contents.content, contents.pos;
      FillFromContents(buf, ln);
      forall i | 0 <= i < ln
        ensures Tape(c, p, ln)[i] == c[(p + i) % |c|]
      {
        TapeAt(c, p, ln, i);
      }
      read := read + ln;
      n := ln;
    }

    /**
      The loop of `Read`: fills `buf[..ln]` from the cursor, seeking it back
      to offset 0 each time it reaches the end of the content before `ln`
      bytes are in, and leaves the rest of `buf` alone.
     */
    method FillFromContents(buf: array<byte>, ln: nat)
      requires contents.Valid() && ln <= buf.Length
      requires |contents.content| > 0 || ln == 0
      modifies contents, buf
      ensures contents.Valid()
      ensures forall i | 0 <= i < ln :: buf[i] == Tape(contents.content, old(contents.pos), ln)[i]
      ensures forall i | ln <= i < buf.Length :: buf[i] == old(buf[i])
      ensures contents.pos == Pos(contents.content, old(contents.pos), ln)
    {
      ghost var c, p0 := contents.content, contents.pos;
      ghost var tape := Tape(c, p0, ln);
      var filled := contents.Read(buf, 0, ln);
      FirstChunk(c, p0, ln, filled);
      while filled < ln
        invariant contents.Valid()
        invariant filled <= ln
        invariant forall i | 0 <= i < filled :: buf[i] == tape[i]
        invariant forall i | filled <= i < buf.Length :: buf[i] == old(buf[i])
        invariant contents.pos == Pos(c, p0, filled)
        invariant filled < ln ==> contents.pos == |c|
        decreases ln - filled
      {
        var got := RefillFromStart(buf, filled, ln, p0);
        filled := filled + got;
      }
    }

    /**
      One turn of that loop, once the cursor has reached the end of the
      content: seeks it to offset 0 and reads on into `buf[filled..ln]`,
      which serves the next part of the tape.
     */
    method RefillFromStart(buf: array<byte>, filled: nat, ln: nat, ghost p0: nat) returns (got: nat)
      requires contents.Valid() && |contents.content| > 0
      requires filled < ln <= buf.Length && p0 <= |contents.content|
      requires contents.pos == |contents.content| == Pos(contents.content, p0, filled)
      modifies contents, buf
      ensures contents.Valid()
      ensures 0 < got <= ln - filled
      ensures contents.pos == Pos(contents.content, p0, filled + got)
      ensures filled + got < ln ==> contents.pos == |contents.content|
      ensures forall i | filled <= i < filled + got :: buf[i] == Tape(contents.content, p0, ln)[i]
      ensures forall i | 0 <= i < filled || filled + got <= i < buf.Length :: buf[i] == old(buf[i])
    {
      contents.SeekToStart();
      got := contents.Read(buf, filled, ln);
      NextChunk(contents.content, p0, ln, filled, got);
    }
  }

  /**
    Calls `Read` with a buffer of `chunk` bytes until it returns 0 and
    collects what it served, as the standard library's `read_to_end` does.
    The result is the rest of the tape: `Left()` bytes from the cursor.
   */
  method ReadToEnd(r: RepeatReader, chunk: nat) returns (out: seq<byte>)
    requires r.Valid() && chunk > 0
    requires |r.contents.content| > 0 || r.Left() == 0
    modifies r, r.contents
    ensures r.Valid() && r.Left() == 0
    ensures out == Tape(r.contents.content, old(r.contents.pos), old(r.Left()))
    ensures r.contents.pos == Pos(r.contents.content, old(r.contents.pos), old(r.Left()))
  {
    ghost var c, p0, left0 := r.contents.content, r.contents.pos, r.Left();
    var buf := new byte[chunk];
    out := [];
    while true
      invariant r.Valid()
      invariant |out| + r.Left() == left0
      invariant out == Tape(c, p0, |out|)
      invariant r.contents.pos == Pos(c, p0, |out|)
      decreases r.Left()
    {
      ghost var at := r.contents.pos;
      var n := r.Read(buf);
      if n == 0 {
        break;
      }
      assert buf[..n] == Tape(c, at, n);
      TapeSplit(c, p0, |out|, n);
      out := out + buf[..n];
    }
  }

  /**
    Resets `r` and reads it to exhaustion, twice: both passes serve the same
    bytes, the first `size` bytes of the content repeated.
   */
  method ReplayAfterReset(r: RepeatReader, chunk: nat) returns (first: seq<byte>, second: seq<byte>)
    requires r.Valid() && chunk > 0
    requires |r.contents.content| > 0 || r.size == 0
    modifies r, r.contents
    ensures r.Valid() && r.Left() == 0
    ensures first == second == Tape(r.contents.content, 0, r.size)
  {
    r.Reset();
    first := ReadToEnd(r, chunk);
    r.Reset();
    second := ReadToEnd(r, chunk);
  }

  /**
    A fresh reader over the text `str`, read to exhaustion: the bytes of the
    first `size` characters of `str` repeated.
   */
  method ReadStrToEnd(size: nat, str: string, chunk: nat) returns (out: seq<byte>)
    requires IsAscii(str) && chunk > 0
    requires |str| > 0 || size == 0
    ensures IsAscii(Tape(str, 0, size))
    ensures out == AsciiBytes(Tape(str, 0, size))
  {
    var r := new RepeatReader.FromStr(size, str);
    out := ReadToEnd(r, chunk);
    AsciiTape(str, 0, size);
  }

  /** Taking the tape of a text and then its bytes is taking the tape of its bytes. */
  lemma AsciiTape(s: string, p: nat, n: nat)
    requires IsAscii(s) && p <= |s|
    requires |s| > 0 || n == 0
    ensures IsAscii(Tape(s, p, n))
    ensures AsciiBytes(Tape(s, p, n)) == Tape(AsciiBytes(s), p, n)
  {
    var t, b := Tape(s, p, n), AsciiBytes(s);
    forall i | 0 <= i < n
      ensures t[i] == s[(p + i) % |s|]
      ensures Tape(b, p, n)[i] == b[(p + i) % |s|]
    {
      TapeAt(s, p, n, i);
      TapeAt(b, p, n, i);
    }
    assert IsAscii(t);
  }

  /** The crate's `read` test expectations for sizes 0, 3 and 11 on "hello world": at most one lap. */
  lemma HelloWorldOneLap(hw: string)
    requires hw == "hello world"
    ensures Tape(hw, 0, 0) == ""
    ensures Tape(hw, 0, 3) == "hel"
    ensures Tape(hw, 0, 11) == "hello world"
  {
    TapeWithinLap(hw, 0, 3);
    TapeWithinLap(hw, 0, 11);
  }

  /** The crate's `read` test expectation for size 13 on "hello world": one lap and two bytes more. */
  lemma HelloWorldWrap(hw: string)
    requires hw == "hello world"
    ensures Tape(hw, 0, 13) == "hello worldhe"
  {
    LapsThenPrefix(hw, 1, 2);
    assert Repeated(hw, 1) == hw;
  }

  /** The crate's `read` test expectation for size 26 on "hello world": two laps and four bytes more. */
  lemma HelloWorldLaps(hw: string)
    requires hw == "hello world"
    ensures Tape(hw, 0, 26) == "hello worldhello worldhell"
  {
    assert |hw| == 11;
    LapsThenPrefix(hw, 2, 4);
    assert Repeated(hw, 1) == hw;
    assert Repeated(hw, 2) == hw + hw;
    HelloWorldText(hw);
  }

  /** The expected text of that test: two copies of "hello world" and its first four bytes. */
  lemma HelloWorldText(hw: string)
    requires hw == "hello world"
    ensures hw + hw + hw[..4] == "hello worldhello worldhell"
  {
  }

  /**
    The crate's `read` test: fresh readers over "hello world" of sizes 11, 3,
    0, 13 and 26, each drained with an 8-byte buffer.
   */
  method HelloWorldTest() returns (o11: seq<byte>, o3: seq<byte>, o0: seq<byte>, o13: seq<byte>, o26: seq<byte>)
    ensures o11 == AsciiBytes("hello world")
    ensures o3 == AsciiBytes("hel")
    ensures o0 == []
    ensures o13 == AsciiBytes("hello worldhe")
    ensures o26 == AsciiBytes("hello worldhello worldhell")
  {
    var hello := "hello world";
    assert IsAscii(hello);
    HelloWorldOneLap(hello);
    o11 := ReadStrToEnd(11, hello, 8);
    o3 := ReadStrToEnd(3, hello, 8);
    o0 := ReadStrToEnd(0, hello, 8);
    HelloWorldWrap(hello);
    o13 := ReadStrToEnd(13, hello, 8);
    HelloWorldLaps(hello);
    o26 := ReadStrToEnd(26, hello, 8);
  }

  /** The first read stops at the end of the content or at `ln`, and serves the front of the tape. */
  lemma FirstChunk(c: seq<byte>, p: nat, ln: nat, first: nat)
    requires p <= |c| && (|c| > 0 || ln == 0)
    requires first <= ln && p + first <= |c|
    requires first == ln || p + first == |c|
    ensures forall i | 0 <= i < first :: Tape(c, p, ln)[i] == c[p + i]
    ensures Pos(c, p, first) == p + first
  {
    var t, a := Tape(c, p, ln), Tape(c, p, first);
    TapeSplit(c, p, first, ln - first);
    TapeWithinLap(c, p, first);
    forall i | 0 <= i < first
      ensures t[i] == c[p + i]
    {
      assert t[i] == a[i];
    }
  }

  /**
    A read right after seeking to 0, once the cursor had reached the end of
    the content, serves the next part of the tape.
   */
  lemma NextChunk(c: seq<byte>, p: nat, ln: nat, filled: nat, got: nat)
    requires p <= |c| && 0 < got <= |c| && filled + got <= ln
    requires Pos(c, p, filled) == |c|
    ensures forall i | filled <= i < filled + got :: Tape(c, p, ln)[i] == c[i - filled]
    ensures Pos(c, p, filled + got) == got
  {
    var t, a := Tape(c, p, ln), Tape(c, p, filled + got);
    WrapThenLap(c, p, filled, got);
    TapeSplit(c, p, filled + got, ln - (filled + got));
    forall i | filled <= i < filled + got
      ensures t[i] == c[i - filled]
    {
      assert t[i] == a[i];
    }
  }

  predicate IsAscii(s: string)
  {
    forall i | 0 <= i < |s| :: s[i] < 128 as char
  }

  /** The bytes of an ASCII text: one byte per character, its code. */
  function AsciiBytes(s: string): (b: seq<byte>)
    requires IsAscii(s)
    ensures |b| == |s|
    ensures forall i | 0 <= i < |s| :: b[i] as int == s[i] as int
  {
    seq(|s|, i requires 0 <= i < |s| => s[i] as byte)
  }
}
