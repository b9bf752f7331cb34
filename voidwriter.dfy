/**
  A writer that accepts every byte and keeps none of them, counting only
  how many bytes it was given (`wrote`) and how many `Write` calls it
  served (`calls`). Writing and flushing never fail.
 */
module VoidWriters {
  import opened Cursors

  class VoidWriter {
    /** The number of bytes accepted so far. */
    var wrote: nat
    /** The number of `Write` calls served so far. */
    var calls: nat

    /** A writer that has accepted nothing yet, as the derived `Default` builds it. */
    constructor ()
      ensures Wrote() == 0 && Calls() == 0
    {
      wrote := 0;
      calls := 0;
    }

    /** The number of bytes written to this writer. */
    function Wrote(): (n: nat)
      reads this
      ensures n == wrote
    {
      wrote
    }

    /** The number of calls to `Write` on this writer. */
    function Calls(): (n: nat)
      reads this
      ensures n == calls
    {
      calls
    }

    /**
      Discards `buf` and reports all of it accepted: `wrote` grows by its
      length, `calls` by one, even for an empty `buf`.
     */
    method Write(buf: seq<byte>) returns (n: nat)
      modifies this
      ensures n == |buf|
      ensures Wrote() == old(Wrote()) + |buf|
      ensures Calls() == old(Calls()) + 1
    {
      wrote := wrote + |buf|;
      calls := calls + 1;
      n := |buf|;
    }

    /** Does nothing and succeeds: both counters are left as they were. */
    method Flush()
      modifies this
      ensures Wrote() == old(Wrote()) && Calls() == old(Calls())
    {
    }
  }

  /** The total number of bytes in a list of buffers. */
  function TotalLength(bufs: seq<seq<byte>>): (total: nat)
    ensures bufs == [] ==> total == 0
  {
    if bufs == [] then 0 else TotalLength(bufs[..|bufs| - 1]) + |bufs[|bufs| - 1]|
  }

  /** The byte count of two lists of buffers, one after the other, is the sum of their counts. */
  lemma {:induction false} TotalLengthAppend(a: seq<seq<byte>>, b: seq<seq<byte>>)
    ensures TotalLength(a + b) == TotalLength(a) + TotalLength(b)
    decreases |b|
  {
    if b != [] {
      var last := |b| - 1;
      assert (a + b)[..|a + b| - 1] == a + b[..last];
      assert (a + b)[|a + b| - 1] == b[last];
      assert TotalLength(a + b) == TotalLength(a + b[..last]) + |b[last]|;
      assert TotalLength(b) == TotalLength(b[..last]) + |b[last]|;
      TotalLengthAppend(a, b[..last]);
    } else {
      assert a + b == a;
    }
  }

  /**
    Writes each buffer of `bufs` in turn. The counters then hold the sum of
    the buffers' lengths and the number of buffers, on top of what they held,
    so they never decrease.
   */
  method WriteAll(w: VoidWriter, bufs: seq<seq<byte>>)
    modifies w
    ensures w.Wrote() == old(w.Wrote()) + TotalLength(bufs)
    ensures w.Calls() == old(w.Calls()) + |bufs|
  {
    var i := 0;
    while i < |bufs|
      invariant i <= |bufs|
      invariant w.Wrote() == old(w.Wrote()) + TotalLength(bufs[..i])
      invariant w.Calls() == old(w.Calls()) + i
    {
      var n := w.Write(bufs[i]);
      assert bufs[..i + 1][..i] == bufs[..i];
      i := i + 1;
    }
    assert bufs[..i] == bufs;
  }

  /**
    Copies what is left of `src` into `w` through a buffer of `chunk` bytes,
    as the standard library's `copy` does, and returns the number of bytes
    copied: everything from the cursor to the end of the content, all of it
    counted by the writer.
   */
  method Copy(src: Cursor, w: VoidWriter, chunk: nat) returns (copied: nat)
    requires src.Valid() && chunk > 0
    modifies src, w
    ensures src.Valid() && src.pos == |src.content|
    ensures copied == |src.content| - old(src.pos)
    ensures w.Wrote() == old(w.Wrote()) + copied
  {
    var buf := new byte[chunk];
    copied := 0;
    while true
      invariant src.Valid()
      invariant src.pos == old(src.pos) + copied
      invariant w.Wrote() == old(w.Wrote()) + copied
      decreases |src.content| - src.pos
    {
      var n := src.Read(buf, 0, chunk);
      if n == 0 {
        break;
      }
      var accepted := w.Write(buf[..n]);
      copied := copied + accepted;
    }
  }

  /** The documented example: copying a cursor over 100 zero bytes into a new writer. */
  method CopyHundredZeros() returns (read: nat, wrote: nat)
    ensures read == 100 && wrote == 100
  {
    var reader := new Cursor(seq(100, _ => 0));
    var writer := new VoidWriter();
    read := Copy(reader, writer, 8);
    wrote := writer.Wrote();
  }

  /** Three writes of 0, 10 and 100 bytes, then a flush: 110 bytes in 3 calls. */
  method WriteThenFlush() returns (wrote: nat, calls: nat)
    ensures wrote == 110 && calls == 3
  {
    var writer := new VoidWriter();
    var bufs: seq<seq<byte>> := [[], seq(10, _ => 1), seq(100, _ => 2)];
    assert bufs[..2][..1] == [[]] && bufs[..2][1] == seq(10, _ => 1);
    assert TotalLength(bufs) == TotalLength([[]]) + 10 + 100;
    WriteAll(writer, bufs);
    writer.Flush();
    wrote, calls := writer.Wrote(), writer.Calls();
  }
}
