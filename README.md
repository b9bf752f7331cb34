# Repeating reader and counting sink

A verified Dafny model of the two stream helpers of the `test-utils` crate:

- `RepeatReader` (`src/streams/repeatreader.rs`) is a bounded reader. It
  serves exactly `size` bytes. It reads its content from an in-memory cursor
  and seeks the cursor back to offset 0 whenever the cursor runs dry.
- `VoidWriter` (`src/streams/voidwriter.rs`) is a writer that discards
  everything it is given. It counts the bytes written and the calls to `write`.

The model has four modules, one per file:

- `Cursors` (`cursor.dfy`) is the in-memory byte source, a `Cursor` class over
  a fixed `seq<byte>` with an offset `pos <= |content|`. It has a positional
  `Read` into part of a caller's array and `SeekToStart`. `byte` is a newtype
  for `u8`.
- `Tapes` (`tape.dfy`) holds the specification functions:
  - `Tape(c, p, n)` is the next `n` bytes the reader serves when the cursor
    stands at `p`. It takes one byte at a time and wraps to 0 only at the end
    of the content, as the read loop does.
  - `Pos(c, p, n)` is where the cursor then stands.
  - `Repeated(c, k)` is `k` copies of `c`.
  - The lemmas relate the tape to the modular formula `c[(p + i) % |c|]`, to
    a repeated and truncated content, and to itself split at any point.
- `RepeatReaders` (`repeatreader.dfy`) holds the `RepeatReader` class, the
  read loop over a caller's `array<byte>`, a drain loop standing in for
  `read_to_string`, and the crate's `read` test as lemmas and a method.
- `VoidWriters` (`voidwriter.dfy`) holds the `VoidWriter` class, a loop
  writing a list of buffers, the standard `copy` loop, and the documented
  examples.

`wrote()`, `calls()` and `left()` are functions: they read state and change
nothing. The monotonicity of the `VoidWriter` counters follows from the
`ensures` clauses of `Write` and `Flush`, and `WriteAll` states it for any
sequence of writes.

## Model

| member | source | states |
|---|---|---|
| `Cursors.Cursor.constructor` | src/streams/repeatreader.rs:52 | a cursor over `content` at offset 0 |
| `Cursors.Cursor.Read` | src/streams/repeatreader.rs:94-97 | a cursor read copies `min(window, bytes left)` bytes from `pos` into the front of the window, advances `pos` by that many, and leaves every other byte of the buffer unchanged |
| `Cursors.Cursor.SeekToStart` | src/streams/repeatreader.rs:96 | seeking from the start to 0 puts the cursor at offset 0 |
| `RepeatReaders.ReadLength` | src/streams/repeatreader.rs:88-92 | the length served is at most the buffer length and at most `left()`, and equals one of them |
| `RepeatReaders.RepeatReader.Left` | src/streams/repeatreader.rs:31-34 | `left()` never exceeds `size`, and `read + left() == size` (no underflow, since `read <= size` is the class invariant) |
| `RepeatReaders.RepeatReader.constructor` | src/streams/repeatreader.rs:23-29 | a new reader keeps `size` and the given cursor wherever it stands, has `read == 0` and so `left() == size` |
| `RepeatReaders.RepeatReader.FromSlice` | src/streams/repeatreader.rs:51-53 | a reader over a new cursor on the slice at offset 0, with `left() == size` |
| `RepeatReaders.RepeatReader.FromStr` | src/streams/repeatreader.rs:65-67 | a reader over a new cursor on the string's bytes at offset 0, with `left() == size` |
| `RepeatReaders.RepeatReader.Reset` | src/streams/repeatreader.rs:76-80 | after a reset the cursor is at 0, `read == 0` and `left() == size` |
| `RepeatReaders.RepeatReader.Read` | src/streams/repeatreader.rs:87-103 | returns `min(buf.len(), left())`, and `read` grows by exactly that; byte `i` of the filled prefix is item `i` of the tape and equals `content[(p + i) % |content|]`; bytes at and past the returned length are unchanged; the cursor ends at `Pos`; with `left() == 0` or an empty buffer nothing changes |
| `RepeatReaders.RepeatReader.FillFromContents` | src/streams/repeatreader.rs:94-98 | the read loop terminates and fills `buf[..ln]` with the first `ln` bytes of the tape from the cursor's offset, leaves the rest of `buf` alone and leaves the cursor at `Pos(c, p, ln)` |
| `RepeatReaders.RepeatReader.RefillFromStart` | src/streams/repeatreader.rs:95-97 | one loop turn after the cursor ran dry serves at least one byte, exactly the next bytes of the tape, and touches nothing else in `buf` |
| `RepeatReaders.ReadToEnd` | src/streams/repeatreader.rs:114 | reading until `read` returns 0 collects exactly `left()` bytes of the tape from the cursor's offset and exhausts the reader |
| `RepeatReaders.ReplayAfterReset` | src/streams/repeatreader.rs:76-80 | reading to exhaustion after a reset yields the first `size` bytes of the repeated content, and a second reset and drain yields the same bytes |
| `RepeatReaders.ReadStrToEnd` | src/streams/repeatreader.rs:112-114 | a fresh string reader drained to the end yields the bytes of `Tape(str, 0, size)` |
| `RepeatReaders.AsciiTape` | src/streams/repeatreader.rs:65-66 | the tape over a text's bytes is the bytes of the tape over the text |
| `RepeatReaders.AsciiBytes` | src/streams/repeatreader.rs:66 | an ASCII text becomes one byte per character, holding its code |
| `RepeatReaders.HelloWorldOneLap` | src/streams/repeatreader.rs:111-135 | over "hello world", sizes 0, 3 and 11 serve "", "hel" and "hello world" |
| `RepeatReaders.HelloWorldWrap` | src/streams/repeatreader.rs:117-120 | size 13 serves "hello worldhe" |
| `RepeatReaders.HelloWorldLaps` | src/streams/repeatreader.rs:127-130 | size 26 serves "hello worldhello worldhell" |
| `RepeatReaders.HelloWorldTest` | src/streams/repeatreader.rs:110-136 | five fresh readers over "hello world" of sizes 11, 3, 0, 13 and 26, drained with an 8-byte buffer, yield the bytes of "hello world", "hel", "", "hello worldhe" and "hello worldhello worldhell" |
| `Tapes.Tape` | src/streams/repeatreader.rs:94-98 | the bytes a reader serves from offset `p`: exactly `n` of them |
| `Tapes.Pos` | src/streams/repeatreader.rs:94-98 | the cursor offset after serving `n` bytes stays within the content, and is past offset 0 once a byte was served |
| `Tapes.PosSplit` | src/streams/repeatreader.rs:94-98 | the cursor offset after `a` bytes and then `b` more is the offset after `a + b` bytes |
| `Tapes.TapeSplit` | src/streams/repeatreader.rs:94-98 | serving `a` bytes and then `b` more from where the cursor stopped is serving `a + b` bytes; this is why successive reads and loop turns compose |
| `Tapes.TapeWithinLap` | src/streams/repeatreader.rs:94 | a read that does not reach the end of the content serves a plain slice `c[p..p + n]` |
| `Tapes.WrapThenLap` | src/streams/repeatreader.rs:95-97 | once the cursor is at the end, the next `k <= |c|` bytes are `c[..k]` and the cursor stands at `k` |
| `Tapes.TapeAt` | src/streams/repeatreader.rs:94-98 | byte `i` of the tape is `c[(p + i) % |c|]` |
| `Tapes.TapeLaps` | src/streams/repeatreader.rs:111-115 | `k` whole laps from offset 0 are `k` copies of the content |
| `Tapes.TapeIsRepeatedPrefix` | src/streams/repeatreader.rs:111-135 | the first `n` bytes from offset 0 are the content repeated and truncated to `n`, for any number of copies that covers `n` |
| `Tapes.LapsThenPrefix` | src/streams/repeatreader.rs:117-130 | `m * |c| + k` bytes from offset 0 are `m` copies of `c` followed by `c[..k]` |
| `VoidWriters.VoidWriter.constructor` | src/streams/voidwriter.rs:18-28 | a new writer has `wrote() == 0` and `calls() == 0` |
| `VoidWriters.VoidWriter.Wrote` | src/streams/voidwriter.rs:32-34 | returns the byte counter; a function, so reading it changes nothing |
| `VoidWriters.VoidWriter.Calls` | src/streams/voidwriter.rs:38-40 | returns the call counter; a function, so reading it changes nothing |
| `VoidWriters.VoidWriter.Write` | src/streams/voidwriter.rs:44-48 | `write` accepts the whole buffer, adds its length to `wrote` and 1 to `calls`, also for an empty buffer |
| `VoidWriters.VoidWriter.Flush` | src/streams/voidwriter.rs:50-52 | `flush` succeeds and leaves both counters unchanged |
| `VoidWriters.TotalLengthAppend` | src/streams/voidwriter.rs:44-47 | the byte count of two lists of buffers written one after the other is the sum of their counts |
| `VoidWriters.WriteAll` | src/streams/voidwriter.rs:44-47 | after writes of lengths `l1..ln`, `wrote` has grown by `l1 + … + ln` and `calls` by `n` |
| `VoidWriters.Copy` | src/streams/voidwriter.rs:12-14 | copying a cursor into the writer moves every byte left in the cursor and the writer counts all of them |
| `VoidWriters.CopyHundredZeros` | src/streams/voidwriter.rs:12-16 | the documented example copies 100 bytes and then `wrote() == 100` |
| `VoidWriters.WriteThenFlush` | src/streams/voidwriter.rs:44-52 | writes of 0, 10 and 100 bytes and a flush leave `wrote() == 110` and `calls() == 3` |

## Left out

- The generic `Read`/`Seek` bounds: the reader is modelled over the in-memory `Cursor` only, which is what `from_slice` and `from_str` build.
- I/O errors and the `Result` wrappers: an in-memory cursor never fails, and `VoidWriter` never fails, so every operation returns its value directly. `read` is updated only after the loop (line 100), so a failing source would leave it untouched; that path is not modelled.
- RepeatReaders.RepeatReader.Read: requires non-empty content whenever a byte is asked for (`buf.len() > 0` and `left() > 0`). With empty content the Rust `read` loop spins forever, so that case is excluded rather than modelled.
- Cursor offsets past the end of the content (possible with `Cursor::set_position`) are not modelled: the cursor keeps `pos <= |content|`.
- RepeatReaders.RepeatReader.FromStr: only ASCII text. The UTF-8 encoding of other characters is not modelled.
- `read_to_string` and its UTF-8 check are standard-library code. `ReadToEnd` stands in for them: it calls `Read` with a fixed-size buffer until it returns 0.
- `std::io::copy` is standard-library code. `Copy` stands in for it with a fixed-size buffer.
- The `Display` rendering of `VoidWriter` ("Wrote N bytes in M calls", with a trailing newline) is formatting machinery and is not modelled.
- `usize` overflow of `read`, `wrote` and `calls` is not modelled: the counters are unbounded `nat`s.
- Doc-test details such as `Cursor::new("hello world".bytes())` in the `new` example are not modelled.
