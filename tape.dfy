/**
  The repeating tape that a RepeatReader serves: its content read from a
  start offset to the end, then again from offset 0, as often as needed.

  `Tape(c, p, n)` is the sequence of the next `n` items when a cursor over
  `c` stands at offset `p`, and `Pos(c, p, n)` is where that cursor stands
  afterwards. Both take one item at a time and wrap only when the cursor
  stands at the end of the content, as the reader does when its cursor
  reports that nothing is left, so they speak about the cursor's real
  offset (which may be `|c|`, not only `0`, after a full lap). `TapeAt`
  states the same tape as the modular index formula, and
  `TapeIsRepeatedPrefix` as the content repeated and truncated.
 */
module Tapes {

  /** The first `n` items read from `c` starting at offset `p`, wrapping to 0 at the end. */
  function Tape<T>(c: seq<T>, p: nat, n: nat): (r: seq<T>)
    requires p <= |c|
    requires |c| > 0 || n == 0
    ensures |r| == n
    decreases n, if p == |c| then 1 else 0
  {
    if n == 0 then []
    else if p == |c| then Tape(c, 0, n)
    else [c[p]] + Tape(c, p + 1, n - 1)
  }

  /** The cursor offset after reading `n` items of the tape from offset `p`. */
  function Pos<T>(c: seq<T>, p: nat, n: nat): (r: nat)
    requires p <= |c|
    requires |c| > 0 || n == 0
    ensures r <= |c|
    ensures n == 0 ==> r == p
    ensures n > 0 ==> r > 0
    decreases n, if p == |c| then 1 else 0
  {
    if n == 0 then p
    else if p == |c| then Pos(c, 0, n)
    else Pos(c, p + 1, n - 1)
  }

  /** `k` copies of `c`, one after the other. */
  function Repeated<T>(c: seq<T>, k: nat): (r: seq<T>)
    ensures |r| == k * |c|
  {
    if k == 0 then [] else c + Repeated(c, k - 1)
  }

  /** The cursor offset after `a` items and then `b` more is the offset after `a + b` items. */
  lemma {:induction false} PosSplit<T>(c: seq<T>, p: nat, a: nat, b: nat)
    requires p <= |c|
    requires |c| > 0 || a + b == 0
    ensures Pos(c, p, a + b) == Pos(c, Pos(c, p, a), b)
    decreases a, if p == |c| then 1 else 0
  {
    if a == 0 {
    } else if p == |c| {
      PosSplit(c, 0, a, b);
    } else {
      PosSplit(c, p + 1, a - 1, b);
    }
  }

  /** Reading `a` items and then `b` more is reading `a + b` items. */
  lemma {:induction false} TapeSplit<T>(c: seq<T>, p: nat, a: nat, b: nat)
    requires p <= |c|
    requires |c| > 0 || a + b == 0
    ensures Tape(c, p, a + b) == Tape(c, p, a) + Tape(c, Pos(c, p, a), b)
    ensures Pos(c, p, a + b) == Pos(c, Pos(c, p, a), b)
    decreases a, if p == |c| then 1 else 0
  {
    PosSplit(c, p, a, b);
    if a == 0 {
      assert Tape(c, p, a) == [];
    } else if p == |c| {
      TapeSplit(c, 0, a, b);
      WrapStep(c, a, b);
    } else {
      TapeSplit(c, p + 1, a - 1, b);
      ConsStep(c, p, a, b);
    }
  }

  /** `TapeSplit` at the end of the content follows from `TapeSplit` at offset 0. */
  lemma WrapStep<T>(c: seq<T>, a: nat, b: nat)
    requires |c| > 0
    requires Tape(c, 0, a + b) == Tape(c, 0, a) + Tape(c, Pos(c, 0, a), b)
    ensures Tape(c, |c|, a + b) == Tape(c, |c|, a) + Tape(c, Pos(c, |c|, a), b)
  {
    if a > 0 {
      assert Tape(c, |c|, a + b) == Tape(c, 0, a + b);
      assert Tape(c, |c|, a) == Tape(c, 0, a);
      assert Pos(c, |c|, a) == Pos(c, 0, a);
    }
  }

  /** `TapeSplit` before the end of the content follows from `TapeSplit` one item further on. */
  lemma ConsStep<T>(c: seq<T>, p: nat, a: nat, b: nat)
    requires p < |c| && a > 0
    requires Tape(c, p + 1, a - 1 + b) == Tape(c, p + 1, a - 1) + Tape(c, Pos(c, p + 1, a - 1), b)
    ensures Tape(c, p, a + b) == Tape(c, p, a) + Tape(c, Pos(c, p, a), b)
  {
    var head, tail, rest := [c[p]], Tape(c, p + 1, a - 1), Tape(c, Pos(c, p + 1, a - 1), b);
    assert Tape(c, p, a + b) == head + (tail + rest);
    assert Tape(c, p, a) == head + tail;
    assert Pos(c, p, a) == Pos(c, p + 1, a - 1);
    AppendAssoc(head, tail, rest);
  }

  /** Concatenation is associative. */
  lemma AppendAssoc<T>(x: seq<T>, y: seq<T>, z: seq<T>)
    ensures x + (y + z) == (x + y) + z
  {
  }

  /** Within one lap the tape is a plain slice of the content. */
  lemma {:induction false} TapeWithinLap<T>(c: seq<T>, p: nat, n: nat)
    requires p + n <= |c|
    ensures Tape(c, p, n) == c[p..p + n] && Pos(c, p, n) == p + n
    decreases n
  {
    if n > 0 {
      TapeWithinLap(c, p + 1, n - 1);
      assert c[p..p + n] == [c[p]] + c[p + 1..p + n];
    }
  }

  /** After the cursor reaches the end of the content, the next `k` items are the content's first `k`. */
  lemma WrapThenLap<T>(c: seq<T>, p: nat, a: nat, k: nat)
    requires p <= |c| && 0 < k <= |c|
    requires Pos(c, p, a) == |c|
    ensures Tape(c, p, a + k) == Tape(c, p, a) + c[..k]
    ensures Pos(c, p, a + k) == k
  {
    TapeSplit(c, p, a, k);
    TapeWithinLap(c, 0, k);
  }

  /** Wrap-around correctness: item `i` of the tape is `c[(p + i) mod |c|]`. */
  lemma {:induction false} TapeAt<T>(c: seq<T>, p: nat, n: nat, i: nat)
    requires p <= |c| && |c| > 0
    requires i < n
    ensures Tape(c, p, n)[i] == c[(p + i) % |c|]
    decreases n, if p == |c| then 1 else 0
  {
    if p == |c| {
      assert Tape(c, p, n) == Tape(c, 0, n);
      TapeAt(c, 0, n, i);
      ShiftMod(i, |c|);
    } else {
      assert Tape(c, p, n) == [c[p]] + Tape(c, p + 1, n - 1);
      if i == 0 {
        assert p % |c| == p;
      } else {
        TapeAt(c, p + 1, n - 1, i - 1);
        assert (p + 1) + (i - 1) == p + i;
      }
    }
  }

  /** Reading a whole number of laps from offset 0 yields that many copies of the content. */
  lemma {:induction false} TapeLaps<T>(c: seq<T>, k: nat)
    requires |c| > 0
    ensures Tape(c, 0, k * |c|) == Repeated(c, k)
  {
    if k > 0 {
      var rest := (k - 1) * |c|;
      assert k * |c| == |c| + rest;
      TapeSplit(c, 0, |c|, rest);
      TapeWithinLap(c, 0, |c|);
      assert c[0..|c|] == c;
      TapeLaps(c, k - 1);
      assert Tape(c, |c|, rest) == Tape(c, 0, rest);
    }
  }

  /**
    The tape from offset 0 is the content repeated as often as needed and
    truncated: any number of copies that covers `n` items gives the same prefix.
   */
  lemma TapeIsRepeatedPrefix<T>(c: seq<T>, n: nat, k: nat)
    requires |c| > 0 || n == 0
    requires n <= k * |c|
    ensures Tape(c, 0, n) == Repeated(c, k)[..n]
  {
    if |c| > 0 {
      TapeLaps(c, k);
      TapeSplit(c, 0, n, k * |c| - n);
    }
  }

  /** One more copy of `c` can be added at the back as well as at the front. */
  lemma {:induction false} RepeatedSnoc<T>(c: seq<T>, k: nat)
    ensures Repeated(c, k + 1) == Repeated(c, k) + c
  {
    if k > 0 {
      RepeatedSnoc(c, k - 1);
      assert Repeated(c, k + 1) == c + (Repeated(c, k - 1) + c);
    }
  }

  /** `m` whole laps from offset 0 and then `k` items more: `m` copies of `c` and the first `k` items of `c`. */
  lemma LapsThenPrefix<T>(c: seq<T>, m: nat, k: nat)
    requires |c| > 0 && k <= |c|
    ensures Tape(c, 0, m * |c| + k) == Repeated(c, m) + c[..k]
  {
    TapeIsRepeatedPrefix(c, m * |c| + k, m + 1);
    RepeatedSnoc(c, m);
    assert (Repeated(c, m) + c)[..m * |c| + k] == Repeated(c, m) + c[..k];
  }

  /** Adding one modulus does not change the remainder. */
  lemma ShiftMod(x: nat, m: nat)
    requires m > 0
    ensures (m + x) % m == x % m
  {
    var q, r := x / m, x % m;
    var q', r' := (m + x) / m, (m + x) % m;
    var d := q + 1 - q';
    assert d * m == r' - r by {
      assert x == q * m + r && m + x == q' * m + r';
    }
    if d > 0 {
      assert d * m >= m by { MulAtLeast(d, m); }
    } else if d < 0 {
      assert (-d) * m >= m by { MulAtLeast(-d, m); }
    }
  }

  /** A positive multiple of `m` is at least `m`. */
  lemma MulAtLeast(d: int, m: nat)
    requires d >= 1
    ensures d * m >= m
  {
  }
}
