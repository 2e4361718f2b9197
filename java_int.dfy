/** Java's 32-bit two's-complement `int`, as far as the list's modification
    counter needs it: the counter starts at 0 and is only ever bumped with
    `++`, which wraps from the largest int to the smallest. */
module JavaInt {

  const TwoTo32: int := 0x1_0000_0000
  const MinInt: int := -0x8000_0000
  const MaxInt: int := 0x7fff_ffff

  predicate IsInt(x: int) {
    MinInt <= x <= MaxInt
  }

  /** `x++` on a Java int. */
  function Inc(x: int): (r: int)
    requires IsInt(x)
    ensures IsInt(r)
  {
    if x == MaxInt then MinInt else x + 1
  }

  /** The value of a Java int counter that starts at 0 after `n` bumps. */
  function Count(n: nat): (r: int)
    ensures IsInt(r)
  {
    if n == 0 then 0 else Inc(Count(n - 1))
  }

  /** The counter holds `n` truncated to 32 bits: `n` shifted by a whole
      multiple of 2^32 into the int range. */
  lemma {:induction false} CountIsTruncation(n: nat)
    ensures Count(n) == (n - MinInt) % TwoTo32 + MinInt
  {
    if n > 0 {
      CountIsTruncation(n - 1);
      var m := (n - 1 - MinInt) % TwoTo32;
      var q := (n - 1 - MinInt) / TwoTo32;
      assert n - 1 - MinInt == q * TwoTo32 + m;
      if m == TwoTo32 - 1 {
        assert n - MinInt == (q + 1) * TwoTo32;
      } else {
        assert n - MinInt == q * TwoTo32 + (m + 1);
      }
    }
  }

  /** Two counts less than 2^32 apart are told apart by the counter, so an
      equality test on the Java ints is exact within that window. */
  lemma CountExactWithin(a: nat, b: nat)
    requires a <= b < a + TwoTo32
    ensures Count(a) == Count(b) <==> a == b
  {
    if Count(a) == Count(b) {
      CountIsTruncation(a);
      CountIsTruncation(b);
      var qa := (a - MinInt) / TwoTo32;
      var qb := (b - MinInt) / TwoTo32;
      assert a - MinInt == qa * TwoTo32 + (Count(a) - MinInt);
      assert b - MinInt == qb * TwoTo32 + (Count(b) - MinInt);
      assert b - a == (qb - qa) * TwoTo32;
    }
  }

  /** The window is the best possible: 2^32 more bumps bring the counter
      back to the same value, so the Java test cannot tell the two apart. */
  lemma {:induction false} CountCollides(a: nat)
    ensures Count(a + TwoTo32) == Count(a)
  {
    if a == 0 {
      CountIsTruncation(TwoTo32);
    } else {
      CountCollides(a - 1);
      assert Count(a + TwoTo32) == Inc(Count(a - 1 + TwoTo32));
    }
  }

  /** After 2^31 bumps the counter has wrapped to the smallest int. */
  lemma CountWraps()
    ensures Count(0x8000_0000) == MinInt && Count(0x7fff_ffff) == MaxInt
  {
    CountIsTruncation(0x8000_0000);
    CountIsTruncation(0x7fff_ffff);
  }
}
