/** Fixed-width arithmetic as the C code uses it: unsigned 32-bit wrap-around and the
    reinterpretation of a 32-bit word as a signed number. */
module Machine32 {

  const TWO31: int := 0x8000_0000
  const TWO32: int := 0x1_0000_0000
  const INT64_MAX: int := 0x7FFF_FFFF_FFFF_FFFF

  type uint32 = x: int | 0 <= x < 0x1_0000_0000 witness 0

  /** Conversion of any integer to `uint32_t`. */
  function U32(x: int): uint32 {
    x % TWO32
  }

  /** Conversion of any integer to `int32_t`, wrapping to two's complement. */
  function I32(x: int): int {
    var u := x % TWO32;
    if u < TWO31 then u else u - TWO32
  }

  /** Two integers that differ by a multiple of 2^32 are one machine word. */
  lemma SameWord(x: int, y: int, k: int)
    requires x == y + k * TWO32
    ensures U32(x) == U32(y) && I32(x) == I32(y)
  {
    var q, r := y / TWO32, y % TWO32;
    assert x == (q + k) * TWO32 + r;
    DivModUnique(x, q + k, r);
  }

  lemma DivModUnique(x: int, q: int, r: int)
    requires x == q * TWO32 + r && 0 <= r < TWO32
    ensures x / TWO32 == q && x % TWO32 == r
  {
  }

  lemma I32InRange(x: int)
    requires -TWO31 <= x < TWO31
    ensures I32(x) == x
  {
    if x < 0 {
      DivModUnique(x, -1, x + TWO32);
    } else {
      DivModUnique(x, 0, x);
    }
  }

  /** How many times the clock's range lies between a number and its signed word. */
  lemma SignedShift(x: int) returns (k: int)
    ensures I32(U32(x)) == x + k * TWO32
  {
    var q, r := x / TWO32, x % TWO32;
    assert x == q * TWO32 + r;
    DivModUnique(r, 0, r);
    k := if r < TWO31 then -q else -q - 1;
  }

  /** A word difference read back as a signed number is the true difference, as long as the
      true difference fits: this is what makes a wrapping millisecond clock usable. */
  lemma SignedDifference(a: int, b: int)
    requires -TWO31 <= a - b < TWO31
    ensures I32(I32(U32(a)) - I32(U32(b))) == a - b
  {
    var ka := SignedShift(a);
    var kb := SignedShift(b);
    SameWord(I32(U32(a)) - I32(U32(b)), a - b, ka - kb);
    I32InRange(a - b);
  }

  /** The same for an unsigned difference. */
  lemma UnsignedDifference(a: int, b: int)
    ensures U32(U32(a) - U32(b)) == U32(a - b)
  {
    var ka := a / TWO32;
    var kb := b / TWO32;
    assert U32(a) - U32(b) == (a - b) + (kb - ka) * TWO32;
    SameWord(U32(a) - U32(b), a - b, kb - ka);
  }

  lemma WrapSum(a: int, b: int)
    ensures U32(U32(a) + b) == U32(a + b)
  {
    var k := a / TWO32;
    assert U32(a) + b == (a + b) + (-k) * TWO32;
    SameWord(U32(a) + b, a + b, -k);
  }
}
