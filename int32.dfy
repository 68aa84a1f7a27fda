/** 32-bit two's-complement integers, the width of C++ `int` on the platforms
    the benchmark runs on. Signed overflow is formally undefined in C++; the
    benchmark relies on the usual wrap-around, which `Wrap32` makes explicit. */
module Int32Arith {

  const TwoTo32: int := 0x1_0000_0000
  const MinInt32: int := -0x8000_0000
  const MaxInt32: int := 0x7fff_ffff

  type Int32 = x: int | MinInt32 <= x <= MaxInt32

  /** The 32-bit two's-complement value of `x`: the Int32 congruent to `x`
      modulo 2^32. */
  function Wrap32(x: int): (r: Int32)
    ensures (x - r) % TwoTo32 == 0
  {
    var y := x % TwoTo32;
    assert x == (x / TwoTo32) * TwoTo32 + y;
    if y <= MaxInt32 then y else y - TwoTo32
  }

  /** `x` is a multiple of 2^32, given by its quotient. */
  lemma MultipleByQuotient(x: int)
    requires x % TwoTo32 == 0
    ensures x == (x / TwoTo32) * TwoTo32
  {
  }

  lemma {:induction false} MultipleOf(x: int, k: int)
    requires x == k * TwoTo32
    ensures x % TwoTo32 == 0
  {
    assert x / TwoTo32 == k;
  }

  /** Only one Int32 is congruent to `x`: Wrap32 is the canonical choice. */
  lemma {:induction false} WrapUnique(x: int, r: Int32)
    requires (x - r) % TwoTo32 == 0
    ensures Wrap32(x) == r
  {
    var w := Wrap32(x);
    MultipleByQuotient(x - r);
    MultipleByQuotient(x - w);
    var k := (x - r) / TwoTo32 - (x - w) / TwoTo32;
    assert w - r == k * TwoTo32;
  }

  /** Values already in range are left alone. */
  lemma WrapOfInt32(x: Int32)
    ensures Wrap32(x) == x
  {
    WrapUnique(x, x);
  }

  /** Wrapping an intermediate result of a multiplication does not change the
      wrapped final result: this is why a loop that wraps after every step
      computes the wrapped mathematical product. */
  lemma {:induction false} WrapMul(a: int, b: int)
    ensures Wrap32(Wrap32(a) * b) == Wrap32(a * b)
  {
    var w := Wrap32(a);
    MultipleByQuotient(a - w);
    var q := (a - w) / TwoTo32;
    var r := Wrap32(a * b);
    MultipleByQuotient(a * b - r);
    var q' := (a * b - r) / TwoTo32;
    calc {
      w * b - r;
      (a - q * TwoTo32) * b - r;
      (a * b - r) - q * b * TwoTo32;
      q' * TwoTo32 - q * b * TwoTo32;
      { assert q' * TwoTo32 - q * b * TwoTo32 == (q' - q * b) * TwoTo32; }
      (q' - q * b) * TwoTo32;
    }
    MultipleOf(w * b - r, q' - q * b);
    WrapUnique(w * b, r);
  }
}
