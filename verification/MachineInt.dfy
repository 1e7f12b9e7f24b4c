/** Fixed-width Go integers on top of Dafny's unbounded ones: int16 and int32 are subset
    types, and every place where the Go code can wrap or shift says so with the functions
    below. Go's `int` is 64 bits wide and is modelled without a bound: for the arguments
    `decodeFrame` passes (quantization below 16, multiplier at most 446, initial history at
    most 255) no computation on it leaves 64 bits. */
module MachineInt {

  datatype Error =
    | IndexOutOfRange  // the run-time panic Go raises for an index outside a slice
    | Unmodelled       // a packet outside the scope stated in README.md

  datatype Result<+T> = Success(value: T) | Failure(error: Error) {
    predicate IsFailure() { Failure? }

    function PropagateFailure<U>(): Result<U>
      requires Failure?
    {
      Failure(error)
    }

    function Extract(): T
      requires Success?
    {
      value
    }
  }

  type byte = x: int | 0 <= x < 256
  type int16 = x: int | -0x8000 <= x < 0x8000
  type int32 = x: int | -0x8000_0000 <= x < 0x8000_0000
  type uint32 = x: int | 0 <= x < 0x1_0000_0000

  function Pow2(n: nat): (r: int)
    ensures r > 0
  {
    if n == 0 then 1 else 2 * Pow2(n - 1)
  }

  lemma {:induction false} Pow2Add(a: nat, b: nat)
    ensures Pow2(a + b) == Pow2(a) * Pow2(b)
  {
    if b > 0 {
      Pow2Add(a, b - 1);
      assert a + b - 1 == a + (b - 1);
      calc {
        Pow2(a + b);
        2 * (Pow2(a) * Pow2(b - 1));
        Pow2(a) * (2 * Pow2(b - 1));
        Pow2(a) * Pow2(b);
      }
    }
  }

  lemma {:induction false} Pow2Monotone(a: nat, b: nat)
    requires a <= b
    ensures Pow2(a) <= Pow2(b)
  {
    if a < b {
      Pow2Monotone(a, b - 1);
    }
  }

  lemma Pow2Values()
    ensures Pow2(0) == 1 && Pow2(1) == 2 && Pow2(2) == 4 && Pow2(3) == 8 && Pow2(4) == 16
    ensures Pow2(5) == 32 && Pow2(6) == 64 && Pow2(7) == 128 && Pow2(8) == 256
    ensures Pow2(16) == 0x1_0000 && Pow2(24) == 0x100_0000 && Pow2(32) == 0x1_0000_0000
  {
    assert Pow2(4) == 16;
    assert Pow2(8) == 256;
    Pow2Add(8, 8);
    Pow2Add(16, 8);
    Pow2Add(24, 8);
  }

  /** Two's complement truncation: what `int16(x)`, `int32(x)` and overflowing arithmetic do. */
  function Wrap16(x: int): int16 {
    (x + 0x8000) % 0x1_0000 - 0x8000
  }

  function Wrap32(x: int): int32 {
    (x + 0x8000_0000) % 0x1_0000_0000 - 0x8000_0000
  }

  function Add32(x: int, y: int): int32 {
    Wrap32(x + y)
  }

  function Sub32(x: int, y: int): int32 {
    Wrap32(x - y)
  }

  function Mul32(x: int, y: int): int32 {
    Wrap32(x * y)
  }

  function ToUint16(x: int): (r: nat)
    ensures r < 0x1_0000
  {
    x % 0x1_0000
  }

  function ToUint32(x: int): uint32 {
    x % 0x1_0000_0000
  }

  /** `x << n` on a uint32 and on an int32; bits shifted past the top are lost. */
  function Shl32(x: uint32, n: nat): uint32 {
    ToUint32(x * Pow2(n))
  }

  function ShlSigned(x: int32, n: nat): int32 {
    Wrap32(x * Pow2(n))
  }

  /** `x >> n`: arithmetic shift, rounding towards minus infinity, for any shift count. */
  function Shr(x: int, n: nat): int {
    x / Pow2(n)
  }

  /** `x / d` in Go, which truncates towards zero. */
  function Quo(x: int, d: nat): (r: int)
    requires d > 0
    ensures -0x8000_0000 <= x < 0x8000_0000 ==> -0x8000_0000 <= r < 0x8000_0000
  {
    DivBounds(x, d);
    DivBounds(-x, d);
    if x >= 0 then x / d else -((-x) / d)
  }

  lemma ShrShrinks(x: int, n: nat)
    ensures x >= 0 ==> 0 <= Shr(x, n) <= x
    ensures x < 0 ==> x <= Shr(x, n) < 0
  {
    var p := Pow2(n);
    DivBounds(x, p);
  }

  lemma DivBounds(x: int, p: int)
    requires p > 0
    ensures x >= 0 ==> 0 <= x / p <= x
    ensures x < 0 ==> x <= x / p < 0
  {
    var q, r := x / p, x % p;
    DivMod(x, p);
    if x >= 0 {
      if q < 0 { MulMono(q, -1, p); }
      if q > x { MulMono(x + 1, q, p); MulMono(1, p, x + 1); }
    } else {
      if q >= 0 { MulMono(0, q, p); }
      if q < x { MulMono(q, x - 1, p); MulMono(1, p, -x); }
    }
  }

  lemma DivMod(x: int, p: int)
    requires p > 0
    ensures x == (x / p) * p + x % p && 0 <= x % p < p
  {
  }

  lemma MulMono(a: int, b: int, p: int)
    requires a <= b && p >= 0
    ensures a * p <= b * p
  {
    assert (b - a) * p >= 0;
  }

  /** The unique quotient of a division whose remainder is known. */
  lemma DivUnique(x: int, p: int, q: int, r: int)
    requires p > 0 && x == q * p + r && 0 <= r < p
    ensures x / p == q && x % p == r
  {
    var q', r' := x / p, x % p;
    assert x == q' * p + r';
    if q' > q { MulMono(q + 1, q', p); }
    if q' < q { MulMono(q' + 1, q, p); }
  }

  lemma ModAddMultiple(x: int, m: int, k: int)
    requires m > 0
    ensures (x + k * m) % m == x % m
  {
    DivUnique(x + k * m, m, x / m + k, x % m);
  }

  // ----- bitwise operators -----

  function BitOr(x: nat, y: nat): nat {
    if x == 0 && y == 0 then 0
    else 2 * BitOr(x / 2, y / 2) + (if x % 2 == 1 || y % 2 == 1 then 1 else 0)
  }

  function BitAnd(x: nat, y: nat): nat {
    if x == 0 || y == 0 then 0
    else 2 * BitAnd(x / 2, y / 2) + (if x % 2 == 1 && y % 2 == 1 then 1 else 0)
  }

  /** Or-ing a value into zeroed low bits is an addition. */
  lemma {:induction false} BitOrDisjoint(x: nat, y: nat, n: nat)
    requires y < Pow2(n)
    ensures BitOr(x * Pow2(n), y) == x * Pow2(n) + y
    decreases n
  {
    if n == 0 {
      BitOrZero(x);
    } else {
      BitOrDisjoint(x, y / 2, n - 1);
      MulDouble(x, Pow2(n - 1));
      BitOrStep(x * Pow2(n - 1), y);
    }
  }

  lemma MulDouble(x: int, p: int)
    ensures x * (2 * p) == 2 * (x * p)
  {
  }

  lemma BitOrStep(h: nat, y: nat)
    ensures BitOr(2 * h, y) == 2 * BitOr(h, y / 2) + y % 2
  {
  }

  lemma BitOrZero(x: nat)
    ensures BitOr(x, 0) == x
  {
  }

  /** And-ing with n ones keeps the n low bits. */
  lemma {:induction false} BitAndMask(x: nat, n: nat)
    ensures BitAnd(x, Pow2(n) - 1) == x % Pow2(n)
  {
    if n > 0 {
      BitAndMask(x / 2, n - 1);
      var p := Pow2(n - 1);
      assert (Pow2(n) - 1) / 2 == p - 1 && (Pow2(n) - 1) % 2 == 1;
      ModDouble(x, p);
    }
  }

  lemma ModDouble(x: nat, p: nat)
    requires p > 0
    ensures x % (2 * p) == 2 * ((x / 2) % p) + x % 2
  {
    var y := x / 2;
    DivMod(y, p);
    assert (y / p) * (2 * p) == 2 * ((y / p) * p);
    DivUnique(x, 2 * p, y / p, 2 * (y % p) + x % 2);
  }

  function OrSigned(x: int32, y: int32): int32 {
    Wrap32(BitOr(ToUint32(x), ToUint32(y)))
  }

  function AndSigned(x: int32, y: int32): int32 {
    Wrap32(BitAnd(ToUint32(x), ToUint32(y)))
  }

  // ----- sign extension -----

  /** Two's complement truncation to any width. */
  function WrapBits(x: int, bits: nat): (r: int)
    requires bits >= 1
    ensures -Pow2(bits - 1) <= r < Pow2(bits - 1)
  {
    (x + Pow2(bits - 1)) % Pow2(bits) - Pow2(bits - 1)
  }

  /** `sign_extended32`: shift the wanted bits to the top and arithmetically back. For a width
      outside 1..32 the shift count is 32 or more and nothing is left. */
  function SignExtended32(val: int32, bits: int): (r: int32)
    ensures 0 < bits <= 32 ==> r == WrapBits(val, bits)
  {
    if 0 < bits <= 32 then
      SignExtendedIsWrap(val, bits);
      ShrShrinks(ShlSigned(val, 32 - bits), 32 - bits);
      Shr(ShlSigned(val, 32 - bits), 32 - bits)
    else 0
  }

  lemma SignExtendedIsWrap(val: int32, bits: int)
    requires 0 < bits <= 32
    ensures Shr(ShlSigned(val, 32 - bits), 32 - bits) == WrapBits(val, bits)
  {
    var p, h := Pow2(32 - bits), Pow2(bits - 1);
    Pow2Add(32 - bits, bits);
    Pow2Values();
    SplitWord(val, p, h);
  }

  lemma SplitWord(val: int, p: int, h: int)
    requires p > 0 && h > 0 && p * (2 * h) == 0x1_0000_0000
    ensures Wrap32(val * p) / p == (val + h) % (2 * h) - h
  {
    var t, w := (val + h) / (2 * h), (val + h) % (2 * h) - h;
    DivMod(val + h, 2 * h);
    MulMono(0, w + h, p);
    MulMono(w + h, 2 * h - 1, p);
    assert p * h == 0x8000_0000 by { Halve(p, h); }
    assert val * p + 0x8000_0000 == t * 0x1_0000_0000 + (w + h) * p by {
      assert (t * (2 * h)) * p == t * (p * (2 * h));
    }
    DivUnique(val * p + 0x8000_0000, 0x1_0000_0000, t, (w + h) * p);
    DivUnique(w * p, p, w, 0);
  }

  lemma Halve(p: int, h: int)
    requires p * (2 * h) == 0x1_0000_0000
    ensures p * h == 0x8000_0000
  {
    assert p * (2 * h) == 2 * (p * h);
  }

  /** A value in range is what truncation gives for anything congruent to it. */
  lemma WrapBitsCongruent(x: int, y: int, bits: nat)
    requires bits >= 1 && -Pow2(bits - 1) <= y < Pow2(bits - 1)
    requires Congruent(x, y, bits)
    ensures WrapBits(x, bits) == y
  {
    var m, h := Pow2(bits), Pow2(bits - 1);
    var k := (x - y) / m;
    assert x - y == k * m + (x - y) % m;
    DivUnique(x + h, m, k, y + h);
  }

  lemma WrapBitsResidue(x: int, bits: nat)
    requires bits >= 1
    ensures Congruent(WrapBits(x, bits), x, bits)
  {
    var m, h := Pow2(bits), Pow2(bits - 1);
    ModResidue(x + h, m);
    assert WrapBits(x, bits) - x == (x + h) % m - (x + h);
  }

  lemma ModResidue(a: int, m: int)
    requires m > 0
    ensures (a % m - a) % m == 0
  {
    DivMod(a, m);
    ModAddMultiple(0, m, -(a / m));
    assert a % m - a == 0 + -(a / m) * m;
  }

  lemma WrapMultiple(x: int, t: int)
    ensures Wrap32(x + t * 0x1_0000_0000) == Wrap32(x)
  {
    ModAddMultiple(x + 0x8000_0000, 0x1_0000_0000, t);
  }

  /** A wrapped intermediate sum does not change a wrapped result. */
  lemma WrapTwice(x: int, y: int)
    ensures Wrap32(Wrap32(x) + y) == Wrap32(x + y)
  {
    var t := (x + 0x8000_0000) / 0x1_0000_0000;
    DivMod(x + 0x8000_0000, 0x1_0000_0000);
    WrapMultiple(x + y, -t);
  }

  /** Wrapped operands do not change a wrapped sum or product. */
  lemma WrapSum(x: int, y: int)
    ensures Wrap32(Wrap32(x) + Wrap32(y)) == Wrap32(x + y)
  {
    hide Wrap32;
    WrapTwice(x, Wrap32(y));
    WrapTwice(y, x);
  }

  lemma WrapProduct(q: int, m: int)
    ensures Wrap32(q * Wrap32(m)) == Wrap32(q * m)
  {
    var t := (m + 0x8000_0000) / 0x1_0000_0000;
    DivMod(m + 0x8000_0000, 0x1_0000_0000);
    assert q * (m - t * 0x1_0000_0000) == q * m + -(q * t) * 0x1_0000_0000;
    WrapMultiple(q * m, -(q * t));
  }

  lemma WrapIdentity(x: int32)
    ensures Wrap32(x) == x
  {
  }

  /** Congruence of a and b modulo 2^bits. */
  ghost predicate Congruent(a: int, b: int, bits: nat) {
    (a - b) % Pow2(bits) == 0
  }

  lemma CongruentTransitive(a: int, b: int, c: int, bits: nat)
    requires Congruent(a, b, bits) && Congruent(b, c, bits)
    ensures Congruent(a, c, bits)
  {
    ModSum(a - b, b - c, Pow2(bits));
    assert (a - b) + (b - c) == a - c;
  }

  lemma CongruentShift(a: int, b: int, c: int, bits: nat)
    requires Congruent(a, b, bits)
    ensures Congruent(c + a, c + b, bits)
  {
    assert (c + a) - (c + b) == a - b;
  }

  lemma ModSum(x: int, y: int, m: int)
    requires m > 0 && x % m == 0 && y % m == 0
    ensures (x + y) % m == 0
  {
    DivMod(y, m);
    ModAddMultiple(x, m, y / m);
  }

  /** A 32-bit wrap-around is invisible modulo any smaller power of two. */
  lemma Wrap32Congruent(x: int, bits: nat)
    requires bits <= 32
    ensures Congruent(Wrap32(x), x, bits)
  {
    Pow2Values();
    Pow2Add(32 - bits, bits);
    WordMultiple(x, Pow2(32 - bits), Pow2(bits));
  }

  lemma WordMultiple(x: int, c: int, m: int)
    requires m > 0 && c * m == 0x1_0000_0000
    ensures (Wrap32(x) - x) % m == 0
  {
    var t := (x + 0x8000_0000) / 0x1_0000_0000;
    DivMod(x + 0x8000_0000, 0x1_0000_0000);
    assert t * 0x1_0000_0000 == (t * c) * m;
    ModAddMultiple(0, m, -(t * c));
    assert Wrap32(x) - x == 0 + (-(t * c)) * m;
  }
}
