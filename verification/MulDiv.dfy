/**
 * Multiplication and division of the M extension. A word of any width is a number below the
 * modulus `m`, a power of two; the functions follow the 128-bit arithmetic of the executor.
 */
module MulDiv {
  import Division

  const U32 := 0x1_0000_0000
  const U64 := 0x1_0000_0000_0000_0000
  const I128_LIMIT := 0x8000_0000_0000_0000_0000_0000_0000_0000

  predicate Width(m: nat) { m == 0x100 || m == 0x1_0000 || m == U32 || m == U64 }

  predicate Word(a: nat, m: nat) { Width(m) && a < m }

  /** Two's complement. */
  function Signed(a: nat, m: nat): (r: int)
    requires Word(a, m)
    ensures -(m / 2) <= r < m / 2 && (r == a || r == a - m)
  {
    if a < m / 2 then a else a - m
  }

  /** The low bits of a number. */
  function Truncated(v: int, m: nat): (r: nat)
    requires Width(m)
    ensures r < m
  {
    v % m
  }

  /** Quotient rounded toward zero. */
  function Quot(x: int, y: int): int
    requires y != 0
  {
    if x >= 0 then (if y > 0 then x / y else -(x / -y))
    else (if y > 0 then -(-x / y) else -x / -y)
  }

  function Rem(x: int, y: int): int
    requires y != 0
  {
    x - Quot(x, y) * y
  }

  function MulLow(a: nat, b: nat, m: nat): nat requires Word(a, m) && Word(b, m) { Truncated(a * b, m) }

  function MulHighUnsigned(a: nat, b: nat, m: nat): nat
    requires Word(a, m) && Word(b, m)
  {
    Truncated(a * b / m, m)
  }

  function MulHighSigned(a: nat, b: nat, m: nat): nat
    requires Word(a, m) && Word(b, m)
  {
    Truncated(Signed(a, m) * Signed(b, m) / m, m)
  }

  function MulHighSignedUnsigned(a: nat, b: nat, m: nat): nat
    requires Word(a, m) && Word(b, m)
  {
    Truncated(Signed(a, m) * b / m, m)
  }

  function DivSigned(a: nat, b: nat, m: nat): (r: nat)
    requires Word(a, m) && Word(b, m)
    ensures r < m
  {
    if b == 0 then m - 1 else Truncated(Quot(Signed(a, m), Signed(b, m)), m)
  }

  function RemSigned(a: nat, b: nat, m: nat): (r: nat)
    requires Word(a, m) && Word(b, m)
    ensures r < m
  {
    if b == 0 then a else Truncated(Rem(Signed(a, m), Signed(b, m)), m)
  }

  function DivUnsigned(a: nat, b: nat, m: nat): (r: nat)
    requires Word(a, m) && Word(b, m)
    ensures r < m
  {
    if b == 0 then m - 1 else SmallQuotient(a, b, m); a / b
  }

  function RemUnsigned(a: nat, b: nat, m: nat): (r: nat)
    requires Word(a, m) && Word(b, m)
    ensures r < m
  {
    if b == 0 then a else SmallQuotient(a, b, m); a % b
  }

  lemma ModShift(x: int, k: int, m: nat)
    requires m > 0
    ensures (x + k * m) % m == x % m
  {
    var y := x + k * m;
    var q, r := x / m, x % m;
    assert y == (q + k) * m + r;
    Division.Unique(y, m, q + k, r);
  }

  /** A number in the signed range is the signed reading of its low bits. */
  lemma SignedTruncated(v: int, m: nat)
    requires Width(m) && -(m / 2) <= v < m / 2
    ensures Signed(Truncated(v, m), m) == v
  {
    if v < 0 {
      Division.Unique(v, m, -1, v + m);
    } else {
      Division.Unique(v, m, 0, v);
    }
  }

  /** High and low parts put the unsigned product back together. */
  lemma UnsignedProduct(a: nat, b: nat, m: nat)
    requires Word(a, m) && Word(b, m)
    ensures MulHighUnsigned(a, b, m) * m + MulLow(a, b, m) == a * b
  {
    ProductBound(a, b, m);
    Below(a * b, m, m);
    Division.Unique(a * b / m, m, 0, a * b / m);
  }

  lemma ProductBound(a: nat, b: nat, m: nat)
    requires a < m && b < m
    ensures 0 <= a * b < m * m
  {
    assert a * b <= a * m;
    assert a * m < m * m;
  }

  /** Dividing a number below `k * m` gives less than `k`. */
  lemma Below(x: int, k: int, m: nat)
    requires m > 0 && x < k * m
    ensures x / m < k
  {
    var q := x / m;
    if q >= k { Division.Ordered(k, q, m); }
  }

  lemma AtLeast(x: int, k: int, m: nat)
    requires m > 0 && k * m <= x
    ensures k <= x / m
  {
    var q := x / m;
    if q < k { Division.Ordered(q + 1, k, m); }
  }

  /** The product of the signed readings has the same low word. */
  lemma SameLow(sa: int, sb: int, a: nat, b: nat, m: nat)
    requires m > 0 && (sa == a || sa == a - m) && (sb == b || sb == b - m)
    ensures sa * sb % m == a * b % m
  {
    var ka, kb := if sa == a then 0 else 1, if sb == b then 0 else 1;
    var k := -(ka * b + kb * a) + ka * kb * m;
    assert sa == a - ka * m && sb == b - kb * m;
    Expand(a, b, ka, kb, m);
    assert sa * sb == a * b + k * m;
    ModShift(a * b, k, m);
  }

  lemma Expand(a: int, b: int, ka: int, kb: int, m: int)
    requires 0 <= ka <= 1 && 0 <= kb <= 1
    ensures (a - ka * m) * (b - kb * m) == a * b + (-(ka * b + kb * a) + ka * kb * m) * m
  {
    if ka == 0 && kb == 0 {
    } else if ka == 0 {
      assert a * (b - m) == a * b - a * m;
    } else if kb == 0 {
      assert (a - m) * b == a * b - m * b;
    } else {
      assert (a - m) * (b - m) == a * b - a * m - m * b + m * m;
      assert (-(b + a) + m) * m == -(b * m) - a * m + m * m;
    }
  }

  /** High and low parts put the signed product back together. */
  lemma SignedProduct(a: nat, b: nat, m: nat)
    requires Word(a, m) && Word(b, m)
    ensures Signed(MulHighSigned(a, b, m), m) * m + MulLow(a, b, m) == Signed(a, m) * Signed(b, m)
  {
    var sa, sb := Signed(a, m), Signed(b, m);
    SignedBounds(sa, sb, m / 2);
    Recombine(sa * sb, sa, sb, a, b, m);
  }

  /** The same for a signed and an unsigned factor. */
  lemma MixedProduct(a: nat, b: nat, m: nat)
    requires Word(a, m) && Word(b, m)
    ensures Signed(MulHighSignedUnsigned(a, b, m), m) * m + MulLow(a, b, m) == Signed(a, m) * b
  {
    var sa := Signed(a, m);
    MixedBounds(sa, b, m / 2);
    Recombine(sa * b, sa, b, a, b, m);
  }

  lemma Recombine(p: int, sa: int, sb: int, a: nat, b: nat, m: nat)
    requires Width(m) && (sa == a || sa == a - m) && (sb == b || sb == b - m) && p == sa * sb
    requires -(m / 2) * m <= p < m / 2 * m
    ensures Signed(Truncated(p / m, m), m) * m + Truncated(a * b, m) == p
  {
    SameLow(sa, sb, a, b, m);
    Below(p, m / 2, m);
    AtLeast(p, -(m / 2), m);
    SignedTruncated(p / m, m);
  }

  lemma SignedBounds(x: int, y: int, h: int)
    requires h > 0 && -h <= x < h && -h <= y < h
    ensures -h * (2 * h) <= x * y < h * (2 * h)
  {
    Magnitude(x, y, h, h);
    assert h * h < h * (2 * h);
  }

  lemma MixedBounds(x: int, y: nat, h: int)
    requires h > 0 && -h <= x < h && y < 2 * h
    ensures -h * (2 * h) <= x * y < h * (2 * h)
  {
    Magnitude(x, y, h, 2 * h);
    if x * y == h * (2 * h) { StrictlyLess(x, y, h); }
  }

  lemma Magnitude(x: int, y: int, a: int, b: int)
    requires a >= 0 && b >= 0 && -a <= x <= a && -b <= y <= b
    ensures -a * b <= x * y <= a * b
  {
    var ax, ay := if x < 0 then -x else x, if y < 0 then -y else y;
    Larger(ax, a, ay);
    Larger(ay, b, a);
    SignedParts(x, y, ax, ay);
  }

  lemma Larger(a: nat, b: nat, c: nat)
    requires a <= b
    ensures a * c <= b * c
  {}

  lemma SignedParts(x: int, y: int, ax: nat, ay: nat)
    requires (ax == x || ax == -x) && (ay == y || ay == -y)
    ensures x * y == ax * ay || x * y == -(ax * ay)
  {}

  lemma StrictlyLess(x: int, y: nat, h: int)
    requires x < h && y < 2 * h && h > 0
    ensures x * y < h * (2 * h)
  {
    if x > 0 {
      assert x * y <= x * (2 * h);
      assert x * (2 * h) < h * (2 * h);
    } else {
      assert x * y <= 0;
    }
  }

  /** No product of two words overflows the 128-bit intermediate. */
  lemma ProductsFit(a: nat, b: nat, m: nat)
    requires Word(a, m) && Word(b, m)
    ensures -I128_LIMIT <= Signed(a, m) * Signed(b, m) < I128_LIMIT
    ensures -I128_LIMIT <= Signed(a, m) * b < I128_LIMIT
    ensures a * b < 2 * I128_LIMIT
  {
    SignedBounds(Signed(a, m), Signed(b, m), m / 2);
    MixedBounds(Signed(a, m), b, m / 2);
    ProductBound(a, b, m);
  }

  /** Division truncates: the remainder is smaller than the divisor and has the dividend's sign. */
  lemma Truncates(x: int, y: int)
    requires y != 0
    ensures
      var size := if y < 0 then -y else y;
      if x >= 0 then 0 <= Rem(x, y) < size else -size < Rem(x, y) <= 0
  {
    var size := if y < 0 then -y else y;
    var n := if x >= 0 then x else -x;
    assert n == n / size * size + n % size;
    if (x >= 0) == (y > 0) {
      assert Quot(x, y) == n / size;
    } else {
      assert Quot(x, y) == -(n / size);
      assert -(n / size) * y == (n / size) * -y;
    }
  }

  /** Quotient times divisor plus remainder is the dividend, in every case, modulo the width. */
  lemma SignedDivision(a: nat, b: nat, m: nat)
    requires Word(a, m) && Word(b, m)
    ensures Truncated(DivSigned(a, b, m) * b + RemSigned(a, b, m), m) == a
  {
    if b == 0 {
      Division.Unique(a, m, 0, a);
    } else {
      var sa, sb := Signed(a, m), Signed(b, m);
      var q, r := Quot(sa, sb), Rem(sa, sb);
      var dq, dr := q / m, r / m;
      var ka, kb := if sa == a then 0 else 1, if sb == b then 0 else 1;
      Collect(q, r, sb, dq, dr, kb, m);
      var k := q * kb - dq * sb - dq * kb * m - dr - ka;
      assert DivSigned(a, b, m) * b + RemSigned(a, b, m) == a + k * m;
      ModShift(a, k, m);
      Division.Unique(a, m, 0, a);
    }
  }

  /** Division by zero gives all ones, and the dividend as the remainder. */
  lemma DivisionByZero(a: nat, m: nat)
    requires Word(a, m)
    ensures DivSigned(a, 0, m) == DivUnsigned(a, 0, m) == m - 1
    ensures RemSigned(a, 0, m) == RemUnsigned(a, 0, m) == a
  {}

  lemma Collect(q: int, r: int, sb: int, dq: int, dr: int, kb: int, m: int)
    ensures (q - dq * m) * (sb + kb * m) + (r - dr * m) ==
      q * sb + r + (q * kb - dq * sb - dq * kb * m - dr) * m
  {
    assert (q - dq * m) * (sb + kb * m) == q * sb + q * (kb * m) - dq * m * sb - dq * m * (kb * m);
    assert q * (kb * m) == q * kb * m;
    assert dq * m * sb == dq * sb * m;
    assert dq * m * (kb * m) == dq * kb * m * m;
  }

  lemma UnsignedDivision(a: nat, b: nat, m: nat)
    requires Word(a, m) && Word(b, m)
    ensures Truncated(DivUnsigned(a, b, m) * b + RemUnsigned(a, b, m), m) == a
    ensures b != 0 ==> DivUnsigned(a, b, m) * b + RemUnsigned(a, b, m) == a && RemUnsigned(a, b, m) < b
  {
    Division.Unique(a, m, 0, a);
  }

  /** The signed reading of the remainder is the true one, for every nonzero divisor. */
  lemma SignedRemainder(a: nat, b: nat, m: nat)
    requires Word(a, m) && Word(b, m) && b != 0
    ensures Signed(RemSigned(a, b, m), m) == Rem(Signed(a, m), Signed(b, m))
  {
    Truncates(Signed(a, m), Signed(b, m));
    SignedTruncated(Rem(Signed(a, m), Signed(b, m)), m);
  }

  /** The signed reading of the quotient is the true one except for the most negative word over minus one. */
  lemma SignedQuotientIff(a: nat, b: nat, m: nat)
    requires Word(a, m) && Word(b, m) && b != 0
    ensures Signed(DivSigned(a, b, m), m) == Quot(Signed(a, m), Signed(b, m)) <==> !(a == m / 2 && b == m - 1)
    ensures a == m / 2 && b == m - 1 ==> DivSigned(a, b, m) == a && RemSigned(a, b, m) == 0
  {
    var sa, sb := Signed(a, m), Signed(b, m);
    if a == m / 2 && b == m - 1 {
      assert sa == -(m / 2) && sb == -1;
      assert Quot(sa, sb) == m / 2 && Rem(sa, sb) == 0;
      Division.Unique(m / 2, m, 0, m / 2);
    } else {
      QuotInRange(sa, sb, m / 2);
      SignedTruncated(Quot(sa, sb), m);
    }
  }

  lemma QuotInRange(x: int, y: int, h: int)
    requires h > 0 && -h <= x < h && y != 0 && !(x == -h && y == -1)
    ensures -h <= Quot(x, y) < h
  {
    hide Quot;
    var d := QuotBounds(x, y);
  }

  lemma QuotBounds(x: int, y: int) returns (d: int)
    requires y != 0
    ensures d >= 0 && Quot(x, y) == if (x >= 0) == (y > 0) then d else -d
    ensures var n := if x >= 0 then x else -x; if y == 1 || y == -1 then d == n else 2 * d <= n
  {
    hide Quot;
    var size := if y < 0 then -y else y;
    var n := if x >= 0 then x else -x;
    QuotMagnitude(x, y, n, size);
    d := n / size;
    if size > 1 { Halved(n, size); }
  }

  lemma QuotMagnitude(x: int, y: int, n: nat, size: nat)
    requires y != 0 && n == (if x >= 0 then x else -x) && size == if y < 0 then -y else y
    ensures Quot(x, y) == if (x >= 0) == (y > 0) then n / size else -(n / size)
  {}

  lemma Halved(n: nat, size: nat)
    requires size >= 2
    ensures 2 * (n / size) <= n
  {
    assert n == n / size * size + n % size;
    assert n / size * size >= n / size * 2;
  }

  function SignExtend(v: nat): nat requires Word(v, U32) { Truncated(Signed(v, U32), U64) }

  function Low(a: nat): (r: nat) requires Word(a, U64) ensures Word(r, U32) { a % U32 }

  function MulW(a: nat, b: nat): nat
    requires Word(a, U64) && Word(b, U64)
  {
    SignExtend(Truncated(Low(a) * Low(b), U32))
  }

  function DivW(a: nat, b: nat): nat
    requires Word(a, U64) && Word(b, U64)
  {
    var sa, sb := Signed(Low(a), U32), Signed(Low(b), U32);
    if sb == 0 then U64 - 1 else SignExtend(Truncated(Quot(sa, sb), U32))
  }

  function RemW(a: nat, b: nat): nat
    requires Word(a, U64) && Word(b, U64)
  {
    var sa, sb := Signed(Low(a), U32), Signed(Low(b), U32);
    if sb == 0 then SignExtend(Low(a)) else SignExtend(Truncated(Rem(sa, sb), U32))
  }

  function DivUW(a: nat, b: nat): nat
    requires Word(a, U64) && Word(b, U64)
  {
    if Low(b) == 0 then U64 - 1 else SmallQuotient(Low(a), Low(b), U32); SignExtend(Low(a) / Low(b))
  }

  function RemUW(a: nat, b: nat): nat
    requires Word(a, U64) && Word(b, U64)
  {
    if Low(b) == 0 then SignExtend(Low(a)) else SmallQuotient(Low(a), Low(b), U32); SignExtend(Low(a) % Low(b))
  }

  /** The word forms are the 32-bit operations on the low words, sign-extended, in every case. */
  lemma WordForms(a: nat, b: nat)
    requires Word(a, U64) && Word(b, U64)
    ensures MulW(a, b) == SignExtend(MulLow(a % 0x1_0000_0000, b % 0x1_0000_0000, U32))
    ensures DivW(a, b) == SignExtend(DivSigned(a % 0x1_0000_0000, b % 0x1_0000_0000, U32))
    ensures RemW(a, b) == SignExtend(RemSigned(a % 0x1_0000_0000, b % 0x1_0000_0000, U32))
    ensures DivUW(a, b) == SignExtend(DivUnsigned(a % 0x1_0000_0000, b % 0x1_0000_0000, U32))
    ensures RemUW(a, b) == SignExtend(RemUnsigned(a % 0x1_0000_0000, b % 0x1_0000_0000, U32))
  {
    hide Quot, Rem;
    assert SignExtend(U32 - 1) == U64 - 1;
    if Low(b) != 0 { SmallQuotient(Low(a), Low(b), U32); }
  }

  lemma SmallQuotient(a: nat, b: nat, m: nat)
    requires a < m && b > 0
    ensures a / b < m && a % b < m
  {
    Division.Ordered(1, b, m);
    Below(a, m, b);
    AtMost(a, b);
  }

  lemma AtMost(a: nat, b: nat)
    requires b > 0
    ensures a % b <= a
  {
    var q := a / b;
    Division.Ordered(0, q, b);
  }

  /** Sign extension keeps the signed reading. */
  lemma SignExtendKeeps(v: nat)
    requires Word(v, U32)
    ensures Signed(SignExtend(v), U64) == Signed(v, U32)
  {
    SignedTruncated(Signed(v, U32), U64);
  }
}
