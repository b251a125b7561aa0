/**
  Fixed-width unsigned integers as little-endian bit strings: element 0 is
  the least significant bit, and the width is the length of the string.
  The bit-manipulation instructions are defined on these, one definition per
  operation for every width, and related to natural-number arithmetic by the
  lemmas below.
 */
module Bits {

  type Bits = seq<bool>

  function Pow2(n: nat): (r: nat)
    ensures r >= 1
  {
    if n == 0 then 1 else 2 * Pow2(n - 1)
  }

  function Bit(b: bool): nat
  {
    if b then 1 else 0
  }

  /** The unsigned value of a bit string. */
  function ToNat(s: Bits): nat
  {
    if s == [] then 0 else Bit(s[0]) + 2 * ToNat(s[1..])
  }

  /** The low `w` bits of `n`: truncation to a `w`-bit register. */
  function FromNat(n: nat, w: nat): (r: Bits)
    ensures |r| == w
  {
    if w == 0 then [] else [n % 2 == 1] + FromNat(n / 2, w - 1)
  }

  /** The two's-complement value of a non-empty bit string. */
  function ToInt(s: Bits): int
    requires |s| > 0
  {
    ToNat(s) - (if s[|s| - 1] then Pow2(|s|) else 0)
  }

  function Fill(b: bool, n: nat): (r: Bits)
    ensures |r| == n
  {
    seq(n, _ => b)
  }

  function Zeros(n: nat): (r: Bits)
    ensures |r| == n
  {
    Fill(false, n)
  }

  function Not(a: Bits): (r: Bits)
    ensures |r| == |a|
  {
    seq(|a|, i requires 0 <= i < |a| => !a[i])
  }

  function And(a: Bits, b: Bits): (r: Bits)
    requires |a| == |b|
    ensures |r| == |a|
  {
    seq(|a|, i requires 0 <= i < |a| => a[i] && b[i])
  }

  function Or(a: Bits, b: Bits): (r: Bits)
    requires |a| == |b|
    ensures |r| == |a|
  {
    seq(|a|, i requires 0 <= i < |a| => a[i] || b[i])
  }

  function Xor(a: Bits, b: Bits): (r: Bits)
    requires |a| == |b|
    ensures |r| == |a|
  {
    seq(|a|, i requires 0 <= i < |a| => a[i] != b[i])
  }

  // ---------------------------------------------------------------------
  // Arithmetic facts

  lemma {:induction false} Pow2Add(a: nat, b: nat)
    ensures Pow2(a + b) == Pow2(a) * Pow2(b)
  {
    if a > 0 {
      Pow2Add(a - 1, b);
      calc {
        Pow2(a + b);
        2 * Pow2(a - 1 + b);
        2 * (Pow2(a - 1) * Pow2(b));
        (2 * Pow2(a - 1)) * Pow2(b);
      }
    }
  }

  lemma {:induction false} Pow2Monotone(a: nat, b: nat)
    requires a <= b
    ensures Pow2(a) <= Pow2(b)
  {
    if a < b {
      Pow2Monotone(a, b - 1);
    }
  }

  lemma MulAtLeast(k: int, d: int)
    requires k >= 1 && d > 0
    ensures k * d >= d
  {
    assert k * d == (k - 1) * d + d;
  }

  /** Euclidean division is unique. */
  lemma DivModUnique(n: int, d: int, q: int, r: int)
    requires d > 0 && 0 <= r < d && n == q * d + r
    ensures n / d == q && n % d == r
  {
    var q', r' := n / d, n % d;
    assert n == q' * d + r';
    if q' > q {
      assert (q' - q) * d == r - r';
      MulAtLeast(q' - q, d);
    } else if q' < q {
      assert (q - q') * d == r' - r;
      MulAtLeast(q - q', d);
    }
  }

  /** Halving commutes with reduction modulo an even power. */
  lemma HalfMod(n: nat, p: nat)
    requires p > 0
    ensures n % (2 * p) == n % 2 + 2 * ((n / 2) % p)
  {
    var h := n / 2;
    assert n == 2 * h + n % 2;
    DivModUnique(h, p, h / p, h % p);
    DivModUnique(n, 2 * p, h / p, n % 2 + 2 * (h % p));
  }

  lemma DivDiv(n: nat, a: nat, b: nat)
    requires a > 0 && b > 0
    ensures n / a / b == n / (a * b)
  {
    var q := n / a / b;
    var r := n / a % b;
    assert n / a == q * b + r;
    assert n == (q * b + r) * a + n % a;
    assert n == q * (a * b) + (r * a + n % a);
    assert r * a + n % a < a * b by {
      assert r * a <= (b - 1) * a;
    }
    DivModUnique(n, a * b, q, r * a + n % a);
  }

  /** The product of two naturals, as a natural (keeps the solver's products apart). */
  function Mul(x: nat, y: nat): nat
  {
    x * y
  }

  /** Division of naturals, as a natural. */
  function Quotient(n: nat, d: nat): nat
    requires d > 0
  {
    n / d
  }

  lemma QuotientRemainder(n: nat, d: nat)
    requires d > 0
    ensures Quotient(n, d) * d + n % d == n
  {
  }

  lemma ProductBound(x: nat, y: nat, p: nat)
    requires x < p && y < p
    ensures x * y < p * p
  {
    assert x * y <= x * p;
    assert x * p < p * p;
  }

  /** The high half of a product of two w-bit values fits in w bits. */
  lemma HighHalfBound(x: nat, y: nat, p: nat)
    requires x < p && y < p
    ensures Mul(x, y) / p < p
  {
    var prod := Mul(x, y);
    ProductBound(x, y, p);
    var q := prod / p;
    assert q * p <= prod;
  }

  /** Scaling both sides of a reduction by the same factor. */
  lemma ModScale(x: nat, p: nat, c: nat)
    requires p > 0 && c > 0
    ensures Mul(x, c) % Mul(p, c) == c * (x % p)
  {
    var q, r := x / p, x % p;
    assert x == q * p + r;
    assert x * c == q * (p * c) + r * c by {
      assert x * c == (q * p + r) * c;
    }
    assert r * c < p * c by {
      assert r * c <= (p - 1) * c;
    }
    DivModUnique(x * c, p * c, q, r * c);
  }


  /** Removing a multiple of the divisor before dividing. */
  lemma DivSubMultiple(x: int, k: int, p: int)
    requires p > 0
    ensures (x - k * p) / p == x / p - k
  {
    var q, r := x / p, x % p;
    assert x - k * p == (q - k) * p + r;
    DivModUnique(x - k * p, p, q - k, r);
  }

  // ---------------------------------------------------------------------
  // Value of a bit string

  lemma {:induction false} ToNatBound(s: Bits)
    ensures ToNat(s) < Pow2(|s|)
  {
    if s != [] {
      ToNatBound(s[1..]);
    }
  }

  /** Truncating then reading back gives the value modulo the width. */
  lemma {:induction false} FromNatToNat(n: nat, w: nat)
    ensures ToNat(FromNat(n, w)) == n % Pow2(w)
  {
    if w > 0 {
      var r := FromNat(n, w);
      assert r[1..] == FromNat(n / 2, w - 1);
      FromNatToNat(n / 2, w - 1);
      HalfMod(n, Pow2(w - 1));
    }
  }

  /** Reading a bit string's value and truncating it to the same width gives it back. */
  lemma {:induction false} ToNatFromNat(s: Bits)
    ensures FromNat(ToNat(s), |s|) == s
  {
    if s != [] {
      var n := ToNat(s);
      assert n % 2 == Bit(s[0]) && n / 2 == ToNat(s[1..]);
      ToNatFromNat(s[1..]);
      assert FromNat(n, |s|) == [s[0]] + s[1..];
    }
  }

  /** Two strings with equal widths and equal values are equal. */
  lemma ToNatInjective(a: Bits, b: Bits)
    requires |a| == |b| && ToNat(a) == ToNat(b)
    ensures a == b
  {
    ToNatFromNat(a);
    ToNatFromNat(b);
  }

  lemma MulCommutes(x: int, y: int)
    ensures x * y == y * x
  {
  }

  lemma Distribute(x: int, p: int, y: int)
    ensures 2 * (x + p * y) == 2 * x + (2 * p) * y
  {
  }

  lemma {:induction false} ToNatAppend(a: Bits, b: Bits)
    ensures ToNat(a + b) == ToNat(a) + Pow2(|a|) * ToNat(b)
  {
    if a != [] {
      var ab := a + b;
      assert ab[0] == a[0] && ab[1..] == a[1..] + b;
      ToNatAppend(a[1..], b);
      var x, p, y := ToNat(a[1..]), Pow2(|a| - 1), ToNat(b);
      assert ToNat(ab) == Bit(a[0]) + 2 * (x + p * y);
      Distribute(x, p, y);
    } else {
      assert a + b == b;
    }
  }

  lemma {:induction false} ToNatFill(b: bool, n: nat)
    ensures ToNat(Fill(b, n)) == if b then Pow2(n) - 1 else 0
  {
    if n > 0 {
      assert Fill(b, n)[1..] == Fill(b, n - 1);
      ToNatFill(b, n - 1);
    }
  }

  lemma ToNatZeros(n: nat)
    ensures ToNat(Zeros(n)) == 0
  {
    ToNatFill(false, n);
  }

  /** A string's value from its low `k` bits and the rest. */
  lemma ToNatSplit(s: Bits, k: nat)
    requires k <= |s|
    ensures ToNat(s) == ToNat(s[k..]) * Pow2(k) + ToNat(s[..k])
  {
    assert s == s[..k] + s[k..];
    ToNatAppend(s[..k], s[k..]);
    MulCommutes(Pow2(k), ToNat(s[k..]));
  }

  /** Appending zero bits above a string keeps its value. */
  lemma ToNatPadded(s: Bits, n: nat)
    ensures ToNat(s + Zeros(n)) == ToNat(s)
  {
    ToNatAppend(s, Zeros(n));
    ToNatZeros(n);
    assert Pow2(|s|) * ToNat(Zeros(n)) == 0;
  }

  /** The low `k` bits of a string hold its value modulo 2^k. */
  lemma ToNatPrefix(s: Bits, k: nat)
    requires k <= |s|
    ensures ToNat(s[..k]) == ToNat(s) % Pow2(k)
    ensures ToNat(s[k..]) == ToNat(s) / Pow2(k)
  {
    ToNatSplit(s, k);
    ToNatBound(s[..k]);
    DivModUnique(ToNat(s), Pow2(k), ToNat(s[k..]), ToNat(s[..k]));
  }

  /** The value of the complement: every bit flipped. */
  lemma {:induction false} ToNatNot(s: Bits)
    ensures ToNat(Not(s)) == Pow2(|s|) - 1 - ToNat(s)
  {
    if s != [] {
      assert Not(s)[1..] == Not(s[1..]);
      ToNatNot(s[1..]);
    }
  }
}
