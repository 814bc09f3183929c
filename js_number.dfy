/**
  The small part of JavaScript's number semantics that the colour helper of the fish
  component relies on, on non-negative integers:
  - `parseInt(s, 16)` for a string made only of hexadecimal digits,
  - `n.toString(16)` (lowercase digits, no leading zeros),
  - the shifts `>>` and `<<` and the bitwise `&` and `|`.
  JavaScript evaluates the bitwise operators on 32-bit signed integers; every value the
  colour helper hands them is below 2^24, where those operators agree with the
  definitions below on unbounded naturals.
 */
module JsNumber {

  function Pow2(k: nat): (r: nat)
    ensures r >= 1
  {
    if k == 0 then 1 else 2 * Pow2(k - 1)
  }

  function Pow16(k: nat): (r: nat)
    ensures r >= 1
  {
    if k == 0 then 1 else 16 * Pow16(k - 1)
  }

  // ---------------------------------------------------------------------------
  // Hexadecimal digits

  /** A digit `parseInt(_, 16)` accepts, in either case. */
  predicate IsHexDigit(c: char) {
    '0' <= c <= '9' || 'a' <= c <= 'f' || 'A' <= c <= 'F'
  }

  /** A digit `toString(16)` produces. */
  predicate IsLowerHexDigit(c: char) {
    '0' <= c <= '9' || 'a' <= c <= 'f'
  }

  predicate AllHex(s: string) {
    forall i :: 0 <= i < |s| ==> IsHexDigit(s[i])
  }

  predicate AllLowerHex(s: string) {
    forall i :: 0 <= i < |s| ==> IsLowerHexDigit(s[i])
  }

  function DigitValue(c: char): (d: nat)
    requires IsHexDigit(c)
    ensures d < 16
  {
    if '0' <= c <= '9' then c as int - '0' as int
    else if 'a' <= c <= 'f' then c as int - 'a' as int + 10
    else c as int - 'A' as int + 10
  }

  /** The lowercase digit of value `d`. */
  function HexDigit(d: nat): (c: char)
    requires d < 16
    ensures IsLowerHexDigit(c) && DigitValue(c) == d
    ensures c == '0' <==> d == 0
  {
    if d < 10 then ('0' as int + d) as char else ('a' as int + d - 10) as char
  }

  /** The lowercase form of a hexadecimal digit. */
  function LowerDigit(c: char): (l: char)
    requires IsHexDigit(c)
    ensures IsLowerHexDigit(l) && DigitValue(l) == DigitValue(c)
    ensures IsLowerHexDigit(c) ==> l == c
  {
    if 'A' <= c <= 'F' then (c as int - 'A' as int + 'a' as int) as char else c
  }

  function Lower(s: string): (r: string)
    requires AllHex(s)
    ensures |r| == |s| && AllLowerHex(r)
    ensures forall i :: 0 <= i < |s| ==> r[i] == LowerDigit(s[i])
  {
    if s == [] then [] else Lower(s[..|s| - 1]) + [LowerDigit(s[|s| - 1])]
  }

  // ---------------------------------------------------------------------------
  // parseInt(s, 16) and n.toString(16)

  /** `parseInt(s, 16)` for a non-empty string of hexadecimal digits (0 for the empty one). */
  function ParseHex(s: string): (n: nat)
    requires AllHex(s)
    ensures n < Pow16(|s|)
  {
    if s == [] then 0 else ParseHex(s[..|s| - 1]) * 16 + DigitValue(s[|s| - 1])
  }

  /** `n.toString(16)`: lowercase digits without leading zeros ("0" for zero). */
  function ToHex(n: nat): (s: string)
    ensures |s| >= 1 && AllLowerHex(s)
    ensures s[0] == '0' ==> n == 0
  {
    if n < 16 then [HexDigit(n)] else ToHex(n / 16) + [HexDigit(n % 16)]
  }

  function Zeros(k: nat): (z: string)
    ensures |z| == k && AllLowerHex(z)
    ensures forall i :: 0 <= i < k ==> z[i] == '0'
  {
    if k == 0 then [] else Zeros(k - 1) + ['0']
  }

  /** Reading back what `toString(16)` wrote gives the number. */
  lemma {:induction false} ParseToHex(n: nat)
    ensures ParseHex(ToHex(n)) == n
  {
    if n >= 16 {
      var t := ToHex(n / 16);
      var s := ToHex(n);
      assert s == t + [HexDigit(n % 16)];
      assert s[..|s| - 1] == t;
      ParseToHex(n / 16);
    }
  }

  /** Leading zero digits do not change the parsed value. */
  lemma {:induction false} ParseLeadingZeros(k: nat, s: string)
    requires AllHex(s)
    ensures AllHex(Zeros(k) + s) && ParseHex(Zeros(k) + s) == ParseHex(s)
  {
    var z := Zeros(k) + s;
    assert AllHex(z) by {
      forall i | 0 <= i < |z| ensures IsHexDigit(z[i]) {
        if i < k { assert z[i] == Zeros(k)[i]; } else { assert z[i] == s[i - k]; }
      }
    }
    if s == [] {
      assert z == Zeros(k);
      ParseZeros(k);
    } else {
      var s' := s[..|s| - 1];
      assert z[..|z| - 1] == Zeros(k) + s';
      ParseLeadingZeros(k, s');
    }
  }

  lemma {:induction false} ParseZeros(k: nat)
    ensures AllHex(Zeros(k)) && ParseHex(Zeros(k)) == 0
  {
    if k > 0 {
      assert Zeros(k)[..k - 1] == Zeros(k - 1);
      ParseZeros(k - 1);
    }
  }

  /** A number below 16^k is written with at most k digits. */
  lemma {:induction false} ToHexLength(n: nat, k: nat)
    requires 1 <= k && n < Pow16(k)
    ensures |ToHex(n)| <= k
  {
    if n >= 16 {
      assert n / 16 < Pow16(k - 1);
      ToHexLength(n / 16, k - 1);
    }
  }

  /** Lowercase digit strings of one length are told apart by their value. */
  lemma {:induction false} ParseInjective(u: string, v: string)
    requires |u| == |v| && AllLowerHex(u) && AllLowerHex(v)
    requires ParseHex(u) == ParseHex(v)
    ensures u == v
  {
    if u != [] {
      var n := |u| - 1;
      ParseLast(u);
      ParseLast(v);
      var x := ParseHex(u);
      DivModUnique(x, 16, ParseHex(u[..n]), DigitValue(u[n]));
      DivModUnique(x, 16, ParseHex(v[..n]), DigitValue(v[n]));
      ParseInjective(u[..n], v[..n]);
      DigitInjective(u[n], v[n]);
      assert u == u[..n] + [u[n]] && v == v[..n] + [v[n]];
    }
  }

  /** The last digit of a non-empty digit string is its value modulo 16. */
  lemma ParseLast(u: string)
    requires u != [] && AllHex(u)
    ensures AllHex(u[..|u| - 1]) && (AllLowerHex(u) ==> AllLowerHex(u[..|u| - 1]))
    ensures ParseHex(u) == ParseHex(u[..|u| - 1]) * 16 + DigitValue(u[|u| - 1])
  {
  }

  /** Two lowercase digits of one value are the same digit. */
  lemma DigitInjective(c: char, d: char)
    requires IsLowerHexDigit(c) && IsLowerHexDigit(d) && DigitValue(c) == DigitValue(d)
    ensures c == d
  {
  }

  /** Case does not matter to `parseInt(_, 16)`. */
  lemma {:induction false} ParseLower(s: string)
    requires AllHex(s)
    ensures ParseHex(Lower(s)) == ParseHex(s)
  {
    if s != [] {
      var l := Lower(s);
      assert l[..|l| - 1] == Lower(s[..|s| - 1]);
      ParseLower(s[..|s| - 1]);
    }
  }

  // ---------------------------------------------------------------------------
  // Shifts and bitwise operators on non-negative numbers

  /** `n >> k` for a non-negative 32-bit `n`: the number of whole 2^k in `n`. */
  function ShiftRight(n: nat, k: nat): (r: nat)
    ensures r * Pow2(k) <= n < r * Pow2(k) + Pow2(k)
  {
    DivNat(n, Pow2(k));
    n / Pow2(k)
  }

  /**
    `n << k`, for results that stay below 2^31: the k low bits are zero, and dividing by 2^k
    (shifting back right) gives `n` again.
   */
  function ShiftLeft(n: nat, k: nat): (r: nat)
    ensures r / Pow2(k) == n && r % Pow2(k) == 0
  {
    DivModUnique(n * Pow2(k), Pow2(k), n, 0);
    n * Pow2(k)
  }

  /** `a & b`, bit by bit from the least significant end; never above either operand. */
  function BitAnd(a: nat, b: nat): (r: nat)
    ensures r <= a && r <= b
    decreases a + b
  {
    if a == 0 || b == 0 then 0
    else 2 * BitAnd(a / 2, b / 2) + (if a % 2 == 1 && b % 2 == 1 then 1 else 0)
  }

  /** `a | b`, bit by bit from the least significant end; between either operand and their sum. */
  function BitOr(a: nat, b: nat): (r: nat)
    ensures a <= r && b <= r && r <= a + b
    decreases a + b
  {
    if a == 0 then b
    else if b == 0 then a
    else 2 * BitOr(a / 2, b / 2) + (if a % 2 == 1 || b % 2 == 1 then 1 else 0)
  }

  /** Masking with k one-bits keeps the k low bits. */
  lemma {:induction false} BitAndMask(a: nat, k: nat)
    ensures BitAnd(a, Pow2(k) - 1) == a % Pow2(k)
  {
    if k > 0 && a > 0 {
      BitAndMask(a / 2, k - 1);
      MaskStep(a, k, Pow2(k - 1), Pow2(k));
    } else if k == 0 {
      assert Pow2(k) == 1;
      DivModUnique(a, 1, a, 0);
    } else {
      DivModUnique(0, Pow2(k), 0, 0);
    }
  }

  /** One more mask bit keeps one more low bit of `a`. */
  lemma MaskStep(a: nat, k: nat, p: nat, m: nat)
    requires a > 0 && k > 0 && p == Pow2(k - 1) && m == Pow2(k)
    requires BitAnd(a / 2, p - 1) == (a / 2) % p
    ensures BitAnd(a, m - 1) == a % m
  {
    assert BitAnd(a, m - 1) == 2 * BitAnd(a / 2, p - 1) + a % 2 by {
      MaskHalves(k);
      BitAndOdd(a, m - 1, p - 1);
    }
    assert a % m == 2 * ((a / 2) % p) + a % 2 by {
      assert m == 2 * p;
      DivModDouble(a, p, m);
    }
  }

  /** `a & m` for an odd `m`: the low bit of `a`, above it `(a >> 1) & (m >> 1)`. */
  lemma BitAndOdd(a: nat, m: nat, q: nat)
    requires a > 0 && m / 2 == q && m % 2 == 1
    ensures BitAnd(a, m) == 2 * BitAnd(a / 2, q) + a % 2
  {
  }

  /** A mask of k one-bits is one one-bit below a mask of k - 1 one-bits. */
  lemma MaskHalves(k: nat)
    requires k > 0
    ensures (Pow2(k) - 1) / 2 == Pow2(k - 1) - 1 && (Pow2(k) - 1) % 2 == 1
  {
    var p := Pow2(k - 1);
    assert Pow2(k) - 1 == 2 * (p - 1) + 1;
    DivModUnique(Pow2(k) - 1, 2, p - 1, 1);
  }

  /** Dividing by 2p is dividing by 2 and then by p. */
  lemma DivModDouble(a: nat, p: nat, m: nat)
    requires p >= 1 && m == 2 * p
    ensures a % m == 2 * ((a / 2) % p) + a % 2
  {
    var q, r := a / 2, a % 2;
    var s, t := q / p, q % p;
    assert a == m * s + (2 * t + r);
    DivModUnique(a, m, s, 2 * t + r);
  }

  lemma DivModUnique(a: int, m: int, q: int, r: int)
    requires m > 0 && 0 <= r < m && a == m * q + r
    ensures a / m == q && a % m == r
  {
    var q0, r0 := a / m, a % m;
    assert m * (q - q0) == r0 - r;
    MulAwayFromZero(m, q - q0);
  }

  lemma DivNat(n: nat, d: int)
    requires d >= 1
    ensures n / d >= 0 && n % d >= 0
  {
    MulAwayFromZero(d, n / d);
  }

  lemma MulAwayFromZero(m: int, d: int)
    requires m > 0
    ensures d >= 1 ==> m * d >= m
    ensures d <= -1 ==> m * d <= -m
  {
  }

  /** `a | (b << k)` adds when `a` fits in the k low bits. */
  lemma {:induction false} BitOrDisjoint(a: nat, b: nat, k: nat)
    requires a < Pow2(k)
    ensures BitOr(a, b * Pow2(k)) == a + b * Pow2(k)
  {
    if a != 0 && b != 0 {
      var p := Pow2(k - 1);
      assert b * Pow2(k) == 2 * (b * p);
      assert (b * Pow2(k)) / 2 == b * p && (b * Pow2(k)) % 2 == 0;
      BitOrDisjoint(a / 2, b, k - 1);
    }
  }
}
