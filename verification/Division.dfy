/**
 64-bit shift-subtract division (klibcpp/src/klibcpp/cstdlib.cpp), with every shift cut to 64 bits.
 */
module Division {
  import opened Machine

  /** x | (1 << i) */
  function OrBit(x: nat, i: nat): nat
  {
    PowPositive(i);
    if x / Pow2(i) % 2 == 1 then x else x + Pow2(i)
  }

  /** x | bit, for one bit */
  function OrLow(x: nat, bit: nat): nat { if x % 2 == 1 then x else x + bit }

  /** (x >> i) & 1 */
  function BitAt(x: nat, i: nat): nat
  {
    PowPositive(i);
    x / Pow2(i) % 2
  }

  datatype Result = Divided(q: nat, r: nat) | DivisionByZero

  /** Dividing by the next lower power brings in one more bit. */
  lemma NextBit(a: nat, k: nat)
    ensures Pow2(k) > 0 && Pow2(k + 1) > 0
    ensures a / Pow2(k) == 2 * (a / Pow2(k + 1)) + BitAt(a, k)
  {
    PowPositive(k);
    var p, x := Pow2(k), a / Pow2(k);
    HalfQuotient(a, p);
  }

  lemma NonNegativeProduct(s: nat, p: nat)
    ensures s * p >= 0
  {
  }

  lemma ShiftIn(rem: nat, bit: nat)
    requires 2 * rem + bit < W64 && bit <= 1
    ensures OrLow(rem * 2 % W64, bit) == 2 * rem + bit
  {
  }

  /** What has been shifted in so far is short enough to be shifted once more, whatever the divisor. */
  lemma ShiftFits(a: nat, k: nat, rem: nat)
    requires a < W64 && k < 64 && Pow2(k + 1) > 0 && rem <= a / Pow2(k + 1)
    ensures 2 * rem + 1 < W64
  {
  }

  /** A new low bit on a multiple of 2^(k+1) is a plain addition. */
  lemma OrIsPlus(m: nat, k: nat)
    ensures OrBit(m * Pow2(k + 1), k) == m * Pow2(k + 1) + Pow2(k) == (2 * m + 1) * Pow2(k)
  {
    PowPositive(k);
    var p := Pow2(k);
    assert m * (2 * p) == (2 * m) * p;
    Multiple(2 * m, p);
    assert (2 * m) * p + p == (2 * m + 1) * p;
  }

  /** The bits above k have been divided: quotient is Q * 2^k with a / 2^k == Q * b + rem. */
  ghost predicate Divides(a: nat, b: nat, k: nat, quotient: nat, rem: nat)
  {
    exists q: nat :: DividesBy(a, b, k, quotient, rem, q)
  }

  ghost predicate DividesBy(a: nat, b: nat, k: nat, quotient: nat, rem: nat, q: nat)
  {
    Pow2(k) > 0 && quotient == q * Pow2(k) && a / Pow2(k) == q * b + rem && rem < b
  }

  /** One round keeps Divides, and the shifted remainder is below 2^64 even for divisors above 2^63. */
  lemma RoundKeeps(a: nat, b: nat, k: nat, quotient: nat, rem: nat)
    requires a < W64 && k < 64 && Divides(a, b, k + 1, quotient, rem)
    ensures var shifted := 2 * rem + BitAt(a, k);
            && shifted < W64
            && (if shifted >= b then Divides(a, b, k, OrBit(quotient, k), shifted - b)
               else Divides(a, b, k, quotient, shifted))
  {
    hide OrBit, BitAt;
    var q: nat :| DividesBy(a, b, k + 1, quotient, rem, q);
    NextBit(a, k);
    BitIsBit(a, k);
    NonNegativeProduct(q, b);
    ShiftFits(a, k, rem);
    var shifted := 2 * rem + BitAt(a, k);
    OrIsPlus(q, k);
    Doubled(q, b, Pow2(k));
    if shifted >= b {
      assert DividesBy(a, b, k, OrBit(quotient, k), shifted - b, 2 * q + 1);
    } else {
      assert DividesBy(a, b, k, quotient, shifted, 2 * q);
    }
  }

  lemma BitIsBit(a: nat, k: nat)
    ensures BitAt(a, k) <= 1
  {
  }

  lemma Doubled(q: nat, b: nat, p: nat)
    ensures 2 * (q * b) == (2 * q) * b && (2 * q + 1) * b == 2 * (q * b) + b && q * (2 * p) == (2 * q) * p
  {
  }

  lemma Start(a: nat, b: nat)
    requires a < W64 && b > 0
    ensures Divides(a, b, 64, 0, 0)
  {
    WordPowers();
    assert a / W64 == 0;
    assert DividesBy(a, b, 64, 0, 0, 0);
  }

  lemma Finish(a: nat, b: nat, quotient: nat, rem: nat)
    requires b > 0 && Divides(a, b, 0, quotient, rem)
    ensures a == quotient * b + rem && rem < b && quotient == a / b && rem == a % b
  {
    var q: nat :| DividesBy(a, b, 0, quotient, rem, q);
    assert Pow2(0) == 1;
    Unique(a, b, q, rem);
  }

  /** udivmod_64: panics exactly on a zero divisor; otherwise the Euclidean quotient and remainder. */
  method UDivMod(a: nat, b: nat) returns (res: Result)
    requires a < W64 && b < W64
    ensures res.DivisionByZero? <==> b == 0
    ensures b != 0 ==> a == res.q * b + res.r && res.r < b && res.q == a / b && res.r == a % b
  {
    hide Divides, OrBit, BitAt, OrLow;
    if b == 0 {
      return DivisionByZero;
    }
    var quotient: nat, rem: nat := 0, 0;
    var i := 63;
    Start(a, b);
    while i >= 0
      invariant -1 <= i <= 63 && Divides(a, b, i + 1, quotient, rem)
      decreases i
    {
      RoundKeeps(a, b, i, quotient, rem);
      BitIsBit(a, i);
      ShiftIn(rem, BitAt(a, i));
      rem := OrLow(rem * 2 % W64, BitAt(a, i));
      if rem >= b {
        rem := rem - b;
        quotient := OrBit(quotient, i);
      }
      i := i - 1;
    }
    Finish(a, b, quotient, rem);
    res := Divided(quotient, rem);
  }

  /** __udivdi3 */
  method UDivDi3(a: nat, b: nat) returns (panicked: bool, q: nat)
    requires a < W64 && b < W64
    ensures panicked <==> b == 0
    ensures !panicked ==> q == a / b
  {
    var res := UDivMod(a, b);
    panicked := res.DivisionByZero?;
    q := if panicked then 0 else res.q;
  }

  /** __umoddi3 */
  method UModDi3(a: nat, b: nat) returns (panicked: bool, r: nat)
    requires a < W64 && b < W64
    ensures panicked <==> b == 0
    ensures !panicked ==> r == a % b
  {
    var res := UDivMod(a, b);
    panicked := res.DivisionByZero?;
    r := if panicked then 0 else res.r;
  }
}
