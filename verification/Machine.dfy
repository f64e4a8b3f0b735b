/** 32-bit machine arithmetic shared by the memory managers: page size and the alignment helpers. */
module Machine {

  const W32 := 0x1_0000_0000
  const PAGE := 4096

  const W64 := 0x1_0000_0000_0000_0000

  datatype Option<T> = None | Some(value: T)

  // ---- binary digits -------------------------------------------------------------------------------

  function Pow2(k: nat): nat { if k == 0 then 1 else 2 * Pow2(k - 1) }

  ghost predicate PowerOfTwo(a: int) { exists k: nat :: a == Pow2(k) }

  /** x & y, digit by digit. */
  function And(x: nat, y: nat): nat
  {
    if x == 0 then 0 else 2 * And(x / 2, y / 2) + if x % 2 == 1 && y % 2 == 1 then 1 else 0
  }

  lemma {:induction false} PowPositive(k: nat)
    ensures Pow2(k) > 0
  {
    if k > 0 { PowPositive(k - 1); }
  }

  lemma {:induction false} PowAdds(j: nat, k: nat)
    ensures Pow2(j + k) == Pow2(j) * Pow2(k)
  {
    if j > 0 {
      PowAdds(j - 1, k);
      Twice(Pow2(j - 1), Pow2(k));
      assert Pow2(j + k) == 2 * Pow2(j - 1 + k);
    }
  }

  lemma Twice(x: nat, y: nat)
    ensures (2 * x) * y == 2 * (x * y) == x * (2 * y)
  {
  }

  lemma {:induction false} PowGrows(j: nat, k: nat)
    requires j <= k
    ensures Pow2(j) <= Pow2(k)
  {
    if j < k { PowGrows(j, k - 1); }
  }

  lemma WordPowers()
    ensures Pow2(12) == PAGE && Pow2(32) == W32 && Pow2(64) == W64
  {
    SmallPowers();
    hide Pow2;
    PowAdds(4, 4);
    PowAdds(8, 4);
    PowAdds(8, 8);
    PowAdds(16, 16);
    PowAdds(32, 32);
  }

  lemma SmallPowers()
    ensures Pow2(4) == 16
  {
  }

  lemma {:induction false} AndZero(x: nat)
    ensures And(x, 0) == 0
  {
    if x > 0 { AndZero(x / 2); }
  }

  lemma {:induction false} AndBelow(x: nat, y: nat)
    ensures And(x, y) <= y && And(x, y) <= x
  {
    if x > 0 { AndBelow(x / 2, y / 2); }
  }

  /** A mask and its complement split a word. */
  lemma {:induction false} AndSplits(x: nat, y: nat, n: nat)
    requires x < Pow2(n) && y < Pow2(n)
    ensures And(x, y) + And(x, Pow2(n) - 1 - y) == x
    decreases n
  {
    if x > 0 {
      var z := Pow2(n) - 1 - y;
      AndSplits(x / 2, y / 2, n - 1);
      assert z / 2 == Pow2(n - 1) - 1 - y / 2 && (z % 2 == 1 <==> y % 2 == 0);
    }
  }

  /** Masking with 2^n - 2^k rounds down to a multiple of 2^k. */
  lemma {:induction false} AndRounds(x: nat, n: nat, k: nat)
    requires x < Pow2(n) && k <= n
    ensures 0 < Pow2(k) <= Pow2(n) && And(x, Pow2(n) - Pow2(k)) == x / Pow2(k) * Pow2(k)
    decreases k
  {
    hide And;
    PowPositive(k);
    if k == 0 {
      AndZero(x);
      PowPositive(n);
      AndSplits(x, 0, n);
    } else {
      var y, p := Pow2(n) - Pow2(k), Pow2(k - 1);
      AndRounds(x / 2, n - 1, k - 1);
      AndEven(x, y);
      RoundTwice(x, p, And(x, y), And(x / 2, y / 2));
    }
  }

  lemma AndEven(x: nat, y: nat)
    requires y % 2 == 0
    ensures And(x, y) == 2 * And(x / 2, y / 2)
  {
  }

  lemma RoundTwice(x: nat, p: nat, r: nat, h: nat)
    requires p > 0 && h == x / 2 / p * p && r == 2 * h
    ensures r == x / (2 * p) * (2 * p)
  {
    HalfQuotient(x, p);
    Twice(x / 2 / p, p);
  }

  /** The lowest set digit of a: a & -a is a power of two. */
  lemma {:induction false} LowestDigit(a: nat, n: nat)
    requires 0 < a < Pow2(n)
    ensures PowerOfTwo(And(a, Pow2(n) - a)) && And(a, Pow2(n) - a) <= a
    decreases n
  {
    var y := Pow2(n) - a;
    AndBelow(a, y);
    if a % 2 == 0 {
      LowestDigit(a / 2, n - 1);
      assert y / 2 == Pow2(n - 1) - a / 2;
      var k: nat :| And(a / 2, y / 2) == Pow2(k);
      assert And(a, y) == Pow2(k + 1);
    } else {
      assert y / 2 == Pow2(n - 1) - 1 - a / 2 && y % 2 == 1;
      AndApart(a / 2, n - 1);
      assert And(a, y) == 1 == Pow2(0);
    }
  }

  lemma {:induction false} AndApart(x: nat, n: nat)
    requires x < Pow2(n)
    ensures And(x, Pow2(n) - 1 - x) == 0
    decreases n
  {
    if x > 0 {
      AndApart(x / 2, n - 1);
      assert (Pow2(n) - 1 - x) / 2 == Pow2(n - 1) - 1 - x / 2;
    }
  }

  // ---- alignment -----------------------------------------------------------------------------------

  /** mm::align_up: (val + align - 1) & ~(align - 1) on 32-bit words. */
  function AlignUp(v: int, align: int): (r: int)
    ensures r >= 0
  {
    And((v + align - 1) % W32, (W32 - align) % W32)
  }

  /** mm::align_down: val & ~(align - 1). */
  function AlignDown(v: int, align: int): (r: int)
    ensures r >= 0
  {
    And(v % W32, (W32 - align) % W32)
  }

  /** For a power of two the mask is division and multiplication. */
  lemma AlignDivides(v: int, k: nat)
    requires k <= 32
    ensures Pow2(k) > 0
    ensures AlignUp(v, Pow2(k)) == (v + Pow2(k) - 1) % W32 / Pow2(k) * Pow2(k)
    ensures AlignDown(v, Pow2(k)) == v % W32 / Pow2(k) * Pow2(k)
  {
    hide And;
    WordPowers();
    PowPositive(k);
    RoundedWord((v + Pow2(k) - 1) % W32, k);
    RoundedWord(v % W32, k);
  }

  lemma RoundedWord(x: nat, k: nat)
    requires x < W32 && k <= 32
    ensures Pow2(k) > 0 && And(x, (W32 - Pow2(k)) % W32) == x / Pow2(k) * Pow2(k)
  {
    hide And;
    WordPowers();
    PowPositive(k);
    if k == 32 {
      AndZero(x);
    } else {
      AndRounds(x, 32, k);
      MinusWord(Pow2(k));
    }
  }

  lemma MinusWord(a: int)
    requires 0 < a <= W32
    ensures (W32 - a) % W32 == if a == W32 then 0 else W32 - a
  {
  }

  lemma AlignPage(v: int)
    ensures AlignUp(v, PAGE) == (v + 4095) % W32 / 4096 * 4096 && AlignDown(v, PAGE) == v % W32 / 4096 * 4096
  {
    WordPowers();
    AlignDivides(v, 12);
  }

  /** The least page multiple not below v, except in the last page, where the sum wraps to zero. */
  lemma AlignUpPage(v: int)
    requires 0 <= v < W32
    ensures if v <= W32 - PAGE then v <= AlignUp(v, PAGE) < v + PAGE && AlignUp(v, PAGE) % PAGE == 0
             else AlignUp(v, PAGE) == 0
    ensures v % PAGE == 0 ==> AlignUp(v, PAGE) == v
  {
    AlignPage(v);
    assert v > W32 - PAGE ==> (v + 4095) % W32 == v + 4095 - W32;
  }

  /** Whatever the alignment, the result is not below v and less than one alignment above it. */
  lemma AlignUpBounds(v: nat, align: nat)
    requires 0 < align && v + align <= W32
    ensures v <= AlignUp(v, align) < v + align
  {
    hide And, Pow2;
    WordPowers();
    var x: nat, y: nat := v + align - 1, (W32 - align) % W32;
    MinusWord(align);
    AndSplits(x, y, 32);
    AndBelow(x, y);
    AndBelow(x, align - 1);
    assert Pow2(32) - 1 - y == align - 1;
  }

  /** align_up really aligns every value if and only if the alignment is a power of two. */
  lemma AlignsWhen(align: nat)
    requires 0 < align < W32
    ensures (forall v: nat :: v + align <= W32 ==> AlignUp(v, align) % align == 0) <==> PowerOfTwo(align)
  {
    hide And;
    if PowerOfTwo(align) {
      var k: nat :| align == Pow2(k);
      forall v: nat | v + align <= W32 ensures AlignUp(v, align) % align == 0 { AlignsPower(v, k); }
    } else {
      OneMisaligned(align);
    }
  }

  lemma AlignsPower(v: nat, k: nat)
    requires Pow2(k) < W32
    ensures Pow2(k) > 0 && AlignUp(v, Pow2(k)) % Pow2(k) == 0
  {
    hide And, AlignUp;
    PowPositive(k);
    SmallPower(k);
    AlignDivides(v, k);
    Multiple((v + Pow2(k) - 1) % W32 / Pow2(k), Pow2(k));
  }

  lemma SmallPower(k: nat)
    requires Pow2(k) < W32
    ensures k < 32
  {
    WordPowers();
    if k >= 32 { PowGrows(32, k); }
  }

  /** For any other alignment the value 1 is not aligned. */
  lemma OneMisaligned(align: nat)
    requires 0 < align < W32 && !PowerOfTwo(align)
    ensures AlignUp(1, align) % align != 0
  {
    hide And, PowerOfTwo, Pow2;
    WordPowers();
    MinusWord(align);
    LowestDigit(align, 32);
    var r := And(align, Pow2(32) - align);
    PowPositiveAll(r);
    Below(r, align);
  }

  lemma Below(r: nat, a: nat)
    requires 0 < r < a
    ensures r % a != 0
  {
  }

  lemma PowPositiveAll(a: nat)
    requires PowerOfTwo(a)
    ensures a > 0
  {
    var k: nat :| a == Pow2(k);
    PowPositive(k);
  }

  /** For example, align_up(1, 3) is 1. */
  lemma ThreeMisaligns()
    ensures AlignUp(1, 3) == 1
  {
    WordPowers();
    AndApart(1, 31);
    assert (W32 - 3) % W32 == W32 - 3 && (W32 - 3) / 2 == 0x7FFF_FFFE;
    assert And(1, 0x7FFF_FFFE) == 0;
  }

  lemma HalfQuotient(a: nat, p: nat)
    requires p > 0
    ensures a / (2 * p) == a / 2 / p == a / p / 2
  {
    var x, r := a / p, a % p;
    Regrouped(a, p, x, r, x / 2, x % 2);
    var y, s := a / 2, a % 2;
    assert y == y / p * p + y % p;
    HalfFirst(a, p, y / p, y % p, s);
  }

  lemma Regrouped(a: nat, p: nat, x: nat, r: nat, y: nat, s: nat)
    requires r < p && a == x * p + r && x == 2 * y + s && s <= 1
    ensures a / (2 * p) == y
  {
    TimesSum(y, s, p);
    var t := if s == 0 then r else p + r;
    assert s * p + r == t;
    Unique(a, 2 * p, y, t);
  }

  lemma TimesSum(y: nat, s: nat, p: nat)
    ensures (2 * y + s) * p == y * (2 * p) + s * p
  {
  }

  lemma HalfFirst(a: nat, p: nat, y: nat, r: nat, s: nat)
    requires r < p && s <= 1 && a == 2 * (y * p + r) + s
    ensures a / (2 * p) == y
  {
    assert y * (2 * p) == 2 * (y * p);
    Unique(a, 2 * p, y, 2 * r + s);
  }

  lemma PageTimes(k: int)
    ensures (4096 * k) % PAGE == 0 && (4096 * k) % 8 == 0
  {
  }

  lemma PageMultiples(x: int, y: int)
    requires x % PAGE == 0 && y % PAGE == 0
    ensures x < y + PAGE ==> x <= y
    ensures (x + y) % PAGE == 0 && (x - y) % PAGE == 0
    ensures x % 8 == 0 && y % 8 == 0
  {
    var p, q := x / 4096, y / 4096;
    assert x == 4096 * p && y == 4096 * q;
    PageTimes(p);
    PageTimes(q);
    PageTimes(p + q);
    PageTimes(p - q);
  }

  lemma GapOfPage(x: int, y: int)
    requires x % PAGE == 0 && y % PAGE == 0 && y <= x
    ensures x == y || y + PAGE <= x
  {
  }

  lemma Multiples(x: int, y: int)
    requires x % 8 == 0 && y % 8 == 0
    ensures (x + y) % 8 == 0 && (x - y) % 8 == 0
  {
  }

  lemma {:induction false} Multiple(i: nat, n: nat)
    requires n > 0
    ensures (i * n) % n == 0 && (i * n) / n == i
  {
    if i > 0 {
      Multiple(i - 1, n);
      assert i * n == (i - 1) * n + n;
      AddOne((i - 1) * n, n);
    }
  }

  lemma AddOne(x: nat, n: nat)
    requires n > 0
    ensures (x + n) % n == x % n && (x + n) / n == x / n + 1
  {
    assert x == (x / n) * n + x % n;
    assert x + n == (x / n + 1) * n + x % n;
    Unique(x + n, n, x / n + 1, x % n);
  }

  lemma Unique(x: nat, n: nat, q: nat, r: nat)
    requires n > 0 && r < n && x == q * n + r
    ensures x / n == q && x % n == r
  {
    var q', r' := x / n, x % n;
    assert (q' - q) * n == r - r' && (q - q') * n == r' - r;
    if q < q' { AtLeast(q' - q, n); }
    if q' < q { AtLeast(q - q', n); }
  }

  lemma AtLeast(k: nat, n: nat)
    requires k >= 1
    ensures k * n >= n
  {
  }

  // ---- wrap-around ---------------------------------------------------------------------------------

  lemma WrapFree(x: int, k: int, w: nat)
    requires w > 0
    ensures (x + w * k) % w == x % w
  {
    var q, r := x / w, x % w;
    assert x == w * q + r;
    SumTimes(q, k, w);
    UniqueInt(x + w * k, w, q + k, r);
  }

  lemma SumTimes(q: int, k: int, w: nat)
    ensures w * q + w * k == w * (q + k)
  {
  }

  lemma UniqueInt(x: int, n: nat, q: int, r: nat)
    requires n > 0 && r < n && x == n * q + r
    ensures x % n == r
  {
    var q', r' := x / n, x % n;
    assert x == n * q' + r';
    assert (q' - q) * n == r - r' && (q - q') * n == r' - r;
    if q < q' { AtLeast(q' - q, n); }
    if q' < q { AtLeast(q - q', n); }
  }
}
