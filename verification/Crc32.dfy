/**
 The table-driven CRC-32 (kernel/include/crc32.hpp) against the bit-at-a-time definition: the reflected
 polynomial of section 8 of RFC 1952, one message bit per step, least significant bit of each byte first.
 */
module Crc32 {
  const POLYNOMIAL: bv32 := 0xEDB8_8320
  const ONES: bv32 := 0xFFFF_FFFF

  // ---- the definition ------------------------------------------------------------------------------

  function Xor(a: bv32, b: bv32): bv32 { a ^ b }
  function Half(a: bv32): bv32 { a >> 1 }
  predicate Odd(a: bv32) { a & 1 == 1 }

  /** One step of the shift register. */
  function Step(c: bv32): bv32 { if Odd(c) then Xor(POLYNOMIAL, Half(c)) else Half(c) }

  /** The register after one message bit. */
  function FeedBit(c: bv32, bit: bool): bv32 { Step(if bit then Xor(c, 1) else c) }

  function FeedBits(c: bv32, bits: seq<bool>): bv32
    decreases |bits|
  {
    if bits == [] then c else FeedBits(FeedBit(c, bits[0]), bits[1..])
  }

  /** The n low bits of u, lowest first. */
  function LowBits(u: bv32, n: nat): seq<bool>
    decreases n
  {
    if n == 0 then [] else [Odd(u)] + LowBits(Half(u), n - 1)
  }

  function Wide(u: bv8): bv32 { u as bv32 }

  /** The message as bits. */
  function MessageBits(data: seq<bv8>): seq<bool>
  {
    if data == [] then [] else LowBits(Wide(data[0]), 8) + MessageBits(data[1..])
  }

  function Crc(data: seq<bv8>, initial: bv32): bv32
  {
    Xor(FeedBits(Xor(initial, ONES), MessageBits(data)), ONES)
  }

  /** Bit 31 - i stands for x^i: 1, x, x^2, x^4, x^5, x^7, x^8, x^10, x^11, x^12, x^16, x^22, x^23 and x^26. */
  lemma GeneratorBits(i: nat)
    requires i < 32
    ensures (POLYNOMIAL >> (31 - i)) & 1 == 1 <==> i in {0, 1, 2, 4, 5, 7, 8, 10, 11, 12, 16, 22, 23, 26}
  {
  }

  // ---- the register is linear ------------------------------------------------------------------------

  function Low(a: bv32): bv32 { a & 1 }
  function Tap(a: bv32): bv32 { if Odd(a) then POLYNOMIAL else 0 }

  lemma StepParts(c: bv32)
    ensures Step(c) == Xor(Tap(c), Half(c))
  {
  }

  lemma XorZero(c: bv32)
    ensures Xor(c, 0) == c && Xor(0, c) == c
  {
  }

  lemma LowIs(a: bv32)
    ensures Low(a) == if Odd(a) then 1 else 0
  {
  }

  lemma HalfXor(a: bv32, b: bv32)
    ensures Half(Xor(a, b)) == Xor(Half(a), Half(b))
  {
  }

  lemma TapXor(a: bv32, b: bv32)
    ensures Tap(Xor(a, b)) == Xor(Tap(a), Tap(b))
  {
  }

  lemma Exchange(a: bv32, b: bv32, c: bv32, d: bv32)
    ensures Xor(Xor(a, b), Xor(c, d)) == Xor(Xor(a, c), Xor(b, d))
  {
    hide Xor;
    XorAssociates(a, b, Xor(c, d));
    XorAssociates(b, c, d);
    XorCommutes(b, c);
    XorAssociates(c, b, d);
    XorAssociates(a, c, Xor(b, d));
  }

  lemma XorAssociates(a: bv32, b: bv32, c: bv32)
    ensures Xor(Xor(a, b), c) == Xor(a, Xor(b, c))
  {
  }

  lemma XorCommutes(a: bv32, b: bv32)
    ensures Xor(a, b) == Xor(b, a)
  {
  }

  lemma StepXor(a: bv32, b: bv32)
    ensures Step(Xor(a, b)) == Xor(Step(a), Step(b))
  {
    hide Step, Xor, Half, Tap;
    StepParts(a);
    StepParts(b);
    StepParts(Xor(a, b));
    HalfXor(a, b);
    TapXor(a, b);
    Exchange(Tap(a), Tap(b), Half(a), Half(b));
  }

  ghost function Steps(c: bv32, n: nat): bv32
    decreases n
  {
    if n == 0 then c else Steps(Step(c), n - 1)
  }

  lemma {:induction false} StepsXor(a: bv32, b: bv32, n: nat)
    ensures Steps(Xor(a, b), n) == Xor(Steps(a, n), Steps(b, n))
    decreases n
  {
    hide Step, Xor;
    if n > 0 {
      StepXor(a, b);
      StepsXor(Step(a), Step(b), n - 1);
    }
  }

  ghost function Halves(c: bv32, n: nat): bv32
    decreases n
  {
    if n == 0 then c else Halves(Half(c), n - 1)
  }

  // ---- feeding a byte bit by bit, or all at once -------------------------------------------------------

  lemma SplitLow(c: bv32, u: bv32)
    ensures Xor(c, u) == Xor(Xor(c, Low(u)), Xor(u, Low(u))) && Step(Xor(u, Low(u))) == Half(u)
  {
  }

  lemma FeedIsStep(c: bv32, u: bv32)
    ensures FeedBit(c, Odd(u)) == Step(Xor(c, Low(u)))
  {
    hide Xor, Odd, Half, Low, Step;
    LowIs(u);
    XorZero(c);
  }

  /** Feeding n bits one at a time is xoring them in at once and stepping n times. */
  lemma {:induction false} FeedTogether(c: bv32, u: bv32, n: nat)
    requires Halves(u, n) == 0
    ensures FeedBits(c, LowBits(u, n)) == Steps(Xor(c, u), n)
    decreases n
  {
    hide Step, Xor, Low, FeedBit, Half, Odd;
    if n == 0 {
      XorZero(c);
    } else {
      FeedIsStep(c, u);
      SplitLow(c, u);
      StepXor(Xor(c, Low(u)), Xor(u, Low(u)));
      var c1 := Step(Xor(c, Low(u)));
      FeedTogether(c1, Half(u), n - 1);
      assert LowBits(u, n)[1..] == LowBits(Half(u), n - 1);
    }
  }

  // ---- one table lookup --------------------------------------------------------------------------------

  lemma Byte8(u: bv8)
    ensures Halves(Wide(u), 8) == 0
  {
  }

  lemma Halves8(c: bv32)
    ensures Halves(c, 8) == Shift8(c)
  {
  }

  /** The n low bits are zero. */
  ghost predicate Clear(c: bv32, n: nat)
    decreases n
  {
    n == 0 || (Low(c) == 0 && Clear(Half(c), n - 1))
  }

  lemma StepEven(c: bv32)
    requires Low(c) == 0
    ensures Step(c) == Half(c)
  {
  }

  lemma {:induction false} StepsClear(c: bv32, n: nat)
    requires Clear(c, n)
    ensures Steps(c, n) == Halves(c, n)
    decreases n
  {
    hide Step, Half;
    if n > 0 {
      StepEven(c);
      StepsClear(Half(c), n - 1);
    }
  }

  function LowByte(c: bv32): bv32 { c & 0xFF }
  function HighBytes(c: bv32): bv32 { c & 0xFFFF_FF00 }
  function Shift8(c: bv32): bv32 { c >> 8 }

  lemma HighIsClear(c: bv32)
    ensures Clear(HighBytes(c), 8)
  {
  }

  lemma Bytes8(c: bv32, u: bv8)
    ensures Xor(c, Wide(u)) == Xor(LowByte(Xor(c, Wide(u))), HighBytes(Xor(c, Wide(u))))
    ensures Shift8(HighBytes(Xor(c, Wide(u)))) == Shift8(c)
  {
  }

  /** One table lookup does the work of eight message bits. */
  lemma LookupIsEightBits(c: bv32, u: bv8)
    ensures FeedBits(c, LowBits(Wide(u), 8)) == Xor(Steps(LowByte(Xor(c, Wide(u))), 8), Shift8(c))
  {
    hide Wide, Xor, LowByte, HighBytes, Shift8, Steps, Clear, Halves, FeedBits, LowBits;
    var x := Xor(c, Wide(u));
    Byte8(u);
    FeedTogether(c, Wide(u), 8);
    Bytes8(c, u);
    StepsXor(LowByte(x), HighBytes(x), 8);
    HighIsClear(x);
    StepsClear(HighBytes(x), 8);
    Halves8(HighBytes(x));
  }

  // ---- the program -------------------------------------------------------------------------------------

  function Index(k: bv32): nat { k as int }

  /** Entry k is what eight steps make of k. */
  ghost predicate TableFor(table: seq<bv32>)
  {
    |table| == 256 && forall i :: 0 <= i < 256 ==> table[i] == Steps(Number(i), 8)
  }

  function Number(i: nat): bv32
    requires i < 256
  {
    i as bv32
  }

  lemma NumberOfIndex(c: bv32)
    ensures Index(LowByte(c)) < 256 && Number(Index(LowByte(c))) == LowByte(c)
  {
    hide LowByte;
    LowByteSmall(c);
    SmallIndex(LowByte(c));
    IndexBack(LowByte(c));
  }

  lemma LowByteSmall(c: bv32)
    ensures LowByte(c) <= 0xFF
  {
  }

  lemma SmallIndex(k: bv32)
    requires k <= 0xFF
    ensures Index(k) < 256
  {
  }

  lemma IndexBack(k: bv32)
    requires Index(k) < 256
    ensures Number(Index(k)) == k
  {
  }

  lemma {:induction false} OneMore(c: bv32, n: nat)
    ensures Steps(c, n + 1) == Step(Steps(c, n))
    decreases n
  {
    hide Step;
    if n > 0 { OneMore(Step(c), n - 1); }
  }

  /** generate_crc32_table */
  method GenerateTable() returns (table: array<bv32>)
    ensures fresh(table) && TableFor(table[..])
  {
    hide Step, Number, Steps, Xor, Half, Odd;
    table := new bv32[256];
    for i := 0 to 256
      invariant forall k :: 0 <= k < i ==> table[k] == Steps(Number(k), 8)
    {
      var c := Number(i);
      NoSteps(c);
      for j := 0 to 8
        invariant c == Steps(Number(i), j)
        invariant forall k :: 0 <= k < i ==> table[k] == Steps(Number(k), 8)
      {
        OneMore(Number(i), j);
        StepIs(c);
        if Odd(c) {
          c := Xor(POLYNOMIAL, Half(c));
        } else {
          c := Half(c);
        }
      }
      table[i] := c;
    }
  }

  lemma NoSteps(c: bv32)
    ensures Steps(c, 0) == c
  {
  }

  lemma StepIs(c: bv32)
    ensures Step(c) == if Odd(c) then Xor(POLYNOMIAL, Half(c)) else Half(c)
  {
  }

  lemma {:induction false} FeedAppend(c: bv32, a: seq<bool>, b: seq<bool>)
    ensures FeedBits(c, a + b) == FeedBits(FeedBits(c, a), b)
    decreases |a|
  {
    hide FeedBit;
    if a == [] {
      assert a + b == b;
    } else {
      FeedAppend(FeedBit(c, a[0]), a[1..], b);
      assert (a + b)[1..] == a[1..] + b;
    }
  }

  lemma {:induction false} BitsAppend(x: seq<bv8>, y: seq<bv8>)
    ensures MessageBits(x + y) == MessageBits(x) + MessageBits(y)
  {
    hide LowBits, Wide;
    if x == [] {
      assert x + y == y;
    } else {
      BitsAppend(x[1..], y);
      assert (x + y)[1..] == x[1..] + y && (x + y)[0] == x[0];
      Associates(LowBits(Wide(x[0]), 8), MessageBits(x[1..]), MessageBits(y));
    }
  }

  lemma Associates(a: seq<bool>, b: seq<bool>, c: seq<bool>)
    ensures (a + b) + c == a + (b + c)
  {
  }

  lemma BitsNext(data: seq<bv8>, i: nat)
    requires i < |data|
    ensures MessageBits(data[..i + 1]) == MessageBits(data[..i]) + LowBits(Wide(data[i]), 8)
  {
    hide LowBits, Wide;
    BitsAppend(data[..i], [data[i]]);
    assert data[..i + 1] == data[..i] + [data[i]];
    assert MessageBits([data[i]]) == LowBits(Wide(data[i]), 8);
  }

  /** Eight steps of the register, written out. */
  function EightSteps(c: bv32): bv32 { Step(Step(Step(Step(Step(Step(Step(Step(c)))))))) }

  lemma FeedByte(c: bv32, u: bv8, r: bv32)
    requires EightSteps(Xor(c, Wide(u))) == r
    ensures FeedBits(c, LowBits(Wide(u), 8)) == r
  {
    hide Step, Xor, Wide, FeedBits, LowBits, Halves;
    Byte8(u);
    FeedTogether(c, Wide(u), 8);
    EightIsSteps(Xor(c, Wide(u)));
  }

  lemma EightIsSteps(c: bv32)
    ensures Steps(c, 8) == EightSteps(c)
  {
    hide Step;
    var c4 := Step(Step(Step(Step(c))));
    assert Steps(c, 8) == Steps(c4, 4);
    assert Steps(c4, 4) == Step(Step(Step(Step(c4))));
  }

  lemma FeedNext(c: bv32, data: seq<bv8>, i: nat, r: bv32, r': bv32)
    requires i < |data| && FeedBits(c, MessageBits(data[..i])) == r && EightSteps(Xor(r, Wide(data[i]))) == r'
    ensures FeedBits(c, MessageBits(data[..i + 1])) == r'
  {
    hide Step, Xor, Wide, FeedBits, LowBits, MessageBits, EightSteps;
    BitsNext(data, i);
    FeedAppend(c, MessageBits(data[..i]), LowBits(Wide(data[i]), 8));
    FeedByte(r, data[i], r');
  }

  /** The check value of this CRC: the digits 1 to 9 in ASCII. */
  lemma CheckValue()
    ensures Crc([0x31, 0x32, 0x33, 0x34, 0x35, 0x36, 0x37, 0x38, 0x39], 0) == 0xCBF4_3926
  {
    var data: seq<bv8> := [0x31, 0x32, 0x33, 0x34, 0x35, 0x36, 0x37, 0x38, 0x39];
    NothingFed(ONES, data);
    Digits();
    hide FeedBits, MessageBits, EightSteps;
    FeedNext(ONES, data, 0, 0xFFFF_FFFF, 0x7C23_1048);
    FeedNext(ONES, data, 1, 0x7C23_1048, 0xB0AC_BB32);
    FeedNext(ONES, data, 2, 0xB0AC_BB32, 0x77B7_9C2D);
    FeedNext(ONES, data, 3, 0x77B7_9C2D, 0x641C_1F5C);
    FeedNext(ONES, data, 4, 0x641C_1F5C, 0x340A_C5E3);
    FeedNext(ONES, data, 5, 0x340A_C5E3, 0xF68D_2C9E);
    FeedNext(ONES, data, 6, 0xF68D_2C9E, 0xAFFC_9660);
    FeedNext(ONES, data, 7, 0xAFFC_9660, 0x651F_2550);
    FeedNext(ONES, data, 8, 0x651F_2550, 0x340B_C6D9);
    assert data[..9] == data;
  }

  lemma Digits()
    ensures EightSteps(Xor(0xFFFF_FFFF, Wide(0x31))) == 0x7C23_1048
    ensures EightSteps(Xor(0x7C23_1048, Wide(0x32))) == 0xB0AC_BB32
    ensures EightSteps(Xor(0xB0AC_BB32, Wide(0x33))) == 0x77B7_9C2D
    ensures EightSteps(Xor(0x77B7_9C2D, Wide(0x34))) == 0x641C_1F5C
    ensures EightSteps(Xor(0x641C_1F5C, Wide(0x35))) == 0x340A_C5E3
    ensures EightSteps(Xor(0x340A_C5E3, Wide(0x36))) == 0xF68D_2C9E
    ensures EightSteps(Xor(0xF68D_2C9E, Wide(0x37))) == 0xAFFC_9660
    ensures EightSteps(Xor(0xAFFC_9660, Wide(0x38))) == 0x651F_2550
    ensures EightSteps(Xor(0x651F_2550, Wide(0x39))) == 0x340B_C6D9
  {
  }

  /** calc: the bit-at-a-time CRC of the buffer. */
  method Calc(table: array<bv32>, data: seq<bv8>, initial: bv32) returns (r: bv32)
    requires TableFor(table[..])
    ensures r == Crc(data, initial)
  {
    hide FeedBits, MessageBits, LowBits, Steps, Wide, Number, Index, Xor, LowByte, Shift8;
    var c := Xor(initial, ONES);
    NothingFed(c, data);
    for i := 0 to |data|
      invariant c == FeedBits(Xor(initial, ONES), MessageBits(data[..i]))
    {
      BitsNext(data, i);
      FeedAppend(Xor(initial, ONES), MessageBits(data[..i]), LowBits(Wide(data[i]), 8));
      LookupIsEightBits(c, data[i]);
      NumberOfIndex(Xor(c, Wide(data[i])));
      assert table[..][Index(LowByte(Xor(c, Wide(data[i]))))] == table[Index(LowByte(Xor(c, Wide(data[i]))))];
      c := Xor(table[Index(LowByte(Xor(c, Wide(data[i]))))], Shift8(c));
    }
    assert data[..|data|] == data;
    r := Xor(c, ONES);
  }

  lemma NothingFed(c: bv32, data: seq<bv8>)
    ensures FeedBits(c, MessageBits(data[..0])) == c
  {
  }

  /** Feeding one result in as `initial` continues the checksum over the concatenation. */
  lemma Chaining(x: seq<bv8>, y: seq<bv8>, initial: bv32)
    ensures Crc(y, Crc(x, initial)) == Crc(x + y, initial)
  {
    hide FeedBits, MessageBits, Xor;
    BitsAppend(x, y);
    FeedAppend(Xor(initial, ONES), MessageBits(x), MessageBits(y));
    Cancel(FeedBits(Xor(initial, ONES), MessageBits(x)), ONES);
  }

  lemma Cancel(a: bv32, b: bv32)
    ensures Xor(Xor(a, b), b) == a
  {
  }
}
