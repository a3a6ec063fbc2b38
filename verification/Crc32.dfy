/** The CRC-32 that guards the boot record (Bootloader/MBR/src/ambrc.c:66-88; section 8 of RFC 1952). */
module Crc32 {
  import opened Common

  const POLY: bv32 := 0xEDB88320

  // ----- the reference: one message bit at a time -----

  /** Reflected division: the feedback is the register's low bit against the message bit. */
  function BitStep(s: bv32, bit: bool): bv32 {
    if (s & 1 == 1) != bit then (s >> 1) ^ POLY else s >> 1
  }

  function BitRun(s: bv32, bits: seq<bool>): bv32
    decreases |bits|
  {
    if bits == [] then s else BitRun(BitStep(s, bits[0]), bits[1..])
  }

  /** The lowest `n` bits, lowest first. */
  function LowBits(x: bv32, n: nat): (r: seq<bool>)
    ensures |r| == n
    decreases n
  {
    if n == 0 then [] else [x & 1 == 1] + LowBits(x >> 1, n - 1)
  }

  function ByteBits(b: bv8): (r: seq<bool>)
    ensures |r| == 8
  {
    LowBits(b as bv32, 8)
  }

  function Bits(data: seq<bv8>): (r: seq<bool>)
    ensures |r| == 8 * |data|
    decreases |data|
  {
    if data == [] then [] else ByteBits(data[0]) + Bits(data[1..])
  }

  /** The register starts at `s`, and `s` is added again at the end. */
  function CrcFrom(s: bv32, data: seq<bv8>): bv32 { BitRun(s, Bits(data)) ^ s }

  /** The CRC by its definition. */
  function Crc(data: seq<bv8>): bv32 { CrcFrom(0xFFFF_FFFF, data) }

  // ----- a published value -----

  /** The bytes of "123456789". */
  const CHECK_STRING: seq<bv8> := [0x31, 0x32, 0x33, 0x34, 0x35, 0x36, 0x37, 0x38, 0x39]

  function TwoSteps(s: bv32, x: bv32): bv32 { BitStep(BitStep(s, x & 1 == 1), (x >> 1) & 1 == 1) }

  function EightSteps(s: bv32, x: bv32): bv32 {
    TwoSteps(TwoSteps(TwoSteps(TwoSteps(s, x), x >> 2), x >> 4), x >> 6)
  }

  /** What the first `i` bytes of the string leave in the register. */
  const CHECK_STATES: seq<bv32> := [0xFFFFFFFF, 0x7C231048, 0xB0ACBB32, 0x77B79C2D, 0x641C1F5C, 0x340AC5E3, 0xF68D2C9E,
      0xAFFC9660, 0x651F2550, 0x340BC6D9]

  lemma {:induction false} CheckState(i: nat)
    requires i < 9
    ensures EightSteps(CHECK_STATES[i], CHECK_STRING[i] as bv32) == CHECK_STATES[i + 1]
  {
  }

  lemma {:induction false} ShiftsAdd(x: bv32)
    ensures (x >> 1) >> 1 == x >> 2 && (x >> 2) >> 2 == x >> 4 && (x >> 4) >> 2 == x >> 6
  {
  }

  lemma {:induction false} TwoAtOnce(s: bv32, x: bv32, n: nat)
    ensures BitRun(s, LowBits(x, n + 2)) == BitRun(TwoSteps(s, x), LowBits(x >> 2, n))
  {
    ShiftsAdd(x);
    var rest := LowBits(x >> 1, n + 1);
    assert LowBits(x, n + 2)[1..] == rest;
    assert rest[1..] == LowBits((x >> 1) >> 1, n);
  }

  lemma {:induction false} ByteSteps(s: bv32, b: bv8)
    ensures BitRun(s, ByteBits(b)) == EightSteps(s, b as bv32)
  {
    var x := b as bv32;
    ShiftsAdd(x);
    TwoAtOnce(s, x, 6);
    TwoAtOnce(TwoSteps(s, x), x >> 2, 4);
    TwoAtOnce(TwoSteps(TwoSteps(s, x), x >> 2), x >> 4, 2);
    TwoAtOnce(TwoSteps(TwoSteps(TwoSteps(s, x), x >> 2), x >> 4), x >> 6, 0);
  }

  lemma {:induction false} CheckRun(i: nat)
    requires i <= 9
    ensures BitRun(CHECK_STATES[i], Bits(CHECK_STRING[i..])) == CHECK_STATES[9]
    decreases 9 - i
  {
    if i < 9 {
      CheckState(i);
      ByteSteps(CHECK_STATES[i], CHECK_STRING[i]);
      RunAppend(CHECK_STATES[i], ByteBits(CHECK_STRING[i]), Bits(CHECK_STRING[i..][1..]));
      CheckRun(i + 1);
    }
  }

  /** The published check value of this CRC (section 8 of RFC 1952 gives its definition). */
  lemma {:induction false} CheckValue()
    ensures Crc(CHECK_STRING) == 0xCBF4_3926
  {
    CheckRun(0);
    assert CHECK_STRING[0..] == CHECK_STRING;
  }

  // ----- the shift is linear and loses nothing -----

  function Shift(x: bv32): bv32 { Reduce(x >> 1, x & 1 == 1) }

  function Iterate<T>(f: T -> T, x: T, n: nat): T
    decreases n
  {
    if n == 0 then x else Iterate(f, f(x), n - 1)
  }

  ghost predicate Distributes<T(!new)>(f: T -> T, op: (T, T) -> T) { forall x, y :: f(op(x, y)) == op(f(x), f(y)) }

  ghost predicate IsInjective<T(!new)>(f: T -> T) { forall x, y :: f(x) == f(y) ==> x == y }

  lemma {:induction false} DistributesRun<T(!new)>(f: T -> T, op: (T, T) -> T, x: T, y: T, n: nat)
    requires Distributes(f, op)
    ensures Iterate(f, op(x, y), n) == op(Iterate(f, x, n), Iterate(f, y, n))
    decreases n
  {
    if n == 0 {
    } else {
      DistributesRun(f, op, f(x), f(y), n - 1);
    }
  }

  lemma {:induction false} InjectiveRun<T(!new)>(f: T -> T, x: T, y: T, n: nat)
    requires IsInjective(f) && Iterate(f, x, n) == Iterate(f, y, n)
    ensures x == y
    decreases n
  {
    if n == 0 {
    } else {
      InjectiveRun(f, f(x), f(y), n - 1);
    }
  }

  function Xor(x: bv32, y: bv32): bv32 { x ^ y }

  function Shifts(x: bv32, n: nat): bv32 { Iterate(Shift, x, n) }

  lemma {:induction false} XorShift(x: bv32, y: bv32)
    ensures (x ^ y) >> 1 == (x >> 1) ^ (y >> 1)
  {
  }

  lemma {:induction false} XorOdd(x: bv32, y: bv32)
    ensures ((x ^ y) & 1 == 1) == ((x & 1 == 1) != (y & 1 == 1))
  {
  }

  function Reduce(a: bv32, odd: bool): bv32 { if odd then a ^ POLY else a }

  lemma {:induction false} XorBoth(a: bv32, b: bv32, p: bv32)
    ensures (a ^ p) ^ (b ^ p) == a ^ b
  {
  }

  lemma {:induction false} XorLeft(a: bv32, b: bv32, p: bv32)
    ensures (a ^ p) ^ b == (a ^ b) ^ p
  {
  }

  lemma {:induction false} XorRight(a: bv32, b: bv32, p: bv32)
    ensures a ^ (b ^ p) == (a ^ b) ^ p
  {
  }

  lemma {:induction false} XorReduce(a: bv32, b: bv32, p: bool, q: bool)
    ensures Reduce(a ^ b, p != q) == Reduce(a, p) ^ Reduce(b, q)
  {
    if p && q {
      XorBoth(a, b, POLY);
    } else if p {
      XorLeft(a, b, POLY);
    } else if q {
      XorRight(a, b, POLY);
    }
  }

  lemma {:induction false} Linear(x: bv32, y: bv32)
    ensures Shift(x ^ y) == Shift(x) ^ Shift(y)
  {
    XorShift(x, y);
    XorOdd(x, y);
    XorReduce(x >> 1, y >> 1, x & 1 == 1, y & 1 == 1);
  }

  lemma {:induction false} Injective(x: bv32, y: bv32)
    requires Shift(x) == Shift(y)
    ensures x == y
  {
  }

  lemma {:induction false} StepIsShift(s: bv32, bit: bool)
    ensures BitStep(s, bit) == Shift(Xor(s, Bit(bit)))
  {
    if bit {
      SetStep(s);
    } else {
      ClearStep(s);
    }
  }

  lemma {:induction false} ClearStep(s: bv32)
    ensures BitStep(s, false) == Shift(Xor(s, Bit(false)))
  {
    StepOfClear(s);
    XorClear(s);
  }

  lemma {:induction false} SetStep(s: bv32)
    ensures BitStep(s, true) == Shift(Xor(s, Bit(true)))
  {
    StepOfSet(s);
    XorSet(s);
  }

  lemma {:induction false} StepOfClear(s: bv32)
    ensures BitStep(s, false) == Shift(s)
  {
  }

  lemma {:induction false} StepOfSet(s: bv32)
    ensures BitStep(s, true) == Shift(s ^ 1)
  {
    FlipLowest(s);
  }

  lemma {:induction false} XorClear(s: bv32)
    ensures Xor(s, Bit(false)) == s
  {
  }

  lemma {:induction false} XorSet(s: bv32)
    ensures Xor(s, Bit(true)) == s ^ 1
  {
  }

  lemma {:induction false} FlipLowest(s: bv32)
    ensures (s ^ 1) >> 1 == s >> 1 && ((s ^ 1) & 1 == 1 <==> s & 1 != 1)
  {
  }

  lemma {:induction false} ShiftIsLinear()
    ensures Distributes(Shift, Xor)
  {
    forall x, y
      ensures Shift(Xor(x, y)) == Xor(Shift(x), Shift(y))
    {
      Linear(x, y);
    }
  }

  lemma {:induction false} ShiftIsInjective()
    ensures IsInjective(Shift)
  {
    forall x, y | Shift(x) == Shift(y)
      ensures x == y
    {
      Injective(x, y);
    }
  }

  lemma {:induction false} EightZeroes(x: bv32)
    requires x & 0xFF == 0
    ensures Shift(Shift(Shift(Shift(Shift(Shift(Shift(Shift(x)))))))) == x >> 8
  {
  }

  lemma {:induction false} HighPart(x: bv32, n: nat)
    requires x & 0xFF == 0 && n == 8
    ensures Shifts(x, n) == x >> 8
  {
    EightZeroes(x);
    EightShifts(x);
  }

  lemma {:induction false} EightShifts(x: bv32)
    ensures Shifts(x, 8) == Shift(Shift(Shift(Shift(Shift(Shift(Shift(Shift(x))))))))
  {
  }

  lemma {:induction false} Halves(x: bv32)
    ensures (x & 0xFFFF_FF00) ^ (x & 0xFF) == x && (x & 0xFFFF_FF00) >> 8 == x >> 8 && (x & 0xFFFF_FF00) & 0xFF == 0
  {
  }

  lemma {:induction false} Combine<T(!new)>(f: T -> T, op: (T, T) -> T, high: T, low: T, n: nat, moved: T)
    requires Distributes(f, op) && Iterate(f, high, n) == moved
    ensures Iterate(f, op(high, low), n) == op(moved, Iterate(f, low, n))
  {
    DistributesRun(f, op, high, low, n);
  }

  lemma {:induction false} CombineShifts(x: bv32, high: bv32, low: bv32, n: nat, moved: bv32)
    requires Xor(high, low) == x && Shifts(high, n) == moved
    ensures Shifts(x, n) == Xor(moved, Shifts(low, n))
  {
    ShiftIsLinear();
    Combine(Shift, Xor, high, low, n, moved);
  }

  lemma {:induction false} SplitParts(x: bv32, high: bv32, low: bv32, n: nat)
    requires Xor(high, low) == x && high & 0xFF == 0 && n == 8
    ensures Shifts(x, n) == Xor(high >> 8, Shifts(low, n))
  {
    HighPart(high, n);
    CombineShifts(x, high, low, n, high >> 8);
  }

  lemma {:induction false} SplitMoved(x: bv32, high: bv32, low: bv32, moved: bv32, n: nat)
    requires Xor(high, low) == x && high & 0xFF == 0 && n == 8 && high >> 8 == moved
    ensures Shifts(x, n) == Xor(moved, Shifts(low, n))
  {
    SplitParts(x, high, low, n);
  }

  /** The step of calculate_crc32 is eight shifts, because the shift is linear and the high part only moves. */
  lemma {:induction false} SplitShift(x: bv32, n: nat)
    requires n == 8
    ensures Shifts(x, n) == Xor(x >> 8, Shifts(x & 0xFF, n))
  {
    Halves(x);
    SplitMoved(x, x & 0xFFFF_FF00, x & 0xFF, x >> 8, n);
  }

  // ----- up to 32 message bits at once -----

  function Bit(b: bool): bv32 { if b then 1 else 0 }

  function Cons(b: bool, w: bv32): bv32 { Bit(b) ^ (w << 1) }

  function Fold<T>(cons: (bool, T) -> T, zero: T, bits: seq<bool>): T
    decreases |bits|
  {
    if bits == [] then zero else cons(bits[0], Fold(cons, zero, bits[1..]))
  }

  lemma {:induction false} FoldKeeps<T(!new)>(cons: (bool, T) -> T, zero: T, bits: seq<bool>, inv: (nat, T) -> bool)
    requires inv(0, zero) && forall n: nat, b, w :: inv(n, w) ==> inv(n + 1, cons(b, w))
    ensures inv(|bits|, Fold(cons, zero, bits))
    decreases |bits|
  {
    if bits == [] {
    } else {
      FoldKeeps(cons, zero, bits[1..], inv);
    }
  }

  /** The message bits as a word, the first one lowest. */
  function Word(bits: seq<bool>): bv32 { Fold(Cons, 0, bits) }

  /** All bits from `k` up. */
  function From(k: nat): bv32 { if k == 0 then 0xFFFF_FFFF else From(k - 1) << 1 }

  lemma {:induction false} FromIsTop(k: nat)
    ensures (From(k) << 1) & From(k) == From(k) << 1
  {
    if k == 0 {
    } else {
      FromIsTop(k - 1);
      TopMoves(From(k - 1), From(k));
    }
  }

  lemma {:induction false} TopMoves(z: bv32, z': bv32)
    requires (z << 1) & z == z << 1 && z' == z << 1
    ensures (z' << 1) & z' == z' << 1
  {
  }

  lemma {:induction false} TopStays(z: bv32)
    requires (z << 1) & z == z << 1 && (z << 1) & 0x8000_0000 != 0
    ensures z & 0x8000_0000 != 0
  {
  }

  lemma {:induction false} TopInFrom(k: nat)
    requires k <= 31
    ensures From(k) & 0x8000_0000 != 0
    decreases 31 - k
  {
    if k == 31 {
      assert From(8) == 0xFFFF_FF00;
      assert From(16) == 0xFFFF_0000;
      assert From(24) == 0xFF00_0000;
      assert From(31) == 0x8000_0000;
    } else {
      TopInFrom(k + 1);
      FromIsTop(k);
      TopStays(From(k));
    }
  }

  predicate Below(k: nat, w: bv32) { w & From(k) == 0 }

  lemma {:induction false} WordIsBelow(bits: seq<bool>)
    ensures Below(|bits|, Word(bits))
  {
    forall n: nat, b, w | Below(n, w)
      ensures Below(n + 1, Cons(b, w))
    {
      BelowStep(n, b, w);
    }
    FoldKeeps(Cons, 0, bits, Below);
  }

  lemma {:induction false} BelowStep(n: nat, b: bool, w: bv32)
    requires Below(n, w)
    ensures Below(n + 1, Cons(b, w))
  {
    ConsIsBelow(w, From(n), b);
  }

  lemma {:induction false} OneIsBelow(w: bv32, z: bv32)
    requires w & z == 0
    ensures (1 ^ (w << 1)) & (z << 1) == 0 && (0 ^ (w << 1)) & (z << 1) == 0
  {
  }

  lemma {:induction false} ConsIsBelow(w: bv32, z: bv32, b: bool)
    requires w & z == 0
    ensures Cons(b, w) & (z << 1) == 0
  {
    OneIsBelow(w, z);
  }

  lemma {:induction false} TopClear(bits: seq<bool>)
    requires |bits| <= 31
    ensures Word(bits) & 0x8000_0000 == 0
  {
    WordIsBelow(bits);
    TopInFrom(|bits|);
    NoTop(Word(bits), From(|bits|));
  }

  lemma {:induction false} NoTop(w: bv32, z: bv32)
    requires w & z == 0 && z & 0x8000_0000 != 0
    ensures w & 0x8000_0000 == 0
  {
  }

  lemma {:induction false} Unshift(w: bv32)
    requires w & 0x8000_0000 == 0
    ensures Shift(w << 1) == w
  {
  }

  lemma {:induction false} XorAssociates(a: bv32, b: bv32, c: bv32)
    ensures Xor(Xor(a, b), c) == Xor(a, Xor(b, c))
  {
  }

  lemma {:induction false} DistributeInto<T(!new)>(f: T -> T, op: (T, T) -> T, x: T, w: T, w': T)
    requires Distributes(f, op) && f(w') == w
    ensures f(op(x, w')) == op(f(x), w)
  {
  }

  lemma {:induction false} ShiftLater(x: bv32, w: bv32, w': bv32)
    requires Shift(w') == w
    ensures Shift(Xor(x, w')) == Xor(Shift(x), w)
  {
    ShiftIsLinear();
    DistributeInto(Shift, Xor, x, w, w');
  }

  lemma {:induction false} AddParts(s: bv32, b: bool, w: bv32, w': bv32)
    requires Shift(w') == w
    ensures Xor(BitStep(s, b), w) == Shift(Xor(Xor(s, Bit(b)), w'))
  {
    StepIsShift(s, b);
    ShiftLater(Xor(s, Bit(b)), w, w');
  }

  /** One step on a register that later bits will still be added to. */
  lemma {:induction false} AddLater(s: bv32, b: bool, w: bv32)
    requires w & 0x8000_0000 == 0
    ensures Xor(BitStep(s, b), w) == Shift(Xor(s, Cons(b, w)))
  {
    Unshift(w);
    AddParts(s, b, w, w << 1);
    XorAssociates(s, Bit(b), w << 1);
  }

  lemma {:induction false} IterateOnce(x: bv32, y: bv32, n: nat)
    requires Shift(x) == y && n > 0
    ensures Shifts(y, n - 1) == Shifts(x, n)
  {
  }

  /** Up to 32 message bits can be added to the register first and shifted afterwards. */
  lemma {:induction false} WindowAtOnce(s: bv32, bits: seq<bool>)
    requires |bits| <= 32
    ensures BitRun(s, bits) == Shifts(Xor(s, Word(bits)), |bits|)
    decreases |bits|
  {
    if bits == [] {
      XorNothing(s);
    } else {
      WindowAtOnce(BitStep(s, bits[0]), bits[1..]);
      TopClear(bits[1..]);
      AddLater(s, bits[0], Word(bits[1..]));
      IterateOnce(Xor(s, Word(bits)), Xor(BitStep(s, bits[0]), Word(bits[1..])), |bits|);
    }
  }

  lemma {:induction false} XorNothing(s: bv32)
    ensures Xor(s, 0) == s
  {
  }

  lemma {:induction false} RunAppend(s: bv32, a: seq<bool>, b: seq<bool>)
    ensures BitRun(s, a + b) == BitRun(BitRun(s, a), b)
    decreases |a|
  {
    if a == [] {
      assert a + b == b;
    } else {
      assert (a + b)[1..] == a[1..] + b;
      RunAppend(BitStep(s, a[0]), a[1..], b);
    }
  }

  // ----- the table-driven loop computes the CRC -----

  function TableStep(s: bv32, b: bv8): bv32 { Xor(s >> 8, Shifts((s ^ (b as bv32)) & 0xFF, 8)) }

  predicate Short(x: bv32, n: nat)
    decreases n
  {
    if n == 0 then x == 0 else Short(x >> 1, n - 1)
  }

  lemma {:induction false} WordOfLowBits(x: bv32, n: nat)
    requires Short(x, n)
    ensures Word(LowBits(x, n)) == x
    decreases n
  {
    if n == 0 {
    } else {
      WordOfLowBits(x >> 1, n - 1);
      assert LowBits(x, n)[1..] == LowBits(x >> 1, n - 1);
      Rejoin(x);
    }
  }

  lemma {:induction false} Rejoin(x: bv32)
    ensures Cons(x & 1 == 1, x >> 1) == x
  {
    Halve(x);
  }

  lemma {:induction false} Halve(x: bv32)
    ensures x & 1 == 1 ==> 1 ^ ((x >> 1) << 1) == x
    ensures x & 1 != 1 ==> 0 ^ ((x >> 1) << 1) == x
  {
  }

  lemma {:induction false} ByteWord(b: bv8)
    ensures Word(ByteBits(b)) == b as bv32
  {
    ByteIsShort(b as bv32);
    WordOfLowBits(b as bv32, 8);
  }

  lemma {:induction false} ByteIsShort(x: bv32)
    requires x >> 8 == 0
    ensures Short(x, 8)
  {
    EightHalves(x);
  }

  lemma {:induction false} EightHalves(x: bv32)
    requires x >> 8 == 0
    ensures x >> 1 >> 1 >> 1 >> 1 >> 1 >> 1 >> 1 >> 1 == 0
  {
  }

  lemma {:induction false} HighOfByte(s: bv32, b: bv8)
    ensures (s ^ (b as bv32)) >> 8 == s >> 8
  {
  }

  lemma {:induction false} TableStepIsEightBits(s: bv32, b: bv8)
    ensures TableStep(s, b) == BitRun(s, ByteBits(b))
  {
    WindowAtOnce(s, ByteBits(b));
    ByteWord(b);
    SplitShift(Xor(s, b as bv32), 8);
    HighOfByte(s, b);
  }

  // ----- bursts -----

  lemma {:induction false} SameTail(x: bv32, y: bv32, bits: seq<bool>)
    requires BitRun(x, bits) == BitRun(y, bits)
    ensures x == y
    decreases |bits|
  {
    if bits == [] {
    } else {
      SameTail(BitStep(x, bits[0]), BitStep(y, bits[0]), bits[1..]);
      StepInjective(x, y, bits[0]);
    }
  }

  lemma {:induction false} StepInjective(x: bv32, y: bv32, b: bool)
    requires BitStep(x, b) == BitStep(y, b)
    ensures x == y
  {
  }

  lemma {:induction false} ConsLow(b: bool, w: bv32)
    ensures (Cons(b, w) & 1 == 1) == b
  {
    if b {
      OneLow(w);
    } else {
      ZeroLow(w);
    }
  }

  lemma {:induction false} OneLow(w: bv32)
    ensures (1 ^ (w << 1)) & 1 == 1 && (1 ^ (w << 1)) >> 1 == (w << 1) >> 1
  {
  }

  lemma {:induction false} ZeroLow(w: bv32)
    ensures (0 ^ (w << 1)) & 1 == 0 && (0 ^ (w << 1)) >> 1 == (w << 1) >> 1
  {
  }

  lemma {:induction false} ConsHigh(b: bool, w: bv32)
    requires w & 0x8000_0000 == 0
    ensures Cons(b, w) >> 1 == w
  {
    ConsShifted(b, w);
    BackAndForth(w);
  }

  lemma {:induction false} ConsShifted(b: bool, w: bv32)
    ensures Cons(b, w) >> 1 == (w << 1) >> 1
  {
    if b {
      OneLow(w);
    } else {
      ZeroLow(w);
    }
  }

  lemma {:induction false} BackAndForth(w: bv32)
    requires w & 0x8000_0000 == 0
    ensures (w << 1) >> 1 == w
  {
  }

  lemma {:induction false} ConsParts(b: bool, w: bv32, x: bv32)
    requires w & 0x8000_0000 == 0 && x == Cons(b, w)
    ensures (x & 1 == 1) == b && x >> 1 == w
  {
    ConsLow(b, w);
    ConsHigh(b, w);
  }

  lemma {:induction false} ConsInjective(b: bool, w: bv32, c: bool, v: bv32)
    requires w & 0x8000_0000 == 0 && v & 0x8000_0000 == 0 && Cons(b, w) == Cons(c, v)
    ensures b == c && w == v
  {
    ConsParts(b, w, Cons(b, w));
    ConsParts(c, v, Cons(b, w));
  }

  lemma {:induction false} WordInjective(u: seq<bool>, v: seq<bool>)
    requires |u| == |v| <= 32 && Word(u) == Word(v)
    ensures u == v
    decreases |u|
  {
    if u == [] {
    } else {
      TopClear(u[1..]);
      TopClear(v[1..]);
      ConsInjective(u[0], Word(u[1..]), v[0], Word(v[1..]));
      WordInjective(u[1..], v[1..]);
      assert u == [u[0]] + u[1..];
      assert v == [v[0]] + v[1..];
    }
  }

  lemma {:induction false} XorInjective(s: bv32, x: bv32, y: bv32)
    requires Xor(s, x) == Xor(s, y)
    ensures x == y
  {
  }

  /** From one register, different windows of up to 32 bits never meet again, whatever follows. */
  lemma {:induction false} BurstNeverMeets(s: bv32, u: seq<bool>, v: seq<bool>, tail: seq<bool>)
    requires |u| == |v| <= 32 && BitRun(s, u + tail) == BitRun(s, v + tail)
    ensures u == v
  {
    RunAppend(s, u, tail);
    RunAppend(s, v, tail);
    SameTail(BitRun(s, u), BitRun(s, v), tail);
    WindowAtOnce(s, u);
    WindowAtOnce(s, v);
    SameShifts(Xor(s, Word(u)), Xor(s, Word(v)), |u|);
    XorInjective(s, Word(u), Word(v));
    WordInjective(u, v);
  }

  lemma {:induction false} SameShifts(x: bv32, y: bv32, n: nat)
    requires Shifts(x, n) == Shifts(y, n)
    ensures x == y
  {
    ShiftIsInjective();
    InjectiveRun(Shift, x, y, n);
  }

  /** The bit strings of `a` and `b` agree everywhere but in the 32 bits from `lo`. */
  ghost predicate OneBurst(a: seq<bv8>, b: seq<bv8>, lo: nat) {
    |a| == |b| && forall i | 0 <= i < 8 * |a| && !(lo <= i < lo + 32) :: Bits(a)[i] == Bits(b)[i]
  }

  lemma {:induction false} ThreeParts<T>(x: seq<T>, from: nat, to: nat)
    requires from <= to <= |x|
    ensures x == x[..from] + (x[from..to] + x[to..])
  {
  }

  lemma {:induction false} RunsDiffer(s: bv32, x: seq<bool>, y: seq<bool>, from: nat, to: nat)
    requires |x| == |y| && from <= to <= |x| && to <= from + 32
    requires forall i | 0 <= i < |x| && !(from <= i < to) :: x[i] == y[i]
    requires BitRun(s, x) == BitRun(s, y)
    ensures x == y
  {
    var head, u, v, tail := x[..from], x[from..to], y[from..to], x[to..];
    ThreeParts(x, from, to);
    ThreeParts(y, from, to);
    assert y[..from] == head;
    assert y[to..] == tail;
    RunAppend(s, head, u + tail);
    RunAppend(s, head, v + tail);
    BurstNeverMeets(BitRun(s, head), u, v, tail);
  }

  lemma {:induction false} SameRegister(s: bv32, a: seq<bv8>, b: seq<bv8>, lo: nat)
    requires OneBurst(a, b, lo) && BitRun(s, Bits(a)) == BitRun(s, Bits(b))
    ensures a == b
  {
    RunsDiffer(s, Bits(a), Bits(b), Min(lo, 8 * |a|), Min(lo + 32, 8 * |a|));
    BitsInjective(a, b);
  }

  lemma {:induction false} BurstDetectedFrom(s: bv32, a: seq<bv8>, b: seq<bv8>, lo: nat)
    requires OneBurst(a, b, lo) && CrcFrom(s, a) == CrcFrom(s, b)
    ensures a == b
  {
    FinalXor(BitRun(s, Bits(a)), BitRun(s, Bits(b)), s);
    SameRegister(s, a, b, lo);
  }

  /** CRC-32 detects every burst of up to 32 bits, wherever it starts and whether or not it keeps to byte boundaries. */
  lemma {:induction false} BurstDetected(a: seq<bv8>, b: seq<bv8>, lo: nat)
    requires OneBurst(a, b, lo) && a != b
    ensures Crc(a) != Crc(b)
  {
    if Crc(a) == Crc(b) {
      BurstDetectedFrom(0xFFFF_FFFF, a, b, lo);
    }
  }

  lemma {:induction false} FinalXor(x: bv32, y: bv32, s: bv32)
    requires x ^ s == y ^ s
    ensures x == y
  {
  }

  lemma {:induction false} ByteBitsInjective(a: bv8, b: bv8)
    requires ByteBits(a) == ByteBits(b)
    ensures a == b
  {
    ByteWord(a);
    ByteWord(b);
    SameByte(a, b);
  }

  lemma {:induction false} SameByte(a: bv8, b: bv8)
    requires a as bv32 == b as bv32
    ensures a == b
  {
  }

  lemma {:induction false} BitsInjective(a: seq<bv8>, b: seq<bv8>)
    requires |a| == |b| && Bits(a) == Bits(b)
    ensures a == b
    decreases |a|
  {
    if a == [] {
    } else {
      assert Bits(a)[..8] == ByteBits(a[0]) && Bits(b)[..8] == ByteBits(b[0]);
      assert Bits(a)[8..] == Bits(a[1..]) && Bits(b)[8..] == Bits(b[1..]);
      ByteBitsInjective(a[0], b[0]);
      BitsInjective(a[1..], b[1..]);
      assert a == [a[0]] + a[1..];
      assert b == [b[0]] + b[1..];
    }
  }

  // ----- the code -----

  function TableRun(s: bv32, data: seq<bv8>): bv32
    decreases |data|
  {
    if data == [] then s else TableRun(TableStep(s, data[0]), data[1..])
  }

  lemma {:induction false} TableRunAppend(s: bv32, data: seq<bv8>, b: bv8)
    ensures TableRun(s, data + [b]) == TableStep(TableRun(s, data), b)
    decreases |data|
  {
    if data == [] {
    } else {
      assert (data + [b])[1..] == data[1..] + [b];
      TableRunAppend(TableStep(s, data[0]), data[1..], b);
    }
  }

  /** A byte at a time through the table is a bit at a time by the definition. */
  lemma {:induction false} TableRunIsBitRun(s: bv32, data: seq<bv8>)
    ensures TableRun(s, data) == BitRun(s, Bits(data))
    decreases |data|
  {
    if data == [] {
    } else {
      TableStepIsEightBits(s, data[0]);
      RunAppend(s, ByteBits(data[0]), Bits(data[1..]));
      TableRunIsBitRun(TableStep(s, data[0]), data[1..]);
    }
  }

  lemma {:induction false} ShiftsNext(x: bv32, n: nat)
    ensures Shifts(x, n + 1) == Shift(Shifts(x, n))
  {
    NextIterate(Shift, x, n);
  }

  lemma {:induction false} NextIterate<T>(f: T -> T, x: T, n: nat)
    ensures Iterate(f, x, n + 1) == f(Iterate(f, x, n))
    decreases n
  {
    if n == 0 {
    } else {
      NextIterate(f, f(x), n - 1);
    }
  }

  /** What slot `k` of the table holds. */
  function TableEntry(k: nat): bv32 { if k < 256 then Shifts(k as bv32, 8) else 0 }

  /** The first `n` slots hold what `f` says. */
  ghost predicate Filled<T>(t: seq<T>, n: nat, f: nat -> T) { n <= |t| && forall k | 0 <= k < n :: t[k] == f(k) }

  lemma {:induction false} FillNext<T>(t: seq<T>, n: nat, f: nat -> T, x: T)
    requires Filled(t, n, f) && n < |t| && x == f(n)
    ensures Filled(t[n := x], n + 1, f)
  {
  }

  lemma {:induction false} FilledAt<T>(t: seq<T>, n: nat, f: nat -> T, k: nat)
    requires Filled(t, n, f) && k < n
    ensures t[k] == f(k)
  {
  }

  lemma {:induction false} ByteIndex(i: bv32)
    requires i < 256
    ensures TableEntry(i as int) == Shifts(i, 8)
  {
    assert (i as int) as bv32 == i;
  }

  /** The static table and its flag. */
  class Checksum {
    var table: array<bv32>
    var computed: bool

    ghost predicate Valid()
      reads this, table
    {
      table.Length == 256 && (computed ==> Filled(table[..], 256, TableEntry))
    }

    constructor ()
      ensures Valid() && fresh(table) && !computed
    {
      table := new bv32[256];
      computed := false;
    }

    /** One entry: eight conditional shifts. */
    method Entry(i: nat) returns (crc: bv32)
      requires i < 256
      ensures crc == TableEntry(i)
    {
      crc := i as bv32;
      for j := 0 to 8
        invariant crc == Shifts(i as bv32, j)
      {
        ShiftsNext(i as bv32, j);
        if crc & 1 == 1 {
          crc := (crc >> 1) ^ POLY;
        } else {
          crc := crc >> 1;
        }
      }
    }

    /** generate_crc32_table. */
    method Generate()
      requires Valid()
      modifies this`computed, table
      ensures Valid() && computed
    {
      for i := 0 to 256
        invariant Filled(table[..], i, TableEntry)
      {
        var crc := Entry(i);
        FillNext(table[..], i, TableEntry, crc);
        table[i] := crc;
      }
      computed := true;
    }

    /** calculate_crc32: the CRC-32 of RFC 1952. */
    method Calculate(data: seq<bv8>) returns (crc: bv32)
      requires Valid()
      modifies this`computed, table
      ensures Valid() && computed && crc == Crc(data)
    {
      if !computed {
        Generate();
      }
      crc := 0xFFFF_FFFF;
      for i := 0 to |data|
        invariant Valid() && computed
        invariant crc == TableRun(0xFFFF_FFFF, data[..i])
      {
        assert data[..i + 1] == data[..i] + [data[i]];
        TableRunAppend(0xFFFF_FFFF, data[..i], data[i]);
        crc := Step(crc, data[i]);
      }
      assert data[..|data|] == data;
      TableRunIsBitRun(0xFFFF_FFFF, data);
      crc := crc ^ 0xFFFF_FFFF;
    }

    method Step(crc: bv32, b: bv8) returns (next: bv32)
      requires Valid() && computed
      ensures next == TableStep(crc, b)
    {
      var i := (crc ^ (b as bv32)) & 0xFF;
      var entry := Look(i);
      next := (crc >> 8) ^ entry;
    }

    method Look(i: bv32) returns (entry: bv32)
      requires Valid() && computed && i < 256
      ensures entry == Shifts(i, 8)
    {
      FilledAt(table[..], 256, TableEntry, i as int);
      ByteIndex(i);
      entry := table[i as int];
    }
  }

  // ----- the boot record -----

  const MAGIC: seq<bv8> := [0x00, 0x00, 0x00, 0x0C, 0x18, 0x0B, 0x13, 0x0A]
  const VERSION: seq<bv8> := [0x00, 0x00, 0x01, 0x00, 0x00, 0x00, 0x00, 0x00]

  /** A record: magic, version, settings and, last, its checksum. */
  datatype Record = Record(magic: seq<bv8>, version: seq<bv8>, settings: seq<bv8>, crc: bv32) {
    /** The bytes that are summed, with the checksum's own four bytes cleared. */
    function Summed(): seq<bv8> { magic + version + settings + [0, 0, 0, 0] }

    /** get_ambrc uses the record and not its backup. */
    predicate Accepted() { magic == MAGIC && Crc(Summed()) == crc && version == VERSION }
  }

  /** Of two records with one checksum whose bodies differ in a single burst of at most 32 bits, at most one is
      accepted. */
  lemma {:induction false} CorruptionIsRejected(good: Record, bad: Record, lo: nat)
    requires good.Accepted() && good.crc == bad.crc && OneBurst(good.Summed(), bad.Summed(), lo)
    requires good.Summed() != bad.Summed()
    ensures !bad.Accepted()
  {
    BurstDetected(good.Summed(), bad.Summed(), lo);
  }
}
