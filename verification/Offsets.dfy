/** Label offsets: a 64-bit signed difference of addresses goes to set_btype_imm and set_jtype_imm as a uint32_t
    (emitter.c:78, parser.c:506-508, 534-536). */
module Offsets {
  import opened Encoder
  import Probe

  /** The conversion of a signed number to uint32_t: two's complement, low 32 bits. */
  function ToU32(z: int): bv32
    decreases if z < 0 then -z else z
  {
    if z < 0 then Complement(Low(-z - 1)) else Low(z)
  }

  function Complement(x: bv32): bv32 {
    !x
  }

  function Low(n: nat): bv32 {
    if n == 0 then 0 else Append(Low(n / 2), n % 2 == 1)
  }

  function Append(x: bv32, bit: bool): bv32 {
    if bit then (x << 1) | 1 else x << 1
  }

  function Ones(k: nat): bv32 {
    if k == 0 then 0 else Append(Ones(k - 1), true)
  }

  predicate Within(x: bv32, ones: bv32) {
    x & !ones == 0
  }

  lemma OneWithin(x: bv32, ones: bv32)
    requires Within(x, ones)
    ensures Within(Append(x, true), Append(ones, true))
  {}

  lemma ShiftWithin(x: bv32, ones: bv32)
    requires Within(x, ones)
    ensures Within(Append(x, false), Append(ones, true))
  {}

  lemma AppendWithin(x: bv32, ones: bv32, bit: bool)
    requires Within(x, ones)
    ensures Within(Append(x, bit), Append(ones, true))
  {
    hide Within, Append;
    if bit { OneWithin(x, ones); } else { ShiftWithin(x, ones); }
  }

  lemma ZeroWithin(ones: bv32)
    ensures Within(0, ones)
  {}

  lemma {:induction false} LowIsSmall(n: nat, k: nat)
    requires n < Probe.Pow2(k)
    ensures Within(Low(n), Ones(k))
  {
    hide Append, Within;
    if n == 0 {
      ZeroWithin(Ones(k));
    } else {
      LowIsSmall(n / 2, k - 1);
      AppendWithin(Low(n / 2), Ones(k - 1), n % 2 == 1);
    }
  }

  lemma LastBit(x: bv32, bit: bool)
    ensures Append(x, bit) & 1 == if bit then 1 else 0
  {}

  lemma LowBit(n: nat)
    ensures Low(n) & 1 == if n % 2 == 1 then 1 else 0
  {
    hide Append;
    if n != 0 {
      LastBit(Low(n / 2), n % 2 == 1);
    }
  }

  function Next(x: bv32): bv32 {
    x + 1
  }

  lemma Carry(x: bv32)
    ensures Next(Append(x, true)) == Append(Next(x), false)
    ensures Next(Append(x, false)) == Append(x, true)
    ensures Append(0, true) == 1
  {}

  lemma LowDoubled(m: nat)
    ensures Low(2 * m) == Append(Low(m), false)
    ensures Low(2 * m + 1) == Append(Low(m), true)
  {
    if m == 0 {
      assert Low(0) == 0 && Append(0, false) == 0;
    } else {
      assert 2 * m / 2 == m && 2 * m % 2 == 0;
    }
    assert (2 * m + 1) / 2 == m && (2 * m + 1) % 2 == 1;
  }

  lemma {:induction false} LowSuccessor(n: nat)
    ensures Low(n + 1) == Next(Low(n))
  {
    hide Append, Low, Next;
    var m := n / 2;
    Carry(Low(m));
    LowDoubled(m);
    if n % 2 == 1 {
      assert n == 2 * m + 1;
      LowSuccessor(m);
      LowDoubled(m + 1);
    } else {
      assert n == 2 * m;
    }
  }

  lemma ComplementOfNext(x: bv32)
    ensures Next(Complement(Next(x))) == Complement(x) && Next(Complement(0)) == 0
  {}

  /** ToU32 is the one map from the integers that takes 0 to 0 and one more to one more: arithmetic modulo 2^32. */
  lemma ToU32Successor(z: int)
    ensures ToU32(0) == 0
    ensures ToU32(z + 1) == Next(ToU32(z))
  {
    hide Next, Complement;
    if z >= 0 {
      LowSuccessor(z);
    } else if z < -1 {
      LowSuccessor(-z - 2);
      ComplementOfNext(Low(-z - 2));
    } else {
      ComplementOfNext(0);
    }
  }

  lemma Masks()
    ensures Ones(12) == 0xfff && Ones(20) == 0xfffff && Probe.Pow2(12) == 0x1000 && Probe.Pow2(20) == 0x100000
  {}

  lemma WideMasks()
    ensures Ones(30) == 0x3fffffff && Ones(31) == 0x7fffffff
    ensures Probe.Pow2(30) == 0x40000000 && Probe.Pow2(31) == 0x80000000
  {
    Masks();
    assert Ones(22) == 0x3fffff && Ones(24) == 0xffffff && Ones(26) == 0x3ffffff && Ones(28) == 0xfffffff;
    assert Probe.Pow2(22) == 0x400000 && Probe.Pow2(24) == 0x1000000 && Probe.Pow2(26) == 0x4000000;
    assert Probe.Pow2(28) == 0x10000000;
  }

  lemma StripWithin(x: bv32, ones: bv32, bit: bool)
    requires Within(x, 0x3fffffff) && Within(Append(x, bit), Append(ones, true))
    ensures Within(x, ones)
  {}

  lemma StripNothing(x: bv32, bit: bool)
    requires Within(x, 0x3fffffff) && Within(Append(x, bit), 0)
    ensures Within(x, 0) && !bit
  {}

  /** A number of less than 32 bits is as small as its low bits look. */
  lemma {:induction false} SmallIsLow(n: nat, k: nat)
    requires n < Probe.Pow2(31) && Within(Low(n), Ones(k))
    ensures n < Probe.Pow2(k)
  {
    hide Append, Within;
    if n != 0 {
      WideMasks();
      LowIsSmall(n / 2, 30);
      if k == 0 {
        StripNothing(Low(n / 2), n % 2 == 1);
        SmallIsLow(n / 2, 0);
      } else {
        StripWithin(Low(n / 2), Ones(k - 1), n % 2 == 1);
        SmallIsLow(n / 2, k - 1);
      }
    }
  }

  /** A mask of low bits as a bound. */
  predicate Under(x: bv32, half: bv32) {
    x < half
  }

  lemma BranchMask(x: bv32)
    ensures Within(x, 0xfff) <==> Under(x, 0x1000)
  {}

  lemma JumpMask(x: bv32)
    ensures Within(x, 0xfffff) <==> Under(x, 0x100000)
  {}

  lemma BranchSign(x: bv32)
    requires Within(x, 0x7fffffff)
    ensures SignedBelow(x, 0x1000) <==> Under(x, 0x1000)
    ensures SignedBelow(Complement(x), 0x1000) <==> Under(x, 0x1000)
  {}

  lemma JumpSign(x: bv32)
    requires Within(x, 0x7fffffff)
    ensures SignedBelow(x, 0x100000) <==> Under(x, 0x100000)
    ensures SignedBelow(Complement(x), 0x100000) <==> Under(x, 0x100000)
  {}

  lemma BelowExactly(n: nat)
    requires n < Probe.Pow2(31)
    ensures Under(Low(n), 0x1000) <==> n < 0x1000
    ensures Under(Low(n), 0x100000) <==> n < 0x100000
  {
    hide Within, Low, Under;
    Masks();
    BranchMask(Low(n));
    JumpMask(Low(n));
    if n < Probe.Pow2(12) { LowIsSmall(n, 12); } else if Within(Low(n), Ones(12)) { SmallIsLow(n, 12); }
    if n < Probe.Pow2(20) { LowIsSmall(n, 20); } else if Within(Low(n), Ones(20)) { SmallIsLow(n, 20); }
  }

  lemma TopIsClear(n: nat)
    requires n < 0x80000000
    ensures Within(Low(n), 0x7fffffff) && n < Probe.Pow2(31)
  {
    hide Within, Low;
    WideMasks();
    LowIsSmall(n, 31);
  }

  lemma SignsAgree(z: int, n: nat)
    requires n == (if z < 0 then -z - 1 else z) && n < 0x80000000
    ensures SignedBelow(ToU32(z), 0x1000) <==> Under(Low(n), 0x1000)
    ensures SignedBelow(ToU32(z), 0x100000) <==> Under(Low(n), 0x100000)
  {
    hide SignedBelow, Within, Under, Low, Complement;
    TopIsClear(n);
    BranchSign(Low(n));
    JumpSign(Low(n));
  }

  /** An offset of 32 bits fits a branch, or a jump, exactly when it is in the reach of the format. */
  lemma OffsetFits(z: int)
    requires -0x80000000 <= z < 0x80000000
    ensures SignedBelow(ToU32(z), 0x1000) <==> -0x1000 <= z < 0x1000
    ensures SignedBelow(ToU32(z), 0x100000) <==> -0x100000 <= z < 0x100000
  {
    hide SignedBelow, ToU32, Under, Low;
    var n := if z < 0 then -z - 1 else z;
    TopIsClear(n);
    SignsAgree(z, n);
    BelowExactly(n);
  }

  lemma FlipLastBit(x: bv32)
    ensures !x & 1 == 0 <==> x & 1 == 1
    ensures x & 1 == 0 || x & 1 == 1
  {}

  lemma OffsetIsEven(z: int)
    ensures IsEven(ToU32(z)) <==> z % 2 == 0
  {
    var n := if z < 0 then -z - 1 else z;
    LowBit(n);
    FlipLastBit(Low(n));
  }

  function Sum(x: bv32, y: bv32): bv32 {
    x + y
  }

  lemma SumOfNext(x: bv32, y: bv32)
    ensures Sum(x, Next(y)) == Next(Sum(x, y)) && Sum(x, 0) == x
  {}

  lemma NextIsInjective(x: bv32, y: bv32)
    requires Next(x) == Next(y)
    ensures x == y
  {
    assert Next(x) - 1 == x && Next(y) - 1 == y;
  }

  /** Sums are taken modulo 2^32. */
  lemma {:induction false} ToU32Adds(a: int, b: int)
    ensures ToU32(a + b) == Sum(ToU32(a), ToU32(b))
    decreases if b < 0 then -b else b
  {
    hide Next, ToU32, Sum;
    if b > 0 {
      ToU32Adds(a, b - 1);
      ToU32Successor(a + b - 1);
      ToU32Successor(b - 1);
      SumOfNext(ToU32(a), ToU32(b - 1));
    } else if b < 0 {
      ToU32Adds(a, b + 1);
      ToU32Successor(a + b);
      ToU32Successor(b);
      SumOfNext(ToU32(a), ToU32(b));
      NextIsInjective(ToU32(a + b), Sum(ToU32(a), ToU32(b)));
    } else {
      ToU32Successor(0);
      SumOfNext(ToU32(a), 0);
    }
  }

  /** Only 0 looks like 0 among the offsets of 32 bits. */
  lemma ToU32OfZero(z: int)
    requires -0x80000000 <= z < 0x80000000
    ensures ToU32(z) == 0 <==> z == 0
  {
    hide Within, Low;
    var n := if z < 0 then -z - 1 else z;
    WideMasks();
    LowIsSmall(n, 31);
    if z < 0 {
      NotAllOnes(Low(n));
    } else if Low(n) == 0 {
      ZeroWithin(Ones(0));
      SmallIsLow(n, 0);
      assert Probe.Pow2(0) == 1;
    } else {
      LowOfZero();
    }
  }

  lemma NotAllOnes(x: bv32)
    requires Within(x, 0x7fffffff)
    ensures !x != 0
  {}

  lemma LowOfZero()
    ensures Low(0) == 0
  {}
}
