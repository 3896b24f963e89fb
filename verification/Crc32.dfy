/**
 The log's checksum: the table-driven CRC-32 of src/wal.c against the bit-serial
 division of IEEE 802.3 (clause 3.2.9), and the errors it is certain to detect.
 */
module Crc32 {
  import opened Bytes
  import opened Bits

  const POLYNOMIAL: u32 := 0xedb8_8320
  const ONES: u32 := 0xffff_ffff

  lemma Pow2Of32()
    ensures Pow2(32) == 0x1_0000_0000
    ensures Pow2(31) == 0x8000_0000
  {
    assert Pow2(4) == 0x10;
    assert Pow2(8) == 0x100;
    assert Pow2(12) == 0x1000;
    assert Pow2(16) == 0x1_0000;
    assert Pow2(20) == 0x10_0000;
    assert Pow2(24) == 0x100_0000;
    assert Pow2(28) == 0x1000_0000;
  }

  // ------------------------------------------------------------ the reference

  /** One clock of the bit-serial divider: the bit that falls off the register,
      combined with the next message bit, decides whether the polynomial is subtracted. */
  function Divide(c: nat, bits: seq<bool>): nat
    decreases |bits|
  {
    if bits == [] then c
    else Divide(Xor(c / 2, if (c % 2 == 1) != bits[0] then POLYNOMIAL else 0), bits[1..])
  }

  /** The low k bits of b, least significant first. */
  function BitsOf(b: nat, k: nat): seq<bool>
    decreases k
  {
    if k == 0 then [] else [b % 2 == 1] + BitsOf(b / 2, k - 1)
  }

  function MessageBits(data: seq<byte>): seq<bool>
  {
    if data == [] then [] else BitsOf(data[0], 8) + MessageBits(data[1..])
  }

  /** CRC-32: divide the message, starting from all ones, and complement the remainder. */
  function Crc(data: seq<byte>): u32
  {
    UpdateIsDivision(ONES, data);
    UpdateBound(ONES, data);
    ONES - Divide(ONES, MessageBits(data))
  }

  // ------------------------------------------------------------ eight bits at a time

  /** One iteration of the table generator's inner loop. */
  function Step(c: nat): nat
  {
    Xor(c / 2, if c % 2 == 1 then POLYNOMIAL else 0)
  }

  function Steps(c: nat, k: nat): nat
    decreases k
  {
    if k == 0 then c else Steps(Step(c), k - 1)
  }

  function ByteStep(c: nat, b: byte): nat
  {
    Steps(Xor(c, b), 8)
  }

  function Update(c: nat, data: seq<byte>): nat
    decreases |data|
  {
    if data == [] then c else Update(ByteStep(c, data[0]), data[1..])
  }

  lemma StepIsLinear(a: nat, b: nat)
    ensures Step(Xor(a, b)) == Xor(Step(a), Step(b))
  {
    var p := if a % 2 == 1 then POLYNOMIAL else 0;
    var q := if b % 2 == 1 then POLYNOMIAL else 0;
    XorHalf(a, b);
    assert Xor(p, q) == if a % 2 == b % 2 then 0 else POLYNOMIAL by {
      XorSelf(POLYNOMIAL);
      XorZero(POLYNOMIAL);
      XorCommutes(0, POLYNOMIAL);
    }
    XorSwap(a / 2, p, b / 2, q);
  }

  lemma {:induction false} StepsAreLinear(a: nat, b: nat, k: nat)
    ensures Steps(Xor(a, b), k) == Xor(Steps(a, k), Steps(b, k))
    decreases k
  {
    if k > 0 {
      StepIsLinear(a, b);
      StepsAreLinear(Step(a), Step(b), k - 1);
    }
  }

  lemma {:induction false} StepsCompose(c: nat, j: nat, k: nat)
    ensures Steps(Steps(c, j), k) == Steps(c, j + k)
    decreases j
  {
    if j > 0 {
      StepsCompose(Step(c), j - 1, k);
    }
  }

  /** Steps that only shift out zeros are a plain shift. */
  lemma {:induction false} StepsOfShl(z: nat, k: nat)
    ensures Steps(Shl(z, k), k) == z
    decreases k
  {
    if k > 0 {
      XorZero(Shl(z, k - 1));
      StepsOfShl(z, k - 1);
    }
  }

  lemma StepBound(c: nat)
    requires c <= ONES
    ensures Step(c) <= ONES
  {
    Pow2Of32();
    XorBound(c / 2, if c % 2 == 1 then POLYNOMIAL else 0, 32);
  }

  lemma {:induction false} StepsBound(c: nat, k: nat)
    requires c <= ONES
    ensures Steps(c, k) <= ONES
    decreases k
  {
    if k > 0 {
      StepBound(c);
      StepsBound(Step(c), k - 1);
    }
  }

  lemma {:induction false} UpdateBound(c: nat, data: seq<byte>)
    requires c <= ONES
    ensures Update(c, data) <= ONES
    decreases |data|
  {
    if data != [] {
      Pow2Of32();
      XorBound(c, data[0], 32);
      StepsBound(Xor(c, data[0]), 8);
      UpdateBound(ByteStep(c, data[0]), data[1..]);
    }
  }

  // ------------------------------------------------------------ bytes agree with bits

  /** Dividing k bits one by one is xoring them in and shifting k times. */
  lemma {:induction false} DivideIsSteps(c: nat, n: nat, k: nat)
    requires n < Pow2(k)
    ensures Divide(c, BitsOf(n, k)) == Steps(Xor(c, n), k)
    decreases k
  {
    if k == 0 {
      XorZero(c);
    } else {
      var r, low := n / 2, n % 2;
      var c1 := Step(Xor(c, low));
      StepSplitsBit(c, n);
      assert BitsOf(n, k)[1..] == BitsOf(r, k - 1);
      assert Divide(c, BitsOf(n, k)) == Divide(c1, BitsOf(r, k - 1)) by {
        XorHalf(c, low);
        XorZero(c / 2);
      }
      DivideIsSteps(c1, r, k - 1);
    }
  }

  lemma StepEven(r: nat)
    ensures Step(2 * r) == r
  {
    XorZero(r);
  }

  lemma LowBitSplits(n: nat)
    ensures Xor(n % 2, 2 * (n / 2)) == n
  {
    XorCommutes(n % 2, 2 * (n / 2));
    XorDisjoint(n / 2, n % 2, 1);
  }

  lemma StepSplitsBit(c: nat, n: nat)
    ensures Step(Xor(c, n)) == Xor(Step(Xor(c, n % 2)), n / 2)
  {
    var r, low := n / 2, n % 2;
    var even := 2 * r;
    calc {
      Step(Xor(c, n));
      { LowBitSplits(n); }
      Step(Xor(c, Xor(low, even)));
      { XorAssociates(c, low, even); }
      Step(Xor(Xor(c, low), even));
      { StepIsLinear(Xor(c, low), even); }
      Xor(Step(Xor(c, low)), Step(even));
      { StepEven(r); }
      Xor(Step(Xor(c, low)), r);
    }
  }

  lemma {:induction false} DivideConcat(c: nat, s: seq<bool>, t: seq<bool>)
    ensures Divide(c, s + t) == Divide(Divide(c, s), t)
    decreases |s|
  {
    if s == [] {
      assert s + t == t;
    } else {
      assert (s + t)[1..] == s[1..] + t;
      DivideConcat(Xor(c / 2, if (c % 2 == 1) != s[0] then POLYNOMIAL else 0), s[1..], t);
    }
  }

  lemma {:induction false} UpdateIsDivision(c: nat, data: seq<byte>)
    ensures Update(c, data) == Divide(c, MessageBits(data))
    decreases |data|
  {
    if data != [] {
      Shl8(0);
      DivideIsSteps(c, data[0], 8);
      DivideConcat(c, BitsOf(data[0], 8), MessageBits(data[1..]));
      UpdateIsDivision(ByteStep(c, data[0]), data[1..]);
    }
  }

  // ------------------------------------------------------------ the table

  lemma XorWithByte(c: nat, b: byte)
    ensures Xor(c, b) / 256 == c / 256
    ensures Xor(c, b) % 256 == Xor(c % 256, b)
  {
    XorBytewise(c / 256, c % 256, 0, b);
    XorZero(c / 256);
  }

  lemma StepsOfHighAndLow(h: nat, l: nat, k: nat)
    requires l < Pow2(k)
    ensures Steps(Shl(h, k) + l, k) == Xor(h, Steps(l, k))
  {
    hide Steps, Xor, Shl;
    XorDisjoint(h, l, k);
    StepsAreLinear(Shl(h, k), l, k);
    StepsOfShl(h, k);
  }

  /** Only the low byte of the register needs division; the rest just shifts. */
  lemma TableStep(c: nat, b: byte)
    ensures Xor(c / 256, Steps(Xor(c, b) % 256, 8)) == ByteStep(c, b)
  {
    hide Steps, Xor, Shl, Pow2;
    XorWithByte(c, b);
    Shl8(c / 256);
    StepsOfHighAndLow(c / 256, Xor(c, b) % 256, 8);
  }

  lemma ByteStepBound(c: nat, b: byte)
    requires c <= ONES
    ensures ByteStep(c, b) <= ONES
  {
    Pow2Of32();
    XorBound(c, b, 32);
    StepsBound(Xor(c, b), 8);
  }

  /** One entry of the 256-entry table. */
  method TableEntry(value: byte) returns (crc: u32)
    ensures crc == Steps(value, 8)
  {
    crc := value;
    for bit := 0 to 8
      invariant Steps(crc, 8 - bit) == Steps(value, 8)
    {
      StepBound(crc);
      crc := Step(crc);
    }
  }

  ghost predicate IsTable(table: seq<u32>)
  {
    |table| == 256 && forall v :: 0 <= v < 256 ==> table[v] == Steps(v, 8)
  }

  method InitTable() returns (table: array<u32>)
    ensures fresh(table)
    ensures IsTable(table[..])
  {
    table := new u32[256];
    for value := 0 to 256
      invariant forall v :: 0 <= v < value ==> table[v] == Steps(v, 8)
    {
      table[value] := TableEntry(value);
    }
  }

  method Lookup(table: array<u32>, crc: u32, b: byte) returns (next: u32)
    requires IsTable(table[..])
    ensures next == ByteStep(crc, b)
  {
    TableStep(crc, b);
    ByteStepBound(crc, b);
    next := Xor(crc / 256, table[Xor(crc, b) % 256]);
  }

  /** The table-driven loop computes exactly the bit-serial CRC-32. */
  method Compute(data: seq<byte>) returns (crc: u32)
    ensures crc == Crc(data)
  {
    var table := InitTable();
    crc := ONES;
    for i := 0 to |data|
      invariant IsTable(table[..])
      invariant Update(crc, data[i..]) == Update(ONES, data)
    {
      UpdateHead(crc, data, i);
      crc := Lookup(table, crc, data[i]);
    }
    UpdateIsDivision(ONES, data);
    crc := ONES - crc;
  }

  lemma UpdateHead(c: nat, data: seq<byte>, i: nat)
    requires i < |data| && c <= ONES
    ensures Update(c, data[i..]) == Update(ByteStep(c, data[i]), data[i + 1..])
    ensures ByteStep(c, data[i]) <= ONES
  {
    assert data[i..][0] == data[i] && data[i..][1..] == data[i + 1..];
    ByteStepBound(c, data[i]);
  }

  // ------------------------------------------------------------ what it detects

  lemma StepIsInjective(a: nat, b: nat)
    requires a <= ONES && b <= ONES
    requires Step(a) == Step(b)
    ensures a == b
  {
    Pow2Of32();
    XorZero(a / 2);
    XorZero(b / 2);
    XorTop(a / 2, POLYNOMIAL, 31);
    XorTop(b / 2, POLYNOMIAL, 31);
    assert a % 2 == b % 2;
    XorCancels(a / 2, b / 2, if a % 2 == 1 then POLYNOMIAL else 0);
  }

  lemma {:induction false} StepsAreInjective(a: nat, b: nat, k: nat)
    requires a <= ONES && b <= ONES
    requires Steps(a, k) == Steps(b, k)
    ensures a == b
    decreases k
  {
    if k > 0 {
      StepBound(a);
      StepBound(b);
      StepsAreInjective(Step(a), Step(b), k - 1);
      StepIsInjective(a, b);
    }
  }

  /** Two registers that differ still differ after any common bytes. */
  lemma {:induction false} UpdateIsInjective(c: nat, d: nat, data: seq<byte>)
    requires c <= ONES && d <= ONES
    requires Update(c, data) == Update(d, data)
    ensures c == d
    decreases |data|
  {
    if data != [] {
      var b := data[0];
      Pow2Of32();
      XorBound(c, b, 32);
      XorBound(d, b, 32);
      StepsBound(Xor(c, b), 8);
      StepsBound(Xor(d, b), 8);
      UpdateIsInjective(ByteStep(c, b), ByteStep(d, b), data[1..]);
      StepsAreInjective(Xor(c, b), Xor(d, b), 8);
      XorCancels(c, d, b);
    }
  }

  lemma {:induction false} UpdateConcat(c: nat, s: seq<byte>, t: seq<byte>)
    ensures Update(c, s + t) == Update(Update(c, s), t)
    decreases |s|
  {
    if s == [] {
      assert s + t == t;
    } else {
      assert (s + t)[1..] == s[1..] + t;
      UpdateConcat(ByteStep(c, s[0]), s[1..], t);
    }
  }

  /** A message as one binary number, first byte lowest. */
  function Number(data: seq<byte>): nat
  {
    if data == [] then 0 else data[0] + 256 * Number(data[1..])
  }

  /** Feeding a message is xoring its number into the register and shifting. */
  lemma {:induction false} UpdateIsSteps(y: nat, k: nat, data: seq<byte>)
    ensures Update(Steps(y, k), data) == Steps(Xor(y, Shl(Number(data), k)), k + 8 * |data|)
    decreases |data|
  {
    hide Steps, Xor, Shl, ByteStep;
    if data == [] {
      ShlZero(k);
      XorZero(y);
    } else {
      var b, rest := data[0], data[1..];
      var m := Number(rest);
      var y1 := Xor(y, Shl(b, k));
      ByteStepOfSteps(y, k, b);
      UpdateIsSteps(y1, k + 8, rest);
      NumberSplits(y, k, b, m);
    }
  }

  lemma ByteStepOfSteps(y: nat, k: nat, b: byte)
    ensures ByteStep(Steps(y, k), b) == Steps(Xor(y, Shl(b, k)), k + 8)
  {
    var y1 := Xor(y, Shl(b, k));
    StepsOfShl(b, k);
    StepsAreLinear(y, Shl(b, k), k);
    StepsCompose(y1, k, 8);
  }

  lemma NumberSplits(y: nat, k: nat, b: byte, m: nat)
    ensures Xor(Xor(y, Shl(b, k)), Shl(m, k + 8)) == Xor(y, Shl(b + 256 * m, k))
  {
    var hi := Shl(m, 8);
    assert Xor(b, hi) == b + 256 * m by {
      Shl8(m);
      XorCommutes(b, hi);
      XorDisjoint(m, b, 8);
    }
    ShlShl(m, 8, k);
    XorShl(b, hi, k);
    XorAssociates(y, Shl(b, k), Shl(m, k + 8));
  }

  lemma {:induction false} ShlZero(k: nat)
    ensures Shl(0, k) == 0
  {
    if k > 0 {
      ShlZero(k - 1);
    }
  }

  lemma {:induction false} ShlShl(a: nat, j: nat, k: nat)
    ensures Shl(Shl(a, j), k) == Shl(a, j + k)
    decreases k
  {
    if k > 0 {
      ShlShl(a, j, k - 1);
    }
  }

  lemma {:induction false} NumberInjective(s: seq<byte>, t: seq<byte>)
    requires |s| == |t| && Number(s) == Number(t)
    ensures s == t
  {
    if s != [] {
      assert s[0] == t[0];
      NumberInjective(s[1..], t[1..]);
      assert s == [s[0]] + s[1..] && t == [t[0]] + t[1..];
    }
  }

  lemma NumberBound4(s: seq<byte>)
    requires |s| == 4
    ensures Number(s) <= ONES
  {
    var r := s[1..];
    var q := r[1..];
    var p := q[1..];
    assert p[1..] == [];
    assert Number(p) <= 0xff;
    assert Number(q) <= 0xffff;
    assert Number(r) <= 0xff_ffff;
  }

  /** Every change confined to four consecutive bytes changes the CRC. */
  lemma DetectsBurst(pre: seq<byte>, s: seq<byte>, t: seq<byte>, post: seq<byte>)
    requires |s| == |t| == 4 && s != t
    ensures Crc(pre + s + post) != Crc(pre + t + post)
  {
    var c := Update(ONES, pre);
    UpdateBound(ONES, pre);
    UpdateBound(c, s);
    UpdateBound(c, t);
    UpdateConcat(ONES, pre + s, post);
    UpdateConcat(ONES, pre, s);
    UpdateConcat(ONES, pre + t, post);
    UpdateConcat(ONES, pre, t);
    UpdateIsDivision(ONES, pre + s + post);
    UpdateIsDivision(ONES, pre + t + post);
    if Crc(pre + s + post) == Crc(pre + t + post) {
      UpdateIsInjective(Update(c, s), Update(c, t), post);
      BurstInjective(c, s, t);
      assert false;
    }
  }

  lemma {:induction false} ZeroStaysZero(k: nat)
    ensures Steps(0, k) == 0
    decreases k
  {
    if k > 0 {
      XorZero(0);
      ZeroStaysZero(k - 1);
    }
  }

  /** Two check values: the register starts from all ones, so that no bytes leave nothing, and it is
      complemented, so that four bytes of ones, which clear it, give all ones. */
  lemma CheckValues()
    ensures Crc([]) == 0 && Crc([0xff, 0xff, 0xff, 0xff]) == 0xffff_ffff
  {
    hide Steps, Xor, Shl, Number, Divide, MessageBits, Update;
    var ones := [0xff, 0xff, 0xff, 0xff];
    NoUpdate(ONES);
    UpdateIsDivision(ONES, []);
    UpdateIsDivision(ONES, ones);
    NumberOfOnes();
    UpdateIsSteps(ONES, 0, ones);
    NoSteps(ONES, Number(ones));
    XorSelf(ONES);
    ZeroStaysZero(32);
  }

  lemma NoUpdate(c: nat)
    ensures Update(c, []) == c
  {
  }

  lemma NumberStep(b: byte, rest: seq<byte>)
    ensures Number([b] + rest) == b + 256 * Number(rest) && Number([]) == 0
  {
    assert ([b] + rest)[1..] == rest;
  }

  lemma NumberOfOnes()
    ensures Number([0xff, 0xff, 0xff, 0xff]) == 0xffff_ffff
  {
    hide Number;
    NumberStep(0xff, []);
    NumberStep(0xff, [0xff]);
    NumberStep(0xff, [0xff, 0xff]);
    NumberStep(0xff, [0xff, 0xff, 0xff]);
    assert [0xff] + [] == [0xff] && [0xff] + [0xff] == [0xff, 0xff];
    assert [0xff] + [0xff, 0xff] == [0xff, 0xff, 0xff] && [0xff] + [0xff, 0xff, 0xff] == [0xff, 0xff, 0xff, 0xff];
  }

  lemma NoSteps(c: nat, n: nat)
    ensures Steps(c, 0) == c && Shl(n, 0) == n
  {
  }

  lemma BurstInjective(c: nat, s: seq<byte>, t: seq<byte>)
    requires c <= ONES
    requires |s| == |t| == 4
    requires Update(c, s) == Update(c, t)
    ensures s == t
  {
    hide Steps, Xor, Shl, Update, Number;
    NoSteps(c, Number(s));
    NoSteps(c, Number(t));
    UpdateIsSteps(c, 0, s);
    UpdateIsSteps(c, 0, t);
    NumberBound4(s);
    NumberBound4(t);
    Pow2Of32();
    XorBound(c, Number(s), 32);
    XorBound(c, Number(t), 32);
    StepsAreInjective(Xor(c, Number(s)), Xor(c, Number(t)), 32);
    assert Number(s) == Number(t) by {
      XorCommutes(c, Number(s));
      XorCommutes(c, Number(t));
      XorCancels(Number(s), Number(t), c);
    }
    NumberInjective(s, t);
  }
}
