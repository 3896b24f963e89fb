/**
 What the checksum of src/wal.c misses when damage straddles its own field. The question is whether
 some damage to the last k bytes of a message leaves the low k bytes of its CRC alone, a question
 about the eight-step shift that machine words settle by computation.
 */
module CrcEdge {
  import opened Bytes
  import opened Bits
  import opened Crc32

  // ------------------------------------------------------------ the shift on machine words

  function WordStep(x: bv32): bv32
  {
    (x >> 1) ^ (if x & 1 == 1 then 0xedb8_8320 else 0)
  }

  function Word8Steps(x: bv32): bv32
  {
    WordStep(WordStep(WordStep(WordStep(WordStep(WordStep(WordStep(WordStep(x))))))))
  }

  lemma NoBlindByte(x: bv32)
    requires x & 0xffff_ff00 == 0 && Word8Steps(x) & 0xff == 0
    ensures x == 0
  {
  }

  lemma OneBlindPair(x: bv32)
    requires x & 0xffff_0000 == 0 && Word8Steps(Word8Steps(x)) & 0xffff == 0
    ensures x == 0 || x == 0xd861
  {
  }

  function WordUnstep(x: bv32): bv32
  {
    if x & 0x8000_0000 == 0 then x << 1 else ((x ^ 0xedb8_8320) << 1) | 1
  }

  function Word8Unsteps(x: bv32): bv32
  {
    WordUnstep(WordUnstep(WordUnstep(WordUnstep(WordUnstep(WordUnstep(WordUnstep(WordUnstep(x))))))))
  }

  lemma UnstepStep(x: bv32)
    ensures WordUnstep(WordStep(x)) == x
  {
  }

  lemma Unstep8(x: bv32)
    ensures Word8Unsteps(Word8Steps(x)) == x
  {
    hide WordStep, WordUnstep;
    var a := WordStep(x);
    var b := WordStep(a);
    var c := WordStep(b);
    var d := WordStep(c);
    var e := WordStep(d);
    var f := WordStep(e);
    var g := WordStep(f);
    UnstepStep(x);
    UnstepStep(a);
    UnstepStep(b);
    UnstepStep(c);
    UnstepStep(d);
    UnstepStep(e);
    UnstepStep(f);
    UnstepStep(g);
  }

  /** Shifted back, a difference in the top byte alone comes from no three bytes. */
  lemma TopByteIsFar(y: bv32)
    requires y & 0xff_ffff == 0 && Word8Unsteps(Word8Unsteps(Word8Unsteps(y))) & 0xff00_0000 == 0
    ensures y == 0
  {
  }

  lemma UnstepsOfZero()
    ensures Word8Unsteps(0) == 0
  {
  }

  lemma NoBlindTriple(x: bv32)
    requires x & 0xff00_0000 == 0 && Word8Steps(Word8Steps(Word8Steps(x))) & 0xff_ffff == 0
    ensures x == 0
  {
    hide Word8Steps, Word8Unsteps;
    var a := Word8Steps(x);
    var b := Word8Steps(a);
    Unstep8(x);
    Unstep8(a);
    Unstep8(b);
    TopByteIsFar(Word8Steps(b));
    UnstepsOfZero();
  }

  lemma BlindPair()
    ensures Word8Steps(Word8Steps(0xd861)) == 0xf4ee_0000
  {
  }

  // ------------------------------------------------------------ numbers as machine words

  // The word operations have names so that the inductions below need not look inside them.

  function Push(x: bv32, low: bool): bv32
  {
    (x << 1) ^ (if low then 1 else 0)
  }

  function Both(x: bv32, y: bv32): bv32
  {
    x & y
  }

  function Differ(x: bv32, y: bv32): bv32
  {
    x ^ y
  }

  /** The low k bits of a number as a machine word. */
  function Word(n: nat, k: nat): bv32
  {
    if k == 0 then 0 else Push(Word(n / 2, k - 1), n % 2 == 1)
  }

  /** All bits from k on. */
  function High(k: nat): bv32
  {
    if k == 0 then 0xffff_ffff else Push(High(k - 1), false)
  }

  lemma HighValues()
    ensures High(8) == 0xffff_ff00 && High(16) == 0xffff_0000 && High(24) == 0xff00_0000
    ensures High(31) == 0x8000_0000
  {
    assert High(4) == 0xffff_fff0;
    assert High(8) == 0xffff_ff00;
    assert High(12) == 0xffff_f000;
    assert High(16) == 0xffff_0000;
    assert High(20) == 0xfff0_0000;
    assert High(24) == 0xff00_0000;
    assert High(28) == 0xf000_0000;
  }

  lemma PushDiffers(x: bv32, y: bv32, p: bool, q: bool)
    ensures Differ(Push(x, p), Push(y, q)) == Push(Differ(x, y), p != q)
  {
  }

  lemma NothingDiffers()
    ensures Differ(0, 0) == 0 && Push(0, false) == 0
    ensures forall x :: Differ(x, 0) == x
  {
  }

  lemma {:induction false} WordXor(a: nat, b: nat, k: nat)
    ensures Word(Xor(a, b), k) == Differ(Word(a, k), Word(b, k))
    decreases k
  {
    hide Push, Differ, Xor;
    if k == 0 {
      NothingDiffers();
    } else {
      XorHalf(a, b);
      WordXor(a / 2, b / 2, k - 1);
      PushDiffers(Word(a / 2, k - 1), Word(b / 2, k - 1), a % 2 == 1, b % 2 == 1);
    }
  }

  lemma PushFits(x: bv32, h: bv32, p: bool)
    requires Both(x, h) == 0
    ensures Both(Push(x, p), Push(h, false)) == 0
  {
  }

  lemma {:induction false} WordFits(n: nat, k: nat)
    ensures Both(Word(n, k), High(k)) == 0
    decreases k
  {
    if k > 0 {
      hide Push, Both;
      WordFits(n / 2, k - 1);
      PushFits(Word(n / 2, k - 1), High(k - 1), n % 2 == 1);
    }
  }

  lemma PushClosed(h: bv32)
    requires Both(Push(h, false), h) == Push(h, false)
    ensures Both(Push(Push(h, false), false), Push(h, false)) == Push(Push(h, false), false)
  {
  }

  lemma {:induction false} HighClosed(k: nat)
    ensures Both(Push(High(k), false), High(k)) == Push(High(k), false)
  {
    if k > 0 {
      hide Push, Both;
      HighClosed(k - 1);
      PushClosed(High(k - 1));
    }
  }

  lemma PushInside(a: bv32, b: bv32)
    requires Both(a, b) == b && Both(Push(a, false), a) == Push(a, false)
    ensures Both(a, Push(b, false)) == Push(b, false)
  {
  }

  lemma BothSelf(x: bv32)
    ensures Both(x, x) == x
  {
  }

  lemma {:induction false} HighInside(k: nat, j: nat)
    requires k <= j
    ensures Both(High(k), High(j)) == High(j)
    decreases j
  {
    hide Push, Both;
    if k == j {
      BothSelf(High(k));
    } else {
      HighInside(k, j - 1);
      HighClosed(k);
      PushInside(High(k), High(j - 1));
    }
  }

  lemma TopIsClear(x: bv32, h: bv32)
    requires Both(x, h) == 0 && Both(h, 0x8000_0000) == 0x8000_0000
    ensures x & 0x8000_0000 == 0
  {
  }

  lemma WordTop(n: nat, k: nat)
    requires k <= 31
    ensures Word(n, k) & 0x8000_0000 == 0
  {
    hide Word, High, Both;
    WordFits(n, k);
    HighInside(k, 31);
    HighValues();
    TopIsClear(Word(n, k), High(k));
  }

  lemma {:induction false} WordWidens(n: nat, k: nat)
    requires n < Pow2(k)
    ensures Word(n, k + 1) == Word(n, k)
    decreases k
  {
    hide Push;
    if k == 0 {
      assert Word(0, 1) == Push(Word(0, 0), false);
      NothingDiffers();
    } else {
      WordWidens(n / 2, k - 1);
    }
  }

  lemma {:induction false} WordWide(n: nat, k: nat, j: nat)
    requires n < Pow2(k) && k <= j
    ensures Word(n, j) == Word(n, k)
    decreases j
  {
    hide Word;
    if k < j {
      Pow2Grows(k, j - 1);
      WordWide(n, k, j - 1);
      WordWidens(n, j - 1);
    }
  }

  lemma {:induction false} Pow2Grows(k: nat, j: nat)
    requires k <= j
    ensures Pow2(k) <= Pow2(j)
    decreases j
  {
    if k < j {
      Pow2Grows(k, j - 1);
    }
  }

  lemma PushBack(x: bv32, p: bool)
    requires x & 0x8000_0000 == 0
    ensures Push(x, p) >> 1 == x && (Push(x, p) & 1 == 1 <==> p)
  {
  }

  lemma WordUnfolds(n: nat)
    ensures Word(n, 32) == Push(Word(n / 2, 31), n % 2 == 1)
  {
  }

  /** Halving a number is shifting its word, and its parity is the word's low bit. */
  lemma WordHalf(n: nat)
    requires n <= ONES
    ensures Word(n, 32) >> 1 == Word(n / 2, 32)
    ensures Word(n, 32) & 1 == 1 <==> n % 2 == 1
  {
    hide Word, Push;
    WordUnfolds(n);
    Pow2Of32();
    WordWidens(n / 2, 31);
    WordTop(n / 2, 31);
    PushBack(Word(n / 2, 31), n % 2 == 1);
  }

  lemma WordPolynomial()
    ensures Word(POLYNOMIAL, 32) == 0xedb8_8320
  {
    assert Word(0xe, 4) == 0xe;
    assert Word(0xed, 8) == 0xed;
    assert Word(0xedb, 12) == 0xedb;
    assert Word(0xedb8, 16) == 0xedb8;
    assert Word(0xe_db88, 20) == 0xe_db88;
    assert Word(0xed_b883, 24) == 0xed_b883;
    assert Word(0xedb_8832, 28) == 0xedb_8832;
  }

  lemma {:induction false} WordZero(k: nat)
    ensures Word(0, k) == 0
  {
    hide Push;
    if k > 0 {
      WordZero(k - 1);
      NothingDiffers();
    }
  }

  lemma WordStepIs(x: bv32, half: bv32)
    requires x >> 1 == half
    ensures x & 1 == 1 ==> WordStep(x) == Differ(half, 0xedb8_8320)
    ensures x & 1 != 1 ==> WordStep(x) == half
  {
  }

  lemma WordOfStep(c: nat)
    requires c <= ONES
    ensures Word(Step(c), 32) == WordStep(Word(c, 32)) && Step(c) <= ONES
  {
    hide Word, Xor, WordStep, Differ;
    StepBound(c);
    WordHalf(c);
    WordStepIs(Word(c, 32), Word(c / 2, 32));
    if c % 2 == 1 {
      WordPolynomial();
      WordXor(c / 2, POLYNOMIAL, 32);
    } else {
      XorZero(c / 2);
    }
  }

  lemma WordOf8Steps(c: nat)
    requires c <= ONES
    ensures Word(Steps(c, 8), 32) == Word8Steps(Word(c, 32)) && Steps(c, 8) <= ONES
  {
    hide Word, WordStep, Step;
    var c1 := Step(c);
    WordOfStep(c);
    var c2 := Step(c1);
    WordOfStep(c1);
    var c3 := Step(c2);
    WordOfStep(c2);
    var c4 := Step(c3);
    WordOfStep(c3);
    var c5 := Step(c4);
    WordOfStep(c4);
    var c6 := Step(c5);
    WordOfStep(c5);
    var c7 := Step(c6);
    WordOfStep(c6);
    WordOfStep(c7);
    assert Steps(c6, 2) == Step(c7);
    assert Steps(c4, 4) == Steps(c6, 2);
    assert Steps(c2, 6) == Steps(c4, 4);
  }

  lemma PushClear(x: bv32, h: bv32)
    requires x & !h == 0
    ensures Push(x, false) & !Push(h, false) == 0
  {
  }

  /** A multiple of 2^j has a word whose low j bits are clear. */
  lemma {:induction false} WordClear(h: nat, j: nat, k: nat)
    requires j <= k
    ensures Word(Shl(h, j), k) & !High(j) == 0
    decreases j
  {
    if j == 0 {
      OnesCover(Word(Shl(h, j), k));
    } else {
      hide Push;
      WordClear(h, j - 1, k - 1);
      PushClear(Word(Shl(h, j - 1), k - 1), High(j - 1));
      assert Shl(h, j) == 2 * Shl(h, j - 1);
    }
  }

  lemma OnesCover(x: bv32)
    ensures x & !(0xffff_ffff as bv32) == 0
  {
  }

  lemma PushInjective(x: bv32, y: bv32, p: bool, q: bool)
    requires x & 0x8000_0000 == 0 && y & 0x8000_0000 == 0 && Push(x, p) == Push(y, q)
    ensures x == y && p == q
  {
    PushBack(x, p);
    PushBack(y, q);
  }

  lemma {:induction false} WordInjective(a: nat, b: nat, k: nat)
    requires k <= 32 && a < Pow2(k) && b < Pow2(k) && Word(a, k) == Word(b, k)
    ensures a == b
    decreases k
  {
    if k > 0 {
      hide Push;
      WordTop(a / 2, k - 1);
      WordTop(b / 2, k - 1);
      PushInjective(Word(a / 2, k - 1), Word(b / 2, k - 1), a % 2 == 1, b % 2 == 1);
      WordInjective(a / 2, b / 2, k - 1);
    }
  }

  // ------------------------------------------------------------ what goes unseen

  const BLIND: nat := 0xd861

  lemma SmallWord(n: nat, k: nat)
    requires n < Pow2(k) && k <= 32
    ensures Both(Word(n, 32), High(k)) == 0
  {
    hide Word, High, Both;
    WordWide(n, k, 32);
    WordFits(n, k);
  }

  lemma WordIsZero(n: nat)
    requires n <= ONES && Word(n, 32) == 0
    ensures n == 0
  {
    hide Word;
    Pow2Of32();
    WordZero(32);
    WordInjective(n, 0, 32);
  }

  lemma WordIsBlind(n: nat)
    requires n <= ONES && Word(n, 32) == 0xd861
    ensures n == BLIND
  {
    hide Word;
    Pow2Of32();
    WordOfBlind();
    WordInjective(n, BLIND, 32);
  }

  lemma Steps16(n: nat)
    requires n <= ONES
    ensures Word(Steps(n, 16), 32) == Word8Steps(Word8Steps(Word(n, 32))) && Steps(n, 16) <= ONES
  {
    hide Word, Word8Steps, Steps;
    WordOf8Steps(n);
    WordOf8Steps(Steps(n, 8));
    StepsCompose(n, 8, 8);
  }

  lemma Steps24(n: nat)
    requires n <= ONES
    ensures Word(Steps(n, 24), 32) == Word8Steps(Word8Steps(Word8Steps(Word(n, 32)))) && Steps(n, 24) <= ONES
  {
    hide Word, Word8Steps, Steps;
    Steps16(n);
    WordOf8Steps(Steps(n, 16));
    StepsCompose(n, 16, 8);
  }

  lemma ByteSeen(n: nat, h: nat)
    requires n < Pow2(8) && Steps(n, 8) == Shl(h, 8)
    ensures n == 0
  {
    hide Word, Word8Steps, Steps, High, Shl;
    Shl8(0);
    SmallWord(n, 8);
    WordOf8Steps(n);
    WordClear(h, 8, 32);
    HighValues();
    NoBlindByte(Word(n, 32));
    WordIsZero(n);
  }

  lemma PairSeen(n: nat, h: nat)
    requires n < Pow2(16) && Steps(n, 16) == Shl(h, 16)
    ensures n == 0 || n == BLIND
  {
    hide Word, Word8Steps, Steps, High, Shl;
    Pow2Of32();
    Pow2Grows(16, 32);
    SmallWord(n, 16);
    Steps16(n);
    WordClear(h, 16, 32);
    HighValues();
    OneBlindPair(Word(n, 32));
    if Word(n, 32) == 0 {
      WordIsZero(n);
    } else {
      WordIsBlind(n);
    }
  }

  lemma TripleSeen(n: nat, h: nat)
    requires n < Pow2(24) && Steps(n, 24) == Shl(h, 24)
    ensures n == 0
  {
    hide Word, Word8Steps, Steps, High, Shl;
    Pow2Of32();
    Pow2Grows(24, 32);
    SmallWord(n, 24);
    Steps24(n);
    WordClear(h, 24, 32);
    HighValues();
    NoBlindTriple(Word(n, 32));
    WordIsZero(n);
  }

  lemma BlindSteps()
    ensures Steps(BLIND, 16) == 0xf4ee_0000
  {
    assert Word(0xf, 4) == 0xf;
    assert Word(0xf4, 8) == 0xf4;
    assert Word(0xf4e, 12) == 0xf4e;
    assert Word(0xf4ee, 16) == 0xf4ee;
    assert Word(0xf_4ee0, 20) == 0xf_4ee0;
    assert Word(0xf4_ee00, 24) == 0xf4_ee00;
    assert Word(0xf4e_e000, 28) == 0xf4e_e000;
    assert Word(0xf4ee_0000, 32) == 0xf4ee_0000;
    WordOfBlind();
    BlindPair();
    hide Word, Word8Steps, Steps;
    Pow2Of32();
    Steps16(BLIND);
    WordInjective(Steps(BLIND, 16), 0xf4ee_0000, 32);
  }

  lemma WordOfBlind()
    ensures Word(BLIND, 32) == 0xd861
  {
    assert Word(0xd, 4) == 0xd;
    assert Word(0xd8, 8) == 0xd8;
    assert Word(0xd86, 12) == 0xd86;
    assert Word(0xd861, 16) == 0xd861;
    assert BLIND < Pow2(16) by { assert Pow2(8) == 256; }
    hide Word;
    WordWide(BLIND, 16, 32);
  }

  // ------------------------------------------------------------ messages that end differently

  lemma {:induction false} NumberBound(s: seq<byte>)
    ensures Number(s) < Pow2(8 * |s|)
  {
    if s != [] {
      NumberBound(s[1..]);
      Pow2Adds8(8 * (|s| - 1));
    }
  }

  lemma Pow2Adds8(k: nat)
    ensures Pow2(k + 8) == 256 * Pow2(k)
  {
    assert Pow2(k + 2) == 4 * Pow2(k);
    assert Pow2(k + 4) == 4 * Pow2(k + 2);
    assert Pow2(k + 6) == 4 * Pow2(k + 4);
    assert Pow2(k + 8) == 4 * Pow2(k + 6);
  }

  /** How two messages that end differently differ in the register. */
  lemma UpdatesDiffer(c: nat, s: seq<byte>, t: seq<byte>)
    requires |s| == |t|
    ensures Xor(Update(c, s), Update(c, t)) == Steps(Xor(Number(s), Number(t)), 8 * |s|)
  {
    hide Xor, Steps, Update, Number;
    var m, n := Number(s), Number(t);
    NoSteps(c, m);
    NoSteps(c, n);
    UpdateIsSteps(c, 0, s);
    UpdateIsSteps(c, 0, t);
    StepsAreLinear(Xor(c, m), Xor(c, n), 8 * |s|);
    XorSwap(c, m, c, n);
    XorSelf(c);
    XorCommutes(0, Xor(m, n));
    XorZero(Xor(m, n));
  }

  lemma NoSteps(c: nat, m: nat)
    ensures Steps(c, 0) == c && Shl(m, 0) == m
  {
  }

  lemma {:induction false} ShlIsTimes(a: nat, k: nat)
    ensures Shl(a, k) == a * Pow2(k)
    decreases k
  {
    if k > 0 {
      ShlIsTimes(a, k - 1);
      var p := Pow2(k - 1);
      assert 2 * (a * p) == a * (2 * p);
    }
  }

  /** 2^8k, for the k that matter here. */
  function Bytes256(k: nat): (p: nat)
    ensures p > 0
  {
    if k == 1 then 0x100 else if k == 2 then 0x1_0000 else 0x100_0000
  }

  lemma PowersOf256(k: nat)
    requires 1 <= k <= 3
    ensures Pow2(8 * k) == Bytes256(k)
  {
    assert Pow2(4) == 16;
    assert Pow2(8) == 0x100;
    assert Pow2(12) == 0x1000;
    assert Pow2(16) == 0x1_0000;
    assert Pow2(20) == 0x10_0000;
    assert Pow2(24) == 0x100_0000;
    assert 8 * k == 8 || 8 * k == 16 || 8 * k == 24;
  }

  function Upper(u: nat, k: nat): nat
  {
    u / Bytes256(k)
  }

  function Lower(u: nat, k: nat): nat
  {
    u % Bytes256(k)
  }

  lemma Splits(u: nat, k: nat)
    requires 1 <= k <= 3
    ensures u == Shl(Upper(u, k), 8 * k) + Lower(u, k)
    ensures Lower(u, k) < Pow2(8 * k)
  {
    hide Shl, Pow2;
    PowersOf256(k);
    ShlIsTimes(Upper(u, k), 8 * k);
  }

  /** Registers that agree in their low k bytes differ by a multiple of 2^8k. */
  lemma SameTail(u: nat, v: nat, k: nat)
    requires 1 <= k <= 3 && Lower(u, k) == Lower(v, k)
    ensures Xor(u, v) == Shl(Xor(Upper(u, k), Upper(v, k)), 8 * k)
  {
    hide Xor, Shl, Pow2, Lower, Upper;
    Splits(u, k);
    Splits(v, k);
    var l := Lower(u, k);
    XorSplit(Upper(u, k), l, Upper(v, k), l, 8 * k);
    XorSelf(l);
  }

  lemma CrcFromUpdate(pre: seq<byte>, s: seq<byte>)
    ensures Update(ONES, pre) <= ONES && Update(Update(ONES, pre), s) <= ONES
    ensures Crc(pre + s) == ONES - Update(Update(ONES, pre), s)
  {
    UpdateBound(ONES, pre);
    UpdateBound(Update(ONES, pre), s);
    UpdateConcat(ONES, pre, s);
    UpdateIsDivision(ONES, pre + s);
  }

  lemma StoredBytes(a: u32)
    ensures PutU32(a)[3..] == [a % 0x100]
    ensures PutU32(a)[2..] == PutU16(a % 0x1_0000)
    ensures PutU32(a)[1..] == [a / 0x1_0000 % 0x100] + PutU16(a % 0x1_0000)
  {
  }

  lemma PairTail(a: u32, b: u32)
    ensures PutU16(a % 0x1_0000) == PutU16(b % 0x1_0000) <==> a % 0x1_0000 == b % 0x1_0000
  {
    U16RoundTrip(a % 0x1_0000);
    U16RoundTrip(b % 0x1_0000);
  }

  lemma TripleTail(a: u32)
    ensures a % 0x100_0000 == a / 0x1_0000 % 0x100 * 0x1_0000 + a % 0x1_0000
  {
  }

  /** The last k bytes of a stored checksum are its value modulo 2^8k. */
  lemma StoredTail(a: u32, b: u32, k: nat)
    requires 1 <= k <= 3
    ensures PutU32(a)[4 - k..] == PutU32(b)[4 - k..] <==> Lower(a, k) == Lower(b, k)
  {
    hide PutU32, PutU16;
    StoredBytes(a);
    StoredBytes(b);
    PairTail(a, b);
    if k == 1 {
      assert [a % 0x100][0] == a % 0x100 && [b % 0x100][0] == b % 0x100;
    } else if k == 3 {
      TripleTail(a);
      TripleTail(b);
      var s, t := PutU32(a)[1..], PutU32(b)[1..];
      assert s[0] == a / 0x1_0000 % 0x100 && t[0] == b / 0x1_0000 % 0x100;
      assert s[1..] == PutU16(a % 0x1_0000) && t[1..] == PutU16(b % 0x1_0000);
      assert s == [s[0]] + s[1..] && t == [t[0]] + t[1..];
    }
  }

  lemma Complement(u: nat, k: nat)
    requires 1 <= k <= 3 && u <= ONES
    ensures Lower(ONES - u, k) == Bytes256(k) - 1 - Lower(u, k)
  {
    if k == 1 {
      assert (ONES - u) % 0x100 == 0xff - u % 0x100;
    } else if k == 2 {
      assert (ONES - u) % 0x1_0000 == 0xffff - u % 0x1_0000;
    } else {
      assert (ONES - u) % 0x100_0000 == 0xff_ffff - u % 0x100_0000;
    }
  }

  lemma Complements(u: nat, v: nat, k: nat)
    requires 1 <= k <= 3 && u <= ONES && v <= ONES
    ensures Lower(ONES - u, k) == Lower(ONES - v, k) <==> Lower(u, k) == Lower(v, k)
  {
    hide Lower;
    Complement(u, k);
    Complement(v, k);
  }

  /** Two different endings whose checksums agree in as many last bytes: only two bytes that differ by one
      fixed pattern. */
  lemma EdgeBurst(pre: seq<byte>, s: seq<byte>, t: seq<byte>)
    requires |s| == |t| && 1 <= |s| <= 3 && s != t
    requires PutU32(Crc(pre + s))[4 - |s|..] == PutU32(Crc(pre + t))[4 - |s|..]
    ensures |s| == 2 && Xor(Number(s), Number(t)) == BLIND
  {
    hide Xor, Steps, Update, Number, Crc, PutU32, Pow2, Shl, Lower, Upper;
    var k := |s|;
    var n := Xor(Number(s), Number(t));
    var h := EdgeDifference(pre, s, t);
    NumberBound(s);
    NumberBound(t);
    XorBound(Number(s), Number(t), 8 * k);
    if n == 0 {
      XorIsZero(Number(s), Number(t));
      NumberInjective(s, t);
    }
    if k == 1 {
      ByteSeen(n, h);
    } else if k == 2 {
      PairSeen(n, h);
    } else {
      TripleSeen(n, h);
    }
  }

  lemma EdgeDifference(pre: seq<byte>, s: seq<byte>, t: seq<byte>) returns (h: nat)
    requires |s| == |t| && 1 <= |s| <= 3
    requires PutU32(Crc(pre + s))[4 - |s|..] == PutU32(Crc(pre + t))[4 - |s|..]
    ensures Steps(Xor(Number(s), Number(t)), 8 * |s|) == Shl(h, 8 * |s|)
  {
    hide Xor, Steps, Update, Number, Crc, PutU32, Pow2, Shl, Lower, Upper;
    var k, c := |s|, Update(ONES, pre);
    CrcFromUpdate(pre, s);
    CrcFromUpdate(pre, t);
    var u, v := Update(c, s), Update(c, t);
    StoredTail(Crc(pre + s), Crc(pre + t), k);
    Complements(u, v, k);
    SameTail(u, v, k);
    UpdatesDiffer(c, s, t);
    h := Xor(Upper(u, k), Upper(v, k));
  }

  lemma XorIsZero(a: nat, b: nat)
    requires Xor(a, b) == 0
    ensures a == b
  {
    XorSelf(b);
    XorCancels(a, b, b);
  }

  /** And that pattern does go unseen. */
  lemma BlindEdge(pre: seq<byte>, s: seq<byte>, t: seq<byte>)
    requires |s| == |t| == 2 && Xor(Number(s), Number(t)) == BLIND
    ensures s != t && PutU32(Crc(pre + s))[2..] == PutU32(Crc(pre + t))[2..]
  {
    hide Xor, Steps, Update, Number, Crc, PutU32, Pow2, Shl, Lower, Upper;
    XorSelf(Number(s));
    var c := Update(ONES, pre);
    CrcFromUpdate(pre, s);
    CrcFromUpdate(pre, t);
    var u, v := Update(c, s), Update(c, t);
    UpdatesDiffer(c, s, t);
    BlindSteps();
    LowPairAgrees(u, v);
    StoredTail(Crc(pre + s), Crc(pre + t), 2);
    Complements(u, v, 2);
  }

  lemma LowPairAgrees(u: nat, v: nat)
    requires Xor(u, v) == 0xf4ee_0000
    ensures Lower(u, 2) == Lower(v, 2)
  {
    hide Xor, Shl, Pow2;
    var p := 0x1_0000;
    Splits(u, 2);
    Splits(v, 2);
    XorSplit(u / p, u % p, v / p, v % p, 16);
    PowersOf256(2);
    ShlIsTimes(Xor(u / p, v / p), 16);
    XorIsZero(u % p, v % p);
  }

  /** The two bytes that go unseen in the place of these two. */
  function Twin(s: seq<byte>): (t: seq<byte>)
    requires |s| == 2
    ensures |t| == 2
  {
    XorByte(s[0], 0x61);
    XorByte(s[1], 0xd8);
    [Xor(s[0], 0x61), Xor(s[1], 0xd8)]
  }

  lemma XorByte(a: byte, b: byte)
    ensures Xor(a, b) < 0x100
  {
    Shl8(0);
    XorBound(a, b, 8);
  }

  lemma XorUndone(a: nat, b: nat, c: nat)
    ensures Xor(a, b) == c <==> b == Xor(a, c)
  {
    hide Xor;
    XorAssociates(a, a, b);
    XorAssociates(a, a, c);
    XorSelf(a);
    XorCommutes(0, b);
    XorCommutes(0, c);
    XorZero(b);
    XorZero(c);
  }

  lemma TwinIsBlind(s: seq<byte>, t: seq<byte>)
    requires |s| == |t| == 2
    ensures Xor(Number(s), Number(t)) == BLIND <==> t == Twin(s)
  {
    NumberOfTwo(s);
    NumberOfTwo(t);
    hide Xor, Number;
    XorBytewise(s[1], s[0], t[1], t[0]);
    XorByte(s[1], t[1]);
    XorUndone(s[0], t[0], 0x61);
    XorUndone(s[1], t[1], 0xd8);
  }

  lemma NumberOfTwo(s: seq<byte>)
    requires |s| == 2
    ensures var hi: int, lo: int := s[1], s[0];
            Number(s) == 256 * hi + lo
  {
    assert s[1..][1..] == [];
    assert Number(s[1..]) == s[1];
  }

  lemma TwinDiffers(s: seq<byte>)
    requires |s| == 2
    ensures Twin(s)[0] != s[0] && Twin(s)[1] != s[1]
  {
    hide Xor;
    XorUndone(s[0], s[0], 0x61);
    XorUndone(s[1], s[1], 0xd8);
    XorSelf(s[0]);
    XorSelf(s[1]);
  }
}
