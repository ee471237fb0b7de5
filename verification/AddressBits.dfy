/**
  Machine words as numbers: the shifts and masks of Sv39 are the divisions and remainders that the
  page tables are described with.
*/
module AddressBits {
  import Division
  import Sv39
  import PageTree
  import PageWalk

  /** The number a word stands for, bit by bit. */
  function Value(x: bv64): nat
    decreases x
  {
    if x == 0 then 0 else Bit0(x) + 2 * Value(Half(x))
  }

  function Bit0(x: bv64): (b: nat)
    ensures b < 2
  {
    if x & 1 == 1 then 1 else 0
  }

  function Half(x: bv64): bv64 {
    x >> 1
  }

  lemma Unfold(x: bv64)
    ensures Value(x) == Bit0(x) + 2 * Value(Half(x))
    ensures Value(Half(x)) == Value(x) / 2 && Bit0(x) == Value(x) % 2
  {
  }

  lemma ValueZero(x: bv64)
    ensures Value(x) == 0 <==> x == 0
  {
    if x != 0 {
      NonZero(x);
    }
  }

  lemma {:induction false} NonZero(x: bv64)
    requires x != 0
    ensures Value(x) > 0
    decreases x
  {
    if x & 1 == 0 {
      NonZero(Half(x));
    }
  }

  // ---------- Shifts ----------

  function Eighth(x: bv64): bv64 {
    x >> 3
  }

  lemma EighthIsHalves(x: bv64)
    ensures Eighth(x) == Half(Half(Half(x)))
  {
  }

  lemma ValueOfEighth(x: bv64)
    ensures Value(Eighth(x)) == Value(x) / 8
  {
    hide *;
    EighthIsHalves(x);
    Unfold(x);
    Unfold(Half(x));
    Unfold(Half(Half(x)));
    ThreeHalves(Value(x));
  }

  lemma ThreeHalves(v: nat)
    ensures v / 2 / 2 / 2 == v / 8
  {
  }

  function Level(x: bv64): bv64 {
    x >> 9
  }

  lemma LevelIsEighths(x: bv64)
    ensures Level(x) == Eighth(Eighth(Eighth(x)))
  {
  }

  lemma ValueOfLevel(x: bv64)
    ensures Value(Level(x)) == Value(x) / 512
  {
    hide *;
    LevelIsEighths(x);
    ValueOfEighth(x);
    ValueOfEighth(Eighth(x));
    ValueOfEighth(Eighth(Eighth(x)));
    ThreeEighths(Value(x));
  }

  lemma ThreeEighths(v: nat)
    ensures v / 8 / 8 / 8 == v / 512
  {
  }

  function Number(x: bv64): bv64 {
    x >> 12
  }

  lemma NumberIsLevel(x: bv64)
    ensures Number(x) == Level(Eighth(x))
  {
  }

  /** The page number of an address. */
  lemma ValueOfNumber(x: bv64)
    ensures Value(Number(x)) == Value(x) / PageTree.PGSIZE
  {
    hide *;
    NumberIsLevel(x);
    ValueOfEighth(x);
    ValueOfLevel(Eighth(x));
    EighthThenLevel(Value(x));
  }

  lemma EighthThenLevel(v: nat)
    ensures v / 8 / 512 == v / PageTree.PGSIZE
  {
  }

  // ---------- Masks ----------

  function Masked(x: bv64, m: bv64): bv64 {
    x & m
  }

  function Longer(m: bv64): bv64 {
    (m << 1) | 1
  }

  lemma MaskHalves(x: bv64, m: bv64)
    requires m < 0x8000_0000_0000_0000
    ensures Half(Masked(x, Longer(m))) == Masked(Half(x), m)
    ensures Bit0(Masked(x, Longer(m))) == Bit0(x)
  {
  }

  /** A mask of the low bits takes the remainder by d; one bit more takes it by 2 * d. */
  lemma MaskStep(x: bv64, m: bv64, d: nat)
    requires m < 0x8000_0000_0000_0000 && d > 0 && Value(Masked(Half(x), m)) == Value(Half(x)) % d
    ensures Value(Masked(x, Longer(m))) == Value(x) % (2 * d)
  {
    hide *;
    MaskHalves(x, m);
    Unfold(Masked(x, Longer(m)));
    Unfold(x);
    RemainderStep(Value(x), d);
  }

  lemma RemainderStep(v: nat, p: nat)
    requires p > 0
    ensures v % (2 * p) == v % 2 + 2 * ((v / 2) % p)
  {
    var q, r := v / 2 / p, (v / 2) % p;
    assert v / 2 == q * p + r;
    assert v == q * (2 * p) + (v % 2 + 2 * r);
    Division.Unique(v, 2 * p, q, v % 2 + 2 * r);
  }

  function Ones(k: nat): bv64 {
    if k == 0 then 0 else Longer(Ones(k - 1))
  }

  function Pow2(k: nat): (p: nat)
    ensures p > 0
  {
    if k == 0 then 1 else 2 * Pow2(k - 1)
  }

  lemma LowMasks()
    ensures forall k: nat :: k < 12 ==> Ones(k) < 0x8000_0000_0000_0000
    ensures Ones(9) == 0x1FF && Pow2(9) == 512
    ensures Ones(12) == 0xFFF && Pow2(12) == PageTree.PGSIZE
  {
    assert Ones(1) == 1 && Ones(2) == 3 && Ones(3) == 7 && Ones(4) == 15 && Ones(5) == 31;
    assert Ones(6) == 63 && Ones(7) == 127 && Ones(8) == 255 && Ones(10) == 1023 && Ones(11) == 2047;
    assert Pow2(3) == 8 && Pow2(6) == 64;
  }

  lemma NoBits(x: bv64)
    ensures Masked(x, 0) == 0 && Value(0) == 0
  {
  }

  lemma {:induction false} LowBits(x: bv64, k: nat)
    requires k <= 12
    ensures Value(Masked(x, Ones(k))) == Value(x) % Pow2(k)
    decreases k
  {
    if k == 0 {
      NoBits(x);
    } else {
      LowBits(Half(x), k - 1);
      LowMasks();
      hide Masked, Longer, Half, Value;
      MaskStep(x, Ones(k - 1), Pow2(k - 1));
    }
  }

  // ---------- The indices of an address ----------

  lemma IndexShapes(va: bv64)
    ensures Sv39.Px(0, va) == Masked(Number(va), 0x1FF)
    ensures Sv39.Px(1, va) == Masked(Level(Number(va)), 0x1FF)
    ensures Sv39.Px(2, va) == Masked(Level(Level(Number(va))), 0x1FF)
  {
  }

  lemma LowNine(x: bv64)
    ensures Value(Masked(x, 0x1FF)) == Value(x) % 512
  {
    hide Masked, Value;
    LowMasks();
    LowBits(x, 9);
  }

  lemma IndexArithmetic(a: nat)
    ensures a / PageTree.PGSIZE % 512 == PageWalk.Px(0, a)
    ensures a / PageTree.PGSIZE / 512 % 512 == PageWalk.Px(1, a)
    ensures a / PageTree.PGSIZE / 512 / 512 % 512 == PageWalk.Px(2, a)
  {
  }

  /** The index that a shift and a mask give at each level is the one that division and remainder give. */
  lemma IndexIsDivision(va: bv64)
    ensures Value(Sv39.Px(0, va)) == PageWalk.Px(0, Value(va))
    ensures Value(Sv39.Px(1, va)) == PageWalk.Px(1, Value(va))
    ensures Value(Sv39.Px(2, va)) == PageWalk.Px(2, Value(va))
  {
    hide *;
    IndexShapes(va);
    ValueOfNumber(va);
    ValueOfLevel(Number(va));
    ValueOfLevel(Level(Number(va)));
    LowNine(Number(va));
    LowNine(Level(Number(va)));
    LowNine(Level(Level(Number(va))));
    IndexArithmetic(Value(va));
  }

  lemma RoundedShape(a: bv64)
    ensures Number(Sv39.PgRoundDown(a)) == Number(a) && Masked(Sv39.PgRoundDown(a), 0xFFF) == 0
  {
  }

  /** Clearing the offset bits gives the page boundary below. */
  lemma RoundingIsDivision(a: bv64)
    ensures Value(Sv39.PgRoundDown(a)) == Value(a) / PageTree.PGSIZE * PageTree.PGSIZE
  {
    hide Value, Masked, Number, Half, Bit0, Ones, Pow2;
    var r := Sv39.PgRoundDown(a);
    RoundedShape(a);
    ValueOfNumber(a);
    ValueOfNumber(r);
    LowMasks();
    LowBits(r, 12);
    NoBits(r);
    assert Value(r) == Value(r) / PageTree.PGSIZE * PageTree.PGSIZE + Value(r) % PageTree.PGSIZE;
  }

  /** What is left of an address above the 38 bits that may be used. */
  function Above(x: bv64): bv64 {
    x >> 38
  }

  lemma AboveShape(x: bv64)
    ensures Above(x) == Half(Half(Eighth(Eighth(Level(Level(Number(x)))))))
    ensures Above(x) == 0 <==> x < Sv39.MAXVA
  {
  }

  lemma AboveArithmetic(v: nat)
    ensures v / PageTree.PGSIZE / 512 / 512 / 8 / 8 / 2 / 2 == 0 <==> v < PageTree.MAXVA
  {
    assert v / PageTree.PGSIZE / 512 / 512 == v / 0x4000_0000;
    assert v / 0x4000_0000 / 8 / 8 / 2 / 2 == v / 0x4000_0000 / 256;
  }

  /** The limit on addresses is the same for words and for numbers. */
  lemma LimitIsValue(va: bv64)
    ensures va < Sv39.MAXVA <==> Value(va) < PageTree.MAXVA
  {
    hide *;
    AboveShape(va);
    ValueOfNumber(va);
    var n := Number(va);
    ValueOfLevel(n);
    ValueOfLevel(Level(n));
    var t := Level(Level(n));
    ValueOfEighth(t);
    ValueOfEighth(Eighth(t));
    Unfold(Eighth(Eighth(t)));
    Unfold(Half(Eighth(Eighth(t))));
    ValueZero(Above(va));
    AboveArithmetic(Value(va));
  }
}
