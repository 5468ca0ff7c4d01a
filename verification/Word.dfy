/** 64-bit occupancy words and the scans for their lowest set bit. */
module Word {
  type Word = bv64

  const ONES: Word := 0xFFFF_FFFF_FFFF_FFFF

  // ---------- words alone ----------

  function Twice(w: Word): Word {
    w << 1
  }

  function Half(w: Word): Word {
    w >> 1
  }

  predicate Common(w: Word, x: Word) {
    w & x != 0
  }

  predicate Odd(w: Word) {
    w & 1 != 0
  }

  /** `w | x` */
  function Or(w: Word, x: Word): Word {
    w | x
  }

  /** `w & ~x` */
  function AndNot(w: Word, x: Word): Word {
    w & !x
  }

  /** `w & x` */
  function And(w: Word, x: Word): Word {
    w & x
  }

  /** `w & -w` */
  function LowBit(w: Word): Word {
    w & (0 - w)
  }

  /** A power of two from the binary digits of its exponent. */
  function Power(b5: bool, b4: bool, b3: bool, b2: bool, b1: bool, b0: bool): Word {
    var w0: Word := if b0 then 2 else 1;
    var w1 := if b1 then w0 << 2 else w0;
    var w2 := if b2 then w1 << 4 else w1;
    var w3 := if b3 then w2 << 8 else w2;
    var w4 := if b4 then w3 << 16 else w3;
    if b5 then w4 << 32 else w4
  }

  lemma PowerTests(b5: bool, b4: bool, b3: bool, b2: bool, b1: bool, b0: bool)
    ensures var p := Power(b5, b4, b3, b2, b1, b0);
      && p != 0
      && (p & 0x00000000FFFFFFFF != 0 <==> !b5) && (p & 0x0000FFFF0000FFFF != 0 <==> !b4)
      && (p & 0x00FF00FF00FF00FF != 0 <==> !b3) && (p & 0x0F0F0F0F0F0F0F0F != 0 <==> !b2)
      && (p & 0x3333333333333333 != 0 <==> !b1) && (p & 0x5555555555555555 != 0 <==> !b0)
  {
  }

  lemma PowerTwice(b5: bool, b4: bool, b3: bool, b2: bool, b1: bool, b0: bool)
    ensures Twice(Power(b5, b4, b3, b2, b1, b0)) ==
      if !b0 then Power(b5, b4, b3, b2, b1, true)
      else if !b1 then Power(b5, b4, b3, b2, true, false)
      else if !b2 then Power(b5, b4, b3, true, false, false)
      else if !b3 then Power(b5, b4, true, false, false, false)
      else if !b4 then Power(b5, true, false, false, false, false)
      else if !b5 then Power(true, false, false, false, false, false)
      else 0
  {
    if b5 {
      if b4 {
      } else {
      }
    } else if b4 {
    } else {
    }
  }

  lemma HalfCommon(w: Word, x: Word)
    ensures Common(Half(w), x) <==> Common(w, Twice(x))
  {
  }

  lemma OddCommon(w: Word)
    ensures Odd(w) <==> Common(w, 1)
    ensures !Odd(Twice(w)) && !Common(1, Twice(w))
  {
  }

  lemma TwiceCommon(x: Word, y: Word)
    requires !Common(x, y)
    ensures !Common(Twice(x), Twice(y))
  {
  }

  lemma OrCommon(w: Word, x: Word, y: Word)
    ensures Common(Or(w, x), y) <==> Common(w, y) || Common(x, y)
  {
    hide Or, Common;
    if Common(w, y) {
      OrKeeps(w, x, y);
    } else if Common(x, y) {
      OrKeeps(x, w, y);
      OrSwap(w, x);
    } else {
      OrNoMore(w, x, y);
    }
  }

  lemma OrKeeps(w: Word, x: Word, y: Word)
    requires Common(w, y)
    ensures Common(Or(w, x), y)
  {
  }

  lemma OrSwap(w: Word, x: Word)
    ensures Or(w, x) == Or(x, w)
  {
  }

  lemma OrNoMore(w: Word, x: Word, y: Word)
    requires !Common(w, y) && !Common(x, y)
    ensures !Common(Or(w, x), y)
  {
  }

  lemma AndNotCommon(w: Word, x: Word, y: Word)
    ensures !Common(x, y) ==> (Common(AndNot(w, x), y) <==> Common(w, y))
    ensures !Common(AndNot(w, x), x)
  {
  }

  lemma CommonSelf(x: Word)
    ensures Common(x, x) <==> x != 0
    ensures Common(ONES, x) <==> x != 0
    ensures !Common(0, x) && !Common(x, 0)
  {
  }

  lemma CommonSwap(x: Word, y: Word)
    ensures Common(x, y) <==> Common(y, x)
  {
  }

  lemma LowBitOdd(w: Word)
    ensures Odd(w) ==> LowBit(w) == 1
    ensures !Odd(w) ==> LowBit(w) == Twice(LowBit(Half(w)))
    ensures !Odd(w) && w != 0 ==> Half(w) != 0
  {
  }

  // ---------- words by bit positions ----------

  /** `w << s` */
  function Shl(w: Word, s: nat): Word {
    if s == 0 then w else Twice(Shl(w, s - 1))
  }

  /** `w >> s` */
  function Shr(w: Word, s: nat): Word {
    if s == 0 then w else Half(Shr(w, s - 1))
  }

  /** `1ULL << i` */
  function One(i: nat): Word {
    Shl(1, i)
  }

  /** Bit `i` is set. */
  predicate Has(w: Word, i: nat) {
    Common(w, One(i))
  }

  lemma OneNext(i: nat)
    ensures One(i + 1) == Twice(One(i)) && One(0) == 1
  {
    hide Twice;
  }

  function Digits(b5: bool, b4: bool, b3: bool, b2: bool, b1: bool, b0: bool): nat {
    (if b5 then 32 else 0) + (if b4 then 16 else 0) + (if b3 then 8 else 0)
    + (if b2 then 4 else 0) + (if b1 then 2 else 0) + if b0 then 1 else 0
  }

  lemma {:induction false} OneDigits(b5: bool, b4: bool, b3: bool, b2: bool, b1: bool, b0: bool)
    ensures One(Digits(b5, b4, b3, b2, b1, b0)) == Power(b5, b4, b3, b2, b1, b0)
    decreases Digits(b5, b4, b3, b2, b1, b0)
  {
    hide Twice, One, Power;
    PowerZero();
    OneNext(0);
    var d := Digits(b5, b4, b3, b2, b1, b0);
    if d > 0 {
      OneNext(d - 1);
      var c0 := !b0;
      var c1 := b1 != c0;
      var c2 := b2 != (c0 && c1);
      var c3 := b3 != (c0 && c1 && c2);
      var c4 := b4 != (c0 && c1 && c2 && c3);
      var c5 := b5 != (c0 && c1 && c2 && c3 && c4);
      PowerTwice(c5, c4, c3, c2, c1, c0);
      OneDigits(c5, c4, c3, c2, c1, c0);
    }
  }

  lemma PowerZero()
    ensures Power(false, false, false, false, false, false) == 1
    ensures Twice(Power(true, true, true, true, true, true)) == 0 && Twice(0) == 0
  {
  }

  /** A power of two shows the digits of its exponent to the masks. */
  lemma OnePower(i: nat) returns (b5: bool, b4: bool, b3: bool, b2: bool, b1: bool, b0: bool)
    requires i < 64
    ensures i == Digits(b5, b4, b3, b2, b1, b0)
    ensures var p := One(i);
      && p != 0
      && (p & 0x00000000FFFFFFFF != 0 <==> !b5) && (p & 0x0000FFFF0000FFFF != 0 <==> !b4)
      && (p & 0x00FF00FF00FF00FF != 0 <==> !b3) && (p & 0x0F0F0F0F0F0F0F0F != 0 <==> !b2)
      && (p & 0x3333333333333333 != 0 <==> !b1) && (p & 0x5555555555555555 != 0 <==> !b0)
  {
    hide One, Power;
    b5 := i >= 32;
    var r := if b5 then i - 32 else i;
    b4 := r >= 16;
    r := if b4 then r - 16 else r;
    b3 := r >= 8;
    r := if b3 then r - 8 else r;
    b2 := r >= 4;
    r := if b2 then r - 4 else r;
    b1 := r >= 2;
    r := if b1 then r - 2 else r;
    b0 := r >= 1;
    OneDigits(b5, b4, b3, b2, b1, b0);
    PowerTests(b5, b4, b3, b2, b1, b0);
  }

  lemma {:induction false} OneZero(i: nat)
    ensures One(i) == 0 <==> i >= 64
  {
    hide Twice, One, Power;
    PowerZero();
    if i < 64 {
      var b5, b4, b3, b2, b1, b0 := OnePower(i);
    } else if i == 64 {
      OneDigits(true, true, true, true, true, true);
      OneNext(63);
    } else {
      OneZero(i - 1);
      OneNext(i - 1);
    }
  }

  lemma HalfHas(w: Word, i: nat)
    ensures Has(Half(w), i) <==> Has(w, i + 1)
    ensures Has(w, 0) <==> Odd(w)
  {
    hide Twice, Half, One, Common, Odd;
    OneNext(i);
    OneNext(0);
    HalfCommon(w, One(i));
    OddCommon(w);
  }

  lemma {:induction false} OneApart(i: nat, j: nat)
    requires i < j
    ensures !Common(One(i), One(j)) && !Common(One(j), One(i))
  {
    hide Twice, One, Common, Odd;
    OneNext(j - 1);
    OneNext(0);
    if i == 0 {
      OddCommon(One(j - 1));
    } else {
      OneNext(i - 1);
      OneApart(i - 1, j - 1);
      TwiceCommon(One(i - 1), One(j - 1));
    }
    CommonSwap(One(i), One(j));
  }

  /** Setting a bit sets just this bit. */
  lemma SetHas(w: Word, i: nat, j: nat)
    requires i < 64
    ensures Has(Or(w, One(i)), j) <==> Has(w, j) || i == j
  {
    hide One, Common, Or;
    OneZero(i);
    OrCommon(w, One(i), One(j));
    CommonSelf(One(i));
    if i != j {
      OneApart(if i < j then i else j, if i < j then j else i);
    }
  }

  /** Clearing a bit clears just this bit. */
  lemma ClearHas(w: Word, i: nat, j: nat)
    requires i < 64
    ensures Has(AndNot(w, One(i)), j) <==> Has(w, j) && i != j
  {
    hide One, Common, AndNot;
    AndNotCommon(w, One(i), One(j));
    if i != j {
      OneApart(if i < j then i else j, if i < j then j else i);
    }
  }

  lemma HasSmall(w: Word, i: nat)
    requires Has(w, i)
    ensures i < 64 && w != 0
  {
    hide One, Common;
    OneZero(i);
    CommonSelf(One(i));
    CommonSelf(w);
  }

  // ---------- masks ----------

  lemma HalfAnd(w: Word, x: Word)
    ensures Half(And(w, x)) == And(Half(w), Half(x))
    ensures Odd(And(w, x)) <==> Odd(w) && Odd(x)
  {
  }

  lemma {:induction false} AndHas(w: Word, x: Word, j: nat)
    ensures Has(And(w, x), j) <==> Has(w, j) && Has(x, j)
    decreases j
  {
    hide Has, And, Half, Odd;
    HalfAnd(w, x);
    if j == 0 {
      HalfHas(w, 0);
      HalfHas(x, 0);
      HalfHas(And(w, x), 0);
    } else {
      HalfHas(w, j - 1);
      HalfHas(x, j - 1);
      HalfHas(And(w, x), j - 1);
      AndHas(Half(w), Half(x), j - 1);
    }
  }

  lemma TwiceCommonBack(x: Word, y: Word)
    requires Half(Twice(y)) == y && Common(x, y)
    ensures Common(Twice(x), Twice(y))
  {
  }

  lemma PowerHalf(b5: bool, b4: bool, b3: bool, b2: bool, b1: bool, b0: bool)
    requires !(b5 && b4 && b3 && b2 && b1 && b0)
    ensures Half(Twice(Power(b5, b4, b3, b2, b1, b0))) == Power(b5, b4, b3, b2, b1, b0)
  {
  }

  lemma TwiceHas(x: Word, j: nat)
    ensures Has(Twice(x), j) <==> 0 < j < 64 && Has(x, j - 1)
  {
    hide Twice, One, Common, Half, Power, Odd;
    OneNext(0);
    if j == 0 {
      OddCommon(x);
      CommonSwap(Twice(x), 1);
    } else if j < 64 {
      OneNext(j - 1);
      var b5, b4, b3, b2, b1, b0 := OnePower(j - 1);
      OneDigits(b5, b4, b3, b2, b1, b0);
      PowerHalf(b5, b4, b3, b2, b1, b0);
      if Has(x, j - 1) {
        TwiceCommonBack(x, One(j - 1));
      } else {
        TwiceCommon(x, One(j - 1));
      }
    } else {
      OneZero(j);
      CommonSelf(Twice(x));
    }
  }

  lemma OnesHas(j: nat)
    ensures Has(ONES, j) <==> j < 64
  {
    hide One, Common;
    OneZero(j);
    CommonSelf(One(j));
  }

  lemma {:induction false} ShlHas(s: nat, j: nat)
    ensures Has(Shl(ONES, s), j) <==> s <= j < 64
    decreases s
  {
    hide Twice, Has;
    if s == 0 {
      OnesHas(j);
    } else {
      TwiceHas(Shl(ONES, s - 1), j);
      if j > 0 {
        ShlHas(s - 1, j - 1);
      }
    }
  }

  lemma {:induction false} ShrHas(s: nat, j: nat)
    ensures Has(Shr(ONES, s), j) <==> s + j < 64
    decreases s
  {
    hide Half, Has;
    if s == 0 {
      OnesHas(j);
    } else {
      HalfHas(Shr(ONES, s - 1), j);
      ShrHas(s - 1, j + 1);
    }
  }

  // ---------- the lowest set bit ----------

  /** `r` is the position of the lowest set bit, or 64 if there is none. */
  ghost predicate IsLowest(w: Word, r: nat) {
    if w == 0 then r == 64 else r < 64 && Has(w, r) && forall j: nat :: j < r ==> !Has(w, j)
  }

  lemma LowestOnce(w: Word, r1: nat, r2: nat)
    requires IsLowest(w, r1) && IsLowest(w, r2)
    ensures r1 == r2
  {
    hide Has;
  }

  lemma HalfLess(w: Word)
    requires w != 0
    ensures Half(w) < w
  {
  }

  lemma LowestNext(w: Word, r: nat)
    requires w != 0 && !Odd(w) && Half(w) != 0 && IsLowest(Half(w), r)
    ensures IsLowest(w, r + 1)
  {
    hide Half, Odd, Has;
    HalfHas(w, r);
    HasSmall(w, r + 1);
    forall j: nat | j < r + 1
      ensures !Has(w, j)
    {
      if j > 0 {
        HalfHas(w, j - 1);
      }
    }
  }

  lemma HalfNonZero(w: Word)
    requires !Odd(w) && w != 0
    ensures Half(w) != 0
  {
  }

  lemma LowBitNext(w: Word, r: nat)
    requires !Odd(w) && LowBit(Half(w)) == One(r)
    ensures LowBit(w) == One(r + 1)
  {
    hide LowBit, Half, Twice, Odd, One;
    LowBitOdd(w);
    OneNext(r);
  }

  lemma LowestZero(w: Word)
    requires Odd(w)
    ensures w != 0 && IsLowest(w, 0) && LowBit(w) == One(0)
  {
    hide Has;
    HalfHas(w, 0);
    LowBitOdd(w);
    OneNext(0);
  }

  ghost predicate LowIs(w: Word, r: nat) {
    w != 0 && IsLowest(w, r) && LowBit(w) == One(r)
  }

  /** `val` is `w` shifted by `bit` places, which were zeros. */
  ghost predicate Shifted(w: Word, val: Word, bit: nat) {
    val != 0 && forall r: nat {:trigger LowIs(w, bit + r)} {:trigger LowIs(val, r)} :: LowIs(val, r) ==>
      LowIs(w, bit + r)
  }

  lemma ShiftedNext(w: Word, val: Word, bit: nat)
    requires Shifted(w, val, bit) && !Odd(val)
    ensures Half(val) != 0 && Half(val) < val && Shifted(w, Half(val), bit + 1)
  {
    hide LowIs, Odd, Half;
    HalfLess(val);
    HalfNonZero(val);
    forall r: nat | LowIs(Half(val), r)
      ensures LowIs(w, bit + 1 + r)
    {
      LowNext(val, r);
      assert LowIs(w, bit + (r + 1));
      assert bit + (r + 1) == bit + 1 + r;
    }
  }

  lemma LowNext(w: Word, r: nat)
    requires w != 0 && !Odd(w) && LowIs(Half(w), r)
    ensures LowIs(w, r + 1)
  {
    hide IsLowest, LowBit, One, Odd, Half;
    LowestNext(w, r);
    LowBitNext(w, r);
  }

  lemma ShiftedStart(w: Word)
    requires w != 0
    ensures Shifted(w, w, 0)
  {
    hide LowIs;
  }

  lemma ShiftedEnd(w: Word, val: Word, bit: nat)
    requires Shifted(w, val, bit) && Odd(val)
    ensures LowIs(w, bit)
  {
    hide IsLowest, LowBit, One, Odd;
    LowestZero(val);
    assert LowIs(val, 0);
    assert LowIs(w, bit + 0);
  }

  /** `w & -w` is the power of two of the lowest set bit. */
  lemma LowBitIs(w: Word) returns (r: nat)
    requires w != 0
    ensures LowIs(w, r)
  {
    hide Half, Odd, Shifted, LowIs;
    r := 0;
    var val := w;
    ShiftedStart(w);
    while !Odd(val)
      invariant Shifted(w, val, r)
      decreases val
    {
      ShiftedNext(w, val, r);
      val := Half(val);
      r := r + 1;
    }
    ShiftedEnd(w, val, r);
  }

  /** getFirstSetBit */
  method FirstSetBit(w: Word) returns (bit: nat)
    ensures IsLowest(w, bit)
  {
    hide Has, One, LowBit, Digits;
    var val := LowBit(w);
    bit := 64;
    LowBitZero(w);
    if w != 0 {
      ghost var r := LowBitIs(w);
      LowBitDigits(val, r);
    }
    if val != 0 {
      bit := bit - 1;
    }
    if val & 0x00000000FFFFFFFF != 0 {
      bit := bit - 32;
    }
    if val & 0x0000FFFF0000FFFF != 0 {
      bit := bit - 16;
    }
    if val & 0x00FF00FF00FF00FF != 0 {
      bit := bit - 8;
    }
    if val & 0x0F0F0F0F0F0F0F0F != 0 {
      bit := bit - 4;
    }
    if val & 0x3333333333333333 != 0 {
      bit := bit - 2;
    }
    if val & 0x5555555555555555 != 0 {
      bit := bit - 1;
    }
  }

  lemma LowBitZero(w: Word)
    ensures w == 0 ==> LowBit(w) == 0
  {
  }

  /** What the masks take off from 63 leaves the exponent. */
  lemma LowBitDigits(val: Word, r: nat)
    requires val == One(r) && r < 64
    ensures val != 0
    ensures r == 63 - (if val & 0x00000000FFFFFFFF != 0 then 32 else 0) - (if val & 0x0000FFFF0000FFFF != 0 then 16
      else 0)
      - (if val & 0x00FF00FF00FF00FF != 0 then 8 else 0) - (if val & 0x0F0F0F0F0F0F0F0F != 0 then 4 else 0)
      - (if val & 0x3333333333333333 != 0 then 2 else 0) - if val & 0x5555555555555555 != 0 then 1 else 0
  {
    hide One;
    var b5, b4, b3, b2, b1, b0 := OnePower(r);
  }

  /** The reference: shift and count. */
  method ReferenceFirstSetBit(w: Word) returns (bit: nat)
    ensures IsLowest(w, bit)
  {
    hide Half, Odd, Shifted, Has;
    if w == 0 {
      return 64;
    }
    bit := 0;
    var val := w;
    ShiftedStart(w);
    while !Odd(val)
      invariant Shifted(w, val, bit)
      decreases val
    {
      ShiftedNext(w, val, bit);
      val := Half(val);
      bit := bit + 1;
    }
    ShiftedEnd(w, val, bit);
  }

  /** The branch-free scan and the reference agree on every word. */
  method ScansAgree(w: Word) returns (fast: nat, slow: nat)
    ensures fast == slow && fast <= 64
  {
    hide Has;
    fast := FirstSetBit(w);
    slow := ReferenceFirstSetBit(w);
    LowestOnce(w, fast, slow);
  }

  // ---------- four words ----------

  /** Bit `b` of a bitmap of words. */
  predicate HasAt(vals: seq<Word>, b: nat) {
    b / 64 < |vals| && Has(vals[b / 64], b % 64)
  }

  /** `r` is the least set bit from `from` to `to`, or `to + 1` if there is none. */
  ghost predicate IsFirst(vals: seq<Word>, from: nat, to: nat, r: nat) {
    && (r == to + 1 || (from <= r <= to && HasAt(vals, r)))
    && forall b: nat {:trigger HasAt(vals, b)} :: from <= b <= to && b < r ==> !HasAt(vals, b)
  }

  /** getFirstSetBitInRange */
  method FirstSetBitInRange(vals: seq<Word>, startBit: nat, endBit: nat) returns (r: nat)
    requires |vals| == 4 && endBit <= 255
    ensures IsFirst(vals, startBit, endBit, r)
  {
    hide HasAt, Shl, Shr, And, IsLowest;
    var startIdx, endIdx := startBit / 64, endBit / 64;
    var idx := startIdx;
    while idx <= endIdx
      invariant startIdx <= idx
      invariant forall b: nat {:trigger HasAt(vals, b)} :: startBit <= b <= endBit && b < 64 * idx ==> !HasAt(vals, b)
    {
      var mask := ONES;
      if idx == startIdx {
        mask := And(mask, Shl(ONES, startBit % 64));
      }
      if idx == endIdx {
        mask := And(mask, Shr(ONES, 63 - endBit % 64));
      }
      r := FirstSetBit(And(vals[idx], mask));
      WordDone(vals, startBit, endBit, idx, mask, r);
      if r < 64 {
        return r + 64 * idx;
      }
      idx := idx + 1;
    }
    r := endBit + 1;
  }

  /** The lowest bit of one masked word is the first one of the range in this word. */
  lemma WordDone(vals: seq<Word>, startBit: nat, endBit: nat, idx: nat, mask: Word, r: nat)
    requires |vals| == 4 && endBit <= 255 && startBit / 64 <= idx <= endBit / 64
    requires var m := if idx == startBit / 64 then And(ONES, Shl(ONES, startBit % 64)) else ONES;
      mask == if idx == endBit / 64 then And(m, Shr(ONES, 63 - endBit % 64)) else m
    requires IsLowest(And(vals[idx], mask), r)
    ensures r <= 64 && (r < 64 ==> HasAt(vals, r + 64 * idx) && startBit <= r + 64 * idx <= endBit)
    ensures forall b: nat {:trigger HasAt(vals, b)} :: startBit <= b <= endBit && 64 * idx <= b < 64 * idx + r ==>
      !HasAt(vals, b)
  {
    hide HasAt, Shl, Shr, And, IsLowest, Has;
    LowestOf(And(vals[idx], mask), r);
    if r < 64 {
      MaskHas(vals, startBit, endBit, idx, mask, r);
    }
    forall b: nat | startBit <= b <= endBit && 64 * idx <= b < 64 * idx + r
      ensures !HasAt(vals, b)
    {
      MaskHas(vals, startBit, endBit, idx, mask, b - 64 * idx);
    }
  }

  lemma LowestOf(w: Word, r: nat)
    requires IsLowest(w, r)
    ensures r <= 64 && (r < 64 ==> Has(w, r)) && forall j: nat :: j < r ==> !Has(w, j)
  {
    hide Has;
    if w == 0 {
      forall j: nat | j < r
        ensures !Has(w, j)
      {
        if Has(w, j) {
          HasSmall(w, j);
        }
      }
    }
  }

  lemma MaskHas(vals: seq<Word>, startBit: nat, endBit: nat, idx: nat, mask: Word, j: nat)
    requires |vals| == 4 && endBit <= 255 && startBit / 64 <= idx <= endBit / 64 && j < 64
    requires var m := if idx == startBit / 64 then And(ONES, Shl(ONES, startBit % 64)) else ONES;
      mask == if idx == endBit / 64 then And(m, Shr(ONES, 63 - endBit % 64)) else m
    ensures Has(And(vals[idx], mask), j) <==> HasAt(vals, 64 * idx + j) && startBit <= 64 * idx + j <= endBit
  {
    hide Has, Shl, Shr, And;
    var m := if idx == startBit / 64 then And(ONES, Shl(ONES, startBit % 64)) else ONES;
    OnesHas(j);
    ShlHas(startBit % 64, j);
    ShrHas(63 - endBit % 64, j);
    AndHas(ONES, Shl(ONES, startBit % 64), j);
    AndHas(m, Shr(ONES, 63 - endBit % 64), j);
    AndHas(vals[idx], mask, j);
    assert (64 * idx + j) / 64 == idx && (64 * idx + j) % 64 == j;
  }
}
