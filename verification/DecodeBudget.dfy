/** What the fixed work budget is enough for: every set of up to eighteen words,
    and not every set of nineteen. */
module DecodeBudget {
  import opened FieldTheory
  import opened Lists
  import opened Splitting
  import opened Extremes
  import opened Gf64
  import Word64

  const FACTOR_PARAMETER_SEED: Word := 0x9e37_79b9_7f4a_7c15

  /** One step of the xorshift generator behind the mixed parameters. */
  function NextFactorParameter(parameter: Word): Word {
    var a := parameter ^ (parameter << 13);
    var b := a ^ (a >> 7);
    b ^ (b << 17)
  }

  function MixedFrom(parameter: Word, n: nat): (r: seq<Word>)
    ensures |r| == n
    decreases n
  {
    if n == 0 then [] else [parameter] + MixedFrom(NextFactorParameter(parameter), n - 1)
  }

  /** The eight mixed parameters, tried before the basis. */
  function Mixed(): (r: seq<Word>)
    ensures |r| == 8
  {
    MixedFrom(FACTOR_PARAMETER_SEED, 8)
  }

  // ---- the mixed parameters

  predicate NextAt(m: seq<Word>, j: nat)
    requires |m| == 8 && j < 7
  {
    NextFactorParameter(m[j]) == m[j + 1]
  }

  lemma {:induction false} MixedChain(m: seq<Word>, i: nat)
    requires |m| == 8 && i < 8 && forall j: nat :: j < 7 ==> NextAt(m, j)
    ensures MixedFrom(m[i], 8 - i) == m[i..]
    decreases 8 - i
  {
    if i == 7 {
      assert MixedFrom(NextFactorParameter(m[7]), 0) == [];
    } else {
      MixedChain(m, i + 1);
      assert NextAt(m, i);
    }
  }

  lemma {:induction false} MixedNexts()
    ensures NextFactorParameter(0x9e37_79b9_7f4a_7c15) == 0xdc1b_77ae_0bf3_4dad
    ensures NextFactorParameter(0xdc1b_77ae_0bf3_4dad) == 0x64f0_eeb9_026e_6076
    ensures NextFactorParameter(0x64f0_eeb9_026e_6076) == 0x7b07_ce91_e590_6136
    ensures NextFactorParameter(0x7b07_ce91_e590_6136) == 0x305f_050c_368d_cc74
    ensures NextFactorParameter(0x305f_050c_368d_cc74) == 0x2ceb_16e0_a1c5_4aec
    ensures NextFactorParameter(0x2ceb_16e0_a1c5_4aec) == 0x9710_1dce_4e7b_fb79
    ensures NextFactorParameter(0x9710_1dce_4e7b_fb79) == 0x9ad2_e144_d6e8_f2cf
  {
  }

  function MixedList(): seq<Word> {
    [0x9e37_79b9_7f4a_7c15, 0xdc1b_77ae_0bf3_4dad, 0x64f0_eeb9_026e_6076, 0x7b07_ce91_e590_6136,
     0x305f_050c_368d_cc74, 0x2ceb_16e0_a1c5_4aec, 0x9710_1dce_4e7b_fb79, 0x9ad2_e144_d6e8_f2cf]
  }

  lemma {:induction false} MixedIsList()
    ensures Mixed() == MixedList()
  {
    var m := MixedList();
    MixedNexts();
    assert NextAt(m, 0) && NextAt(m, 1) && NextAt(m, 2) && NextAt(m, 3) && NextAt(m, 4) && NextAt(m, 5) && NextAt(m, 6);
    MixedChain(m, 0);
  }

  // ---- the trials that add nothing

  predicate Below(v: Word, w: Word) { v < w }

  lemma {:induction false} BelowOne(v: Word)
    requires Below(v, 1)
    ensures Word64.Bits(v) == []
  {
  }

  lemma {:induction false} HalfBelow(v: Word, w: Word)
    requires Below(v, Word64.Shl(w)) && !Word64.Top(w)
    ensures Below(Word64.Shr(v), w)
  {
  }

  lemma {:induction false} UnitNotTop(u: nat)
    requires u < 63
    ensures !Word64.Top(Word64.Unit(u))
  {
    Word64.UnitLength(u);
    Word64.WordLength(Word64.Unit(u));
  }

  lemma {:induction false} HalfLength(v: Word)
    ensures |Word64.Bits(v)| <= 1 + |Word64.Bits(Word64.Shr(v))|
  {
  }

  /** A word below 1 << u has no bit from u on. */
  lemma {:induction false} BelowUnit(v: Word, u: nat)
    requires u < 64 && Below(v, Word64.Unit(u))
    ensures |Word64.Bits(v)| <= u
    decreases u
  {
    if u == 0 {
      BelowOne(v);
    } else {
      UnitNotTop(u - 1);
      HalfBelow(v, Word64.Unit(u - 1));
      BelowUnit(Word64.Shr(v), u - 1);
      HalfLength(v);
    }
  }

  function Shl4(w: Word): Word { Word64.Shl(Word64.Shl(Word64.Shl(Word64.Shl(w)))) }

  lemma {:induction false} UnitFour(k: nat)
    ensures Word64.Unit(k + 4) == Shl4(Word64.Unit(k))
  {
    assert Word64.Unit(k + 2) == Word64.Shl(Word64.Shl(Word64.Unit(k)));
  }

  lemma {:induction false} UnitEight(k: nat, v: Word)
    requires Word64.Unit(k) == v
    ensures Word64.Unit(k + 8) == Shl4(Shl4(v))
  {
    UnitFour(k);
    UnitFour(k + 4);
  }

  lemma {:induction false} UnitNext(k: nat, v: Word)
    requires Word64.Unit(k) == v
    ensures Word64.Unit(k + 1) == Word64.Shl(v)
  {
  }

  /** The high units that lead sums of mixed parameters. */
  function HighUnit(u: nat): Word {
    if u == 54 then 0x0040_0000_0000_0000
    else if u == 57 then 0x0200_0000_0000_0000
    else if u == 58 then 0x0400_0000_0000_0000
    else if u == 59 then 0x0800_0000_0000_0000
    else if u == 60 then 0x1000_0000_0000_0000
    else if u == 61 then 0x2000_0000_0000_0000
    else if u == 62 then 0x4000_0000_0000_0000
    else 0x8000_0000_0000_0000
  }

  predicate Leads(u: nat) { u == 54 || 57 <= u <= 63 }

  lemma {:induction false} LowUnits()
    ensures Word64.Unit(46) == 0x4000_0000_0000
  {
    UnitFour(0);
    UnitNext(4, 0x10);
    UnitNext(5, 0x20);
    UnitEight(6, 0x40);
    UnitEight(14, 0x4000);
    UnitEight(22, 0x0040_0000);
    UnitEight(30, 0x4000_0000);
    UnitEight(38, 0x0040_0000_0000);
  }

  lemma {:induction false} HighUnits(u: nat)
    requires Leads(u)
    ensures Word64.Unit(u) == HighUnit(u)
  {
    LowUnits();
    UnitEight(46, 0x4000_0000_0000);
    UnitNext(54, 0x0040_0000_0000_0000);
    UnitNext(55, 0x0080_0000_0000_0000);
    UnitNext(56, 0x0100_0000_0000_0000);
    UnitNext(57, 0x0200_0000_0000_0000);
    UnitNext(58, 0x0400_0000_0000_0000);
    UnitNext(59, 0x0800_0000_0000_0000);
    UnitNext(60, 0x1000_0000_0000_0000);
    UnitNext(61, 0x2000_0000_0000_0000);
    UnitNext(62, 0x4000_0000_0000_0000);
  }

  /** What four words and a unit add up to. */
  function Rest(x0: Word, x1: Word, x2: Word, x3: Word, unit: Word): Word {
    Word64.Xor(Word64.Xor(Word64.Xor(x0, x1), Word64.Xor(x2, x3)), unit)
  }

  /** A mixed parameter, or zero. */
  function Parameter(i: nat): Word { if i < 8 then MixedList()[i] else 0 }

  /** The mixed parameters that add up to a word with highest bit u. */
  function Leaders(u: nat): (nat, nat, nat, nat) {
    if u == 54 then (1, 3, 4, 6)
    else if u == 57 then (2, 3, 4, 5)
    else if u == 58 then (0, 7, 8, 8)
    else if u == 59 then (0, 1, 3, 4)
    else if u == 60 then (2, 3, 8, 8)
    else if u == 61 then (0, 1, 2, 8)
    else if u == 62 then (0, 1, 8, 8)
    else (0, 8, 8, 8)
  }

  lemma {:induction false} LeadersLead(u: nat)
    requires Leads(u)
    ensures var l := Leaders(u);
      Below(Rest(Parameter(l.0), Parameter(l.1), Parameter(l.2), Parameter(l.3), HighUnit(u)), HighUnit(u))
  {
  }

  lemma {:induction false} ClearFrom(K: Field<Word>, rest: Word, unit: Word, u: nat)
    requires K == Gf() && u < 64 && unit == Word64.Unit(u) && Below(rest, unit)
    ensures forall i: nat :: u <= i ==> !K.bit(rest, i)
  {
    BelowUnit(rest, u);
    forall i: nat | u <= i
      ensures !K.bit(rest, i)
    {
      Word64.HalvesClear(rest, i);
    }
  }

  lemma {:induction false} Leading(K: Field<Word>, mixed: seq<Word>, t: nat, u: nat, unit: Word, x0: Word, x1: Word,
      x2: Word, x3: Word)
    requires K == Gf() && IsWordField(K) && K.bits == 64 && u < 64 && unit == Word64.Unit(u) && t == |mixed| + u
    requires (x0 in mixed || x0 == 0) && (x1 in mixed || x1 == 0) && (x2 in mixed || x2 == 0) &&
      (x3 in mixed || x3 == 0)
    requires Below(Rest(x0, x1, x2, x3, unit), unit)
    ensures Redundant(K, mixed, t)
  {
    ClearFrom(K, Rest(x0, x1, x2, x3, unit), unit, u);
    assert K.add(K.add(K.add(x0, x1), K.add(x2, x3)), K.unit(u)) == Rest(x0, x1, x2, x3, unit);
    LeadingIsRedundant(K, mixed, t, u, x0, x1, x2, x3);
  }

  /** The trials of the bits that lead sums of mixed parameters. */
  predicate Spare(t: nat) { t == 62 || 65 <= t < 72 }

  ghost function SpareTrials(): set<nat> { set t: nat | t < 72 && Spare(t) }

  lemma {:induction false} SpareCount()
    ensures |SpareTrials()| == 8
  {
    var high := {65, 66, 67, 68, 69, 70, 71};
    assert |high| == 7;
    assert SpareTrials() == high + {62};
  }

  lemma {:induction false} SpareIsRedundant(K: Field<Word>, mixed: seq<Word>, t: nat, u: nat)
    requires K == Gf() && mixed == MixedList() && IsWordField(K) && K.bits == 64 && Leads(u) && t == 8 + u
    ensures Redundant(K, mixed, t)
  {
    HighUnits(u);
    LeadersLead(u);
    var l := Leaders(u);
    Leading(K, mixed, t, u, HighUnit(u), Parameter(l.0), Parameter(l.1), Parameter(l.2), Parameter(l.3));
  }

  ghost predicate SparesRedundant(K: Field<Word>, mixed: seq<Word>)
    requires K.bits >= 1
  {
    forall t: nat :: Spare(t) ==> Redundant(K, mixed, t)
  }

  lemma {:induction false} AllSparesRedundant(K: Field<Word>, mixed: seq<Word>)
    requires K == Gf() && mixed == MixedList() && IsWordField(K) && K.bits == 64
    ensures SparesRedundant(K, mixed)
  {
    forall t: nat | Spare(t)
      ensures Redundant(K, mixed, t)
    {
      SpareIsRedundant(K, mixed, t, t - 8);
    }
  }

  // ---- how late a set of a size can be separated

  ghost predicate Standard(K: Field<Word>, mixed: seq<Word>) {
    IsWordField(K) && K.bits == 64 && |mixed| == 8 && SparesRedundant(K, mixed)
  }

  lemma {:induction false} StandardDecoder()
    ensures Standard(Gf(), Mixed())
  {
    GfIsWordField();
    Word64.WidthIs64();
    MixedIsList();
    AllSparesRedundant(Gf(), Mixed());
  }

  lemma {:induction false} RoomStep(K: Field<Word>, mixed: seq<Word>, t: nat, next: nat)
    requires K.bits >= 1 && t < Trials(K, mixed) && next == t + 1
    ensures Room(K, mixed, next) <= Room(K, mixed, t) <= Room(K, mixed, next) + 1
    ensures Redundant(K, mixed, t) ==> Room(K, mixed, t) == Room(K, mixed, next)
  {
  }

  /** The trials from t on that are not spare. */
  function Counted(t: nat): nat {
    if t <= 61 then 64 - t else if t <= 63 then 65 - t - (if t == 62 then 1 else 0) else if t == 64 then 1 else 0
  }

  lemma {:induction false} RoomCounted(K: Field<Word>, mixed: seq<Word>, t: nat)
    requires Standard(K, mixed) && t <= 72
    ensures Room(K, mixed, t) <= Counted(t)
    decreases 72 - t
  {
    if t < 72 {
      var next := t + 1;
      RoomStep(K, mixed, t, next);
      RoomCounted(K, mixed, next);
      assert Spare(t) ==> Redundant(K, mixed, t);
    }
  }

  /** The trials that a set of k elements may need until the first that separates it. */
  function TrialLimit(k: nat): nat {
    if k <= 2 then 65 else if k <= 4 then 64 else if k <= 8 then 62 else if k <= 16 then 61 else 60
  }

  function Limit(): nat -> nat { k => TrialLimit(k) }

  lemma {:induction false} SmallPowers()
    ensures Exp2(0) == 1 && Exp2(1) == 2 && Exp2(2) == 4 && Exp2(3) == 8 && Exp2(4) == 16 && Exp2(5) == 32
  {
    assert Exp2(3) == 8;
  }

  lemma {:induction false} LimitFromRoom(k: nat, room: nat, t: nat)
    requires 2 <= k <= 32 && k <= Exp2(room) && room <= Counted(t)
    ensures t + 1 <= TrialLimit(k)
  {
    SmallPowers();
    Exp2Order(room, 0);
    Exp2Order(room, 1);
    Exp2Order(room, 2);
    Exp2Order(room, 3);
    Exp2Order(room, 4);
  }

  lemma {:induction false} LimitsHold(K: Field<Word>, mixed: seq<Word>)
    requires Standard(K, mixed)
    ensures Limits(K, mixed, Limit(), 32)
  {
    forall A
      ensures LimitAt(K, mixed, Limit(), A, 32)
    {
      if Distinct(A) && 2 <= |A| <= 32 {
        FirstTrialBound(K, mixed, A);
        var t := FirstTrial(K, mixed, A, 0);
        RoomCounted(K, mixed, t);
        LimitFromRoom(|A|, Room(K, mixed, t), t);
      }
    }
  }

  // ---- eighteen are always found

  /** The latest trial that can split one element off a set of k. */
  function LateTrial(k: nat): nat {
    if k <= 3 then 64 else if k == 4 then 63 else if k == 5 then 62 else if k <= 9 then 61 else if k <= 17 then 60
      else 59
  }

  ghost function LateUnits(k: nat): nat { TrialUnits(LateTrial(k), k) }

  ghost function LateStep(): nat -> nat { k => LateUnits(k) }

  lemma {:induction false} UnitsAre(trials: nat, k: nat)
    ensures TrialUnits(trials, k) == trials * (k * k)
  {
    TimesIsProduct(trials, Sqr(k));
    SqrIsProduct(k);
  }

  lemma {:induction false} TimesSplit(n: nat, x: nat, y: nat)
    ensures Times(n, x + y) == Times(n, x) + Times(n, y)
  {
    if n > 0 {
      TimesSplit(n - 1, x, y);
    }
  }

  lemma {:induction false} LateGrows(k: nat, next: nat)
    requires 3 <= k < 32 && next == k + 1
    ensures LateUnits(k) <= LateUnits(next)
  {
    var late := LateTrial(next);
    assert Sqr(next) == Sqr(k) + 2 * k + 1;
    TimesOrder(LateTrial(k), late + 1, Sqr(k));
    TimesSplit(late, Sqr(k), 2 * k + 1);
    SqrIsProduct(k);
    TimesIsProduct(late, 2 * k + 1);
  }

  lemma {:induction false} LateCovers(k: nat, trial: nat, rest: nat)
    requires 3 <= k <= 32 && rest == k - 1 && trial <= TrialLimit(k)
    ensures trial < TrialLimit(rest) ==> TrialUnits(trial, k) <= LateUnits(k)
    ensures k >= 4 ==> TrialUnits(trial, k) <= LateUnits(k) + LateUnits(rest)
  {
    var late := LateTrial(k);
    if trial < TrialLimit(rest) {
      TimesOrder(trial, late, Sqr(k));
    }
    TimesOrder(trial, late + 1, Sqr(k));
    TimesOrder(2, LateTrial(rest), Sqr(rest));
    TimesIsProduct(2, Sqr(rest));
    if k >= 4 {
      SqrMonotone(3, rest);
      assert Sqr(3) == 9;
      SqrIsProduct(rest);
      assert rest * rest >= 3 * rest;
    }
  }

  lemma {:induction false} CoversHold()
    ensures Covers(Limit(), LateStep(), 32)
  {
    forall k: nat | 3 <= k < 32
      ensures GrowsAt(LateStep(), k)
    {
      LateGrows(k, k + 1);
    }
    forall k: nat, trial: nat | 3 <= k <= 32
      ensures CoverAt(Limit(), LateStep(), k, trial)
    {
      if trial <= TrialLimit(k) {
        LateCovers(k, trial, k - 1);
      }
    }
  }

  lemma {:induction false} LateTotal(k: nat, before: nat, after: nat)
    requires k >= 3 && Total(LateStep(), k - 1) == before && after == before + LateTrial(k) * (k * k)
    ensures Total(LateStep(), k) == after
  {
    UnitsAre(LateTrial(k), k);
  }

  lemma {:induction false} LateTotals()
    ensures Total(LateStep(), 18) == 126280
  {
    LateTotal(3, 0, 576);
    LateTotal(4, 576, 1584);
    LateTotal(5, 1584, 3134);
    LateTotal(6, 3134, 5330);
    LateTotal(7, 5330, 8319);
    LateTotal(8, 8319, 12223);
    LateTotal(9, 12223, 17164);
    LateTotal(10, 17164, 23164);
    LateTotal(11, 23164, 30424);
    LateTotal(12, 30424, 39064);
    LateTotal(13, 39064, 49204);
    LateTotal(14, 49204, 60964);
    LateTotal(15, 60964, 74464);
    LateTotal(16, 74464, 89824);
    LateTotal(17, 89824, 107164);
    LateTotal(18, 107164, 126280);
  }

  /** The work of the search for a set of words, with the parameters of the decoder. */
  ghost function SearchCost(A: seq<Word>): nat {
    StandardDecoder();
    Cost(Gf(), Mixed(), A)
  }

  /** Every set of up to eighteen words is found within the budget. */
  lemma {:induction false} EighteenFit(A: seq<Word>)
    requires Distinct(A) && |A| <= 18
    ensures SearchCost(A) <= MAX_FACTOR_WORK
  {
    StandardDecoder();
    LimitsHold(Gf(), Mixed());
    CoversHold();
    CostBound(Gf(), Mixed(), Limit(), LateStep(), A, 32);
    TotalMonotone(LateStep(), |A|, 18);
    LateTotals();
    Word64.WidthIs64();
    TimesOrder(Units(Gf(), Mixed(), A), 126280, 63);
    TimesIsProduct(126280, 63);
  }

  // ---- nineteen are not

  /** The trial that splits k elements: the last one possible when every later
      step splits off one element as well, down to four. */
  function StairTrial(k: nat): nat { if k <= 66 then 66 - k else 0 }

  function Stair(): nat -> nat { k => StairTrial(k) }

  lemma {:induction false} StairCounts(K: Field<Word>, mixed: seq<Word>, t: nat)
    requires Standard(K, mixed) && t < 72 && !Spare(t)
    ensures !Redundant(K, mixed, t)
  {
    SpareCount();
    forall x | x in SpareTrials()
      ensures Redundant(K, mixed, x)
    {
      assert Spare(x);
    }
    OthersCount(K, mixed, SpareTrials(), t);
  }

  lemma {:induction false} StairTotal(k: nat, base: nat, before: nat, after: nat)
    requires 6 <= k <= 19 && Total(StairStep(Stair()), k - 1) == base + before
    requires after == before + (67 - k) * (k * k)
    ensures Total(StairStep(Stair()), k) == base + after
  {
    StairNext(Stair(), k);
    assert StairTrial(k) + 1 == 67 - k;
    UnitsAre(67 - k, k);
  }

  lemma {:induction false} StairTotals(base: nat)
    requires base == Total(StairStep(Stair()), 5)
    ensures Total(StairStep(Stair()), 19) == base + 125930
  {
    StairTotal(6, base, 0, 2196);
    StairTotal(7, base, 2196, 5136);
    StairTotal(8, base, 5136, 8912);
    StairTotal(9, base, 8912, 13610);
    StairTotal(10, base, 13610, 19310);
    StairTotal(11, base, 19310, 26086);
    StairTotal(12, base, 26086, 34006);
    StairTotal(13, base, 34006, 43132);
    StairTotal(14, base, 43132, 53520);
    StairTotal(15, base, 53520, 65220);
    StairTotal(16, base, 65220, 78276);
    StairTotal(17, base, 78276, 92726);
    StairTotal(18, base, 92726, 108602);
    StairTotal(19, base, 108602, 125930);
  }

  lemma {:induction false} NineteenUnits(K: Field<Word>, mixed: seq<Word>) returns (A: seq<Word>)
    requires Standard(K, mixed)
    ensures |A| == 19 && Distinct(A) && K.zero !in A && Units(K, mixed, A) >= 128504
  {
    StairCounts(K, mixed, 61);
    StairCounts(K, mixed, 63);
    StairCounts(K, mixed, 64);
    var B := FiveExist(K, mixed, Stair(), 61, 63, 64);
    UnitsAre(62, 5);
    UnitsAre(64, 4);
    forall k: nat | 5 < k <= 19
      ensures !Redundant(K, mixed, Stair()(k))
    {
      StairCounts(K, mixed, StairTrial(k));
    }
    A := TowerExists(K, mixed, Stair(), 5, 19, Units(K, mixed, B), B);
    StairTotals(Total(StairStep(Stair()), 5));
  }

  /** Some set of nineteen nonzero words needs more than the budget. */
  lemma {:induction false} NineteenExceed() returns (A: seq<Word>)
    ensures |A| == 19 && Distinct(A) && 0 !in A
    ensures SearchCost(A) > MAX_FACTOR_WORK
  {
    StandardDecoder();
    A := NineteenUnits(Gf(), Mixed());
    Word64.WidthIs64();
    TimesOrder(128504, Units(Gf(), Mixed(), A), 63);
    TimesIsProduct(128504, 63);
  }

  // ---- polynomials of the degree of a stratum

  lemma {:induction false} FullTotal(K: Field<Word>, mixed: seq<Word>, k: nat, before: nat, after: nat)
    requires k >= 3 && Trials(K, mixed) == 72 && Total(FullStep(K, mixed), k - 1) == before &&
      after == before + 72 * (k * k)
    ensures Total(FullStep(K, mixed), k) == after
  {
    UnitsAre(72, k);
  }

  lemma {:induction false} FullTotals(K: Field<Word>, mixed: seq<Word>, n: nat)
    requires Trials(K, mixed) == 72 && n == 8
    ensures Total(FullStep(K, mixed), n) == 14328
  {
    FullTotal(K, mixed, 3, 0, 648);
    FullTotal(K, mixed, 4, 648, 1800);
    FullTotal(K, mixed, 5, 1800, 3600);
    FullTotal(K, mixed, 6, 3600, 6192);
    FullTotal(K, mixed, 7, 6192, 9720);
    FullTotal(K, mixed, 8, 9720, 14328);
  }

  /** No polynomial of degree up to eight can use up the budget. */
  lemma {:induction false} StratumFits(K: Field<Word>, mixed: seq<Word>, degree: nat)
    requires K.bits == 64 && |mixed| == 8 && degree <= 8
    ensures WorstCase(K, mixed, degree) <= 902664 <= MAX_FACTOR_WORK
  {
    FullTotals(K, mixed, 8);
    TotalMonotone(FullStep(K, mixed), degree, 8);
    TimesOrder(WorstUnits(K, mixed, degree), 14328, 63);
    TimesIsProduct(14328, 63);
  }
}
