/**
 * The level curve: a fixed table from level (0..100) to the cumulative XP a
 * member needs to hold that level, with the next-level lookup and the inverse
 * lookup from total XP to level.
 */
module Levels {
  import opened Wrappers

  /** The highest level a member can reach. */
  const MAX_LEVEL: int := 100

  /**
   * `LEVELS_AND_XP`: entry `l` is the cumulative XP threshold of level `l`.
   * The source keys the table by the decimal strings "0".."100"; here the key
   * is the sequence index. Written one decade per row.
   */
  const LEVELS_AND_XP: seq<int> :=
      [0, 100, 255, 475, 770, 1150, 1625, 2205, 2900, 3720] +
      [4675, 5775, 7030, 8450, 10045, 11825, 13800, 15980, 18375, 20995] +
      [23850, 26950, 30305, 33925, 37820, 42000, 46475, 51255, 56350, 61770] +
      [67525, 73625, 80080, 86900, 94095, 101675, 109650, 118030, 126825, 136045] +
      [145700, 155800, 166355, 177375, 188870, 200850, 213325, 226305, 239800, 253820] +
      [268375, 283475, 299130, 315350, 332145, 349525, 367500, 386080, 405275, 425095] +
      [445550, 466650, 488405, 510825, 533920, 557700, 582175, 607355, 633250, 659870] +
      [687225, 715325, 744180, 773800, 804195, 835375, 867350, 900130, 933725, 968145] +
      [1003400, 1039500, 1076455, 1114275, 1152970, 1192550, 1233025, 1274405, 1316700, 1359920] +
      [1404075, 1449175, 1495230, 1542250, 1590245, 1639225, 1689200, 1740180, 1792175, 1845195] +
      [1899250]

  /** The XP threshold of the last level. */
  const MAX_XP: int := LEVELS_AND_XP[MAX_LEVEL]

  predicate IsLevel(l: int) { 0 <= l <= MAX_LEVEL }

  /*---------------------------------------------------------------------------
   * An independent reference for the table: the published MEE6 curve, where
   * going from level k to k + 1 costs 5k^2 + 50k + 100 XP.
   *-------------------------------------------------------------------------*/

  function XpToAdvance(k: int): int { 5 * k * k + 50 * k + 100 }

  lemma XpToAdvancePositive(k: int)
    requires k >= 0
    ensures XpToAdvance(k) > 0
  {
    assert k * k >= 0;
  }

  /** Cumulative XP needed for level `l` on the MEE6 curve. */
  function CurveThreshold(l: nat): int {
    if l == 0 then 0 else CurveThreshold(l - 1) + XpToAdvance(l - 1)
  }

  /** Every step of the table from index `i` on costs what the curve says. */
  predicate StepsFollowCurveFrom(i: nat)
    requires i < |LEVELS_AND_XP|
    decreases |LEVELS_AND_XP| - i
  {
    i + 1 == |LEVELS_AND_XP|
    || (LEVELS_AND_XP[i + 1] - LEVELS_AND_XP[i] == XpToAdvance(i) && StepsFollowCurveFrom(i + 1))
  }

  lemma {:induction false} StepFollowsCurve(i: nat, j: nat)
    requires i <= j < |LEVELS_AND_XP| - 1
    requires StepsFollowCurveFrom(i)
    ensures LEVELS_AND_XP[j + 1] - LEVELS_AND_XP[j] == XpToAdvance(j)
    decreases j - i
  {
    if i < j {
      StepFollowsCurve(i + 1, j);
    }
  }

  /*
   * The steps are evaluated on the literal a few decades per lemma, from the
   * top of the table down.
   */

  lemma TableStepsFrom80()
    ensures StepsFollowCurveFrom(80)
  {
    assert StepsFollowCurveFrom(90);
  }

  lemma TableStepsFrom60()
    ensures StepsFollowCurveFrom(60)
  {
    TableStepsFrom80();
    assert StepsFollowCurveFrom(70);
  }

  lemma TableStepsFrom40()
    ensures StepsFollowCurveFrom(40)
  {
    TableStepsFrom60();
    assert StepsFollowCurveFrom(50);
  }

  lemma TableStepsFrom20()
    ensures StepsFollowCurveFrom(20)
  {
    TableStepsFrom40();
    assert StepsFollowCurveFrom(30);
  }

  lemma TableSteps()
    ensures |LEVELS_AND_XP| == MAX_LEVEL + 1
    ensures StepsFollowCurveFrom(0)
  {
    TableStepsFrom20();
    assert StepsFollowCurveFrom(10);
  }

  /** In a table starting at 0 whose every step follows the curve, entry `l` is the curve's threshold. */
  lemma {:induction false} FollowsCurve(t: seq<int>, l: nat)
    requires l < |t| && t[0] == 0
    requires forall j | 0 <= j < |t| - 1 :: t[j + 1] - t[j] == XpToAdvance(j)
    ensures t[l] == CurveThreshold(l)
  {
    if l > 0 {
      FollowsCurve(t, l - 1);
    }
  }

  /**
   * The table has exactly the levels 0..100, starts at 0, ends at 1899250,
   * and every entry is the MEE6 curve's cumulative threshold.
   */
  lemma TableIsMee6Curve()
    ensures |LEVELS_AND_XP| == MAX_LEVEL + 1
    ensures LEVELS_AND_XP[0] == 0 && MAX_XP == 1899250
    ensures forall l | 0 <= l <= MAX_LEVEL :: LEVELS_AND_XP[l] == CurveThreshold(l)
  {
    TableSteps();
    forall j | 0 <= j < |LEVELS_AND_XP| - 1
      ensures LEVELS_AND_XP[j + 1] - LEVELS_AND_XP[j] == XpToAdvance(j)
    {
      StepFollowsCurve(0, j);
    }
    forall l | 0 <= l <= MAX_LEVEL
      ensures LEVELS_AND_XP[l] == CurveThreshold(l)
    {
      FollowsCurve(LEVELS_AND_XP, l);
    }
  }

  /** Thresholds strictly increase from one level to the next. */
  lemma ThresholdsIncrease()
    ensures forall l | 0 <= l < MAX_LEVEL :: LEVELS_AND_XP[l] < LEVELS_AND_XP[l + 1]
  {
    TableIsMee6Curve();
    forall l | 0 <= l < MAX_LEVEL
      ensures LEVELS_AND_XP[l] < LEVELS_AND_XP[l + 1]
    {
      XpToAdvancePositive(l);
      assert CurveThreshold(l + 1) == CurveThreshold(l) + XpToAdvance(l);
    }
  }

  /** Strict monotonicity between any two levels. */
  lemma {:induction false} ThresholdsOrdered(a: int, b: int)
    requires 0 <= a < b <= MAX_LEVEL
    ensures LEVELS_AND_XP[a] < LEVELS_AND_XP[b]
    decreases b - a
  {
    ThresholdsIncrease();
    if a + 1 < b {
      ThresholdsOrdered(a + 1, b);
    }
  }

  /** Every threshold lies in [0, MAX_XP]. */
  lemma ThresholdsBounded(l: int)
    requires IsLevel(l)
    ensures 0 <= LEVELS_AND_XP[l] <= MAX_XP
  {
    TableIsMee6Curve();
    if 0 < l { ThresholdsOrdered(0, l); }
    if l < MAX_LEVEL { ThresholdsOrdered(l, MAX_LEVEL); }
  }

  /*---------------------------------------------------------------------------
   * _next_level_details
   *-------------------------------------------------------------------------*/

  datatype Details = Details(level: int, xpNeeded: int)

  /**
   * `_next_level_details`: the level after `current`, capped at 100, with its
   * threshold. A `current` below -1 gives a key the table lacks (KeyError),
   * modelled as `None`.
   */
  function NextLevelDetails(current: int): (r: Option<Details>)
    ensures r.Some? <==> current >= -1
    ensures r.Some? ==> IsLevel(r.value.level) && r.value.xpNeeded == LEVELS_AND_XP[r.value.level]
    ensures r.Some? && current < MAX_LEVEL ==> r.value.level == current + 1
    ensures r.Some? && current >= MAX_LEVEL ==> r.value.level == MAX_LEVEL
  {
    var next := if current + 1 > MAX_LEVEL then MAX_LEVEL else current + 1;
    if next < 0 then None else Some(Details(next, LEVELS_AND_XP[next]))
  }

  /** Below the cap the next level needs strictly more XP; at or above it the details stay at level 100. */
  lemma NextLevelDetailsAdvance(current: int)
    requires 0 <= current
    ensures NextLevelDetails(current).Some?
    ensures current < MAX_LEVEL ==>
      NextLevelDetails(current).value.xpNeeded > LEVELS_AND_XP[current]
    ensures current >= MAX_LEVEL ==>
      NextLevelDetails(current).value == Details(MAX_LEVEL, MAX_XP)
  {
    if current < MAX_LEVEL {
      ThresholdsIncrease();
    }
  }

  /*---------------------------------------------------------------------------
   * _find_level
   *
   * The two loops are written over any table with the shape of
   * `LEVELS_AND_XP` (101 strictly increasing entries from 0) and then applied
   * to the table itself.
   *-------------------------------------------------------------------------*/

  predicate IsLevelTable(t: seq<int>) {
    && |t| == MAX_LEVEL + 1
    && t[0] == 0
    && forall a, b | 0 <= a < b < |t| :: t[a] < t[b]
  }

  lemma LevelsAndXpIsLevelTable()
    ensures IsLevelTable(LEVELS_AND_XP)
  {
    TableIsMee6Curve();
    forall a, b | 0 <= a < b < |LEVELS_AND_XP|
      ensures LEVELS_AND_XP[a] < LEVELS_AND_XP[b]
    {
      ThresholdsOrdered(a, b);
    }
  }

  /** The first index at or after `i` whose entry equals `x` (the exact-match loop). */
  function IndexOfThreshold(t: seq<int>, x: int, i: nat): (j: int)
    requires i < |t| && x in t[i..]
    ensures i <= j < |t| && t[j] == x
    decreases |t| - i
  {
    if t[i] == x then i
    else
      assert x in t[i + 1..] by {
        assert t[i..] == [t[i]] + t[i + 1..];
      }
      IndexOfThreshold(t, x, i + 1)
  }

  /**
   * The fallback loop: the first level whose threshold is at least `x`, minus
   * one and floored at 0; `None` when the loop runs off the end of the table.
   * Entries before `i` have already been passed over.
   */
  function ScanBelow(t: seq<int>, x: int, i: nat): (r: Option<int>)
    requires IsLevelTable(t) && i <= |t|
    requires forall k | 0 <= k < i :: !(0 <= x <= t[k])
    ensures r.None? <==> (x < 0 || forall k | i <= k < |t| :: x > t[k])
    ensures r.Some? ==> 0 <= r.value < MAX_LEVEL && (t[r.value] < x || x == 0) && x <= t[r.value + 1]
    decreases |t| - i
  {
    if i == |t| then None
    else if 0 <= x <= t[i] then
      (if i == 0 then Some(0) else Some(i - 1))
    else ScanBelow(t, x, i + 1)
  }

  /** `_find_level` over a table `t` of the right shape. */
  function FindLevelIn(t: seq<int>, x: int): (r: Option<int>)
    requires IsLevelTable(t)
    ensures r.Some? <==> 0 <= x <= t[MAX_LEVEL]
    ensures r.Some? ==>
      && IsLevel(r.value)
      && t[r.value] <= x
      && (r.value < MAX_LEVEL ==> x < t[r.value + 1])
  {
    if x in t then
      Some(IndexOfThreshold(t, x, 0))
    else
      ScanBelow(t, x, 0)
  }

  /**
   * `_find_level`: the level held with `totalXp` XP in total. An exact
   * threshold maps to its level; otherwise the greatest level whose
   * threshold lies below. Outside [0, MAX_XP] the loops fall through and the
   * function returns `None`.
   */
  function FindLevel(totalXp: int): (r: Option<int>)
    ensures r.Some? <==> 0 <= totalXp <= MAX_XP
    ensures r.Some? ==>
      && IsLevel(r.value)
      && LEVELS_AND_XP[r.value] <= totalXp
      && (r.value < MAX_LEVEL ==> totalXp < LEVELS_AND_XP[r.value + 1])
  {
    LevelsAndXpIsLevelTable();
    FindLevelIn(LEVELS_AND_XP, totalXp)
  }

  /** In a table of the right shape, `l` is found exactly when `x` lies in `[t[l], t[l + 1])`. */
  lemma FindLevelInCharacterised(t: seq<int>, x: int, l: int)
    requires IsLevelTable(t) && 0 <= x <= t[MAX_LEVEL] && IsLevel(l)
    ensures FindLevelIn(t, x) == Some(l) <==> t[l] <= x && (l == MAX_LEVEL || x < t[l + 1])
  {
  }

  /** Every total XP in [0, MAX_XP] is mapped to the level whose band `[threshold, next threshold)` holds it. */
  lemma FindLevelIsGreatestLevelReached(x: int, l: int)
    requires 0 <= x <= MAX_XP && IsLevel(l)
    ensures FindLevel(x) == Some(l) <==>
      LEVELS_AND_XP[l] <= x && (l == MAX_LEVEL || x < LEVELS_AND_XP[l + 1])
  {
    LevelsAndXpIsLevelTable();
    FindLevelInCharacterised(LEVELS_AND_XP, x, l);
  }

  /** Boundary round trip: the threshold of a level maps back to that level. */
  lemma FindLevelOfThreshold(l: int)
    requires IsLevel(l)
    ensures FindLevel(LEVELS_AND_XP[l]) == Some(l)
  {
    ThresholdsBounded(l);
    if l < MAX_LEVEL { ThresholdsIncrease(); }
    FindLevelIsGreatestLevelReached(LEVELS_AND_XP[l], l);
  }
}
