/** The spiritual-level table and the tier scan `updateUserGraces` runs after
    adding graces. */
module Levels {
  import opened Common
  import opened Types

  /** One row of the table: a level and its inclusive grace range;
      `max == None` is the unbounded `Infinity` of the last row. */
  datatype Tier = Tier(level: SpiritualLevel, min: int, max: Option<int>)

  /** `SPIRITUAL_LEVELS`, rows in declaration order (the order `for...in` visits them). */
  const SpiritualLevels: seq<Tier> := [
    Tier(Peregrino, 0, Some(50)),
    Tier(Devoto, 51, Some(200)),
    Tier(Servo, 201, Some(500)),
    Tier(Apostolo, 501, None)
  ]

  /** Position of a level in the table. */
  function Rank(l: SpiritualLevel): (r: nat)
    ensures r < |SpiritualLevels| && SpiritualLevels[r].level == l
  {
    match l
    case Peregrino => 0
    case Devoto => 1
    case Servo => 2
    case Apostolo => 3
  }

  /** Index of the last row whose minimum `graces` reaches, or -1 when it reaches none. */
  function LastReached(table: seq<Tier>, graces: int): (i: int)
    ensures -1 <= i < |table|
    ensures 0 <= i ==> table[i].min <= graces
    ensures forall j :: i < j < |table| ==> graces < table[j].min
  {
    if table == [] then -1
    else if table[|table| - 1].min <= graces then |table| - 1
    else LastReached(table[..|table| - 1], graces)
  }

  /** The level `updateUserGraces` stores for a new total: that of the last
      row reached, or the current level when no row is reached. */
  function LevelFor(graces: int, current: SpiritualLevel): SpiritualLevel
  {
    var i := LastReached(SpiritualLevels, graces);
    if i == -1 then current else SpiritualLevels[i].level
  }

  /** The `for (const level in SPIRITUAL_LEVELS)` loop of `updateUserGraces`. */
  method ScanLevels(graces: int, current: SpiritualLevel) returns (newLevel: SpiritualLevel)
    ensures newLevel == LevelFor(graces, current)
  {
    newLevel := current;
    var k := 0;
    while k < |SpiritualLevels|
      invariant 0 <= k <= |SpiritualLevels|
      invariant var i := LastReached(SpiritualLevels[..k], graces);
        newLevel == if i == -1 then current else SpiritualLevels[i].level
    {
      assert SpiritualLevels[..k + 1][..k] == SpiritualLevels[..k];
      if graces >= SpiritualLevels[k].min {
        newLevel := SpiritualLevels[k].level;
      }
      k := k + 1;
    }
    assert SpiritualLevels[..k] == SpiritualLevels;
  }

  predicate MinsIncrease(table: seq<Tier>)
  {
    forall i, j :: 0 <= i < j < |table| ==> table[i].min < table[j].min
  }

  /** The minimums strictly increase down the table: Peregrino < Devoto < Servo < Apostolo. */
  lemma TableMinsIncrease()
    ensures MinsIncrease(SpiritualLevels)
    ensures SpiritualLevels[0].level == Peregrino && SpiritualLevels[1].level == Devoto
    ensures SpiritualLevels[2].level == Servo && SpiritualLevels[3].level == Apostolo
  {
  }

  /** The rows tile the non-negative totals: the first starts at 0, each row's
      `max + 1` is the next row's `min`, and the last is unbounded. */
  lemma TableContiguous()
    ensures SpiritualLevels[0].min == 0
    ensures forall i :: 0 <= i < |SpiritualLevels| - 1 ==>
      SpiritualLevels[i].max == Some(SpiritualLevels[i + 1].min - 1)
    ensures SpiritualLevels[|SpiritualLevels| - 1].max == None
  {
  }

  /** In any table with increasing minimums the rows a total reaches form a
      prefix, so the last row reached is the highest one reached. */
  lemma {:induction false} ReachedIsPrefix(table: seq<Tier>, graces: int)
    requires MinsIncrease(table)
    ensures forall j :: 0 <= j < |table| ==> (table[j].min <= graces <==> j <= LastReached(table, graces))
  {
    if table != [] && table[|table| - 1].min > graces {
      ReachedIsPrefix(table[..|table| - 1], graces);
    }
  }

  /** Every non-negative total falls inside the range of the row it selects,
      and that row's level is the one stored. */
  lemma LevelInRange(graces: int, current: SpiritualLevel)
    requires 0 <= graces
    ensures var i := LastReached(SpiritualLevels, graces);
      0 <= i && SpiritualLevels[i].min <= graces &&
      (SpiritualLevels[i].max.None? || graces <= SpiritualLevels[i].max.value) &&
      LevelFor(graces, current) == SpiritualLevels[i].level
  {
    TableContiguous();
    var i := LastReached(SpiritualLevels, graces);
    if i < |SpiritualLevels| - 1 {
      assert graces < SpiritualLevels[i + 1].min;
    }
  }

  /** The stored level is the highest row whose minimum the total reaches. */
  lemma LevelIsHighestReached(graces: int, current: SpiritualLevel)
    requires 0 <= graces
    ensures SpiritualLevels[Rank(LevelFor(graces, current))].min <= graces
    ensures forall j :: 0 <= j < |SpiritualLevels| && SpiritualLevels[j].min <= graces ==>
      j <= Rank(LevelFor(graces, current))
  {
    TableMinsIncrease();
    ReachedIsPrefix(SpiritualLevels, graces);
    LevelInRange(graces, current);
  }

  /** A larger total never selects a lower level, whatever the stored levels were. */
  lemma LevelMonotone(g1: int, g2: int, c1: SpiritualLevel, c2: SpiritualLevel)
    requires 0 <= g1 <= g2
    ensures Rank(LevelFor(g1, c1)) <= Rank(LevelFor(g2, c2))
  {
    LevelIsHighestReached(g1, c1);
    LevelIsHighestReached(g2, c2);
  }

  /** Selecting again from the selected level changes nothing. */
  lemma LevelIdempotent(graces: int, current: SpiritualLevel)
    ensures LevelFor(graces, LevelFor(graces, current)) == LevelFor(graces, current)
  {
  }

  /** A negative total reaches no row, so the stored level is kept. */
  lemma NegativeKeepsLevel(graces: int, current: SpiritualLevel)
    requires graces < 0
    ensures LevelFor(graces, current) == current
  {
  }

  /** Promotion happens exactly at a row's minimum: 50 is still Peregrino, 51 is Devoto. */
  lemma PromotionBoundary(current: SpiritualLevel)
    ensures LevelFor(50 + 0, current) == Peregrino
    ensures LevelFor(50 + 1, current) == Devoto
    ensures LevelFor(200, current) == Devoto && LevelFor(201, current) == Servo
    ensures LevelFor(500, current) == Servo && LevelFor(501, current) == Apostolo
  {
    LevelInRange(50, current);
    LevelInRange(51, current);
    LevelInRange(200, current);
    LevelInRange(201, current);
    LevelInRange(500, current);
    LevelInRange(501, current);
  }
}
