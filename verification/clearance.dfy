/** The closed set of security clearance levels and their ranks. */
module Clearances {
  import opened JavaTypes

  /** The four levels, in declaration order. */
  datatype Clearance = Level1A | Level1B | Level2 | Level3

  /** Every level, in declaration order. */
  const Levels: seq<Clearance> := [Level1A, Level1B, Level2, Level3]

  /** The rank fixed for each level when the enum is initialised
      (`getHierarchy`). */
  function Rank(c: Clearance): (r: int)
    ensures 1 <= r <= |Levels|
    ensures Levels[r - 1] == c
  {
    match c
    case Level1A => 1
    case Level1B => 2
    case Level2 => 3
    case Level3 => 4
  }

  /** The level that has a given rank, if any. */
  function FromRank(r: int): (c: Option<Clearance>)
    ensures c.Some? <==> 1 <= r <= |Levels|
    ensures c.Some? ==> Rank(c.value) == r
  {
    if 1 <= r <= |Levels| then Some(Levels[r - 1]) else None
  }

  /** The enum constant's name, as Java prints an enum value. */
  function Name(c: Clearance): (r: JString)
    ensures |r| >= 7 && r[..6] == Lit("LEVEL_")
  {
    match c
    case Level1A => Lit("LEVEL_1A")
    case Level1B => Lit("LEVEL_1B")
    case Level2 => Lit("LEVEL_2")
    case Level3 => Lit("LEVEL_3")
  }

  /** There are exactly four levels, each listed once. */
  lemma ExactlyFourLevels(c: Clearance)
    ensures c in Levels
    ensures |Levels| == 4
    ensures forall i, j :: 0 <= i < j < |Levels| ==> Levels[i] != Levels[j]
  {
  }

  /** Rank grows strictly along declaration order, and the ranks are 1..4. */
  lemma RankFollowsDeclarationOrder()
    ensures forall i :: 0 <= i < |Levels| ==> Rank(Levels[i]) == i + 1
    ensures forall i, j :: 0 <= i < j < |Levels| ==> Rank(Levels[i]) < Rank(Levels[j])
  {
  }

  /** Distinct levels have distinct ranks, so a rank identifies its level. */
  lemma RankInjective(c: Clearance, d: Clearance)
    requires c != d
    ensures Rank(c) != Rank(d)
  {
  }
}
