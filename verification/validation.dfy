/**
 The three checks a new board must pass, in the order the program runs them:
 the number of ships, the fleet's composition by ship length, and that no
 two ships touch, diagonals included.
 */
module Validation {
  import opened Decks
  import opened Ships
  import opened Field

  /** Why a board was rejected. */
  datatype Error = WrongShipCount | WrongFleetComposition | AdjacentShips

  /** The verdict of the checks: the first failing one wins. */
  datatype Check = Pass | Fail(error: Error)

  const ShipCount := 10

  /** The required number of ships for each length 1 to 4. */
  const Expected: map<int, int> := map[1 := 4, 2 := 3, 3 := 2, 4 := 1]

  /** The required fleet, as the multiset of its ships' lengths. */
  const FleetLengths: multiset<int> := multiset{1, 1, 1, 1, 2, 2, 2, 3, 3, 4}

  /** The deck count of each ship, in fleet order. */
  function Lengths(ships: seq<Ship>): (ls: seq<int>)
    ensures |ls| == |ships|
    ensures forall i :: 0 <= i < |ships| ==> ls[i] == |ships[i].decks|
  {
    seq(|ships|, i requires 0 <= i < |ships| => |ships[i].decks|)
  }

  /** Adding a ship appends its length. */
  lemma LengthsStep(ships: seq<Ship>)
    requires ships != []
    ensures multiset(Lengths(ships)) == multiset(Lengths(ships[..|ships| - 1])) + multiset{|ships[|ships| - 1].decks|}
  {
    var n := |ships| - 1;
    assert Lengths(ships) == Lengths(ships[..n]) + [|ships[n].decks|];
  }

  /** Sum of a sequence. */
  function Sum(ls: seq<int>): int
    decreases |ls|
  {
    if ls == [] then 0 else Sum(ls[..|ls| - 1]) + ls[|ls| - 1]
  }

  /**
   The per-length counter: starts at zero for lengths 1 to 4 and counts each
   ship whose length is one of them; ships of other lengths are not counted.
   */
  function Tally(ships: seq<Ship>): (t: map<int, int>)
    ensures t.Keys == {1, 2, 3, 4}
    ensures forall n :: n in t ==> t[n] == multiset(Lengths(ships))[n]
    decreases |ships|
  {
    if ships == [] then map[1 := 0, 2 := 0, 3 := 0, 4 := 0]
    else
      var t := Tally(ships[..|ships| - 1]);
      var n := |ships[|ships| - 1].decks|;
      LengthsStep(ships);
      if n in t then t[n := t[n] + 1] else t
  }

  /** How many elements of `m` lie in 1..4, counted with multiplicity. */
  function InRange(m: multiset<int>): int {
    m[1] + m[2] + m[3] + m[4]
  }

  /** At most all entries lie in 1..4, and if all of them are counted then each one does. */
  lemma {:induction false} InRangeCount(ls: seq<int>)
    ensures InRange(multiset(ls)) <= |ls|
    ensures InRange(multiset(ls)) == |ls| ==> forall i :: 0 <= i < |ls| ==> 1 <= ls[i] <= 4
    decreases |ls|
  {
    if ls != [] {
      var n := |ls| - 1;
      var prefix := ls[..n];
      assert ls == prefix + [ls[n]];
      assert multiset(ls) == multiset(prefix) + multiset{ls[n]};
      InRangeCount(prefix);
      if InRange(multiset(ls)) == |ls| {
        assert 1 <= ls[n] <= 4;
        forall i | 0 <= i < n
          ensures 1 <= ls[i] <= 4
        {
          assert prefix[i] == ls[i];
        }
      }
    }
  }

  /** With every length in 1..4, the total is the count of each length times that length. */
  lemma {:induction false} WeightedSum(ls: seq<int>)
    requires forall i :: 0 <= i < |ls| ==> 1 <= ls[i] <= 4
    ensures var m := multiset(ls); Sum(ls) == m[1] + 2 * m[2] + 3 * m[3] + 4 * m[4]
    decreases |ls|
  {
    if ls != [] {
      var n := |ls| - 1;
      var prefix := ls[..n];
      assert ls == prefix + [ls[n]];
      assert multiset(ls) == multiset(prefix) + multiset{ls[n]};
      WeightedSum(prefix);
    }
  }

  /** Ten lengths with four 1s, three 2s, two 3s and one 4 are exactly the required fleet. */
  lemma CountsMakeFleet(ls: seq<int>)
    requires |ls| == ShipCount
    requires var m := multiset(ls); m[1] == 4 && m[2] == 3 && m[3] == 2 && m[4] == 1
    ensures multiset(ls) == FleetLengths
  {
    var m := multiset(ls);
    InRangeCount(ls);
    forall x
      ensures m[x] == FleetLengths[x]
    {
      if x < 1 || 4 < x {
        assert x !in ls;
      }
    }
  }

  /** A tally equal to the expected one over ten ships means the required fleet. */
  lemma TallyToFleet(ships: seq<Ship>)
    requires |ships| == ShipCount && Tally(ships) == Expected
    ensures multiset(Lengths(ships)) == FleetLengths
  {
    var t := Tally(ships);
    assert t[1] == 4 && t[2] == 3 && t[3] == 2 && t[4] == 1;
    CountsMakeFleet(Lengths(ships));
  }

  /** The counts the required fleet holds for each length. */
  lemma FleetCounts()
    ensures |FleetLengths| == ShipCount
    ensures forall n :: n in Expected ==> FleetLengths[n] == Expected[n]
  {
  }

  /** A counter over lengths 1..4 holding the required counts is the expected one. */
  lemma ExpectedCounter(t: map<int, int>)
    requires t.Keys == {1, 2, 3, 4}
    requires t[1] == 4 && t[2] == 3 && t[3] == 2 && t[4] == 1
    ensures t == Expected
  {
  }

  /** The required fleet has ten ships and tallies to the expected counts. */
  lemma FleetToTally(ships: seq<Ship>)
    requires multiset(Lengths(ships)) == FleetLengths
    ensures |ships| == ShipCount && Tally(ships) == Expected
  {
    var t := Tally(ships);
    FleetCounts();
    assert t[1] == 4 && t[2] == 3 && t[3] == 2 && t[4] == 1;
    ExpectedCounter(t);
  }

  /**
   The count and composition checks together pass exactly when the ships'
   lengths, as a multiset, are the required fleet.
   */
  lemma CompositionIff(ships: seq<Ship>)
    ensures |ships| == ShipCount && Tally(ships) == Expected <==> multiset(Lengths(ships)) == FleetLengths
  {
    if |ships| == ShipCount && Tally(ships) == Expected {
      TallyToFleet(ships);
    }
    if multiset(Lengths(ships)) == FleetLengths {
      FleetToTally(ships);
    }
  }

  /** Lengths forming the required fleet: ten of them, each 1..4, totalling twenty. */
  lemma FleetSequence(ls: seq<int>)
    requires multiset(ls) == FleetLengths
    ensures |ls| == ShipCount
    ensures forall i :: 0 <= i < |ls| ==> 1 <= ls[i] <= 4
    ensures Sum(ls) == 20
  {
    FleetCounts();
    var m := multiset(ls);
    assert m[1] == 4 && m[2] == 3 && m[3] == 2 && m[4] == 1;
    InRangeCount(ls);
    WeightedSum(ls);
  }

  /** Every ship has one to four decks. */
  predicate SizesInRange(ships: seq<Ship>) {
    forall i :: 0 <= i < |ships| ==> 1 <= |ships[i].decks| <= 4
  }

  /**
   A fleet of the required composition has ten ships, each of one to four
   decks, with twenty decks in all; in particular it has no deckless ship.
   */
  lemma FleetShape(ships: seq<Ship>)
    requires multiset(Lengths(ships)) == FleetLengths
    ensures |ships| == ShipCount
    ensures SizesInRange(ships)
    ensures Sum(Lengths(ships)) == 20
  {
    assert Sum(Lengths(ships)) == 20 by {
      FleetSequence(Lengths(ships));
    }
    assert SizesInRange(ships) by {
      FleetSequence(Lengths(ships));
      SizesFromLengths(ships);
    }
    assert |ships| == ShipCount by {
      FleetSequence(Lengths(ships));
    }
  }

  /** Ship sizes are in range when the lengths are. */
  lemma SizesFromLengths(ships: seq<Ship>)
    requires forall i :: 0 <= i < |Lengths(ships)| ==> 1 <= Lengths(ships)[i] <= 4
    ensures SizesInRange(ships)
  {
    var ls := Lengths(ships);
    forall i | 0 <= i < |ships|
      ensures 1 <= |ships[i].decks| <= 4
    {
      assert ls[i] == |ships[i].decks|;
    }
  }

  /** The cell `(dr, dc)` away from `c`. */
  function Shift(c: Coord, dr: int, dc: int): Coord {
    (c.0 + dr, c.1 + dc)
  }

  /** The cells are equal or 8-adjacent: each lies in the other's 3x3 block. */
  predicate Touching(a: Coord, b: Coord) {
    -1 <= a.0 - b.0 <= 1 && -1 <= a.1 - b.1 <= 1
  }

  /** Every cell of the 3x3 block around `c` is either unindexed or indexed to ship `i`. */
  predicate BlockClear(field: map<Coord, nat>, i: int, c: Coord) {
    forall dr, dc | -1 <= dr <= 1 && -1 <= dc <= 1 ::
      Shift(c, dr, dc) in field ==> field[Shift(c, dr, dc)] == i
  }

  /** The 3x3 block test is the same as: every indexed cell touching `c` is indexed to ship `i`. */
  lemma BlockClearTouching(field: map<Coord, nat>, i: int, c: Coord)
    ensures BlockClear(field, i, c) <==> forall d :: Touching(c, d) && d in field ==> field[d] == i
  {
    if BlockClear(field, i, c) {
      forall d | Touching(c, d) && d in field
        ensures field[d] == i
      {
        assert Shift(c, d.0 - c.0, d.1 - c.1) == d;
      }
    }
    if forall d :: Touching(c, d) && d in field ==> field[d] == i {
      forall dr, dc | -1 <= dr <= 1 && -1 <= dc <= 1 && Shift(c, dr, dc) in field
        ensures field[Shift(c, dr, dc)] == i
      {
        assert Touching(c, Shift(c, dr, dc));
      }
    }
  }

  /** The neighbourhood check, run over every deck of every ship against the index. */
  predicate NeighboursClear(ships: seq<Ship>, field: map<Coord, nat>) {
    forall i, k | 0 <= i < |ships| && 0 <= k < |ships[i].decks| :: BlockClear(field, i, Pos(ships[i].decks[k]))
  }

  /** No deck of one ship touches a deck of a different ship (so no two ships overlap either). */
  predicate Separated(ships: seq<Ship>) {
    forall i, j, k, l |
      && 0 <= i < |ships| && 0 <= j < |ships| && i != j
      && 0 <= k < |ships[i].decks| && 0 <= l < |ships[j].decks|
      :: !Touching(Pos(ships[i].decks[k]), Pos(ships[j].decks[l]))
  }

  /** A separated fleet passes the neighbourhood check against its own index. */
  lemma SeparatedIsClear(ships: seq<Ship>)
    requires Separated(ships)
    ensures NeighboursClear(ships, FieldOf(ships))
  {
    var field := FieldOf(ships);
    forall i, k | 0 <= i < |ships| && 0 <= k < |ships[i].decks|
      ensures BlockClear(field, i, Pos(ships[i].decks[k]))
    {
      var c := Pos(ships[i].decks[k]);
      forall dr, dc | -1 <= dr <= 1 && -1 <= dc <= 1 && Shift(c, dr, dc) in field
        ensures field[Shift(c, dr, dc)] == i
      {
        var nb := Shift(c, dr, dc);
        FieldOfAt(ships, nb);
        var j := field[nb];
        var l :| 0 <= l < |ships[j].decks| && Pos(ships[j].decks[l]) == nb;
        assert Touching(c, nb);
      }
    }
  }

  /** A clear block's own cell, when indexed, belongs to the block's ship. */
  lemma BlockCentre(field: map<Coord, nat>, i: int, c: Coord)
    requires BlockClear(field, i, c) && c in field
    ensures field[c] == i
  {
    assert Shift(c, 0, 0) == c;
  }

  /** A clear block around `a` touches no cell indexed to a ship other than its own. */
  lemma BlockExcludes(field: map<Coord, nat>, i: int, a: Coord, b: Coord)
    requires BlockClear(field, i, a)
    requires b in field && field[b] != i
    ensures !Touching(a, b)
  {
    assert Shift(a, b.0 - a.0, b.1 - a.1) == b;
  }

  /** Under the neighbourhood check, deck `k` of ship `i` and deck `l` of a different ship `j` do not touch. */
  lemma ClearPairApart(ships: seq<Ship>, i: int, j: int, k: int, l: int)
    requires NeighboursClear(ships, FieldOf(ships))
    requires 0 <= i < |ships| && 0 <= j < |ships| && i != j
    requires 0 <= k < |ships[i].decks| && 0 <= l < |ships[j].decks|
    ensures !Touching(Pos(ships[i].decks[k]), Pos(ships[j].decks[l]))
  {
    var field := FieldOf(ships);
    var a := Pos(ships[i].decks[k]);
    var b := Pos(ships[j].decks[l]);
    assert b in Cells(ships[j]);
    FieldOfAt(ships, b);
    BlockCentre(field, j, b);
    BlockExcludes(field, i, a, b);
  }

  /** A fleet that passes the neighbourhood check against its own index is separated. */
  lemma ClearIsSeparated(ships: seq<Ship>)
    requires NeighboursClear(ships, FieldOf(ships))
    ensures Separated(ships)
  {
    forall i, j, k, l |
      && 0 <= i < |ships| && 0 <= j < |ships| && i != j
      && 0 <= k < |ships[i].decks| && 0 <= l < |ships[j].decks|
      ensures !Touching(Pos(ships[i].decks[k]), Pos(ships[j].decks[l]))
    {
      ClearPairApart(ships, i, j, k, l);
    }
  }

  /**
   Run against the index built from the fleet, the neighbourhood check passes
   exactly when no two different ships touch.
   */
  lemma ClearIffSeparated(ships: seq<Ship>)
    ensures NeighboursClear(ships, FieldOf(ships)) <==> Separated(ships)
  {
    if Separated(ships) {
      SeparatedIsClear(ships);
    }
    if NeighboursClear(ships, FieldOf(ships)) {
      ClearIsSeparated(ships);
    }
  }

  /** Placing one more ship adds its cells to the index's keys. */
  lemma FieldKeysStep(ships: seq<Ship>)
    requires ships != []
    ensures FieldOf(ships).Keys == FieldOf(ships[..|ships| - 1]).Keys + Cells(ships[|ships| - 1])
  {
    forall c {
      FieldOfStep(ships, c);
    }
  }

  /** In a separated fleet the last ship's cells are not yet indexed before it is placed. */
  lemma LastShipFresh(ships: seq<Ship>)
    requires ships != [] && Separated(ships)
    ensures FieldOf(ships[..|ships| - 1]).Keys !! Cells(ships[|ships| - 1])
  {
    var n := |ships| - 1;
    var prefix := ships[..n];
    forall c | c in Cells(ships[n])
      ensures c !in FieldOf(prefix)
    {
      FieldOfAt(prefix, c);
      var l :| 0 <= l < |ships[n].decks| && Pos(ships[n].decks[l]) == c;
      forall i | 0 <= i < n
        ensures c !in Cells(prefix[i])
      {
        assert prefix[i] == ships[i];
        forall k | 0 <= k < |ships[i].decks|
          ensures Pos(ships[i].decks[k]) != c
        {
          assert !Touching(Pos(ships[i].decks[k]), Pos(ships[n].decks[l]));
        }
      }
    }
  }

  /** The deck total grows by the last ship's length. */
  lemma SumLengthsStep(ships: seq<Ship>)
    requires ships != []
    ensures Sum(Lengths(ships)) == Sum(Lengths(ships[..|ships| - 1])) + |ships[|ships| - 1].decks|
  {
    var n := |ships| - 1;
    var ls := Lengths(ships);
    assert ls[..n] == Lengths(ships[..n]);
  }

  /**
   Cells of a separated fleet are disjoint between ships, so with no ship
   covering a cell twice the index has one key per deck.
   */
  lemma {:induction false} FieldSize(ships: seq<Ship>)
    requires Separated(ships)
    requires forall i :: 0 <= i < |ships| ==> DistinctCells(ships[i].decks)
    ensures |FieldOf(ships)| == Sum(Lengths(ships))
    decreases |ships|
  {
    if ships != [] {
      var n := |ships| - 1;
      var prefix := ships[..n];
      SeparatedPrefix(ships, n);
      assert forall i :: 0 <= i < n ==> DistinctCells(prefix[i].decks) by {
        assert forall i :: 0 <= i < n ==> prefix[i] == ships[i];
      }
      FieldSize(prefix);
      FieldKeysStep(ships);
      LastShipFresh(ships);
      CellsOfSize(ships[n].decks);
      SumLengthsStep(ships);
      DisjointUnionSize(FieldOf(prefix).Keys, Cells(ships[n]));
    }
  }

  /** A prefix of a separated fleet is separated. */
  lemma SeparatedPrefix(ships: seq<Ship>, n: int)
    requires Separated(ships) && 0 <= n <= |ships|
    ensures Separated(ships[..n])
  {
    var prefix := ships[..n];
    assert forall i :: 0 <= i < n ==> prefix[i] == ships[i];
  }

  /** Disjoint sets: the size of the union is the sum of the sizes. */
  lemma DisjointUnionSize(a: set<Coord>, b: set<Coord>)
    requires a !! b
    ensures |a + b| == |a| + |b|
  {
    assert a * b == {};
  }

  /**
   The board checks in order: exactly ten ships, then the required number of
   ships of each length, then no ship next to another. The first failure is
   reported.
   */
  function Validate(ships: seq<Ship>, field: map<Coord, nat>): (r: Check)
    ensures r == Fail(WrongShipCount) <==> |ships| != ShipCount
    ensures r == Fail(WrongFleetComposition) <==> |ships| == ShipCount && multiset(Lengths(ships)) != FleetLengths
    ensures r == Pass <==> multiset(Lengths(ships)) == FleetLengths && NeighboursClear(ships, field)
    ensures field == FieldOf(ships) ==> (r == Pass <==> multiset(Lengths(ships)) == FleetLengths && Separated(ships))
  {
    CompositionIff(ships);
    ClearIffSeparated(ships);
    if |ships| != ShipCount then Fail(WrongShipCount)
    else if Tally(ships) != Expected then Fail(WrongFleetComposition)
    else if !NeighboursClear(ships, field) then Fail(AdjacentShips)
    else Pass
  }
}
