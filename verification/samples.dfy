/**
 Two concrete fleets and the verdict Create gives each: a legal one,
 accepted, and the same fleet with its last ship moved diagonally next to
 another, rejected by the neighbourhood check.
 */
module Samples {
  import opened Decks
  import opened Ships
  import opened Validation
  import opened Battleship

  /** A legal fleet: every ship horizontal, on rows 0, 2, 4 and 6, with gaps of at least one column. */
  function LegalFleet(): seq<Placement> {
    [((0, 0), (0, 3)),
     ((2, 0), (2, 2)), ((2, 4), (2, 6)),
     ((4, 0), (4, 1)), ((4, 3), (4, 4)), ((4, 6), (4, 7)),
     ((6, 0), (6, 0)), ((6, 2), (6, 2)), ((6, 4), (6, 4)), ((6, 6), (6, 6))]
  }

  /** The legal fleet with its last one-deck ship at (5, 8), diagonally next to the ship ending at (4, 7). */
  function CrowdedFleet(): seq<Placement> {
    LegalFleet()[9 := ((5, 8), (5, 8))]
  }

  /** The endpoints share a row and are in order. */
  predicate Horizontal(p: Placement) {
    p.0.0 == p.1.0 && p.0.1 <= p.1.1
  }

  /** Two horizontal placements at least two rows apart, or with at least one free column between them. */
  predicate Apart(p: Placement, q: Placement) {
    || p.0.0 + 2 <= q.0.0 || q.0.0 + 2 <= p.0.0
    || p.1.1 + 2 <= q.0.1 || q.1.1 + 2 <= p.0.1
  }

  /** No deck of a ship built from `p` touches a deck of one built from `q` when the placements are apart. */
  lemma HorizontalApart(p: Placement, q: Placement, k: int, l: int)
    requires Horizontal(p) && Horizontal(q) && Apart(p, q)
    requires 0 <= k < |NewShip(p.0, p.1, false).decks|
    requires 0 <= l < |NewShip(q.0, q.1, false).decks|
    ensures !Touching(Pos(NewShip(p.0, p.1, false).decks[k]), Pos(NewShip(q.0, q.1, false).decks[l]))
  {
    var c := Pos(NewShip(p.0, p.1, false).decks[k]);
    var d := Pos(NewShip(q.0, q.1, false).decks[l]);
    assert c == (p.0.0, p.0.1 + k) && k <= p.1.1 - p.0.1;
    assert d == (q.0.0, q.0.1 + l) && l <= q.1.1 - q.0.1;
  }

  /** The ship lengths of the legal fleet, in placement order. */
  const LegalLengths: seq<int> := [4, 3, 3, 2, 2, 2, 1, 1, 1, 1]

  /** Every placement of the legal fleet is horizontal and spans the length listed for it. */
  lemma LegalFleetShape(i: int)
    requires 0 <= i < |LegalFleet()|
    ensures Horizontal(LegalFleet()[i])
    ensures LegalFleet()[i].1.1 - LegalFleet()[i].0.1 + 1 == LegalLengths[i]
  {
  }

  /** Any two placements of the legal fleet are apart. */
  lemma LegalFleetApart(i: int, j: int)
    requires 0 <= i < |LegalFleet()| && 0 <= j < |LegalFleet()| && i != j
    ensures Apart(LegalFleet()[i], LegalFleet()[j])
  {
  }

  /** A horizontal ship has one deck per column of its range. */
  lemma HorizontalLength(p: Placement)
    requires Horizontal(p)
    ensures |NewShip(p.0, p.1, false).decks| == p.1.1 - p.0.1 + 1
  {
  }

  /** The listed lengths form the required fleet. */
  lemma LegalLengthsFleet()
    ensures multiset(LegalLengths) == FleetLengths
  {
  }

  /** Ships built from horizontal placements spanning the listed lengths have those lengths. */
  lemma HorizontalLengths(fleet: seq<Placement>)
    requires |fleet| == |LegalLengths|
    requires forall i :: 0 <= i < |fleet| ==> Horizontal(fleet[i]) && fleet[i].1.1 - fleet[i].0.1 + 1 == LegalLengths[i]
    ensures multiset(Lengths(BuildShips(fleet))) == FleetLengths
  {
    var ls := Lengths(BuildShips(fleet));
    forall i | 0 <= i < |ls|
      ensures ls[i] == LegalLengths[i]
    {
      HorizontalLength(fleet[i]);
    }
    assert ls == LegalLengths;
    LegalLengthsFleet();
  }

  /** The legal fleet's ships have the required composition. */
  lemma LegalFleetLengths()
    ensures multiset(Lengths(BuildShips(LegalFleet()))) == FleetLengths
  {
    forall i | 0 <= i < |LegalFleet()|
      ensures Horizontal(LegalFleet()[i]) && LegalFleet()[i].1.1 - LegalFleet()[i].0.1 + 1 == LegalLengths[i]
    {
      LegalFleetShape(i);
    }
    HorizontalLengths(LegalFleet());
  }

  /** The legal fleet is accepted. */
  lemma LegalFleetAccepted()
    ensures Create(LegalFleet()).Ok?
  {
    var fleet := LegalFleet();
    var ships := BuildShips(fleet);
    LegalFleetLengths();
    forall i, j, k, l |
      && 0 <= i < |ships| && 0 <= j < |ships| && i != j
      && 0 <= k < |ships[i].decks| && 0 <= l < |ships[j].decks|
      ensures !Touching(Pos(ships[i].decks[k]), Pos(ships[j].decks[l]))
    {
      LegalFleetShape(i);
      LegalFleetShape(j);
      LegalFleetApart(i, j);
      HorizontalApart(fleet[i], fleet[j], k, l);
    }
  }

  /** The crowded fleet keeps the legal fleet's composition. */
  lemma CrowdedFleetLengths()
    ensures multiset(Lengths(BuildShips(CrowdedFleet()))) == FleetLengths
  {
    var fleet := CrowdedFleet();
    forall i | 0 <= i < |fleet|
      ensures Horizontal(fleet[i]) && fleet[i].1.1 - fleet[i].0.1 + 1 == LegalLengths[i]
    {
      if i < 9 {
        LegalFleetShape(i);
      }
    }
    HorizontalLengths(fleet);
  }

  /** In the crowded fleet the ship ending at (4, 7) and the one at (5, 8) touch diagonally. */
  lemma CrowdedFleetTouching()
    ensures !Separated(BuildShips(CrowdedFleet()))
  {
    var ships := BuildShips(CrowdedFleet());
    assert ships[5].decks[1] == Deck(4, 7, true);
    assert ships[9].decks[0] == Deck(5, 8, true);
    assert Touching(Pos(ships[5].decks[1]), Pos(ships[9].decks[0]));
  }

  /** Moving the last ship next to another keeps the composition but is rejected as adjacent. */
  lemma CrowdedFleetRejected()
    ensures Create(CrowdedFleet()) == Err(AdjacentShips)
  {
    CrowdedFleetLengths();
    CrowdedFleetTouching();
  }
}
