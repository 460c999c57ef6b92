/**
 The board: the fleet, built from endpoint pairs and validated once, plus the
 coordinate index used to route shots to the ship that owns the cell.
 */
module Battleship {
  import opened Decks
  import opened Ships
  import opened Field
  import opened Validation

  /** A ship as the caller places it: its start and end coordinates. */
  type Placement = (Coord, Coord)

  /**
   The fleet in placement order and the index from occupied cell to owning
   ship, a ship being named by its position in `ships`.
   */
  datatype Board = Board(ships: seq<Ship>, field: map<Coord, nat>)

  /** A board, or the reason it was rejected. */
  datatype Result<T> = Ok(value: T) | Err(error: Error)

  /** The ships built from the placements, in order, none of them sunk. */
  function BuildShips(placements: seq<Placement>): (ships: seq<Ship>)
    ensures |ships| == |placements|
    ensures forall i :: 0 <= i < |placements| ==> ships[i] == NewShip(placements[i].0, placements[i].1, false)
  {
    seq(|placements|, i requires 0 <= i < |placements| => NewShip(placements[i].0, placements[i].1, false))
  }

  /** The index is the one the fleet's cells determine. */
  predicate Indexed(b: Board) {
    b.field == FieldOf(b.ships)
  }

  /**
   Builds the ships and the index, then validates. A board is returned only
   when there are ten ships of the required lengths and no two touch;
   otherwise the first failing check names the error.
   */
  function Create(placements: seq<Placement>): (r: Result<Board>)
    ensures r == Err(WrongShipCount) <==> |placements| != ShipCount
    ensures r == Err(WrongFleetComposition) <==>
      |placements| == ShipCount && multiset(Lengths(BuildShips(placements))) != FleetLengths
    ensures r.Ok? <==>
      multiset(Lengths(BuildShips(placements))) == FleetLengths && Separated(BuildShips(placements))
    ensures r.Ok? ==> r.value.ships == BuildShips(placements) && Indexed(r.value)
    ensures r.Ok? ==> OwnersInRange(r.value)
  {
    var ships := BuildShips(placements);
    var field := FieldOf(ships);
    match Validate(ships, field)
    case Pass => Ok(Board(ships, field))
    case Fail(e) => Err(e)
  }

  /** Each built ship lies exactly on its placement's segment, without repeating a cell, with every deck alive. */
  lemma BuiltStraight(placements: seq<Placement>, i: int)
    requires 0 <= i < |placements|
    ensures var s := BuildShips(placements)[i];
      && DistinctCells(s.decks)
      && AllAlive(s.decks)
      && forall c :: c in Cells(s) <==> OnSegment(placements[i].0, placements[i].1, c)
  {
    NewShipCells(placements[i].0, placements[i].1, false);
  }

  /** In a fleet of the required composition with no two ships touching, the index has twenty cells. */
  lemma FleetFieldSize(ships: seq<Ship>)
    requires multiset(Lengths(ships)) == FleetLengths && Separated(ships)
    requires forall i :: 0 <= i < |ships| ==> DistinctCells(ships[i].decks)
    ensures |FieldOf(ships)| == 20
  {
    FleetShape(ships);
    FieldSize(ships);
  }

  /** Ship `i` covers exactly the segment between the endpoints of placement `i`, and none of its decks is shot. */
  ghost predicate LaidOut(ships: seq<Ship>, placements: seq<Placement>) {
    && |ships| == |placements|
    && forall i :: 0 <= i < |ships| ==>
      && AllAlive(ships[i].decks)
      && forall c :: c in Cells(ships[i]) <==> OnSegment(placements[i].0, placements[i].1, c)
  }

  /** Every built ship lies on its placement's segment with all decks alive and no cell repeated. */
  lemma {:induction false} BuiltFleetStraight(placements: seq<Placement>)
    ensures var ships := BuildShips(placements);
      && (forall i :: 0 <= i < |ships| ==> DistinctCells(ships[i].decks))
      && LaidOut(ships, placements)
  {
    var ships := BuildShips(placements);
    forall i | 0 <= i < |ships|
      ensures DistinctCells(ships[i].decks)
      ensures AllAlive(ships[i].decks)
      ensures forall c :: c in Cells(ships[i]) <==> OnSegment(placements[i].0, placements[i].1, c)
    {
      BuiltStraight(placements, i);
    }
  }

  /**
   An accepted board has ten ships of one to four decks each, straight and
   alive, twenty decks in all on twenty distinct cells, and no two ships
   touching.
   */
  lemma {:induction false} AcceptedBoard(placements: seq<Placement>)
    requires Create(placements).Ok?
    ensures var b := Create(placements).value;
      && |b.ships| == ShipCount
      && SizesInRange(b.ships)
      && Sum(Lengths(b.ships)) == 20
      && |b.field| == 20
      && Separated(b.ships)
      && LaidOut(b.ships, placements)
  {
    var ships := BuildShips(placements);
    FleetShape(ships);
    BuiltFleetStraight(placements);
    FleetFieldSize(ships);
  }

  /** Every index entry names a ship of the fleet. */
  predicate OwnersInRange(b: Board) {
    forall c :: c in b.field ==> b.field[c] < |b.ships|
  }

  /** A board whose index is the one its fleet determines can be fired at: every entry names a ship. */
  lemma IndexedOwners(b: Board)
    requires Indexed(b)
    ensures OwnersInRange(b)
  {
  }

  /**
   Fires at `location`. An unindexed cell is a miss that changes nothing;
   an indexed one is handed to the ship the index names, and that ship's
   outcome is reported.
   */
  function Fire(b: Board, location: Coord): (r: (Shot, Board))
    requires OwnersInRange(b)
    ensures r.1.field == b.field && |r.1.ships| == |b.ships|
    ensures location !in b.field ==> r == (Miss, b)
    ensures location in b.field ==>
      var i := b.field[location];
      (r.0, r.1.ships[i]) == Ships.Fire(b.ships[i], location.0, location.1)
    ensures forall j :: 0 <= j < |b.ships| && (location !in b.field || j != b.field[location]) ==>
      r.1.ships[j] == b.ships[j]
    ensures r.0 == Miss ==> r.1 == b
    ensures Indexed(b) ==> (r.0 == Miss <==> location !in b.field)
  {
    if location in b.field then
      var i := b.field[location];
      var (shot, ship) := Ships.Fire(b.ships[i], location.0, location.1);
      FieldOfAt(b.ships, location);
      (shot, b.(ships := b.ships[i := ship]))
    else
      (Miss, b)
  }

  /** A shot never moves a ship, so the index stays the one the fleet determines. */
  lemma FireKeepsIndex(b: Board, location: Coord)
    requires OwnersInRange(b)
    ensures Indexed(b) ==> Indexed(Fire(b, location).1)
  {
    var b' := Fire(b, location).1;
    if location in b.field {
      var i := b.field[location];
      FireKeepsCells(b.ships[i], location.0, location.1);
    }
    assert forall j :: 0 <= j < |b.ships| ==> Cells(b'.ships[j]) == Cells(b.ships[j]);
    FieldOfSameCells(b'.ships, b.ships);
  }

  /** Firing at the same location twice: the second shot repeats the outcome and changes nothing. */
  lemma FireTwiceOnBoard(b: Board, location: Coord)
    requires OwnersInRange(b)
    ensures var (shot, b') := Fire(b, location);
      OwnersInRange(b') && Fire(b', location) == (shot, b')
  {
    var (shot, b') := Fire(b, location);
    if location in b.field {
      var i := b.field[location];
      FireTwice(b.ships[i], location.0, location.1);
      assert b'.ships[i := b'.ships[i]] == b'.ships;
    }
  }

  /** Every ship's sunk flag agrees with its decks. */
  predicate FleetConsistent(b: Board) {
    forall i :: 0 <= i < |b.ships| ==> SinkConsistent(b.ships[i])
  }

  /** Every ship of an accepted board is sunk exactly when all its decks are dead: none is sunk and every deck is alive. */
  lemma CreatedConsistent(placements: seq<Placement>)
    requires Create(placements).Ok?
    ensures FleetConsistent(Create(placements).value)
  {
    var ships := Create(placements).value.ships;
    forall i | 0 <= i < |ships|
      ensures SinkConsistent(ships[i])
    {
      NewShipConsistent(placements[i].0, placements[i].1);
    }
  }

  /** A shot keeps every ship sunk exactly when all its decks are dead. */
  lemma FireKeepsFleetConsistent(b: Board, location: Coord)
    requires OwnersInRange(b)
    requires FleetConsistent(b)
    ensures FleetConsistent(Fire(b, location).1)
  {
    if location in b.field {
      var i := b.field[location];
      FireKeepsConsistent(b.ships[i], location.0, location.1);
    }
  }

  /** `ships'` lays its decks out like `ships`: as many ships, as many decks each, every deck on the same cell. */
  predicate SameLayout(ships: seq<Ship>, ships': seq<Ship>) {
    && |ships'| == |ships|
    && (forall i :: 0 <= i < |ships| ==> |ships'[i].decks| == |ships[i].decks|)
    && (forall i, k :: 0 <= i < |ships| && 0 <= k < |ships[i].decks| ==>
          Pos(ships'[i].decks[k]) == Pos(ships[i].decks[k]))
  }

  /** A shot moves no deck: it only changes liveness and sunk flags. */
  lemma FireKeepsLayout(b: Board, location: Coord)
    requires OwnersInRange(b)
    ensures SameLayout(b.ships, Fire(b, location).1.ships)
  {
    var b' := Fire(b, location).1;
    forall i | 0 <= i < |b.ships|
      ensures |b'.ships[i].decks| == |b.ships[i].decks|
      ensures forall k :: 0 <= k < |b.ships[i].decks| ==> Pos(b'.ships[i].decks[k]) == Pos(b.ships[i].decks[k])
    {
    }
  }

  /** Two fleets with the same layout are separated alike, and their ships repeat no cell alike. */
  lemma SameLayoutKeeps(ships: seq<Ship>, ships': seq<Ship>)
    requires SameLayout(ships, ships')
    ensures Separated(ships) ==> Separated(ships')
    ensures (forall i :: 0 <= i < |ships| ==> DistinctCells(ships[i].decks)) ==>
      forall i :: 0 <= i < |ships'| ==> DistinctCells(ships'[i].decks)
  {
  }
}
