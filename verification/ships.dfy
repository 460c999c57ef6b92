/**
 A ship: a straight run of decks built from two endpoints, which resolves
 shots against its own decks and records when it has sunk.
 */
module Ships {
  import opened Decks

  datatype Option<T> = None | Some(value: T)

  /** A ship's decks in construction order and whether it has been sunk. */
  datatype Ship = Ship(decks: seq<Deck>, isDrowned: bool)

  /** The outcome of a shot. */
  datatype Shot = Miss | Hit | Sunk {
    /** The string the program reports for this outcome. */
    function Text(): (t: string)
      ensures t in {"Miss!", "Hit!", "Sunk!"}
    {
      match this
      case Miss => "Miss!"
      case Hit => "Hit!"
      case Sunk => "Sunk!"
    }
  }

  /** Different outcomes are reported with different strings, so the string names the outcome. */
  lemma TextNamesShot(a: Shot, b: Shot)
    ensures a.Text() == b.Text() <==> a == b
  {
  }

  /** The cells a ship occupies. */
  function Cells(s: Ship): set<Coord> {
    CellsOf(s.decks)
  }

  /** The number of integers in the inclusive range `lo..hi` (empty when `hi < lo`). */
  function Span(lo: int, hi: int): nat {
    if lo <= hi then hi - lo + 1 else 0
  }

  /** Live decks `(row, c)` for each column `c` from `lo` to `hi` inclusive. */
  function RowRun(row: int, lo: int, hi: int): (decks: seq<Deck>)
    ensures |decks| == Span(lo, hi)
    ensures forall k :: 0 <= k < |decks| ==> decks[k] == Deck(row, lo + k, true)
    decreases hi - lo
  {
    if hi < lo then [] else [Deck(row, lo, true)] + RowRun(row, lo + 1, hi)
  }

  /** Live decks `(r, column)` for each row `r` from `lo` to `hi` inclusive. */
  function ColumnRun(column: int, lo: int, hi: int): (decks: seq<Deck>)
    ensures |decks| == Span(lo, hi)
    ensures forall k :: 0 <= k < |decks| ==> decks[k] == Deck(lo + k, column, true)
    decreases hi - lo
  {
    if hi < lo then [] else [Deck(lo, column, true)] + ColumnRun(column, lo + 1, hi)
  }

  /**
   Builds a ship from its endpoints. Equal rows give a horizontal run over the
   columns, otherwise equal columns give a vertical run over the rows; endpoints
   that share neither give a ship without decks. A run whose end precedes its
   start is empty too.
   */
  function NewShip(start: Coord, end: Coord, isDrowned: bool): (s: Ship)
    ensures s.isDrowned == isDrowned
    ensures start.0 == end.0 ==>
      && |s.decks| == Span(start.1, end.1)
      && forall k :: 0 <= k < |s.decks| ==> s.decks[k] == Deck(start.0, start.1 + k, true)
    ensures start.0 != end.0 && start.1 == end.1 ==>
      && |s.decks| == Span(start.0, end.0)
      && forall k :: 0 <= k < |s.decks| ==> s.decks[k] == Deck(start.0 + k, start.1, true)
    ensures start.0 != end.0 && start.1 != end.1 ==> s.decks == []
  {
    if start.0 == end.0 then Ship(RowRun(start.0, start.1, end.1), isDrowned)
    else if start.1 == end.1 then Ship(ColumnRun(start.1, start.0, end.0), isDrowned)
    else Ship([], isDrowned)
  }

  /** The geometric reading of a ship's endpoints: which cells it covers. */
  predicate OnSegment(start: Coord, end: Coord, c: Coord) {
    if start.0 == end.0 then c.0 == start.0 && start.1 <= c.1 <= end.1
    else if start.1 == end.1 then c.1 == start.1 && start.0 <= c.0 <= end.0
    else false
  }

  /**
   A new ship covers exactly the cells of the segment between its endpoints,
   each once, and all of them alive.
   */
  lemma NewShipCells(start: Coord, end: Coord, isDrowned: bool)
    ensures var s := NewShip(start, end, isDrowned);
      && (forall c :: c in Cells(s) <==> OnSegment(start, end, c))
      && DistinctCells(s.decks)
      && (forall k :: 0 <= k < |s.decks| ==> s.decks[k].isAlive)
  {
    var s := NewShip(start, end, isDrowned);
    forall c
      ensures c in Cells(s) <==> OnSegment(start, end, c)
    {
      if OnSegment(start, end, c) {
        if start.0 == end.0 {
          assert Pos(s.decks[c.1 - start.1]) == c;
        } else {
          assert Pos(s.decks[c.0 - start.0]) == c;
        }
      }
    }
  }

  /** True iff `k` is the first deck of `decks` sitting at `(row, column)`. */
  predicate FirstAt(decks: seq<Deck>, k: int, row: int, column: int) {
    && 0 <= k < |decks|
    && At(decks[k], row, column)
    && forall j :: 0 <= j < k ==> !At(decks[j], row, column)
  }

  /** Linear search for the first deck at `(row, column)`. */
  function FindDeck(decks: seq<Deck>, row: int, column: int): (r: Option<nat>)
    ensures r.None? <==> forall k :: 0 <= k < |decks| ==> !At(decks[k], row, column)
    ensures r.Some? ==> FirstAt(decks, r.value, row, column)
    decreases |decks|
  {
    if decks == [] then None
    else if At(decks[0], row, column) then Some(0)
    else
      match FindDeck(decks[1..], row, column)
      case None => None
      case Some(k) => Some(k + 1)
  }

  /** The index of the ship's deck at `(row, column)`, if it has one. */
  function GetDeck(s: Ship, row: int, column: int): (r: Option<nat>)
    ensures r.None? <==> (row, column) !in Cells(s)
    ensures r.Some? ==> FirstAt(s.decks, r.value, row, column)
  {
    FindDeck(s.decks, row, column)
  }

  /** No deck of the sequence has been shot. */
  predicate AllAlive(decks: seq<Deck>) {
    forall k :: 0 <= k < |decks| ==> decks[k].isAlive
  }

  /** Every deck of the sequence has been shot. */
  predicate AllDead(decks: seq<Deck>) {
    forall k :: 0 <= k < |decks| ==> !decks[k].isAlive
  }

  /**
   Resolves a shot at `(row, column)` against the ship. Without a deck there
   it is a miss and nothing changes. Otherwise that deck dies, and the shot
   sinks the ship when no deck is left alive; else it is a hit.
   */
  function Fire(s: Ship, row: int, column: int): (r: (Shot, Ship))
    ensures r.0 == Miss <==> (row, column) !in Cells(s)
    ensures r.0 == Miss ==> r.1 == s
    ensures |r.1.decks| == |s.decks|
    ensures forall k :: 0 <= k < |s.decks| ==>
      r.1.decks[k] == if FirstAt(s.decks, k, row, column) then s.decks[k].(isAlive := false) else s.decks[k]
    ensures r.0 == Sunk <==> (row, column) in Cells(s) && AllDead(r.1.decks)
    ensures r.0 == Sunk ==> r.1.isDrowned
    ensures r.0 != Sunk ==> r.1.isDrowned == s.isDrowned
    ensures s.isDrowned ==> r.1.isDrowned
  {
    match GetDeck(s, row, column)
    case None => (Miss, s)
    case Some(k) =>
      var decks := s.decks[k := s.decks[k].(isAlive := false)];
      if AllDead(decks) then (Sunk, Ship(decks, true))
      else (Hit, Ship(decks, s.isDrowned))
  }

  /** Firing never moves a deck, so the cells a ship covers never change. */
  lemma FireKeepsCells(s: Ship, row: int, column: int)
    ensures Cells(Fire(s, row, column).1) == Cells(s)
  {
    var s' := Fire(s, row, column).1;
    SameShapeSameCells(s'.decks, s.decks);
  }

  /** Firing at the same cell a second time reports the same outcome and changes nothing. */
  lemma FireTwice(s: Ship, row: int, column: int)
    ensures var (shot, s') := Fire(s, row, column);
      Fire(s', row, column) == (shot, s')
  {
    var (shot, s') := Fire(s, row, column);
    FireKeepsCells(s, row, column);
    if shot != Miss {
      assert forall k :: 0 <= k < |s.decks| ==> (FirstAt(s'.decks, k, row, column) <==> FirstAt(s.decks, k, row, column));
      var (shot2, s'') := Fire(s', row, column);
      assert s''.decks == s'.decks;
    }
  }

  /** A one-deck ship sinks on the first shot at its cell. */
  lemma SingleDeckSinks(c: Coord)
    ensures var s := NewShip(c, c, false); Fire(s, c.0, c.1).0 == Sunk
  {
    var s := NewShip(c, c, false);
    assert Pos(s.decks[0]) == c;
  }

  /**
   In a ship that covers no cell twice, a shot at deck `k`'s cell kills
   exactly that deck, and sinks the ship exactly when every other deck is
   already dead.
   */
  lemma FireAtDeck(s: Ship, k: int)
    requires DistinctCells(s.decks) && 0 <= k < |s.decks|
    ensures var r := Fire(s, s.decks[k].row, s.decks[k].column);
      && r.1.decks == s.decks[k := s.decks[k].(isAlive := false)]
      && (r.0 == Sunk <==> forall j :: 0 <= j < |s.decks| && j != k ==> !s.decks[j].isAlive)
      && (r.0 == Hit <==> exists j :: 0 <= j < |s.decks| && j != k && s.decks[j].isAlive)
  {
    var d := s.decks[k];
    assert Pos(d) in Cells(s);
    assert FirstAt(s.decks, k, d.row, d.column);
    var r := Fire(s, d.row, d.column);
    forall j | 0 <= j < |s.decks| && j != k
      ensures !FirstAt(s.decks, j, d.row, d.column)
    {
      if j < k {
        assert Pos(s.decks[j]) != Pos(d);
      }
    }
    assert r.1.decks == s.decks[k := d.(isAlive := false)];
  }

  /** The ship at (0,0)-(0,3) with the given deck states. */
  function Row0Ship(a: bool, b: bool, c: bool, d: bool, drowned: bool): Ship {
    Ship([Deck(0, 0, a), Deck(0, 1, b), Deck(0, 2, c), Deck(0, 3, d)], drowned)
  }

  /** The four-deck ship at (0,0)-(0,3) is built alive and afloat. */
  lemma FourDeckBuilt()
    ensures NewShip((0, 0), (0, 3), false) == Row0Ship(true, true, true, true, false)
  {
    assert |NewShip((0, 0), (0, 3), false).decks| == 4;
  }

  /** Shooting (0,0) first is a hit. */
  lemma FourDeckFirstShot()
    ensures Fire(Row0Ship(true, true, true, true, false), 0, 0) == (Hit, Row0Ship(false, true, true, true, false))
  {
    var s := Row0Ship(true, true, true, true, false);
    assert DistinctCells(s.decks);
    FireAtDeck(s, 0);
    var r := Fire(s, 0, 0);
    assert r.1.decks == Row0Ship(false, true, true, true, false).decks;
  }

  /** Then (0,1) is a hit. */
  lemma FourDeckSecondShot()
    ensures Fire(Row0Ship(false, true, true, true, false), 0, 1) == (Hit, Row0Ship(false, false, true, true, false))
  {
    var s := Row0Ship(false, true, true, true, false);
    assert DistinctCells(s.decks);
    FireAtDeck(s, 1);
    var r := Fire(s, 0, 1);
    assert r.1.decks == Row0Ship(false, false, true, true, false).decks;
  }

  /** Then (0,2) is a hit. */
  lemma FourDeckThirdShot()
    ensures Fire(Row0Ship(false, false, true, true, false), 0, 2) == (Hit, Row0Ship(false, false, false, true, false))
  {
    var s := Row0Ship(false, false, true, true, false);
    assert DistinctCells(s.decks);
    FireAtDeck(s, 2);
    var r := Fire(s, 0, 2);
    assert r.1.decks == Row0Ship(false, false, false, true, false).decks;
  }

  /** Then (0,3), the last live deck, sinks the ship. */
  lemma FourDeckLastShot()
    ensures Fire(Row0Ship(false, false, false, true, false), 0, 3) == (Sunk, Row0Ship(false, false, false, false, true))
  {
    var s := Row0Ship(false, false, false, true, false);
    assert DistinctCells(s.decks);
    FireAtDeck(s, 3);
    var r := Fire(s, 0, 3);
    assert r.1.decks == Row0Ship(false, false, false, false, true).decks;
  }

  /** `isDrowned` agrees with "the ship has decks and all of them are dead". */
  predicate SinkConsistent(s: Ship) {
    s.isDrowned <==> |s.decks| > 0 && AllDead(s.decks)
  }

  /** A ship fresh from construction is consistent: it is afloat and, if it has decks, they are alive. */
  lemma NewShipConsistent(start: Coord, end: Coord)
    ensures SinkConsistent(NewShip(start, end, false))
  {
    var built := NewShip(start, end, false);
    if |built.decks| > 0 {
      assert built.decks[0].isAlive;
    }
  }

  /** Every shot keeps a consistent ship consistent. */
  lemma FireKeepsConsistent(s: Ship, row: int, column: int)
    requires SinkConsistent(s)
    ensures SinkConsistent(Fire(s, row, column).1)
  {
    var (shot, s') := Fire(s, row, column);
    if shot == Hit && s.isDrowned {
      var k :| FirstAt(s.decks, k, row, column);
      assert AllDead(s'.decks);
    }
  }
}
