/**
 The 10x10 picture of the board: water everywhere except where a deck lies,
 which shows as an intact ship cell, a hit cell of a ship still afloat, or a
 cell of a sunk ship. Only the grid is modelled, not its printing.
 */
module Rendering {
  import opened Decks
  import opened Ships
  import opened Field
  import opened Validation
  import opened Battleship

  const Size := 10

  /** The four cell markers. */
  const Water := "~"
  const Intact := "\U{25A1}"
  const Damaged := "*"
  const Wreck := "x"

  /** Rows of cells, row-major. */
  type Grid = seq<seq<string>>

  predicate IsGrid(g: Grid) {
    |g| == Size && forall r :: 0 <= r < |g| ==> |g[r]| == Size
  }

  predicate OnBoard(c: Coord) {
    0 <= c.0 < Size && 0 <= c.1 < Size
  }

  /** Every deck of the fleet lies on the 10x10 board. */
  predicate AllOnBoard(ships: seq<Ship>) {
    forall i, k :: 0 <= i < |ships| && 0 <= k < |ships[i].decks| ==> OnBoard(Pos(ships[i].decks[k]))
  }

  /**
   How a deck of ship `s` is drawn: never as water, intact exactly while
   alive, damaged exactly once dead on a ship still afloat, and as a wreck
   exactly once dead on a sunk ship.
   */
  function Marker(s: Ship, d: Deck): (m: string)
    ensures m != Water
    ensures m == Intact <==> d.isAlive
    ensures m == Damaged <==> !d.isAlive && !s.isDrowned
    ensures m == Wreck <==> !d.isAlive && s.isDrowned
  {
    if d.isAlive then Intact
    else if !s.isDrowned then Damaged
    else Wreck
  }

  /** Deck `k` is the last of `decks` at its cell. */
  predicate LastIn(decks: seq<Deck>, k: int) {
    0 <= k < |decks| && forall j :: k < j < |decks| ==> Pos(decks[j]) != Pos(decks[k])
  }

  /** Deck `k` of ship `i` is the last deck drawn at its cell: no later deck of that ship or later ship covers it. */
  predicate LastDrawn(ships: seq<Ship>, i: int, k: int) {
    && 0 <= i < |ships|
    && LastIn(ships[i].decks, k)
    && forall j :: i < j < |ships| ==> Pos(ships[i].decks[k]) !in Cells(ships[j])
  }

  /** A grid of water only. */
  function EmptyGrid(): (g: Grid)
    ensures IsGrid(g)
    ensures forall r, c :: 0 <= r < Size && 0 <= c < Size ==> g[r][c] == Water
  {
    seq(Size, _ => seq(Size, _ => Water))
  }

  /** The marker the grid shows at cell `c`. */
  function Shown(g: Grid, c: Coord): string
    requires IsGrid(g) && OnBoard(c)
  {
    g[c.0][c.1]
  }

  /** Sets one cell of the grid. */
  function Paint(g: Grid, c: Coord, m: string): (g': Grid)
    requires IsGrid(g) && OnBoard(c)
    ensures IsGrid(g')
    ensures Shown(g', c) == m
    ensures forall p :: OnBoard(p) && p != c ==> Shown(g', p) == Shown(g, p)
  {
    g[c.0 := g[c.0][c.1 := m]]
  }

  /** Draws the decks of ship `s` in order, later decks over earlier ones. */
  function PaintDecks(g: Grid, s: Ship, decks: seq<Deck>): (g': Grid)
    requires IsGrid(g)
    requires forall k :: 0 <= k < |decks| ==> OnBoard(Pos(decks[k]))
    ensures IsGrid(g')
    decreases |decks|
  {
    if decks == [] then g
    else
      var n := |decks| - 1;
      Paint(PaintDecks(g, s, decks[..n]), Pos(decks[n]), Marker(s, decks[n]))
  }

  /** Drawing a ship's decks leaves a cell none of them covers unchanged. */
  lemma {:induction false} PaintDecksElsewhere(g: Grid, s: Ship, decks: seq<Deck>, c: Coord)
    requires IsGrid(g) && OnBoard(c)
    requires forall k :: 0 <= k < |decks| ==> OnBoard(Pos(decks[k]))
    requires c !in CellsOf(decks)
    ensures Shown(PaintDecks(g, s, decks), c) == Shown(g, c)
    decreases |decks|
  {
    if decks != [] {
      var n := |decks| - 1;
      var prefix := decks[..n];
      assert forall k :: 0 <= k < n ==> prefix[k] == decks[k];
      PaintDecksElsewhere(g, s, prefix, c);
    }
  }

  /** After drawing a ship's decks, a covered cell shows the marker of the last deck on it. */
  lemma {:induction false} PaintDecksLast(g: Grid, s: Ship, decks: seq<Deck>, k: int)
    requires IsGrid(g)
    requires forall k :: 0 <= k < |decks| ==> OnBoard(Pos(decks[k]))
    requires LastIn(decks, k)
    ensures Shown(PaintDecks(g, s, decks), Pos(decks[k])) == Marker(s, decks[k])
    decreases |decks|
  {
    var n := |decks| - 1;
    if k < n {
      var prefix := decks[..n];
      assert forall j :: 0 <= j < n ==> prefix[j] == decks[j];
      assert LastIn(prefix, k);
      PaintDecksLast(g, s, prefix, k);
    }
  }

  /** Draws the ships in fleet order, later ships over earlier ones. */
  function PaintShips(g: Grid, ships: seq<Ship>): (g': Grid)
    requires IsGrid(g) && AllOnBoard(ships)
    ensures IsGrid(g')
    decreases |ships|
  {
    if ships == [] then g
    else
      var n := |ships| - 1;
      var prefix := ships[..n];
      assert forall i :: 0 <= i < n ==> prefix[i] == ships[i];
      PaintDecks(PaintShips(g, prefix), ships[n], ships[n].decks)
  }

  /** Drawing the fleet leaves an unoccupied cell unchanged. */
  lemma {:induction false} PaintShipsElsewhere(g: Grid, ships: seq<Ship>, c: Coord)
    requires IsGrid(g) && AllOnBoard(ships) && OnBoard(c)
    requires !Occupied(ships, c)
    ensures Shown(PaintShips(g, ships), c) == Shown(g, c)
    decreases |ships|
  {
    if ships != [] {
      var n := |ships| - 1;
      var prefix := ships[..n];
      assert forall i :: 0 <= i < n ==> prefix[i] == ships[i];
      PaintShipsElsewhere(g, prefix, c);
      PaintDecksElsewhere(PaintShips(g, prefix), ships[n], ships[n].decks, c);
    }
  }

  /** Drawing the fleet is drawing all but the last ship, then the last ship's decks. */
  lemma PaintShipsStep(g: Grid, ships: seq<Ship>)
    requires IsGrid(g) && AllOnBoard(ships) && ships != []
    ensures AllOnBoard(ships[..|ships| - 1])
    ensures var n := |ships| - 1;
      PaintShips(g, ships) == PaintDecks(PaintShips(g, ships[..n]), ships[n], ships[n].decks)
  {
    var prefix := ships[..|ships| - 1];
    assert forall j :: 0 <= j < |prefix| ==> prefix[j] == ships[j];
  }

  /** A deck drawn last, of a ship before the last one, is drawn last among the earlier ships and not covered by the last one. */
  lemma LastDrawnInPrefix(ships: seq<Ship>, i: int, k: int)
    requires LastDrawn(ships, i, k) && i < |ships| - 1
    ensures LastDrawn(ships[..|ships| - 1], i, k)
    ensures Pos(ships[i].decks[k]) !in Cells(ships[|ships| - 1])
  {
    var prefix := ships[..|ships| - 1];
    assert forall j :: 0 <= j < |prefix| ==> prefix[j] == ships[j];
  }

  /** After drawing the fleet, a covered cell shows the marker of the deck drawn last on it. */
  lemma {:induction false} PaintShipsLast(g: Grid, ships: seq<Ship>, i: int, k: int)
    requires IsGrid(g) && AllOnBoard(ships)
    requires LastDrawn(ships, i, k)
    ensures Shown(PaintShips(g, ships), Pos(ships[i].decks[k])) == Marker(ships[i], ships[i].decks[k])
    decreases |ships|
  {
    var n := |ships| - 1;
    var prefix := ships[..n];
    PaintShipsStep(g, ships);
    var h := PaintShips(g, prefix);
    if i == n {
      PaintDecksLast(h, ships[n], ships[n].decks, k);
    } else {
      LastDrawnInPrefix(ships, i, k);
      PaintShipsLast(g, prefix, i, k);
      PaintDecksElsewhere(h, ships[n], ships[n].decks, Pos(ships[i].decks[k]));
    }
  }

  /** The grid of the board: water, with every ship's decks drawn over it; water shows exactly on the empty cells. */
  function Render(b: Board): (g: Grid)
    requires AllOnBoard(b.ships)
    ensures IsGrid(g)
    ensures forall c :: OnBoard(c) ==> (Shown(g, c) == Water <==> !Occupied(b.ships, c))
  {
    WaterExactlyEmpty(b.ships);
    PaintShips(EmptyGrid(), b.ships)
  }

  /** Drawing the fleet on water leaves water exactly on the cells no deck covers. */
  lemma WaterExactlyEmpty(ships: seq<Ship>)
    requires AllOnBoard(ships)
    ensures forall c :: OnBoard(c) ==> (Shown(PaintShips(EmptyGrid(), ships), c) == Water <==> !Occupied(ships, c))
  {
    forall c | OnBoard(c)
      ensures Shown(PaintShips(EmptyGrid(), ships), c) == Water <==> !Occupied(ships, c)
    {
      if Occupied(ships, c) {
        var i, k := LastDrawnAt(ships, c);
        PaintShipsLast(EmptyGrid(), ships, i, k);
      } else {
        PaintShipsElsewhere(EmptyGrid(), ships, c);
      }
    }
  }

  /** The last deck of `decks` at cell `c`. */
  lemma {:induction false} LastDeckAt(decks: seq<Deck>, c: Coord) returns (k: nat)
    requires c in CellsOf(decks)
    ensures LastIn(decks, k) && Pos(decks[k]) == c
    decreases |decks|
  {
    var n := |decks| - 1;
    if Pos(decks[n]) == c {
      k := n;
    } else {
      var prefix := decks[..n];
      assert forall j :: 0 <= j < n ==> prefix[j] == decks[j];
      assert c in CellsOf(prefix);
      k := LastDeckAt(prefix, c);
    }
  }

  /** A cell occupied by the fleet but not by its last ship is occupied by the fleet without it. */
  lemma OccupiedBefore(ships: seq<Ship>, c: Coord)
    requires Occupied(ships, c) && c !in Cells(ships[|ships| - 1])
    ensures Occupied(ships[..|ships| - 1], c)
  {
    var j :| 0 <= j < |ships| && c in Cells(ships[j]);
    assert ships[..|ships| - 1][j] == ships[j];
  }

  /** The deck drawn last among all but the last ship stays last when the last ship does not cover its cell. */
  lemma DrawnLastKept(ships: seq<Ship>, i: int, k: int)
    requires ships != [] && LastDrawn(ships[..|ships| - 1], i, k)
    requires Pos(ships[i].decks[k]) !in Cells(ships[|ships| - 1])
    ensures LastDrawn(ships, i, k)
  {
    var n := |ships| - 1;
    var prefix := ships[..n];
    assert prefix[i] == ships[i];
    forall j | i < j < |ships|
      ensures Pos(ships[i].decks[k]) !in Cells(ships[j])
    {
      if j < n {
        assert prefix[j] == ships[j];
      }
    }
  }

  /** The deck drawn last at an occupied cell `c`. */
  lemma {:induction false} LastDrawnAt(ships: seq<Ship>, c: Coord) returns (i: nat, k: nat)
    requires Occupied(ships, c)
    ensures LastDrawn(ships, i, k) && Pos(ships[i].decks[k]) == c
    decreases |ships|
  {
    var n := |ships| - 1;
    if c in Cells(ships[n]) {
      i := n;
      k := LastDeckAt(ships[n].decks, c);
    } else {
      var prefix := ships[..n];
      OccupiedBefore(ships, c);
      i, k := LastDrawnAt(prefix, c);
      assert prefix[i] == ships[i];
      DrawnLastKept(ships, i, k);
    }
  }

  /**
   Each cell of the grid shows water exactly when no deck lies on it, and
   otherwise the marker of the deck drawn last there.
   */
  lemma RenderCell(b: Board, c: Coord)
    requires AllOnBoard(b.ships) && OnBoard(c)
    ensures Shown(Render(b), c) == Water <==> !Occupied(b.ships, c)
    ensures forall i, k :: LastDrawn(b.ships, i, k) && Pos(b.ships[i].decks[k]) == c ==>
      Shown(Render(b), c) == Marker(b.ships[i], b.ships[i].decks[k])
  {
    forall i, k | LastDrawn(b.ships, i, k) && Pos(b.ships[i].decks[k]) == c
      ensures Shown(Render(b), c) == Marker(b.ships[i], b.ships[i].decks[k])
    {
      PaintShipsLast(EmptyGrid(), b.ships, i, k);
    }
  }

  /**
   On a board whose ships neither overlap nor repeat a cell, every deck is
   drawn: intact while alive, as a wreck once its whole ship is sunk, and as
   a hit otherwise, provided each ship's sunk flag agrees with its decks.
   */
  lemma RenderShowsEveryDeck(b: Board, i: int, k: int)
    requires AllOnBoard(b.ships)
    requires Separated(b.ships)
    requires forall j :: 0 <= j < |b.ships| ==> DistinctCells(b.ships[j].decks)
    requires FleetConsistent(b)
    requires 0 <= i < |b.ships| && 0 <= k < |b.ships[i].decks|
    ensures var d := b.ships[i].decks[k];
      var m := Shown(Render(b), Pos(d));
      && (m == Intact <==> d.isAlive)
      && (m == Wreck <==> AllDead(b.ships[i].decks))
      && (m == Damaged <==> !d.isAlive && !AllDead(b.ships[i].decks))
  {
    var ships := b.ships;
    var p := Pos(ships[i].decks[k]);
    forall j | i < j < |ships|
      ensures p !in Cells(ships[j])
    {
      forall l | 0 <= l < |ships[j].decks|
        ensures Pos(ships[j].decks[l]) != p
      {
        assert !Touching(p, Pos(ships[j].decks[l]));
      }
    }
    assert LastDrawn(ships, i, k);
    RenderCell(b, p);
  }

  /**
   An accepted board meets every premise of RenderShowsEveryDeck except
   lying on the 10x10 board, which construction does not check.
   */
  lemma AcceptedDrawable(placements: seq<Placement>)
    requires Create(placements).Ok?
    ensures Separated(Create(placements).value.ships)
    ensures forall j :: 0 <= j < |Create(placements).value.ships| ==> DistinctCells(Create(placements).value.ships[j].decks)
    ensures FleetConsistent(Create(placements).value)
  {
    forall j | 0 <= j < |placements|
      ensures DistinctCells(BuildShips(placements)[j].decks)
    {
      BuiltStraight(placements, j);
    }
    CreatedConsistent(placements);
  }

  /**
   A shot keeps every premise of RenderShowsEveryDeck: the fleet stays on the
   board and separated, no ship comes to repeat a cell, and every sunk flag
   keeps agreeing with its decks.
   */
  lemma FireKeepsDrawable(b: Board, location: Coord)
    requires OwnersInRange(b)
    ensures AllOnBoard(b.ships) ==> AllOnBoard(Battleship.Fire(b, location).1.ships)
    ensures Separated(b.ships) ==> Separated(Battleship.Fire(b, location).1.ships)
    ensures (forall j :: 0 <= j < |b.ships| ==> DistinctCells(b.ships[j].decks)) ==>
      forall j :: 0 <= j < |Battleship.Fire(b, location).1.ships| ==> DistinctCells(Battleship.Fire(b, location).1.ships[j].decks)
    ensures FleetConsistent(b) ==> FleetConsistent(Battleship.Fire(b, location).1)
  {
    var b' := Battleship.Fire(b, location).1;
    FireKeepsLayout(b, location);
    SameLayoutKeeps(b.ships, b'.ships);
    if FleetConsistent(b) {
      FireKeepsFleetConsistent(b, location);
    }
  }
}
