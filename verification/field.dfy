/**
 The board's coordinate index: every occupied cell mapped to the ship that
 occupies it, a ship being named by its position in the fleet.
 */
module Field {
  import opened Decks
  import opened Ships

  /** Some ship of the fleet has a deck at `c`. */
  predicate Occupied(ships: seq<Ship>, c: Coord) {
    exists i :: 0 <= i < |ships| && c in Cells(ships[i])
  }

  /**
   The index built while the ships are placed in order: each deck registers
   its cell under its ship, so where ships overlap the later one wins.
   */
  function FieldOf(ships: seq<Ship>): (f: map<Coord, nat>)
    ensures forall c :: c in f ==> f[c] < |ships|
    decreases |ships|
  {
    if ships == [] then map[]
    else
      var n := |ships| - 1;
      FieldOf(ships[..n]) + map c | c in Cells(ships[n]) :: n
  }

  /** One placement step: the last ship's cells are (re)registered under its index. */
  lemma FieldOfStep(ships: seq<Ship>, c: Coord)
    requires ships != []
    ensures var n := |ships| - 1;
      && (c in FieldOf(ships) <==> c in FieldOf(ships[..n]) || c in Cells(ships[n]))
      && (c in Cells(ships[n]) ==> FieldOf(ships)[c] == n)
      && (c !in Cells(ships[n]) && c in FieldOf(ships[..n]) ==> FieldOf(ships)[c] == FieldOf(ships[..n])[c])
  {
  }

  /** Every key of the index is an occupied cell. */
  lemma {:induction false} FieldKeysOccupied(ships: seq<Ship>, c: Coord)
    ensures c in FieldOf(ships) ==> Occupied(ships, c)
    decreases |ships|
  {
    if ships != [] {
      var n := |ships| - 1;
      var prefix := ships[..n];
      FieldKeysOccupied(prefix, c);
      FieldOfStep(ships, c);
      if c !in Cells(ships[n]) && c in FieldOf(prefix) {
        var i :| 0 <= i < |prefix| && c in Cells(prefix[i]);
        assert prefix[i] == ships[i];
      }
    }
  }

  /** Every occupied cell is a key of the index. */
  lemma {:induction false} OccupiedInField(ships: seq<Ship>, c: Coord)
    ensures Occupied(ships, c) ==> c in FieldOf(ships)
    decreases |ships|
  {
    if ships != [] {
      var n := |ships| - 1;
      var prefix := ships[..n];
      OccupiedInField(prefix, c);
      FieldOfStep(ships, c);
      if Occupied(ships, c) && c !in Cells(ships[n]) {
        var i :| 0 <= i < |ships| && c in Cells(ships[i]);
        assert prefix[i] == ships[i];
      }
    }
  }

  /** The last owner of `c` among all but the last ship stays its last owner when the last ship does not cover `c`. */
  lemma OwnerKept(ships: seq<Ship>, c: Coord, i: int)
    requires ships != [] && LastOwner(ships[..|ships| - 1], c, i)
    requires c !in Cells(ships[|ships| - 1])
    ensures LastOwner(ships, c, i)
  {
    var n := |ships| - 1;
    var prefix := ships[..n];
    assert prefix[i] == ships[i];
    forall j | i < j < |ships|
      ensures c !in Cells(ships[j])
    {
      if j < n {
        assert prefix[j] == ships[j];
      }
    }
  }

  /** Each key maps to the last ship of the fleet that occupies it. */
  lemma {:induction false} FieldOwner(ships: seq<Ship>, c: Coord)
    ensures c in FieldOf(ships) ==> LastOwner(ships, c, FieldOf(ships)[c])
    decreases |ships|
  {
    if ships != [] {
      var n := |ships| - 1;
      var prefix := ships[..n];
      FieldOwner(prefix, c);
      FieldOfStep(ships, c);
      if c !in Cells(ships[n]) && c in FieldOf(prefix) {
        OwnerKept(ships, c, FieldOf(prefix)[c]);
      }
    }
  }

  /**
   The index has exactly the occupied cells as keys, and maps each to the
   last ship in the fleet that occupies it.
   */
  lemma FieldOfAt(ships: seq<Ship>, c: Coord)
    ensures c in FieldOf(ships) <==> Occupied(ships, c)
    ensures c in FieldOf(ships) ==> LastOwner(ships, c, FieldOf(ships)[c])
  {
    FieldKeysOccupied(ships, c);
    OccupiedInField(ships, c);
    FieldOwner(ships, c);
  }

  /** `FieldOfAt` for every cell at once. */
  lemma FieldOfSpec(ships: seq<Ship>)
    ensures forall c :: c in FieldOf(ships) <==> Occupied(ships, c)
    ensures forall c :: c in FieldOf(ships) ==> LastOwner(ships, c, FieldOf(ships)[c])
  {
    forall c
      ensures c in FieldOf(ships) <==> Occupied(ships, c)
      ensures c in FieldOf(ships) ==> LastOwner(ships, c, FieldOf(ships)[c])
    {
      FieldOfAt(ships, c);
    }
  }

  /** Ship `i` occupies `c` and no later ship does. */
  predicate LastOwner(ships: seq<Ship>, c: Coord, i: int) {
    && 0 <= i < |ships|
    && c in Cells(ships[i])
    && forall j :: i < j < |ships| ==> c !in Cells(ships[j])
  }

  /** The index depends only on where the ships are, not on their decks' status. */
  lemma {:induction false} FieldOfSameCells(a: seq<Ship>, b: seq<Ship>)
    requires |a| == |b|
    requires forall i :: 0 <= i < |a| ==> Cells(a[i]) == Cells(b[i])
    ensures FieldOf(a) == FieldOf(b)
    decreases |a|
  {
    if a != [] {
      var n := |a| - 1;
      FieldOfSameCells(a[..n], b[..n]);
    }
  }
}
