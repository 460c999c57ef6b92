# Battleship board — a Dafny model

This project models the in-memory Battleship board of `app/main.py`:

- **Deck**: one occupied cell with its alive/dead flag (`Decks`).
- **Ship**: built from two endpoint coordinates into a horizontal or vertical
  run of decks, or into no decks at all when the endpoints share neither row
  nor column. It resolves a shot against its own decks with `"Miss!"`,
  `"Hit!"` or `"Sunk!"`, and records when it has sunk (`Ships`).
- **Coordinate index**: the `field` map from every occupied cell to its owning
  ship, built in placement order so that a later ship overwrites an earlier
  one on a shared cell (`Field`).
- **Validation**: the three construction checks, run in order with the first
  failure reported: exactly 10 ships; the tally of ship lengths equals
  {1:4, 2:3, 3:2, 4:1}; no deck has a cell of its 3×3 block indexed to a
  different ship (`Validation`).
- **Board**: construction (`Create`, returning a board or the error kind) and
  shot dispatch through the index (`Battleship`).
- **Rendering**: the 10×10 grid of `"~"`, `"□"`, `"*"` and `"x"` markers that
  `print_field` builds (`Rendering`).

Everything is immutable. A ship is named by its position in the fleet, which
stands in for the object identity the program compares with `!=`. Firing
returns the outcome together with the new ship or board, and the `ValueError`
raises become the `Error` kinds `WrongShipCount`, `WrongFleetComposition` and
`AdjacentShips`.

The main results are:

- the composition check, together with the count check, passes exactly when
  the multiset of ship lengths is {1,1,1,1,2,2,2,3,3,4};
- run against the index, the neighbourhood check passes exactly when no deck
  of one ship is equal or 8-adjacent to a deck of another;
- an accepted board has 10 straight ships of 1–4 decks, 20 decks on 20
  distinct cells, and no two ships touching;
- on a board whose index matches its ships, a shot misses exactly when the
  cell is not indexed, and the index keeps matching after every shot;
- firing twice at one cell repeats the outcome and changes nothing;
- `isDrowned` is true exactly when a ship has decks and all are dead, from
  construction on;
- a shot moves no deck, so it keeps the fleet on the board, keeps ships from
  touching, keeps each ship's cells distinct and keeps sunk flags agreeing
  with decks;
- the grid shows water exactly on empty cells. On a board whose decks all lie
  on the 10x10 board, whose ships do not touch, whose ships each repeat no
  cell and whose sunk flags agree with their decks, a live deck shows `"□"`,
  a dead deck of a sunk ship `"x"`, and any other dead deck `"*"`. An
  accepted board meets the last three of these, and every shot keeps all
  four;
- a concrete legal fleet is accepted, and moving one of its ships diagonally
  next to another makes construction fail with the neighbourhood error
  (`Samples`).

Three behaviours of the code are worth noting:

- the neighbourhood check also examines the deck's own cell (offset 0,0), so
  two overlapping ships are rejected by it as well;
- a ship is not limited to 1–4 decks when it is built; only the composition
  check enforces that;
- a reversed range (end before start) silently yields a ship without decks,
  like a diagonal one. Both are rejected later by the composition check.

## Model

| member | source | states |
|---|---|---|
| Ships.Shot.Text | app/main.py:37-40 | the outcome is reported as one of "Miss!", "Hit!" and "Sunk!" |
| Ships.TextNamesShot | app/main.py:37-40 | two outcomes are reported with the same string exactly when they are the same outcome |
| Ships.RowRun | app/main.py:18-20 | a horizontal run has one live deck per column from start to end inclusive, in order, and none when the end precedes the start |
| Ships.ColumnRun | app/main.py:21-23 | a vertical run has one live deck per row from start to end inclusive, in order, and none when the end precedes the start |
| Ships.NewShip | app/main.py:9-23 | equal rows give decks (row, c) for c over the column range; else equal columns give decks (r, column) over the row range; else no decks; the sunk flag is the one given |
| Ships.NewShipCells | app/main.py:15-23 | a new ship covers exactly the cells of the segment between its endpoints, each once, all alive |
| Ships.FindDeck | app/main.py:26-29 | the search finds nothing exactly when no deck sits at the cell, and otherwise the first deck that does |
| Ships.GetDeck | app/main.py:25-29 | a ship has a deck at a cell exactly when the cell is among its cells; the one returned is the first in deck order |
| Ships.Fire | app/main.py:31-40 | a miss exactly when no deck is at the cell, changing nothing; otherwise only the first deck there dies; Sunk exactly when all decks are then dead, which sets the sunk flag; the flag is never cleared |
| Ships.FireKeepsCells | app/main.py:31-36 | a shot never moves a deck, so a ship's cells stay the same |
| Ships.FireTwice | app/main.py:31-40 | a second shot at the same cell gives the same outcome and leaves the ship as the first shot left it |
| Ships.FireAtDeck | app/main.py:32-39 | in a ship without repeated cells, a shot at deck k's cell kills exactly deck k, and sinks the ship exactly when every other deck is already dead |
| Ships.SingleDeckSinks | app/main.py:31-37 | a one-deck ship sinks on the first shot at its cell |
| Ships.FourDeckBuilt | app/main.py:18-20 | the ship (0,0)-(0,3) has four live decks along row 0 and is afloat |
| Ships.FourDeckFirstShot | app/main.py:31-39 | shooting (0,0) of a fresh (0,0)-(0,3) ship is a hit that kills only that deck |
| Ships.FourDeckSecondShot | app/main.py:31-39 | then shooting (0,1) is a hit |
| Ships.FourDeckThirdShot | app/main.py:31-39 | then shooting (0,2) is a hit |
| Ships.FourDeckLastShot | app/main.py:31-39 | then shooting (0,3) sinks the ship and sets its sunk flag |
| Ships.NewShipConsistent | app/main.py:13-23 | a newly built ship is sunk exactly when it has decks and all are dead; that is, it is afloat, since its decks are alive |
| Ships.FireKeepsConsistent | app/main.py:31-40 | a shot keeps "sunk exactly when the ship has decks and all are dead" true |
| Field.FieldOf | app/main.py:48-55 | the index built ship by ship, later ships overwriting earlier ones on a shared cell; every entry names a ship of the fleet (FieldOfAt states which one) |
| Field.FieldOfAt | app/main.py:48-55 | a cell is a key of the index exactly when some ship occupies it, and it maps to the last ship in placement order that does |
| Field.FieldOfSpec | app/main.py:48-55 | the same, for every cell at once |
| Field.FieldOfSameCells | app/main.py:51-55 | the index depends only on where the ships' decks are, not on their alive flags |
| Validation.Tally | app/main.py:84-89 | the counter has keys 1–4 and holds, for each, the number of ships of that length; other lengths are not counted |
| Validation.CompositionIff | app/main.py:81-92 | exactly 10 ships with the tally {1:4, 2:3, 3:2, 4:1} holds exactly when the multiset of ship lengths is {1,1,1,1,2,2,2,3,3,4} |
| Validation.FleetShape | app/main.py:81-92 | a fleet of the required composition has 10 ships, each of 1–4 decks, 20 decks in total, so no ship without decks |
| Validation.BlockClearTouching | app/main.py:96-101 | the 3×3 test around a deck passes exactly when every indexed cell equal or 8-adjacent to it is indexed to the deck's own ship |
| Validation.ClearIffSeparated | app/main.py:94-103 | against the index of the same fleet, the 3×3 neighbourhood check passes exactly when no deck of one ship is equal or 8-adjacent to a deck of another |
| Validation.SeparatedIsClear | app/main.py:94-103 | a fleet with no two ships touching passes the neighbourhood check |
| Validation.ClearIsSeparated | app/main.py:94-103 | a fleet that passes the neighbourhood check has no two ships overlapping or 8-adjacent |
| Validation.FieldSize | app/main.py:48-55 | when no two ships touch and no ship repeats a cell, the index has one key per deck |
| Validation.Validate | app/main.py:80-103 | fails with the count error exactly when there are not 10 ships; with the composition error exactly when there are 10 of the wrong lengths; passes exactly when the lengths are right and no two ships touch |
| Battleship.BuildShips | app/main.py:51-53 | one ship per placement, in order, each built afloat from its two endpoints |
| Battleship.Create | app/main.py:44-57 | builds the ships and index; the result is the count error, the composition error or a board in exactly the cases the checks decide; an accepted board's index matches its ships and names only ships of the fleet |
| Battleship.AcceptedBoard | app/main.py:44-103 | an accepted board has 10 ships of 1–4 decks each lying on their endpoints' segment with every deck alive, 20 decks on 20 distinct cells, and no two ships touching |
| Battleship.IndexedOwners | app/main.py:59-62 | on a board whose index is the one its fleet determines, every index entry names a ship, so every such board can be fired at |
| Battleship.Fire | app/main.py:59-64 | an unindexed location is a miss that changes nothing; an indexed one reports the owning ship's outcome and changes only that ship; with the index matching the ships, a miss happens exactly on unindexed locations |
| Battleship.FireKeepsIndex | app/main.py:59-64 | a shot keeps the index matching the ships |
| Battleship.FireTwiceOnBoard | app/main.py:59-64 | a second shot at the same location repeats the outcome and changes nothing |
| Battleship.CreatedConsistent | app/main.py:13-16 | on an accepted board each ship is sunk exactly when it has decks and all are dead |
| Battleship.FireKeepsFleetConsistent | app/main.py:31-39 | a board shot keeps every ship sunk exactly when it has decks and all are dead |
| Battleship.FireKeepsLayout | app/main.py:59-64 | a board shot leaves the number of ships, the number of decks of each and the cell of every deck unchanged |
| Battleship.SameLayoutKeeps | app/main.py:80-103 | two fleets with the same deck layout are alike in whether ships touch and in whether a ship repeats a cell |
| Rendering.Marker | app/main.py:71-75 | a deck is drawn "□" exactly while alive, "*" exactly when dead on a ship not yet sunk, "x" exactly when dead on a sunk ship, and never as water |
| Rendering.PaintDecks | app/main.py:70-75 | drawing a ship's decks in order keeps a 10×10 grid; PaintDecksElsewhere and PaintDecksLast state what each cell then shows |
| Rendering.PaintShips | app/main.py:69-75 | drawing the ships in order keeps a 10×10 grid; PaintShipsElsewhere and PaintShipsLast state what each cell then shows |
| Rendering.PaintDecksElsewhere | app/main.py:70-75 | drawing a ship's decks leaves every cell none of them covers unchanged |
| Rendering.PaintDecksLast | app/main.py:70-75 | after drawing a ship's decks, a covered cell shows the marker of the last deck drawn there |
| Rendering.PaintShipsElsewhere | app/main.py:69-75 | drawing the fleet leaves every unoccupied cell unchanged |
| Rendering.PaintShipsLast | app/main.py:69-75 | after drawing the fleet, a covered cell shows the marker of the deck drawn last there |
| Rendering.Render | app/main.py:66-75 | the printed grid is 10×10 and shows water exactly on the cells no deck covers |
| Rendering.WaterExactlyEmpty | app/main.py:67-75 | drawing the fleet over water leaves water exactly on the cells no deck covers |
| Rendering.RenderCell | app/main.py:66-75 | a grid cell shows water exactly when no deck lies on it, and otherwise the marker of the last deck drawn there |
| Rendering.RenderShowsEveryDeck | app/main.py:66-75 | when every deck lies on the board, no two ships touch, no ship repeats a cell and every ship's sunk flag agrees with its decks, each deck shows "□" exactly when alive, "x" exactly when its whole ship is dead, and "*" exactly when it is dead and its ship is not; AcceptedDrawable supplies the last three for accepted boards and FireKeepsDrawable keeps all four across shots |
| Rendering.AcceptedDrawable | app/main.py:44-57 | an accepted board has ships that do not touch, ships that each repeat no cell, and sunk flags that agree with the decks |
| Rendering.FireKeepsDrawable | app/main.py:59-64 | a board shot keeps every premise of RenderShowsEveryDeck: decks on the board, ships not touching, no repeated cell within a ship, sunk flags agreeing with decks |
| Samples.LegalFleetAccepted | app/main.py:44-103 | the fleet of one 4-deck, two 3-deck, three 2-deck and four 1-deck horizontal ships on rows 0, 2, 4 and 6, with a free column between ships on a row, is accepted |
| Samples.CrowdedFleetRejected | app/main.py:94-103 | the same fleet with its last one-deck ship moved to (5, 8), diagonally next to (4, 7), is rejected with the neighbourhood error |

## Left out

- Printing: the `print(" ".join(row))` loop of `print_field` (app/main.py:77-78) is standard output; only the grid it prints is modelled.
- Rendering.Render: requires every deck to lie on the 10×10 board. The program does not check this, and off-board decks would raise or, with negative indices, wrap around in Python lists.
- Battleship.Fire: requires every index entry to name a ship of the fleet. In the program the index holds the ship objects themselves, so this always holds; here Create and IndexedOwners prove it for every board Create returns and every board whose index matches its fleet.
- Rendering.PaintDecks: its own contract states only the grid's shape; what each cell shows afterwards is stated by PaintDecksElsewhere and PaintDecksLast, kept apart so that each proof stays small.
- Rendering.PaintShips: likewise, what each cell shows afterwards is stated by PaintShipsElsewhere and PaintShipsLast.
- Exceptions: the `ValueError` type and its messages are replaced by the three `Error` kinds.
- Object identity and aliasing: the index and the ship list share the program's objects. Here a ship is its position in the fleet, and a shot returns the updated fleet.
- Integer width: coordinates are unbounded integers, as in Python.
