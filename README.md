# Sea battle: a verified model of the game engine

This project models the game engine of `sea_battle.py`, a console game of
battleships on a 6x6 map. Each side has seven ships, of lengths 3, 2, 2, 1,
1, 1 and 1. The model covers:

- the value classes `Dot` and `Ship`, and the cells a ship covers;
- the `Board` class, whose `add_ship`, `contour`, `out`, `shot` and
  `new_board_in_game` change its ship list, live-ship count, list of used
  cells and battle map in place;
- `Player.move`, which retries until the opponent's board accepts a shot;
- `Game.calculate_random_board`, which places the fleet by trial and error
  and gives up after 1800 attempts;
- the turn rule of `Game.loop`.

The dots and ship positions the program draws with `randint` or reads
from the console are supplied as sequences.

Modules:

- **Grid** (`grid.dfy`): dots, ships, `ship_dots` (a loop proved against
  `ShipCells`), the bounds test `out`, and the neighbourhood relation.
- **BoardSpec** (`board_spec.dfy`): a board's fields as a value
  `BoardState`. `add_ship`, `contour` and `shot` are functions on it,
  returning the new state and either the result or the exception raised.
  The lemmas here say what each operation does to each field.
- **Boards** (`board.dfy`): the class `Board` with the source's fields and
  loops. Each method is proved to change the fields exactly as its
  BoardSpec function says.
- **Invariants** (`invariants.dfy`): two invariants.
  - `Placing` holds while the fleet is placed: ships on the map, apart
    even at corners, each cell marked.
  - `InPlay` holds during the game: each ship's lives are its length less
    the cells of it shot at, `live_ships_count` is the number of ships
    afloat, the contour of a sunk ship is listed, and the map shows what
    was shot.
  - Lemmas show that `add_ship` keeps `Placing` and that `shot` keeps
    `InPlay`.
- **Game** (`game.dfy`): fleet placement, `Player.move` and `Game.loop`.
  Each is a function, with a method proved equal to it.

`live_ships_count` is not derived from the ship list. It
is set to 7 in `Board.__init__` (`sea_battle.py:62`) and lowered by one per
sinking. `InPlay` proves that it equals the number of ships afloat on every
board the game plays with.

## Model

| member | source | states |
|---|---|---|
| Grid.SameDot | sea_battle.py:33-34 | Two dots are equal exactly when both coordinates are equal, so `dot in list` is membership in the list of values. |
| Grid.OutIsOffMap | sea_battle.py:94-95 | `out` is false exactly for the 36 cells of the 6x6 map. |
| Grid.ShipCellsShape | sea_battle.py:44-54 | A ship of length n >= 1 covers n cells. The first is the bow. Each next cell steps `x` by one for orientation 0 and `y` by one otherwise. A length below 1 still yields the bow. |
| Grid.ShipDots | sea_battle.py:44-54 | The loop of `ship_dots` builds exactly the ship's cells, bow first. |
| Grid.CellSetSize | sea_battle.py:38-42 | The cells of a ship are pairwise distinct. So the starting `lives == ship_lenght` equals the number of its distinct cells. |
| BoardSpec.Initial | sea_battle.py:58-64 | A new board has no ships and no used cells, and its 6x6 map is well formed. |
| BoardSpec.MarkAllAt | sea_battle.py:73-75 | Drawing a list of cells with one mark sets exactly those cells and keeps every other mark. |
| BoardSpec.CandidatesNear | sea_battle.py:85-88 | The nine-cell walk around every cell of a ship visits exactly the cells within distance 1 of one of its cells. |
| BoardSpec.ContourVisitEffect | sea_battle.py:85-92 | Visiting keeps the ships, the count and the old list as a prefix, and appends each unlisted on-map candidate exactly once. For a sunk ship (status 0) exactly the appended cells are marked `.`. Every other cell keeps its mark. |
| BoardSpec.ContourEffect | sea_battle.py:79-92 | After `contour`, a cell is listed exactly when it was listed before or is an on-map cell touching the ship. Status 1 changes no mark. Status 0 marks exactly the newly listed cells `.`. |
| BoardSpec.AddShipEffect | sea_battle.py:69-77 | `add_ship` raises `BoardWrongShipException` exactly when a cell is off the map or already used, and then changes nothing. Otherwise the ship is appended, the count is unchanged, the used cells grow by the ship's cells and contour, and exactly the ship's cells are marked `■`. |
| BoardSpec.FirstShipAt | sea_battle.py:103-104 | The loop over `ships_list` stops at the first ship holding the dot, or finds none. |
| BoardSpec.ShotRejects | sea_battle.py:97-101 | `shot` raises `BoardOutException` exactly for a dot off the map and `BoardBusyException` exactly for a used one, and then changes nothing. Every other dot is accepted. |
| BoardSpec.ShotShips | sea_battle.py:102-120 | An accepted shot takes one life from the first ship holding the dot and from no other ship. The count drops by one exactly when that ship reaches 0 lives. The result is true exactly for a hit that leaves the ship afloat. |
| BoardSpec.ShotListed | sea_battle.py:102-109 | An accepted shot appends the dot. After a sinking it also lists every on-map cell touching the sunk ship. Nothing else is listed. |
| BoardSpec.ShotMarks | sea_battle.py:106-117 | An accepted shot marks the dot `x` on a ship and `T` elsewhere, marks the newly listed contour cells `.`, and keeps every other mark. |
| BoardSpec.ShotTwiceIsBusy | sea_battle.py:100-102 | Shooting again at a dot that was shot successfully raises `BoardBusyException`. |
| Boards.Board.constructor | sea_battle.py:58-64 | The fields of a new board are those of `Initial`. |
| Boards.Board.NewBoardInGame | sea_battle.py:66-67 | Clears the used cells and changes nothing else. |
| Boards.Board.AddShip | sea_battle.py:69-77 | The two loops, the append and the call to `contour` leave the fields and the result as `AddShipSpec` says. |
| Boards.Board.Contour | sea_battle.py:79-92 | The three nested loops leave the fields as `ContourSpec` says. |
| Boards.Board.Visit | sea_battle.py:88-92 | One round of the innermost loop lists an unlisted on-map cell and, for status 0, marks it `.`. |
| Boards.Board.Shot | sea_battle.py:97-120 | The checks, the search loop and the sinking branch leave the fields and the result as `ShotSpec` says. |
| Invariants.InitialPlacing | sea_battle.py:58-64 | A new board is ready for placing. |
| Invariants.AddShipKeepsPlacing | sea_battle.py:69-92 | On a board being placed, `add_ship` accepts a ship exactly when it lies on the map and touches no earlier ship, even at a corner. Either way the board stays ready for placing. |
| Invariants.ClearedBoardInPlay | sea_battle.py:66-67 | A placed board whose count equals its number of ships satisfies `InPlay` once `new_board_in_game` clears its used cells. |
| Invariants.ShotKeepsInPlay | sea_battle.py:97-120 | `shot` keeps `InPlay`: ships on the map and apart, lives equal to length less cells shot at, count equal to ships afloat, contour of each sunk ship listed, and the map showing what was shot. |
| Invariants.ShotOutcome | sea_battle.py:103-120 | On a board in play, an accepted shot returns true exactly when it hits a ship and the count stays. The count drops by exactly one exactly when it hits a ship and returns false. |
| Invariants.AllSunk | sea_battle.py:231-238 | On a board in play with a count of 0, every ship has 0 lives and every one of its cells was shot at. |
| Game.PlaceFleet | sea_battle.py:172-185 | At most 1800 attempts (`add_ship` calls) are made. Giving up happens only after 1800 attempts with ships left to place. Success takes at least one attempt per ship. |
| Game.PlaceFleetGrows | sea_battle.py:174-185 | A successful placement appends one ship per fleet length, in order, keeps the count, and leaves the board ready for placing. |
| Game.RandomBoardReady | sea_battle.py:170-187 | A board is returned only with seven ships of lengths 3, 2, 2, 1, 1, 1, 1 in that order, no used cells, a count of 7, and `InPlay` holding. `None` only after 1800 attempts. |
| Game.CalculateRandomBoard | sea_battle.py:170-187 | The method returns null exactly when the placement gives up. Otherwise it returns a fresh board whose fields are `RandomBoard`'s. |
| Game.MoveFromShape | sea_battle.py:133-140 | Every dot before the one accepted was off the map or already used. The move's result and board are the accepted dot's shot. When no dot is accepted, all were rejected and the board is unchanged. |
| Game.MoveKeepsInPlay | sea_battle.py:133-140 | A move keeps the opponent's board in play. |
| Game.Move | sea_battle.py:133-140 | The retry loop on a board object leaves the board, result and number of dots used as `MoveSpec` says. |
| Game.PlayEnds | sea_battle.py:221-242 | Both boards stay in play. A loss is declared only when every ship of the user is sunk. A win only when every ship of the computer is sunk and the user still has a ship afloat, because the loss check comes first. |
| Game.PlayStops | sea_battle.py:221-242 | Starting with a count other than 0 on both boards (7 for a new board), the game ends `Lost` exactly when the user's count is 0 at the end, and `Won` exactly when the user's count is not 0 and the computer's is 0. So no turn is taken once a count reaches 0. |
| Game.Loop | sea_battle.py:221-242 | The loop on two board objects ends with the ending and boards `Play` gives: a hit keeps the shooter, anything else passes the turn. |

## Left out

- Console output, `sleep` pacing, `greet`, `battle_maps_print` and the exception messages (`sea_battle.py:12-18`, `203-219`) are not modelled. They are presentation only.
- `User.ask` (`sea_battle.py:152-166`) is not modelled. It parses console input, and the dots it returns are supplied as a sequence instead. Its range check at line 164 tests the wrong expression and does not retry, but `Board.shot` rejects any off-map dot anyway.
- `AI.ask` and every `randint` call (`sea_battle.py:143-149`, `179-180`) are replaced by input sequences. These are dots for a move and `Candidate` bows and orientations for placement. `calculate_random_board` draws bows from 0 to 6 inclusive; any bow in the candidates is allowed, and off-map ships are rejected by `add_ship` as in the source.
- Game.CalculateRandomBoard: requires at least 1800 candidates, as many as the attempt cap can consume. The source draws them on demand.
- Game.Move: when the supplied dots run out before one is accepted, the model returns `None`. The source would keep asking forever.
- Game.Loop: ends with `OutOfInput` when a player's supplied dots run out. The source would keep asking forever.
- `Game.random_board`, `Game.__init__`, `Game.start` and the module-level start-up (`sea_battle.py:189-201`, `244-250`) are not modelled. The restart loop ends only with probability 1. Start-up only wires two boards to two players.
- The `hid` and `size_of_map` parameters of `Board.__init__` are not modelled. Every board the game builds is 6x6, and `out` tests the bound 6 itself.
- Ships are values in a list, so the model does not capture Python's object identity for ships. No other reference to a `Ship` object exists in the source, so a lives update through the list is the only one.
