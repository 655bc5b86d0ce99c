/** What a board of sea_battle.py keeps true: while `Game.calculate_random_board` places
    the fleet, and while `Game.loop` shoots at it. */
module Invariants {
  import opened Grid
  import opened BoardSpec

  /** No two ships of the list touch, not even at a corner. */
  predicate Separated(ships: seq<Ship>)
  {
    forall i, j :: 0 <= i < |ships| && 0 <= j < |ships| && i != j ==> Apart(ships[i], ships[j])
  }

  /** Every ship has a cell count equal to its length, lies on the map, and
      touches no other ship. */
  predicate Fleet(ships: seq<Ship>)
  {
    && (forall i :: 0 <= i < |ships| ==> ships[i].length >= 1 && OnMap(ships[i]))
    && Separated(ships)
  }

  /** Some ship of the list has `c` among its cells. */
  predicate OnShip(ships: seq<Ship>, c: Dot)
  {
    exists i :: 0 <= i < |ships| && c in ShipCells(ships[i])
  }

  /** The list of used cells holds exactly the on-map cells that are a ship
      cell or a neighbour of one: what `add_ship` leaves behind. */
  ghost predicate Guarded(s: BoardState)
  {
    && (forall i, c :: 0 <= i < |s.ships| && !Out(c) && Touches(c, s.ships[i]) ==> c in s.occupied)
    && (forall c :: c in s.occupied ==> exists i :: 0 <= i < |s.ships| && Touches(c, s.ships[i]))
  }

  /** While the fleet is placed: ships on the map and apart, none hit yet,
      the used cells guarded, and the map showing `SHIP` on exactly the ship
      cells and `EMPTY` everywhere else. */
  ghost predicate Placing(s: BoardState)
  {
    && WellFormed(s)
    && Fleet(s.ships)
    && (forall i :: 0 <= i < |s.ships| ==> s.ships[i].lives == s.ships[i].length)
    && Guarded(s)
    && (forall i, j :: 0 <= i < SIZE && 0 <= j < SIZE ==>
          s.marks[i][j] == if OnShip(s.ships, Dot(i, j)) then SHIP else EMPTY)
  }

  /** How many cells of the ship are listed as shot at. */
  ghost function Hits(ship: Ship, occ: seq<Dot>): nat
  {
    |set c | c in ShipCells(ship) && c in occ|
  }

  /** How many ships of the list have lives left. */
  function Afloat(ships: seq<Ship>): nat
  {
    if ships == [] then 0
    else Afloat(ships[..|ships| - 1]) + (if ships[|ships| - 1].lives > 0 then 1 else 0)
  }

  /** What the map shows for a cell during the game: `SHIP` for a ship cell
      not shot at, `HIT` for one shot at, `EMPTY` for any other cell not
      shot at, and `MISS` or `BUFFER` for any other listed cell. */
  predicate Shown(s: BoardState, c: Dot, mark: char)
  {
    if OnShip(s.ships, c) then mark == (if c in s.occupied then HIT else SHIP)
    else if c in s.occupied then mark == MISS || mark == BUFFER
    else mark == EMPTY
  }

  /** Each ship's lives are its length less the cells of it shot at. */
  ghost predicate Wounded(s: BoardState)
  {
    forall i :: 0 <= i < |s.ships| ==> s.ships[i].lives == s.ships[i].length - Hits(s.ships[i], s.occupied)
  }

  /** Every on-map cell around a sunk ship is listed. */
  ghost predicate Surrounded(s: BoardState)
  {
    forall i, c :: 0 <= i < |s.ships| && s.ships[i].lives == 0 && !Out(c) && Touches(c, s.ships[i]) ==> c in s.occupied
  }

  /** The map shows what was shot. */
  predicate ShowsShots(s: BoardState)
    requires MarksShape(s.marks)
  {
    forall i, j :: 0 <= i < SIZE && 0 <= j < SIZE ==> Shown(s, Dot(i, j), s.marks[i][j])
  }

  /** During the game: ships on the map and apart, each ship's lives its
      length less the cells of it shot at, `live_ships_count` the number of
      ships afloat, every on-map cell around a sunk ship listed, and the
      map showing what was shot. */
  ghost predicate InPlay(s: BoardState)
  {
    && WellFormed(s)
    && Fleet(s.ships)
    && Wounded(s)
    && s.liveShips == Afloat(s.ships)
    && Surrounded(s)
    && ShowsShots(s)
  }

  /** A fresh board is ready for placing. */
  lemma InitialPlacing()
    ensures Placing(Initial())
  {
  }

  /** `add_ship` accepts a ship exactly when it lies on the map and touches
      no ship placed before, and an accepted ship keeps the board ready for
      placing. */
  lemma AddShipKeepsPlacing(s: BoardState, ship: Ship)
    requires Placing(s) && ship.length >= 1 && ship.lives == ship.length
    ensures var st := AddShipSpec(s, ship);
      && (st.result.Ok? <==> OnMap(ship) && forall i :: 0 <= i < |s.ships| ==> Apart(s.ships[i], ship))
      && Placing(st.state)
  {
    AddShipEffect(s, ship);
    if Fits(s.occupied, ShipCells(ship)) {
      FitsIsApart(s, ship);
      PlacedFleet(s, ship, AddShipSpec(s, ship).state);
    } else {
      MisfitTouches(s, ship);
    }
  }

  /** A ship whose cells are on the map and unlisted touches no placed ship. */
  lemma FitsIsApart(s: BoardState, ship: Ship)
    requires Placing(s) && Fits(s.occupied, ShipCells(ship))
    ensures OnMap(ship)
    ensures forall i :: 0 <= i < |s.ships| ==> Apart(s.ships[i], ship) && Apart(ship, s.ships[i])
  {
    var cells := ShipCells(ship);
    forall i | 0 <= i < |s.ships| ensures Apart(s.ships[i], ship) && Apart(ship, s.ships[i]) {
      forall c, e | c in ShipCells(s.ships[i]) && e in cells ensures !Near(c, e) {
        var n :| 0 <= n < |cells| && cells[n] == e;
        if Near(c, e) {
          assert false;
        }
      }
    }
    forall c | c in cells ensures !Out(c) {
      var n :| 0 <= n < |cells| && cells[n] == c;
    }
  }

  /** A ship with a cell off the map or listed is off the map or touches a
      placed ship. */
  lemma MisfitTouches(s: BoardState, ship: Ship)
    requires Placing(s) && !Fits(s.occupied, ShipCells(ship))
    ensures !OnMap(ship) || exists i :: 0 <= i < |s.ships| && !Apart(s.ships[i], ship)
  {
    var cells := ShipCells(ship);
    var n :| 0 <= n < |cells| && (Out(cells[n]) || cells[n] in s.occupied);
    var c := cells[n];
    assert c in cells;
    if !Out(c) {
      assert c in s.occupied;
      var i :| 0 <= i < |s.ships| && Touches(c, s.ships[i]);
      var e :| e in ShipCells(s.ships[i]) && Near(c, e);
      assert Near(e, c);
      assert !Apart(s.ships[i], ship);
    }
  }

  /** The board after an accepted `add_ship` is ready for placing. */
  lemma PlacedFleet(s: BoardState, ship: Ship, t: BoardState)
    requires Placing(s) && ship.length >= 1 && ship.lives == ship.length && OnMap(ship)
    requires forall i :: 0 <= i < |s.ships| ==> Apart(s.ships[i], ship) && Apart(ship, s.ships[i])
    requires WellFormed(t) && t.ships == s.ships + [ship]
    requires forall c :: c in t.occupied <==> c in s.occupied || (!Out(c) && Touches(c, ship))
    requires forall i, j :: 0 <= i < SIZE && 0 <= j < SIZE ==>
      t.marks[i][j] == if Dot(i, j) in ShipCells(ship) then SHIP else s.marks[i][j]
    ensures Placing(t)
  {
    PlacedApart(s.ships, ship);
    PlacedGuarded(s, ship, t);
    PlacedDrawn(s, ship, t);
  }

  /** Appending a ship that touches none of a fleet keeps it a fleet. */
  lemma PlacedApart(ships: seq<Ship>, ship: Ship)
    requires Fleet(ships) && ship.length >= 1 && OnMap(ship)
    requires forall i :: 0 <= i < |ships| ==> Apart(ships[i], ship) && Apart(ship, ships[i])
    ensures Fleet(ships + [ship])
  {
    var t := ships + [ship];
    forall i, j | 0 <= i < |t| && 0 <= j < |t| && i != j ensures Apart(t[i], t[j]) {
      if i < |ships| && j < |ships| {
        assert t[i] == ships[i] && t[j] == ships[j];
      }
    }
  }

  /** The used cells stay guarded when a ship and its contour are added. */
  lemma PlacedGuarded(s: BoardState, ship: Ship, t: BoardState)
    requires Guarded(s) && t.ships == s.ships + [ship]
    requires forall c :: c in t.occupied <==> c in s.occupied || (!Out(c) && Touches(c, ship))
    ensures Guarded(t)
  {
    var n := |s.ships|;
    assert t.ships[n] == ship;
    forall c | c in t.occupied ensures exists i :: 0 <= i < |t.ships| && Touches(c, t.ships[i]) {
      if c in s.occupied {
        var i :| 0 <= i < |s.ships| && Touches(c, s.ships[i]);
        assert t.ships[i] == s.ships[i];
      } else {
        assert Touches(c, t.ships[n]);
      }
    }
    forall i, c | 0 <= i < |t.ships| && !Out(c) && Touches(c, t.ships[i]) ensures c in t.occupied {
      if i < n {
        assert t.ships[i] == s.ships[i];
      }
    }
  }

  /** The map shows `SHIP` on exactly the ship cells once a ship is drawn. */
  lemma PlacedDrawn(s: BoardState, ship: Ship, t: BoardState)
    requires MarksShape(s.marks) && MarksShape(t.marks) && t.ships == s.ships + [ship]
    requires forall i, j :: 0 <= i < SIZE && 0 <= j < SIZE ==>
      s.marks[i][j] == if OnShip(s.ships, Dot(i, j)) then SHIP else EMPTY
    requires forall i, j :: 0 <= i < SIZE && 0 <= j < SIZE ==>
      t.marks[i][j] == if Dot(i, j) in ShipCells(ship) then SHIP else s.marks[i][j]
    ensures forall i, j :: 0 <= i < SIZE && 0 <= j < SIZE ==>
      t.marks[i][j] == if OnShip(t.ships, Dot(i, j)) then SHIP else EMPTY
  {
    var n := |s.ships|;
    forall i, j | 0 <= i < SIZE && 0 <= j < SIZE
      ensures t.marks[i][j] == if OnShip(t.ships, Dot(i, j)) then SHIP else EMPTY
    {
      var c := Dot(i, j);
      if OnShip(s.ships, c) {
        var m :| 0 <= m < |s.ships| && c in ShipCells(s.ships[m]);
        assert t.ships[m] == s.ships[m];
      } else if c in ShipCells(ship) {
        assert c in ShipCells(t.ships[n]);
      }
    }
  }

  /** `new_board_in_game` on a fully placed board: with the used cells
      cleared and every ship counted live, the game can start. */
  lemma ClearedBoardInPlay(s: BoardState)
    requires Placing(s) && s.liveShips == |s.ships|
    ensures InPlay(s.(occupied := []))
  {
    AfloatAll(s.ships);
    var t := s.(occupied := []);
    forall i | 0 <= i < |s.ships| ensures Hits(s.ships[i], []) == 0 {
      assert (set c | c in ShipCells(s.ships[i]) && c in []) == {};
    }
  }

  /** When every ship has lives, all of them are afloat. */
  lemma {:induction false} AfloatAll(ships: seq<Ship>)
    requires forall i :: 0 <= i < |ships| ==> ships[i].lives > 0
    ensures Afloat(ships) == |ships|
  {
    if ships != [] {
      AfloatAll(ships[..|ships| - 1]);
    }
  }

  /** When no ship is afloat, none has lives left. */
  lemma {:induction false} AfloatZero(ships: seq<Ship>)
    requires Afloat(ships) == 0
    ensures forall i :: 0 <= i < |ships| ==> ships[i].lives <= 0
  {
    if ships != [] {
      AfloatZero(ships[..|ships| - 1]);
      assert forall i :: 0 <= i < |ships| - 1 ==> ships[..|ships| - 1][i] == ships[i];
    }
  }

  /** Replacing one ship changes the count afloat by that ship's change. */
  lemma {:induction false} AfloatUpdate(ships: seq<Ship>, k: nat, ship: Ship)
    requires k < |ships|
    ensures Afloat(ships[k := ship]) ==
      Afloat(ships) - (if ships[k].lives > 0 then 1 else 0) + (if ship.lives > 0 then 1 else 0)
  {
    var n := |ships| - 1;
    var t := ships[k := ship];
    if k < n {
      AfloatUpdate(ships[..n], k, ship);
      assert t[..n] == ships[..n][k := ship];
    } else {
      assert t[..n] == ships[..n];
    }
  }

  /** A ship of length at least 1 takes at most `length` hits, and exactly
      `length` when every one of its cells is listed. */
  lemma HitsBound(ship: Ship, occ: seq<Dot>)
    requires ship.length >= 1
    ensures Hits(ship, occ) <= ship.length
    ensures Hits(ship, occ) == ship.length <==> forall c :: c in ShipCells(ship) ==> c in occ
  {
    CellSetSize(ship);
    var hit := set c | c in ShipCells(ship) && c in occ;
    if forall c :: c in ShipCells(ship) ==> c in occ {
      assert hit == CellSet(ship);
    } else {
      var c :| c in ShipCells(ship) && c !in occ;
      assert c in CellSet(ship);
      SubsetCard(hit, CellSet(ship) - {c});
    }
  }

  /** A subset has no more elements than its superset. */
  lemma {:induction false} SubsetCard(a: set<Dot>, b: set<Dot>)
    requires a <= b
    ensures |a| <= |b|
  {
    if a != {} {
      var x :| x in a;
      SubsetCard(a - {x}, b - {x});
    }
  }

  /** The hits of a ship depend only on which of its own cells are listed. */
  lemma HitsSame(ship: Ship, occ: seq<Dot>, occ2: seq<Dot>)
    requires forall c :: c in ShipCells(ship) ==> (c in occ2 <==> c in occ)
    ensures Hits(ship, occ2) == Hits(ship, occ)
  {
    assert (set c | c in ShipCells(ship) && c in occ2) == (set c | c in ShipCells(ship) && c in occ);
  }

  /** Listing one more cell of the ship adds one hit. */
  lemma HitsOneMore(ship: Ship, occ: seq<Dot>, occ2: seq<Dot>, d: Dot)
    requires d in ShipCells(ship) && d !in occ
    requires forall c :: c in ShipCells(ship) ==> (c in occ2 <==> c in occ || c == d)
    ensures Hits(ship, occ2) == Hits(ship, occ) + 1
  {
    var hit := set c | c in ShipCells(ship) && c in occ;
    assert (set c | c in ShipCells(ship) && c in occ2) == hit + {d};
  }

  /** Changing a ship's lives keeps the fleet's layout. */
  lemma FleetIgnoresLives(ships: seq<Ship>, k: nat, lives: int)
    requires Fleet(ships) && k < |ships|
    ensures var t := ships[k := ships[k].(lives := lives)];
      && Fleet(t)
      && (forall i :: 0 <= i < |t| ==> ShipCells(t[i]) == ShipCells(ships[i]))
      && (forall c :: OnShip(t, c) <==> OnShip(ships, c))
  {
    CellsIgnoreLives(ships[k], lives);
    var t := ships[k := ships[k].(lives := lives)];
    assert forall i :: 0 <= i < |t| ==> ShipCells(t[i]) == ShipCells(ships[i]);
  }

  /** On a board in play, a cell belongs to at most one ship. */
  lemma OnlyShipAt(ships: seq<Ship>, k: nat, d: Dot)
    requires Fleet(ships) && k < |ships| && d in ShipCells(ships[k])
    ensures forall j :: 0 <= j < |ships| && j != k ==> d !in ShipCells(ships[j])
  {
    forall j | 0 <= j < |ships| && j != k ensures d !in ShipCells(ships[j]) {
      assert Apart(ships[j], ships[k]);
      assert Near(d, d);
    }
  }

  /** A ship holding an unlisted cell is afloat, and when it has one life
      left that cell is the only one of it not shot at. */
  lemma LastCell(s: BoardState, d: Dot, k: nat)
    requires InPlay(s) && d !in s.occupied && k < |s.ships| && d in ShipCells(s.ships[k])
    ensures s.ships[k].lives >= 1
    ensures s.ships[k].lives == 1 ==> forall c :: c in ShipCells(s.ships[k]) ==> c in s.occupied || c == d
  {
    var ship := s.ships[k];
    HitsBound(ship, s.occupied);
    if ship.lives == 1 {
      HitsOneMore(ship, s.occupied, s.occupied + [d], d);
      HitsBound(ship, s.occupied + [d]);
    }
  }

  /** An accepted shot lists, among ship cells, the shot dot and nothing
      else: the contour of a sunk ship is never a ship cell. */
  lemma ShotShipCells(s: BoardState, d: Dot, k: nat, t: BoardState)
    requires InPlay(s) && !Out(d) && d !in s.occupied && k == FirstShipAt(s.ships, d)
    requires forall c :: c in t.occupied <==>
      c in s.occupied || c == d || (k < |s.ships| && s.ships[k].lives == 1 && !Out(c) && Touches(c, s.ships[k]))
    ensures forall c :: OnShip(s.ships, c) ==> (c in t.occupied <==> c in s.occupied || c == d)
  {
    if k < |s.ships| && s.ships[k].lives == 1 {
      LastCell(s, d, k);
      forall c | OnShip(s.ships, c) && Touches(c, s.ships[k]) ensures c in s.occupied || c == d {
        var j :| 0 <= j < |s.ships| && c in ShipCells(s.ships[j]);
        assert j == k;
      }
    }
  }

  /** `shot` keeps a board in play. */
  lemma ShotKeepsInPlay(s: BoardState, d: Dot)
    requires InPlay(s)
    ensures InPlay(ShotSpec(s, d).state)
  {
    ShotRejects(s, d);
    if !Out(d) && d !in s.occupied {
      var k := FirstShipAt(s.ships, d);
      ShotShips(s, d, k);
      ShotListed(s, d, k);
      ShotMarks(s, d, k);
      AcceptedShotInPlay(s, d, k, ShotSpec(s, d).state);
    }
  }

  /** A board in play stays in play when an unlisted on-map dot is shot:
      `t` is any board changed as `ShotShips`, `ShotListed` and `ShotMarks`
      say an accepted shot changes it. */
  lemma AcceptedShotInPlay(s: BoardState, d: Dot, k: nat, t: BoardState)
    requires InPlay(s) && !Out(d) && d !in s.occupied && WellFormed(t)
    requires k == FirstShipAt(s.ships, d)
    requires t.ships == (if k < |s.ships| then s.ships[k := s.ships[k].(lives := s.ships[k].lives - 1)] else s.ships)
    requires t.liveShips == (if k < |s.ships| && s.ships[k].lives == 1 then s.liveShips - 1 else s.liveShips)
    requires forall c :: c in t.occupied <==>
      c in s.occupied || c == d || (k < |s.ships| && s.ships[k].lives == 1 && !Out(c) && Touches(c, s.ships[k]))
    requires forall i, j :: 0 <= i < SIZE && 0 <= j < SIZE ==>
      t.marks[i][j] ==
        if Dot(i, j) == d then (if k < |s.ships| then HIT else MISS)
        else if Dot(i, j) in t.occupied && Dot(i, j) !in s.occupied then BUFFER
        else s.marks[i][j]
    ensures InPlay(t)
  {
    assert ShipsAfterShot(s, d, k, t);
    FleetAfterShot(s, d, k, t);
    CountAfterShot(s, d, k, t);
    WoundsAfterShot(s, d, k, t);
    SurroundedAfterShot(s, d, k, t);
    ShownAfterShot(s, d, k, t);
  }

  /** The ships after a shot at an unlisted dot `d`: the ship `k` holding
      it, if any, has lost one life, and no other ship changed. */
  ghost predicate ShipsAfterShot(s: BoardState, d: Dot, k: nat, t: BoardState)
  {
    && k == FirstShipAt(s.ships, d)
    && t.ships == (if k < |s.ships| then s.ships[k := s.ships[k].(lives := s.ships[k].lives - 1)] else s.ships)
  }

  /** The layout of the fleet survives the shot. */
  lemma FleetAfterShot(s: BoardState, d: Dot, k: nat, t: BoardState)
    requires Fleet(s.ships) && ShipsAfterShot(s, d, k, t)
    ensures Fleet(t.ships)
  {
    if k < |s.ships| {
      FleetIgnoresLives(s.ships, k, s.ships[k].lives - 1);
    }
  }

  /** `live_ships_count` still counts the ships afloat after the shot. */
  lemma CountAfterShot(s: BoardState, d: Dot, k: nat, t: BoardState)
    requires InPlay(s) && d !in s.occupied && ShipsAfterShot(s, d, k, t)
    requires t.liveShips == (if k < |s.ships| && s.ships[k].lives == 1 then s.liveShips - 1 else s.liveShips)
    ensures t.liveShips == Afloat(t.ships)
  {
    if k < |s.ships| {
      LastCell(s, d, k);
      AfloatUpdate(s.ships, k, s.ships[k].(lives := s.ships[k].lives - 1));
    }
  }

  /** Lives still match hits after the shot. */
  lemma WoundsAfterShot(s: BoardState, d: Dot, k: nat, t: BoardState)
    requires InPlay(s) && !Out(d) && d !in s.occupied && ShipsAfterShot(s, d, k, t)
    requires forall c :: c in t.occupied <==>
      c in s.occupied || c == d || (k < |s.ships| && s.ships[k].lives == 1 && !Out(c) && Touches(c, s.ships[k]))
    ensures Wounded(t)
  {
    ShotShipCells(s, d, k, t);
    if k < |s.ships| {
      FleetIgnoresLives(s.ships, k, s.ships[k].lives - 1);
      OnlyShipAt(s.ships, k, d);
    }
    forall i | 0 <= i < |t.ships| ensures t.ships[i].lives == t.ships[i].length - Hits(t.ships[i], t.occupied) {
      var ship := s.ships[i];
      assert ShipCells(t.ships[i]) == ShipCells(ship);
      forall c | c in ShipCells(ship) ensures c in t.occupied <==> c in s.occupied || c == d {
        assert OnShip(s.ships, c);
      }
      if i == k {
        HitsOneMore(ship, s.occupied, t.occupied, d);
      } else {
        HitsSame(ship, s.occupied, t.occupied);
      }
    }
  }

  /** Sunk ships stay surrounded after the shot. */
  lemma SurroundedAfterShot(s: BoardState, d: Dot, k: nat, t: BoardState)
    requires InPlay(s) && d !in s.occupied && ShipsAfterShot(s, d, k, t)
    requires forall c :: c in t.occupied <==>
      c in s.occupied || c == d || (k < |s.ships| && s.ships[k].lives == 1 && !Out(c) && Touches(c, s.ships[k]))
    ensures Surrounded(t)
  {
    if k < |s.ships| {
      FleetIgnoresLives(s.ships, k, s.ships[k].lives - 1);
      LastCell(s, d, k);
    }
    forall i, c | 0 <= i < |t.ships| && t.ships[i].lives == 0 && !Out(c) && Touches(c, t.ships[i]) ensures c in t.occupied {
      assert ShipCells(t.ships[i]) == ShipCells(s.ships[i]);
      assert Touches(c, s.ships[i]);
    }
  }

  /** The map still shows what was shot after the shot. */
  lemma ShownAfterShot(s: BoardState, d: Dot, k: nat, t: BoardState)
    requires InPlay(s) && !Out(d) && d !in s.occupied && ShipsAfterShot(s, d, k, t) && MarksShape(t.marks)
    requires forall c :: c in t.occupied <==>
      c in s.occupied || c == d || (k < |s.ships| && s.ships[k].lives == 1 && !Out(c) && Touches(c, s.ships[k]))
    requires forall i, j :: 0 <= i < SIZE && 0 <= j < SIZE ==>
      t.marks[i][j] ==
        if Dot(i, j) == d then (if k < |s.ships| then HIT else MISS)
        else if Dot(i, j) in t.occupied && Dot(i, j) !in s.occupied then BUFFER
        else s.marks[i][j]
    ensures ShowsShots(t)
  {
    ShotShipCells(s, d, k, t);
    if k < |s.ships| {
      FleetIgnoresLives(s.ships, k, s.ships[k].lives - 1);
    }
    assert OnShip(s.ships, d) <==> k < |s.ships|;
    forall i, j | 0 <= i < SIZE && 0 <= j < SIZE ensures Shown(t, Dot(i, j), t.marks[i][j]) {
      var c := Dot(i, j);
      assert Shown(s, c, s.marks[i][j]);
      ShownCell(s, t, d, c, s.marks[i][j], t.marks[i][j]);
    }
  }

  /** One cell of the map after the shot at `d`. */
  lemma ShownCell(s: BoardState, t: BoardState, d: Dot, c: Dot, before: char, after: char)
    requires Shown(s, c, before)
    requires OnShip(t.ships, c) == OnShip(s.ships, c)
    requires OnShip(s.ships, c) ==> (c in t.occupied <==> c in s.occupied || c == d)
    requires c in s.occupied ==> c in t.occupied
    requires c == d ==> c in t.occupied && c !in s.occupied
    requires after ==
      if c == d then (if OnShip(s.ships, d) then HIT else MISS)
      else if c in t.occupied && c !in s.occupied then BUFFER
      else before
    ensures Shown(t, c, after)
  {
  }

  /** On a board in play, a shot at a fresh on-map dot is accepted; it
      returns true exactly when it hits a ship and sinks none, and
      `live_ships_count` drops, by one, exactly when it hits a ship and
      returns false. */
  lemma ShotOutcome(s: BoardState, d: Dot)
    requires InPlay(s) && !Out(d) && d !in s.occupied
    ensures var st := ShotSpec(s, d);
      && st.result.Ok?
      && (st.result.value <==> OnShip(s.ships, d) && st.state.liveShips == s.liveShips)
      && (st.state.liveShips == s.liveShips - 1 <==> OnShip(s.ships, d) && !st.result.value)
      && s.liveShips - 1 <= st.state.liveShips <= s.liveShips
  {
    var k := FirstShipAt(s.ships, d);
    ShotShips(s, d, k);
    assert OnShip(s.ships, d) <==> k < |s.ships|;
    if k < |s.ships| {
      LastCell(s, d, k);
    }
  }

  /** With `live_ships_count` at 0, every ship of a board in play has lost
      all its lives and every one of its cells was shot at. */
  lemma AllSunk(s: BoardState)
    requires InPlay(s) && s.liveShips == 0
    ensures forall i :: 0 <= i < |s.ships| ==>
      s.ships[i].lives == 0 && forall c :: c in ShipCells(s.ships[i]) ==> c in s.occupied
  {
    AfloatZero(s.ships);
    forall i | 0 <= i < |s.ships| ensures s.ships[i].lives == 0 && forall c :: c in ShipCells(s.ships[i]) ==> c in s.occupied {
      HitsBound(s.ships[i], s.occupied);
    }
  }
}
