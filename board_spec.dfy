/** The state of a `Board` of sea_battle.py as a value, and the effect of
    `add_ship`, `contour` and `shot` on it as functions. The class in
    board.dfy is proved to change its fields exactly as these functions say. */
module BoardSpec {
  import opened Grid

  datatype Option<+T> = None | Some(value: T)

  /** The three exception classes a board raises. */
  datatype BoardError = BoardOut | BoardBusy | BoardWrongShip

  /** A value or the exception raised instead. */
  datatype Result<+T> = Ok(value: T) | Err(error: BoardError)

  /** Marks of the battle map. */
  const EMPTY: char := 'o'
  const SHIP: char := '■'
  const HIT: char := 'x'
  const MISS: char := 'T'
  const BUFFER: char := '.'

  /** `live_ships_count` of a fresh board. */
  const START_SHIPS: int := 7

  /** The fields of a board: `ships_list`, `live_ships_count`,
      `occupied_dots` and `battle_map`. */
  datatype BoardState = BoardState(ships: seq<Ship>, liveShips: int, occupied: seq<Dot>, marks: seq<seq<char>>)

  /** The state after an operation together with what it returned or raised. */
  datatype Step<+T> = Step(state: BoardState, result: Result<T>)

  predicate MarksShape(m: seq<seq<char>>)
  {
    |m| == SIZE && forall i :: 0 <= i < SIZE ==> |m[i]| == SIZE
  }

  /** The battle map is 6x6 and every listed dot lies on it. */
  predicate WellFormed(s: BoardState)
  {
    MarksShape(s.marks) && forall c :: c in s.occupied ==> !Out(c)
  }

  /** A board as `Board.__init__` builds it. */
  function Initial(): (s: BoardState)
    ensures WellFormed(s) && s.ships == [] && s.occupied == []
  {
    BoardState([], START_SHIPS, [], seq(SIZE, _ => seq(SIZE, _ => EMPTY)))
  }

  /** `battle_map[d.x][d.y] = c`. */
  function Mark(m: seq<seq<char>>, d: Dot, c: char): (r: seq<seq<char>>)
    requires MarksShape(m) && !Out(d)
    ensures MarksShape(r)
  {
    m[d.x := m[d.x][d.y := c]]
  }

  /** The map after marking every dot of `ds`, first to last, with `c`. */
  function MarkAll(m: seq<seq<char>>, ds: seq<Dot>, c: char): (r: seq<seq<char>>)
    requires MarksShape(m) && forall d :: d in ds ==> !Out(d)
    ensures MarksShape(r)
    decreases |ds|
  {
    if ds == [] then m
    else Mark(MarkAll(m, ds[..|ds| - 1], c), ds[|ds| - 1], c)
  }

  /** After marking `ds`, a cell holds `c` exactly when it is one of `ds`;
      every other cell keeps its mark. */
  lemma {:induction false} MarkAllAt(m: seq<seq<char>>, ds: seq<Dot>, c: char)
    requires MarksShape(m) && forall d :: d in ds ==> !Out(d)
    ensures forall i, j :: 0 <= i < SIZE && 0 <= j < SIZE ==>
      MarkAll(m, ds, c)[i][j] == if Dot(i, j) in ds then c else m[i][j]
    decreases |ds|
  {
    if ds != [] {
      var front := ds[..|ds| - 1];
      MarkAllAt(m, front, c);
      assert forall d :: d in ds <==> d in front || d == ds[|ds| - 1];
    }
  }

  /** Pointwise reading of `Mark`. */
  lemma MarkAt(m: seq<seq<char>>, d: Dot, c: char)
    requires MarksShape(m) && !Out(d)
    ensures forall i, j :: 0 <= i < SIZE && 0 <= j < SIZE ==> Mark(m, d, c)[i][j] == if Dot(i, j) == d then c else m[i][j]
  {
  }

  /** One round of `add_ship`'s drawing loop: drawing and listing cell `i`
      extends the drawn and listed prefix by one. */
  lemma PlaceStep(s: BoardState, cells: seq<Dot>, i: nat)
    requires WellFormed(s) && i < |cells| && Fits(s.occupied, cells)
    ensures s.occupied + cells[..i + 1] == (s.occupied + cells[..i]) + [cells[i]]
    ensures MarkAll(s.marks, cells[..i + 1], SHIP) == Mark(MarkAll(s.marks, cells[..i], SHIP), cells[i], SHIP)
  {
    assert cells[..i + 1] == cells[..i] + [cells[i]];
    MarkAllSnoc(s.marks, cells[..i], cells[i], SHIP);
  }

  lemma MarkAllSnoc(m: seq<seq<char>>, ds: seq<Dot>, d: Dot, c: char)
    requires MarksShape(m) && !Out(d) && forall e :: e in ds ==> !Out(e)
    ensures MarkAll(m, ds + [d], c) == Mark(MarkAll(m, ds, c), d, c)
  {
    assert (ds + [d])[..|ds|] == ds;
  }

  /** The nine cells visited for one ship cell `d`: `delta_y` in the outer
      loop, `delta_x` in the inner one, each running over -1, 0, 1. */
  function Around(d: Dot): seq<Dot>
  {
    [Dot(d.x - 1, d.y - 1), Dot(d.x, d.y - 1), Dot(d.x + 1, d.y - 1),
     Dot(d.x - 1, d.y), Dot(d.x, d.y), Dot(d.x + 1, d.y),
     Dot(d.x - 1, d.y + 1), Dot(d.x, d.y + 1), Dot(d.x + 1, d.y + 1)]
  }

  lemma AroundAt(d: Dot, deltaX: int, deltaY: int)
    requires -1 <= deltaX <= 1 && -1 <= deltaY <= 1
    ensures Around(d)[3 * (deltaY + 1) + deltaX + 1] == Dot(d.x + deltaX, d.y + deltaY)
  {
  }

  lemma VisitOneMore(done: seq<Dot>, around: seq<Dot>, j: nat)
    requires j < |around|
    ensures done + around[..j + 1] == (done + around[..j]) + [around[j]]
  {
  }

  /** All cells `contour` visits for a ship with the given cells, in order. */
  function Candidates(cells: seq<Dot>): seq<Dot>
    decreases |cells|
  {
    if cells == [] then [] else Candidates(cells[..|cells| - 1]) + Around(cells[|cells| - 1])
  }

  /** The outer loop of `contour` has visited the first `k + 1` ship cells
      once it has visited all nine cells around cell `k`. */
  lemma CandidatesStep(cells: seq<Dot>, k: nat)
    requires k < |cells|
    ensures Candidates(cells[..k + 1]) == Candidates(cells[..k]) + Around(cells[k])[..9]
  {
    assert cells[..k + 1][..k] == cells[..k];
    assert Around(cells[k])[..9] == Around(cells[k]);
  }

  /** `c` is a cell of the ship or one of their neighbours. */
  predicate Touches(c: Dot, ship: Ship)
  {
    exists e :: e in ShipCells(ship) && Near(c, e)
  }

  lemma AroundNear(d: Dot)
    ensures forall c :: c in Around(d) <==> Near(c, d)
  {
  }

  /** The cells `contour` visits are exactly the cells within distance 1
      of some ship cell. */
  lemma {:induction false} CandidatesNear(cells: seq<Dot>)
    ensures forall c :: c in Candidates(cells) <==> exists e :: e in cells && Near(c, e)
    decreases |cells|
  {
    if cells != [] {
      var front, last := cells[..|cells| - 1], cells[|cells| - 1];
      CandidatesNear(front);
      AroundNear(last);
      forall c | c in Candidates(cells) ensures exists e :: e in cells && Near(c, e) {
        if c in Around(last) {
          assert last in cells;
        } else {
          assert c in Candidates(front);
          var e :| e in front && Near(c, e);
          assert e in cells;
        }
      }
      forall c | (exists e :: e in cells && Near(c, e)) ensures c in Candidates(cells) {
        var e :| e in cells && Near(c, e);
        if e != last {
          assert e in front;
        }
      }
    }
  }

  /** One round of the innermost loop of `contour`: an on-map cell not yet
      listed is listed and, with status 0 (a sunk ship), marked `BUFFER`. */
  function VisitCell(t: BoardState, c: Dot, shipStatus: int): (u: BoardState)
    requires WellFormed(t)
    ensures WellFormed(u)
  {
    if !Out(c) && c !in t.occupied then
      t.(occupied := t.occupied + [c], marks := if shipStatus == 0 then Mark(t.marks, c, BUFFER) else t.marks)
    else t
  }

  /** The board after `contour` has visited the cells `cands`, in order. */
  function ContourVisit(s: BoardState, cands: seq<Dot>, shipStatus: int): (t: BoardState)
    requires WellFormed(s)
    ensures WellFormed(t)
    decreases |cands|
  {
    if cands == [] then s
    else VisitCell(ContourVisit(s, cands[..|cands| - 1], shipStatus), cands[|cands| - 1], shipStatus)
  }

  lemma ContourVisitSnoc(s: BoardState, cands: seq<Dot>, c: Dot, shipStatus: int)
    requires WellFormed(s)
    ensures ContourVisit(s, cands + [c], shipStatus) == VisitCell(ContourVisit(s, cands, shipStatus), c, shipStatus)
  {
    assert (cands + [c])[..|cands|] == cands;
  }

  /** Visiting keeps the ships, the count and the old list as a prefix; it
      appends each on-map candidate not yet listed, once, and nothing else;
      with status 0 exactly the appended cells are marked `BUFFER`, and
      every other cell keeps its mark. */
  lemma {:induction false} ContourVisitEffect(s: BoardState, cands: seq<Dot>, shipStatus: int)
    requires WellFormed(s)
    ensures var t := ContourVisit(s, cands, shipStatus);
      && t.ships == s.ships && t.liveShips == s.liveShips
      && |s.occupied| <= |t.occupied| && t.occupied[..|s.occupied|] == s.occupied
      && (forall i :: |s.occupied| <= i < |t.occupied| ==> t.occupied[i] !in t.occupied[..i])
      && (forall c :: c in t.occupied <==> c in s.occupied || (c in cands && !Out(c)))
      && (forall i, j :: 0 <= i < SIZE && 0 <= j < SIZE ==>
            t.marks[i][j] == if shipStatus == 0 && Dot(i, j) in t.occupied && Dot(i, j) !in s.occupied then BUFFER else s.marks[i][j])
    decreases |cands|
  {
    if cands != [] {
      var front, c := cands[..|cands| - 1], cands[|cands| - 1];
      ContourVisitEffect(s, front, shipStatus);
      var t0 := ContourVisit(s, front, shipStatus);
      assert forall e :: e in cands <==> e in front || e == c;
      if !Out(c) && c !in t0.occupied {
        var occ := t0.occupied + [c];
        assert occ[..|s.occupied|] == t0.occupied[..|s.occupied|];
        assert occ[..|t0.occupied|] == t0.occupied;
        if shipStatus == 0 {
          MarkAt(t0.marks, c, BUFFER);
        }
      }
    }
  }

  /** One round of the innermost loop of `contour` extends the visited
      cells by the next of the nine around `d`. */
  lemma ContourInnerStep(s: BoardState, done: seq<Dot>, d: Dot, deltaX: int, deltaY: int, shipStatus: int)
    requires WellFormed(s)
    requires -1 <= deltaX <= 1 && -1 <= deltaY <= 1
    ensures var j := 3 * (deltaY + 1) + deltaX + 1;
      ContourVisit(s, done + Around(d)[..j + 1], shipStatus) ==
        VisitCell(ContourVisit(s, done + Around(d)[..j], shipStatus), Dot(d.x + deltaX, d.y + deltaY), shipStatus)
  {
    var j := 3 * (deltaY + 1) + deltaX + 1;
    AroundAt(d, deltaX, deltaY);
    VisitOneMore(done, Around(d), j);
    ContourVisitSnoc(s, done + Around(d)[..j], Dot(d.x + deltaX, d.y + deltaY), shipStatus);
  }

  /** `contour(ship, ship_status)`: visits the nine cells around every ship
      cell. */
  function ContourSpec(s: BoardState, ship: Ship, shipStatus: int): (t: BoardState)
    requires WellFormed(s)
    ensures WellFormed(t)
  {
    ContourVisit(s, Candidates(ShipCells(ship)), shipStatus)
  }

  /** The contour keeps the ships, the count and the old list as a prefix;
      afterwards a cell is listed exactly when it was before or it is an
      on-map cell touching the ship; and with status 0 exactly the newly
      listed cells are marked `BUFFER`, every other cell keeps its mark. */
  lemma ContourEffect(s: BoardState, ship: Ship, shipStatus: int)
    requires WellFormed(s)
    ensures var t := ContourSpec(s, ship, shipStatus);
      && t.ships == s.ships && t.liveShips == s.liveShips
      && |s.occupied| <= |t.occupied| && t.occupied[..|s.occupied|] == s.occupied
      && (forall c :: c in t.occupied <==> c in s.occupied || (!Out(c) && Touches(c, ship)))
      && (forall i, j :: 0 <= i < SIZE && 0 <= j < SIZE ==>
            t.marks[i][j] == if shipStatus == 0 && Dot(i, j) in t.occupied && Dot(i, j) !in s.occupied then BUFFER else s.marks[i][j])
  {
    CandidatesNear(ShipCells(ship));
    ContourVisitEffect(s, Candidates(ShipCells(ship)), shipStatus);
  }

  /** The check of `add_ship`'s first loop: every cell on the map and none
      already listed in `occupied_dots`. */
  predicate Fits(occ: seq<Dot>, cells: seq<Dot>)
  {
    forall i :: 0 <= i < |cells| ==> !Out(cells[i]) && cells[i] !in occ
  }

  /** `add_ship(ship)`. A rejected ship raises `BoardWrongShipException` and
      leaves the board as it was; an accepted one is drawn, listed and
      appended, and its contour is listed without being drawn. */
  function AddShipSpec(s: BoardState, ship: Ship): (st: Step<()>)
    requires WellFormed(s)
    ensures WellFormed(st.state)
  {
    var cells := ShipCells(ship);
    if !Fits(s.occupied, cells) then Step(s, Err(BoardWrongShip))
    else
      var placed := s.(ships := s.ships + [ship], occupied := s.occupied + cells, marks := MarkAll(s.marks, cells, SHIP));
      Step(ContourSpec(placed, ship, 1), Ok(()))
  }

  /** `add_ship` raises exactly when some cell is off the map or listed, and
      then changes nothing. Otherwise the ship is appended, its cells are
      marked `SHIP` and nothing else is marked, and the list afterwards holds
      exactly the old entries and every on-map cell touching the ship. */
  lemma AddShipEffect(s: BoardState, ship: Ship)
    requires WellFormed(s)
    ensures var st := AddShipSpec(s, ship);
      && (st.result.Err? <==> !Fits(s.occupied, ShipCells(ship)))
      && (st.result.Err? ==> st.state == s && st.result.error == BoardWrongShip)
      && (st.result.Ok? ==>
            && st.state.ships == s.ships + [ship]
            && st.state.liveShips == s.liveShips
            && (forall c :: c in st.state.occupied <==> c in s.occupied || (!Out(c) && Touches(c, ship)))
            && (forall i, j :: 0 <= i < SIZE && 0 <= j < SIZE ==>
                  st.state.marks[i][j] == if Dot(i, j) in ShipCells(ship) then SHIP else s.marks[i][j]))
  {
    var cells := ShipCells(ship);
    if Fits(s.occupied, cells) {
      var placed := s.(ships := s.ships + [ship], occupied := s.occupied + cells, marks := MarkAll(s.marks, cells, SHIP));
      MarkAllAt(s.marks, cells, SHIP);
      ContourEffect(placed, ship, 1);
      forall c | c in cells ensures Touches(c, ship) && !Out(c) {
        assert Near(c, c);
      }
    }
  }

  /** An accepted ship is appended to the ship list and leaves the count of
      ships afloat alone: the two clauses of `AddShipEffect` that
      `PlaceFleetGrows` needs, stated alone so that its proof does not carry
      the clauses about the map. */
  lemma AddShipAppends(s: BoardState, ship: Ship)
    requires WellFormed(s)
    ensures var st := AddShipSpec(s, ship);
      st.result.Ok? ==> st.state.ships == s.ships + [ship] && st.state.liveShips == s.liveShips
  {
    AddShipEffect(s, ship);
  }

  /** The index of the first ship of the list that has `d` among its cells,
      or the length of the list when no ship has. */
  function FirstShipAt(ships: seq<Ship>, d: Dot): (k: nat)
    ensures k <= |ships|
    ensures k < |ships| ==> d in ShipCells(ships[k])
    ensures forall j :: 0 <= j < k ==> d !in ShipCells(ships[j])
  {
    if ships == [] then 0
    else if d in ShipCells(ships[0]) then 0
    else 1 + FirstShipAt(ships[1..], d)
  }

  /** `shot(dot)`. Off the map raises `BoardOutException`, a listed dot
      `BoardBusyException`, both before anything changes. Otherwise the dot is
      listed; a ship cell costs the first ship holding it one life and is
      marked `HIT`, any other cell is marked `MISS`. The result is true only
      for a hit that leaves the ship with lives; a ship brought to 0 lives
      lowers `live_ships_count` and gets its contour drawn. */
  function ShotSpec(s: BoardState, d: Dot): (st: Step<bool>)
    requires WellFormed(s)
    ensures WellFormed(st.state)
  {
    if Out(d) then Step(s, Err(BoardOut))
    else if d in s.occupied then Step(s, Err(BoardBusy))
    else
      var k := FirstShipAt(s.ships, d);
      if k == |s.ships| then
        Step(s.(occupied := s.occupied + [d], marks := Mark(s.marks, d, MISS)), Ok(false))
      else
        var hit := s.ships[k].(lives := s.ships[k].lives - 1);
        var s1 := s.(ships := s.ships[k := hit], occupied := s.occupied + [d], marks := Mark(s.marks, d, HIT));
        if hit.lives == 0 then Step(ContourSpec(s1.(liveShips := s.liveShips - 1), hit, 0), Ok(false))
        else Step(s1, Ok(true))
  }

  /** The cells of a ship do not depend on its lives. */
  lemma CellsIgnoreLives(ship: Ship, lives: int)
    ensures ShipCells(ship.(lives := lives)) == ShipCells(ship)
  {
  }

  /** The board just before a sinking shot draws the contour: the hit ship at
      index `k` has lost its last life, the count is lowered, the dot is
      listed and marked `HIT`. */
  function SinkingBoard(s: BoardState, d: Dot, k: nat): (s2: BoardState)
    requires WellFormed(s) && !Out(d) && d !in s.occupied
    requires k == FirstShipAt(s.ships, d) < |s.ships| && s.ships[k].lives == 1
    ensures WellFormed(s2)
    ensures ShotSpec(s, d) == Step(ContourSpec(s2, s.ships[k], 0), Ok(false))
  {
    CellsIgnoreLives(s.ships[k], 0);
    var hit := s.ships[k].(lives := 0);
    s.(ships := s.ships[k := hit], liveShips := s.liveShips - 1, occupied := s.occupied + [d], marks := Mark(s.marks, d, HIT))
  }

  /** `shot` raises `BoardOutException` exactly for a dot off the map and
      `BoardBusyException` exactly for a listed one, changing nothing in
      either case; every other dot is accepted. */
  lemma ShotRejects(s: BoardState, d: Dot)
    requires WellFormed(s)
    ensures var st := ShotSpec(s, d);
      && (st.result == Err(BoardOut) <==> Out(d))
      && (st.result == Err(BoardBusy) <==> !Out(d) && d in s.occupied)
      && (st.result.Err? <==> Out(d) || d in s.occupied)
      && (st.result.Err? ==> st.state == s)
  {
  }

  /** An accepted shot costs the first ship holding the dot one life and
      changes no other ship; `live_ships_count` drops by one exactly when
      that ship's lives reach 0; the result is true exactly when a ship was
      hit and kept some lives. */
  lemma ShotShips(s: BoardState, d: Dot, k: nat)
    requires WellFormed(s) && !Out(d) && d !in s.occupied && k == FirstShipAt(s.ships, d)
    ensures var st := ShotSpec(s, d);
      var sunk := k < |s.ships| && s.ships[k].lives == 1;
      && st.result.Ok?
      && st.state.ships == (if k < |s.ships| then s.ships[k := s.ships[k].(lives := s.ships[k].lives - 1)] else s.ships)
      && st.state.liveShips == (if sunk then s.liveShips - 1 else s.liveShips)
      && (st.result.value <==> k < |s.ships| && !sunk)
  {
    if k < |s.ships| && s.ships[k].lives == 1 {
      ContourEffect(SinkingBoard(s, d, k), s.ships[k], 0);
    }
  }

  /** An accepted shot appends the dot to the list of used cells; when it
      sinks a ship, it then lists every on-map cell touching that ship that
      was not listed yet. Nothing else is listed. */
  lemma ShotListed(s: BoardState, d: Dot, k: nat)
    requires WellFormed(s) && !Out(d) && d !in s.occupied && k == FirstShipAt(s.ships, d)
    ensures var st := ShotSpec(s, d);
      var sunk := k < |s.ships| && s.ships[k].lives == 1;
      && |s.occupied| < |st.state.occupied| && st.state.occupied[..|s.occupied| + 1] == s.occupied + [d]
      && (forall c :: c in st.state.occupied <==>
            c in s.occupied || c == d || (sunk && !Out(c) && Touches(c, s.ships[k])))
  {
    if k < |s.ships| && s.ships[k].lives == 1 {
      var s2 := SinkingBoard(s, d, k);
      ContourEffect(s2, s.ships[k], 0);
      var t := ContourSpec(s2, s.ships[k], 0);
      assert t.occupied[..|s.occupied| + 1] == t.occupied[..|s2.occupied|];
    }
  }

  /** An accepted shot marks the dot `HIT` when a ship holds it and `MISS`
      otherwise, marks the contour cells it newly lists `BUFFER`, and leaves
      every other cell's mark alone. */
  lemma ShotMarks(s: BoardState, d: Dot, k: nat)
    requires WellFormed(s) && !Out(d) && d !in s.occupied && k == FirstShipAt(s.ships, d)
    ensures var st := ShotSpec(s, d);
      forall i, j :: 0 <= i < SIZE && 0 <= j < SIZE ==>
        st.state.marks[i][j] ==
          if Dot(i, j) == d then (if k < |s.ships| then HIT else MISS)
          else if Dot(i, j) in st.state.occupied && Dot(i, j) !in s.occupied then BUFFER
          else s.marks[i][j]
  {
    if k == |s.ships| {
      MarkAt(s.marks, d, MISS);
    } else if s.ships[k].lives == 1 {
      SinkingMarks(s, d, k);
    } else {
      MarkAt(s.marks, d, HIT);
    }
  }

  /** `ShotMarks` for the shot that sinks ship `k`: the dot is drawn `HIT`
      first, then the contour draws `BUFFER` on each newly listed cell. */
  lemma SinkingMarks(s: BoardState, d: Dot, k: nat)
    requires WellFormed(s) && !Out(d) && d !in s.occupied
    requires k == FirstShipAt(s.ships, d) < |s.ships| && s.ships[k].lives == 1
    ensures var st := ShotSpec(s, d);
      forall i, j :: 0 <= i < SIZE && 0 <= j < SIZE ==>
        st.state.marks[i][j] ==
          if Dot(i, j) == d then HIT
          else if Dot(i, j) in st.state.occupied && Dot(i, j) !in s.occupied then BUFFER
          else s.marks[i][j]
  {
    var s2 := SinkingBoard(s, d, k);
    MarkAt(s.marks, d, HIT);
    ContourEffect(s2, s.ships[k], 0);
  }

  /** A dot that was shot successfully is listed, so shooting it again
      raises `BoardBusyException`. */
  lemma ShotTwiceIsBusy(s: BoardState, d: Dot)
    requires WellFormed(s) && ShotSpec(s, d).result.Ok?
    ensures ShotSpec(ShotSpec(s, d).state, d).result == Err(BoardBusy)
  {
    ShotRejects(s, d);
    ShotListed(s, d, FirstShipAt(s.ships, d));
  }
}
