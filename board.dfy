/** The `Board` class of sea_battle.py: its fields change in place, and
    each method is proved to change them exactly as the matching function
    of BoardSpec says. */
module Boards {
  import opened Grid
  import opened BoardSpec

  class Board {
    var ships: seq<Ship>
    var liveShips: int
    var occupied: seq<Dot>
    var battleMap: seq<seq<char>>

    /** The fields as a value. */
    function State(): BoardState
      reads this
    {
      BoardState(ships, liveShips, occupied, battleMap)
    }

    ghost predicate Valid()
      reads this
    {
      WellFormed(State())
    }

    /** `Board.__init__` with the 6x6 map that every board of the game has. */
    constructor ()
      ensures State() == Initial()
    {
      ships := [];
      liveShips := START_SHIPS;
      occupied := [];
      battleMap := seq(SIZE, _ => seq(SIZE, _ => EMPTY));
    }

    /** `new_board_in_game`: forgets every listed dot. */
    method NewBoardInGame()
      modifies this
      ensures State() == old(State()).(occupied := [])
    {
      occupied := [];
    }

    /** `add_ship`. */
    method AddShip(ship: Ship) returns (r: Result<()>)
      requires Valid()
      modifies this
      ensures Step(State(), r) == AddShipSpec(old(State()), ship)
    {
      var dots := ShipDots(ship);
      for i := 0 to |dots|
        invariant Fits(occupied, dots[..i])
      {
        if Out(dots[i]) || dots[i] in occupied {
          return Err(BoardWrongShip);
        }
      }
      assert dots[..|dots|] == dots;
      ghost var before := State();
      for i := 0 to |dots|
        invariant ships == before.ships && liveShips == before.liveShips
        invariant occupied == before.occupied + dots[..i]
        invariant battleMap == MarkAll(before.marks, dots[..i], SHIP)
      {
        PlaceStep(before, dots, i);
        battleMap := battleMap[dots[i].x := battleMap[dots[i].x][dots[i].y := SHIP]];
        occupied := occupied + [dots[i]];
      }
      ships := ships + [ship];
      Contour(ship, 1);
      r := Ok(());
    }

    /** `contour(ship, ship_status)`, with its three nested loops. */
    method Contour(ship: Ship, shipStatus: int)
      requires Valid()
      modifies this
      ensures State() == ContourSpec(old(State()), ship, shipStatus)
    {
      var dots := ShipDots(ship);
      ghost var s0 := State();
      for k := 0 to |dots|
        invariant State() == ContourVisit(s0, Candidates(dots[..k]), shipStatus)
      {
        var d := dots[k];
        ghost var done := Candidates(dots[..k]);
        assert done + Around(d)[..0] == done;
        for deltaY := -1 to 2
          invariant State() == ContourVisit(s0, done + Around(d)[..3 * (deltaY + 1)], shipStatus)
        {
          for deltaX := -1 to 2
            invariant State() == ContourVisit(s0, done + Around(d)[..3 * (deltaY + 1) + deltaX + 1], shipStatus)
          {
            var aroundDot := Dot(d.x + deltaX, d.y + deltaY);
            ContourInnerStep(s0, done, d, deltaX, deltaY, shipStatus);
            Visit(aroundDot, shipStatus);
          }
        }
        CandidatesStep(dots, k);
      }
      assert dots[..|dots|] == dots;
    }

    /** The body of `contour`'s innermost loop: lists an on-map cell not yet
        listed and, for a sunk ship (status 0), marks it `BUFFER`. */
    method Visit(aroundDot: Dot, shipStatus: int)
      requires Valid()
      modifies this
      ensures State() == VisitCell(old(State()), aroundDot, shipStatus)
    {
      if !Out(aroundDot) && aroundDot !in occupied {
        if shipStatus == 0 {
          battleMap := battleMap[aroundDot.x := battleMap[aroundDot.x][aroundDot.y := BUFFER]];
        }
        occupied := occupied + [aroundDot];
      }
    }

    /** `shot(dot)`. */
    method Shot(d: Dot) returns (r: Result<bool>)
      requires Valid()
      modifies this
      ensures Step(State(), r) == ShotSpec(old(State()), d)
    {
      if Out(d) {
        return Err(BoardOut);
      } else if d in occupied {
        return Err(BoardBusy);
      }
      occupied := occupied + [d];
      for k := 0 to |ships|
        invariant ships == old(ships) && liveShips == old(liveShips) && battleMap == old(battleMap)
        invariant occupied == old(occupied) + [d]
        invariant forall j :: 0 <= j < k ==> d !in ShipCells(ships[j])
      {
        var dots := ShipDots(ships[k]);
        if d in dots {
          ships := ships[k := ships[k].(lives := ships[k].lives - 1)];
          battleMap := battleMap[d.x := battleMap[d.x][d.y := HIT]];
          if ships[k].lives == 0 {
            liveShips := liveShips - 1;
            Contour(ships[k], 0);
            return Ok(false);
          } else {
            return Ok(true);
          }
        }
      }
      battleMap := battleMap[d.x := battleMap[d.x][d.y := MISS]];
      return Ok(false);
    }
  }
}
