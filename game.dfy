/** The game logic of sea_battle.py above the boards: the fleet placement of
    `Game.calculate_random_board`, the retry loop of `Player.move` and the
    turn rule of `Game.loop`. The random bows and orientations the source
    draws, and the dots `ask` returns, are supplied as sequences. */
module Game {
  import opened Grid
  import opened BoardSpec
  import opened Invariants
  import opened Boards

  /** `ship_set`: the lengths of the fleet, in placing order. */
  const FLEET: seq<int> := [3, 2, 2, 1, 1, 1, 1]

  /** The attempt counter of `calculate_random_board` may not exceed this. */
  const MAX_ATTEMPTS: nat := 1800

  /** What one attempt draws with `randint`: a bow and an orientation. */
  datatype Candidate = Candidate(bow: Dot, orientation: int)

  /** The board a placement ends with, or `None` when it gave up, and the
      value of the attempt counter at that point. */
  datatype Placed = Placed(board: Option<BoardState>, attempts: nat)

  /** The placing loops of `calculate_random_board` from the point where
      `fleet` remains to be placed and `attempts` attempts were made. Attempt
      number `n` uses `cands[n - 1]`; a rejected ship is retried with the
      next candidate; the attempt that would be number 1801 gives up. */
  function PlaceFleet(s: BoardState, fleet: seq<int>, cands: seq<Candidate>, attempts: nat): (r: Placed)
    requires WellFormed(s) && attempts <= MAX_ATTEMPTS <= |cands|
    ensures attempts <= r.attempts <= MAX_ATTEMPTS
    ensures r.board.None? ==> r.attempts == MAX_ATTEMPTS && fleet != []
    ensures r.board.Some? ==> r.attempts >= attempts + |fleet| && WellFormed(r.board.value)
    decreases MAX_ATTEMPTS - attempts
  {
    if fleet == [] then Placed(Some(s), attempts)
    else if attempts + 1 > MAX_ATTEMPTS then Placed(None, attempts)
    else
      var c := cands[attempts];
      var st := AddShipSpec(s, NewShip(fleet[0], c.bow, c.orientation));
      if st.result.Ok? then PlaceFleet(st.state, fleet[1..], cands, attempts + 1)
      else PlaceFleet(s, fleet, cands, attempts + 1)
  }

  /** One attempt: the next candidate's ship is offered to `add_ship`; on
      acceptance placing goes on with the rest of the fleet, on rejection,
      which leaves the board as it was, with the next candidate. */
  lemma PlaceFleetAttempt(s: BoardState, fleet: seq<int>, cands: seq<Candidate>, attempts: nat, st: Step<()>)
    requires WellFormed(s) && fleet != [] && attempts < MAX_ATTEMPTS <= |cands|
    requires st == AddShipSpec(s, NewShip(fleet[0], cands[attempts].bow, cands[attempts].orientation))
    ensures st.result.Err? ==> st.state == s
    ensures PlaceFleet(s, fleet, cands, attempts) ==
      if st.result.Ok? then PlaceFleet(st.state, fleet[1..], cands, attempts + 1)
      else PlaceFleet(s, fleet, cands, attempts + 1)
  {
  }

  /** `calculate_random_board`: place `ship_set` on a fresh board, then
      clear the used cells for the game. */
  function RandomBoard(cands: seq<Candidate>): (r: Option<BoardState>)
    requires |cands| >= MAX_ATTEMPTS
  {
    var p := PlaceFleet(Initial(), FLEET, cands, 0);
    if p.board.None? then None else Some(p.board.value.(occupied := []))
  }

  /** A placement that started on `s` with `fleet` to place, if it
      succeeded, kept the board ready for placing and appended one ship per
      length of `fleet`, with that length, to the ships of `s`, leaving
      `live_ships_count` alone. */
  ghost predicate Grown(s: BoardState, fleet: seq<int>, r: Placed)
  {
    r.board.Some? ==>
      && Placing(r.board.value)
      && r.board.value.liveShips == s.liveShips
      && |r.board.value.ships| == |s.ships| + |fleet|
      && r.board.value.ships[..|s.ships|] == s.ships
      && forall i :: 0 <= i < |fleet| ==> r.board.value.ships[|s.ships| + i].length == fleet[i]
  }

  /** Placing grows the fleet as `Grown` says. */
  lemma {:induction false} PlaceFleetGrows(s: BoardState, fleet: seq<int>, cands: seq<Candidate>, attempts: nat)
    requires Placing(s) && attempts <= MAX_ATTEMPTS <= |cands|
    requires forall i :: 0 <= i < |fleet| ==> fleet[i] >= 1
    ensures Grown(s, fleet, PlaceFleet(s, fleet, cands, attempts))
    decreases MAX_ATTEMPTS - attempts, 1
  {
    if fleet != [] && attempts < MAX_ATTEMPTS {
      var ship := NewShip(fleet[0], cands[attempts].bow, cands[attempts].orientation);
      PlaceFleetAttempt(s, fleet, cands, attempts, AddShipSpec(s, ship));
      if AddShipSpec(s, ship).result.Ok? {
        AddShipKeepsPlacing(s, ship);
        AddShipAppends(s, ship);
        GrowOk(s, fleet, cands, attempts, AddShipSpec(s, ship).state);
      } else {
        PlaceFleetGrows(s, fleet, cands, attempts + 1);
      }
    }
  }

  /** The step of `PlaceFleetGrows` where the candidate is accepted and
      placing goes on from the board `t` holding the new ship. */
  lemma {:induction false} GrowOk(s: BoardState, fleet: seq<int>, cands: seq<Candidate>, attempts: nat, t: BoardState)
    requires fleet != [] && attempts < MAX_ATTEMPTS <= |cands|
    requires forall i :: 0 <= i < |fleet| ==> fleet[i] >= 1
    requires WellFormed(s) && Placing(t)
    requires t.ships == s.ships + [NewShip(fleet[0], cands[attempts].bow, cands[attempts].orientation)]
    requires t.liveShips == s.liveShips
    requires PlaceFleet(s, fleet, cands, attempts) == PlaceFleet(t, fleet[1..], cands, attempts + 1)
    ensures Grown(s, fleet, PlaceFleet(s, fleet, cands, attempts))
    decreases MAX_ATTEMPTS - attempts, 0
  {
    PlaceFleetGrows(t, fleet[1..], cands, attempts + 1);
    GrowAccepted(s, NewShip(fleet[0], cands[attempts].bow, cands[attempts].orientation), t, fleet,
      PlaceFleet(t, fleet[1..], cands, attempts + 1));
  }

  /** Accepting a ship of length `fleet[0]` and then growing by the rest of
      `fleet` grows by all of `fleet`. */
  lemma GrowAccepted(s: BoardState, ship: Ship, t: BoardState, fleet: seq<int>, r: Placed)
    requires fleet != [] && ship.length == fleet[0]
    requires t.ships == s.ships + [ship] && t.liveShips == s.liveShips
    requires Grown(t, fleet[1..], r)
    ensures Grown(s, fleet, r)
  {
    if r.board.Some? {
      var after := r.board.value.ships;
      assert after[..|s.ships|] == after[..|t.ships|][..|s.ships|];
      forall i | 0 <= i < |fleet| ensures after[|s.ships| + i].length == fleet[i] {
        if i == 0 {
          assert after[|s.ships|] == after[..|t.ships|][|s.ships|];
        } else {
          assert after[|t.ships| + (i - 1)].length == fleet[1..][i - 1];
        }
      }
    }
  }

  /** A board `calculate_random_board` returns holds exactly seven ships
      with the lengths of `ship_set`, in that order, none touching another
      and all on the map; its used cells are cleared and all seven count as
      live, so the game can start on it. It gives up only after 1800
      attempts. */
  lemma RandomBoardReady(cands: seq<Candidate>)
    requires |cands| >= MAX_ATTEMPTS
    ensures var r := RandomBoard(cands);
      && (r.None? ==> PlaceFleet(Initial(), FLEET, cands, 0).attempts == MAX_ATTEMPTS)
      && (r.Some? ==>
            && |r.value.ships| == |FLEET|
            && (forall i :: 0 <= i < |FLEET| ==> r.value.ships[i].length == FLEET[i])
            && r.value.occupied == []
            && r.value.liveShips == |FLEET|
            && InPlay(r.value))
  {
    InitialPlacing();
    PlaceFleetGrows(Initial(), FLEET, cands, 0);
    var p := PlaceFleet(Initial(), FLEET, cands, 0);
    if p.board.Some? {
      ClearedBoardInPlay(p.board.value);
    }
  }

  /** `calculate_random_board` on a board object. */
  method CalculateRandomBoard(candidates: seq<Candidate>) returns (board: Board?)
    requires |candidates| >= MAX_ATTEMPTS
    ensures board == null <==> RandomBoard(candidates).None?
    ensures board != null ==> fresh(board) && Some(board.State()) == RandomBoard(candidates)
  {
    var attempts: nat := 0;
    var b := new Board();
    for i := 0 to |FLEET|
      invariant fresh(b) && b.Valid() && attempts <= MAX_ATTEMPTS
      invariant PlaceFleet(b.State(), FLEET[i..], candidates, attempts) == PlaceFleet(Initial(), FLEET, candidates, 0)
    {
      assert FLEET[i..][0] == FLEET[i] && FLEET[i..][1..] == FLEET[i + 1..];
      while true
        invariant fresh(b) && b.Valid() && attempts <= MAX_ATTEMPTS
        invariant PlaceFleet(b.State(), FLEET[i..], candidates, attempts) == PlaceFleet(Initial(), FLEET, candidates, 0)
        decreases MAX_ATTEMPTS - attempts
      {
        attempts := attempts + 1;
        if attempts > MAX_ATTEMPTS {
          return null;
        }
        var c := candidates[attempts - 1];
        var ship := NewShip(FLEET[i], c.bow, c.orientation);
        ghost var before := b.State();
        var r := b.AddShip(ship);
        PlaceFleetAttempt(before, FLEET[i..], candidates, attempts - 1, Step(b.State(), r));
        if r.Ok? {
          break;
        }
      }
    }
    b.NewBoardInGame();
    board := b;
  }

  /** How a run of `Player.move` ended: the board shot at, what the accepted
      shot returned (`None` when the dots ran out first), and how many dots
      were used. */
  datatype Moved = Moved(state: BoardState, shot: Option<bool>, used: nat)

  /** `Player.move` from the `i`-th dot on: each dot is shot at in turn
      until one is accepted. `Board.shot` raises exactly for a dot off the
      map or already used (`ShotRejects`), and the loop then tries the next. */
  function MoveFrom(s: BoardState, targets: seq<Dot>, i: nat): (r: Moved)
    requires WellFormed(s) && i <= |targets|
    ensures i <= r.used <= |targets| && WellFormed(r.state)
    decreases |targets| - i
  {
    if i == |targets| then Moved(s, None, i)
    else if Out(targets[i]) || targets[i] in s.occupied then MoveFrom(s, targets, i + 1)
    else
      ShotRejects(s, targets[i]);
      var st := ShotSpec(s, targets[i]);
      Moved(st.state, Some(st.result.value), i + 1)
  }

  /** Every dot before the last one used was rejected. When a dot was
      accepted, the move is that dot's shot; when none was, every dot was
      used and rejected and the board is unchanged. */
  lemma {:induction false} MoveFromShape(s: BoardState, targets: seq<Dot>, i: nat)
    requires WellFormed(s) && i <= |targets|
    ensures var r := MoveFrom(s, targets, i);
      && (forall j :: i <= j < r.used - 1 ==> Out(targets[j]) || targets[j] in s.occupied)
      && (r.shot.Some? ==> i < r.used && ShotSpec(s, targets[r.used - 1]) == Step(r.state, Ok(r.shot.value)))
      && (r.shot.None? ==> r.used == |targets| && r.state == s && forall j :: i <= j < |targets| ==> Out(targets[j]) || targets[j] in s.occupied)
    decreases |targets| - i
  {
    if i < |targets| {
      if Out(targets[i]) || targets[i] in s.occupied {
        MoveFromShape(s, targets, i + 1);
      } else {
        ShotRejects(s, targets[i]);
      }
    }
  }

  /** `Player.move`: the dots before the accepted one were all off the map
      or already used and changed nothing; the accepted one is shot. */
  function MoveSpec(s: BoardState, targets: seq<Dot>): (r: Moved)
    requires WellFormed(s)
  {
    MoveFrom(s, targets, 0)
  }

  /** A move keeps the board shot at in play. */
  lemma MoveKeepsInPlay(s: BoardState, targets: seq<Dot>)
    requires InPlay(s)
    ensures InPlay(MoveSpec(s, targets).state)
  {
    var r := MoveSpec(s, targets);
    MoveFromShape(s, targets, 0);
    if r.shot.Some? {
      ShotKeepsInPlay(s, targets[r.used - 1]);
    }
  }

  /** `Player.move` on the opponent's board object. */
  method Move(opponentBoard: Board, targets: seq<Dot>) returns (shot: Option<bool>, used: nat)
    requires opponentBoard.Valid()
    modifies opponentBoard
    ensures Moved(opponentBoard.State(), shot, used) == MoveSpec(old(opponentBoard.State()), targets)
  {
    var i := 0;
    while i < |targets|
      invariant 0 <= i <= |targets| && opponentBoard.Valid()
      invariant opponentBoard.State() == old(opponentBoard.State())
      invariant MoveFrom(opponentBoard.State(), targets, i) == MoveSpec(old(opponentBoard.State()), targets)
    {
      ShotRejects(old(opponentBoard.State()), targets[i]);
      var r := opponentBoard.Shot(targets[i]);
      if r.Ok? {
        return Some(r.value), i + 1;
      }
      i := i + 1;
    }
    return None, i;
  }

  /** How `Game.loop` ends: the user lost, the user won, or the dots
      supplied for a move ran out. */
  datatype Ending = Lost | Won | OutOfInput

  /** The ending together with both boards. */
  datatype Outcome = Outcome(ending: Ending, user: BoardState, ai: BoardState)

  /** `Game.loop`. The user shoots at the computer's board, the computer at
      the user's. After each move the user's board is checked first: no
      live ship there loses the game; otherwise no live ship on the
      computer's board wins it. Otherwise a move that returned true keeps
      the same shooter and any other passes the turn. */
  function Play(user: BoardState, ai: BoardState, userTargets: seq<Dot>, aiTargets: seq<Dot>, userShoots: bool): (o: Outcome)
    requires WellFormed(user) && WellFormed(ai)
    decreases |userTargets| + |aiTargets|
  {
    var m := if userShoots then MoveSpec(ai, userTargets) else MoveSpec(user, aiTargets);
    var user2 := if userShoots then user else m.state;
    var ai2 := if userShoots then m.state else ai;
    if m.shot.None? then Outcome(OutOfInput, user2, ai2)
    else if user2.liveShips == 0 then Outcome(Lost, user2, ai2)
    else if ai2.liveShips == 0 then Outcome(Won, user2, ai2)
    else if userShoots then Play(user2, ai2, userTargets[m.used..], aiTargets, m.shot.value)
    else Play(user2, ai2, userTargets, aiTargets[m.used..], !m.shot.value)
  }

  /** Both boards stay in play through the game; the game is lost only when
      every ship of the user has been sunk, each cell of it shot at, and
      won only when the same holds for the computer while the user still
      has a ship afloat. */
  lemma {:induction false} PlayEnds(user: BoardState, ai: BoardState, userTargets: seq<Dot>, aiTargets: seq<Dot>, userShoots: bool)
    requires InPlay(user) && InPlay(ai)
    ensures var o := Play(user, ai, userTargets, aiTargets, userShoots);
      && InPlay(o.user) && InPlay(o.ai)
      && (o.ending == Lost ==> o.user.liveShips == 0 && Sunk(o.user))
      && (o.ending == Won ==> o.user.liveShips != 0 && o.ai.liveShips == 0 && Sunk(o.ai))
    decreases |userTargets| + |aiTargets|
  {
    var m := if userShoots then MoveSpec(ai, userTargets) else MoveSpec(user, aiTargets);
    if userShoots {
      MoveKeepsInPlay(ai, userTargets);
    } else {
      MoveKeepsInPlay(user, aiTargets);
    }
    var user2 := if userShoots then user else m.state;
    var ai2 := if userShoots then m.state else ai;
    if m.shot.Some? {
      if user2.liveShips == 0 {
        AllSunk(user2);
      } else if ai2.liveShips == 0 {
        AllSunk(ai2);
      } else if userShoots {
        PlayEnds(user2, ai2, userTargets[m.used..], aiTargets, m.shot.value);
      } else {
        PlayEnds(user2, ai2, userTargets, aiTargets[m.used..], !m.shot.value);
      }
    }
  }

  /** The game stops as soon as a move leaves a count at 0, and only then:
      started with a count other than 0 on both boards, it ends `Lost` exactly when
      the user's count is 0 at the end, and `Won` exactly when the user's
      count is not 0 and the computer's is. */
  lemma {:induction false} PlayStops(user: BoardState, ai: BoardState, userTargets: seq<Dot>, aiTargets: seq<Dot>, userShoots: bool)
    requires WellFormed(user) && WellFormed(ai) && user.liveShips != 0 && ai.liveShips != 0
    ensures var o := Play(user, ai, userTargets, aiTargets, userShoots);
      && (o.ending == Lost <==> o.user.liveShips == 0)
      && (o.ending == Won <==> o.user.liveShips != 0 && o.ai.liveShips == 0)
    decreases |userTargets| + |aiTargets|
  {
    var m := if userShoots then MoveSpec(ai, userTargets) else MoveSpec(user, aiTargets);
    if userShoots {
      MoveFromShape(ai, userTargets, 0);
    } else {
      MoveFromShape(user, aiTargets, 0);
    }
    var user2 := if userShoots then user else m.state;
    var ai2 := if userShoots then m.state else ai;
    if m.shot.Some? && user2.liveShips != 0 && ai2.liveShips != 0 {
      if userShoots {
        PlayStops(user2, ai2, userTargets[m.used..], aiTargets, m.shot.value);
      } else {
        PlayStops(user2, ai2, userTargets, aiTargets[m.used..], !m.shot.value);
      }
    }
  }

  /** Every ship of the board has lost all its lives and every one of its
      cells was shot at. */
  ghost predicate Sunk(s: BoardState)
  {
    forall i :: 0 <= i < |s.ships| ==>
      s.ships[i].lives == 0 && forall c :: c in ShipCells(s.ships[i]) ==> c in s.occupied
  }

  /** `Game.loop` on the two board objects; `shootingPlayer` is true while
      the user shoots. */
  method Loop(userBoard: Board, aiBoard: Board, userTargets: seq<Dot>, aiTargets: seq<Dot>) returns (ending: Ending)
    requires userBoard != aiBoard && userBoard.Valid() && aiBoard.Valid()
    modifies userBoard, aiBoard
    ensures Outcome(ending, userBoard.State(), aiBoard.State()) ==
      Play(old(userBoard.State()), old(aiBoard.State()), userTargets, aiTargets, true)
  {
    var shootingPlayer := true;
    var ut, at := userTargets, aiTargets;
    while true
      invariant userBoard.Valid() && aiBoard.Valid()
      invariant Play(userBoard.State(), aiBoard.State(), ut, at, shootingPlayer) ==
        Play(old(userBoard.State()), old(aiBoard.State()), userTargets, aiTargets, true)
      decreases |ut| + |at|
    {
      var resultOfShot: Option<bool>;
      var used: nat;
      if shootingPlayer {
        resultOfShot, used := Move(aiBoard, ut);
        ut := ut[used..];
      } else {
        resultOfShot, used := Move(userBoard, at);
        at := at[used..];
      }
      if resultOfShot.None? {
        return OutOfInput;
      }
      if userBoard.liveShips == 0 {
        return Lost;
      } else if aiBoard.liveShips == 0 {
        return Won;
      }
      if resultOfShot.value {
        continue;
      }
      shootingPlayer := !shootingPlayer;
    }
  }
}
