/** The Mu Torere board: nine spaces, the empty one, and the winner. It
    computes which counters the player to move may select, keeps the spaces'
    availability flags in step with that, and applies a move.

    Space i of the board's list of all spaces (outer spaces 0..7 in ring
    order, then the centre) is represented by `state[i]` and
    `isAvailable[i]`, the two fields a space carries. */
module Board {
  import opened Common
  import opened Rules

  class MuTorereBoard {
    /** What each space holds: 0 empty, 1 or 2 a player's counter. */
    const state: array<int>
    /** Whether the counter on each space can be chosen this turn. */
    const isAvailable: array<bool>
    /** The space that is empty at this step. */
    var emptySpace: SpaceId
    /** 0 while the game goes on, 1 or 2 once that player has won. */
    var winner: int

    ghost predicate Valid()
      reads state
    {
      state.Length == 9 && isAvailable.Length == 9 &&
      forall i :: 0 <= i < 9 ==> IsState(state[i])
    }

    /** The states of the nine spaces. */
    ghost function Cells(): (cells: seq<int>)
      reads state
      requires Valid()
      ensures |cells| == 9
    {
      state[..]
    }

    /** The cells form a valid layout: one empty cell, four counters for
        each player, and `emptySpace` naming the empty cell. */
    ghost predicate Consistent()
      reads this, state
      requires Valid()
    {
      ValidLayout(Cells(), emptySpace)
    }

    /** The availability flags mark exactly the counters the player may move. */
    ghost predicate AvailableFor(player: int)
      reads this, state, isAvailable
      requires Valid()
    {
      forall i: SpaceId :: isAvailable[i] <==> i in AvailableCounters(Cells(), emptySpace, player)
    }

    /** A new board: outer spaces 0..3 hold player 1 and 4..7 player 2, the
        centre is empty, nobody has won, and the starting player's counters
        are flagged available. */
    constructor (playerStarting: int)
      ensures Valid() && fresh(state) && fresh(isAvailable)
      ensures Cells() == StartCells && emptySpace == Centre && winner == 0
      ensures AvailableFor(playerStarting) && Consistent()
    {
      // the centre starts empty; the outer spaces get players 1,1,1,1,2,2,2,2
      var spaces := new int[9];
      spaces[Centre] := 0;
      var n := 0;
      while n < 8
        invariant 0 <= n <= 8
        invariant forall i :: 0 <= i < n ==> spaces[i] == StartCells[i]
        invariant spaces[Centre] == 0
      {
        spaces[n] := if n < 4 then 1 else 2;
        n := n + 1;
      }
      state := spaces;
      isAvailable := new bool[9];
      emptySpace := Centre;
      winner := 0;
      new;
      assert Cells() == StartCells;
      var _ := UpdateAvailability(playerStarting);
      StartLayoutValid();
    }

    /** Whether some neighbour of the space holds the given state: the scan
        over the neighbour list that stops at the first match. */
    method HasNeighbourHolding(space: SpaceId, q: int) returns (found: bool)
      requires Valid()
      ensures found <==> exists n :: n in Neighbours(space) && Cells()[n] == q
    {
      var neighbours := Neighbours(space);
      found := false;
      var m := 0;
      while m < |neighbours|
        invariant 0 <= m <= |neighbours|
        invariant forall j :: 0 <= j < m ==> state[neighbours[j]] != q
      {
        if state[neighbours[m]] == q {
          assert neighbours[m] in neighbours;
          found := true;
          break;
        }
        m := m + 1;
      }
    }

    /** The counters the player may move this turn, found by walking the
        neighbours of the empty space; with the centre empty, a candidate is
        kept when one of its own neighbours holds the opponent. */
    method GetAvailableCounters(activePlayer: int) returns (available: seq<SpaceId>)
      requires Valid()
      ensures available == AvailableCounters(Cells(), emptySpace, activePlayer)
    {
      ghost var cells := Cells();
      available := [];
      var candidates := Neighbours(emptySpace);
      if emptySpace == Centre {
        var opponent := if activePlayer == 2 then 1 else 2;
        var k := 0;
        while k < |candidates|
          invariant 0 <= k <= |candidates|
          invariant available == Select(candidates[..k], cells, emptySpace, activePlayer)
        {
          var space := candidates[k];
          assert candidates[..k + 1] == candidates[..k] + [space];
          if state[space] == activePlayer {
            var found := HasNeighbourHolding(space, opponent);
            if found {
              available := available + [space];
            }
          }
          k := k + 1;
        }
        assert candidates[..k] == candidates;
      } else {
        var neighbours := Neighbours(emptySpace);
        var k := 0;
        while k < |neighbours|
          invariant 0 <= k <= |neighbours|
          invariant available == Select(neighbours[..k], cells, emptySpace, activePlayer)
        {
          var space := neighbours[k];
          assert neighbours[..k + 1] == neighbours[..k] + [space];
          if state[space] == activePlayer {
            available := available + [space];
          }
          k := k + 1;
        }
        assert neighbours[..k] == neighbours;
      }
    }

    /** Clears every availability flag, then sets it on exactly the
        counters the player may move; the states are left alone. */
    method UpdateAvailability(activePlayer: int) returns (available: seq<SpaceId>)
      requires Valid()
      modifies isAvailable
      ensures available == AvailableCounters(Cells(), emptySpace, activePlayer)
      ensures AvailableFor(activePlayer)
    {
      var i := 0;
      while i < isAvailable.Length
        invariant 0 <= i <= 9
        invariant forall j :: 0 <= j < i ==> !isAvailable[j]
      {
        isAvailable[i] := false;
        i := i + 1;
      }
      available := GetAvailableCounters(activePlayer);
      var k := 0;
      while k < |available|
        invariant 0 <= k <= |available|
        invariant forall j: SpaceId :: isAvailable[j] <==> j in available[..k]
      {
        assert available[..k + 1] == available[..k] + [available[k]];
        isAvailable[available[k]] := true;
        k := k + 1;
      }
      assert available[..k] == available;
    }

    /** Plays one turn with the given counter. A counter that is empty or
        not available raises ValueError and nothing changes. Otherwise the
        empty space takes the counter's state, the counter's space becomes
        the empty one, the next player's counters are flagged, and the mover
        wins when the next player has none. */
    method Move(counter: SpaceId) returns (outcome: Outcome)
      requires Valid()
      modifies this, state, isAvailable
      ensures Valid()
      ensures outcome.Fail? <==> !(IsPlayer(old(state[counter])) && old(isAvailable[counter]))
      ensures outcome.Fail? ==>
                Cells() == old(Cells()) && isAvailable[..] == old(isAvailable[..]) &&
                emptySpace == old(emptySpace) && winner == old(winner)
      ensures outcome.Pass? ==>
                var mover := old(state[counter]);
                Cells() == MovedCells(old(Cells()), old(emptySpace), counter) &&
                emptySpace == counter &&
                AvailableFor(Opponent(mover)) &&
                winner == if AvailableCounters(Cells(), counter, Opponent(mover)) == [] then mover else old(winner)
      ensures outcome.Pass? && old(Consistent()) ==> Consistent()
    {
      if !(IsPlayer(state[counter]) && isAvailable[counter]) {
        return Fail(ValueError);
      }
      ghost var before := Cells();
      ghost var wasConsistent := Consistent();
      var currentActivePlayer := state[counter];
      var newActivePlayer := if state[counter] == 2 then 1 else 2;
      // fill the empty space, then empty the space the counter left
      state[emptySpace] := currentActivePlayer;
      ghost var oldEmpty := emptySpace;
      emptySpace := counter;
      state[emptySpace] := 0;
      assert Cells() == MovedCells(before, oldEmpty, counter);
      var newAvailableCounters := UpdateAvailability(newActivePlayer);
      assert newActivePlayer == Opponent(currentActivePlayer);
      if |newAvailableCounters| == 0 {
        winner := currentActivePlayer;
      }
      if wasConsistent {
        MovePreservesLayout(before, oldEmpty, counter);
      }
      outcome := Pass;
    }
  }
}
