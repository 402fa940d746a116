/** The turn controller of a Mu Torere game: it owns the board and the
    player to move, turns a pending mouse click into a turn or a new game,
    and stops issuing moves once the board has a winner. */
module GameHandler {
  import opened Common
  import opened Rules
  import opened Board

  /** What a pending mouse click lands on: the new-game button, or the
      board, carrying the counter the board's click handling picked out for
      the player to move (none when the click missed every counter). */
  datatype Click = NewGameButton | BoardClick(selected: Option<SpaceId>)

  class GameHandler {
    var board: MuTorereBoard
    /** The player who takes the current turn, 1 or 2. */
    var activePlayer: int
    /** The configured player who moves first in every new game. */
    const playerStarting: int
    /** The click waiting to be processed, if any. */
    var mousePos: Option<Click>

    /** The game the handler and its board hold together. */
    ghost function State(): Game
      reads this, board, board.state
      requires board.Valid()
    {
      Game(board.Cells(), board.emptySpace, board.winner, activePlayer)
    }

    /** The handler's invariant: a game in play, whose available flags are
        those of the player to move. */
    ghost predicate Valid()
      reads this, board, board.state, board.isAvailable
    {
      board.Valid() && IsPlayer(playerStarting) &&
      GameInvariant(State()) && board.AvailableFor(activePlayer)
    }

    constructor (playerStarting: int)
      requires IsPlayer(playerStarting)
      ensures Valid() && fresh(board) && fresh(board.state) && fresh(board.isAvailable)
      ensures State() == InitialGame(playerStarting) && mousePos.None?
      ensures this.playerStarting == playerStarting
    {
      board := new MuTorereBoard(playerStarting);
      mousePos := None;
      this.playerStarting := playerStarting;
      activePlayer := playerStarting;
      new;
      InitialGameInvariant(playerStarting);
    }

    /** Applies the selected counter's move when a counter was selected and
        nobody has won yet, then passes the turn; a move the board rejects
        raises ValueError before the turn passes. */
    method ProcessTurn(selected: Option<SpaceId>) returns (outcome: Outcome)
      requires Valid()
      modifies this, board, board.state, board.isAvailable
      ensures Valid() && board == old(board) && mousePos == old(mousePos)
      ensures var r := PlayTurn(old(State()), selected);
                (outcome.Pass? <==> r.Success?) &&
                State() == if r.Success? then r.value else old(State())
    {
      ghost var g := State();
      PlayTurnPreservesInvariant(g, selected);
      if selected.Some? && board.winner == 0 {
        var counter := selected.value;
        assert board.isAvailable[counter] <==> counter in AvailableCounters(g.cells, g.empty, g.active);
        outcome := board.Move(counter);
        if outcome.Fail? {
          assert PlayTurn(g, selected).Failure?;
          return;
        }
        assert g.cells[counter] == g.active;
        activePlayer := if activePlayer == 2 then 1 else 2;
        assert State() == PlayTurn(g, selected).value;
      } else {
        outcome := Pass;
      }
    }

    /** Starts a new game: a fresh board and the configured first player. */
    method ResetGame()
      requires Valid()
      modifies this
      ensures Valid() && fresh(board) && fresh(board.state) && fresh(board.isAvailable)
      ensures State() == InitialGame(playerStarting) && mousePos == old(mousePos)
    {
      board := new MuTorereBoard(playerStarting);
      activePlayer := playerStarting;
      InitialGameInvariant(playerStarting);
    }

    /** Handles the pending click: nothing without one; the new-game button
        resets; any other click attempts a turn. The pending click is then
        cleared, unless the turn raised. */
    method RunLogic() returns (outcome: Outcome)
      requires Valid()
      modifies this, board, board.state, board.isAvailable
      ensures Valid()
      ensures old(mousePos).None? ==>
                outcome.Pass? && board == old(board) && State() == old(State()) && mousePos.None?
      ensures old(mousePos) == Some(NewGameButton) ==>
                outcome.Pass? && fresh(board) && State() == InitialGame(playerStarting) && mousePos.None?
      ensures old(mousePos).Some? && old(mousePos).value.BoardClick? ==>
                var r := PlayTurn(old(State()), old(mousePos).value.selected);
                board == old(board) && (outcome.Pass? <==> r.Success?) &&
                State() == (if r.Success? then r.value else old(State())) &&
                mousePos == if r.Success? then None else old(mousePos)
    {
      if mousePos.None? {
        return Pass;
      }
      if mousePos.value == NewGameButton {
        ResetGame();
        outcome := Pass;
      } else {
        outcome := ProcessTurn(mousePos.value.selected);
        if outcome.Fail? {
          return;
        }
      }
      mousePos := None;
    }
  }
}
