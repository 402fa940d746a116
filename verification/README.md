# Mu Torere — a Dafny model of the game's rule engine

Mu Torere is a two-player Māori board game played on an eight-pointed
star. The board has nine spaces: eight outer spaces arranged in a ring
(0..7) and one centre space (8). Each player owns four counters, so
exactly one space is empty at any time. On a turn the player to move
slides one of their counters into the empty space. If an outer space is
empty, any of the player's counters next to it may move. If the centre is
empty, only a counter that sits beside an opponent's counter on the ring
may move. A player who has no counter to move loses, and the player who
moved last wins.

The project models the rule engine of the Python implementation:

- **Cell entities.** `MuTorereSpace` (`space.dfy`) and its near-duplicate
  `MuTorereSlot` (`slot.dfy`) are classes. Each holds a state (0 empty,
  1 or 2 a player's counter) and an availability flag, with validating
  setters. A `ValueError` is modelled as a returned `Outcome` or `Result`
  (`common.dfy`), and a rejected update leaves the object unchanged. A
  slot also carries an identifier; the code accepts `range(10)`, i.e.
  0..9, although the parameter's documentation says 0 to 8. The model
  follows the code.
- **Rules.** `rules.dfy` holds the pure rules the board is proved against:
  - the star's adjacency and the board's neighbour lists;
  - which counters the player to move may select;
  - what a move does to the nine cells;
  - a whole turn of the game (`PlayTurn`), with the invariant every turn
    keeps: one empty cell, four counters each, and "there is a winner"
    exactly when the player to move is stuck.
- **Board.** `MuTorereBoard` (`board.dfy`) is a class with an array of the
  nine cell states, an array of the nine availability flags, the index of
  the empty space and the winner. Its methods follow the Python loops
  step by step. Each is proved to compute exactly what the rules say:
  - `GetAvailableCounters` returns the same list in the same order;
  - `UpdateAvailability` leaves the flags true exactly on that list;
  - `Move` changes the cells, the empty space and the winner as a move
    prescribes.
- **Turn controller.** `GameHandler` (`game_handler.dfy`) holds the board,
  the player to move, the configured first player and the pending click:
  - `ProcessTurn` performs exactly the turn `PlayTurn` describes;
  - `ResetGame` starts a fresh game;
  - `RunLogic` dispatches a pending click.

  The controller's invariant (`GameHandler.Valid`) ties it all together.
  The board is a valid layout. The flags are those of the player to move.
  The winner is non-zero exactly when that player has no move, and it is
  then the other player.

Some facts are proved about the rules themselves:

- With the centre empty, each player always has a move
  (`CentreEmptyHasMoves`). This is the ring argument: if no counter of
  the player stood beside an opponent's counter, the player's counters
  would spread all the way round the ring.
- A finished game ignores every further selection.
- Three concrete scenarios are worked out: the opening moves, the first
  turn of a game, and a winning turn.

## Model

| member | source | states |
|---|---|---|
| Rules.Neighbours | src/mu_torere_board.py:92-100 | The neighbour list of a space contains exactly the spaces adjacent to it on the star. For the centre that is all eight outer spaces. For an outer space it is the previous ring space (index -1 wraps to 7), the next one and the centre, three spaces in all, and no space is listed twice. |
| Rules.Opponent | src/mu_torere_board.py:119 | The opponent is always a player (1 or 2). For a player it is the other player. |
| Rules.SelectMembers | src/mu_torere_board.py:115-136 | The filtering loop keeps a candidate exactly when it holds the player's counter and, with the centre empty, also has a neighbour holding an opponent's counter. It keeps no candidate twice. |
| Rules.AvailableCounters | src/mu_torere_board.py:102-136 | The available counters are exactly the neighbours of the empty space that pass the test. None is listed twice. Every one holds the player's own counter and is adjacent to the empty space, so empty cells and opponent cells are never returned. |
| Rules.AvailableCountersRule | src/mu_torere_board.py:118-134 | This is the movement rule in the game's terms, in both directions. With an outer space empty, a space is available iff it holds the player and is adjacent to the empty space. With the centre empty, a space is available iff it is an outer space holding the player with an opponent's counter on a ring neighbour. The centre neighbour never counts, since it is empty. |
| Rules.ExactlyOneEmpty | src/mu_torere_space.py:9-11 | In a valid layout the recorded empty space is the only cell whose state is 0. |
| Rules.MovePreservesLayout | src/mu_torere_board.py:169-175 | Take a player's counter on a valid layout and slide it into the empty space. The empty space now holds that player. The moved-from cell becomes the only empty cell. Every other cell is unchanged. There are still one empty cell and four counters per player. |
| Rules.CentreEmptyHasMoves | src/mu_torere_board.py:118-128 | In any valid layout with the centre empty, each player has at least one available counter. So a game can never be won by leaving the centre empty. |
| Rules.StartLayoutValid | src/mu_torere_board.py:37-75 | The starting layout (outer 0..3 player 1, 4..7 player 2, centre empty) has one empty cell and four counters per player. |
| Rules.InitialGameInvariant | src/game_handler.py:52-53 | A new game, with the configured player to move and no winner, satisfies the game invariant. |
| Rules.PlayTurnPreservesInvariant | src/game_handler.py:98-100 | Every successful turn keeps the game invariant. The layout stays valid. The player to move is always 1 or 2. The winner is non-zero exactly when the player to move has no counter to move, and it is then the other player. |
| Rules.FinishedGameIsFrozen | src/game_handler.py:98 | Once the board has a winner, any selection leaves the game unchanged. |
| Rules.OpeningMoves | src/mu_torere_board.py:72-75 | In the opening position, player 1 may move exactly the counters on spaces 0 and 3. Player 2 may move exactly those on 4 and 7. Spaces 0 and 7 meet through the ring's wrap-around. |
| Rules.FirstTurn | src/mu_torere_board.py:169-183 | Player 1 opens by moving the counter on space 0. It lands in the centre. Space 0 becomes the empty space. Player 2 can reply, so there is no winner, and player 2 moves next. |
| Rules.StuckLayout | src/mu_torere_board.py:180-183 | If space 0 is empty and its neighbours 1, 7 and the centre all hold player 2, player 1 has no counter to move. |
| Rules.WinningTurn | src/mu_torere_board.py:180-183 | Player 2 moves the counter on space 0 into the empty space 1. This leaves player 1 stuck, so player 2 becomes the winner. The game before and after that turn both satisfy the game invariant. |
| Board.MuTorereBoard.constructor | src/mu_torere_board.py:36-80 | A new board has outer spaces 0..3 holding player 1, 4..7 holding player 2, the centre empty and recorded as the empty space, and winner 0. Its layout is valid. Its availability flags are exactly the starting player's available counters. |
| Board.MuTorereBoard.HasNeighbourHolding | src/mu_torere_board.py:124-128 | The scan over a space's neighbours reports a match exactly when some neighbour holds the given state. |
| Board.MuTorereBoard.GetAvailableCounters | src/mu_torere_board.py:102-136 | The two loops return exactly the rule's list of available counters, in the same order. The board is not modified. |
| Board.MuTorereBoard.UpdateAvailability | src/mu_torere_board.py:138-156 | Clearing every flag and then setting the returned counters' flags leaves a flag true exactly on the player's available counters. It returns that list. Only the flags change. |
| Board.MuTorereBoard.Move | src/mu_torere_board.py:158-183 | The move raises ValueError iff the counter is empty or not flagged available. It then changes no cell, flag, empty space or winner. Otherwise the cells become the moved layout and the moved-from space becomes the empty space. The flags become the opponent's available counters. The winner becomes the mover iff the opponent has none, and is otherwise unchanged. A valid layout stays valid. |
| GameHandler.GameHandler.constructor | src/game_handler.py:44-53 | A new handler holds a fresh starting board, no pending click and the configured starting player as the player to move. The game invariant holds. |
| GameHandler.GameHandler.ProcessTurn | src/game_handler.py:83-104 | The handler's board and player to move change exactly as one turn of the game prescribes. With no selection or an existing winner, nothing changes. Otherwise the move is made and the player to move flips. A move the board rejects raises ValueError and changes nothing. The invariant is kept. |
| GameHandler.GameHandler.ResetGame | src/game_handler.py:106-115 | A reset installs a fresh starting board (centre empty, winner 0) and makes the configured starting player the player to move. |
| GameHandler.GameHandler.RunLogic | src/game_handler.py:157-173 | With no pending click, nothing happens. A click on the new-game button resets the game and clears the click. A click on the board performs the turn; the click is cleared when the turn succeeds and stays pending when it raises. The invariant is kept. |
| Space.MuTorereSpace.Create | src/mu_torere_space.py:26-51 | Construction raises ValueError iff the state is outside {0, 1, 2}. Otherwise it stores the given state and availability, which default to 0 and false. |
| Space.MuTorereSpace.Update | src/mu_torere_space.py:76-87 | A state in {0, 1, 2} is stored. Any other state raises ValueError and leaves the state unchanged. Availability is untouched. |
| Space.MuTorereSpace.UpdateAvailability | src/mu_torere_space.py:89-98 | The availability flag takes the given value, and the state is unchanged. |
| Slot.MuTorereSlot.Create | src/mu_torere_slot.py:27-57 | Construction raises ValueError iff the state is outside {0, 1, 2} or the identifier is outside 0..9. Otherwise it stores the identifier, state and availability. State and availability default to 0 and false. |
| Slot.MuTorereSlot.Update | src/mu_torere_slot.py:81-92 | A state in {0, 1, 2} is stored. Any other state raises ValueError and leaves the state unchanged. Availability is untouched. |
| Slot.MuTorereSlot.UpdateAvailability | src/mu_torere_slot.py:94-103 | The availability flag takes the given value, and the state is unchanged. |

## Left out

- src/counter.py is not part of this model. It is presentation only: drawing, a rectangle and a sound.
- Drawing is left out: every `draw` method, `_draw_edge`, `_display_game_information`, fonts, colours and the on-screen text. So is the pygame event loop (`run`, `process_events`).
- Sound playback in `_process_turn` is left out. It is output only.
- Reading the JSON configuration is left out. The configured first player becomes a constructor parameter. The board constructor takes it as well, standing for the same configuration value.
- Screen coordinates are left out: the board's and each space's `center`, the computed outer centres, the bounding-box corner and the click rectangles. They carry no rule content.
- `process_mouse_click` is abstracted, because the board's click-to-counter mapping is not part of this model. A pending click is either the new-game button or a board click carrying the space it selected, if any. The model accepts any selected space, not only an available counter, so the rejection path of `move` stays reachable.
- The board does not hold nine `MuTorereSpace` objects. It keeps their two fields in two arrays indexed by the space's position in the list of all spaces, so the empty space and a moved counter are indices rather than object references. Object identity and aliasing between the board's lists are not modelled. The cell classes are modelled on their own.
- Board.MuTorereBoard.Move: takes a space of this board. The Python method accepts any object with `state` and `is_available`, including one from another board, and that case is not modelled.
- The space and slot constructors' failure is stated as the checked `Create` method. The plain constructor, which requires valid arguments, is the allocation step it uses.
