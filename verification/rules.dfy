/** The rules of Mu Torere as pure functions over the nine board cells:
    the star-shaped adjacency graph, which counters the player to move may
    select, what a move does to the cells, and a whole turn of the game.
    The board and turn-controller classes are proved against these. */
module Rules {
  import opened Common

  /** Position of a space in the board's list of all spaces: the outer
      spaces 0..7 in ring order, then the centre. */
  type SpaceId = i: nat | i < 9

  const Centre: SpaceId := 8

  predicate Distinct<T(==)>(s: seq<T>) {
    forall a, b :: 0 <= a < b < |s| ==> s[a] != s[b]
  }

  /** The edges of the eight-pointed star, stated independently of the
      neighbour lists: the centre is joined to every outer space, and each
      outer space to the next one round the ring. */
  predicate Adjacent(i: SpaceId, j: SpaceId) {
    i != j && (i == Centre || j == Centre || (i + 1) % 8 == j || (j + 1) % 8 == i)
  }

  /** The neighbour list of a space, in the order the board builds it: all
      outer spaces for the centre; otherwise the previous outer space (the
      list index -1 wraps round to 7), the next one, and the centre. */
  function Neighbours(space: SpaceId): (r: seq<SpaceId>)
    ensures forall j :: j in r <==> Adjacent(space, j)
    ensures |r| == if space == Centre then 8 else 3
    ensures Distinct(r)
  {
    if space == Centre then [0, 1, 2, 3, 4, 5, 6, 7]
    else [if space == 0 then 7 else space - 1, (space + 1) % 8, Centre]
  }

  /** The other player; any value other than 2 is answered with 2. */
  function Opponent(player: int): (r: int)
    ensures IsPlayer(r)
    ensures IsPlayer(player) ==> r != player && r + player == 3
  {
    if player == 2 then 1 else 2
  }

  /** The test a candidate (a neighbour of the empty space) must pass: it
      holds the player's counter and, when the centre is the empty space,
      one of its own neighbours holds an opponent's counter. */
  predicate Qualifies(cells: seq<int>, empty: SpaceId, player: int, space: SpaceId)
    requires |cells| == 9
  {
    cells[space] == player &&
    (empty == Centre ==> exists n :: n in Neighbours(space) && cells[n] == Opponent(player))
  }

  /** The candidates that pass the test, in candidate order. */
  function Select(candidates: seq<SpaceId>, cells: seq<int>, empty: SpaceId, player: int): (r: seq<SpaceId>)
    requires |cells| == 9
  {
    if candidates == [] then []
    else
      var last := candidates[|candidates| - 1];
      Select(candidates[..|candidates| - 1], cells, empty, player)
        + (if Qualifies(cells, empty, player, last) then [last] else [])
  }

  /** Select keeps exactly the candidates that pass the test, and keeps
      none twice when no candidate is listed twice. */
  lemma {:induction false} SelectMembers(candidates: seq<SpaceId>, cells: seq<int>, empty: SpaceId, player: int)
    requires |cells| == 9
    ensures var r := Select(candidates, cells, empty, player);
              forall i :: i in r <==> i in candidates && Qualifies(cells, empty, player, i)
    ensures Distinct(candidates) ==> Distinct(Select(candidates, cells, empty, player))
  {
    if candidates != [] {
      var init := candidates[..|candidates| - 1];
      var last := candidates[|candidates| - 1];
      SelectMembers(init, cells, empty, player);
      assert candidates == init + [last];
      if Distinct(candidates) {
        assert Distinct(init);
        assert last !in init;
      }
    }
  }

  /** The counters the player may move into the empty space this turn. */
  function AvailableCounters(cells: seq<int>, empty: SpaceId, player: int): (r: seq<SpaceId>)
    requires |cells| == 9
    ensures Distinct(r)
    ensures forall i :: i in r <==> i in Neighbours(empty) && Qualifies(cells, empty, player, i)
    ensures forall i :: i in r ==> cells[i] == player && Adjacent(i, empty)
  {
    SelectMembers(Neighbours(empty), cells, empty, player);
    Select(Neighbours(empty), cells, empty, player)
  }

  /** Whether one of the two ring neighbours of an outer space holds q. */
  predicate RingNeighbourHolds(cells: seq<int>, space: SpaceId, q: int)
    requires |cells| == 9
  {
    space != Centre && (cells[(space + 7) % 8] == q || cells[(space + 1) % 8] == q)
  }

  /** The movement rule in the game's own words. With an outer space empty,
      exactly the player's counters next to it may move. With the centre
      empty, exactly the player's outer counters that sit beside an
      opponent's counter on the ring may move (the centre, being empty,
      never counts as that opponent). */
  lemma AvailableCountersRule(cells: seq<int>, empty: SpaceId, player: int, space: SpaceId)
    requires |cells| == 9 && cells[empty] == 0
    ensures space in AvailableCounters(cells, empty, player) <==>
              cells[space] == player &&
              if empty == Centre then RingNeighbourHolds(cells, space, Opponent(player))
              else Adjacent(space, empty)
  {
    if empty == Centre && space != Centre {
      var ns := Neighbours(space);
      assert ns == [(space + 7) % 8, (space + 1) % 8, Centre];
      assert cells[Centre] != Opponent(player);
      if RingNeighbourHolds(cells, space, Opponent(player)) {
        if cells[(space + 7) % 8] == Opponent(player) {
          assert ns[0] in ns;
        } else {
          assert ns[1] in ns;
        }
      }
    }
  }

  /** The starting layout: outer spaces 0..3 hold player 1, 4..7 hold
      player 2, and the centre is empty. */
  const StartCells: seq<int> := [1, 1, 1, 1, 2, 2, 2, 2, 0]

  /** How many cells hold x. */
  function Count(s: seq<int>, x: int): (n: nat)
    ensures n <= |s|
  {
    if s == [] then 0 else Count(s[..|s| - 1], x) + (if s[|s| - 1] == x then 1 else 0)
  }

  /** A layout reachable in play: every cell a state, one empty cell, four
      counters for each player, and `empty` naming the empty cell. */
  predicate ValidLayout(cells: seq<int>, empty: SpaceId) {
    |cells| == 9 && cells[empty] == 0 &&
    (forall i :: 0 <= i < 9 ==> IsState(cells[i])) &&
    Count(cells, 0) == 1 && Count(cells, 1) == 4 && Count(cells, 2) == 4
  }

  /** Overwriting one cell moves one unit of count from the old value to
      the new one. */
  lemma {:induction false} CountUpdate(s: seq<int>, i: nat, v: int, x: int)
    requires i < |s|
    ensures Count(s[i := v], x) ==
              Count(s, x) - (if s[i] == x then 1 else 0) + (if v == x then 1 else 0)
  {
    var n := |s| - 1;
    assert s[i := v][..n] == if i < n then s[..n][i := v] else s[..n];
    if i < n {
      CountUpdate(s[..n], i, v, x);
    }
  }

  /** Two distinct cells holding x make its count at least two. */
  lemma {:induction false} CountTwo(s: seq<int>, i: nat, j: nat, x: int)
    requires i < j < |s| && s[i] == x && s[j] == x
    ensures Count(s, x) >= 2
  {
    var n := |s| - 1;
    if j < n {
      CountTwo(s[..n], i, j, x);
    } else {
      CountOne(s[..n], i, x);
    }
  }

  /** A cell holding x makes its count at least one. */
  lemma {:induction false} CountOne(s: seq<int>, i: nat, x: int)
    requires i < |s| && s[i] == x
    ensures Count(s, x) >= 1
  {
    var n := |s| - 1;
    if i < n {
      CountOne(s[..n], i, x);
    }
  }

  /** x is not counted when no cell holds it. */
  lemma {:induction false} CountNone(s: seq<int>, x: int)
    requires forall i :: 0 <= i < |s| ==> s[i] != x
    ensures Count(s, x) == 0
  {
    if s != [] {
      CountNone(s[..|s| - 1], x);
    }
  }

  /** One when the condition holds, zero otherwise. */
  function Hit(b: bool): (n: nat) {
    if b then 1 else 0
  }

  /** Counting a prefix one cell longer adds that cell. */
  lemma CountLast(s: seq<int>, k: nat, x: int)
    requires k < |s|
    ensures Count(s[..k + 1], x) == Count(s[..k], x) + Hit(s[k] == x)
  {
    assert s[..k + 1][..k] == s[..k];
  }

  /** The count over nine cells, spelled out cell by cell, so that the
      count of a concrete layout can be read off its nine entries. */
  lemma CountNine(s: seq<int>, x: int)
    requires |s| == 9
    ensures Count(s, x) ==
              Hit(s[0] == x) + Hit(s[1] == x) + Hit(s[2] == x) + Hit(s[3] == x) + Hit(s[4] == x) +
              Hit(s[5] == x) + Hit(s[6] == x) + Hit(s[7] == x) + Hit(s[8] == x)
  {
    forall k | 0 <= k < 9
      ensures Count(s[..k + 1], x) == Count(s[..k], x) + Hit(s[k] == x)
    {
      CountLast(s, k, x);
    }
    assert s[..9] == s;
  }

  /** In a valid layout exactly one cell is empty. */
  lemma ExactlyOneEmpty(cells: seq<int>, empty: SpaceId)
    requires ValidLayout(cells, empty)
    ensures forall i: SpaceId :: cells[i] == 0 <==> i == empty
  {
    forall i: SpaceId | cells[i] == 0 ensures i == empty {
      if i < empty {
        CountTwo(cells, i, empty, 0);
      } else if empty < i {
        CountTwo(cells, empty, i, 0);
      }
    }
  }

  /** The cells after the counter on `from` slides into the empty space:
      the empty space takes the counter, then `from` is emptied. */
  function MovedCells(cells: seq<int>, empty: SpaceId, from: SpaceId): (r: seq<int>)
    requires |cells| == 9
    ensures |r| == 9
  {
    cells[empty := cells[from]][from := 0]
  }

  /** Moving a counter keeps a valid layout, with the vacated space as the
      new empty space: still one empty cell and four counters each. */
  lemma MovePreservesLayout(cells: seq<int>, empty: SpaceId, from: SpaceId)
    requires ValidLayout(cells, empty) && IsPlayer(cells[from])
    ensures ValidLayout(MovedCells(cells, empty, from), from)
    ensures var r := MovedCells(cells, empty, from);
              r[empty] == cells[from] && forall i: SpaceId :: i != empty && i != from ==> r[i] == cells[i]
  {
    var c := cells[from];
    var mid := cells[empty := c];
    forall x | x == 0 || x == 1 || x == 2
      ensures Count(mid[from := 0], x) == Count(cells, x)
    {
      CountUpdate(cells, empty, c, x);
      CountUpdate(mid, from, 0, x);
    }
  }

  /** The counter on outer space i, when it is the player's, is followed
      round the ring by another of the player's counters. */
  predicate Follows(cells: seq<int>, player: int, i: nat)
    requires |cells| == 9 && i < 8
  {
    cells[i] == player ==> cells[(i + 1) % 8] == player
  }

  /** From a counter of the player at `a`, a ring in which every counter of
      the player is followed by another holds the player everywhere from `a`
      up to space 7. */
  lemma {:induction false} SpreadUp(cells: seq<int>, player: int, a: nat, j: nat)
    requires |cells| == 9 && a <= j < 8 && cells[a] == player
    requires forall i :: 0 <= i < 8 ==> Follows(cells, player, i)
    ensures cells[j] == player
    decreases j - a
  {
    if a < j {
      SpreadUp(cells, player, a, j - 1);
      assert Follows(cells, player, j - 1);
    }
  }

  /** Some cell holds x when x is counted. */
  lemma PlaceOf(cells: seq<int>, x: int) returns (i: SpaceId)
    requires |cells| == 9 && Count(cells, x) > 0
    ensures cells[i] == x
  {
    if forall j :: 0 <= j < 9 ==> cells[j] != x {
      CountNone(cells, x);
    }
    i :| cells[i] == x;
  }

  /** With the centre empty the player to move always has a counter to
      move: somewhere round the ring one of its counters meets an opponent's.
      So a game can only be won when the empty space is an outer one. */
  lemma CentreEmptyHasMoves(cells: seq<int>, player: int)
    requires ValidLayout(cells, Centre) && IsPlayer(player)
    ensures AvailableCounters(cells, Centre, player) != []
  {
    var opp := Opponent(player);
    var a := PlaceOf(cells, player);
    var b := PlaceOf(cells, opp);
    if AvailableCounters(cells, Centre, player) == [] {
      ExactlyOneEmpty(cells, Centre);
      forall i | 0 <= i < 8 ensures Follows(cells, player, i) {
        AvailableCountersRule(cells, Centre, player, i);
      }
      SpreadUp(cells, player, a, 7);
      assert Follows(cells, player, 7);
      SpreadUp(cells, player, 0, b);
      assert false;
    }
  }

  /** The whole game as a value: the cells, the empty space, the winner
      (0 while the game goes on) and the player whose turn it is. */
  datatype Game = Game(cells: seq<int>, empty: SpaceId, winner: int, active: int)

  /** A new game: the starting layout, no winner, the configured player
      to move. */
  function InitialGame(starting: int): (g: Game) {
    Game(StartCells, Centre, 0, starting)
  }

  /** One turn on a selected counter. Nothing happens when no counter is
      selected or the game is already won; a counter that is empty or not
      available raises ValueError. Otherwise the counter moves into the
      empty space, the winner becomes the mover when the next player has no
      counter to move, and the turn passes. */
  function PlayTurn(g: Game, selected: Option<SpaceId>): (r: Result<Game>)
    requires |g.cells| == 9
  {
    if selected.None? || g.winner != 0 then Success(g)
    else
      var from := selected.value;
      var mover := g.cells[from];
      if !(IsPlayer(mover) && from in AvailableCounters(g.cells, g.empty, g.active)) then
        Failure(ValueError)
      else
        var cells := MovedCells(g.cells, g.empty, from);
        var winner := if AvailableCounters(cells, from, Opponent(mover)) == [] then mover else g.winner;
        Success(Game(cells, from, winner, Opponent(g.active)))
  }

  /** What holds of every game in play: a valid layout, a player to move,
      a winner exactly when the player to move is stuck, and that winner is
      the other player (the one who moved last). */
  predicate GameInvariant(g: Game) {
    ValidLayout(g.cells, g.empty) && IsPlayer(g.active) &&
    (g.winner == 0 <==> AvailableCounters(g.cells, g.empty, g.active) != []) &&
    (g.winner != 0 ==> g.winner == Opponent(g.active))
  }

  /** The starting layout is a valid one: the centre empty and four
      counters for each player. */
  lemma StartLayoutValid()
    ensures ValidLayout(StartCells, Centre)
  {
    CountNine(StartCells, 0);
    CountNine(StartCells, 1);
    CountNine(StartCells, 2);
  }

  lemma InitialGameInvariant(starting: int)
    requires IsPlayer(starting)
    ensures GameInvariant(InitialGame(starting))
  {
    StartLayoutValid();
    CentreEmptyHasMoves(StartCells, starting);
  }

  /** Every turn keeps the invariant: a game in play stays one. */
  lemma PlayTurnPreservesInvariant(g: Game, selected: Option<SpaceId>)
    requires GameInvariant(g)
    ensures PlayTurn(g, selected).Success? ==> GameInvariant(PlayTurn(g, selected).value)
  {
    if selected.Some? && g.winner == 0 {
      var from := selected.value;
      if IsPlayer(g.cells[from]) && from in AvailableCounters(g.cells, g.empty, g.active) {
        assert g.cells[from] == g.active;
        MovePreservesLayout(g.cells, g.empty, from);
      }
    }
  }

  /** A finished game ignores every selection until it is reset. */
  lemma FinishedGameIsFrozen(g: Game, selected: Option<SpaceId>)
    requires |g.cells| == 9 && g.winner != 0
    ensures PlayTurn(g, selected) == Success(g)
  {
  }

  /** The opening position with the centre empty: player 1 may move the
      counters on spaces 0 and 3, player 2 those on 4 and 7. Spaces 0 and 7
      meet through the wrap-around of the ring. */
  lemma OpeningMoves()
    ensures forall i: SpaceId :: i in AvailableCounters(StartCells, Centre, 1) <==> i == 0 || i == 3
    ensures forall i: SpaceId :: i in AvailableCounters(StartCells, Centre, 2) <==> i == 4 || i == 7
  {
    forall i: SpaceId
      ensures i in AvailableCounters(StartCells, Centre, 1) <==> i == 0 || i == 3
      ensures i in AvailableCounters(StartCells, Centre, 2) <==> i == 4 || i == 7
    {
      AvailableCountersRule(StartCells, Centre, 1, i);
      AvailableCountersRule(StartCells, Centre, 2, i);
    }
  }

  /** The first turn of a game started by player 1 on space 0: the counter
      slides into the centre, space 0 becomes the empty space, player 2 has
      a reply (space 7), so nobody has won and player 2 moves next. */
  lemma FirstTurn()
    ensures PlayTurn(InitialGame(1), Some(0)) == Success(Game([0, 1, 1, 1, 2, 2, 2, 2, 1], 0, 0, 2))
  {
    OpeningMoves();
    var cells := MovedCells(StartCells, Centre, 0);
    assert cells == [0, 1, 1, 1, 2, 2, 2, 2, 1];
    AvailableCountersRule(cells, 0, 2, 7);
  }

  const BeforeWin: Game := Game([2, 0, 1, 1, 1, 1, 2, 2, 2], 1, 0, 2)
  const AfterWin: Game := Game([0, 2, 1, 1, 1, 1, 2, 2, 2], 0, 2, 1)

  /** A winning turn: player 2 slides the counter on space 0 into the empty
      space 1, leaving space 0 empty with every neighbour (1, 7 and the
      centre) held by player 2. Player 1 has no counter to move, so player 2
      wins, and both games satisfy the invariant. */
  lemma WinningTurn()
    ensures GameInvariant(BeforeWin) && GameInvariant(AfterWin)
    ensures PlayTurn(BeforeWin, Some(0)) == Success(AfterWin)
  {
    var cells := AfterWin.cells;
    BeforeWinLayout();
    AvailableCountersRule(BeforeWin.cells, 1, 2, 0);
    assert MovedCells(BeforeWin.cells, 1, 0) == cells;
    StuckLayout(cells);
    MovePreservesLayout(BeforeWin.cells, 1, 0);
  }

  /** With space 0 empty and its three neighbours (1, 7 and the centre)
      all held by player 2, player 1 has no counter to move, whatever the
      other cells hold. */
  lemma StuckLayout(cells: seq<int>)
    requires |cells| == 9 && cells[1] == 2 && cells[7] == 2 && cells[8] == 2
    ensures AvailableCounters(cells, 0, 1) == []
  {
    var ns := Neighbours(0);
    assert ns == [7, 1, 8];
    assert ns[..2] == [7, 1] && ns[..2][..1] == [7] && ns[..2][..1][..0] == [];
    assert !Qualifies(cells, 0, 1, 7) && !Qualifies(cells, 0, 1, 1) && !Qualifies(cells, 0, 1, 8);
    assert Select([7], cells, 0, 1) == [];
    assert Select([7, 1], cells, 0, 1) == [];
    assert Select(ns, cells, 0, 1) == [];
  }

  /** The layout before the winning turn is a valid one. */
  lemma BeforeWinLayout()
    ensures ValidLayout(BeforeWin.cells, BeforeWin.empty)
  {
    CountNine(BeforeWin.cells, 0);
    CountNine(BeforeWin.cells, 1);
    CountNine(BeforeWin.cells, 2);
  }
}
