/**
  Concrete plays that pin down how the script behaves where a textbook snake
  would differ: the tail cell counts as a collision, and two key presses
  between ticks can turn the snake straight round.
 */
module Scenarios {
  import opened Grid
  import opened Game

  /** A 5 x 5 dot board. */
  const Small: Board := Board(5 * DotSize, 5 * DotSize)

  /** The dot in grid row `row` and grid column `col`. */
  function At(row: int, col: int): (c: Cell)
    ensures Aligned(c)
  {
    Cell(row * DotSize, col * DotSize)
  }

  /** Moving onto the dot the tail occupies ends the game, even though the
      tail would have moved away on that same tick. */
  lemma MovingIntoTailEndsGame(b: Board, s: State, draws: seq<Cell>)
    requires |s.snake| > 0
    requires NextHead(s) == s.snake[|s.snake| - 1]
    ensures !Tick(b, s, draws).gameStarted
    ensures Tick(b, s, draws).snake == s.snake && Tick(b, s, draws).score == s.score
  {
  }

  /** A four-dot snake curled into a square, heading Down into its own tail:
      the game ends with the score it had. */
  lemma SquareSnakeBitesTail()
    ensures var s := State(Down, [At(0, 0), At(0, 1), At(1, 1), At(1, 0)], [], 3, 120, 5, true);
      Tick(Small, s, []) == s.(gameStarted := false)
  {
    var s := State(Down, [At(0, 0), At(0, 1), At(1, 1), At(1, 0)], [], 3, 120, 5, true);
    assert NextHead(s) == At(1, 0);
  }

  /** A snake heading Right with its neck behind it: "ArrowUp" then
      "ArrowLeft" before the next tick leave it heading Left, and that tick
      runs the head into the neck and ends the game. */
  lemma TwoPressesTurnRound()
    ensures var s := State(Right, [At(0, 2), At(0, 1)], [], 1, 120, 5, true);
      var turned := HandleKeydown(HandleKeydown(s, "ArrowUp", []), "ArrowLeft", []);
      && turned.direction == Opposite(s.direction)
      && !Tick(Small, turned, []).gameStarted
  {
    var s := State(Right, [At(0, 2), At(0, 1)], [], 1, 120, 5, true);
    assert KeyDirection("ArrowUp") == Some(Up);
    assert KeyDirection("ArrowLeft") == Some(Left);
    var turned := HandleKeydown(HandleKeydown(s, "ArrowUp", []), "ArrowLeft", []);
    assert NextHead(turned) == At(0, 1);
  }

  /** A three-dot snake heading Right onto food grows to four, keeps its
      tail, scores one, and the eaten dot leaves the food list. */
  lemma EatingKeepsTail()
    ensures var s := State(Right, [At(2, 2), At(2, 1), At(2, 0)], [At(2, 3)], 2, 120, 5, true);
      var r := Tick(Small, s, []);
      && r.snake == [At(2, 3), At(2, 2), At(2, 1), At(2, 0)]
      && r.score == 3
      && r.food == []
      && r.gameStarted
  {
    var s := State(Right, [At(2, 2), At(2, 1), At(2, 0)], [At(2, 3)], 2, 120, 5, true);
    assert NextHead(s) == At(2, 3);
  }

  /** Heading Up on the top row ends the game at the score it had. */
  lemma TopWallEndsGame(col: int, score: nat)
    requires 0 <= col < 5
    ensures var s := State(Up, [At(0, col)], [], score, 60, 4, true);
      Tick(Small, s, []) == s.(gameStarted := false)
  {
  }

  /** From a fresh start on the 5 x 5 board with no food, three ticks heading
      Right leave a one-dot snake three dots to the right of the origin. */
  lemma ThreeTicksRight()
    ensures var s0 := StartGame(Initial, []);
      var s3 := Tick(Small, Tick(Small, Tick(Small, s0, []), []), []);
      s3.snake == [At(0, 3)] && s3.gameStarted && s3.score == 0
  {
    var s0 := StartGame(Initial, []);
    assert s0.snake == [At(0, 0)];
    var s1 := Tick(Small, s0, []);
    assert NextHead(s0) == At(0, 1);
    assert s1.snake == [At(0, 1)];
    var s2 := Tick(Small, s1, []);
    assert NextHead(s1) == At(0, 2);
    assert s2.snake == [At(0, 2)];
    assert NextHead(s2) == At(0, 3);
  }
}
