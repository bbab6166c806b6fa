/**
  The invariants every reachable game state keeps: the snake is never empty
  once a game has started, never holds a dot twice, stays on the board and
  on the grid, has exactly one segment more than the score, and the food
  lies on free board dots without repeats.
 */
module Invariants {
  import opened Grid
  import opened Food
  import opened Game

  /** Every random food candidate is a board dot, as the source's
      `Math.floor(Math.random() * (size / dotSize)) * dotSize` always is. */
  predicate DrawsOnBoard(b: Board, draws: seq<Cell>)
  {
    forall c :: c in draws ==> InBounds(b, c) && Aligned(c)
  }

  /** The state of a game that has been started at least once. */
  predicate Playing(b: Board, s: State)
  {
    && |s.snake| == s.score + 1
    && Distinct(s.snake)
    && (forall c :: c in s.snake ==> InBounds(b, c) && Aligned(c))
    && Distinct(s.food)
    && (forall c :: c in s.food ==> c !in s.snake && InBounds(b, c) && Aligned(c))
  }

  /** The state before the first game: no snake, no food, no score. */
  predicate NeverStarted(s: State)
  {
    s.snake == [] && s.food == [] && s.score == 0 && !s.gameStarted
  }

  predicate Valid(b: Board, s: State)
  {
    NeverStarted(s) || Playing(b, s)
  }

  /** A started game always has a snake, so the timer's tick can read its head. */
  lemma ValidStartedHasSnake(b: Board, s: State)
    requires Valid(b, s) && s.gameStarted
    ensures Playing(b, s) && |s.snake| == s.score + 1 && InBounds(b, s.snake[0])
  {
  }

  lemma InitialIsValid(b: Board)
    ensures Valid(b, Initial)
  {
  }

  /** Starting a game on a board at least one pixel wide and high yields a
      one-dot snake at the origin with the food off it and free of repeats. */
  lemma StartGameEstablishesPlaying(b: Board, s: State, draws: seq<Cell>)
    requires b.width > 0 && b.height > 0
    requires DrawsOnBoard(b, draws)
    requires !s.gameStarted
    ensures Playing(b, StartGame(s, draws))
  {
    GenerateFoodKeepsFoodValid(b, [Origin], [], s.foodLimit, draws);
  }

  /** Ending the game keeps everything the game built. */
  lemma EndGameKeepsPlaying(b: Board, s: State)
    requires Playing(b, s)
    ensures Playing(b, EndGame(s)) && !EndGame(s).gameStarted
    ensures EndGame(s).snake == s.snake && EndGame(s).food == s.food && EndGame(s).score == s.score
  {
  }

  /**
    One tick keeps the game invariants: the new head is a free board dot, an
    eaten food dot leaves the food list, and the length stays score + 1
    whether the snake grew or dropped its tail.
   */
  lemma TickKeepsPlaying(b: Board, s: State, draws: seq<Cell>)
    requires Playing(b, s)
    requires DrawsOnBoard(b, draws)
    ensures Playing(b, Tick(b, s, draws))
    ensures !Collides(b, s) ==> Tick(b, s, draws).snake[0] !in Tick(b, s, draws).food
  {
    if !Collides(b, s) {
      var head := NextHead(s);
      MoveIsOneDot(s.snake[0], s.direction);
      var i := IndexOf(s.food, head);
      if i != -1 {
        RemoveAtDistinct(s.food, i);
        var food' := RemoveAt(s.food, i);
        MovedKeepsPlaying(b, s, [head] + s.snake, food', s.score + 1, draws);
        assert Tick(b, s, draws) == s.(snake := [head] + s.snake, score := s.score + 1,
          food := GenerateFood([head] + s.snake, food', s.foodLimit, draws));
      } else {
        var snake' := [head] + s.snake[..|s.snake| - 1];
        MovedKeepsPlaying(b, s, snake', s.food, s.score, draws);
        assert Tick(b, s, draws) == s.(snake := snake', food := GenerateFood(snake', s.food, s.foodLimit, draws));
      }
    }
  }

  /** The step of a tick after the move: a new head on a free board dot in
      front of (part of) the old body, with the eaten dot gone from the food,
      keeps the invariants once the food is refilled. */
  lemma MovedKeepsPlaying(b: Board, s: State, snake': seq<Cell>, food': seq<Cell>, score': nat, draws: seq<Cell>)
    requires Playing(b, s) && !Collides(b, s)
    requires DrawsOnBoard(b, draws)
    requires |snake'| == score' + 1
    requires snake' == [NextHead(s)] + s.snake || snake' == [NextHead(s)] + s.snake[..|s.snake| - 1]
    requires Distinct(food')
    requires forall c :: c in food' ==> c in s.food && c != NextHead(s)
    ensures var r := s.(snake := snake', score := score', food := GenerateFood(snake', food', s.foodLimit, draws));
      Playing(b, r) && NextHead(s) !in r.food
  {
    var head := NextHead(s);
    MoveIsOneDot(s.snake[0], s.direction);
    assert Distinct(snake') by {
      forall p, q | 0 <= p < q < |snake'|
        ensures snake'[p] != snake'[q]
      {
        if p > 0 { assert snake'[p] == s.snake[p - 1] && snake'[q] == s.snake[q - 1]; }
        else { assert snake'[q] == s.snake[q - 1]; }
      }
    }
    assert forall c :: c in snake' ==> c == head || c in s.snake;
    GenerateFoodKeepsFoodValid(b, snake', food', s.foodLimit, draws);
  }

  /** The length of the snake changes by one exactly when food is eaten, and
      the score with it. */
  lemma TickGrowsIffEats(b: Board, s: State, draws: seq<Cell>)
    requires Playing(b, s) && !Collides(b, s)
    ensures var r := Tick(b, s, draws);
      && (|r.snake| == |s.snake| + 1 <==> NextHead(s) in s.food)
      && (|r.snake| == |s.snake| <==> NextHead(s) !in s.food)
      && r.score - s.score == |r.snake| - |s.snake|
  {
  }

  /** A key press keeps the invariants: a turn changes only the direction,
      and Enter either does nothing or starts a fresh game. */
  lemma HandleKeydownKeepsValid(b: Board, s: State, key: string, draws: seq<Cell>)
    requires b.width > 0 && b.height > 0
    requires DrawsOnBoard(b, draws)
    requires Valid(b, s)
    ensures Valid(b, HandleKeydown(s, key, draws))
  {
    if key == "Enter" && !s.gameStarted {
      StartGameEstablishesPlaying(b, s, draws);
    }
  }

  /** Every event keeps the invariants. */
  lemma StepKeepsValid(b: Board, s: State, e: Event, draws: seq<Cell>)
    requires b.width > 0 && b.height > 0
    requires DrawsOnBoard(b, draws)
    requires Valid(b, s)
    ensures s.gameStarted ==> |s.snake| > 0
    ensures Valid(b, Step(b, s, e, draws))
  {
    match e
    case KeyDown(key) => HandleKeydownKeepsValid(b, s, key, draws);
    case TimerFired => if s.gameStarted { TickKeepsPlaying(b, s, draws); }
    case ChooseMode(mode) =>
  }

  /** The state after a sequence of events, each with its own random
      candidates. */
  function Run(b: Board, s: State, events: seq<Event>, draws: seq<seq<Cell>>): (r: State)
    requires |draws| == |events|
    requires b.width > 0 && b.height > 0
    requires forall k :: 0 <= k < |draws| ==> DrawsOnBoard(b, draws[k])
    requires Valid(b, s)
    ensures Valid(b, r)
    decreases |events|
  {
    if |events| == 0 then s
    else
      StepKeepsValid(b, s, events[0], draws[0]);
      Run(b, Step(b, s, events[0], draws[0]), events[1..], draws[1..])
  }

  /** Whatever happens from the script's initial values, a started game's
      snake has no repeated dot, its head is on the board, and its length is
      the score plus one. */
  lemma {:induction false} ReachableGameIsSound(b: Board, events: seq<Event>, draws: seq<seq<Cell>>)
    requires |draws| == |events|
    requires b.width > 0 && b.height > 0
    requires forall k :: 0 <= k < |draws| ==> DrawsOnBoard(b, draws[k])
    ensures var r := Run(b, Initial, events, draws);
      r.gameStarted ==>
        && |r.snake| == r.score + 1
        && Distinct(r.snake)
        && InBounds(b, r.snake[0])
        && forall c :: c in r.food ==> c !in r.snake
  {
    InitialIsValid(b);
    var r := Run(b, Initial, events, draws);
    if r.gameStarted {
      ValidStartedHasSnake(b, r);
    }
  }
}
