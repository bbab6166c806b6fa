/**
  The game state of the Snake script and its handlers, as pure transitions:
  `setGameMode`, `startGame`, `updateSnake` (one tick), `endGame` and
  `handleKeydown`. Rendering, timers and the random source are outside; the
  random food candidates are passed in as `draws`.
 */
module Game {
  import opened Grid
  import opened Food

  datatype Option<T> = None | Some(value: T)

  /** The script's module-level variables. `speed` is the tick interval in
      milliseconds, kept only as a stored value. */
  datatype State = State(
    direction: Direction,
    snake: seq<Cell>,
    food: seq<Cell>,
    score: nat,
    speed: int,
    foodLimit: int,
    gameStarted: bool)

  /** The values the script starts with, before any mode is chosen. */
  const Initial: State := State(Right, [], [], 0, 150, 5, false)

  /** The dot every new game starts from. */
  const Origin: Cell := Cell(0, 0)

  /** `setGameMode`: Easy, Medium and Hard fix the tick interval and the food
      limit; any other mode name changes nothing. */
  function SetGameMode(s: State, mode: string): (r: State)
    ensures r.(speed := s.speed, foodLimit := s.foodLimit) == s
    ensures mode == "Easy" ==> r.speed == 200 && r.foodLimit == 7
    ensures mode == "Medium" ==> r.speed == 120 && r.foodLimit == 5
    ensures mode == "Hard" ==> r.speed == 60 && r.foodLimit == 4
    ensures mode != "Easy" && mode != "Medium" && mode != "Hard" ==> r == s
  {
    match mode
    case "Easy" => s.(speed := 200, foodLimit := 7)
    case "Medium" => s.(speed := 120, foodLimit := 5)
    case "Hard" => s.(speed := 60, foodLimit := 4)
    case _ => s
  }

  /** `startGame`: ignored while a game runs; otherwise a one-dot snake at
      the origin heading Right, score 0, and food refilled from empty. */
  function StartGame(s: State, draws: seq<Cell>): (r: State)
    ensures s.gameStarted ==> r == s
    ensures !s.gameStarted ==>
      && r.gameStarted
      && r.direction == Right
      && r.snake == [Origin]
      && r.score == 0
      && r.speed == s.speed
      && r.foodLimit == s.foodLimit
      && Origin !in r.food
      && (forall c :: c in r.food ==> c in draws)
      && (|r.food| >= r.foodLimit || forall d :: d in draws ==> d in r.snake || d in r.food)
      && (|r.food| <= r.foodLimit || r.food == [])
  {
    if s.gameStarted then s
    else
      var reset := s.(gameStarted := true, direction := Right, snake := [Origin], food := [], score := 0);
      reset.(food := GenerateFood(reset.snake, [], reset.foodLimit, draws))
  }

  /** `endGame`: the game stops; snake, food and score stay as they were. */
  function EndGame(s: State): (r: State)
    ensures !r.gameStarted
    ensures r.snake == s.snake && r.food == s.food && r.score == s.score
    ensures r.direction == s.direction && r.speed == s.speed && r.foodLimit == s.foodLimit
  {
    s.(gameStarted := false)
  }

  /** Where the head goes on the next tick. */
  function NextHead(s: State): (h: Cell)
    requires |s.snake| > 0
  {
    Move(s.snake[0], s.direction)
  }

  /** The next tick ends the game: the new head leaves the board or lands on
      any current segment, the tail included. */
  predicate Collides(b: Board, s: State)
    requires |s.snake| > 0
  {
    !InBounds(b, NextHead(s)) || NextHead(s) in s.snake
  }

  /**
    `updateSnake`: move the head one dot; end the game on a wall or on the
    body (tested against the whole body before the tail moves); otherwise
    eat the food under the new head and grow, or drop the tail; then refill
    the food.
   */
  function Tick(b: Board, s: State, draws: seq<Cell>): (r: State)
    requires |s.snake| > 0
    ensures r.direction == s.direction && r.speed == s.speed && r.foodLimit == s.foodLimit
    ensures Collides(b, s) ==> r == EndGame(s)
    ensures !Collides(b, s) ==>
      && r.gameStarted == s.gameStarted
      && |r.snake| > 0
      && r.snake[0] == NextHead(s)
      && InBounds(b, r.snake[0])
      && r.snake[0] !in s.snake
    ensures !Collides(b, s) && NextHead(s) in s.food ==>
      r.snake == [NextHead(s)] + s.snake && r.score == s.score + 1
    ensures !Collides(b, s) && NextHead(s) !in s.food ==>
      r.snake == [NextHead(s)] + s.snake[..|s.snake| - 1] && r.score == s.score
    ensures !Collides(b, s) ==>
      var kept := if NextHead(s) in s.food then RemoveAt(s.food, IndexOf(s.food, NextHead(s))) else s.food;
      && kept <= r.food
      && (forall i :: |kept| <= i < |r.food| ==> r.food[i] in draws && r.food[i] !in r.snake)
      && (|r.food| >= s.foodLimit || forall d :: d in draws ==> d in r.snake || d in r.food)
      && (|kept| >= s.foodLimit ==> r.food == kept)
      && (|kept| < s.foodLimit ==> |r.food| <= s.foodLimit)
  {
    var head := NextHead(s);
    if !InBounds(b, head) then EndGame(s)
    else if head in s.snake then EndGame(s)
    else
      var body := [head] + s.snake;
      var i := IndexOf(s.food, head);
      var moved :=
        if i != -1 then s.(snake := body, score := s.score + 1, food := RemoveAt(s.food, i))
        else s.(snake := body[..|body| - 1]);
      moved.(food := GenerateFood(moved.snake, moved.food, moved.foodLimit, draws))
  }

  /** The direction a key asks for: arrows and WASD (lower case only). */
  function KeyDirection(key: string): (d: Option<Direction>)
    ensures d == Some(Up) <==> key == "ArrowUp" || key == "w"
    ensures d == Some(Down) <==> key == "ArrowDown" || key == "s"
    ensures d == Some(Left) <==> key == "ArrowLeft" || key == "a"
    ensures d == Some(Right) <==> key == "ArrowRight" || key == "d"
  {
    match key
    case "ArrowUp" => Some(Up)
    case "w" => Some(Up)
    case "ArrowDown" => Some(Down)
    case "s" => Some(Down)
    case "ArrowLeft" => Some(Left)
    case "a" => Some(Left)
    case "ArrowRight" => Some(Right)
    case "d" => Some(Right)
    case _ => None
  }

  /**
    `handleKeydown`: a direction key takes effect at once unless it asks for
    the exact reverse of the current direction; Enter starts a game when none
    is running. (The source also tests `speed !== null` there, which always
    holds since `speed` is always a number.)
   */
  function HandleKeydown(s: State, key: string, draws: seq<Cell>): (r: State)
    ensures KeyDirection(key).Some? ==>
      var d := KeyDirection(key).value;
      && r == s.(direction := r.direction)
      && r.direction != Opposite(s.direction)
      && (r.direction == d <==> d != Opposite(s.direction))
    ensures key == "Enter" && s.gameStarted ==> r == s
    ensures KeyDirection(key).Some? && KeyDirection(key).value == Opposite(s.direction) ==> r == s
    ensures key == "Enter" && !s.gameStarted ==> r == StartGame(s, draws)
    ensures KeyDirection(key).None? && key != "Enter" ==> r == s
  {
    match KeyDirection(key)
    case Some(d) =>
      OppositeIsInvolution(d);
      if s.direction != Opposite(d) then s.(direction := d) else s
    case None =>
      if key == "Enter" && !s.gameStarted then StartGame(s, draws) else s
  }

  /** What can happen to the game: a key press, the game-loop timer firing,
      or a difficulty chosen in the settings. */
  datatype Event = KeyDown(key: string) | TimerFired | ChooseMode(mode: string)

  /**
    One event. The timer exists exactly while a game runs (`startGame` sets
    it up together with `gameStarted`, `endGame` clears it together with
    `gameStarted`), so a firing when no game runs changes nothing.
   */
  function Step(b: Board, s: State, e: Event, draws: seq<Cell>): (r: State)
    requires s.gameStarted ==> |s.snake| > 0
    ensures e.TimerFired? && !s.gameStarted ==> r == s
    ensures e.ChooseMode? ==> r.snake == s.snake && r.food == s.food && r.score == s.score
  {
    match e
    case KeyDown(key) => HandleKeydown(s, key, draws)
    case TimerFired => if s.gameStarted then Tick(b, s, draws) else s
    case ChooseMode(mode) => SetGameMode(s, mode)
  }
}
