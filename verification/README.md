# Snake game rules in Dafny

This project models the game-state rules of a browser Snake game (`script.js`). The model is a pure state machine.

The state holds the script's module-level variables:
- the snake body, a sequence of dots with the head first;
- the food list, in the order the dots were added;
- the score and the direction;
- the `gameStarted` flag;
- the difficulty values `speed` and `foodLimit`.

Each handler is a transition function:
- `SetGameMode` models `setGameMode`;
- `StartGame` models `startGame`;
- `Tick` models `updateSnake`, one tick;
- `EndGame` models `endGame`;
- `HandleKeydown` models `handleKeydown`.

`Step` and `Run` feed these transitions a stream of events: key presses, timer firings and mode choices.

Positions stay in pixels, as in the source. Every coordinate is a multiple of the 20-pixel dot size. The board is the pixel width and height of the game-board element. The wall test compares pixels, exactly as the source does.

Modules:
- `Grid` (grid.dfy): dots, directions, moves, the board and the wall test.
- `Food` (food.dfy): `findIndex`, `splice` and the refill loop of `generateFood`.
- `Game` (game.dfy): the state and the handlers.
- `Invariants` (invariants.dfy): the invariants every reachable state keeps.
- `Scenarios` (scenarios.dfy): concrete plays.

The model follows the script as written, including where a conventional snake game behaves differently:
- A direction key takes effect at once. There is no pending direction committed at the next tick. So pressing "ArrowUp" then "ArrowLeft" between two ticks turns a right-moving snake straight round (`Scenarios.TwoPressesTurnRound`).
- The self-collision test covers the whole body, tail included, before the tail is dropped. Moving into the dot the tail occupies ends the game (`Scenarios.MovingIntoTailEndsGame`).
- There is no separate game-over status. Ending the game only clears `gameStarted`; the snake, food and score stay as they were.
- The food refill stops as soon as the count reaches `foodLimit`. After a start or a move, the food holds exactly the limit unless the candidates ran out. The one exception is food already above the limit, which is kept as it is.

## Model

| member | source | states |
|---|---|---|
| Grid.Opposite | script.js:162-165 | The blocked direction for each key is a different direction on the same axis: Up and Down block each other, as do Left and Right |
| Grid.Move | script.js:76-83 | A move never stays in place and changes exactly one coordinate. `Grid.MoveIsOneDot` states the size and sign of each direction's step |
| Grid.InBounds | script.js:86-87 | The negated wall test of the tick holds exactly when 0 <= left < width and 0 <= top < height |
| Grid.MoveIsOneDot | script.js:76-83 | A tick moves the head exactly one dot (20 px) along one axis. Up and Down change only `top`, with Up decreasing it. Left and Right change only `left`, with Left decreasing it; exactly the horizontal moves keep `top`. Grid alignment is kept |
| Grid.MoveOppositeReturns | script.js:76-83 | A move in the opposite direction undoes a move, and no move stays in place |
| Food.IndexOf | script.js:98-100 | `findIndex` gives -1 exactly when the dot is not in the food list. Otherwise it gives the index of its first occurrence |
| Food.RemoveAt | script.js:106 | `splice(i, 1)` keeps the elements before `i`, shifts those after it down by one, and shortens the list by one. `Food.RemoveAtDistinct` states which dots remain |
| Food.RemoveAtDistinct | script.js:105-106 | Splicing out the found index removes exactly that dot from a repeat-free food list, and the list stays repeat-free |
| Food.GenerateFood | script.js:62-73 | Existing food is kept as a prefix. Every added dot was a candidate, is not on the snake, and is not already food. Nothing is added once the count reaches the limit. If the result is below the limit, every candidate was rejected as occupied |
| Food.GenerateFoodKeepsFoodValid | script.js:63-71 | When candidates are board dots, a refill keeps the food repeat-free, off the snake and on board dots |
| Game.SetGameMode | script.js:19-33 | Easy gives speed 200 and limit 7, Medium gives 120 and 5, Hard gives 60 and 4. Any other mode changes nothing. No field besides speed and limit ever changes |
| Game.StartGame | script.js:131-145 | A no-op while a game runs. Otherwise the game is started with snake [(0,0)], heading Right, and score 0, with speed and limit kept. The food is rebuilt from empty: every item is a candidate and avoids the origin, and the food either reaches the limit or every candidate was occupied. The refill never goes past the limit |
| Game.Tick | script.js:75-125 | On a wall or body hit (tail included), the game ends with snake, food and score unchanged. Otherwise the new head is one move from the old head and on the board. Eating keeps the whole old body and adds one to the score. Not eating drops the tail and keeps the score. The food left after removing the eaten dot (first occurrence) is kept as a prefix. Every added dot is a candidate off the new snake, and the food either reaches the limit or every candidate was occupied. If the kept food already meets the limit, nothing is added; otherwise the food ends at most at the limit. Direction, speed and limit never change |
| Game.EndGame | script.js:151-153 | Only `gameStarted` changes, to false. Snake, food, score, direction, speed and limit are all kept. `Invariants.EndGameKeepsPlaying` states that the game invariants survive |
| Game.KeyDirection | script.js:161-165 | "ArrowUp" and "w" ask for Up, "ArrowDown" and "s" for Down, "ArrowLeft" and "a" for Left, and "ArrowRight" and "d" for Right. No other key asks for any direction |
| Game.HandleKeydown | script.js:160-168 | A direction key changes only the direction, never to the reverse of the current one. The requested direction is taken exactly when it is not that reverse, and a refused reversal leaves the whole state unchanged. Enter runs `StartGame` exactly when no game runs, and otherwise changes nothing. Any other key changes nothing |
| Game.Step | script.js:147-153 | A timer firing changes nothing when no game runs, because the interval exists only while `gameStarted`. A mode choice never touches snake, food or score |
| Invariants.InitialIsValid | script.js:8-15 | The script's initial values satisfy the invariant: no snake, no food, score 0, not started |
| Invariants.ValidStartedHasSnake | script.js:131-138 | In every valid started state the snake has score + 1 segments and its head is on the board |
| Invariants.StartGameEstablishesPlaying | script.js:131-145 | Starting on a non-empty board yields a state where length = score + 1, the snake is on the board without repeats, and the food is repeat-free and off the snake |
| Invariants.EndGameKeepsPlaying | script.js:151-153 | Ending the game only clears `gameStarted`, so the game invariants still hold |
| Invariants.TickKeepsPlaying | script.js:75-124 | A tick keeps every game invariant: no repeated dot, on the board, length = score + 1, food free and repeat-free. After a move, the new head is not on any food |
| Invariants.MovedKeepsPlaying | script.js:96-110 | After a move, putting the head in front of the whole body (eating) or the body minus its tail, and dropping the eaten dot from the food, keeps every invariant once the food is refilled. No food lies under the new head |
| Invariants.TickGrowsIffEats | script.js:102-109 | After a move, the length grows by one exactly when the new head was on food, and stays the same exactly when it was not. The score changes by the same amount as the length |
| Invariants.HandleKeydownKeepsValid | script.js:160-167 | Key presses keep the invariant, including Enter starting a game |
| Invariants.StepKeepsValid | script.js:127-129 | Every event keeps the invariant, and a started valid state always has a head for the timer to read |
| Invariants.Run | script.js:160-170 | Any event sequence from a valid state ends in a valid state |
| Invariants.ReachableGameIsSound | script.js:86-108 | From the initial values, after any events, a started game's snake has no repeated dot, its head is on the board, its length is the score plus one, and no food lies on it |
| Scenarios.MovingIntoTailEndsGame | script.js:92-108 | When the new head would land on the current tail, the tick ends the game with snake and score unchanged |
| Scenarios.SquareSnakeBitesTail | script.js:92-94 | A four-dot snake curled in a square and heading into its tail ends the game with its score |
| Scenarios.TwoPressesTurnRound | script.js:162-165 | Two presses between ticks set the reverse direction, and the next tick then ends the game |
| Scenarios.EatingKeepsTail | script.js:96-110 | A three-dot snake moving onto food becomes four dots with the tail kept, score + 1, and the food eaten |
| Scenarios.TopWallEndsGame | script.js:86-89 | Heading Up on the top row ends the game with the score unchanged |
| Scenarios.ThreeTicksRight | script.js:76-110 | From a fresh start with no food, three ticks Right leave a one-dot snake at (0, 60) px with score 0 |

## Left out

- Rendering is not modelled: `createDot`, `getRandomImage`, the image names, element ids and DOM removals, the score, message and settings text, and `alert`. These are presentation only.
- Timers are not modelled: `setInterval` and `clearInterval`. `speed` is only stored. `Step` instead lets the timer fire only while `gameStarted` holds, since the interval exists exactly then.
- Randomness is not modelled: the random coordinates in `generateFood` are the caller-supplied candidate sequence `draws`.
- Food.GenerateFood: when the candidates run out before the count reaches `foodLimit`, the model returns the partial list. The source keeps sampling, forever if fewer free dots remain than needed. So the contract promises the limit or every candidate rejected, not the limit itself.
- The keyboard listener registration is not modelled; its key is a parameter of `HandleKeydown`.
- The `speed !== null` test on Enter is dropped: `speed` always holds a number, so the test always passes.
- `parseInt(f.style.top)` and `parseInt(f.style.left)` are modelled as the food dot's own coordinates. They round-trip the integer pixel values written by `createDot`.
- The board size is a fixed parameter. The source re-reads `offsetWidth`/`offsetHeight` on each tick, so resizing the page mid-game is not modelled.
- JavaScript numbers are doubles. All coordinates here are small integers, which doubles represent exactly, so the model uses unbounded integers.
- The invariant lemmas need a board at least one pixel wide and high. On a board zero pixels wide or high, the start dot (0, 0) fails the wall test, so the invariant cannot hold after a start. There the first tick ends the game.
- Step accepts a mode choice at any time, while the page shows the difficulty settings only between games. `startGame` hides them and `endGame` shows them again. So the model over-approximates: a mode choice during a running game, which could leave more food than a smaller new limit, is allowed here but probably not reachable from the page.
