# Space orrery minigames: rules of the sliding puzzle and the shooter

This project models the game logic of the two browser minigames in the
space-orrery repository and proves properties of it in Dafny.

- **Sliding puzzle** (`game2.js`). The board is a sequence of 16 integers,
  with 0 as the empty cell. `initTiles` builds the identity board,
  `shuffleTiles` is a Fisher–Yates shuffle, and `moveTile` slides a clicked
  tile into the empty cell when the two are "adjacent". Adjacency is linear
  index ±1 or ±4. `checkWin` shows a message on the identity board. Only
  non-empty cells have a click handler. The shuffle button re-initialises,
  shuffles and clears the message.
- **Shooter** (`game1.js`). Aliens and bullets are their bounding boxes
  (`Rect`). `isColliding` is the closed-box overlap test. `checkCollision`
  removes every alien the bullet touches and scores one point for each.
  The score, high score, countdown, game-over flag and shot cooldown flag form
  a state machine driven by events. The events are a click, the cooldown
  ending, a countdown tick, a bullet moving, an alien spawning, an alien
  moving and an alien leaving at the bottom.

Files and modules:

- `board.dfy`, module `Board`. The identity board, the swap used by moves and
  by the shuffle, JavaScript's `indexOf`, and the invariant "the board is a
  permutation of 0..n-1".
- `puzzle.dfy`, module `Puzzle`. The puzzle's operations and page events.
- `collision.dfy`, module `Collision`. Rectangles and the overlap test.
- `shooter.dfy`, module `Shooter`. The shooter's rules and events.

Randomness and time are inputs:

- The shuffle's `Math.random()` draws are a caller-supplied sequence
  `choices`, where `choices[i]` lies in 0..i.
- An alien's random spawn position is part of the `Rect` carried by its
  spawn event.
- `setInterval` and `setTimeout` firings are explicit events.
- The high score read from `localStorage` is a parameter of `Shooter.Start`.

## Model

| member | source | states |
|---|---|---|
| `Board.Swap` | game2.js:58 | The destructuring swap exchanges the two cells, leaves every other cell alone, and keeps the multiset of tiles |
| `Board.IndexOf` | game2.js:63 | `indexOf` gives the first position holding the value, or -1 exactly when the value is absent |
| `Board.PermutationFacts` | game2.js:28-33 | A board that rearranges the identity board has every cell in 0..n-1, no value twice, and exactly one empty cell |
| `Puzzle.InitTiles` | game2.js:28-33 | The push loop yields 16 cells with `tiles[i] == i` |
| `Puzzle.FisherYates` | game2.js:55-60 | Shuffling a prefix keeps the length and the multiset of tiles, and leaves the cells past the prefix untouched |
| `Puzzle.ShuffleTiles` | game2.js:55-60 | The loop from `length-1` down to 1, swapping cell i with a drawn `j` in 0..i, keeps the length and multiset and computes `Shuffle` |
| `Puzzle.FisherYatesReaches` | game2.js:55-60 | Any rearrangement of a prefix is produced by the draws `Draws` computes |
| `Puzzle.ShuffleIsExactlyRearrangement` | game2.js:55-60 | A board is a possible shuffle result exactly when it has the same multiset of tiles as the input |
| `Puzzle.CheckWin` | game2.js:73-77 | A solved board shows the win message, and the message changes only on a solved board; the tiles never change |
| `Puzzle.SolvedBoards` | game2.js:73-77 | Solved means `tiles[i] == i` for all 16 cells; a solved board has its empty cell at 0; the initialised board is solved |
| `Puzzle.EmptyFirstIsNotEnough` | game2.js:74 | A permutation board with its empty cell at 0 can still be unsolved |
| `Puzzle.MoveTile` | game2.js:62-71 | On a valid move the clicked cell becomes empty, the old empty cell gets the tile, all other cells stay, and the win message is shown if the board is now solved; otherwise nothing changes. The multiset of tiles is kept |
| `Puzzle.ClickCell` | game2.js:41-46 | Clicking the empty cell does nothing; any change is a valid move that empties the clicked cell; permutation boards stay permutation boards |
| `Puzzle.ClickIsMove` | game2.js:62-66 | On a permutation board, skipping the empty cell's handler agrees with calling `moveTile` on it |
| `Puzzle.RowEdgeMoveAccepted` | game2.js:64-66 | A move from the end of row 0 (index 3) into an empty cell at the start of row 1 (index 4) is accepted |
| `Puzzle.Load` | game2.js:86-88 | The page opens on the solved identity board, with the message unchanged |
| `Puzzle.Step` | game2.js:79-84 | Each page event keeps the board a permutation of 0..15; the shuffle button clears the message |
| `Puzzle.ShuffleButton` | game2.js:79-84 | Init, then shuffle, then clear the message gives a permutation of 0..15 with an empty message, as `Step` says |
| `Puzzle.ReachableBoards` | game2.js:79-88 | Every reachable board is a permutation of 0..15 with exactly one empty cell; the message is the initial one, empty, or the win message, and a newly shown win message needs a cell click |
| `Collision.CollidingIffCommonPoint` | game1.js:151-158 | Two well-formed boxes collide exactly when some point lies in both closed boxes |
| `Collision.CollidingIsSymmetric` | game1.js:152-157 | The overlap test does not depend on argument order |
| `Collision.TouchingBoxesCollideVertically` | game1.js:153-154 | Boxes stacked one above the other with horizontal overlap collide when one's bottom edge meets the other's top edge, and do not collide with a one-unit gap |
| `Collision.TouchingBoxesCollideHorizontally` | game1.js:155-156 | Boxes side by side with vertical overlap collide when one's right edge meets the other's left edge, and do not collide with a one-unit gap |
| `Shooter.Start` | game1.js:7-16 | A game starts with score 0, 60 seconds, running, able to shoot, no aliens, and the stored high score or 0 |
| `Shooter.UpdateHighScore` | game1.js:172-178 | The high score becomes the maximum of itself and the score; nothing else changes |
| `Shooter.IncrementScore` | game1.js:166-170 | The score goes up by exactly one and the high score ends up at least the new score, never lower than before |
| `Shooter.Survivors` | game1.js:140-148 | The aliens left are a subsequence of the list in page order; every copy of a box the bullet misses stays and every copy of a box it touches goes; fewer remain exactly when some alien collides |
| `Shooter.SurvivorsCons` | game1.js:140-148 | The survivors of a list follow from those of its tail: the head is dropped when the bullet touches it and kept in front otherwise |
| `Shooter.HitAliens` | game1.js:137-149 | The per-alien loop keeps the survivors and raises the score by the number of aliens hit, with the high score raised to the max of the old high score and the new score when some alien is hit, and unchanged otherwise |
| `Shooter.CheckCollision` | game1.js:137-149 | Every touched alien is removed and every untouched one stays, counted with multiplicity and in page order; the score rises by the number removed; the bullet is spent exactly when it touched one |
| `Shooter.OneHitAmongEqualMisses` | game1.js:140-147 | A bullet touching one alien and missing two identical aliens scores exactly one point and leaves both missed aliens |
| `Shooter.EndGame` | game1.js:193-207 | Ending the game sets `gameOver` and removes all aliens, keeping the score and high score |
| `Shooter.ResetGame` | game1.js:226-232 | Restarting sets score 0, 60 seconds and running, leaving the high score alone |
| `Shooter.Tick` | game1.js:183-189 | A tick of a running game takes one second off and ends the game exactly when the count reaches 0 or below; a tick that does not end the game changes nothing else; finished games do not tick |
| `Shooter.Click` | game1.js:34-49 | A click on a finished game restarts it; otherwise a shot happens exactly when on target and allowed, and then blocks further shots |
| `Shooter.Cooldown` | game1.js:41-43 | The cooldown callback re-enables shooting and changes nothing else |
| `Shooter.SpawnAlien` | game1.js:104-115 | A running game gains the new alien at the end of the list; a finished game is unchanged |
| `Shooter.MoveAlien` | game1.js:119-123 | A movement step replaces the box of the alien at that position and nothing else; a step of an alien no longer on screen changes nothing |
| `Shooter.AlienLeaves` | game1.js:124-133 | An alien reaching the bottom is removed without scoring: the aliens before it keep their positions and those after it move down by one; an alien no longer on screen changes nothing |
| `Shooter.Step` | game1.js:34-189 | Each event goes to its handler: only a click restarts a finished game, only the end of the cooldown re-enables shooting, only a bullet hit or a restart changes the score, and the high score never goes down |
| `Shooter.StepKeepsInv` | game1.js:166-232 | Each event keeps the game invariant and never lowers the high score |
| `Shooter.RunKeepsInv` | game1.js:166-232 | Any sequence of events keeps the invariant and never lowers the high score |
| `Shooter.ReachableGames` | game1.js:7-16 | Every state reached from page load satisfies the invariant, with the high score at least the stored one |
| `Shooter.CountdownEndsGame` | game1.js:183-189 | A running game with n seconds left keeps running for n-1 ticks and ends on the n-th; ticks leave the score alone |
| `Shooter.FreshGameLastsSixtyTicks` | game1.js:181-191 | A game started from page load ends on exactly the 60th tick |
| `Shooter.NoPointsAfterGameOver` | game1.js:203-207 | On a finished game no bullet can score, since all aliens are gone |
| `Shooter.ShotWaitsForCooldown` | game1.js:38-44 | After a shot, no event except the cooldown's end lets the player shoot again |

The invariant `Shooter.Inv` has these parts:

- The score is never negative.
- Once positive, the score is at most the high score.
- The countdown stays in 0..60.
- The countdown reads 0 exactly when the game is over.
- A finished game has no aliens.

The second part allows score 0 above the high score because a stored high
score read back from storage may be negative.

`checkWin` compares `tiles.join(',')` with the join of 0..15. Decimal
integers contain no comma, so this comparison is modelled as equality of the
sequences (`Puzzle.IsSolved`).

Adjacency in `moveTile` is linear, as the code writes it. A slide across a row
edge is therefore legal, as `Puzzle.RowEdgeMoveAccepted` shows. The model does
not add a row check.

## Left out

- app.js: the orbital solver and the orbit sampler are floating-point trigonometry (`sin`, `cos`, `sqrt`, `atan2`), which Dafny's `real` lacks. The rest of app.js is THREE.js scene setup, tweening and picking.
- `drawPuzzle`, the image paths and all other DOM work. The only part kept is that the empty cell has no click handler (`Puzzle.ClickCell`).
- Puzzle.MoveTile: requires the board to contain 0. With no 0 on the board, `indexOf` returns -1 and the JavaScript swap would write to `tiles[-1]`. No reachable board lacks a 0 (`Puzzle.ReachableBoards`).
- `Math.random`: no distribution is modelled. The shuffle draws and spawn positions are inputs.
- `setInterval` and `setTimeout` scheduling: each timer firing is an event. The 300 ms shot cooldown and the 1.5 s spawn period are not modelled as times.
- `localStorage` reads and writes: the stored high score is an input (`Shooter.Start`), and writing it back is not modelled.
- The pixel arithmetic of alien movement is not modelled: the 4.5-pixel step and its truncation by `parseInt`. A movement step is an `AlienMoved` event carrying the new box. An alien reaching the bottom is an `AlienLeft` event.
- Box coordinates are integers, while `getBoundingClientRect` returns fractional values. Nothing is lost, because `isColliding` only compares coordinates.
- Bullet flight, the two bullets per shot and spaceship positioning are not modelled. A bullet is seen only through its bounding box in a `BulletAt` event. A shot is the flag returned by `Shooter.Click`.
- After a bullet hits, its interval is cleared and it is removed. The model does not track bullets, so it relies on the event stream sending no further `BulletAt` events for that bullet.
- Numbers are unbounded integers. JavaScript numbers are doubles, but scores and the countdown stay far below 2^53.
