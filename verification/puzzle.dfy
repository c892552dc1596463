/**
 The 4x4 sliding puzzle of game2.js. The board is a sequence of 16 cells
 holding the tile numbers 0..15, where 0 is the empty cell. The page reacts
 to two kinds of events: a click on a non-empty cell (which tries to slide
 that tile into the empty cell) and a click on the shuffle button.
 */
module Puzzle {
  import opened Board

  const Size: nat := 4
  const TotalTiles: nat := Size * Size

  /** The text the page shows once the board is solved. */
  const WinMessage: string := "\U{1F389} Congratulations! You've solved the puzzle! \U{1F389}"

  /** What the page holds: the cells and the text of the message element. */
  datatype Puzzle = Puzzle(tiles: seq<int>, message: string)

  // ---------------------------------------------------------------------------
  // initTiles
  // ---------------------------------------------------------------------------

  /** Builds the board by pushing 0, 1, ..., 15 onto an empty array. */
  method InitTiles() returns (tiles: seq<int>)
    ensures |tiles| == TotalTiles
    ensures forall i :: 0 <= i < TotalTiles ==> tiles[i] == i
    ensures tiles == Identity(TotalTiles)
  {
    tiles := [];
    var i := 0;
    while i < TotalTiles
      invariant 0 <= i <= TotalTiles
      invariant |tiles| == i
      invariant forall k :: 0 <= k < i ==> tiles[k] == k
    {
      tiles := tiles + [i];
      i := i + 1;
    }
  }

  // ---------------------------------------------------------------------------
  // shuffleTiles
  // ---------------------------------------------------------------------------

  /** The random draws of one shuffle: at step `i` the loop swaps cell `i`
      with cell `choices[i]`, where `Math.floor(Math.random() * (i + 1))`
      lies in 0..i. Entry 0 is never used and is fixed to 0. */
  predicate ValidChoices(choices: seq<nat>, n: nat) {
    |choices| == n && forall k :: 0 <= k < n ==> choices[k] <= k
  }

  /** Fisher–Yates on the prefix `t[..n]`: swap cell n-1 with its drawn
      partner, then shuffle the prefix of length n-1. */
  function FisherYates(t: seq<int>, choices: seq<nat>, n: nat): (r: seq<int>)
    requires n <= |t| && ValidChoices(choices, |t|)
    ensures |r| == |t|
    ensures multiset(r) == multiset(t)
    ensures r[n..] == t[n..]
    decreases n
  {
    if n <= 1 then t
    else FisherYates(Swap(t, n - 1, choices[n - 1]), choices, n - 1)
  }

  /** `shuffleTiles` on a whole board. */
  function Shuffle(t: seq<int>, choices: seq<nat>): seq<int>
    requires ValidChoices(choices, |t|)
  {
    FisherYates(t, choices, |t|)
  }

  /** The loop of `shuffleTiles`: `i` runs from `tiles.length - 1` down to 1
      and each step swaps cell `i` with cell `choices[i]`. */
  method ShuffleTiles(tiles: seq<int>, choices: seq<nat>) returns (r: seq<int>)
    requires ValidChoices(choices, |tiles|)
    ensures |r| == |tiles|
    ensures multiset(r) == multiset(tiles)
    ensures r == Shuffle(tiles, choices)
  {
    r := tiles;
    var i: int := |tiles| - 1;
    while i > 0
      invariant -1 <= i < |tiles|
      invariant |tiles| > 0 ==> 0 <= i
      invariant |r| == |tiles|
      invariant multiset(r) == multiset(tiles)
      invariant FisherYates(r, choices, i + 1) == Shuffle(tiles, choices)
    {
      r := Swap(r, i, choices[i]);
      i := i - 1;
    }
  }

  /** The shuffle reads only the draws of the steps it performs. */
  lemma {:induction false} FisherYatesReadsPrefix(t: seq<int>, c: seq<nat>, d: seq<nat>, n: nat)
    requires n <= |t| && ValidChoices(c, |t|) && ValidChoices(d, |t|)
    requires c[..n] == d[..n]
    ensures FisherYates(t, c, n) == FisherYates(t, d, n)
    decreases n
  {
    if n > 1 {
      assert c[n - 1] == c[..n][n - 1] == d[..n][n - 1] == d[n - 1];
      assert c[..n - 1] == c[..n][..n - 1];
      assert d[..n - 1] == d[..n][..n - 1];
      FisherYatesReadsPrefix(Swap(t, n - 1, c[n - 1]), c, d, n - 1);
    }
  }

  /** When nothing is left to shuffle the board already is the target. */
  lemma {:induction false} FisherYatesReachesBase(t: seq<int>, target: seq<int>, n: nat)
    requires |t| == |target| && n <= 1 && n <= |t|
    requires t[n..] == target[n..]
    requires multiset(t[..n]) == multiset(target[..n])
    ensures ValidChoices(seq(|t|, k => 0), |t|)
    ensures FisherYates(t, seq(|t|, k => 0), n) == target
  {
    if n == 1 {
      assert t[..1] == [t[0]] && target[..1] == [target[0]];
      assert t[0] in multiset(target[..1]);
    }
    assert t == t[..n] + t[n..] && target == target[..n] + target[n..];
  }

  /** Swapping the target's last prefix value into place at n-1 leaves a
      shorter prefix that is still a rearrangement of the target's. */
  lemma {:induction false} FisherYatesReachesStep(t: seq<int>, target: seq<int>, n: nat, j: nat)
    requires |t| == |target| && 1 < n <= |t| && j < n
    requires t[n..] == target[n..]
    requires multiset(t[..n]) == multiset(target[..n])
    requires t[j] == target[n - 1]
    ensures Swap(t, n - 1, j)[n - 1..] == target[n - 1..]
    ensures multiset(Swap(t, n - 1, j)[..n - 1]) == multiset(target[..n - 1])
  {
    var v := target[n - 1];
    var t' := Swap(t, n - 1, j);
    assert target[..n] == target[..n - 1] + [v];
    assert t'[..n] == Swap(t[..n], n - 1, j);
    assert t'[..n] == t'[..n - 1] + [v];
    calc {
      multiset(t'[..n - 1]) + multiset{v};
      multiset(t'[..n]);
      multiset(t[..n]);
      multiset(target[..n]);
      multiset(target[..n - 1]) + multiset{v};
    }
    assert multiset(t'[..n - 1]) == multiset(t'[..n - 1]) + multiset{v} - multiset{v};
    assert multiset(target[..n - 1]) == multiset(target[..n - 1]) + multiset{v} - multiset{v};
    assert t'[n - 1..] == [v] + t'[n..];
    assert target[n - 1..] == [v] + target[n..];
  }

  /** Draws that shuffle the prefix `t[..n]` into `target[..n]`: at each step
      pick the first cell of the prefix that holds the target's value there. */
  function Draws(t: seq<int>, target: seq<int>, n: nat): (c: seq<nat>)
    requires |t| == |target| && n <= |t|
    requires t[n..] == target[n..]
    requires multiset(t[..n]) == multiset(target[..n])
    ensures ValidChoices(c, |t|)
    decreases n
  {
    if n <= 1 then seq(|t|, k => 0)
    else
      assert target[..n] == target[..n - 1] + [target[n - 1]];
      assert target[n - 1] in multiset(t[..n]);
      var j := IndexOf(t[..n], target[n - 1]);
      FisherYatesReachesStep(t, target, n, j);
      Draws(Swap(t, n - 1, j), target, n - 1)[n - 1 := j]
  }

  /** Every rearrangement of the prefix `t[..n]` is produced by some draws. */
  lemma {:induction false} FisherYatesReaches(t: seq<int>, target: seq<int>, n: nat)
    requires |t| == |target| && n <= |t|
    requires t[n..] == target[n..]
    requires multiset(t[..n]) == multiset(target[..n])
    ensures FisherYates(t, Draws(t, target, n), n) == target
    decreases n
  {
    if n <= 1 {
      FisherYatesReachesBase(t, target, n);
    } else {
      assert target[..n] == target[..n - 1] + [target[n - 1]];
      assert target[n - 1] in multiset(t[..n]);
      var j := IndexOf(t[..n], target[n - 1]);
      var t' := Swap(t, n - 1, j);
      FisherYatesReachesStep(t, target, n, j);
      var c' := Draws(t', target, n - 1);
      FisherYatesReaches(t', target, n - 1);
      var c := Draws(t, target, n);
      assert c == c'[n - 1 := j];
      assert c[..n - 1] == c'[..n - 1];
      FisherYatesReadsPrefix(t', c, c', n - 1);
    }
  }

  /** The shuffle keeps the tiles, and every arrangement of them is reachable:
      the draws `choices` range over exactly the rearrangements of the board. */
  lemma ShuffleIsExactlyRearrangement(t: seq<int>, target: seq<int>)
    ensures forall c :: ValidChoices(c, |t|) ==> multiset(Shuffle(t, c)) == multiset(t)
    ensures multiset(target) == multiset(t) <==>
      exists c :: ValidChoices(c, |t|) && Shuffle(t, c) == target
  {
    if multiset(target) == multiset(t) {
      assert |target| == |multiset(target)| == |multiset(t)| == |t|;
      assert t[..|t|] == t && target[..|t|] == target;
      FisherYatesReaches(t, target, |t|);
      var c := Draws(t, target, |t|);
      assert ValidChoices(c, |t|) && Shuffle(t, c) == target;
    }
  }

  // ---------------------------------------------------------------------------
  // checkWin
  // ---------------------------------------------------------------------------

  /** `checkWin`'s comparison: the cells joined by commas equal "0,1,...,15".
      Decimal integers contain no comma, so this is equality of the boards. */
  predicate IsSolved(tiles: seq<int>) {
    tiles == Identity(TotalTiles)
  }

  /** Shows the win message on a solved board, and otherwise leaves the
      message element as it is (it is never cleared here). */
  function CheckWin(p: Puzzle): (q: Puzzle)
    ensures q.tiles == p.tiles
    ensures IsSolved(p.tiles) ==> q.message == WinMessage
    ensures q.message != p.message ==> IsSolved(p.tiles)
  {
    if IsSolved(p.tiles) then p.(message := WinMessage) else p
  }

  /** A solved board has its empty cell first and every tile on its index;
      an initialised board is solved. */
  lemma SolvedBoards(tiles: seq<int>)
    ensures IsSolved(tiles) <==> |tiles| == TotalTiles && forall i :: 0 <= i < TotalTiles ==> tiles[i] == i
    ensures IsSolved(tiles) ==> IndexOf(tiles, 0) == 0
    ensures IsSolved(Identity(TotalTiles))
  {
  }

  /** The empty cell being first does not make a board solved. */
  lemma EmptyFirstIsNotEnough()
    ensures var b := Swap(Identity(TotalTiles), 1, 2);
      IndexOf(b, 0) == 0 && IsPermutationOfRange(b, TotalTiles) && !IsSolved(b)
  {
  }

  // ---------------------------------------------------------------------------
  // moveTile and the cell click handler
  // ---------------------------------------------------------------------------

  /** `validMoves.includes(index)`: index is one step left, right, up or down
      from the empty cell in linear order, with no check that a left/right
      step stays in the same row. */
  predicate ValidMove(emptyIndex: int, index: int) {
    index == emptyIndex - 1 || index == emptyIndex + 1
    || index == emptyIndex - Size || index == emptyIndex + Size
  }

  /** Slides the clicked tile into the empty cell when it is a valid move,
      then checks for a win; otherwise nothing happens. */
  function MoveTile(p: Puzzle, index: int): (q: Puzzle)
    requires 0 <= index < |p.tiles| && 0 in p.tiles
    ensures |q.tiles| == |p.tiles|
    ensures multiset(q.tiles) == multiset(p.tiles)
    ensures var e := IndexOf(p.tiles, 0);
      if ValidMove(e, index) then
        && q.tiles[index] == 0
        && q.tiles[e] == p.tiles[index]
        && (forall k :: 0 <= k < |p.tiles| && k != index && k != e ==> q.tiles[k] == p.tiles[k])
        && (IsSolved(q.tiles) ==> q.message == WinMessage)
        && (!IsSolved(q.tiles) ==> q.message == p.message)
      else q == p
  {
    var emptyIndex := IndexOf(p.tiles, 0);
    if ValidMove(emptyIndex, index) then
      CheckWin(Puzzle(Swap(p.tiles, index, emptyIndex), p.message))
    else p
  }

  /** `drawPuzzle` attaches the click handler to non-empty cells only, so a
      click on the empty cell does nothing. */
  function ClickCell(p: Puzzle, index: int): (q: Puzzle)
    requires 0 <= index < |p.tiles| && 0 in p.tiles
    ensures |q.tiles| == |p.tiles|
    ensures p.tiles[index] == 0 ==> q == p
    ensures q.tiles != p.tiles ==> ValidMove(IndexOf(p.tiles, 0), index) && q.tiles[index] == 0
    ensures IsPermutationOfRange(p.tiles, TotalTiles) ==> IsPermutationOfRange(q.tiles, TotalTiles)
  {
    if p.tiles[index] != 0 then MoveTile(p, index) else p
  }

  /** On a board with a single empty cell, skipping the empty cell's handler
      changes nothing: the empty cell is never a valid move from itself. */
  lemma ClickIsMove(p: Puzzle, index: int)
    requires IsPermutationOfRange(p.tiles, TotalTiles) && 0 <= index < TotalTiles
    ensures 0 in p.tiles
    ensures ClickCell(p, index) == MoveTile(p, index)
  {
    PermutationFacts(p.tiles, TotalTiles);
  }

  /** A slide accepted across a row edge: with the empty cell at index 4 (the
      start of row 1), the last tile of row 0 (index 3) moves into it. */
  lemma RowEdgeMoveAccepted()
    ensures var b := Swap(Identity(TotalTiles), 0, 4);
      && IndexOf(b, 0) == 4
      && 3 / Size != 4 / Size
      && ClickCell(Puzzle(b, ""), 3).tiles == Swap(b, 3, 4)
  {
  }

  // ---------------------------------------------------------------------------
  // Page events
  // ---------------------------------------------------------------------------

  /** The board on page load: `initTiles()` then `drawPuzzle()`, with the
      message element as the page delivered it. */
  function Load(message: string): (p: Puzzle)
    ensures IsSolved(p.tiles) && p.message == message
  {
    Puzzle(Identity(TotalTiles), message)
  }

  datatype Event =
    | CellClicked(index: int)            // a click on cell `index`
    | ShufflePressed(choices: seq<nat>)  // the shuffle button, with its draws

  /** An event the page can deliver: cells 0..15 exist, and the draws are
      those of a 16-cell shuffle. */
  predicate ValidEvent(e: Event) {
    match e
    case CellClicked(index) => 0 <= index < TotalTiles
    case ShufflePressed(choices) => ValidChoices(choices, TotalTiles)
  }

  /** The page's reaction to one event on a board of 16 cells. */
  function Step(p: Puzzle, e: Event): (q: Puzzle)
    requires ValidEvent(e) && IsPermutationOfRange(p.tiles, TotalTiles)
    ensures IsPermutationOfRange(q.tiles, TotalTiles)
    ensures e.ShufflePressed? ==> q.message == ""
  {
    match e
    case CellClicked(index) =>
      PermutationFacts(p.tiles, TotalTiles);
      ClickCell(p, index)
    case ShufflePressed(choices) =>
      Puzzle(Shuffle(Identity(TotalTiles), choices), "")
  }

  /** The shuffle button handler: `initTiles()`, `shuffleTiles()`,
      `drawPuzzle()`, then the message is cleared. */
  method ShuffleButton(p: Puzzle, choices: seq<nat>) returns (q: Puzzle)
    requires ValidChoices(choices, TotalTiles)
    ensures q.message == ""
    ensures IsPermutationOfRange(q.tiles, TotalTiles)
    ensures IsPermutationOfRange(p.tiles, TotalTiles) ==> q == Step(p, ShufflePressed(choices))
  {
    var tiles := InitTiles();
    tiles := ShuffleTiles(tiles, choices);
    q := Puzzle(tiles, "");
  }

  /** The page after a sequence of events. */
  function Run(p: Puzzle, events: seq<Event>): Puzzle
    requires IsPermutationOfRange(p.tiles, TotalTiles)
    requires forall k :: 0 <= k < |events| ==> ValidEvent(events[k])
    decreases |events|
  {
    if |events| == 0 then p
    else Run(Step(p, events[0]), events[1..])
  }

  /** Every board the page can reach is a permutation of 0..15 with exactly
      one empty cell, and the win message is only ever shown after a move. */
  lemma {:induction false} ReachableBoards(message: string, events: seq<Event>)
    requires forall k :: 0 <= k < |events| ==> ValidEvent(events[k])
    ensures var q := Run(Load(message), events);
      && IsPermutationOfRange(q.tiles, TotalTiles)
      && multiset(q.tiles)[0] == 1
      && (q.message == message || q.message == "" || q.message == WinMessage)
      && (q.message == WinMessage && message != WinMessage ==> exists k :: 0 <= k < |events| && events[k].CellClicked?)
  {
    ReachableFrom(Load(message), events);
    PermutationFacts(Run(Load(message), events).tiles, TotalTiles);
  }

  lemma {:induction false} ReachableFrom(p: Puzzle, events: seq<Event>)
    requires IsPermutationOfRange(p.tiles, TotalTiles)
    requires forall k :: 0 <= k < |events| ==> ValidEvent(events[k])
    ensures var q := Run(p, events);
      && IsPermutationOfRange(q.tiles, TotalTiles)
      && (q.message == p.message || q.message == "" || q.message == WinMessage)
      && (q.message != p.message && q.message != "" ==> exists k :: 0 <= k < |events| && events[k].CellClicked?)
    decreases |events|
  {
    if |events| > 0 {
      var p' := Step(p, events[0]);
      ReachableFrom(p', events[1..]);
      var q := Run(p, events);
      if q.message != p.message && q.message != "" {
        if events[0].CellClicked? {
          assert 0 <= 0 < |events| && events[0].CellClicked?;
        } else if q.message != p'.message {
          var k :| 0 <= k < |events[1..]| && events[1..][k].CellClicked?;
          assert events[k + 1].CellClicked?;
        }
      }
    }
  }
}
