/**
 The rules of the shooter game of game1.js, with the page, the timers and
 the storage taken out. What remains is a state machine over the score, the
 high score, the seconds left, the game-over flag, the shot cooldown flag and
 the bounding boxes of the aliens on screen, driven by the events the page
 delivers: a click, the end of the shot cooldown, a countdown tick, a bullet
 reaching a new position, a new alien appearing, an alien moving one step
 down, and an alien reaching the bottom edge.
 */
module Shooter {
  import opened Collision

  /** Seconds on the countdown at the start of every game. */
  const StartTime: int := 60

  /** A value that may be missing. */
  datatype Option<T> = None | Some(value: T)

  datatype Game = Game(
    score: int,
    highscore: int,
    timeLeft: int,
    gameOver: bool,
    canShoot: bool,
    aliens: seq<Rect>)

  function Max(a: int, b: int): (m: int)
    ensures m >= a && m >= b && (m == a || m == b)
  {
    if a < b then b else a
  }

  /** The state on page load. `stored` is the high score read back from local
      storage, parsed as an integer; None stands for a missing or unparsable
      entry, which `parseInt(...) || 0` turns into 0. */
  function Start(stored: Option<int>): (g: Game)
    ensures g.score == 0 && g.timeLeft == StartTime && !g.gameOver && g.canShoot && g.aliens == []
    ensures stored.Some? ==> g.highscore == stored.value
    ensures stored.None? ==> g.highscore == 0
  {
    Game(0, if stored.Some? then stored.value else 0, StartTime, false, true, [])
  }

  // ---------------------------------------------------------------------------
  // Score
  // ---------------------------------------------------------------------------

  /** `updateHighScore`: the high score becomes the larger of itself and the
      score, and nothing else changes. */
  function UpdateHighScore(g: Game): (h: Game)
    ensures h.highscore >= g.highscore && h.highscore >= g.score
    ensures h.highscore == g.highscore || h.highscore == g.score
    ensures h == g.(highscore := h.highscore)
  {
    if g.score > g.highscore then g.(highscore := g.score) else g
  }

  /** `incrementScore`: one more point, then the high score catches up. */
  function IncrementScore(g: Game): (h: Game)
    ensures h.score == g.score + 1
    ensures h.highscore >= h.score && h.highscore >= g.highscore
    ensures h.highscore == g.highscore || h.highscore == h.score
    ensures h == g.(score := h.score, highscore := h.highscore)
  {
    UpdateHighScore(g.(score := g.score + 1))
  }

  // ---------------------------------------------------------------------------
  // checkCollision
  // ---------------------------------------------------------------------------

  /** `s` is `t` with some entries dropped and the rest kept in order. */
  predicate SubsequenceOf(s: seq<Rect>, t: seq<Rect>)
    decreases |t|
  {
    |s| == 0 ||
    (|t| > 0 && ((s[0] == t[0] && SubsequenceOf(s[1..], t[1..])) || SubsequenceOf(s, t[1..])))
  }

  /** `s` is what survives of `aliens` after the bullet `bullet`: no longer
      than `aliens`; holding exactly the boxes the bullet misses; each missed
      box with all its copies and each touched box with none; in the original
      order; and shorter exactly when the bullet touches some alien. */
  ghost predicate SurvivorsOf(bullet: Rect, aliens: seq<Rect>, s: seq<Rect>) {
    && |s| <= |aliens|
    && (forall a :: a in s <==> a in aliens && !IsColliding(bullet, a))
    && (forall a :: multiset(s)[a] == if IsColliding(bullet, a) then 0 else multiset(aliens)[a])
    && SubsequenceOf(s, aliens)
    && (|s| < |aliens| <==> exists k :: 0 <= k < |aliens| && IsColliding(bullet, aliens[k]))
  }

  /** The survivors of `aliens` follow from those of its tail: the head is
      dropped if the bullet touches it and kept in front otherwise. */
  lemma {:induction false} SurvivorsCons(bullet: Rect, aliens: seq<Rect>, rest: seq<Rect>)
    requires |aliens| > 0 && SurvivorsOf(bullet, aliens[1..], rest)
    ensures IsColliding(bullet, aliens[0]) ==> SurvivorsOf(bullet, aliens, rest)
    ensures !IsColliding(bullet, aliens[0]) ==> SurvivorsOf(bullet, aliens, [aliens[0]] + rest)
  {
    assert aliens == [aliens[0]] + aliens[1..];
    assert multiset(aliens) == multiset{aliens[0]} + multiset(aliens[1..]);
    if IsColliding(bullet, aliens[0]) {
      if |rest| < |aliens| - 1 {
        var k :| 0 <= k < |aliens[1..]| && IsColliding(bullet, aliens[1..][k]);
        assert IsColliding(bullet, aliens[k + 1]);
      }
    } else {
      var s := [aliens[0]] + rest;
      assert s[0] == aliens[0] && s[1..] == rest;
      assert multiset(s) == multiset{aliens[0]} + multiset(rest);
      if exists k :: 0 <= k < |aliens| && IsColliding(bullet, aliens[k]) {
        var k :| 0 <= k < |aliens| && IsColliding(bullet, aliens[k]);
        assert k > 0 && IsColliding(bullet, aliens[1..][k - 1]);
      }
    }
  }

  /** The aliens a bullet with bounding box `bullet` does not touch, in their
      original order: each box the bullet misses keeps all its copies, each
      box it touches loses all of them. */
  function Survivors(bullet: Rect, aliens: seq<Rect>): (s: seq<Rect>)
    ensures SurvivorsOf(bullet, aliens, s)
  {
    if |aliens| == 0 then []
    else
      var rest := Survivors(bullet, aliens[1..]);
      SurvivorsCons(bullet, aliens, rest);
      if IsColliding(bullet, aliens[0]) then rest else [aliens[0]] + rest
  }

  /** The `forEach` of `checkCollision` over the aliens in page order: each one
      the bullet touches is removed and scores a point (the bullet's box is
      read once, so removing the bullet does not stop the loop). Returns the
      aliens left and the game with its new score. */
  function HitAliens(bullet: Rect, aliens: seq<Rect>, g: Game): (r: (seq<Rect>, Game))
    ensures r.0 == Survivors(bullet, aliens)
    ensures r.1.score == g.score + (|aliens| - |r.0|)
    ensures r.1.highscore == if |r.0| < |aliens| then Max(g.highscore, r.1.score) else g.highscore
    ensures r.1 == g.(score := r.1.score, highscore := r.1.highscore)
  {
    if |aliens| == 0 then ([], g)
    else if IsColliding(bullet, aliens[0]) then HitAliens(bullet, aliens[1..], IncrementScore(g))
    else
      var (kept, h) := HitAliens(bullet, aliens[1..], g);
      ([aliens[0]] + kept, h)
  }

  /** `checkCollision` for a bullet whose bounding box is `bullet`. The flag
      says whether the bullet hit anything, in which case it is removed. */
  function CheckCollision(g: Game, bullet: Rect): (r: (Game, bool))
    ensures r.1 <==> exists k :: 0 <= k < |g.aliens| && IsColliding(bullet, g.aliens[k])
    ensures SurvivorsOf(bullet, g.aliens, r.0.aliens)
    ensures r.0.score == g.score + (|g.aliens| - |r.0.aliens|)
    ensures r.0.highscore == if r.1 then Max(g.highscore, r.0.score) else g.highscore
    ensures r.0.timeLeft == g.timeLeft && r.0.gameOver == g.gameOver && r.0.canShoot == g.canShoot
  {
    var (kept, h) := HitAliens(bullet, g.aliens, g);
    (h.(aliens := kept), |kept| < |g.aliens|)
  }

  /** One bullet among an alien it touches and two identical aliens it misses
      scores exactly one point and leaves both missed aliens on screen. */
  lemma OneHitAmongEqualMisses(g: Game)
    requires g.aliens == [Rect(0, 10, 0, 10), Rect(50, 60, 50, 60), Rect(50, 60, 50, 60)]
    ensures CheckCollision(g, Rect(0, 10, 0, 10)).0.score == g.score + 1
    ensures CheckCollision(g, Rect(0, 10, 0, 10)).0.aliens == [Rect(50, 60, 50, 60), Rect(50, 60, 50, 60)]
  {
    var hit, miss := Rect(0, 10, 0, 10), Rect(50, 60, 50, 60);
    assert IsColliding(hit, hit) && !IsColliding(hit, miss);
    var r := CheckCollision(g, hit).0;
    assert multiset(g.aliens) == multiset{hit, miss, miss};
    forall a
      ensures multiset(r.aliens)[a] == multiset{miss, miss}[a]
    {
    }
    assert multiset(r.aliens) == multiset{miss, miss};
    assert |r.aliens| == |multiset(r.aliens)| == 2;
    assert r.aliens[0] in multiset(r.aliens) && r.aliens[1] in multiset(r.aliens);
  }

  // ---------------------------------------------------------------------------
  // Timer, end and restart
  // ---------------------------------------------------------------------------

  /** The state part of `endGame`: the game is over and every alien is
      removed; the score and the high score stay on screen. */
  function EndGame(g: Game): (h: Game)
    ensures h.gameOver && h.aliens == []
    ensures h.score == g.score && h.highscore == g.highscore
    ensures h.timeLeft == g.timeLeft && h.canShoot == g.canShoot
  {
    g.(gameOver := true, aliens := [])
  }

  /** The state part of `resetGame`: a new game with no points and a full
      countdown; the high score, the cooldown flag and the aliens are left
      as they are. */
  function ResetGame(g: Game): (h: Game)
    ensures h.score == 0 && h.timeLeft == StartTime && !h.gameOver
    ensures h.highscore == g.highscore && h.canShoot == g.canShoot && h.aliens == g.aliens
  {
    g.(score := 0, timeLeft := StartTime, gameOver := false)
  }

  /** One firing of the countdown interval. The interval runs from the start
      of a game until `endGame` clears it, so on a finished game there is no
      tick and nothing changes. */
  function Tick(g: Game): (h: Game)
    ensures g.gameOver ==> h == g
    ensures !g.gameOver ==> h.timeLeft == g.timeLeft - 1 && (h.gameOver <==> h.timeLeft <= 0)
    ensures !g.gameOver && h.gameOver ==> h.aliens == []
    ensures !g.gameOver && !h.gameOver ==> h == g.(timeLeft := g.timeLeft - 1)
    ensures h.score == g.score && h.highscore == g.highscore && h.canShoot == g.canShoot
  {
    if g.gameOver then g
    else
      var h := g.(timeLeft := g.timeLeft - 1);
      if h.timeLeft <= 0 then EndGame(h) else h
  }

  // ---------------------------------------------------------------------------
  // Shooting
  // ---------------------------------------------------------------------------

  /** The click handler. On a finished game a click restarts it. Otherwise a
      click on the play area or the spaceship (`onTarget`) fires when the
      cooldown allows, and firing blocks the next shot until the cooldown
      ends. The flag says whether a shot was fired. */
  function Click(g: Game, onTarget: bool): (r: (Game, bool))
    ensures g.gameOver ==> r.0 == ResetGame(g) && !r.1
    ensures r.1 <==> !g.gameOver && onTarget && g.canShoot
    ensures r.1 ==> r.0 == g.(canShoot := false)
    ensures !g.gameOver && !r.1 ==> r.0 == g
  {
    if !g.gameOver then
      if onTarget && g.canShoot then (g.(canShoot := false), true)
      else (g, false)
    else (ResetGame(g), false)
  }

  /** The `setTimeout` callback that ends the shot cooldown. */
  function Cooldown(g: Game): (h: Game)
    ensures h.canShoot
    ensures h.score == g.score && h.highscore == g.highscore && h.timeLeft == g.timeLeft
    ensures h.gameOver == g.gameOver && h.aliens == g.aliens
  {
    g.(canShoot := true)
  }

  /** `spawnAliens`: while the game runs a new alien appears, with the box
      `alien` (its horizontal position is a random draw of the page). */
  function SpawnAlien(g: Game, alien: Rect): (h: Game)
    ensures g.gameOver ==> h == g
    ensures !g.gameOver ==>
      |h.aliens| == |g.aliens| + 1 && h.aliens[..|g.aliens|] == g.aliens && h.aliens[|g.aliens|] == alien
    ensures h.score == g.score && h.highscore == g.highscore && h.timeLeft == g.timeLeft
    ensures h.gameOver == g.gameOver && h.canShoot == g.canShoot
  {
    if !g.gameOver then g.(aliens := g.aliens + [alien]) else g
  }

  /** A firing of the movement interval of the alien now at position `k`: it
      moves to the box `box` (the 4.5-pixel step of the page). An interval of
      an alien no longer on screen changes nothing. */
  function MoveAlien(g: Game, k: int, box: Rect): (h: Game)
    ensures 0 <= k < |g.aliens| ==>
      |h.aliens| == |g.aliens| && h.aliens[k] == box
      && forall i :: 0 <= i < |g.aliens| && i != k ==> h.aliens[i] == g.aliens[i]
    ensures !(0 <= k < |g.aliens|) ==> h == g
    ensures h.score == g.score && h.highscore == g.highscore && h.timeLeft == g.timeLeft
    ensures h.gameOver == g.gameOver && h.canShoot == g.canShoot
  {
    if 0 <= k < |g.aliens| then g.(aliens := g.aliens[k := box]) else g
  }

  /** The alien now at position `k` reaches the bottom edge and is removed,
      without any point scored. */
  function AlienLeaves(g: Game, k: int): (h: Game)
    ensures 0 <= k < |g.aliens| ==>
      |h.aliens| == |g.aliens| - 1
      && multiset(h.aliens) == multiset(g.aliens) - multiset{g.aliens[k]}
      && SubsequenceOf(h.aliens, g.aliens)
    ensures 0 <= k < |g.aliens| ==> h.aliens[..k] == g.aliens[..k] && h.aliens[k..] == g.aliens[k + 1..]
    ensures !(0 <= k < |g.aliens|) ==> h == g
    ensures h.score == g.score && h.highscore == g.highscore && h.timeLeft == g.timeLeft
    ensures h.gameOver == g.gameOver && h.canShoot == g.canShoot
  {
    if 0 <= k < |g.aliens| then
      var rest := g.aliens[..k] + g.aliens[k + 1..];
      assert g.aliens == g.aliens[..k] + [g.aliens[k]] + g.aliens[k + 1..];
      DropOneIsSubsequence(g.aliens, k);
      g.(aliens := rest)
    else g
  }

  /** Dropping one entry leaves a subsequence. */
  lemma {:induction false} DropOneIsSubsequence(t: seq<Rect>, k: nat)
    requires k < |t|
    ensures SubsequenceOf(t[..k] + t[k + 1..], t)
    decreases k
  {
    var s := t[..k] + t[k + 1..];
    if k == 0 {
      assert s == t[1..];
      SubsequenceOfSelf(t[1..]);
    } else {
      DropOneIsSubsequence(t[1..], k - 1);
      assert s[0] == t[0];
      assert s[1..] == t[1..][..k - 1] + t[1..][k..];
    }
  }

  /** Every sequence is a subsequence of itself. */
  lemma {:induction false} SubsequenceOfSelf(t: seq<Rect>)
    ensures SubsequenceOf(t, t)
    decreases |t|
  {
    if |t| > 0 {
      SubsequenceOfSelf(t[1..]);
    }
  }

  // ---------------------------------------------------------------------------
  // Events
  // ---------------------------------------------------------------------------

  datatype Event =
    | Clicked(onTarget: bool)   // a click, on the play area/spaceship or not
    | CooldownOver              // the shot cooldown has elapsed
    | Ticked                    // a second of the countdown has passed
    | BulletAt(bullet: Rect)    // a bullet moved to a new box
    | Spawned(alien: Rect)      // the spawn interval fired
    | AlienMoved(k: int, box: Rect)  // the alien at position k moved to `box`
    | AlienLeft(k: int)         // the alien at position k reached the bottom

  /** One event delivered to its handler. Only a click can restart a
      finished game, only the end of the cooldown can re-enable shooting,
      only a bullet or a restart can change the score, and the high score
      never goes down. */
  function Step(g: Game, e: Event): (h: Game)
    ensures h.highscore >= g.highscore
    ensures g.gameOver && !h.gameOver ==> e.Clicked?
    ensures !g.canShoot && h.canShoot <==> !g.canShoot && e.CooldownOver?
    ensures h.score != g.score ==> e.BulletAt? || (e.Clicked? && g.gameOver)
  {
    match e
    case Clicked(onTarget) => Click(g, onTarget).0
    case CooldownOver => Cooldown(g)
    case Ticked => Tick(g)
    case BulletAt(bullet) => CheckCollision(g, bullet).0
    case Spawned(alien) => SpawnAlien(g, alien)
    case AlienMoved(k, box) => MoveAlien(g, k, box)
    case AlienLeft(k) => AlienLeaves(g, k)
  }

  function Run(g: Game, events: seq<Event>): Game
    decreases |events|
  {
    if |events| == 0 then g else Run(Step(g, events[0]), events[1..])
  }

  /** What holds of every state the game reaches: the score is never
      negative and, once positive, never above the high score; the countdown
      stays within 0..60 and reads 0 exactly when the game is over; and a
      finished game has no aliens. */
  predicate Inv(g: Game) {
    && 0 <= g.score
    && (g.score == 0 || g.highscore >= g.score)
    && 0 <= g.timeLeft <= StartTime
    && (g.gameOver <==> g.timeLeft == 0)
    && (g.gameOver ==> g.aliens == [])
  }

  /** Every event keeps the invariant and never lowers the high score. */
  lemma StepKeepsInv(g: Game, e: Event)
    requires Inv(g)
    ensures Inv(Step(g, e))
    ensures Step(g, e).highscore >= g.highscore
  {
  }

  /** The invariant holds from page load on, whatever the events, and the
      high score never goes down. */
  lemma {:induction false} RunKeepsInv(g: Game, events: seq<Event>)
    requires Inv(g)
    ensures Inv(Run(g, events))
    ensures Run(g, events).highscore >= g.highscore
    decreases |events|
  {
    if |events| > 0 {
      StepKeepsInv(g, events[0]);
      RunKeepsInv(Step(g, events[0]), events[1..]);
    }
  }

  /** Every state reached from page load satisfies the invariant, and its
      high score is at least the stored one. */
  lemma ReachableGames(stored: Option<int>, events: seq<Event>)
    ensures Inv(Run(Start(stored), events))
    ensures Run(Start(stored), events).highscore >= Start(stored).highscore
  {
    RunKeepsInv(Start(stored), events);
  }

  /** `k` consecutive countdown ticks. */
  function Ticks(g: Game, k: nat): Game {
    if k == 0 then g else Tick(Ticks(g, k - 1))
  }

  /** A running game with `n` seconds left stays running for n-1 ticks and
      ends on the n-th, each tick taking exactly one second off; the ticks
      leave the score and the high score alone. */
  lemma {:induction false} CountdownEndsGame(g: Game, k: nat)
    requires Inv(g) && !g.gameOver && k <= g.timeLeft
    ensures Ticks(g, k).timeLeft == g.timeLeft - k
    ensures Ticks(g, k).gameOver <==> k == g.timeLeft
    ensures Ticks(g, k).score == g.score && Ticks(g, k).highscore == g.highscore
  {
    if k > 0 {
      CountdownEndsGame(g, k - 1);
    }
  }

  /** A fresh game lasts exactly 60 ticks. */
  lemma FreshGameLastsSixtyTicks(stored: Option<int>, k: nat)
    requires k <= StartTime
    ensures Ticks(Start(stored), k).gameOver <==> k == StartTime
  {
    CountdownEndsGame(Start(stored), k);
  }

  /** A finished game has no aliens, so no bullet can score. */
  lemma NoPointsAfterGameOver(g: Game, bullet: Rect)
    requires Inv(g) && g.gameOver
    ensures CheckCollision(g, bullet) == (g, false)
  {
  }

  /** After a shot, no other event than the end of the cooldown lets the
      player shoot again. */
  lemma {:induction false} ShotWaitsForCooldown(g: Game, onTarget: bool, events: seq<Event>)
    requires Click(g, onTarget).1
    requires forall k :: 0 <= k < |events| ==> !events[k].CooldownOver?
    ensures !Run(Click(g, onTarget).0, events).canShoot
  {
    NoCooldownKeepsBlocked(Click(g, onTarget).0, events);
  }

  lemma {:induction false} NoCooldownKeepsBlocked(g: Game, events: seq<Event>)
    requires !g.canShoot
    requires forall k :: 0 <= k < |events| ==> !events[k].CooldownOver?
    ensures !Run(g, events).canShoot
    decreases |events|
  {
    if |events| > 0 {
      assert !events[0].CooldownOver?;
      NoCooldownKeepsBlocked(Step(g, events[0]), events[1..]);
    }
  }
}
