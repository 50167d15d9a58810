/**
 * The draw animation of components/game-progress.tsx. Its three effects become three methods:
 * `Render` (new props; the reset effect), `Tick` (one firing of the 30 ms interval) and
 * `Complete` (the 50 ms timeout that picks the winner). `Math.random()` is a parameter.
 */
module GameProgress {
  import opened Wrappers
  import opened Games
  import opened GameOrder

  /** The value at which the counter stops and a winner may be drawn. */
  const Full: int := 100

  /** One interval tick: `prev + 1`, capped at 100. */
  function Step(p: int): (q: int)
    ensures p < Full ==> q == p + 1
    ensures p >= Full ==> q == Full
  {
    if p + 1 <= Full then p + 1 else Full
  }

  /** The counter after `k` ticks from `p`. */
  function Ticks(p: int, k: nat): (q: int)
    ensures 0 <= p <= Full ==> p <= q <= Full
    ensures p == Full ==> q == Full
    decreases k
  {
    if k == 0 then p else Ticks(Step(p), k - 1)
  }

  /**
   * From any counter value in range, `k` ticks add `k` until the cap: the counter climbs one
   * by one, never passes 100 and never skips it.
   */
  lemma {:induction false} TicksClimb(p: int, k: nat)
    requires 0 <= p <= Full
    ensures Ticks(p, k) == if p + k <= Full then p + k else Full
    decreases k
  {
    if k > 0 {
      TicksClimb(Step(p), k - 1);
    }
  }

  /** A draw that starts at 0 is below 100 for its first 99 ticks and at 100 from the 100th on. */
  lemma DrawLength(k: nat)
    ensures k < Full ==> Ticks(0, k) == k
    ensures k >= Full ==> Ticks(0, k) == Full
  {
    TicksClimb(0, k);
  }

  /** `Math.floor(Math.random() * n)` for a draw `r` in [0, 1). */
  function RandomIndex(r: real, n: nat): (i: nat)
    requires 0.0 <= r < 1.0 && n > 0
    ensures i < n
  {
    var x := r * n as real;
    assert 0.0 <= x < n as real;
    x.Floor
  }

  /**
   * The winner of a draw over the unplayed games of a catalog is a game of the catalog and is
   * unplayed.
   */
  lemma WinnerIsUnplayed(games: seq<Game>, r: real)
    requires 0.0 <= r < 1.0
    requires exists g :: g in games && !g.played
    ensures |UnplayedGames(games)| > 0
    ensures var w := UnplayedGames(games)[RandomIndex(r, |UnplayedGames(games)|)];
      w in games && !w.played
  {
    var g :| g in games && !g.played;
    assert g in UnplayedGames(games);
    var w := UnplayedGames(games)[RandomIndex(r, |UnplayedGames(games)|)];
    assert w in UnplayedGames(games);
  }

  class Progress {
    /** The `games` prop: the candidates of the draw. */
    var games: seq<Game>
    /** The `isSelecting` prop. */
    var isSelecting: bool
    /** The `progress` state. */
    var progress: int

    ghost predicate Valid()
      reads this
    {
      0 <= progress <= Full
    }

    /** The interval runs while a draw is on and there is something to draw from. */
    predicate Running()
      reads this
    {
      isSelecting && |games| > 0
    }

    /** Mounting: `useState(0)`. */
    constructor (games: seq<Game>, isSelecting: bool)
      ensures Valid() && progress == 0
      ensures this.games == games && this.isSelecting == isSelecting
    {
      this.games, this.isSelecting, progress := games, isSelecting, 0;
    }

    /** A render with new props; when `isSelecting` turns true the counter restarts at 0. */
    method Render(games: seq<Game>, isSelecting: bool)
      requires Valid()
      modifies this
      ensures Valid()
      ensures this.games == games && this.isSelecting == isSelecting
      ensures progress == if isSelecting && !old(this.isSelecting) then 0 else old(progress)
    {
      var started := isSelecting && !this.isSelecting;
      this.games, this.isSelecting := games, isSelecting;
      if started {
        progress := 0;
      }
    }

    /** One firing of the interval; no interval exists unless `Running()`. */
    method Tick()
      requires Valid()
      modifies this`progress
      ensures Valid()
      ensures progress == if Running() then Step(old(progress)) else old(progress)
      ensures old(progress) <= progress
    {
      if Running() {
        var next := progress + 1;
        progress := if next <= Full then next else Full;
      }
    }

    /**
     * The completion timeout, with `r` standing for `Math.random()`. A winner is drawn exactly
     * when the guard `isSelecting && progress === 100 && games.length > 0` holds, and it is an
     * element of the candidates.
     */
    method Complete(r: real) returns (winner: Option<Game>)
      requires 0.0 <= r < 1.0
      ensures winner.Some? <==> isSelecting && progress == Full && |games| > 0
      ensures winner.Some? ==> winner.value in games
      ensures winner.Some? ==> winner.value == games[RandomIndex(r, |games|)]
    {
      if isSelecting && progress == Full && |games| > 0 {
        var i := RandomIndex(r, |games|);
        winner := Some(games[i]);
      } else {
        winner := None;
      }
    }
  }
}
