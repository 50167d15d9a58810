/**
 * The two derived lists of components/game-library.tsx: `sortedGames`, the display order,
 * and `unplayedGames`, the games eligible for a draw.
 */
module GameOrder {
  import opened Wrappers
  import opened Games

  /**
   * The comparator handed to `sort`: negative when `a` belongs before `b`, positive when
   * after. Unplayed games come first; unplayed games newest first, played games oldest first.
   */
  function Compare(a: Game, b: Game): (c: int)
    ensures a.played != b.played ==> c != 0 && (c < 0 <==> !a.played)
    ensures a.played == b.played ==> (c == 0 <==> TimeOf(a) == TimeOf(b))
    ensures !a.played && !b.played ==> (c < 0 <==> TimeOf(a) > TimeOf(b))
    ensures a.played && b.played ==> (c < 0 <==> TimeOf(a) < TimeOf(b))
  {
    if a.played != b.played then (if a.played then 1 else -1)
    else if !a.played then TimeOf(b) - TimeOf(a)
    else TimeOf(a) - TimeOf(b)
  }

  /** `a` may stand before `b` in a sorted list. */
  predicate Precedes(a: Game, b: Game) {
    Compare(a, b) <= 0
  }

  ghost predicate Sorted(s: seq<Game>) {
    forall i, j :: 0 <= i < j < |s| ==> Precedes(s[i], s[j])
  }

  /** Inserts `x` before the first element it may precede, so `x` stays ahead of its ties. */
  function Insert(x: Game, s: seq<Game>): (r: seq<Game>)
    requires Sorted(s)
    ensures multiset(r) == multiset(s) + multiset{x}
    ensures Sorted(r)
  {
    if s == [] then [x]
    else if Precedes(x, s[0]) then [x] + s
    else
      var rest := Insert(x, s[1..]);
      assert s == [s[0]] + s[1..];
      assert forall k :: 0 <= k < |rest| ==> Precedes(s[0], rest[k]) by {
        forall k | 0 <= k < |rest| ensures Precedes(s[0], rest[k]) {
          assert rest[k] in multiset(rest);
          if rest[k] != x {
            assert rest[k] in multiset(s[1..]);
          }
        }
      }
      [s[0]] + rest
  }

  /**
   * `[...games].sort(compare)`. The sort is stable, as `Array.prototype.sort` is: each game
   * is inserted ahead of the later games it ties with.
   */
  function SortedGames(games: seq<Game>): (r: seq<Game>)
    ensures multiset(r) == multiset(games)
    ensures Sorted(r)
  {
    if games == [] then []
    else
      assert games == [games[0]] + games[1..];
      Insert(games[0], SortedGames(games[1..]))
  }

  /**
   * The display laws: the result is a permutation of the catalog, every unplayed game precedes
   * every played game, unplayed games are newest first and played games oldest first.
   */
  lemma SortedGamesLaws(games: seq<Game>)
    ensures multiset(SortedGames(games)) == multiset(games)
    ensures forall i, j :: 0 <= i < j < |SortedGames(games)| && SortedGames(games)[i].played
                           ==> SortedGames(games)[j].played
    ensures forall i, j :: 0 <= i < j < |SortedGames(games)|
                           && !SortedGames(games)[i].played && !SortedGames(games)[j].played
                           ==> TimeOf(SortedGames(games)[i]) >= TimeOf(SortedGames(games)[j])
    ensures forall i, j :: 0 <= i < j < |SortedGames(games)|
                           && SortedGames(games)[i].played && SortedGames(games)[j].played
                           ==> TimeOf(SortedGames(games)[i]) <= TimeOf(SortedGames(games)[j])
  {
    var s := SortedGames(games);
    forall i, j | 0 <= i < j < |s|
      ensures s[i].played ==> s[j].played
      ensures !s[i].played && !s[j].played ==> TimeOf(s[i]) >= TimeOf(s[j])
      ensures s[i].played && s[j].played ==> TimeOf(s[i]) <= TimeOf(s[j])
    {
      assert Precedes(s[i], s[j]);
    }
  }

  /** No two distinct games of `s` compare equal. */
  ghost predicate TieFree(s: seq<Game>) {
    forall x, y :: x in multiset(s) && y in multiset(s) && x != y ==> Compare(x, y) != 0
  }

  lemma SortedHeads(a: seq<Game>, b: seq<Game>)
    requires Sorted(a) && Sorted(b) && multiset(a) == multiset(b) && TieFree(a)
    requires a != []
    ensures b != [] && a[0] == b[0]
  {
    assert a[0] in multiset(a);
    assert b != [];
    assert b[0] in multiset(b);
  }

  /** Dropping equal heads of two permutations leaves permutations, and a tie-free tail. */
  lemma TailOfPermutation(a: seq<Game>, b: seq<Game>)
    requires a != [] && b != [] && a[0] == b[0] && multiset(a) == multiset(b) && TieFree(a)
    ensures multiset(a[1..]) == multiset(b[1..]) && TieFree(a[1..])
  {
    assert a == [a[0]] + a[1..] && b == [b[0]] + b[1..];
    assert multiset(a) == multiset{a[0]} + multiset(a[1..]);
    assert multiset(b) == multiset{b[0]} + multiset(b[1..]);
    assert multiset(a[1..]) == multiset(a) - multiset{a[0]};
    assert multiset(b[1..]) == multiset(b) - multiset{b[0]};
    forall x, y | x in multiset(a[1..]) && y in multiset(a[1..]) && x != y
      ensures Compare(x, y) != 0
    {
      assert x in multiset(a) && y in multiset(a);
    }
  }

  /**
   * Two sorted permutations of one tie-free list are equal, so the laws above pin the display
   * order down except among games that compare equal.
   */
  lemma {:induction false} SortedUnique(a: seq<Game>, b: seq<Game>)
    requires Sorted(a) && Sorted(b) && multiset(a) == multiset(b) && TieFree(a)
    ensures a == b
  {
    if a == [] {
      assert |b| == |multiset(b)|;
    } else {
      SortedHeads(a, b);
      TailOfPermutation(a, b);
      assert a == [a[0]] + a[1..] && b == [b[0]] + b[1..];
      SortedUnique(a[1..], b[1..]);
    }
  }

  /** `games.filter((game) => !game.played)`: the candidates of a draw, in catalog order. */
  function UnplayedGames(games: seq<Game>): (r: seq<Game>)
    ensures forall g :: g in r <==> g in games && !g.played
    ensures forall g :: multiset(r)[g] == if g.played then 0 else multiset(games)[g]
  {
    if games == [] then []
    else
      assert games == [games[0]] + games[1..];
      (if games[0].played then [] else [games[0]]) + UnplayedGames(games[1..])
  }

  /**
   * The candidates of a concatenation are the candidates of each piece, in turn: with the
   * one-game case this keeps the candidates in catalog order.
   */
  lemma {:induction false} UnplayedConcat(x: seq<Game>, y: seq<Game>)
    ensures UnplayedGames(x + y) == UnplayedGames(x) + UnplayedGames(y)
  {
    if x == [] {
      assert x + y == y;
    } else {
      var t := x[1..];
      assert (x + y)[1..] == t + y && (x + y)[0] == x[0];
      var h := if x[0].played then [] else [x[0]];
      UnplayedHead(x);
      UnplayedHead(x + y);
      UnplayedConcat(t, y);
      Regroup(h, UnplayedGames(t), UnplayedGames(y));
    }
  }

  /** Concatenation is associative. */
  lemma Regroup(a: seq<Game>, b: seq<Game>, c: seq<Game>)
    ensures a + (b + c) == (a + b) + c
  {
  }

  /** One step of the filter: the head is kept exactly when it is unplayed. */
  lemma UnplayedHead(s: seq<Game>)
    requires s != []
    ensures UnplayedGames(s) == (if s[0].played then [] else [s[0]]) + UnplayedGames(s[1..])
  {
  }

  /** The display order of the three-game scenario A(unplayed, 100), B(played, 50), C(unplayed, 200). */
  lemma SortScenario(a: Game, b: Game, c: Game)
    requires !a.played && a.createdAt == Some(100)
    requires b.played && b.createdAt == Some(50)
    requires !c.played && c.createdAt == Some(200)
    ensures SortedGames([a, b, c]) == [c, a, b]
  {
    assert [a, b, c][1..] == [b, c];
    assert [b, c][1..] == [c];
    assert [c][1..] == [];
    assert SortedGames([c]) == [c];
    assert SortedGames([b, c]) == [c, b];
    assert [c, b][1..] == [b];
  }
}
