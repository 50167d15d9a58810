/** The `Game` record shared by the client and the routes (components/game-library.tsx). */
module Games {
  import opened Wrappers

  /**
   * A catalog entry. `createdAt` is optional in the source; a JSON field that is missing
   * is `None`. A missing string field behaves like the empty string, which is how the model
   * represents it.
   */
  datatype Game = Game(
    id: string,
    name: string,
    description: string,
    maxPlayers: int,
    availableOnHydra: bool,
    imageUrl: string,
    addedBy: string,
    played: bool,
    createdAt: Option<int>)

  /** `game.createdAt || 0`: a missing (or zero) creation time counts as 0. */
  function TimeOf(g: Game): int {
    if g.createdAt.Some? then g.createdAt.value else 0
  }

  /** The truthiness test `!a || !b || !c` of the required text fields, negated. */
  predicate HasRequiredFields(name: string, description: string, addedBy: string) {
    name != "" && description != "" && addedBy != ""
  }

  /** The ids of a list of games, in order. */
  function Ids(games: seq<Game>): (ids: seq<string>)
    ensures |ids| == |games|
  {
    seq(|games|, i requires 0 <= i < |games| => games[i].id)
  }

  /** No two games of the list share an id (the catalog's intended invariant; nothing enforces it). */
  predicate UniqueIds(games: seq<Game>) {
    forall i, j :: 0 <= i < j < |games| ==> games[i].id != games[j].id
  }
}
