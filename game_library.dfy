/**
 * The catalog state of components/game-library.tsx: the in-memory `games` list, its two
 * aliases `selectedGame` and `gameToView`, the add form, and the handlers that change them
 * once the repository has answered. Repository answers are parameters: `null`/`false` is how
 * lib/api.ts reports a failure.
 */
module GameLibrary {
  import opened Wrappers
  import opened Games
  import opened GameOrder

  // ---------------------------------------------------------------------------------------
  // List operations used by the handlers
  // ---------------------------------------------------------------------------------------

  /** `games.find((game) => game.id === id)`: the first game with that id. */
  function FindById(games: seq<Game>, id: string): (r: Option<Game>)
    ensures r.None? <==> id !in Ids(games)
    ensures r.Some? ==> exists i :: 0 <= i < |games| && games[i] == r.value && r.value.id == id
                                     && forall j :: 0 <= j < i ==> games[j].id != id
  {
    if games == [] then None
    else if games[0].id == id then
      assert Ids(games)[0] == id;
      Some(games[0])
    else
      var r := FindById(games[1..], id);
      assert Ids(games) == [games[0].id] + Ids(games[1..]);
      if r.Some? then
        var i :| 0 <= i < |games[1..]| && games[1..][i] == r.value && r.value.id == id
                 && forall j :: 0 <= j < i ==> games[1..][j].id != id;
        assert games[i + 1] == r.value;
        r
      else r
  }

  /** `games.filter((game) => game.id !== id)`. */
  function RemoveById(games: seq<Game>, id: string): (r: seq<Game>)
    ensures forall g :: g in r <==> g in games && g.id != id
    ensures forall g :: multiset(r)[g] == if g.id == id then 0 else multiset(games)[g]
  {
    if games == [] then []
    else
      assert games == [games[0]] + games[1..];
      (if games[0].id == id then [] else [games[0]]) + RemoveById(games[1..], id)
  }

  /** `games.map((game) => (game.id === id ? u : game))`. */
  function ReplaceById(games: seq<Game>, id: string, u: Game): (r: seq<Game>)
    ensures |r| == |games|
    ensures forall i :: 0 <= i < |games| && games[i].id == id ==> r[i] == u
    ensures forall i :: 0 <= i < |games| && games[i].id != id ==> r[i] == games[i]
    ensures u.id == id ==> Ids(r) == Ids(games)
  {
    seq(|games|, i requires 0 <= i < |games| => if games[i].id == id then u else games[i])
  }

  /** `games.map((game) => (game.id === id ? { ...game, played } : game))`. */
  function SetPlayedById(games: seq<Game>, id: string, played: bool): (r: seq<Game>)
    ensures |r| == |games| && Ids(r) == Ids(games)
    ensures forall i :: 0 <= i < |games| ==> r[i].played == (if games[i].id == id then played else games[i].played)
    ensures forall i :: 0 <= i < |games| ==> r[i].(played := games[i].played) == games[i]
  {
    seq(|games|, i requires 0 <= i < |games| => if games[i].id == id then games[i].(played := played) else games[i])
  }

  /** `if (alias && alias.id === id) alias = u`. */
  function Refresh(alias: Option<Game>, id: string, u: Game): Option<Game> {
    if alias.Some? && alias.value.id == id then Some(u) else alias
  }

  /** `if (alias && alias.id === id) alias = { ...alias, played }`. */
  function SetPlayed(alias: Option<Game>, id: string, played: bool): Option<Game> {
    if alias.Some? && alias.value.id == id then Some(alias.value.(played := played)) else alias
  }

  // ---------------------------------------------------------------------------------------
  // The catalog as a value, and the effect of each successful handler on it
  // ---------------------------------------------------------------------------------------

  datatype Catalog = Catalog(games: seq<Game>, selectedGame: Option<Game>, gameToView: Option<Game>)

  /** A successful add: the stored game is put in front. */
  function Added(c: Catalog, g: Game): Catalog {
    c.(games := [g] + c.games)
  }

  /** A successful update of the game with id `id` to `u`, aliases refreshed. */
  function Updated(c: Catalog, id: string, u: Game): Catalog {
    Catalog(ReplaceById(c.games, id, u), Refresh(c.selectedGame, id, u), Refresh(c.gameToView, id, u))
  }

  /** A successful delete: the game leaves the list and stops being the selection. */
  function Deleted(c: Catalog, id: string): Catalog {
    c.(games := RemoveById(c.games, id),
       selectedGame := if c.selectedGame.Some? && c.selectedGame.value.id == id then None else c.selectedGame)
  }

  /** A toggle of `played` that the repository confirmed; an unknown id changes nothing. */
  function Toggled(c: Catalog, id: string): Catalog {
    match FindById(c.games, id)
    case None => c
    case Some(g) =>
      Catalog(SetPlayedById(c.games, id, !g.played),
              SetPlayed(c.selectedGame, id, !g.played),
              SetPlayed(c.gameToView, id, !g.played))
  }

  /** An alias agrees with every game of the list that has its id. */
  predicate AliasAgrees(games: seq<Game>, alias: Option<Game>) {
    alias.Some? ==> forall g :: g in games && g.id == alias.value.id ==> g == alias.value
  }

  /** Both aliases show the same record as the list does. */
  predicate Synced(c: Catalog) {
    AliasAgrees(c.games, c.selectedGame) && AliasAgrees(c.games, c.gameToView)
  }

  // ---------------------------------------------------------------------------------------
  // Properties of the transitions
  // ---------------------------------------------------------------------------------------

  /** With unique ids, `find` returns the one game that has the id. */
  lemma FindUnique(games: seq<Game>, id: string, k: nat)
    requires UniqueIds(games) && k < |games| && games[k].id == id
    ensures FindById(games, id) == Some(games[k])
  {
    assert Ids(games)[k] == id;
  }

  /** An update that keeps the id keeps the list of ids, so unique ids stay unique. */
  lemma UpdateKeepsIds(c: Catalog, id: string, u: Game)
    requires u.id == id
    ensures Ids(Updated(c, id, u).games) == Ids(c.games)
    ensures UniqueIds(c.games) ==> UniqueIds(Updated(c, id, u).games)
  {
  }

  /** Updating to a record that keeps its id keeps the aliases in agreement with the list. */
  lemma UpdatePreservesSync(c: Catalog, id: string, u: Game)
    requires u.id == id && Synced(c)
    ensures Synced(Updated(c, id, u))
  {
    var c' := Updated(c, id, u);
    forall g | g in c'.games
      ensures g.id == id ==> g == u
      ensures g.id != id ==> g in c.games
    {
      var i :| 0 <= i < |c'.games| && c'.games[i] == g;
    }
  }

  /** Deleting keeps the remaining games in agreement with the aliases. */
  lemma DeletePreservesSync(c: Catalog, id: string)
    requires Synced(c)
    ensures Synced(Deleted(c, id))
    ensures id !in Ids(Deleted(c, id).games)
  {
    var r := Deleted(c, id).games;
    forall i | 0 <= i < |r| ensures Ids(r)[i] != id {
      assert r[i] in r;
    }
  }

  /**
   * The filter works piece by piece: filtering a concatenation concatenates the filtered
   * pieces. With the one-game case this fixes the result's order: the kept games stay in
   * their order in the list.
   */
  lemma {:induction false} RemoveConcat(x: seq<Game>, y: seq<Game>, id: string)
    ensures RemoveById(x + y, id) == RemoveById(x, id) + RemoveById(y, id)
  {
    if x == [] {
      assert x + y == y;
    } else {
      var t := x[1..];
      assert (x + y)[1..] == t + y && (x + y)[0] == x[0];
      var h := if x[0].id == id then [] else [x[0]];
      RemoveHead(x, id);
      RemoveHead(x + y, id);
      RemoveConcat(t, y, id);
      Regroup(h, RemoveById(t, id), RemoveById(y, id));
    }
  }

  /** One step of the filter: the head is kept exactly when its id differs. */
  lemma RemoveHead(s: seq<Game>, id: string)
    requires s != []
    ensures RemoveById(s, id) == (if s[0].id == id then [] else [s[0]]) + RemoveById(s[1..], id)
  {
  }

  /** Deleting an absent id leaves the list as it is. */
  lemma {:induction false} RemoveAbsent(games: seq<Game>, id: string)
    requires id !in Ids(games)
    ensures RemoveById(games, id) == games
  {
    if games != [] {
      assert Ids(games) == [games[0].id] + Ids(games[1..]);
      RemoveAbsent(games[1..], id);
      assert games == [games[0]] + games[1..];
    }
  }

  /**
   * Delete undoes add: adding a game whose id is new to the list and to the selection, then
   * deleting that id, gives back the catalog.
   */
  lemma DeleteUndoesAdd(c: Catalog, g: Game)
    requires g.id !in Ids(c.games)
    requires c.selectedGame.Some? ==> c.selectedGame.value.id != g.id
    ensures Deleted(Added(c, g), g.id) == c
  {
    assert [g] + c.games == [g] + c.games[0..];
    assert ([g] + c.games)[1..] == c.games;
    RemoveAbsent(c.games, g.id);
  }

  /** Adding keeps the aliases in agreement unless the new id collides with an alias. */
  lemma AddPreservesSync(c: Catalog, g: Game)
    requires Synced(c)
    requires c.selectedGame.Some? && c.selectedGame.value.id == g.id ==> c.selectedGame.value == g
    requires c.gameToView.Some? && c.gameToView.value.id == g.id ==> c.gameToView.value == g
    ensures Synced(Added(c, g))
  {
  }

  /** A toggle flips `played` on every game with the id and on the aliases, and keeps agreement. */
  lemma TogglePreservesSync(c: Catalog, id: string)
    requires Synced(c)
    ensures Synced(Toggled(c, id))
  {
    match FindById(c.games, id)
    case None =>
    case Some(h) =>
      var c' := Toggled(c, id);
      forall g | g in c'.games
        ensures g.id == id ==> exists k :: 0 <= k < |c.games| && c.games[k].id == id && g == c.games[k].(played := !h.played)
        ensures g.id != id ==> g in c.games
      {
        var i :| 0 <= i < |c'.games| && c'.games[i] == g;
      }
  }

  /**
   * On unique ids, setting `played` of one id to the opposite and back restores the list, and
   * after the first step `find` sees the flipped game.
   */
  lemma FlipTwiceOnList(games: seq<Game>, id: string, k: nat)
    requires UniqueIds(games) && k < |games| && games[k].id == id
    ensures var once := SetPlayedById(games, id, !games[k].played);
      && FindById(once, id) == Some(games[k].(played := !games[k].played))
      && SetPlayedById(once, id, games[k].played) == games
  {
    var once := SetPlayedById(games, id, !games[k].played);
    assert once[k] == games[k].(played := !games[k].played);
    FindUnique(once, id, k);
    var twice := SetPlayedById(once, id, games[k].played);
    forall i | 0 <= i < |games| ensures twice[i] == games[i] {
      if games[i].id == id {
        assert Ids(games)[i] == Ids(games)[k];
      }
    }
  }

  /** On unique ids and synced aliases, toggling the same id twice restores the catalog. */
  lemma ToggleTwiceRestores(c: Catalog, id: string)
    requires UniqueIds(c.games) && Synced(c)
    ensures Toggled(Toggled(c, id), id) == c
  {
    match FindById(c.games, id)
    case None =>
    case Some(g) =>
      var k :| 0 <= k < |c.games| && c.games[k] == g && g.id == id;
      FlipTwiceOnList(c.games, id, k);
      assert c.selectedGame.Some? && c.selectedGame.value.id == id ==> c.selectedGame.value == g;
      assert c.gameToView.Some? && c.gameToView.value.id == id ==> c.gameToView.value == g;
  }

  // ---------------------------------------------------------------------------------------
  // The add form
  // ---------------------------------------------------------------------------------------

  /** The `newGame` form state. */
  datatype Draft = Draft(
    name: string,
    description: string,
    maxPlayers: int,
    availableOnHydra: bool,
    imageUrl: string,
    addedBy: string,
    played: bool)

  /** The form's initial and reset value: four players, not on Hydra, not played. */
  const EmptyDraft := Draft("", "", 4, false, "", "", false)

  /**
   * `Number.parseInt(value) || 1`, given the result of `parseInt` (`None` for NaN): both NaN
   * and 0 are falsy and become 1.
   */
  function ParsedOrOne(parsed: Option<int>): (n: int)
    ensures n != 0
    ensures parsed.Some? && parsed.value != 0 ==> n == parsed.value
    ensures parsed.None? ==> n == 1
    ensures parsed == Some(0) ==> n == 1
  {
    if parsed.Some? && parsed.value != 0 then parsed.value else 1
  }

  // ---------------------------------------------------------------------------------------
  // The component
  // ---------------------------------------------------------------------------------------

  /** The toast each handler shows. */
  datatype Notice =
    | Silent
    | MissingFields
    | GameAdded(name: string)
    | AddFailed
    | GameUpdated(name: string)
    | GameDeleted(name: string)
    | PlayedChanged(played: bool)
    | NoUnplayedGames

  /** The repository calls a handler makes (lib/api.ts). */
  datatype Request =
    | AddRequest(draft: Draft)
    | UpdateRequest(game: Game)
    | DeleteRequest(id: string)
    | PlayedRequest(id: string, played: bool)
    | SaveSelectedRequest(id: string)

  class Library {
    var games: seq<Game>
    var selectedGame: Option<Game>
    var gameToView: Option<Game>
    var editGame: Option<Game>
    var gameToDelete: Option<Game>
    var newGame: Draft
    var isSpinning: bool
    var showAddGameModal: bool
    var showEditGameModal: bool
    var showGameDetailsModal: bool
    var showDeleteConfirm: bool
    var loadError: bool
    /** The repository calls made so far, in order. */
    ghost var requests: seq<Request>

    function State(): Catalog
      reads this
    {
      Catalog(games, selectedGame, gameToView)
    }

    /** The component's first render. */
    constructor ()
      ensures State() == Catalog([], None, None)
      ensures editGame == None && gameToDelete == None && newGame == EmptyDraft
      ensures !isSpinning && !showAddGameModal && !showEditGameModal && !showGameDetailsModal
      ensures !showDeleteConfirm && !loadError && requests == []
    {
      games, selectedGame, gameToView := [], None, None;
      editGame, gameToDelete, newGame := None, None, EmptyDraft;
      isSpinning, showAddGameModal, showEditGameModal := false, false, false;
      showGameDetailsModal, showDeleteConfirm, loadError := false, false, false;
      requests := [];
    }

    /**
     * `initializeAndLoadGames`: when the `/api/init` request settles, the fetched list replaces
     * `games` (a failed fetch yields `[]`) and a restored selection, if any, becomes
     * `selectedGame`; when it rejects, only the error banner is raised.
     */
    method LoadGames(initRejected: bool, loaded: seq<Game>, saved: Option<Game>)
      modifies this`games, this`selectedGame, this`loadError
      ensures initRejected ==> games == old(games) && selectedGame == old(selectedGame) && loadError
      ensures !initRejected ==> games == loaded && !loadError
      ensures !initRejected ==> selectedGame == if saved.Some? then saved else old(selectedGame)
    {
      loadError := false;
      if initRejected {
        loadError := true;
        return;
      }
      games := loaded;
      if saved.Some? {
        selectedGame := saved;
      }
    }

    /** `handleNumberChange`: the add form's player count. */
    method HandleNumberChange(parsed: Option<int>)
      modifies this`newGame
      ensures newGame == old(newGame).(maxPlayers := ParsedOrOne(parsed))
    {
      newGame := newGame.(maxPlayers := ParsedOrOne(parsed));
    }

    /** `handleEditNumberChange`: the edit form's player count, when an edit is open. */
    method HandleEditNumberChange(parsed: Option<int>)
      modifies this`editGame
      ensures editGame == if old(editGame).Some? then Some(old(editGame).value.(maxPlayers := ParsedOrOne(parsed)))
                          else None
    {
      if editGame.Some? {
        editGame := Some(editGame.value.(maxPlayers := ParsedOrOne(parsed)));
      }
    }

    /** `handleViewGameDetails`. */
    method HandleViewGameDetails(game: Game)
      modifies this`gameToView, this`showGameDetailsModal
      ensures gameToView == Some(game) && showGameDetailsModal
    {
      gameToView, showGameDetailsModal := Some(game), true;
    }

    /** `handleEditGame`: opens the edit form on a copy of the game. */
    method HandleEditGame(game: Game)
      modifies this`editGame, this`showEditGameModal
      ensures editGame == Some(game) && showEditGameModal
    {
      editGame, showEditGameModal := Some(game), true;
    }

    /** `handleConfirmDelete`: remembers the game and opens the confirmation dialog. */
    method HandleConfirmDelete(game: Game)
      modifies this`gameToDelete, this`showDeleteConfirm
      ensures gameToDelete == Some(game) && showDeleteConfirm
    {
      gameToDelete, showDeleteConfirm := Some(game), true;
    }

    /**
     * `handleAddGame`. An incomplete form makes no repository call and changes nothing. Otherwise
     * the form is sent; `added` is what `addGame` resolved to. A stored game goes in front of the
     * list and the form is reset; `null` leaves everything as it was and shows an error.
     */
    method HandleAddGame(added: Option<Game>) returns (notice: Notice)
      modifies this`games, this`newGame, this`showAddGameModal, this`requests
      ensures var d := old(newGame);
        !HasRequiredFields(d.name, d.description, d.addedBy) ==>
          notice == MissingFields && requests == old(requests) && games == old(games)
          && newGame == old(newGame) && showAddGameModal == old(showAddGameModal)
      ensures var d := old(newGame);
        HasRequiredFields(d.name, d.description, d.addedBy) ==> requests == old(requests) + [AddRequest(d)]
      ensures var d := old(newGame);
        HasRequiredFields(d.name, d.description, d.addedBy) && added.Some? ==>
          State() == Added(old(State()), added.value) && newGame == EmptyDraft && !showAddGameModal
          && notice == GameAdded(added.value.name)
      ensures var d := old(newGame);
        HasRequiredFields(d.name, d.description, d.addedBy) && added.None? ==>
          games == old(games) && newGame == old(newGame) && showAddGameModal == old(showAddGameModal)
          && notice == AddFailed
    {
      if !HasRequiredFields(newGame.name, newGame.description, newGame.addedBy) {
        return MissingFields;
      }
      requests := requests + [AddRequest(newGame)];
      if added.Some? {
        games := [added.value] + games;
        showAddGameModal := false;
        newGame := EmptyDraft;
        notice := GameAdded(added.value.name);
      } else {
        notice := AddFailed;
      }
    }

    /**
     * `handleUpdateGame`. Without an open edit nothing happens; an incomplete edit makes no
     * repository call. `updated` is what `updateGame` resolved to: a record replaces every game
     * with the edited id and refreshes the aliases with that id; `null` changes nothing and,
     * since `updateGame` never throws, shows nothing either.
     */
    method HandleUpdateGame(updated: Option<Game>) returns (notice: Notice)
      modifies this`games, this`selectedGame, this`gameToView, this`editGame, this`showEditGameModal
      modifies this`requests
      ensures old(editGame).None? ==>
        notice == Silent && State() == old(State()) && editGame == old(editGame)
        && showEditGameModal == old(showEditGameModal) && requests == old(requests)
      ensures old(editGame).Some? ==> var e := old(editGame).value;
        !HasRequiredFields(e.name, e.description, e.addedBy) ==>
          notice == MissingFields && State() == old(State()) && editGame == old(editGame)
          && showEditGameModal == old(showEditGameModal) && requests == old(requests)
      ensures old(editGame).Some? ==> var e := old(editGame).value;
        HasRequiredFields(e.name, e.description, e.addedBy) ==>
          requests == old(requests) + [UpdateRequest(e)]
          && (updated.Some? ==>
                State() == Updated(old(State()), e.id, updated.value)
                && editGame == None && !showEditGameModal && notice == GameUpdated(updated.value.name))
          && (updated.None? ==>
                State() == old(State()) && editGame == old(editGame)
                && showEditGameModal == old(showEditGameModal) && notice == Silent)
    {
      if editGame.None? {
        return Silent;
      }
      var e := editGame.value;
      if !HasRequiredFields(e.name, e.description, e.addedBy) {
        return MissingFields;
      }
      requests := requests + [UpdateRequest(e)];
      notice := Silent;
      if updated.Some? {
        var u := updated.value;
        games := ReplaceById(games, e.id, u);
        if selectedGame.Some? && selectedGame.value.id == e.id {
          selectedGame := Some(u);
        }
        if gameToView.Some? && gameToView.value.id == e.id {
          gameToView := Some(u);
        }
        showEditGameModal := false;
        editGame := None;
        notice := GameUpdated(u.name);
      }
    }

    /**
     * `handleDeleteGame`, after the confirmation. `deleted` is what `deleteGame` resolved to.
     * On success every game with the id leaves the list, the selection is cleared if it was that
     * game and an open details view of it is closed. In every case the dialog closes and
     * `gameToDelete` is cleared.
     */
    method HandleDeleteGame(deleted: bool) returns (notice: Notice)
      modifies this`games, this`selectedGame, this`showGameDetailsModal, this`showDeleteConfirm
      modifies this`gameToDelete, this`requests
      ensures old(gameToDelete).None? ==>
        notice == Silent && State() == old(State()) && showGameDetailsModal == old(showGameDetailsModal)
        && showDeleteConfirm == old(showDeleteConfirm) && gameToDelete == None && requests == old(requests)
      ensures old(gameToDelete).Some? ==> var d := old(gameToDelete).value;
        requests == old(requests) + [DeleteRequest(d.id)]
        && gameToDelete == None && !showDeleteConfirm
        && (deleted ==>
              State() == Deleted(old(State()), d.id) && notice == GameDeleted(d.name)
              && showGameDetailsModal == (old(showGameDetailsModal)
                                          && !(gameToView.Some? && gameToView.value.id == d.id)))
        && (!deleted ==>
              State() == old(State()) && showGameDetailsModal == old(showGameDetailsModal) && notice == Silent)
    {
      if gameToDelete.None? {
        return Silent;
      }
      var d := gameToDelete.value;
      requests := requests + [DeleteRequest(d.id)];
      showDeleteConfirm, gameToDelete := false, None;
      if !deleted {
        return Silent;
      }
      var after := Deleted(State(), d.id);
      games, selectedGame := after.games, after.selectedGame;
      showGameDetailsModal := showGameDetailsModal && !(gameToView.Some? && gameToView.value.id == d.id);
      notice := GameDeleted(d.name);
    }

    /**
     * `handleToggleGamePlayed`. An id missing from the list is a no-op with no repository call.
     * Otherwise the flipped status of the first game with the id is sent; `saved` is what
     * `toggleGamePlayed` resolved to, and only a confirmed change touches the state.
     */
    method HandleToggleGamePlayed(gameId: string, saved: bool) returns (notice: Notice)
      modifies this`games, this`selectedGame, this`gameToView, this`requests
      ensures FindById(old(games), gameId).None? ==>
        notice == Silent && State() == old(State()) && requests == old(requests)
      ensures FindById(old(games), gameId).Some? ==> var g := FindById(old(games), gameId).value;
        requests == old(requests) + [PlayedRequest(gameId, !g.played)]
        && (saved ==> State() == Toggled(old(State()), gameId) && notice == PlayedChanged(!g.played))
        && (!saved ==> State() == old(State()) && notice == Silent)
    {
      var found := FindById(games, gameId);
      if found.None? {
        return Silent;
      }
      var newPlayed := !found.value.played;
      requests := requests + [PlayedRequest(gameId, newPlayed)];
      notice := Silent;
      if saved {
        games := SetPlayedById(games, gameId, newPlayed);
        if selectedGame.Some? && selectedGame.value.id == gameId {
          selectedGame := Some(selectedGame.value.(played := newPlayed));
        }
        if gameToView.Some? && gameToView.value.id == gameId {
          gameToView := Some(gameToView.value.(played := newPlayed));
        }
        notice := PlayedChanged(newPlayed);
      }
    }

    /** `handleSpin`: a draw starts only when some game is unplayed. */
    method HandleSpin() returns (notice: Notice)
      modifies this`isSpinning
      ensures (exists g :: g in games && !g.played) ==> isSpinning && notice == Silent
      ensures (forall g :: g in games ==> g.played) ==> isSpinning == old(isSpinning) && notice == NoUnplayedGames
    {
      var eligible := UnplayedGames(games);
      if |eligible| == 0 {
        return NoUnplayedGames;
      }
      assert eligible[0] in eligible;
      isSpinning := true;
      notice := Silent;
    }

    /**
     * `handleSelectionComplete`: the winner becomes the selection and the draw ends before the
     * winner is sent to the repository; `saved`, the answer of `saveSelectedGame`, changes nothing.
     */
    method HandleSelectionComplete(game: Game, saved: bool)
      modifies this`selectedGame, this`isSpinning, this`requests
      ensures selectedGame == Some(game) && !isSpinning
      ensures requests == old(requests) + [SaveSelectedRequest(game.id)]
    {
      selectedGame := Some(game);
      isSpinning := false;
      requests := requests + [SaveSelectedRequest(game.id)];
    }
  }
}
