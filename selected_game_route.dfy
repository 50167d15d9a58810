/**
 * The handlers of app/api/selected-game/route.ts over two tables: `games`, keyed by id, and
 * `selected_game`, whose rows record which game was drawn and when. The SQL statements become
 * operations on those values; a failing statement is a parameter. The foreign key of
 * `selected_game` (lib/db.ts) is not maintained here: GET joins explicitly, so a row whose game
 * is gone is never returned.
 */
module SelectedGameRoute {
  import opened Wrappers

  /**
   * A row of the `games` table as `SELECT g.*` returns it: the columns keep the record's
   * camelCase names (lib/db.ts:49-59), `imageUrl` may be `NULL`, and no renaming is applied, so
   * the mapping of the games route does not take part here.
   */
  datatype GameRecord = GameRecord(
    id: string,
    name: string,
    description: string,
    maxPlayers: int,
    availableOnHydra: bool,
    imageUrl: Option<string>,
    addedBy: string,
    played: bool,
    createdAt: int)

  /** A `selected_game` row: the drawn game's id and the time of the draw. */
  datatype Selection = Selection(gameId: string, selectedAt: int)

  /** Which statement of POST throws, if any (`getConnection` failing counts as the lookup). */
  datatype Fault = Healthy | LookupFails | DeleteFails | InsertFails

  datatype Response =
    | Found(game: GameRecord)
    | Saved(gameId: string)
    | BadRequest
    | NotFound
    | ServerError

  function Status(resp: Response): (code: int)
    ensures code in {200, 400, 404, 500}
    ensures code == 200 <==> resp.Found? || resp.Saved?
  {
    match resp
    case Found(_) => 200
    case Saved(_) => 200
    case BadRequest => 400
    case NotFound => 404
    case ServerError => 500
  }

  /**
   * `SELECT ... JOIN ... ORDER BY selected_at DESC LIMIT 1` as an index: a row whose game
   * exists and whose `selected_at` is greatest among such rows, or `None` when no row joins.
   * SQL leaves the choice among equal times open; the contract does too.
   */
  function Latest(rows: seq<Selection>, known: set<string>): (k: Option<nat>)
    ensures k.None? <==> forall j :: 0 <= j < |rows| ==> rows[j].gameId !in known
    ensures k.Some? ==> k.value < |rows| && rows[k.value].gameId in known
    ensures k.Some? ==> forall j :: 0 <= j < |rows| && rows[j].gameId in known ==>
      rows[j].selectedAt <= rows[k.value].selectedAt
  {
    if rows == [] then None
    else
      var rest := Latest(rows[1..], known);
      assert forall j :: 1 <= j < |rows| ==> rows[j] == rows[1..][j - 1];
      if rows[0].gameId !in known then
        (if rest.Some? then Some(rest.value + 1) else None)
      else if rest.Some? && rows[rest.value + 1].selectedAt > rows[0].selectedAt then
        Some(rest.value + 1)
      else Some(0)
  }

  /** The game GET answers with: that of the latest selection whose game exists. */
  function LatestGame(rows: seq<Selection>, games: map<string, GameRecord>): (r: Option<GameRecord>)
    ensures r.None? <==> forall j :: 0 <= j < |rows| ==> rows[j].gameId !in games
    ensures r.Some? ==>
      exists k :: (0 <= k < |rows| && rows[k].gameId in games && r.value == games[rows[k].gameId]
        && forall j :: 0 <= j < |rows| && rows[j].gameId in games ==> rows[j].selectedAt <= rows[k].selectedAt)
  {
    match Latest(rows, games.Keys)
    case None => None
    case Some(k) => Some(games[rows[k].gameId])
  }

  /** A table holding only a selection of an existing game answers with that game. */
  lemma LatestOfSingleton(s: Selection, games: map<string, GameRecord>)
    requires s.gameId in games
    ensures LatestGame([s], games) == Some(games[s.gameId])
  {
  }

  class SelectedGameStore {
    /** The `games` table by primary key. */
    var games: map<string, GameRecord>
    /** The `selected_game` table, in storage order. */
    var selections: seq<Selection>

    constructor (games: map<string, GameRecord>, selections: seq<Selection>)
      ensures this.games == games && this.selections == selections
    {
      this.games, this.selections := games, selections;
    }

    /**
     * GET: the game of the latest selection, 404 when no selection joins a game, 500 when the
     * query throws.
     */
    method HandleGet(queryFails: bool) returns (resp: Response)
      ensures queryFails ==> resp == ServerError
      ensures !queryFails ==>
        resp == if LatestGame(selections, games).Some? then Found(LatestGame(selections, games).value) else NotFound
    {
      if queryFails {
        return ServerError;
      }
      var latest := LatestGame(selections, games);
      if latest.None? {
        return NotFound;
      }
      resp := Found(latest.value);
    }

    /**
     * POST at clock `now`. `body` is the `gameId` read from `request.json()`, `""` when the field
     * is missing, and `None` when the body is not JSON or is `null` (the read throws and the
     * `catch` answers 500). A missing id gives 400 and an unknown game 404, all three with the
     * table untouched. Otherwise every row is deleted and one row is inserted:
     * the table then holds exactly that selection, and GET returns that game. The two statements
     * are not a transaction, so a failing insert leaves the table empty.
     */
    method HandlePost(body: Option<string>, now: int, fault: Fault) returns (resp: Response)
      modifies this`selections
      ensures body.None? ==> resp == ServerError && selections == old(selections)
      ensures body == Some("") ==> resp == BadRequest && selections == old(selections)
      ensures body.Some? && body.value != "" && fault == LookupFails ==>
        resp == ServerError && selections == old(selections)
      ensures body.Some? && body.value != "" && fault != LookupFails && body.value !in games ==>
        resp == NotFound && selections == old(selections)
      ensures body.Some? && body.value != "" && fault != LookupFails && body.value in games ==>
        match fault
        case DeleteFails => resp == ServerError && selections == old(selections)
        case InsertFails => resp == ServerError && selections == []
        case _ => resp == Saved(body.value) && selections == [Selection(body.value, now)]
      ensures resp.Saved? ==> body.Some? && LatestGame(selections, games) == Some(games[body.value])
      ensures |old(selections)| <= 1 ==> |selections| <= 1
    {
      if body.None? {
        return ServerError;
      }
      var gameId := body.value;
      if gameId == "" {
        return BadRequest;
      }
      if fault == LookupFails {
        return ServerError;
      }
      if gameId !in games {
        return NotFound;
      }
      if fault == DeleteFails {
        return ServerError;
      }
      selections := [];
      if fault == InsertFails {
        return ServerError;
      }
      selections := selections + [Selection(gameId, now)];
      resp := Saved(gameId);
    }
  }
}
