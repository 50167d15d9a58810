/**
 * The handlers of app/api/games/route.ts. The database calls `getAllGames` and `addGameToDb`
 * are not part of this model: their outcomes are parameters, `None` standing for a thrown
 * error or, for `addGameToDb`, a `null` result. `Date.now()` is a parameter too.
 */
module GamesRoute {
  import opened Wrappers
  import opened Games

  /** A `games` row as the database returns it, with snake_case column names. */
  datatype GameRow = GameRow(
    id: string,
    name: string,
    description: string,
    max_players: int,
    available_on_hydra: bool,
    image_url: Option<string>,
    added_by: string,
    played: bool,
    created_at: Option<int>)

  /** The JSON answers of the route. */
  datatype Response =
    | Listed(games: seq<Game>)
    | Created(game: Game)
    | BadRequest
    | ServerError

  /** The HTTP status of each answer. */
  function Status(resp: Response): (code: int)
    ensures code in {200, 201, 400, 500}
    ensures code < 400 <==> resp.Listed? || resp.Created?
  {
    match resp
    case Listed(_) => 200
    case Created(_) => 201
    case BadRequest => 400
    case ServerError => 500
  }

  /**
   * The row-to-`Game` mapping of GET and POST: snake_case columns become camelCase fields and
   * `image_url || ""` turns a null (or empty) image into "".
   */
  function MapRow(row: GameRow): (g: Game)
    ensures g.id == row.id && g.name == row.name && g.description == row.description
    ensures g.maxPlayers == row.max_players && g.availableOnHydra == row.available_on_hydra
    ensures g.addedBy == row.added_by && g.played == row.played && g.createdAt == row.created_at
    ensures g.imageUrl == "" <==> row.image_url.None? || row.image_url == Some("")
    ensures row.image_url.Some? ==> g.imageUrl == row.image_url.value
  {
    Game(row.id, row.name, row.description, row.max_players, row.available_on_hydra,
         if row.image_url.Some? then row.image_url.value else "",
         row.added_by, row.played, row.created_at)
  }

  /**
   * The inverse renaming, camelCase back to snake_case, an empty image becoming `null`. It is a
   * reference for what the mapping keeps, not an operation of the route.
   */
  function RowOf(g: Game): GameRow {
    GameRow(g.id, g.name, g.description, g.maxPlayers, g.availableOnHydra,
            if g.imageUrl == "" then None else Some(g.imageUrl),
            g.addedBy, g.played, g.createdAt)
  }

  /** Every game is the image of a row, and mapping loses only the null/empty image distinction. */
  lemma MapRowRoundTrip(g: Game, row: GameRow)
    ensures MapRow(RowOf(g)) == g
    ensures row.image_url != Some("") ==> RowOf(MapRow(row)) == row
  {
  }

  /** Two rows map to the same game exactly when they differ at most in a null vs. empty image. */
  lemma MapRowInjective(a: GameRow, b: GameRow)
    requires a.image_url != Some("") && b.image_url != Some("")
    ensures MapRow(a) == MapRow(b) <==> a == b
  {
    if MapRow(a) == MapRow(b) {
      MapRowRoundTrip(MapRow(a), a);
      MapRowRoundTrip(MapRow(b), b);
    }
  }

  /** `games.map(...)`: one mapped game per row, in row order. */
  function MapRows(rows: seq<GameRow>): (r: seq<Game>)
    ensures |r| == |rows|
    ensures forall i :: 0 <= i < |rows| ==> r[i] == MapRow(rows[i])
  {
    if rows == [] then [] else [MapRow(rows[0])] + MapRows(rows[1..])
  }

  /** GET: the mapped list, or 500 when `getAllGames` throws. */
  function HandleGet(fetched: Option<seq<GameRow>>): (resp: Response)
    ensures fetched.None? <==> resp == ServerError
    ensures fetched.Some? ==> resp.Listed? && |resp.games| == |fetched.value|
    ensures fetched.Some? ==> forall i :: 0 <= i < |fetched.value| ==>
      resp.games[i] == MapRow(fetched.value[i])
  {
    if fetched.None? then ServerError else Listed(MapRows(fetched.value))
  }

  // ---------------------------------------------------------------------------------------
  // Identifiers from the clock
  // ---------------------------------------------------------------------------------------

  function DigitChar(d: nat): (c: char)
    requires d < 10
    ensures '0' <= c <= '9'
  {
    "0123456789"[d]
  }

  function DigitValue(c: char): nat {
    if '0' <= c <= '9' then (c - '0') as nat else 0
  }

  /** `n.toString()` for a non-negative integer: its decimal digits, without leading zeros. */
  function DecimalString(n: nat): (s: seq<char>)
    ensures |s| >= 1
    ensures forall i :: 0 <= i < |s| ==> '0' <= s[i] <= '9'
    ensures |s| > 1 ==> s[0] != '0'
  {
    if n < 10 then [DigitChar(n)] else DecimalString(n / 10) + [DigitChar(n % 10)]
  }

  /** The number a string of decimal digits stands for. */
  function DecimalValue(s: seq<char>): nat {
    if s == [] then 0 else 10 * DecimalValue(s[..|s| - 1]) + DigitValue(s[|s| - 1])
  }

  /** Reading the id back gives the clock value it was made from. */
  lemma {:induction false} DecimalRoundTrip(n: nat)
    ensures DecimalValue(DecimalString(n)) == n
  {
    if n >= 10 {
      var s := DecimalString(n);
      assert s[..|s| - 1] == DecimalString(n / 10);
      DecimalRoundTrip(n / 10);
    }
  }

  /** Distinct clock values give distinct ids (equal clock values give equal ids). */
  lemma DecimalInjective(m: nat, n: nat)
    ensures DecimalString(m) == DecimalString(n) <==> m == n
  {
    DecimalRoundTrip(m);
    DecimalRoundTrip(n);
  }

  // ---------------------------------------------------------------------------------------
  // POST
  // ---------------------------------------------------------------------------------------

  /**
   * The defaulting POST applies in place: `if (!game.id) game.id = Date.now().toString()` and
   * `if (!game.createdAt) game.createdAt = Date.now()`, the two reads of the clock being
   * `idClock` and `createdClock`.
   */
  function WithDefaults(game: Game, idClock: nat, createdClock: int): (g: Game)
    ensures g.id != "" && g.createdAt.Some?
    ensures createdClock != 0 ==> g.createdAt != Some(0)
    ensures g.name == game.name && g.description == game.description && g.addedBy == game.addedBy
  {
    var g := if game.id == "" then game.(id := DecimalString(idClock)) else game;
    if g.createdAt.None? || g.createdAt == Some(0) then g.(createdAt := Some(createdClock)) else g
  }

  /**
   * A supplied id and a truthy `createdAt` are kept; a missing id becomes the decimal clock
   * value and a missing or zero `createdAt` becomes the clock; nothing else changes.
   */
  lemma DefaultsLaws(game: Game, idClock: nat, createdClock: int)
    ensures var g := WithDefaults(game, idClock, createdClock);
      && (game.id != "" ==> g.id == game.id)
      && (game.id == "" ==> g.id == DecimalString(idClock) && g.id != "")
      && (game.createdAt.Some? && game.createdAt != Some(0) ==> g.createdAt == game.createdAt)
      && (game.createdAt.None? || game.createdAt == Some(0) ==> g.createdAt == Some(createdClock))
      && g.(id := game.id, createdAt := game.createdAt) == game
  {
  }

  /** Applying the defaults to a record that already has them changes nothing. */
  lemma DefaultsIdempotent(game: Game, idClock: nat, createdClock: int, idClock': nat, createdClock': int)
    requires createdClock != 0
    ensures var g := WithDefaults(game, idClock, createdClock);
      WithDefaults(g, idClock', createdClock') == g
  {
  }

  /**
   * POST. `body` is the result of `request.json()`: `None` when the body is not JSON or is
   * `null`, so that `request.json()` or the read of `game.name` throws and the `catch` answers
   * 500. An empty `name`, `description` or `addedBy` gives 400 and nothing is written.
   * Otherwise the defaulted record is written (`written`); `stored` is what `addGameToDb` gave
   * back, and `null` (or a throw) gives 500 instead of 201.
   */
  method HandlePost(body: Option<Game>, idClock: nat, createdClock: int, stored: Option<GameRow>)
    returns (resp: Response, written: Option<Game>)
    ensures body.None? ==> resp == ServerError && written == None
    ensures body.Some? && !HasRequiredFields(body.value.name, body.value.description, body.value.addedBy) ==>
      resp == BadRequest && written == None
    ensures body.Some? && HasRequiredFields(body.value.name, body.value.description, body.value.addedBy) ==>
      written == Some(WithDefaults(body.value, idClock, createdClock))
    ensures body.Some? && HasRequiredFields(body.value.name, body.value.description, body.value.addedBy) ==>
      if stored.Some? then resp == Created(MapRow(stored.value)) else resp == ServerError
    ensures Status(resp) == 201 ==> written.Some? && stored.Some?
  {
    if body.None? {
      return ServerError, None;
    }
    var game := body.value;
    if game.name == "" || game.description == "" || game.addedBy == "" {
      return BadRequest, None;
    }
    var g := game;
    if g.id == "" {
      g := g.(id := DecimalString(idClock));
    }
    if g.createdAt.None? || g.createdAt == Some(0) {
      g := g.(createdAt := Some(createdClock));
    }
    written := Some(g);
    if stored.None? {
      return ServerError, written;
    }
    resp := Created(MapRow(stored.value));
  }
}
