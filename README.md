# rePINGO da Peixada — a verified model of the game catalog and its draw

The application keeps a catalog of games, shows it in a fixed order (unplayed games first,
newest first; then played games, oldest first) and draws a random unplayed game with an
animated progress bar, remembering the last drawn game on the server. This project models,
in Dafny, the four places where that behaviour lives:

- **Catalog state** (`components/game-library.tsx`): the `Game` record, the `sortedGames`
  order, the `unplayedGames` filter, and the handlers that change the in-memory `games` list and
  its two aliases `selectedGame` and `gameToView` once the repository has answered
  (module `GameLibrary`, class `Library`; the order and the filter are in module `GameOrder`,
  the record in module `Games`).
- **Draw progress** (`components/game-progress.tsx`): the counter reset when a draw starts, the
  capped tick, the completion guard and the random index (module `GameProgress`, class
  `Progress`).
- **Games route** (`app/api/games/route.ts`): GET's row mapping, POST's required-field check and
  the defaulting of `id` and `createdAt` (module `GamesRoute`).
- **Selected-game route** (`app/api/selected-game/route.ts`): POST's validation, existence check
  and delete-all-then-insert-one, and GET's latest selection (module `SelectedGameRoute`, class
  `SelectedGameStore`).

Everything outside the program's own logic is a parameter. Repository answers are
`Option<Game>` or `bool`, because `lib/api.ts` reports failure by returning `null` or `false`.
Database results and faults, `Date.now()` and `Math.random()` (a real in `[0, 1)`) are
parameters too. The React effects and timers of the progress bar become the explicit methods
`Render`, `Tick` and `Complete`. The ghost field `Library.requests` records which repository
calls a handler made, so "no call is made" can be stated.

Behaviour of the code worth noting:

- A failed update, delete or toggle is silent. `updateGame`, `deleteGame` and `toggleGamePlayed`
  never throw, so the `catch` branches that would show an error cannot run. Only a failed add
  shows an error, because `handleAddGame` throws on `null` itself.
- Deleting the game that is open in the details view closes the view but leaves `gameToView`
  set.
- The draw does not freeze its candidates. `Progress.games` is the live `unplayedGames` prop,
  which `Render` replaces.
- Nothing makes generated ids unique. The id is the decimal clock value, and two games created
  in the same millisecond get the same id.
- The selected-game POST runs its delete and its insert outside a transaction. When the insert
  fails, the table is left empty.
- No text, player-count or Hydra filter exists, and no pagination. The list shows the whole
  sorted catalog.

## Model

| member | source | states |
|---|---|---|
| GameOrder.Compare | components/game-library.tsx:113-130 | a game of different status is never tied: the unplayed one comes first; two unplayed games tie exactly on equal `createdAt` (missing = 0) and the newer comes first; two played games likewise, the older first |
| GameOrder.Insert | components/game-library.tsx:113-130 | inserting a game into a list sorted by the comparator gives a sorted list with that game added (multiset) |
| GameOrder.SortedGames | components/game-library.tsx:112-131 | `sortedGames` is a permutation of `games` and is ordered by the comparator |
| GameOrder.SortedGamesLaws | components/game-library.tsx:111-130 | permutation; every unplayed game precedes every played one; unplayed `createdAt` (missing = 0) non-increasing; played non-decreasing |
| GameOrder.SortedUnique | components/game-library.tsx:113-130 | two sorted permutations of a list without ties are equal, so the laws fix the order except among equal-comparing games |
| GameOrder.UnplayedConcat | components/game-library.tsx:134-136 | the candidates of a concatenation are the candidates of each part, in turn, so the filter keeps catalog order |
| GameOrder.SortScenario | components/game-library.tsx:112-131 | A(unplayed, 100), B(played, 50), C(unplayed, 200) display as C, A, B |
| GameOrder.UnplayedGames | components/game-library.tsx:134-136 | a game is eligible for the draw exactly when it is in the catalog and unplayed, with as many copies as the catalog has; no game is added |
| GameLibrary.ReplaceById | components/game-library.tsx:267 | same length; every game with the id becomes the updated record, every other game is kept in place; an id-preserving record keeps the list of ids |
| GameLibrary.SetPlayedById | components/game-library.tsx:416 | same length and same ids; `played` becomes the new value on every game with the id and is kept on the others; no other field changes |
| GameLibrary.FindById | components/game-library.tsx:407 | `find` returns the first game with the id, and nothing exactly when no game has it |
| GameLibrary.FindUnique | components/game-library.tsx:407 | with unique ids, `find` returns the one game with the id |
| GameLibrary.RemoveById | components/game-library.tsx:304 | the filtered list keeps every copy of each game whose id differs and no game with the id, and adds nothing |
| GameLibrary.RemoveConcat | components/game-library.tsx:304 | filtering a concatenation concatenates the filtered parts, so the kept games stay in list order |
| GameLibrary.RemoveAbsent | components/game-library.tsx:304 | removing an id nobody has leaves the list unchanged |
| GameLibrary.UpdateKeepsIds | components/game-library.tsx:267 | an update with an id-preserving record keeps the list of ids, and so keeps them unique |
| GameLibrary.UpdatePreservesSync | components/game-library.tsx:266-277 | after an update the aliases still agree with the list's games of the same id |
| GameLibrary.DeletePreservesSync | components/game-library.tsx:303-310 | after a delete no game has the id and the aliases still agree with the list |
| GameLibrary.DeleteUndoesAdd | components/game-library.tsx:222 | adding a game with a fresh id and then deleting that id restores the catalog |
| GameLibrary.AddPreservesSync | components/game-library.tsx:222 | prepending a game keeps the aliases in agreement unless its id collides with a different alias |
| GameLibrary.TogglePreservesSync | components/game-library.tsx:415-426 | a toggle flips `played` on the list and the aliases alike, keeping them in agreement |
| GameLibrary.FlipTwiceOnList | components/game-library.tsx:407-416 | with unique ids, setting one game's `played` to the opposite and back restores the list, and `find` sees the flipped game in between |
| GameLibrary.ToggleTwiceRestores | components/game-library.tsx:406-426 | with unique ids and agreeing aliases, two confirmed toggles of one id restore list and aliases |
| GameLibrary.ParsedOrOne | components/game-library.tsx:190 | the parsed player count is never 0: an unparsable or zero input becomes 1, any other parse is kept |
| GameLibrary.Library.constructor | components/game-library.tsx:77-106 | the initial state: empty catalog, no aliases, the form at its defaults, no dialogs, no draw |
| GameLibrary.Library.LoadGames | components/game-library.tsx:139-162 | the fetched list replaces `games`, a restored selection replaces `selectedGame`; a rejected init only raises the error banner |
| GameLibrary.Library.HandleNumberChange | components/game-library.tsx:189-192 | only the form's `maxPlayers` changes, to the parsed value or 1 |
| GameLibrary.Library.HandleEditNumberChange | components/game-library.tsx:194-198 | with an open edit only its `maxPlayers` changes; without one nothing does |
| GameLibrary.Library.HandleViewGameDetails | components/game-library.tsx:391-394 | the game becomes `gameToView` and the details view opens |
| GameLibrary.Library.HandleEditGame | components/game-library.tsx:396-399 | the game becomes the open edit |
| GameLibrary.Library.HandleConfirmDelete | components/game-library.tsx:401-404 | the game becomes `gameToDelete` and the confirmation opens |
| GameLibrary.Library.HandleAddGame | components/game-library.tsx:200-249 | incomplete form: no call, nothing changes; stored game: prepended, form reset to defaults (4 players, unplayed); `null`: nothing changes, error shown |
| GameLibrary.Library.HandleUpdateGame | components/game-library.tsx:251-295 | no edit or incomplete edit: no call, nothing changes; a record replaces games with the id and refreshes matching aliases; `null` changes nothing |
| GameLibrary.Library.HandleDeleteGame | components/game-library.tsx:297-333 | success removes every game with the id, clears a matching selection and closes a matching details view; failure keeps the list; `gameToDelete` is cleared either way |
| GameLibrary.Library.HandleToggleGamePlayed | components/game-library.tsx:406-441 | unknown id: no call, no change; confirmed: `played` flipped on the matching games and aliases; unconfirmed: no change |
| GameLibrary.Library.HandleSpin | components/game-library.tsx:366-377 | the draw starts exactly when some game is unplayed; otherwise a notice and no change |
| GameLibrary.Library.HandleSelectionComplete | components/game-library.tsx:379-389 | the winner becomes the selection and the draw ends before the save request, whatever the save answers |
| GameProgress.Step | components/game-progress.tsx:33-36 | one tick adds 1 below 100 and stays at 100 from 100 on |
| GameProgress.Ticks | components/game-progress.tsx:32-37 | repeated ticks from a counter in `[0, 100]` never decrease it and never pass 100, and a full counter stays full |
| GameProgress.TicksClimb | components/game-progress.tsx:32-37 | `k` ticks from a counter in `[0, 100]` give `min(p + k, 100)`: it climbs by one, never passes or skips 100 |
| GameProgress.DrawLength | components/game-progress.tsx:31-37 | from 0 the counter is `k` for `k < 100` ticks and 100 from the 100th tick on |
| GameProgress.RandomIndex | components/game-progress.tsx:47 | `floor(random * n)` lies in `[0, n)` |
| GameProgress.WinnerIsUnplayed | components/game-progress.tsx:47-48 | a draw over `unplayedGames` of a catalog with an unplayed game picks an unplayed game of that catalog |
| GameProgress.Progress.constructor | components/game-progress.tsx:16 | the counter starts at 0 |
| GameProgress.Progress.Render | components/game-progress.tsx:18-23 | new props; the counter resets to 0 exactly when `isSelecting` turns true |
| GameProgress.Progress.Tick | components/game-progress.tsx:26-40 | while selecting with candidates, the counter becomes `min(prev + 1, 100)`; otherwise it is untouched; it stays in `[0, 100]` and never decreases |
| GameProgress.Progress.Complete | components/game-progress.tsx:43-53 | a winner is drawn exactly when selecting, at 100 and with candidates, and it is the candidate at the random index |
| GamesRoute.MapRow | app/api/games/route.ts:72-82 | each snake_case column becomes the camelCase field of the same value; the image is `""` exactly when the column is null or empty, and the column's text otherwise |
| GamesRoute.MapRows | app/api/games/route.ts:11-21 | one mapped game per row, in row order |
| GamesRoute.MapRowRoundTrip | app/api/games/route.ts:72-82 | the renaming loses nothing but the difference between a null and an empty `image_url` |
| GamesRoute.MapRowInjective | app/api/games/route.ts:72-82 | rows without an empty `image_url` map to the same game exactly when they are equal |
| GamesRoute.HandleGet | app/api/games/route.ts:6-36 | 200 with the mapped rows, or 500 exactly when `getAllGames` throws |
| GamesRoute.DecimalString | app/api/games/route.ts:57 | the clock's `toString()` is a non-empty string of decimal digits without leading zeros |
| GamesRoute.DecimalRoundTrip | app/api/games/route.ts:57 | reading a generated id as a number gives back the clock value |
| GamesRoute.DecimalInjective | app/api/games/route.ts:57 | ids from different clock values differ |
| GamesRoute.WithDefaults | app/api/games/route.ts:55-62 | the defaulted record always has an id and a `createdAt`, non-zero for a non-zero clock, and keeps the required fields |
| GamesRoute.DefaultsLaws | app/api/games/route.ts:55-62 | a supplied id and a truthy `createdAt` are kept; a missing id becomes the clock string; a missing or 0 `createdAt` becomes the clock; other fields unchanged |
| GamesRoute.DefaultsIdempotent | app/api/games/route.ts:55-62 | defaulting a defaulted record changes nothing |
| GamesRoute.HandlePost | app/api/games/route.ts:39-97 | a body that is not JSON or is `null`: 500 and no write; missing name, description or addedBy: 400 and no write; otherwise the defaulted record is written, and a `null` result gives 500, never 201 |
| SelectedGameRoute.Latest | app/api/selected-game/route.ts:10-15 | the joined row with the greatest `selected_at`, or none exactly when no row joins a game |
| SelectedGameRoute.LatestGame | app/api/selected-game/route.ts:10-23 | the game of a latest joined selection, or none exactly when no selection joins a game |
| SelectedGameRoute.LatestOfSingleton | app/api/selected-game/route.ts:56-57 | a table holding only the new selection answers with that game |
| SelectedGameRoute.SelectedGameStore.HandleGet | app/api/selected-game/route.ts:5-34 | the latest selection's game, 404 when there is none, 500 when the query throws |
| SelectedGameRoute.SelectedGameStore.HandlePost | app/api/selected-game/route.ts:37-70 | a body that is not JSON or is `null`: 500; no id: 400; unknown game: 404; these leave the table alone; success leaves exactly one row, for that game, and GET then returns it; at most one row stays at most one |

## Left out

- `lib/api.ts`: the fetch wrappers are HTTP input and output. Only their failure convention is
  kept: `null` or `false` becomes a method parameter.
- `lib/db.ts`, `app/api/init/route.ts` and the undefined `getAllGames` / `addGameToDb`: these are
  pool setup, credentials, DDL and SQL. Their outcomes are parameters. The `ON DELETE CASCADE` of
  `selected_game` is not modelled, so `HandleGet` joins explicitly instead.
- `app/api/games/[id]/route.ts`, `app/api/debug/route.ts` and `app/diagnostico/page.tsx`: these
  are other routes, an environment probe and a page, and are not part of this model.
- Rendering: `components/game-list.tsx`, `game-card.tsx`, `game-details.tsx`, `app/page.tsx` and
  the JSX of the two core components.
- Export and import (`exportGamesToFile`, `importGamesFromFile`): these are browser file I/O and
  `JSON.parse`.
- The password gates: `handleDrawClick` repeats `handleSpin`'s eligibility check and opens the
  password dialog; `handleDrawPasswordSubmit` and `handleDiagnosticSubmit` are fixed string
  comparisons in front of `handleSpin` and a navigation. Their field setters are left out too.
- The generic form setters `handleInputChange`, `handleEditInputChange`, `handleCheckboxChange`
  and `handleEditCheckboxChange` write one field by name.
- `HandleNumberChange`, `HandleEditNumberChange`: take the result of `Number.parseInt` as a
  parameter (`None` for NaN). The parsing of the input text is not modelled.
- The `Library` handlers are modelled as atomic steps. In the source each async handler writes
  back a list built from the `games` it read before its `await`, so two overlapping handlers
  (two toggles clicked before the first answer arrives, say) can lose one update. Interleaved
  calls working on stale state are not modelled.
- Timers and effect scheduling: `setInterval`, `setTimeout`, effect cleanup and the question of
  whether the completion fires once. Only the guard of the completion is modelled.
- JavaScript numbers are unbounded integers here. `maxPlayers`, `createdAt` and the clock are
  doubles in the source, with NaN, fractions and rounding, and none of that is modelled.
- SortedGamesLaws: does not state that the sort is stable. `SortedGames` is a stable insertion
  sort, like `Array.prototype.sort`, but the contracts fix the order only up to ties
  (`SortedUnique`).
