# Sports casino mini platform: a Dafny model

This project models the core of a catalogue of sports fixtures with per-user favorites. The backend keeps three tables:

- **User**: registered accounts, each with a hashed password.
- **Game**: a catalogue of matches, each with a sport and a league.
- **Favorite**: rows saying that a user has starred a game.

The backend has four handlers:

- `register` and `login` for accounts;
- `getGames`, the catalogue with an optional exact-match sport filter, where each game is annotated with the requesting user's `isFavorite` flag;
- `toggleFavorite`, which deletes the user's row for a game if there is one and creates it otherwise;
- `getFavorites`, the user's starred games.

The client's games page keeps the loaded list in component state. Over it, it applies two filters:

- a sport filter that ignores case;
- a favorites-only filter.

It also flips a game's flag locally once a toggle has gone through. It offers one button per distinct sport, after `'all'`, and derives a CSS class for each sport badge.

Tables are sequences of rows in storage order. Autoincrement ids are a `nextId` counter starting at 1. Prisma's queries become functions over those sequences. The source gives none of its reads an `orderBy`; the model fixes their order to storage order (see "## Left out"):

- `findFirst`: the first match in storage order;
- `findUnique`: the one row with the key;
- `delete` by id;
- `create`: appending a fresh row. For a game that does not exist, the foreign key makes it fail.

The tables that change in place, the Favorite table and the User table, are classes (`FavoriteTable`, `UserTable`) whose methods are tied to pure transition functions (`Toggle`, `RegisterOutcome`). The page state is the class `GamesView`. Its methods are the page handlers followed by the filter effect.

Request fields are `Option<string>`. JavaScript's falsiness of a missing or empty field is `!Truthy(f)`.

bcrypt's `hash` and `compare` and jsonwebtoken's `sign` are functions the caller passes in (`AuthController.Crypto`). The model assumes one thing about them, `HashSound`: a password matches its own hash.

Modules:

- `Sequences`: `Array.prototype.filter`, subsequences, and the insertion order of a `Set`.
- `JsString`: `toLowerCase` and `replace(/\s+/g, '-')`.
- `Schema`: rows, reply shapes and shared table queries.
- `FavoritesController`, `GamesController` and `AuthController`: one per backend controller; `GamesPage`: the client's games page.
- `System`: properties that span components, and the seeded catalogue.

Two behaviours of the code worth noting:

- When loading games fails, the page shows the server's `message` if the error response carries a non-empty one, and "Failed to load games" when the reply's message is absent or empty (`frontend/src/pages/Games.jsx:29`).
- Creating a favorite for a game id that does not exist fails at the foreign key and is answered 500 "Error toggling favorite" (`backend/src/controllers/favorites.controller.js:19-26`).

## Model

| member | source | states |
|---|---|---|
| Sequences.Filter | frontend/src/pages/Games.jsx:39-45 | `filter` never returns more elements than its input has. |
| Sequences.FilterMembers | frontend/src/pages/Games.jsx:39-45 | `filter` keeps exactly the elements of its input that satisfy the predicate. |
| Sequences.FilterIsSubsequence | frontend/src/pages/Games.jsx:39-45 | `filter` keeps the survivors in their original order, so its result is an order-preserving subsequence of its input. |
| Sequences.FilterFilter | frontend/src/pages/Games.jsx:36-46 | Two successive filters keep exactly what one filter by the conjunction keeps. |
| Sequences.InsertionOrder | frontend/src/pages/Games.jsx:70 | `[...new Set(xs)]` holds exactly the values of `xs`, each once. |
| Sequences.InsertionOrderIsFirstOccurrenceOrder | frontend/src/pages/Games.jsx:70 | The values of the `Set` come out in the order of their first occurrence in `xs`. |
| Sequences.InsertionOrderNewRun | frontend/src/pages/Games.jsx:70 | Appending a run of one value the `Set` has not seen adds that value once, at the end. |
| JsString.ToLowerCase | frontend/src/pages/Games.jsx:40 | Lower-casing keeps the length, maps each upper-case ASCII letter to its own lower-case letter and keeps every other character, so no upper-case letter is left and whitespace stays whitespace. |
| JsString.HyphenateSpaces | frontend/src/pages/Games.jsx:73 | `replace(/\s+/g, '-')` never lengthens a string, and its result is empty exactly when the input is. |
| JsString.HyphenateLength | frontend/src/pages/Games.jsx:73 | Character by character, the replacement emits at most one character per input character, and outside a whitespace run a non-empty input gives a non-empty output. |
| JsString.HyphenateLeavesNoSpaces | frontend/src/pages/Games.jsx:73 | After `replace(/\s+/g, '-')` no whitespace is left, and every character is a hyphen or a character of the input. |
| JsString.HyphenateRun | frontend/src/pages/Games.jsx:73 | A maximal whitespace run between two other pieces becomes exactly one hyphen, and the pieces are replaced independently. |
| JsString.HyphenateConcat | frontend/src/pages/Games.jsx:73 | The global replacement works left to right: a concatenation is replaced piecewise, carrying the run state across. |
| JsString.HyphenateWithoutSpaces | frontend/src/pages/Games.jsx:73 | A string without whitespace is left unchanged. |
| JsString.HyphenateIdempotent | frontend/src/pages/Games.jsx:73 | Replacing twice is the same as replacing once. |
| Schema.Truthy | backend/src/controllers/auth.controller.js:11 | JavaScript falsiness of a request field: exactly an absent field and the empty string are falsy. The missing-field tests of lines 11 and 37 and the `sport ?` test of `backend/src/controllers/games.controller.js:9` are all this. |
| Schema.WithoutPassword | backend/src/controllers/auth.controller.js:26 | The strip `const { password: _, ...userWithoutPassword } = user` (also line 49) keeps the id, name and email of the row and drops the password. |
| Schema.UserRows | backend/src/controllers/favorites.controller.js:33-34 | `findMany({ where: { userId } })` returns only rows of the table that belong to the user, and every such row. |
| Schema.HasPairOfUserRows | backend/src/controllers/games.controller.js:10-14 | Whether a user has a favorite row for a game depends only on that user's own rows. |
| Schema.PairsRemoveAt | backend/src/controllers/favorites.controller.js:15 | Under pair uniqueness, removing a row removes its (user, game) pair from the table's set of pairs. |
| Schema.GameOf | backend/src/controllers/favorites.controller.js:35-37 | The game a favorite's foreign key names is a row of the Game table with that id. |
| Schema.GameOfUnique | backend/src/controllers/favorites.controller.js:35-37 | When game ids are unique, the joined game is the one row with that id. |
| FavoritesController.Status | backend/src/controllers/favorites.controller.js:14-25 | A toggle is answered 500 exactly when it failed, and 200 otherwise. |
| FavoritesController.Message | backend/src/controllers/favorites.controller.js:14-25 | The messages "Added to favorites", "Removed from favorites" and "Error toggling favorite" each belong to exactly one outcome. |
| FavoritesController.FindFirst | backend/src/controllers/favorites.controller.js:10-12 | `findFirst` finds nothing iff no row has the pair; otherwise it finds the first row in table order that has it. |
| FavoritesController.Toggle | backend/src/controllers/favorites.controller.js:5-27 | The reply is `removed` iff the pair had a row. It is `added` iff the pair had none and the game exists, in which case exactly the row (nextId, user, game) is appended. A failed create (500) changes nothing. |
| FavoritesController.DeleteById | backend/src/controllers/favorites.controller.js:15 | `delete({ where: { id } })` leaves no row with that id and keeps every other row. |
| FavoritesController.ToggleRemovesFoundRow | backend/src/controllers/favorites.controller.js:10-16 | A removing toggle deletes exactly the row `findFirst` found, and nothing else. |
| FavoritesController.DeleteByUniqueId | backend/src/controllers/favorites.controller.js:15 | When ids increase along the table, deleting by a row's id removes that one row. |
| FavoritesController.TogglePreservesWellFormed | backend/src/controllers/favorites.controller.js:15-21 | A toggle keeps ids increasing and below the next autoincrement id. |
| FavoritesController.TogglePreservesPairsUnique | backend/src/controllers/favorites.controller.js:10-23 | With toggles run one at a time, at most one row per (user, game) pair before a toggle means at most one after. |
| FavoritesController.TogglePreservesReferences | backend/src/controllers/favorites.controller.js:19-21 | Every favorite still names an existing game after a toggle. |
| FavoritesController.ToggleKeepsOtherRows | backend/src/controllers/favorites.controller.js:10-23 | Rows for any other user or any other game come out unchanged, in the same order and with the same ids. |
| FavoritesController.TogglePairs | backend/src/controllers/favorites.controller.js:10-23 | As a set of pairs, a toggle removes the pair if present and adds it if absent (the game existing); no other pair changes. |
| FavoritesController.ToggleTwice | backend/src/controllers/favorites.controller.js:10-23 | Two toggles of the same pair in sequence restore the set of pairs. Removed is followed by added, and added by removed. An add and then a remove restore the very same rows. |
| FavoritesController.GetFavorites | backend/src/controllers/favorites.controller.js:29-49 | One element per favorite row of the user, in table order. Each element is that row's game from the Game table, with `isFavorite` true. |
| FavoritesController.GetFavoritesAt | backend/src/controllers/favorites.controller.js:40-43 | Element `i` of the reply is the joined game of the user's `i`-th row, spread with `isFavorite: true`. |
| FavoritesController.GetFavoritesExactlyTheUsers | backend/src/controllers/favorites.controller.js:33-43 | Every listed game has a favorite row of the user, and every game the user has a row for is listed. |
| FavoritesController.FavoriteTable.constructor | backend/src/controllers/favorites.controller.js:5-27 | The table starts empty, with the autoincrement at 1. |
| FavoritesController.FavoriteTable.ToggleFavorite | backend/src/controllers/favorites.controller.js:5-27 | The new table, counter and reply are those of `Toggle`. The table stays well formed, and pair uniqueness and foreign keys are preserved. |
| GamesController.Selected | backend/src/controllers/games.controller.js:8-9 | The `findMany` read never returns more rows than the table has. |
| GamesController.SelectedMembers | backend/src/controllers/games.controller.js:8-9 | `where: sport ? { sport } : {}` selects every row when `sport` is falsy, and otherwise exactly the rows whose sport equals it. |
| GamesController.GetGames | backend/src/controllers/games.controller.js:5-27 | Each returned game is a Game row, with every own column kept and `isFavorite` set iff the user has a favorite row for it. With a truthy `sport`, every returned game has that sport. |
| GamesController.GetGamesUnfiltered | backend/src/controllers/games.controller.js:9 | Without a truthy `sport`, every game is returned, in table order. |
| GamesController.GetGamesUnfilteredAt | backend/src/controllers/games.controller.js:8-21 | Without a truthy `sport`, the reply has one element per game, and element `i` is game `i` with `isFavorite` set iff the user has a row for it. |
| GamesController.GetGamesBySport | backend/src/controllers/games.controller.js:9 | With a non-empty `sport`, a game is returned iff its sport equals it exactly, case included, as under a case-sensitive collation. |
| GamesController.GetGamesOrderPreserving | backend/src/controllers/games.controller.js:8-17 | The reply is an order-preserving subsequence of the Game table. |
| GamesController.GetGamesIgnoresOtherUsers | backend/src/controllers/games.controller.js:10-14 | Favorite tables that agree on this user's rows give the same reply, so other users' favorites never matter. |
| AuthController.FindByEmail | backend/src/controllers/auth.controller.js:15 | The email lookup finds nothing iff no user has that email; otherwise it finds a user with it. |
| AuthController.FindByEmailUnique | backend/src/controllers/auth.controller.js:41 | Under the unique email index, the lookup finds the one user with that email. |
| AuthController.RegisterReply.Status | backend/src/controllers/auth.controller.js:11-27 | A registration is answered 201; both refusals are answered 400. |
| AuthController.RegisterReply.Message | backend/src/controllers/auth.controller.js:11-27 | "All fields are required", "User already exists" and "User registered successfully" each belong to exactly one outcome, so the two 400s are told apart by their message. |
| AuthController.RegisterOutcome | backend/src/controllers/auth.controller.js:7-31 | 400 "All fields are required" iff a field is missing or empty, and 400 "User already exists" iff all are present and the email is taken; both leave the table unchanged. Otherwise exactly the row (nextId, name, email, hash(password)) is appended, and the reply carries id, name and email only. |
| AuthController.RegisterReplyIsStoredRow | backend/src/controllers/auth.controller.js:20-27 | The 201 reply's user is the stored row without its password column, and the stored password is the hash. |
| AuthController.RegisterPreservesWellFormed | backend/src/controllers/auth.controller.js:15-24 | Registration keeps emails unique and ids increasing below the next id. |
| AuthController.UserTable.constructor | backend/src/controllers/auth.controller.js:22-24 | The table starts empty, with the autoincrement at 1. |
| AuthController.UserTable.Register | backend/src/controllers/auth.controller.js:7-31 | The new table, counter and reply are those of `RegisterOutcome`, and the table stays well formed. |
| AuthController.LoginReply.Status | backend/src/controllers/auth.controller.js:37-50 | 400 exactly for missing credentials, 401 exactly for refused ones, 200 exactly for a success. |
| AuthController.LoginReply.Message | backend/src/controllers/auth.controller.js:37-50 | An error reply carries "Email and password are required" or "Invalid credentials", one per error; a success carries no message. |
| AuthController.Login | backend/src/controllers/auth.controller.js:33-54 | 400 iff email or password is missing or empty. A success is for a user with that email whose stored hash matches the password, and returns the token `sign(id)` and the user without the password. |
| AuthController.LoginMissingIgnoresTable | backend/src/controllers/auth.controller.js:37-39 | With a credential missing, the reply is 400 whatever the table holds. |
| AuthController.LoginUnknownEmail | backend/src/controllers/auth.controller.js:41-45 | An unknown email gets 401 "Invalid credentials". |
| AuthController.LoginWrongPassword | backend/src/controllers/auth.controller.js:41-45 | A wrong password for an existing user gets the very same reply as an unknown email. |
| AuthController.LoginSuccess | backend/src/controllers/auth.controller.js:43-50 | The right password gives the token for the user's id and the user without the password. |
| AuthController.RegisterThenLogin | backend/src/controllers/auth.controller.js:20-50 | Given that a password matches its own hash, logging in with the credentials just registered succeeds, with the registered user. |
| GamesPage.Visible | frontend/src/pages/Games.jsx:35-49 | What `applyFilters` shows is never longer than the loaded list, and every shown game is loaded, matches the lower-cased filter unless it is `'all'`, and is a favorite when favorites-only is on. |
| GamesPage.VisibleUnfiltered | frontend/src/pages/Games.jsx:35-48 | With filter `'all'` and favorites-only off, the shown list equals the loaded list. |
| GamesPage.VisibleMembers | frontend/src/pages/Games.jsx:36-46 | A game is shown iff it is loaded, its lower-cased sport equals the lower-cased filter (unless the filter is `'all'`), and it is a favorite when favorites-only is on. |
| GamesPage.VisibleIsSubsequence | frontend/src/pages/Games.jsx:36-48 | The shown list is always an order-preserving subsequence of the loaded list. |
| GamesPage.Flip | frontend/src/pages/Games.jsx:55-59 | The local update keeps the list's length. |
| GamesPage.FlipChangesOnlyTarget | frontend/src/pages/Games.jsx:55-59 | A game with the toggled id keeps its own columns and has `isFavorite` negated; every other game is unchanged in its place. |
| GamesPage.FlipInvolution | frontend/src/pages/Games.jsx:55-59 | Flipping the same game twice restores the list. |
| GamesPage.FlipChangesExactlyOne | frontend/src/pages/Games.jsx:55-59 | With distinct ids, exactly the one element with that id changes. |
| GamesPage.FlipAbsent | frontend/src/pages/Games.jsx:55-59 | Flipping an id that is not listed changes nothing. |
| GamesPage.SportsOf | frontend/src/pages/Games.jsx:70 | `games.map(g => g.sport)` has one label per game. |
| GamesPage.SportsOfMembers | frontend/src/pages/Games.jsx:70 | The labels are exactly the sports of the loaded games. |
| GamesPage.Sports | frontend/src/pages/Games.jsx:70 | The button list starts with `'all'`. |
| GamesPage.SportsDistinctInFirstOccurrenceOrder | frontend/src/pages/Games.jsx:70 | After `'all'`, exactly the sports of the loaded games are listed, each once, in first-occurrence order. |
| GamesPage.SportsNoDuplicatesIff | frontend/src/pages/Games.jsx:70 | The buttons repeat no label iff no game's sport is literally `'all'`. |
| GamesPage.BadgeClass | frontend/src/pages/Games.jsx:72-74 | `getBadgeClass` starts with `"game-badge badge-"`; its suffix is no longer than the sport and is empty exactly when the sport is. |
| GamesPage.BadgeClassWellFormed | frontend/src/pages/Games.jsx:72-74 | The class is `"game-badge badge-"` followed by a suffix with no whitespace and no upper-case letter. The suffix is made of hyphens and the sport's lower-cased characters. |
| GamesPage.BadgeClassOfWord | frontend/src/pages/Games.jsx:72-74 | A sport without whitespace gets its lower-cased name as the suffix. |
| GamesPage.GamesView.constructor | frontend/src/pages/Games.jsx:6-11 | The initial state: no games, loading, no error, filter `'all'`, favorites-only off. |
| GamesPage.GamesView.ApplyFilters | frontend/src/pages/Games.jsx:35-49 | The shown list becomes `Visible` of the loaded list and the filters, and nothing else changes. |
| GamesPage.GamesView.FetchGames | frontend/src/pages/Games.jsx:22-33 | On success the list is replaced and the error cleared. On failure the list is kept and the error is the server's message if truthy, else "Failed to load games". Loading ends either way. |
| GamesPage.GamesView.ToggleFavorite | frontend/src/pages/Games.jsx:51-63 | After a successful request the list is `Flip(old list, gameId)`. After a failed one the list and the shown list are unchanged and the error is "Failed to update favorite". |
| GamesPage.GamesView.SelectSport | frontend/src/pages/Games.jsx:113 | A sport button sets the filter and refreshes the shown list. |
| GamesPage.GamesView.ToggleFavoritesOnly | frontend/src/pages/Games.jsx:120 | The favorites-only button negates the flag and refreshes the shown list. |
| System.FavoritesAgreeWithListing | backend/src/controllers/favorites.controller.js:33-43 | The favorites list holds exactly the unfiltered listing's games flagged `isFavorite`, as equal objects. |
| System.OptimisticFlipMatchesServer | frontend/src/pages/Games.jsx:53-59 | After a toggle the server accepted, flipping the game locally gives exactly the listing the server would now return; after a failed one, the server's listing is unchanged. |
| System.SportFilterCaseMismatch | backend/src/controllers/games.controller.js:9 | For any catalogue and any non-empty query equal to a game's sport only up to case, the server's match under a case-sensitive collation leaves that game out, while the client's case-insensitive filter (`frontend/src/pages/Games.jsx:39-41`) keeps it. |
| System.SportFiltersDisagreeOnCase | backend/src/controllers/games.controller.js:9 | Under a case-sensitive collation the server matches `"cricket"` against `"Cricket"` and returns nothing, while the client's case-insensitive filter keeps the game. |
| System.SeedCatalogue | backend/prisma/seed.js:12-31 | The seeded catalogue has 12 games with distinct ids, and the page offers the buttons all, Cricket, Football, Tennis. |
| System.ShapedCatalogue | backend/prisma/seed.js:12-31 | A catalogue numbered from one has distinct ids, and its buttons are `'all'` followed by the distinct values of its sport column. |
| System.Session | backend/prisma/seed.js:12-31 | Against the seeded catalogue: register, a refused re-registration, then login give the token for id 1. Toggles reply added, added, removed, then 500 for a missing game. Favorites-only then shows game 5 alone. |

## Left out

- Database I/O: Prisma calls are replaced by functions over in-memory tables, and the seed script becomes the constant `System.SeedGames`.
- Database collation: `where: { sport }` (`backend/src/controllers/games.controller.js:9`) compares under the database's collation, which the source does not fix. The model compares strings exactly, as a case-sensitive collation does. `GamesController.GetGamesBySport`, `System.SportFilterCaseMismatch` and `System.SportFiltersDisagreeOnCase` assume such a collation. Under a case-insensitive one, the server's filter would agree with the client's filter on ASCII letters, and these three members would not describe it.
- Row order of reads: `findFirst` (`backend/src/controllers/favorites.controller.js:10`), the favorites `findMany` (`backend/src/controllers/favorites.controller.js:33`) and the games `findMany` (`backend/src/controllers/games.controller.js:8`) give no `orderBy`, so the database may return rows in any order, possibly a different one on each call. The model picks storage order, the same on every call. These claims rely on that choice: the "first row" of `FavoritesController.FindFirst`; the row order of `FavoritesController.GetFavorites`, `GamesController.GetGamesUnfiltered` and `GamesController.GetGamesOrderPreserving`; the position-by-position equality of two listings in `System.OptimisticFlipMatchesServer`; and the exact lists of `System.SeedCatalogue` and `System.Session`. The order of the page's own lists comes from the response the page receives and does not rely on it. Under `PairsUnique` at most one row has the pair, so for `FindFirst` the choice of order makes no difference.
- Storage failures other than the favorite's foreign key: the 500 replies of the `catch` blocks for a broken connection are not modelled.
- `Number(gameId)` parsing of the route parameter: the model takes the game id as an integer. A non-numeric parameter (`NaN`) is not modelled.
- Request bodies and queries whose fields are not strings (numbers, arrays such as `?sport=a&sport=b`): every field is absent or a string.
- The internals of bcrypt and jsonwebtoken are left out. The salt, the cost factor and the 7-day expiry are abstracted away: `hash`, `compare` and `sign` are functions passed in, and `hash` is deterministic.
- AuthController.Login: the token is `sign(id)`, and the secret and expiry are not modelled.
- Overlapping toggles on the page: `toggleFavorite` (`frontend/src/pages/Games.jsx:51-63`) maps over the `games` its render captured, not the current state. When two clicks are made before the first request has come back, with no re-render between them, both start from that stale list. For two different games, the second `setGames` overwrites the first flip while the server holds both toggles. For the same game clicked twice, the page shows one flip while the server is back where it started. `GamesView.ToggleFavorite` is modelled on the current list, one toggle at a time with a re-render between them, so the model cannot show this lost update. `System.OptimisticFlipMatchesServer` holds for such sequential toggles only.
- The race between concurrent toggles of the same pair: toggles are modelled one at a time. Pair uniqueness is proved under that assumption only. The controllers look the pair up with `findFirst`, not a compound `findUnique`, and the model assumes no unique constraint on (user, game).
- `DELETE /favorites/:gameId` is routed to the same toggle as `POST` (`backend/src/routes/favorites.routes.js:7`). It is modelled by the same `ToggleFavorite`.
- The authentication middleware is not part of this model: the requesting user's id is given.
- The Favorite row's foreign key to User is not modelled. The seed script deletes every user (`backend/prisma/seed.js:9`). After a reseed, a token that has not expired can still name a deleted user, and that user's toggle `create` then fails at this foreign key with a 500. In the model only a missing game leads to that 500.
- The seeded catalogue `System.SeedGames` carries the ids of a first seed on a fresh database. `deleteMany` (`backend/prisma/seed.js:7-9`) does not reset the autoincrement counters, so a reseed gives the same games ids above 12. `System.SeedCatalogue` and `System.Session` hold for the first seed only.
- `backend/prisma/schema.prisma` is not part of this model. The unique email index and the favorite-to-game foreign key are read off how the controllers query the tables.
- React plumbing is left out: rendering, hook scheduling, `useNavigate`, `handleLogout` and `localStorage`, and the axios client. Each page handler is modelled followed directly by the filter effect. `Valid` states that the effect has caught up.
- The loading screen and the empty-list messages are rendering and are not modelled.
- JsString.ToLowerCase: lower-cases ASCII letters only, not the full Unicode case mapping of `toLowerCase`. `\s` is modelled as the full ECMAScript whitespace and line-terminator set.
