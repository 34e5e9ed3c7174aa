# Movie booking system — verified model of its core

This project models the core of a movie booking system. The system is a React front end over a Flask back end with a relational database. The model covers six parts:

- **Seat selection** (`SeatSelection.js`): a 10 × 15 seat map. A visitor picks up to `seatCount` seats (1..8). Clicking a seat toggles it, and a full selection evicts its oldest seat first. Lowering the count truncates the selection, and confirming needs exactly `seatCount` seats. The model is the class `SeatSelection.SeatSelector`, holding an `array2<Seat>`, the ordered `selectedSeats` and `seatCount`. Its `Valid()` invariant ties each cell's `selected` flag to membership in `selectedSeats`.
- **Trigger script loader** (`apply_triggers.py`): a line-by-line splitter that understands `DELIMITER $$` blocks, the keyword dispatch that runs only trigger statements, and the guard the seat triggers install on the watchlist table.
- **Watchlist (cart) endpoints** (`watchlist.py`): aliased request keys, a read-modify-write that sums seats into an existing (user, movie) row or inserts one, deletion by id, and a per-user listing joined with movies.
- **User administration** (`users.py`): add, list, delete and update users behind an admin check. Errors come in a fixed order, and `update_user` builds a dynamic `SET` clause.
- **Movie administration** (`movies.py`): list by genre, add with defaults, update, delete, and purge to a fixed allow-list of titles together with dependent rows.
- **Home page** (`Home.js`): the case-insensitive title/description search filter and the logged-in guard of "add to cart".

The database is the class `Database.Db`. It holds one `seq` per table, an id counter for each of the three tables the model inserts into (users, movies, watchlist), and a flag saying whether the seat triggers are installed. Its `Valid()` holds the uniqueness of user ids, movie ids and watchlist ids (the tables the model inserts into or updates) and the `UNIQUE(email)` constraint, with each counter above every id of its table. Each handler that writes is a method on a `Db`. Its reply (`Ok`, `Fail(status, message)` or `DbError` for a statement the database refuses) is tied to a pure function of the old state, and its new tables are tied to pure table functions. Lemmas state the promised properties of those functions.

`handleSeatClick` and `handleSeatCountChange` apply no ceiling at the showing's available seats. The only limits on a seat selection are `seatCount` (1..8) and the database trigger on the watchlist table.

## Model

| member | source | states |
|---|---|---|
| SeatIds.SeatIdRoundTrip | frontend/src/components/SeatSelection.js:17 | Parsing a seat id with split('-').map(Number) gives back exactly the row and seat it was built from |
| SeatIds.SeatIdInjective | frontend/src/components/SeatSelection.js:17 | Two seat ids are equal exactly when their rows and seats are equal |
| SeatIds.DecimalRoundTrip | frontend/src/components/SeatSelection.js:51 | Number() of a non-negative integer's decimal rendering is that integer |
| SeatIds.Number | frontend/src/components/SeatSelection.js:51 | Number(s) is a value exactly when s is all decimal digits (NaN otherwise) |
| SeatIds.SeatId | frontend/src/components/SeatSelection.js:17 | The id `${row}-${seat}`: the two decimal renderings joined by '-' (its parse is stated by SeatIdRoundTrip) |
| SeatIds.SeatIdSplits | frontend/src/components/SeatSelection.js:17 | Splitting a seat id at '-' gives exactly the row's and the seat's decimal renderings |
| SeatIds.ParseSeatId | frontend/src/components/SeatSelection.js:51 | split('-').map(Number) gives a row and seat exactly when there are at least two pieces and the first two are digit runs (NaN otherwise) |
| SeatSelection.GenerateSeats | frontend/src/components/SeatSelection.js:7-30 | A fresh 10 × 15 grid; cell [r, s] has id "r+1-s+1", row r+1, seat s+1, the given occupancy and selected = false |
| SeatSelection.SeatSelector.constructor | frontend/src/components/SeatSelection.js:4-5 | Initial state: the generated grid, no seats selected, count 1; the invariant holds |
| SeatSelection.SeatSelector.Click | frontend/src/components/SeatSelection.js:34-62 | Keeps the invariant; the new selection is AfterClick of the old one; every cell's selected flag becomes membership of its id; an occupied seat changes nothing |
| SeatSelection.SeatSelector.Deselect | frontend/src/components/SeatSelection.js:43-45 | Clicking a selected seat clears its flag and removes exactly its id, other ids keeping their order |
| SeatSelection.SeatSelector.EvictOldest | frontend/src/components/SeatSelection.js:48-54 | With a full selection, the oldest id is dropped and the cell it names (found by parsing the id) is unselected |
| SeatSelection.SeatSelector.Append | frontend/src/components/SeatSelection.js:56-58 | A free, unselected seat is appended to the selection and flagged selected |
| SeatSelection.SeatSelector.RefreshFlags | frontend/src/components/SeatSelection.js:82-88 | Every cell keeps its id, position and occupancy, and its flag becomes whether its id is in the selection |
| SeatSelection.SeatSelector.SetSeatCount | frontend/src/components/SeatSelection.js:74-90 | Sets the count; a longer selection is truncated to its oldest ids and every flag recomputed as membership; otherwise nothing else changes |
| SeatSelection.SeatSelector.Confirm | frontend/src/components/SeatSelection.js:64-72 | A payload {movie_id, seats_selected, selected_seats} exactly when the selection length equals the count, nothing otherwise |
| SeatSelection.ConfirmSound | frontend/src/components/SeatSelection.js:163-166 | The confirm button is enabled exactly when a payload is produced; a payload holds 1..8 distinct ids of free grid seats |
| SeatSelection.Without | frontend/src/components/SeatSelection.js:45 | filter(s => s !== id) keeps exactly the other ids and never introduces duplicates |
| SeatSelection.WithoutRemovesOne | frontend/src/components/SeatSelection.js:45 | Removing an id that occurs once leaves the ids before and after it in order |
| SeatSelection.AfterClick | frontend/src/components/SeatSelection.js:34-62 | An occupied seat leaves the selection as it was; otherwise the clicked id ends up selected exactly when it was not; a selection within the count stays within it |
| SeatSelection.AfterCountChange | frontend/src/components/SeatSelection.js:77-79 | The new selection is a prefix of the old: all of it when it fits, otherwise exactly the first n ids |
| SeatSelection.AfterClickInvariant | frontend/src/components/SeatSelection.js:34-62 | A click keeps the length within the count and the ids distinct, adds only the clicked id, toggles the clicked id's membership, and leaves an occupied seat's click without effect |
| SeatSelection.AfterCountChangeKeepsOldest | frontend/src/components/SeatSelection.js:77-79 | A count change keeps a prefix of the selection (the oldest ids), within the new count, and changes nothing when the selection already fits |
| SeatSelection.FifoEviction | frontend/src/components/SeatSelection.js:48-58 | With count 2, clicking free seats A, B, C leaves [B, C] |
| Text.StripTrims | backend/apply_triggers.py:26 | str.strip() removes exactly the leading and trailing whitespace and leaves an infix of the line |
| Text.Strip | backend/apply_triggers.py:26 | The stripped line is no longer than the line and neither starts nor ends with white space |
| Text.StripBounds | backend/apply_triggers.py:26 | The stripped line is s[i..j] for bounds outside which every character of the line is white space |
| Text.Split | frontend/src/components/SeatSelection.js:51 | split always yields at least one piece |
| Text.SplitWithout | frontend/src/components/SeatSelection.js:51 | split of a text without the separator is that text alone |
| Text.SplitAtFirst | frontend/src/components/SeatSelection.js:51 | split at a separator yields the part before the first separator, followed by the split of the rest |
| TriggerScript.SplitStatements | backend/apply_triggers.py:21-47 | The statement list the loop builds equals the prefix-recursive specification Run over the lines |
| TriggerScript.Step | backend/apply_triggers.py:26-47 | One line never retracts a statement and adds at most one statement and at most one accumulated block line |
| TriggerScript.Run | backend/apply_triggers.py:21-47 | Over n lines at most n statements are emitted and at most n lines accumulated |
| TriggerScript.PlainStatement | backend/apply_triggers.py:44-47 | A plain line's statement is its stripped text, with one trailing ';' removed when present |
| TriggerScript.DelimiterLineSwitchesMode | backend/apply_triggers.py:28-33 | A DELIMITER line emits nothing, keeps the accumulator, and turns block mode on exactly when it contains "$$" |
| TriggerScript.BlockAccumulates | backend/apply_triggers.py:35-41 | Inside a block, non-terminator lines are accumulated unstripped and emit nothing |
| TriggerScript.StepInBlock | backend/apply_triggers.py:35-41 | Inside a block, a line that is neither "$$" nor a DELIMITER line is appended to the accumulator unstripped, and nothing else changes |
| TriggerScript.BlockEndFlushes | backend/apply_triggers.py:36-40 | A "$$" line flushes a non-empty accumulator as one newline-joined statement and resets it; an empty accumulator emits nothing |
| TriggerScript.WholeBlock | backend/apply_triggers.py:28-41 | DELIMITER $$, a body and $$ add exactly one statement: the body joined by newlines |
| TriggerScript.RunExtends | backend/apply_triggers.py:23-47 | Statements come out in source order: later lines only append to what earlier lines produced |
| TriggerScript.RunPrefix | backend/apply_triggers.py:23-47 | The statements after the first n lines are a prefix of the statements after all lines |
| TriggerScript.NoBlocksMeansOnePerLine | backend/apply_triggers.py:42-47 | Without DELIMITER lines, each non-empty line that is neither a comment nor USE becomes exactly one statement, in order |
| TriggerScript.PlainLineOutsideBlock | backend/apply_triggers.py:42-47 | Outside a block, after any earlier lines (blocks included), a non-DELIMITER line adds exactly its plain statement when it is non-empty and neither a comment nor USE, and nothing otherwise; block mode stays off and the accumulator is kept |
| TriggerScript.Classify | backend/apply_triggers.py:50-66 | Blank and comment statements are skipped; otherwise CREATE TRIGGER, DROP TRIGGER and SHOW TRIGGERS are tested in that order on the upper-cased text |
| TriggerScript.Executions | backend/apply_triggers.py:50-66 | The executed statements are exactly the classified ones, each with its index, in increasing index order |
| TriggerScript.TriggerStatementsExecuted | backend/apply_triggers.py:50-66 | Every statement classified as a trigger statement is executed |
| TriggerScript.ExecuteStatements | backend/apply_triggers.py:50-66 | The dispatch loop's log equals Executions |
| TriggerScript.AvailableCount | backend/apply_triggers.py:91-94 | SELECT available_seats INTO available_count reads a row of that movie, or leaves NULL when there is none |
| TriggerScript.SeatTriggerRejects | backend/apply_triggers.py:95 | The trigger signals when NEW.seats_selected exceeds a non-NULL available_count (the meaning is proved in the two lemmas below) |
| TriggerScript.TriggerRejectsOnlyOverCapacity | backend/apply_triggers.py:95-97 | The guard refuses only a row whose movie exists with a non-NULL available_seats below seats_selected |
| TriggerScript.TriggerReadsTheMovie | backend/apply_triggers.py:87-117 | With unique movie ids, the guard refuses a watchlist row exactly when its seats exceed that movie's available_seats |
| TriggerScript.UnknownMovieNotGuarded | backend/apply_triggers.py:95 | For a movie id without a row, the comparison with NULL never refuses |
| Watchlist.Or | backend/models/watchlist.py:34-36 | Python's `a or b`: a when truthy, otherwise b |
| Watchlist.Resolve | backend/models/watchlist.py:34-36 | user_id falls back to customer_id, movie_id to product_id, seats to quantity and then 1; falsy values fall through |
| Watchlist.ZeroFallsThrough | backend/models/watchlist.py:34-36 | A 0 user_id or seats_selected is replaced by its alternative, as an absent one is |
| Watchlist.FirstSeatsFinds | backend/models/watchlist.py:43-44 | fetchone finds no row exactly when no row has the (user, movie) pair, and otherwise the seats of the first such row |
| Watchlist.FirstSeats | backend/models/watchlist.py:43-44 | fetchone of the SELECT: the seats of the first row with the (user, movie) pair, or none (stated by FirstSeatsFinds) |
| Watchlist.Upsert | backend/models/watchlist.py:43-49 | The table keeps its length when the pair has a row and grows by one otherwise; every existing row keeps its watchlist id |
| Watchlist.UpsertSumsExisting | backend/models/watchlist.py:45-47 | For an existing pair, that row's seats become old + new and every other row is unchanged |
| Watchlist.UpsertInsertsNew | backend/models/watchlist.py:48-49 | For a new pair, exactly one row with the next id and the resolved seats is appended |
| Watchlist.UpsertKeepsOneRowPerPair | backend/models/watchlist.py:43-49 | If there was at most one row per (user, movie) pair, that stays true |
| Watchlist.SetSeats | backend/models/watchlist.py:47 | The UPDATE keeps the table's length and changes only the seats of rows with the (user, movie) pair |
| Watchlist.WriteSeats | backend/models/watchlist.py:43-51 | The SELECT, then UPDATE or INSERT, as the Upsert function says; DbError exactly when the installed trigger refuses the written seats, and then the table is unchanged |
| Watchlist.UpdatePair | backend/models/watchlist.py:47 | The table becomes SetSeats with the given seats; the counter and the other tables are kept; the invariant holds |
| Watchlist.InsertRow | backend/models/watchlist.py:49 | Exactly one row with the next id is appended; the invariant holds |
| Watchlist.AddToWatchlist | backend/models/watchlist.py:30-57 | 400 exactly when a resolved id is falsy; 500 exactly when the installed trigger refuses the written seats; otherwise Upsert; the table is unchanged on failure; other tables never change |
| Watchlist.RemoveRow | backend/models/watchlist.py:65 | Delete keeps exactly the rows with another watchlist id |
| Watchlist.RemoveDropsOne | backend/models/watchlist.py:65 | Deleting a row whose id is unique leaves the rows around it in order |
| Watchlist.RemoveMissingIsNoOp | backend/models/watchlist.py:65-67 | Deleting an unknown id changes nothing |
| Watchlist.RemoveFromWatchlist | backend/models/watchlist.py:60-67 | Always "Removed from watchlist", even when no row matched; the table becomes RemoveRow |
| Watchlist.MovieOf | backend/models/watchlist.py:20 | The join finds the movie with that id, or none |
| Watchlist.GetWatchlist | backend/models/watchlist.py:18-21 | The joined listing has at most one line per watchlist row |
| Watchlist.GetWatchlistOnlyUser | backend/models/watchlist.py:18-21 | Every listed line comes from a row of the requested user, with that row's id, movie and seats, and the joined movie's title and price |
| Watchlist.GetWatchlistComplete | backend/models/watchlist.py:18-21 | Every row of the user whose movie exists is listed |
| Database.LookupIsAdmin | backend/models/users.py:25-29 | fetchone of is_admin finds a row with these credentials, or none exists |
| Database.AdminGate | backend/models/users.py:19-31 | 401 exactly without both credentials, 403 exactly when no matching row has is_admin == 1, otherwise the handler goes on |
| Database.AdminGateByAccount | backend/models/users.py:25-31 | With unique emails, a caller passes exactly when the account with that email has that password and is_admin == 1 |
| Users.AddUserReply | backend/models/users.py:13-50 | 401, then 403, then 400 for a missing name, email or password, then 400 for a registered email, otherwise success |
| Users.NewUserRow | backend/models/users.py:46 | The inserted row carries the generated id and the request's name, email and password, with is_admin defaulting to 0 |
| Users.AddUser | backend/models/users.py:13-56 | On success exactly one row is appended, with is_admin defaulting to 0; on any refusal the table is unchanged |
| Users.AddedUserAuthenticates | backend/models/users.py:36-48 | A newly added user passes the admin check exactly when it was added with is_admin 1 |
| Users.GetUsers | backend/models/users.py:59-76 | 401/403 as the gate says; otherwise every user in table order with id, name, email and is_admin and no password |
| Users.Views | backend/models/users.py:74-75 | Each listed row matches its user's non-password columns |
| Users.DeleteUserReply | backend/models/users.py:82-105 | 401, then 403, then 404 exactly when no user has the id, otherwise "User deleted" |
| Users.DeleteUser | backend/models/users.py:82-111 | On success the table becomes RemoveUser; on a refusal it is unchanged |
| Users.RemoveUser | backend/models/users.py:100 | The DELETE never lengthens the table |
| Users.RemoveUserMembers | backend/models/users.py:100 | The remaining rows are exactly the rows with another id |
| Users.RemoveUserAt | backend/models/users.py:100-105 | With unique ids, deleting a user removes only that row and keeps every other user in order |
| Users.RemoveNothingMeansAbsent | backend/models/users.py:101-102 | rowcount is 0 exactly when no user has the id |
| Users.BuildSetClause | backend/models/users.py:145-160 | The loop's two lists are exactly SetList and SetValues, with user_id appended as the last parameter |
| Users.SetListMembers | backend/models/users.py:145-158 | A column is in the SET list exactly when the request supplies it (truthy name, email, password; non-None is_admin), and nothing else is |
| Users.SetListOrdered | backend/models/users.py:145-158 | The SET list keeps the order name, email, password, is_admin |
| Users.SetValuesMatch | backend/models/users.py:145-158 | There is one value per SET column, and each is the value the request supplies for that column |
| Users.SetListEmpty | backend/models/users.py:127-158 | The SET list is empty exactly when no field is given, the case answered with 400 |
| Users.UpdateQuery | backend/models/users.py:161 | The statement is "UPDATE users SET " followed by the SET list and " WHERE user_id=%s" |
| Users.ExecuteUpdate | backend/models/users.py:161-162 | The database's execution of that statement: the table keeps its length, and rows whose id is not the last parameter are unchanged |
| Users.ExecuteBuiltUpdate | backend/models/users.py:145-162 | Executing the statement built from a request updates the table exactly as ApplyUpdate says |
| Users.AssignBuiltClause | backend/models/users.py:145-162 | Executing a SET list of that shape writes exactly the supplied fields and keeps the others |
| Users.AssignOverwrites | backend/models/users.py:161-162 | Applying distinct columns with their values overwrites exactly those columns |
| Users.Updated | backend/models/users.py:145-162 | Truthy name, email and password replace the old ones, a non-None is_admin replaces the flag, the id stays |
| Users.UpdateUserReply | backend/models/users.py:114-164 | 401, then 400 when no field is supplied (before any lookup), then 403, then 404 for an unknown id, then 500 for an email owned by another user, otherwise "User updated" |
| Users.UpdateUser | backend/models/users.py:114-170 | On success only the user with the id changes, as Updated says; otherwise nothing changes |
| Users.ApplyUpdate | backend/models/users.py:161-162 | The UPDATE keeps the table's length and every row's id, and leaves every row with another id unchanged |
| Users.UpdateKeepsUserInvariants | backend/models/users.py:161-162 | Without an email clash, the update keeps ids and emails unique and leaves every id in place |
| Movies.GenreName | backend/models/movies.py:20-21 | The LEFT JOIN gives the name of a genre with that id, or NULL when there is none |
| Movies.GetMovies | backend/models/movies.py:12-30 | Each row carries its genre's name |
| Movies.GetMoviesAll | backend/models/movies.py:24-28 | Without genre_id, every movie is listed in table order |
| Movies.GetMoviesByGenre | backend/models/movies.py:18-23 | With genre_id, exactly that genre's movies are listed, as a subsequence of the table (in table order) |
| Movies.EditReply | backend/models/movies.py:49-61 | 400 for a missing title, showtime or genre_id comes before 401, which comes before 403 |
| Movies.NewMovieRow | backend/models/movies.py:38-44 | price, available_seats and duration default to 0 and description to '' |
| Movies.AddMovie | backend/models/movies.py:35-68 | On success exactly that row is appended with the next id; on a refusal nothing changes |
| Movies.Rewritten | backend/models/movies.py:103-105 | The six SET columns take the request's values (absent means NULL); the description and id are kept |
| Movies.ApplyMovieUpdate | backend/models/movies.py:103-105 | Only rows with the id are rewritten; every id stays |
| Movies.UpdateUnknownMovie | backend/models/movies.py:103-108 | Updating an id no row has changes nothing and still reports success |
| Movies.UpdateMovie | backend/models/movies.py:76-108 | Same gate order as add; on success the table becomes ApplyMovieUpdate; no 404 |
| Movies.DeleteMovie | backend/models/movies.py:116-134 | After the admin gate, rows with the id are removed and "Movie deleted" is reported whether or not one matched |
| Movies.DeleteMovieRemovesOnlyThatId | backend/models/movies.py:132 | The kept movies are exactly those with another id, in order |
| Movies.PurgeKeepsOnlyAllowed | backend/models/movies.py:151-189 | After the purge every movie's title is on the allow-list, and every allowed movie is kept in order |
| Movies.DependentsPurged | backend/models/movies.py:168-184 | No kept booking item, watchlist or review row names a removed movie; rows naming no doomed id stay, in order |
| Movies.KeepDependents | backend/models/movies.py:168-184 | A dependent table's DELETE never lengthens it, and no kept row names a movie whose title is off the allow-list |
| Movies.AllowedNotDoomed | backend/models/movies.py:171-189 | With unique ids, an allowed movie and the rows naming it survive the purge |
| Movies.PurgeMovies | backend/models/movies.py:143-191 | After the admin gate, booking items, watchlist and reviews of doomed movies are deleted, then the movies off the allow-list |
| Sequences.FilterMembers | frontend/src/pages/Home.js:67-72 | .filter keeps exactly the elements that pass |
| Sequences.FilterSubsequence | frontend/src/pages/Home.js:67-68 | .filter neither adds nor reorders elements |
| Home.MatchesSearch | frontend/src/pages/Home.js:68-72 | The filter callback: true for an empty search, otherwise a non-empty title or description whose lower-cased text contains the lower-cased query (stated by SearchKeepsExactlyMatches) |
| Home.VisibleMovies | frontend/src/pages/Home.js:67-72 | The shown list is movies.filter of that callback (its members and order stated by the lemmas below) |
| Home.EmptySearchKeepsAll | frontend/src/pages/Home.js:69 | An empty search shows every movie in its original order |
| Home.SearchKeepsExactlyMatches | frontend/src/pages/Home.js:70-71 | A non-empty search shows exactly the movies whose lower-cased title or description contains the lower-cased query |
| Home.SearchIsSubsequence | frontend/src/pages/Home.js:67-72 | The shown movies are a subsequence of the fetched ones |
| Home.NoTextHidden | frontend/src/pages/Home.js:71 | For a non-empty search, a movie with neither title nor description is hidden |
| Home.AddToCart | frontend/src/pages/Home.js:36-39 | Without a user, "Please login first" and no request; otherwise one request with user_id = customer_id, the movie and seats_selected |
| Home.CartRequestResolves | frontend/src/pages/Home.js:39 | The server resolves that request to the user's customer id, the movie, and the seats (1 for 0) |

## Left out

- Random occupancy (`Math.random() < 0.3`) is a parameter `isOccupied` of the grid constructor.
- React rendering, `setState` batching and re-render timing are not modelled: each handler is one atomic state transition. The shallow copy `[...seats]` is modelled by its in-place effect on the one grid.
- The total price (`movie.price * seatCount`, `toFixed`) uses floating point; prices are whole numbers here and are never multiplied.
- JavaScript `Number()` accepts whitespace, signs, hexadecimal and decimals; `SeatIds.Number` accepts only decimal digits, which is all the generated ids contain.
- `toLowerCase` and `upper()` are modelled on ASCII letters only; Unicode case mapping is not modelled.
- JSON `null` and a missing key are both `None`; the difference matters only for `data.get(key, default)`, which the model treats as "absent".
- A request body that is not JSON (`request.get_json()` returning None) is not modelled.
- Query-string parameters (genre_id, user ids) are taken as already-parsed integers; non-numeric text is not modelled.
- HTTP, fetch, routing, localStorage and the message timeout are I/O and are not modelled; `addToCart` ends at the request it would send.
- Connections, commit and rollback, `print` output, and reading `triggers.sql` from disk are not modelled; the splitter takes the file's lines.
- Database errors (status 500 with the driver's message) are modelled only where a constraint of the model fires: the seat trigger on the watchlist and `UNIQUE(email)` on a user update. Driver message texts are not modelled.
- Foreign keys are not enforced: deleting a user or a movie with dependent rows succeeds in the model. Cascades are also not modelled, although reviews may cascade in the deployed schema.
- String comparisons in SQL are exact, whereas a case-insensitive collation in the deployed database would compare emails and titles ignoring case.
- `fetchone` without `ORDER BY` is modelled as the first matching row in table order.
- Exceptions raised while dispatching trigger statements, and the fallback path that creates the triggers from fixed strings, are not modelled beyond the guard condition they install.
- Thin pass-through endpoints (genres, reviews, payments, bookings, login), the setup and migration scripts, and view-only pages are outside this model.
- Movies.GetMovies: the genre name per row is stated; which movies are listed is stated by the lemmas GetMoviesAll and GetMoviesByGenre.
- Movies.EditReply: JSON body values are taken as already typed, genre_id as an integer. The admin page sends genre_id as a string, and Python treats "0" as truthy, so that request passes the required-field test that the integer 0 fails; string-typed bodies are not modelled.
- Watchlist.Resolve: seats_selected and quantity are taken as integers. `int(...)` of a string value is not modelled: "0" is truthy and becomes 0 seats, and a non-numeric string raises ValueError, which the handler reports as a 500.
