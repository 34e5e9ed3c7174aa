/**
 * The watchlist (cart) endpoints: list a user's rows joined with their
 * movies, add seats for a movie (summing into an existing row), remove a row.
 */
module Watchlist {
  import opened Wrappers
  import opened Database
  import opened TriggerScript

  /** The POST body; each key may be absent (None). */
  datatype AddRequest = AddRequest(userId: Option<int>, customerId: Option<int>,
                                   movieId: Option<int>, productId: Option<int>,
                                   seatsSelected: Option<int>, quantity: Option<int>)

  /** Python's `a or b` on optional integers: a when truthy, otherwise b. */
  function Or(a: Option<int>, b: Option<int>): (r: Option<int>)
    ensures TruthyInt(a) ==> r == a
    ensures !TruthyInt(a) ==> r == b
  {
    if TruthyInt(a) then a else b
  }

  /** The keys after alias resolution. */
  datatype Resolved = Resolved(userId: Option<int>, movieId: Option<int>, seats: int)

  /** user_id or customer_id, movie_id or product_id, seats_selected or quantity or 1. */
  function Resolve(req: AddRequest): (r: Resolved)
    ensures TruthyInt(req.userId) ==> r.userId == req.userId
    ensures !TruthyInt(req.userId) ==> r.userId == req.customerId
    ensures TruthyInt(req.movieId) ==> r.movieId == req.movieId
    ensures !TruthyInt(req.movieId) ==> r.movieId == req.productId
    ensures TruthyInt(r.userId) <==> TruthyInt(req.userId) || TruthyInt(req.customerId)
    ensures TruthyInt(r.movieId) <==> TruthyInt(req.movieId) || TruthyInt(req.productId)
    ensures r.seats != 0
    ensures TruthyInt(req.seatsSelected) ==> r.seats == req.seatsSelected.value
    ensures !TruthyInt(req.seatsSelected) && TruthyInt(req.quantity) ==> r.seats == req.quantity.value
    ensures !TruthyInt(req.seatsSelected) && !TruthyInt(req.quantity) ==> r.seats == 1
  {
    Resolved(Or(req.userId, req.customerId), Or(req.movieId, req.productId),
             Or(Or(req.seatsSelected, req.quantity), Some(1)).value)
  }

  /** A falsy primary key (0) falls through to its alias, just as an absent one does. */
  lemma ZeroFallsThrough(req: AddRequest)
    requires req.userId == Some(0) && req.movieId == None && req.seatsSelected == Some(0)
    ensures Resolve(req).userId == req.customerId
    ensures Resolve(req).movieId == req.productId
    ensures Resolve(req).seats == if TruthyInt(req.quantity) then req.quantity.value else 1
  {
  }

  const IdsRequired := "user_id/customer_id and movie_id/product_id required"
  const Added := "Added to watchlist"
  const Removed := "Removed from watchlist"

  predicate IsPair(w: WatchRow, userId: int, movieId: int) {
    w.userId == userId && w.movieId == movieId
  }

  /** At most one row per (user, movie). */
  predicate OneRowPerPair(rows: seq<WatchRow>) {
    forall i, j :: 0 <= i < j < |rows| ==> !(rows[i].userId == rows[j].userId && rows[i].movieId == rows[j].movieId)
  }

  /** `SELECT seats_selected ... WHERE user_id=%s AND movie_id=%s`, fetchone(). */
  function FirstSeats(rows: seq<WatchRow>, userId: int, movieId: int): Option<int> {
    if rows == [] then None
    else if IsPair(rows[0], userId, movieId) then Some(rows[0].seatsSelected)
    else FirstSeats(rows[1..], userId, movieId)
  }

  /** The lookup finds a row of the pair exactly when one exists, and reads that row's seats. */
  lemma {:induction false} FirstSeatsFinds(rows: seq<WatchRow>, userId: int, movieId: int)
    ensures FirstSeats(rows, userId, movieId).None? <==> forall i :: 0 <= i < |rows| ==> !IsPair(rows[i], userId, movieId)
    ensures FirstSeats(rows, userId, movieId).Some? ==>
              exists i :: 0 <= i < |rows| && IsPair(rows[i], userId, movieId)
                          && rows[i].seatsSelected == FirstSeats(rows, userId, movieId).value
  {
    if rows != [] && !IsPair(rows[0], userId, movieId) {
      FirstSeatsFinds(rows[1..], userId, movieId);
      assert forall i :: 1 <= i < |rows| ==> rows[i] == rows[1..][i - 1];
      if FirstSeats(rows, userId, movieId).Some? {
        var i :| 0 <= i < |rows[1..]| && IsPair(rows[1..][i], userId, movieId)
                 && rows[1..][i].seatsSelected == FirstSeats(rows, userId, movieId).value;
        assert rows[i + 1] == rows[1..][i];
      }
    }
  }

  /** `UPDATE watchlist SET seats_selected=%s WHERE user_id=%s AND movie_id=%s`. */
  function SetSeats(rows: seq<WatchRow>, userId: int, movieId: int, seats: int): (r: seq<WatchRow>)
    ensures |r| == |rows|
    ensures forall i :: 0 <= i < |rows| ==>
              r[i] == if IsPair(rows[i], userId, movieId) then rows[i].(seatsSelected := seats) else rows[i]
  {
    if rows == [] then []
    else [if IsPair(rows[0], userId, movieId) then rows[0].(seatsSelected := seats) else rows[0]]
         + SetSeats(rows[1..], userId, movieId, seats)
  }

  /** The row the add handler writes: the summed existing row, or a new one. */
  function Upsert(rows: seq<WatchRow>, nextId: int, userId: int, movieId: int, seats: int): (r: seq<WatchRow>)
    ensures |r| == if FirstSeats(rows, userId, movieId).Some? then |rows| else |rows| + 1
    ensures forall i :: 0 <= i < |rows| ==> r[i].watchlistId == rows[i].watchlistId
  {
    var current := FirstSeats(rows, userId, movieId);
    if current.Some? then SetSeats(rows, userId, movieId, current.value + seats)
    else rows + [WatchRow(nextId, userId, movieId, seats)]
  }

  /** An existing (user, movie) row gets old + new seats; nothing else changes. */
  lemma UpsertSumsExisting(rows: seq<WatchRow>, nextId: int, k: nat, seats: int)
    requires OneRowPerPair(rows) && k < |rows|
    ensures var r := Upsert(rows, nextId, rows[k].userId, rows[k].movieId, seats);
            && |r| == |rows|
            && r[k] == rows[k].(seatsSelected := rows[k].seatsSelected + seats)
            && forall i :: 0 <= i < |rows| && i != k ==> r[i] == rows[i]
  {
    var u, m := rows[k].userId, rows[k].movieId;
    FirstSeatsFinds(rows, u, m);
    var current := FirstSeats(rows, u, m);
    assert current.Some?;
    var i :| 0 <= i < |rows| && IsPair(rows[i], u, m) && rows[i].seatsSelected == current.value;
    assert i == k;
  }

  /** A new pair gets exactly one new row, with the resolved seats, at the end. */
  lemma UpsertInsertsNew(rows: seq<WatchRow>, nextId: int, userId: int, movieId: int, seats: int)
    requires forall i :: 0 <= i < |rows| ==> !IsPair(rows[i], userId, movieId)
    ensures Upsert(rows, nextId, userId, movieId, seats) == rows + [WatchRow(nextId, userId, movieId, seats)]
  {
    FirstSeatsFinds(rows, userId, movieId);
  }

  /** Adding keeps the table at one row per (user, movie). */
  lemma UpsertKeepsOneRowPerPair(rows: seq<WatchRow>, nextId: int, userId: int, movieId: int, seats: int)
    requires OneRowPerPair(rows)
    ensures OneRowPerPair(Upsert(rows, nextId, userId, movieId, seats))
  {
    var r := Upsert(rows, nextId, userId, movieId, seats);
    FirstSeatsFinds(rows, userId, movieId);
    if FirstSeats(rows, userId, movieId).Some? {
      forall i, j | 0 <= i < j < |r| ensures !(r[i].userId == r[j].userId && r[i].movieId == r[j].movieId) {
        assert r[i].userId == rows[i].userId && r[i].movieId == rows[i].movieId;
        assert r[j].userId == rows[j].userId && r[j].movieId == rows[j].movieId;
      }
    }
  }

  /** The seats_selected value the handler writes (and the triggers check). */
  function WrittenSeats(rows: seq<WatchRow>, userId: int, movieId: int, seats: int): int {
    var current := FirstSeats(rows, userId, movieId);
    if current.Some? then current.value + seats else seats
  }

  /** `DELETE FROM watchlist WHERE watchlist_id=%s`. */
  function RemoveRow(rows: seq<WatchRow>, watchlistId: int): (r: seq<WatchRow>)
    ensures |r| <= |rows|
    ensures forall w :: w in r <==> w in rows && w.watchlistId != watchlistId
  {
    if rows == [] then []
    else if rows[0].watchlistId == watchlistId then RemoveRow(rows[1..], watchlistId)
    else [rows[0]] + RemoveRow(rows[1..], watchlistId)
  }

  /** Removing an id that no row has leaves the table as it was. */
  lemma {:induction false} RemoveMissingIsNoOp(rows: seq<WatchRow>, watchlistId: int)
    requires forall i :: 0 <= i < |rows| ==> rows[i].watchlistId != watchlistId
    ensures RemoveRow(rows, watchlistId) == rows
  {
    if rows != [] {
      RemoveMissingIsNoOp(rows[1..], watchlistId);
      assert [rows[0]] + rows[1..] == rows;
    }
  }

  /** Removing keeps the other rows in their order: row k goes, the rest stay. */
  lemma {:induction false} RemoveDropsOne(p: seq<WatchRow>, w: WatchRow, q: seq<WatchRow>)
    requires forall i :: 0 <= i < |p| ==> p[i].watchlistId != w.watchlistId
    requires forall i :: 0 <= i < |q| ==> q[i].watchlistId != w.watchlistId
    ensures RemoveRow(p + [w] + q, w.watchlistId) == p + q
  {
    if p == [] {
      assert ([w] + q)[1..] == q;
      RemoveMissingIsNoOp(q, w.watchlistId);
    } else {
      assert (p + [w] + q)[1..] == p[1..] + [w] + q;
      RemoveDropsOne(p[1..], w, q);
      assert [p[0]] + (p[1..] + q) == p + q;
    }
  }

  /** One line of GET /watchlist/<user_id>: cart_id, movie_id, quantity, name, price. */
  datatype CartLine = CartLine(cartId: int, movieId: int, quantity: int, name: string, price: Option<int>)

  /** The movie a row joins with (unique movie ids: the only one). */
  function MovieOf(movies: seq<Movie>, movieId: int): (r: Option<Movie>)
    ensures r.Some? ==> r.value in movies && r.value.movieId == movieId
    ensures r.None? ==> forall i :: 0 <= i < |movies| ==> movies[i].movieId != movieId
  {
    if movies == [] then None
    else if movies[0].movieId == movieId then Some(movies[0])
    else
      assert forall i :: 1 <= i < |movies| ==> movies[i] == movies[1..][i - 1];
      MovieOf(movies[1..], movieId)
  }

  /** The watchlist JOIN movies query for one user, in table order. */
  function GetWatchlist(rows: seq<WatchRow>, movies: seq<Movie>, userId: int): (r: seq<CartLine>)
    ensures |r| <= |rows|
  {
    if rows == [] then []
    else
      var tail := GetWatchlist(rows[1..], movies, userId);
      var w := rows[0];
      match MovieOf(movies, w.movieId)
      case Some(m) =>
        if w.userId == userId then [CartLine(w.watchlistId, w.movieId, w.seatsSelected, m.title, m.price)] + tail
        else tail
      case None => tail
  }

  /** A listing line shows row w joined with its movie: id, movie, seats, title and price. */
  predicate ListsRow(line: CartLine, w: WatchRow, movies: seq<Movie>) {
    && line.cartId == w.watchlistId && line.movieId == w.movieId && line.quantity == w.seatsSelected
    && MovieOf(movies, w.movieId).Some?
    && line.name == MovieOf(movies, w.movieId).value.title
    && line.price == MovieOf(movies, w.movieId).value.price
  }

  /** Only the given user's rows are listed, each with its own id, movie and seats and its movie's title and price. */
  lemma {:induction false} GetWatchlistOnlyUser(rows: seq<WatchRow>, movies: seq<Movie>, userId: int, k: nat)
    requires k < |GetWatchlist(rows, movies, userId)|
    ensures exists i :: 0 <= i < |rows| && rows[i].userId == userId
                        && ListsRow(GetWatchlist(rows, movies, userId)[k], rows[i], movies)
  {
    var r := GetWatchlist(rows, movies, userId);
    var tail := GetWatchlist(rows[1..], movies, userId);
    if r != tail && k == 0 {
      assert rows[0].userId == userId && ListsRow(r[0], rows[0], movies);
    } else {
      var k' := if r == tail then k else k - 1;
      assert r[k] == tail[k'];
      GetWatchlistOnlyUser(rows[1..], movies, userId, k');
      var i :| 0 <= i < |rows[1..]| && rows[1..][i].userId == userId && ListsRow(tail[k'], rows[1..][i], movies);
      assert rows[i + 1] == rows[1..][i];
    }
  }

  /** Every row of the user whose movie exists is listed. */
  lemma {:induction false} GetWatchlistComplete(rows: seq<WatchRow>, movies: seq<Movie>, k: nat)
    requires k < |rows| && MovieOf(movies, rows[k].movieId).Some?
    ensures exists j :: 0 <= j < |GetWatchlist(rows, movies, rows[k].userId)|
                        && GetWatchlist(rows, movies, rows[k].userId)[j].cartId == rows[k].watchlistId
  {
    var u := rows[k].userId;
    if k == 0 {
      assert GetWatchlist(rows, movies, u)[0].cartId == rows[0].watchlistId;
    } else {
      GetWatchlistComplete(rows[1..], movies, k - 1);
      var tail := GetWatchlist(rows[1..], movies, u);
      var j :| 0 <= j < |tail| && tail[j].cartId == rows[k].watchlistId;
      var r := GetWatchlist(rows, movies, u);
      if r == tail {
      } else {
        assert r[j + 1] == tail[j];
      }
    }
  }

  /** POST /watchlist: resolve the keys, then update the pair's row or insert one. */
  method AddToWatchlist(db: Db, req: AddRequest) returns (reply: Reply)
    requires db.Valid()
    modifies db
    ensures db.Valid()
    ensures db.users == old(db.users) && db.movies == old(db.movies) && db.genres == old(db.genres)
    ensures db.bookingItems == old(db.bookingItems) && db.reviews == old(db.reviews)
    ensures db.seatTriggers == old(db.seatTriggers)
    ensures !(TruthyInt(Resolve(req).userId) && TruthyInt(Resolve(req).movieId)) <==> reply == Fail(400, IdsRequired)
    ensures reply == DbError <==>
              && TruthyInt(Resolve(req).userId) && TruthyInt(Resolve(req).movieId) && old(db.seatTriggers)
              && SeatTriggerRejects(old(db.movies), Resolve(req).movieId.value,
                                    WrittenSeats(old(db.watchlist), Resolve(req).userId.value, Resolve(req).movieId.value, Resolve(req).seats))
    ensures reply.Ok? ==> reply.message == Added
    ensures reply.Ok? ==> db.watchlist == Upsert(old(db.watchlist), old(db.nextWatchlistId),
                                                Resolve(req).userId.value, Resolve(req).movieId.value, Resolve(req).seats)
    ensures !reply.Ok? ==> db.watchlist == old(db.watchlist)
  {
    var r := Resolve(req);
    if !(TruthyInt(r.userId) && TruthyInt(r.movieId)) {
      return Fail(400, IdsRequired);
    }
    reply := WriteSeats(db, r.userId.value, r.movieId.value, r.seats);
  }

  /** The handler's database work: SELECT the pair's seats, then UPDATE or INSERT. */
  method WriteSeats(db: Db, userId: int, movieId: int, seats: int) returns (reply: Reply)
    requires db.Valid()
    modifies db
    ensures db.Valid()
    ensures db.users == old(db.users) && db.movies == old(db.movies) && db.genres == old(db.genres)
    ensures db.bookingItems == old(db.bookingItems) && db.reviews == old(db.reviews)
    ensures db.seatTriggers == old(db.seatTriggers)
    ensures reply == DbError || reply == Ok(Added)
    ensures reply == DbError <==>
              old(db.seatTriggers) && SeatTriggerRejects(old(db.movies), movieId, WrittenSeats(old(db.watchlist), userId, movieId, seats))
    ensures reply.Ok? ==> db.watchlist == Upsert(old(db.watchlist), old(db.nextWatchlistId), userId, movieId, seats)
    ensures !reply.Ok? ==> db.watchlist == old(db.watchlist)
  {
    ghost var rows, nextId := db.watchlist, db.nextWatchlistId;
    var existing := FirstSeats(db.watchlist, userId, movieId);
    if existing.Some? {
      var newSeats := existing.value + seats;
      if db.seatTriggers && SeatTriggerRejects(db.movies, movieId, newSeats) {
        return DbError;
      }
      UpdatePair(db, userId, movieId, newSeats);
      assert Upsert(rows, nextId, userId, movieId, seats) == SetSeats(rows, userId, movieId, newSeats);
    } else {
      if db.seatTriggers && SeatTriggerRejects(db.movies, movieId, seats) {
        return DbError;
      }
      InsertRow(db, userId, movieId, seats);
      assert Upsert(rows, nextId, userId, movieId, seats) == rows + [WatchRow(nextId, userId, movieId, seats)];
    }
    reply := Ok(Added);
  }

  /** `UPDATE watchlist SET seats_selected=%s WHERE user_id=%s AND movie_id=%s`. */
  method UpdatePair(db: Db, userId: int, movieId: int, seats: int)
    requires db.Valid()
    modifies db
    ensures db.Valid()
    ensures db.watchlist == SetSeats(old(db.watchlist), userId, movieId, seats)
    ensures db.users == old(db.users) && db.movies == old(db.movies) && db.genres == old(db.genres)
    ensures db.bookingItems == old(db.bookingItems) && db.reviews == old(db.reviews)
    ensures db.seatTriggers == old(db.seatTriggers) && db.nextWatchlistId == old(db.nextWatchlistId)
  {
    SetSeatsKeepsIds(db.watchlist, userId, movieId, seats, db.nextWatchlistId);
    db.watchlist := SetSeats(db.watchlist, userId, movieId, seats);
  }

  /** `INSERT INTO watchlist (user_id, movie_id, seats_selected)`, with an AUTOINCREMENT id. */
  method InsertRow(db: Db, userId: int, movieId: int, seats: int)
    requires db.Valid()
    modifies db
    ensures db.Valid()
    ensures db.watchlist == old(db.watchlist) + [WatchRow(old(db.nextWatchlistId), userId, movieId, seats)]
    ensures db.users == old(db.users) && db.movies == old(db.movies) && db.genres == old(db.genres)
    ensures db.bookingItems == old(db.bookingItems) && db.reviews == old(db.reviews)
    ensures db.seatTriggers == old(db.seatTriggers)
  {
    var row := WatchRow(db.nextWatchlistId, userId, movieId, seats);
    InsertKeepsIds(db.watchlist, row);
    db.watchlist := db.watchlist + [row];
    db.nextWatchlistId := db.nextWatchlistId + 1;
  }

  lemma SetSeatsKeepsIds(rows: seq<WatchRow>, userId: int, movieId: int, seats: int, bound: int)
    requires UniqueWatchIds(rows) && forall i :: 0 <= i < |rows| ==> rows[i].watchlistId < bound
    ensures var r := SetSeats(rows, userId, movieId, seats);
            UniqueWatchIds(r) && forall i :: 0 <= i < |r| ==> r[i].watchlistId < bound
  {
    var r := SetSeats(rows, userId, movieId, seats);
    assert forall i :: 0 <= i < |r| ==> r[i].watchlistId == rows[i].watchlistId;
  }

  lemma InsertKeepsIds(rows: seq<WatchRow>, row: WatchRow)
    requires UniqueWatchIds(rows) && forall i :: 0 <= i < |rows| ==> rows[i].watchlistId < row.watchlistId
    ensures UniqueWatchIds(rows + [row])
    ensures forall i :: 0 <= i < |rows + [row]| ==> (rows + [row])[i].watchlistId < row.watchlistId + 1
  {
  }

  /** DELETE /watchlist/<id>: success whether or not a row matched. */
  method RemoveFromWatchlist(db: Db, watchlistId: int) returns (reply: Reply)
    requires db.Valid()
    modifies db
    ensures db.Valid() && reply == Ok(Removed)
    ensures db.watchlist == RemoveRow(old(db.watchlist), watchlistId)
    ensures db.users == old(db.users) && db.movies == old(db.movies) && db.genres == old(db.genres)
    ensures db.bookingItems == old(db.bookingItems) && db.reviews == old(db.reviews)
    ensures db.seatTriggers == old(db.seatTriggers) && db.nextWatchlistId == old(db.nextWatchlistId)
  {
    db.watchlist := RemoveRow(db.watchlist, watchlistId);
    RemoveKeepsUniqueIds(old(db.watchlist), watchlistId);
    reply := Ok(Removed);
  }

  lemma {:induction false} RemoveKeepsUniqueIds(rows: seq<WatchRow>, watchlistId: int)
    requires UniqueWatchIds(rows)
    ensures UniqueWatchIds(RemoveRow(rows, watchlistId))
  {
    if rows != [] {
      RemoveKeepsUniqueIds(rows[1..], watchlistId);
      assert forall i :: 1 <= i < |rows| ==> rows[i] == rows[1..][i - 1];
      assert rows[0] !in rows[1..];
    }
  }
}
