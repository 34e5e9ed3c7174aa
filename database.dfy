/**
 * The backend's tables as sequences of records inside one database object,
 * plus what every admin-only handler does first: demand the admin's
 * credentials and look the caller up in the users table.
 */
module Database {
  import opened Wrappers

  datatype User = User(userId: int, name: string, email: string, password: string, isAdmin: int)
  datatype Genre = Genre(genreId: int, name: string)
  /** price, available_seats and duration may hold NULL. */
  datatype Movie = Movie(movieId: int, genreId: int, title: string, price: Option<int>,
                         availableSeats: Option<int>, description: string, duration: Option<int>,
                         showtime: string)
  datatype WatchRow = WatchRow(watchlistId: int, userId: int, movieId: int, seatsSelected: int)
  datatype BookingItem = BookingItem(bookingItemId: int, bookingId: int, movieId: int, seatsBooked: int)
  datatype Review = Review(reviewId: int, userId: int, movieId: int, rating: int)

  /**
   * A handler's JSON reply: success, a refusal with its HTTP status, or a
   * statement the database rejected (status 500, driver's message).
   */
  datatype Reply = Ok(message: string) | Fail(status: nat, message: string) | DbError

  function StatusOf(r: Reply): nat {
    match r
    case Ok(_) => 200
    case Fail(s, _) => s
    case DbError => 500
  }

  /** Python truthiness of an optional string / integer field. */
  predicate TruthyText(s: Option<string>) { s.Some? && s.value != "" }
  predicate TruthyInt(n: Option<int>) { n.Some? && n.value != 0 }

  /** admin_email and admin_password as the request carries them. */
  datatype Credentials = Credentials(email: Option<string>, password: Option<string>)

  predicate CredentialsGiven(c: Credentials) {
    TruthyText(c.email) && TruthyText(c.password)
  }

  const CredentialsRequired := "Admin credentials required"
  const NotAuthorized := "Not authorized"

  /** `SELECT is_admin FROM users WHERE email=%s AND password=%s`, fetchone(). */
  function LookupIsAdmin(users: seq<User>, email: string, password: string): (r: Option<int>)
    ensures r.Some? <==> exists i :: 0 <= i < |users| && users[i].email == email && users[i].password == password
    ensures r.Some? ==> exists i :: 0 <= i < |users| && users[i].email == email && users[i].password == password
                                    && users[i].isAdmin == r.value
  {
    if users == [] then None
    else if users[0].email == email && users[0].password == password then Some(users[0].isAdmin)
    else
      var r := LookupIsAdmin(users[1..], email, password);
      assert forall i :: 1 <= i < |users| ==> users[i] == users[1..][i - 1];
      r
  }

  /** The caller is authorized: some user with these credentials has is_admin == 1. */
  predicate IsAdminCaller(users: seq<User>, c: Credentials)
    requires CredentialsGiven(c)
  {
    LookupIsAdmin(users, c.email.value, c.password.value) == Some(1)
  }

  /**
   * The admin gate shared by the admin handlers: 401 without credentials,
   * 403 unless they belong to an admin, otherwise None (go on).
   */
  function AdminGate(users: seq<User>, c: Credentials): (r: Option<Reply>)
    ensures r == Some(Fail(401, CredentialsRequired)) <==> !CredentialsGiven(c)
    ensures r == Some(Fail(403, NotAuthorized)) <==> CredentialsGiven(c) && !IsAdminCaller(users, c)
    ensures r == None <==> CredentialsGiven(c) && IsAdminCaller(users, c)
  {
    if !CredentialsGiven(c) then Some(Fail(401, CredentialsRequired))
    else if !IsAdminCaller(users, c) then Some(Fail(403, NotAuthorized))
    else None
  }

  /** With unique e-mails, only the account with that e-mail decides the gate. */
  lemma AdminGateByAccount(users: seq<User>, c: Credentials, k: nat)
    requires CredentialsGiven(c) && UniqueEmails(users)
    requires k < |users| && users[k].email == c.email.value
    ensures IsAdminCaller(users, c) <==> users[k].password == c.password.value && users[k].isAdmin == 1
  {
  }

  predicate UniqueEmails(users: seq<User>) {
    forall i, j :: 0 <= i < j < |users| ==> users[i].email != users[j].email
  }

  predicate UniqueUserIds(users: seq<User>) {
    forall i, j :: 0 <= i < j < |users| ==> users[i].userId != users[j].userId
  }

  predicate UniqueMovieIds(movies: seq<Movie>) {
    forall i, j :: 0 <= i < j < |movies| ==> movies[i].movieId != movies[j].movieId
  }

  predicate UniqueWatchIds(rows: seq<WatchRow>) {
    forall i, j :: 0 <= i < j < |rows| ==> rows[i].watchlistId != rows[j].watchlistId
  }

  /** The tables, the AUTOINCREMENT counters, and whether the seat triggers are installed. */
  class Db {
    var users: seq<User>
    var genres: seq<Genre>
    var movies: seq<Movie>
    var watchlist: seq<WatchRow>
    var bookingItems: seq<BookingItem>
    var reviews: seq<Review>
    var nextUserId: int
    var nextMovieId: int
    var nextWatchlistId: int
    var seatTriggers: bool

    /** PRIMARY KEY of users, movies and watchlist, UNIQUE(email), and counters above every id. */
    ghost predicate Valid()
      reads this
    {
      && UniqueUserIds(users) && UniqueEmails(users) && UniqueMovieIds(movies) && UniqueWatchIds(watchlist)
      && (forall i :: 0 <= i < |users| ==> users[i].userId < nextUserId)
      && (forall i :: 0 <= i < |movies| ==> movies[i].movieId < nextMovieId)
      && (forall i :: 0 <= i < |watchlist| ==> watchlist[i].watchlistId < nextWatchlistId)
    }

    constructor ()
      ensures Valid() && users == [] && genres == [] && movies == [] && watchlist == []
      ensures bookingItems == [] && reviews == [] && !seatTriggers
    {
      users, genres, movies, watchlist, bookingItems, reviews := [], [], [], [], [], [];
      nextUserId, nextMovieId, nextWatchlistId := 1, 1, 1;
      seatTriggers := false;
    }
  }
}
