/**
 * The movie endpoints: list (optionally by genre, with the genre's name),
 * add, update and delete a movie, and purge every movie whose title is not
 * on a fixed allow-list together with the rows that refer to it.
 */
module Movies {
  import opened Wrappers
  import opened Database
  import opened Sequences

  const MovieFieldsRequired := "Title, showtime, and genre_id are required"
  const MovieAdded := "Movie added"
  const MovieUpdated := "Movie updated"
  const MovieDeleted := "Movie deleted"
  const MoviesPurged := "Movies purged to allowed set"

  // -------------------------------------------------------------- get_movies

  /** One result row: `m.*` and `g.name as genre`, NULL when no genre matches (LEFT JOIN). */
  datatype MovieRow = MovieRow(movie: Movie, genre: Option<string>)

  function GenreName(genres: seq<Genre>, genreId: int): (r: Option<string>)
    ensures r.None? <==> forall i :: 0 <= i < |genres| ==> genres[i].genreId != genreId
    ensures r.Some? ==> exists i :: 0 <= i < |genres| && genres[i].genreId == genreId && genres[i].name == r.value
  {
    if genres == [] then None
    else if genres[0].genreId == genreId then Some(genres[0].name)
    else
      var r := GenreName(genres[1..], genreId);
      assert forall i :: 1 <= i < |genres| ==> genres[i] == genres[1..][i - 1];
      r
  }

  function InGenre(genreId: int): Movie -> bool {
    (m: Movie) => m.genreId == genreId
  }

  /**
   * GET /movies. `genreFilter` is the genre_id query parameter, None when it
   * is absent or empty; with it only that genre's movies are listed.
   */
  function GetMovies(movies: seq<Movie>, genres: seq<Genre>, genreFilter: Option<int>): (r: seq<MovieRow>)
    ensures forall i :: 0 <= i < |r| ==> r[i].genre == GenreName(genres, r[i].movie.genreId)
  {
    var shown := if genreFilter.Some? then Filter(movies, InGenre(genreFilter.value)) else movies;
    seq(|shown|, i requires 0 <= i < |shown| => MovieRow(shown[i], GenreName(genres, shown[i].genreId)))
  }

  /** Without a filter every movie is listed, in table order. */
  lemma GetMoviesAll(movies: seq<Movie>, genres: seq<Genre>)
    ensures var r := GetMovies(movies, genres, None);
            |r| == |movies| && forall i :: 0 <= i < |movies| ==> r[i].movie == movies[i]
  {
  }

  /** The movies a listing shows, in its order. */
  function Listed(r: seq<MovieRow>): seq<Movie> {
    seq(|r|, i requires 0 <= i < |r| => r[i].movie)
  }

  /** With a filter, exactly the movies of that genre are listed, in table order. */
  lemma GetMoviesByGenre(movies: seq<Movie>, genres: seq<Genre>, genreId: int)
    ensures IsSubsequence(Listed(GetMovies(movies, genres, Some(genreId))), movies)
    ensures var r := GetMovies(movies, genres, Some(genreId));
            forall i :: 0 <= i < |r| ==> r[i].movie in movies && r[i].movie.genreId == genreId
    ensures var r := GetMovies(movies, genres, Some(genreId));
            forall m :: m in movies && m.genreId == genreId ==> exists i :: 0 <= i < |r| && r[i].movie == m
  {
    var shown := Filter(movies, InGenre(genreId));
    FilterMembers(movies, InGenre(genreId));
    var r := GetMovies(movies, genres, Some(genreId));
    assert |r| == |shown| && forall i :: 0 <= i < |r| ==> r[i].movie == shown[i];
    assert Listed(r) == shown;
    FilterSubsequence(movies, InGenre(genreId));
    forall i | 0 <= i < |r| ensures r[i].movie in movies && r[i].movie.genreId == genreId {
      assert shown[i] in shown;
    }
    forall m | m in movies && m.genreId == genreId
      ensures exists i :: 0 <= i < |r| && r[i].movie == m
    {
      assert InGenre(genreId)(m);
      var i :| 0 <= i < |shown| && shown[i] == m;
      assert r[i].movie == m;
    }
  }

  // --------------------------------------------------------------- add_movie

  /** The JSON body of add_movie / update_movie; an absent key is None. */
  datatype MovieRequest = MovieRequest(admin: Credentials, title: Option<string>, price: Option<int>,
                                       availableSeats: Option<int>, genreId: Option<int>,
                                       description: Option<string>, duration: Option<int>,
                                       showtime: Option<string>)

  /** `all([title, showtime, genre_id])`. */
  predicate RequiredGiven(req: MovieRequest) {
    TruthyText(req.title) && TruthyText(req.showtime) && TruthyInt(req.genreId)
  }

  /** add_movie's and update_movie's answer: 400 comes before 401, which comes before 403. */
  function EditReply(users: seq<User>, req: MovieRequest, success: string): (r: Reply)
    ensures r == Fail(400, MovieFieldsRequired) <==> !RequiredGiven(req)
    ensures r == Fail(401, CredentialsRequired) <==> RequiredGiven(req) && !CredentialsGiven(req.admin)
    ensures r == Fail(403, NotAuthorized) <==>
              RequiredGiven(req) && CredentialsGiven(req.admin) && !IsAdminCaller(users, req.admin)
    ensures r == Ok(success) <==>
              RequiredGiven(req) && CredentialsGiven(req.admin) && IsAdminCaller(users, req.admin)
    ensures r.Ok? || r.Fail?
  {
    if !RequiredGiven(req) then Fail(400, MovieFieldsRequired)
    else match AdminGate(users, req.admin)
      case Some(refusal) => refusal
      case None => Ok(success)
  }

  /** The inserted row: price, available_seats and duration default to 0, description to ''. */
  function NewMovieRow(movieId: int, req: MovieRequest): (m: Movie)
    requires RequiredGiven(req)
    ensures m.movieId == movieId && m.title == req.title.value && m.showtime == req.showtime.value
    ensures m.genreId == req.genreId.value
    ensures m.price == Some(req.price.GetOr(0)) && m.availableSeats == Some(req.availableSeats.GetOr(0))
    ensures m.duration == Some(req.duration.GetOr(0)) && m.description == req.description.GetOr("")
  {
    Movie(movieId, req.genreId.value, req.title.value, Some(req.price.GetOr(0)),
          Some(req.availableSeats.GetOr(0)), req.description.GetOr(""), Some(req.duration.GetOr(0)),
          req.showtime.value)
  }

  /** POST /movies. */
  method AddMovie(db: Db, req: MovieRequest) returns (reply: Reply)
    requires db.Valid()
    modifies db
    ensures db.Valid() && reply == EditReply(old(db.users), req, MovieAdded)
    ensures reply.Ok? ==> db.movies == old(db.movies) + [NewMovieRow(old(db.nextMovieId), req)]
    ensures !reply.Ok? ==> db.movies == old(db.movies)
    ensures db.users == old(db.users) && db.genres == old(db.genres) && db.watchlist == old(db.watchlist)
    ensures db.bookingItems == old(db.bookingItems) && db.reviews == old(db.reviews)
    ensures db.seatTriggers == old(db.seatTriggers)
  {
    if !(TruthyText(req.title) && TruthyText(req.showtime) && TruthyInt(req.genreId)) {
      return Fail(400, MovieFieldsRequired);
    }
    var gate := AdminGate(db.users, req.admin);
    if gate.Some? {
      return gate.value;
    }
    db.movies := db.movies + [NewMovieRow(db.nextMovieId, req)];
    db.nextMovieId := db.nextMovieId + 1;
    reply := Ok(MovieAdded);
  }

  // ------------------------------------------------------------ update_movie

  /**
   * The row after `UPDATE movies SET title, price, available_seats, genre_id,
   * duration, showtime`: those six columns take the request's values (an
   * absent one writes NULL), the description and the id stay.
   */
  function Rewritten(m: Movie, req: MovieRequest): (r: Movie)
    requires RequiredGiven(req)
    ensures r.movieId == m.movieId && r.description == m.description
    ensures r.title == req.title.value && r.showtime == req.showtime.value && r.genreId == req.genreId.value
    ensures r.price == req.price && r.availableSeats == req.availableSeats && r.duration == req.duration
  {
    m.(title := req.title.value, price := req.price, availableSeats := req.availableSeats,
       genreId := req.genreId.value, duration := req.duration, showtime := req.showtime.value)
  }

  /** The table after the UPDATE: the rows with the id rewritten, every other row as it was. */
  function ApplyMovieUpdate(movies: seq<Movie>, movieId: int, req: MovieRequest): (r: seq<Movie>)
    requires RequiredGiven(req)
    ensures |r| == |movies|
    ensures forall i :: 0 <= i < |movies| ==> r[i].movieId == movies[i].movieId
  {
    seq(|movies|, i requires 0 <= i < |movies| =>
      if movies[i].movieId == movieId then Rewritten(movies[i], req) else movies[i])
  }

  /** An update of an id no row has changes nothing and still succeeds. */
  lemma UpdateUnknownMovie(movies: seq<Movie>, movieId: int, req: MovieRequest)
    requires RequiredGiven(req)
    requires forall i :: 0 <= i < |movies| ==> movies[i].movieId != movieId
    ensures ApplyMovieUpdate(movies, movieId, req) == movies
  {
  }

  /** PUT /movies/<id>: no 404, since the row count is never checked. */
  method UpdateMovie(db: Db, req: MovieRequest, movieId: int) returns (reply: Reply)
    requires db.Valid()
    modifies db
    ensures db.Valid() && reply == EditReply(old(db.users), req, MovieUpdated)
    ensures reply.Ok? ==> db.movies == ApplyMovieUpdate(old(db.movies), movieId, req)
    ensures !reply.Ok? ==> db.movies == old(db.movies)
    ensures db.users == old(db.users) && db.genres == old(db.genres) && db.watchlist == old(db.watchlist)
    ensures db.bookingItems == old(db.bookingItems) && db.reviews == old(db.reviews)
    ensures db.seatTriggers == old(db.seatTriggers) && db.nextMovieId == old(db.nextMovieId)
  {
    if !(TruthyText(req.title) && TruthyText(req.showtime) && TruthyInt(req.genreId)) {
      return Fail(400, MovieFieldsRequired);
    }
    var gate := AdminGate(db.users, req.admin);
    if gate.Some? {
      return gate.value;
    }
    db.movies := ApplyMovieUpdate(db.movies, movieId, req);
    reply := Ok(MovieUpdated);
  }

  // ------------------------------------------------------------ delete_movie

  function OtherThan(movieId: int): Movie -> bool {
    (m: Movie) => m.movieId != movieId
  }

  function MovieKey(): (Movie, Movie) -> bool {
    (a: Movie, b: Movie) => a.movieId != b.movieId
  }

  function WatchKey(): (WatchRow, WatchRow) -> bool {
    (a: WatchRow, b: WatchRow) => a.watchlistId != b.watchlistId
  }

  /** Filtering the movies keeps the table's invariants. */
  lemma FilterKeepsMovies(db: Db, keep: Movie -> bool)
    requires db.Valid()
    ensures UniqueMovieIds(Filter(db.movies, keep))
    ensures forall i :: 0 <= i < |Filter(db.movies, keep)| ==> Filter(db.movies, keep)[i].movieId < db.nextMovieId
  {
    var r := Filter(db.movies, keep);
    FilterKeepsPairwise(db.movies, keep, MovieKey());
    FilterMembers(db.movies, keep);
    forall i | 0 <= i < |r| ensures r[i].movieId < db.nextMovieId {
      assert r[i] in r;
    }
  }

  /** DELETE /movies/<id>: succeeds whether or not a row matched. */
  method DeleteMovie(db: Db, admin: Credentials, movieId: int) returns (reply: Reply)
    requires db.Valid()
    modifies db
    ensures db.Valid()
    ensures reply == (if AdminGate(old(db.users), admin).Some? then AdminGate(old(db.users), admin).value
                      else Ok(MovieDeleted))
    ensures reply.Ok? ==> db.movies == Filter(old(db.movies), OtherThan(movieId))
    ensures !reply.Ok? ==> db.movies == old(db.movies)
    ensures db.users == old(db.users) && db.genres == old(db.genres) && db.watchlist == old(db.watchlist)
    ensures db.bookingItems == old(db.bookingItems) && db.reviews == old(db.reviews)
    ensures db.seatTriggers == old(db.seatTriggers)
  {
    var gate := AdminGate(db.users, admin);
    if gate.Some? {
      return gate.value;
    }
    FilterKeepsMovies(db, OtherThan(movieId));
    db.movies := Filter(db.movies, OtherThan(movieId));
    reply := Ok(MovieDeleted);
  }

  /** Deleting removes every row with the id and keeps every other row, in order. */
  lemma DeleteMovieRemovesOnlyThatId(movies: seq<Movie>, movieId: int)
    ensures forall m :: m in Filter(movies, OtherThan(movieId)) <==> m in movies && m.movieId != movieId
    ensures IsSubsequence(Filter(movies, OtherThan(movieId)), movies)
  {
    FilterMembers(movies, OtherThan(movieId));
    FilterSubsequence(movies, OtherThan(movieId));
  }

  // ------------------------------------------------------------ purge_movies

  const AllowedTitles: seq<string> := [
    "Fast & Furious X",
    "Mission Impossible 8",
    "Laugh Out Loud",
    "The Funny Bone",
    "The Last Dance",
    "Broken Wings"
  ]

  /** `title IN (allowed_titles)`. */
  function Allowed(): Movie -> bool {
    (m: Movie) => m.title in AllowedTitles
  }

  /** `movie_id IN (SELECT movie_id FROM movies WHERE title NOT IN (allowed_titles))`. */
  predicate Doomed(movies: seq<Movie>, movieId: int) {
    exists i | 0 <= i < |movies| :: movies[i].movieId == movieId && movies[i].title !in AllowedTitles
  }

  function NotDoomed<T>(movieOf: T -> int, movies: seq<Movie>): T -> bool {
    (r: T) => !Doomed(movies, movieOf(r))
  }

  /** `DELETE FROM <table> WHERE movie_id IN (...)`, for a table whose rows name a movie through movieOf. */
  function KeepDependents<T>(rows: seq<T>, movieOf: T -> int, movies: seq<Movie>): (r: seq<T>)
    ensures |r| <= |rows|
    ensures forall i :: 0 <= i < |r| ==> !Doomed(movies, movieOf(r[i]))
  {
    var kept := Filter(rows, NotDoomed(movieOf, movies));
    FilterMembers(rows, NotDoomed(movieOf, movies));
    assert forall i :: 0 <= i < |kept| ==> kept[i] in kept;
    kept
  }

  function BookingMovie(b: BookingItem): int { b.movieId }
  function WatchMovie(w: WatchRow): int { w.movieId }
  function ReviewMovie(r: Review): int { r.movieId }

  /**
   * After the dependent deletions no kept row names a movie the purge
   * removes, every row naming no doomed id is kept, and order is preserved.
   */
  lemma DependentsPurged<T>(rows: seq<T>, movieOf: T -> int, movies: seq<Movie>)
    ensures forall r, m :: (r in KeepDependents(rows, movieOf, movies) && m in movies
              && m !in Filter(movies, Allowed())) ==> movieOf(r) != m.movieId
    ensures forall r :: r in rows && !Doomed(movies, movieOf(r)) ==> r in KeepDependents(rows, movieOf, movies)
    ensures IsSubsequence(KeepDependents(rows, movieOf, movies), rows)
  {
    FilterMembers(rows, NotDoomed(movieOf, movies));
    FilterMembers(movies, Allowed());
    FilterSubsequence(rows, NotDoomed(movieOf, movies));
    forall r, m | r in KeepDependents(rows, movieOf, movies) && m in movies && m !in Filter(movies, Allowed())
      ensures movieOf(r) != m.movieId
    {
      var i :| 0 <= i < |movies| && movies[i] == m;
      assert !Doomed(movies, movieOf(r));
    }
  }

  /** With unique ids, an allowed movie's id is not doomed, so the rows naming it survive. */
  lemma AllowedNotDoomed(movies: seq<Movie>, k: nat)
    requires UniqueMovieIds(movies) && k < |movies| && movies[k].title in AllowedTitles
    ensures !Doomed(movies, movies[k].movieId)
    ensures movies[k] in Filter(movies, Allowed())
  {
    FilterMembers(movies, Allowed());
    assert Allowed()(movies[k]);
    assert forall i :: 0 <= i < |movies| && movies[i].movieId == movies[k].movieId ==> i == k;
  }

  /** Every movie left after the purge has an allowed title; allowed movies all stay, in order. */
  lemma PurgeKeepsOnlyAllowed(movies: seq<Movie>)
    ensures forall m :: m in Filter(movies, Allowed()) ==> m.title in AllowedTitles
    ensures forall m :: m in movies && m.title in AllowedTitles ==> m in Filter(movies, Allowed())
    ensures IsSubsequence(Filter(movies, Allowed()), movies)
  {
    FilterMembers(movies, Allowed());
    FilterSubsequence(movies, Allowed());
  }

  /** POST /movies/purge: three dependent deletions, then the movies themselves. */
  method PurgeMovies(db: Db, admin: Credentials) returns (reply: Reply)
    requires db.Valid()
    modifies db
    ensures db.Valid()
    ensures reply == (if AdminGate(old(db.users), admin).Some? then AdminGate(old(db.users), admin).value
                      else Ok(MoviesPurged))
    ensures reply.Ok? ==>
              && db.bookingItems == KeepDependents(old(db.bookingItems), BookingMovie, old(db.movies))
              && db.watchlist == KeepDependents(old(db.watchlist), WatchMovie, old(db.movies))
              && db.reviews == KeepDependents(old(db.reviews), ReviewMovie, old(db.movies))
              && db.movies == Filter(old(db.movies), Allowed())
    ensures !reply.Ok? ==>
              && db.movies == old(db.movies) && db.bookingItems == old(db.bookingItems)
              && db.watchlist == old(db.watchlist) && db.reviews == old(db.reviews)
    ensures db.users == old(db.users) && db.genres == old(db.genres) && db.seatTriggers == old(db.seatTriggers)
  {
    var gate := AdminGate(db.users, admin);
    if gate.Some? {
      return gate.value;
    }
    // The dependent rows go first, each judged against the movies still present.
    var bookingItems := KeepDependents(db.bookingItems, BookingMovie, db.movies);
    var watchlist := KeepDependents(db.watchlist, WatchMovie, db.movies);
    var reviews := KeepDependents(db.reviews, ReviewMovie, db.movies);
    var movies := Filter(db.movies, Allowed());
    PurgeKeepsWatchlist(db);
    FilterKeepsMovies(db, Allowed());
    db.bookingItems, db.watchlist, db.reviews, db.movies := bookingItems, watchlist, reviews, movies;
    reply := Ok(MoviesPurged);
  }

  lemma PurgeKeepsWatchlist(db: Db)
    requires db.Valid()
    ensures var w := KeepDependents(db.watchlist, WatchMovie, db.movies);
            UniqueWatchIds(w) && forall i :: 0 <= i < |w| ==> w[i].watchlistId < db.nextWatchlistId
  {
    var keep := NotDoomed(WatchMovie, db.movies);
    var w := Filter(db.watchlist, keep);
    FilterKeepsPairwise(db.watchlist, keep, WatchKey());
    FilterMembers(db.watchlist, keep);
    forall i | 0 <= i < |w| ensures w[i].watchlistId < db.nextWatchlistId {
      assert w[i] in w;
    }
  }
}
