/**
 * The home page's search box, which narrows the movie cards to those whose
 * title or description contains the query ignoring case, and its
 * add-to-cart button, which needs a logged-in user.
 */
module Home {
  import opened Wrappers
  import opened Text
  import opened Sequences
  import Watchlist

  /** A movie as the page receives it; title and description may be null. */
  datatype MovieCard = MovieCard(movieId: int, title: Option<string>, description: Option<string>)

  /** `field && field.toLowerCase().includes(q)`, false for a null or empty field. */
  predicate FieldMatches(field: Option<string>, q: string) {
    field.Some? && field.value != "" && Contains(Lower(field.value), q)
  }

  /** The predicate passed to `movies.filter`: everything passes an empty search. */
  predicate MatchesSearch(search: string, m: MovieCard) {
    if search == "" then true
    else
      var q := Lower(search);
      FieldMatches(m.title, q) || FieldMatches(m.description, q)
  }

  function SearchPredicate(search: string): MovieCard -> bool {
    (m: MovieCard) => MatchesSearch(search, m)
  }

  /** The cards rendered for a search. */
  function VisibleMovies(movies: seq<MovieCard>, search: string): seq<MovieCard> {
    Filter(movies, SearchPredicate(search))
  }

  /** An empty search shows every movie in its original order. */
  lemma EmptySearchKeepsAll(movies: seq<MovieCard>)
    ensures VisibleMovies(movies, "") == movies
  {
    FilterAll(movies, SearchPredicate(""));
  }

  /**
   * For a non-empty search, a movie is shown exactly when its lower-cased
   * title or description contains the lower-cased search.
   */
  lemma SearchKeepsExactlyMatches(movies: seq<MovieCard>, search: string)
    requires search != ""
    ensures forall m :: m in VisibleMovies(movies, search) <==>
              m in movies
              && ((m.title.Some? && Contains(Lower(m.title.value), Lower(search)))
                  || (m.description.Some? && Contains(Lower(m.description.value), Lower(search))))
  {
    FilterMembers(movies, SearchPredicate(search));
    forall f: Option<string> | f.Some? && f.value == "" ensures !Contains(Lower(f.value), Lower(search)) {
      NothingInEmpty(Lower(search));
    }
  }

  /** A non-empty query occurs nowhere in the empty string. */
  lemma NothingInEmpty(q: string)
    requires q != ""
    ensures !Contains("", q)
  {
  }

  /** Search never adds or reorders movies. */
  lemma SearchIsSubsequence(movies: seq<MovieCard>, search: string)
    ensures IsSubsequence(VisibleMovies(movies, search), movies)
  {
    FilterSubsequence(movies, SearchPredicate(search));
  }

  /** For a non-empty search, a movie with neither title nor description is hidden. */
  lemma NoTextHidden(movies: seq<MovieCard>, search: string, m: MovieCard)
    requires search != "" && m.title.None? && m.description.None?
    ensures m !in VisibleMovies(movies, search)
  {
    FilterMembers(movies, SearchPredicate(search));
  }

  /** The signed-in user read from localStorage; customer_id may be missing. */
  datatype Session = Session(customerId: Option<int>)

  /** addToCart's effect: an error message without a user, otherwise one watchlist request. */
  datatype CartAction = LoginRequired(message: string) | SendAdd(request: Watchlist.AddRequest)

  const PleaseLogin := "Please login first"

  /** `addToCart(movie_id, seats)`, sending `{user_id: user.customer_id, movie_id, seats_selected: seats}`. */
  function AddToCart(user: Option<Session>, movieId: int, seats: int): (r: CartAction)
    ensures r.LoginRequired? <==> user.None?
    ensures r.LoginRequired? ==> r.message == PleaseLogin
    ensures r.SendAdd? ==> r.request.userId == user.value.customerId && r.request.movieId == Some(movieId)
    ensures r.SendAdd? ==> r.request.seatsSelected == Some(seats)
    ensures r.SendAdd? ==> r.request.customerId.None? && r.request.productId.None? && r.request.quantity.None?
  {
    match user
    case None => LoginRequired(PleaseLogin)
    case Some(session) =>
      SendAdd(Watchlist.AddRequest(session.customerId, None, Some(movieId), None, Some(seats), None))
  }

  /**
   * The request the page sends resolves on the server to the user's
   * customer id and the movie (nothing when they are missing or 0, which the
   * server answers with 400) and to the chosen seats (1 when seats is 0).
   */
  lemma CartRequestResolves(session: Session, movieId: int, seats: int)
    ensures var r := Watchlist.Resolve(AddToCart(Some(session), movieId, seats).request);
            && r.userId == (if session.customerId != Some(0) then session.customerId else None)
            && r.movieId == (if movieId != 0 then Some(movieId) else None)
            && r.seats == (if seats != 0 then seats else 1)
  {
  }
}
