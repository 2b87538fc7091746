/** The read-only operations of the book store: the substring search over
    title, author and isbn, the per-status and per-genre statistics, and the
    top-rated ranking. Each reads the tables as they are and changes nothing. */
module Queries {
  import opened Seqs
  import opened Text
  import opened Models

  // ---------------------------------------------------------------------
  // search_books
  // ---------------------------------------------------------------------

  /** `title ILIKE '%term%' OR author ILIKE '%term%' OR isbn ILIKE '%term%'`,
      which SQLite evaluates as a substring test on ASCII-lowered text. */
  function MatchesTerm(term: string): Book -> bool {
    (b: Book) =>
      || Contains(Lower(b.title), Lower(term))
      || Contains(Lower(b.author), Lower(term))
      || Contains(Lower(b.isbn), Lower(term))
  }

  /** The rows `search_books` lists, in row order. */
  function SearchBooks(books: seq<Book>, term: string): (r: seq<Book>)
    ensures |r| <= |books|
    ensures forall b :: b in r <==> b in books && MatchesTerm(term)(b)
  {
    Filter(books, MatchesTerm(term))
  }

  /** A book is found exactly when the lowered term occurs in its lowered
      title, author or isbn. */
  lemma SearchBooksExact(books: seq<Book>, term: string, b: Book)
    ensures b in SearchBooks(books, term) <==>
              && b in books
              && ( || (exists i :: OccursAt(Lower(b.title), Lower(term), i))
                   || (exists i :: OccursAt(Lower(b.author), Lower(term), i))
                   || (exists i :: OccursAt(Lower(b.isbn), Lower(term), i)))
  {
    ContainsOccurs(Lower(b.title), Lower(term));
    ContainsOccurs(Lower(b.author), Lower(term));
    ContainsOccurs(Lower(b.isbn), Lower(term));
  }

  /** Letter case of the term does not matter. */
  lemma SearchIgnoresCase(books: seq<Book>, term: string)
    ensures SearchBooks(books, Lower(term)) == SearchBooks(books, term)
  {
    LowerIdempotent(term);
  }

  /** The results keep the table's row order. */
  lemma SearchKeepsRowOrder(books: seq<Book>, term: string)
    requires StrictlyIncreasing(books, BookKey)
    ensures StrictlyIncreasing(SearchBooks(books, term), BookKey)
  {
    FilterIncreasing(books, MatchesTerm(term), BookKey);
  }

  /** An empty term (pattern `%%`) lists every book. */
  lemma SearchEmptyTermListsAll(books: seq<Book>)
    ensures SearchBooks(books, "") == books
  {
    FilterAll(books, MatchesTerm(""));
  }

  // ---------------------------------------------------------------------
  // get_book_statistics
  // ---------------------------------------------------------------------

  function HasStatus(s: ReadingStatus): Book -> bool { (b: Book) => b.status == s }
  function InGenre(gid: nat): Book -> bool { (b: Book) => b.genreId == Some(gid) }

  /** `query(Book).filter_by(status=s).count()` */
  function CountWithStatus(books: seq<Book>, s: ReadingStatus): (c: nat)
    ensures c <= |books|
    ensures c == 0 <==> forall b :: b in books ==> b.status != s
  {
    FilterEmpty(books, HasStatus(s));
    |Filter(books, HasStatus(s))|
  }

  /** `query(Book).filter_by(genre_id=gid).count()` */
  function CountInGenre(books: seq<Book>, gid: nat): (c: nat)
    ensures c <= |books|
    ensures c == 0 <==> forall b :: b in books ==> b.genreId != Some(gid)
  {
    FilterEmpty(books, InGenre(gid));
    |Filter(books, InGenre(gid))|
  }

  function Sum(xs: seq<real>): real {
    if xs == [] then 0.0 else xs[0] + Sum(xs[1..])
  }

  /** SQL `AVG` over the values, with `or 0` turning the empty group's NULL into 0. */
  function Average(xs: seq<real>): (a: real)
    ensures xs == [] ==> a == 0.0
    ensures xs != [] ==> a * (|xs| as real) == Sum(xs)
  {
    if xs == [] then 0.0 else Sum(xs) / (|xs| as real)
  }

  function Ratings(rs: seq<Review>): (r: seq<real>)
    ensures |r| == |rs| && forall i :: 0 <= i < |rs| ==> r[i] == rs[i].rating
  {
    seq(|rs|, i requires 0 <= i < |rs| => rs[i].rating)
  }

  /** A review joins a book of genre `gid` (`join(Book).filter(Book.genre_id == gid)`). */
  function ReviewInGenre(books: seq<Book>, gid: nat): Review -> bool {
    (r: Review) => exists b | b in books :: b.id == r.bookId && b.genreId == Some(gid)
  }

  /** The average rating over all reviews of the genre's books. */
  function GenreAverage(books: seq<Book>, reviews: seq<Review>, gid: nat): (a: real)
    ensures (forall r :: r in reviews ==> !ReviewInGenre(books, gid)(r)) ==> a == 0.0
  {
    FilterEmpty(reviews, ReviewInGenre(books, gid));
    Average(Ratings(Filter(reviews, ReviewInGenre(books, gid))))
  }

  datatype Statistics = Statistics(
    totalBooks: nat,
    booksByStatus: map<string, nat>,
    averageRatings: map<string, real>,
    genreCounts: map<string, nat>)

  /** `get_book_statistics`: a count per status value (zero counts included),
      and per genre name the average rating and the number of books. */
  method BookStatistics(genres: seq<Genre>, books: seq<Book>, reviews: seq<Review>) returns (stats: Statistics)
    requires DistinctBy(genres, GenreName)
    ensures stats.totalBooks == |books|
    ensures stats.booksByStatus.Keys == {"To Read", "Reading", "Completed"}
    ensures forall s: ReadingStatus :: s.Value() in stats.booksByStatus &&
              stats.booksByStatus[s.Value()] == CountWithStatus(books, s)
    ensures stats.averageRatings.Keys == GenreNames(genres) && stats.genreCounts.Keys == GenreNames(genres)
    ensures forall g :: g in genres ==>
              && stats.averageRatings[g.name] == GenreAverage(books, reviews, g.id)
              && stats.genreCounts[g.name] == CountInGenre(books, g.id)
  {
    var byStatus := CountByStatus(books);
    var averages, counts := TallyGenres(genres, books, reviews);
    stats := Statistics(|books|, byStatus, averages, counts);
  }

  function StatusCount(books: seq<Book>): ReadingStatus -> nat { (s: ReadingStatus) => CountWithStatus(books, s) }
  function GenreAverageOf(books: seq<Book>, reviews: seq<Review>): Genre -> real {
    (g: Genre) => GenreAverage(books, reviews, g.id)
  }
  function GenreCountOf(books: seq<Book>): Genre -> nat { (g: Genre) => CountInGenre(books, g.id) }

  /** The `books_by_status` loop: one entry per enum value, in declaration order. */
  method CountByStatus(books: seq<Book>) returns (byStatus: map<string, nat>)
    ensures byStatus.Keys == {"To Read", "Reading", "Completed"}
    ensures forall s: ReadingStatus :: s.Value() in byStatus && byStatus[s.Value()] == CountWithStatus(books, s)
  {
    byStatus := map[];
    for i := 0 to |AllStatuses|
      invariant Tabulates(AllStatuses[..i], StatusValue, StatusCount(books), byStatus)
    {
      var s := AllStatuses[i];
      assert AllStatuses[..i + 1] == AllStatuses[..i] + [s];
      DistinctPrefix(AllStatuses, i, StatusValue);
      TabulateAppend(AllStatuses[..i], s, StatusValue, StatusCount(books), byStatus);
      byStatus := byStatus[s.Value() := CountWithStatus(books, s)];
    }
    assert AllStatuses[..|AllStatuses|] == AllStatuses;
    StatusValues();
    forall s: ReadingStatus ensures s.Value() in byStatus && byStatus[s.Value()] == CountWithStatus(books, s) {
      assert s in AllStatuses;
      assert StatusValue(s) in byStatus && byStatus[StatusValue(s)] == StatusCount(books)(s);
    }
  }

  /** The display strings of the enum's members, as the status loop visits them. */
  lemma StatusValues()
    ensures KeySet(AllStatuses, StatusValue) == {"To Read", "Reading", "Completed"}
    ensures forall s: ReadingStatus :: s in AllStatuses
  {
    assert StatusValue(AllStatuses[0]) == "To Read";
    assert StatusValue(AllStatuses[1]) == "Reading";
    assert StatusValue(AllStatuses[2]) == "Completed";
    forall s: ReadingStatus ensures s in AllStatuses {
      StatusesClosed(s);
    }
  }

  /** The loop over genres: `average_ratings` and `genre_counts` keyed by genre name. */
  method TallyGenres(genres: seq<Genre>, books: seq<Book>, reviews: seq<Review>)
    returns (averages: map<string, real>, counts: map<string, nat>)
    requires DistinctBy(genres, GenreName)
    ensures averages.Keys == GenreNames(genres) && counts.Keys == GenreNames(genres)
    ensures forall g :: g in genres ==>
              && averages[g.name] == GenreAverage(books, reviews, g.id)
              && counts[g.name] == CountInGenre(books, g.id)
  {
    averages, counts := map[], map[];
    for i := 0 to |genres|
      invariant Tabulates(genres[..i], GenreName, GenreAverageOf(books, reviews), averages)
      invariant Tabulates(genres[..i], GenreName, GenreCountOf(books), counts)
    {
      var g := genres[i];
      assert genres[..i + 1] == genres[..i] + [g];
      DistinctPrefix(genres, i, GenreName);
      TabulateAppend(genres[..i], g, GenreName, GenreAverageOf(books, reviews), averages);
      TabulateAppend(genres[..i], g, GenreName, GenreCountOf(books), counts);
      averages := averages[g.name := GenreAverage(books, reviews, g.id)];
      counts := counts[g.name := CountInGenre(books, g.id)];
    }
    assert genres[..|genres|] == genres;
  }

  /** The per-status counts add up to the total number of books. */
  lemma {:induction false} StatusCountsSum(books: seq<Book>)
    ensures CountWithStatus(books, ToRead) + CountWithStatus(books, Reading) + CountWithStatus(books, Completed) == |books|
  {
    if books != [] {
      StatusCountsSum(books[1..]);
    }
  }

  lemma {:induction false} SumBounds(xs: seq<real>, lo: real, hi: real)
    requires forall i :: 0 <= i < |xs| ==> lo <= xs[i] <= hi
    ensures (|xs| as real) * lo <= Sum(xs) <= (|xs| as real) * hi
  {
    if xs != [] {
      SumBounds(xs[1..], lo, hi);
    }
  }

  /** An average lies between the smallest and the largest value averaged. */
  lemma AverageBounds(xs: seq<real>, lo: real, hi: real)
    requires xs != []
    requires forall i :: 0 <= i < |xs| ==> lo <= xs[i] <= hi
    ensures lo <= Average(xs) <= hi
  {
    SumBounds(xs, lo, hi);
    var n := |xs| as real;
    assert Average(xs) == Sum(xs) / n;
    assert Sum(xs) / n - lo == (Sum(xs) - n * lo) / n;
    assert hi - Sum(xs) / n == (n * hi - Sum(xs)) / n;
  }

  // ---------------------------------------------------------------------
  // get_top_rated_books
  // ---------------------------------------------------------------------

  /** One group of the join: a reviewed book with its average rating. */
  datatype RatedBook = RatedBook(bookId: nat, title: string, author: string, avgRating: real)

  /** The inner join keeps a book only when it has at least one review. */
  function IsReviewed(reviews: seq<Review>): Book -> bool {
    (b: Book) => exists r | r in reviews :: r.bookId == b.id
  }

  /** `avg(Review.rating)` over one book's reviews; a single review gives its own rating. */
  function AverageRating(reviews: seq<Review>, id: nat): (a: real)
    ensures Filter(reviews, AboutBook(id)) == [] ==> a == 0.0
    ensures |Filter(reviews, AboutBook(id))| == 1 ==> a == Filter(reviews, AboutBook(id))[0].rating
  {
    var rs := Ratings(Filter(reviews, AboutBook(id)));
    assert |rs| == 1 ==> Sum(rs) == rs[0] + Sum(rs[1..]) && rs[1..] == [];
    Average(rs)
  }

  function Rated(reviews: seq<Review>, b: Book): RatedBook {
    RatedBook(b.id, b.title, b.author, AverageRating(reviews, b.id))
  }

  /** The groups of `join(Review).group_by(Book.id)`, in row order. */
  function Groups(books: seq<Book>, reviews: seq<Review>): (r: seq<RatedBook>)
    ensures |r| == |Filter(books, IsReviewed(reviews))| && |r| <= |books|
    ensures forall i :: 0 <= i < |r| ==>
              exists b :: b in books && IsReviewed(reviews)(b) && r[i] == Rated(reviews, b)
  {
    var reviewed := Filter(books, IsReviewed(reviews));
    assert forall i :: 0 <= i < |reviewed| ==> reviewed[i] in reviewed;
    seq(|reviewed|, i requires 0 <= i < |reviewed| => Rated(reviews, reviewed[i]))
  }

  /** The groups are exactly the reviewed books with their averages. */
  lemma GroupsExact(books: seq<Book>, reviews: seq<Review>, e: RatedBook)
    ensures e in Groups(books, reviews) <==> exists b :: b in books && IsReviewed(reviews)(b) && e == Rated(reviews, b)
  {
    var reviewed := Filter(books, IsReviewed(reviews));
    if e in Groups(books, reviews) {
      var i :| 0 <= i < |reviewed| && Groups(books, reviews)[i] == e;
      assert reviewed[i] in reviewed;
    }
    if exists b :: b in books && IsReviewed(reviews)(b) && e == Rated(reviews, b) {
      var b :| b in books && IsReviewed(reviews)(b) && e == Rated(reviews, b);
      var i :| 0 <= i < |reviewed| && reviewed[i] == b;
      assert Groups(books, reviews)[i] == e;
    }
  }

  ghost predicate NonIncreasing(es: seq<RatedBook>) {
    forall i, j :: 0 <= i < j < |es| ==> es[i].avgRating >= es[j].avgRating
  }

  /** Places `e` before the first entry rated no higher than `e`. */
  function InsertByRating(e: RatedBook, sorted: seq<RatedBook>): (r: seq<RatedBook>)
    ensures |r| == |sorted| + 1
    ensures forall x :: x in r <==> x == e || x in sorted
  {
    if sorted == [] || e.avgRating >= sorted[0].avgRating then [e] + sorted
    else [sorted[0]] + InsertByRating(e, sorted[1..])
  }

  /** `order_by(avg(rating).desc())`: a stable sort by average, highest first. */
  function RankByRating(es: seq<RatedBook>): (r: seq<RatedBook>)
    ensures |r| == |es|
    ensures forall x :: x in r <==> x in es
  {
    if es == [] then [] else InsertByRating(es[0], RankByRating(es[1..]))
  }

  lemma {:induction false} InsertByRatingPermutes(e: RatedBook, sorted: seq<RatedBook>)
    ensures multiset(InsertByRating(e, sorted)) == multiset(sorted) + multiset{e}
  {
    if sorted != [] && e.avgRating < sorted[0].avgRating {
      InsertByRatingPermutes(e, sorted[1..]);
      assert InsertByRating(e, sorted) == [sorted[0]] + InsertByRating(e, sorted[1..]);
      assert sorted == [sorted[0]] + sorted[1..];
      assert multiset(sorted) == multiset{sorted[0]} + multiset(sorted[1..]);
    }
  }

  lemma {:induction false} InsertByRatingSorted(e: RatedBook, sorted: seq<RatedBook>)
    requires NonIncreasing(sorted)
    ensures NonIncreasing(InsertByRating(e, sorted))
  {
    if sorted != [] && e.avgRating < sorted[0].avgRating {
      var rest := InsertByRating(e, sorted[1..]);
      InsertByRatingSorted(e, sorted[1..]);
      var r := [sorted[0]] + rest;
      assert r == InsertByRating(e, sorted);
      forall i, j | 0 <= i < j < |r| ensures r[i].avgRating >= r[j].avgRating {
        if i == 0 {
          assert r[j] == rest[j - 1];
          assert r[j] in rest;
          if r[j] != e {
            var k :| 0 <= k < |sorted[1..]| && sorted[1..][k] == r[j];
            assert sorted[k + 1] == r[j];
          }
        } else {
          assert r[i] == rest[i - 1] && r[j] == rest[j - 1];
        }
      }
    }
  }

  /** The ranking is ordered by average, highest first. */
  lemma {:induction false} RankByRatingSorted(es: seq<RatedBook>)
    ensures NonIncreasing(RankByRating(es))
  {
    if es != [] {
      RankByRatingSorted(es[1..]);
      InsertByRatingSorted(es[0], RankByRating(es[1..]));
    }
  }

  /** The ranking reorders the groups without loss or duplication. */
  lemma {:induction false} RankByRatingPermutes(es: seq<RatedBook>)
    ensures multiset(RankByRating(es)) == multiset(es)
  {
    if es != [] {
      RankByRatingPermutes(es[1..]);
      InsertByRatingPermutes(es[0], RankByRating(es[1..]));
      assert es == [es[0]] + es[1..];
    }
  }

  /** `.limit(limit)`: SQLite reads a negative limit as "no limit". */
  function TopRatedEntries(books: seq<Book>, reviews: seq<Review>, limit: int := 5): (r: seq<RatedBook>)
    ensures r <= RankByRating(Groups(books, reviews))
    ensures limit >= 0 ==> |r| <= limit
    ensures |r| < |Groups(books, reviews)| ==> |r| == limit
  {
    var ranked := RankByRating(Groups(books, reviews));
    if limit < 0 || limit >= |ranked| then ranked else ranked[..limit]
  }

  /** `get_top_rated_books`: (title, author, average) per entry, in rank order. */
  function TopRatedBooks(books: seq<Book>, reviews: seq<Review>, limit: int := 5): (r: seq<(string, string, real)>)
    ensures var es := TopRatedEntries(books, reviews, limit);
            |r| == |es| && forall i :: 0 <= i < |r| ==> r[i] == (es[i].title, es[i].author, es[i].avgRating)
    ensures limit >= 0 ==> |r| <= limit
    ensures forall i, j :: 0 <= i < j < |r| ==> r[i].2 >= r[j].2
  {
    TopRatedShape(books, reviews, limit);
    var es := TopRatedEntries(books, reviews, limit);
    seq(|es|, i requires 0 <= i < |es| => (es[i].title, es[i].author, es[i].avgRating))
  }

  /** At most `limit` entries (all groups for a negative limit), ordered by
      average highest first, each a reviewed book with its true average. */
  lemma TopRatedShape(books: seq<Book>, reviews: seq<Review>, limit: int)
    ensures var r := TopRatedEntries(books, reviews, limit);
            var n := |Filter(books, IsReviewed(reviews))|;
            && |r| == (if limit < 0 || limit >= n then n else limit)
            && NonIncreasing(r)
            && forall e :: e in r ==> e in Groups(books, reviews)
  {
    var groups := Groups(books, reviews);
    var ranked := RankByRating(groups);
    RankByRatingSorted(groups);
    RankByRatingPermutes(groups);
    assert |ranked| == |groups| by {
      assert |multiset(ranked)| == |multiset(groups)|;
    }
    forall e | e in TopRatedEntries(books, reviews, limit) ensures e in groups {
      assert e in ranked;
      assert e in multiset(ranked);
    }
  }

  /** No reviewed book left out of the result is rated above its last entry. */
  lemma TopRatedOmitsNoBetter(books: seq<Book>, reviews: seq<Review>, limit: int, b: Book)
    requires b in books && IsReviewed(reviews)(b)
    requires Rated(reviews, b) !in TopRatedEntries(books, reviews, limit)
    ensures var r := TopRatedEntries(books, reviews, limit);
            |r| > 0 ==> AverageRating(reviews, b.id) <= r[|r| - 1].avgRating
  {
    var groups := Groups(books, reviews);
    var ranked := RankByRating(groups);
    var r := TopRatedEntries(books, reviews, limit);
    RankByRatingSorted(groups);
    RankByRatingPermutes(groups);
    GroupsExact(books, reviews, Rated(reviews, b));
    assert Rated(reviews, b) in multiset(ranked);
    var j :| 0 <= j < |ranked| && ranked[j] == Rated(reviews, b);
    if |r| > 0 {
      assert r[|r| - 1] == ranked[|r| - 1];
    }
  }

  /** Books without a review never appear. */
  lemma TopRatedOnlyReviewed(books: seq<Book>, reviews: seq<Review>, limit: int, e: RatedBook)
    requires e in TopRatedEntries(books, reviews, limit)
    ensures exists b :: b in books && b.id == e.bookId && (exists r :: r in reviews && r.bookId == b.id)
  {
    TopRatedShape(books, reviews, limit);
    GroupsExact(books, reviews, e);
  }
}
