/** The three tables of the book store (genres, books, reviews), the closed
    reading-status enum, the column constraints an INSERT must satisfy, the
    cascade rules of the relationships, and a book's dictionary form. */
module Models {
  import opened Seqs
  import Text

  /** An abstract, monotonic stand-in for the database clock (`func.now()`). */
  type Timestamp = nat

  /** The closed set of reading states; `Value` is the enum member's value. */
  datatype ReadingStatus = ToRead | Reading | Completed {
    function Value(): string {
      match this
      case ToRead => "To Read"
      case Reading => "Reading"
      case Completed => "Completed"
    }
  }

  /** `Value` as a function value, the key of the per-status table. */
  function StatusValue(s: ReadingStatus): string { s.Value() }

  /** The members in declaration order, the order `for status in ReadingStatus` visits. */
  const AllStatuses: seq<ReadingStatus> := [ToRead, Reading, Completed]

  /** Enum lookup by value, `ReadingStatus(v)`; None where Python raises ValueError. */
  function StatusOfValue(v: string): (r: Option<ReadingStatus>)
    ensures r.Some? ==> r.value.Value() == v
    ensures r.None? ==> forall s: ReadingStatus :: s.Value() != v
  {
    if v == "To Read" then Some(ToRead)
    else if v == "Reading" then Some(Reading)
    else if v == "Completed" then Some(Completed)
    else None
  }

  /** The enum is closed: three members, listed once each, with distinct values. */
  lemma StatusesClosed(s: ReadingStatus)
    ensures s in AllStatuses && |AllStatuses| == 3
    ensures forall i, j :: 0 <= i < j < |AllStatuses| ==> AllStatuses[i].Value() != AllStatuses[j].Value()
    ensures StatusOfValue(s.Value()) == Some(s)
  {
  }

  datatype Genre = Genre(id: nat, name: string)

  datatype Book = Book(
    id: nat,
    title: string,
    author: string,
    status: ReadingStatus,
    genreId: Option<nat>,
    publicationYear: Option<int>,
    isbn: string,
    createdAt: Option<Timestamp>,
    updatedAt: Option<Timestamp>)

  datatype Review = Review(id: nat, bookId: nat, rating: real, comment: Option<string>, dateAdded: string)

  function GenreKey(g: Genre): nat { g.id }
  function GenreName(g: Genre): string { g.name }
  function BookKey(b: Book): nat { b.id }
  function BookIsbn(b: Book): string { b.isbn }
  function ReviewKey(r: Review): nat { r.id }

  function GenreIds(genres: seq<Genre>): set<nat> { KeySet(genres, GenreKey) }
  function GenreNames(genres: seq<Genre>): set<string> { KeySet(genres, GenreName) }
  function BookIds(books: seq<Book>): set<nat> { KeySet(books, BookKey) }
  function Isbns(books: seq<Book>): set<string> { KeySet(books, BookIsbn) }

  /** The table invariants: each table in primary-key order, `genres.name` and
      `books.isbn` unique, and every foreign key pointing at an existing row.
      NOT NULL columns need no clause: a `string` field is never null. */
  ghost predicate Schema(genres: seq<Genre>, books: seq<Book>, reviews: seq<Review>) {
    && StrictlyIncreasing(genres, GenreKey)
    && StrictlyIncreasing(books, BookKey)
    && StrictlyIncreasing(reviews, ReviewKey)
    && DistinctBy(genres, GenreName)
    && DistinctBy(books, BookIsbn)
    && (forall b | b in books :: b.genreId.Some? ==> b.genreId.value in GenreIds(genres))
    && (forall r | r in reviews :: r.bookId in BookIds(books))
  }

  /** What the invariant gives a query: a genre name, an isbn, or an id
      picks out at most one row of its table. */
  lemma SchemaKeys(genres: seq<Genre>, books: seq<Book>, reviews: seq<Review>)
    requires Schema(genres, books, reviews)
    ensures forall g, h :: g in genres && h in genres && g.name == h.name ==> g == h
    ensures forall g, h :: g in genres && h in genres && g.id == h.id ==> g == h
    ensures forall b, c :: b in books && c in books && b.isbn == c.isbn ==> b == c
    ensures forall b, c :: b in books && c in books && b.id == c.id ==> b == c
    ensures forall v, w :: v in reviews && w in reviews && v.id == w.id ==> v == w
  {
    forall g, h | g in genres && h in genres && g.name == h.name ensures g == h {
      DistinctKeysIdentify(genres, g, h, GenreName);
    }
    forall g, h | g in genres && h in genres && g.id == h.id ensures g == h {
      IncreasingKeysIdentify(genres, g, h, GenreKey);
    }
    forall b, c | b in books && c in books && b.isbn == c.isbn ensures b == c {
      DistinctKeysIdentify(books, b, c, BookIsbn);
    }
    forall b, c | b in books && c in books && b.id == c.id ensures b == c {
      IncreasingKeysIdentify(books, b, c, BookKey);
    }
    forall v, w | v in reviews && w in reviews && v.id == w.id ensures v == w {
      IncreasingKeysIdentify(reviews, v, w, ReviewKey);
    }
  }

  /** INSERT INTO genres: fails (None) when the name is NULL or already taken. */
  function InsertGenre(genres: seq<Genre>, name: Option<string>): (r: Option<Genre>)
    ensures r.Some? <==> name.Some? && name.value !in GenreNames(genres)
    ensures r.Some? ==> r.value.name == name.value
    ensures r.Some? && StrictlyIncreasing(genres, GenreKey) ==> r.value.id !in GenreIds(genres)
  {
    if name.None? || name.value in GenreNames(genres) then None
    else Some(Genre(NextKey(genres, GenreKey), name.value))
  }

  /** INSERT INTO books: fails (None) when title, author or isbn is NULL or the
      isbn is already taken; an omitted status takes the column default and
      both timestamps take the insert time. */
  function InsertBook(
    books: seq<Book>, title: Option<string>, author: Option<string>, status: Option<ReadingStatus>,
    genreId: Option<nat>, year: Option<int>, isbn: Option<string>, now: Timestamp): (r: Option<Book>)
    ensures r.Some? <==> title.Some? && author.Some? && isbn.Some? && isbn.value !in Isbns(books)
    ensures r.Some? ==> r.value.status == (if status.Some? then status.value else ToRead)
    ensures r.Some? ==> r.value.createdAt == Some(now) && r.value.updatedAt == Some(now)
    ensures r.Some? ==> && r.value.title == title.value && r.value.author == author.value
                        && r.value.isbn == isbn.value && r.value.genreId == genreId
                        && r.value.publicationYear == year
    ensures r.Some? && StrictlyIncreasing(books, BookKey) ==> r.value.id !in BookIds(books)
  {
    if title.None? || author.None? || isbn.None? || isbn.value in Isbns(books) then None
    else
      var s := if status.Some? then status.value else ToRead;
      Some(Book(NextKey(books, BookKey), title.value, author.value, s, genreId, year, isbn.value, Some(now), Some(now)))
  }

  /** INSERT INTO reviews for an existing book; no constraint of the table can fail. */
  function InsertReview(reviews: seq<Review>, bookId: nat, rating: real, comment: Option<string>, dateAdded: string): (r: Review)
    ensures r.bookId == bookId && r.rating == rating && r.comment == comment && r.dateAdded == dateAdded
    ensures StrictlyIncreasing(reviews, ReviewKey) ==> forall v :: v in reviews ==> v.id < r.id
  {
    Review(NextKey(reviews, ReviewKey), bookId, rating, comment, dateAdded)
  }

  lemma InsertGenreKeepsSchema(genres: seq<Genre>, books: seq<Book>, reviews: seq<Review>, name: Option<string>)
    requires Schema(genres, books, reviews) && InsertGenre(genres, name).Some?
    ensures Schema(genres + [InsertGenre(genres, name).value], books, reviews)
  {
    var g := InsertGenre(genres, name).value;
    AppendIncreasing(genres, g, GenreKey);
    AppendDistinct(genres, g, GenreName);
    assert GenreIds(genres) <= GenreIds(genres + [g]);
  }

  lemma InsertBookKeepsSchema(
    genres: seq<Genre>, books: seq<Book>, reviews: seq<Review>, title: Option<string>, author: Option<string>,
    status: Option<ReadingStatus>, genreId: Option<nat>, year: Option<int>, isbn: Option<string>, now: Timestamp)
    requires Schema(genres, books, reviews)
    requires InsertBook(books, title, author, status, genreId, year, isbn, now).Some?
    requires genreId.Some? ==> genreId.value in GenreIds(genres)
    ensures Schema(genres, books + [InsertBook(books, title, author, status, genreId, year, isbn, now).value], reviews)
  {
    var b := InsertBook(books, title, author, status, genreId, year, isbn, now).value;
    AppendIncreasing(books, b, BookKey);
    AppendDistinct(books, b, BookIsbn);
    assert BookIds(books) <= BookIds(books + [b]);
  }

  lemma InsertReviewKeepsSchema(
    genres: seq<Genre>, books: seq<Book>, reviews: seq<Review>, bookId: nat, rating: real, comment: Option<string>, dateAdded: string)
    requires Schema(genres, books, reviews) && bookId in BookIds(books)
    ensures Schema(genres, books, reviews + [InsertReview(reviews, bookId, rating, comment, dateAdded)])
  {
    AppendIncreasing(reviews, InsertReview(reviews, bookId, rating, comment, dateAdded), ReviewKey);
  }

  function IdIsNot(id: nat): Book -> bool { (b: Book) => b.id != id }
  function GenreIsNot(gid: nat): Genre -> bool { (g: Genre) => g.id != gid }
  function OutsideGenre(gid: nat): Book -> bool { (b: Book) => b.genreId != Some(gid) }
  function NotAbout(ids: set<nat>): Review -> bool { (r: Review) => r.bookId !in ids }

  /** The books of genre `gid`: the rows `Genre.books` holds. */
  function BookIdsInGenre(books: seq<Book>, gid: nat): set<nat> {
    set b | b in books && b.genreId == Some(gid) :: b.id
  }

  /** `session.delete(book)`: the `all, delete-orphan` cascade on
      `Book.reviews` removes the book's reviews in the same unit of work. */
  function DeleteBookCascade(books: seq<Book>, reviews: seq<Review>, id: nat): (r: (seq<Book>, seq<Review>))
    ensures forall b :: b in r.0 <==> b in books && b.id != id
    ensures forall v :: v in r.1 <==> v in reviews && v.bookId != id
  {
    (Filter(books, IdIsNot(id)), Filter(reviews, NotAbout({id})))
  }

  /** `session.delete(genre)`: the cascade on `Genre.books` removes the
      genre's books, and theirs on `Book.reviews` removes their reviews. */
  function DeleteGenreCascade(genres: seq<Genre>, books: seq<Book>, reviews: seq<Review>, gid: nat)
    : (r: (seq<Genre>, seq<Book>, seq<Review>))
    ensures forall g :: g in r.0 <==> g in genres && g.id != gid
    ensures forall b :: b in r.1 <==> b in books && b.genreId != Some(gid)
    ensures forall v :: v in r.2 <==> v in reviews && v.bookId !in BookIdsInGenre(books, gid)
  {
    (Filter(genres, GenreIsNot(gid)), Filter(books, OutsideGenre(gid)),
     Filter(reviews, NotAbout(BookIdsInGenre(books, gid))))
  }

  lemma DeleteBookKeepsSchema(genres: seq<Genre>, books: seq<Book>, reviews: seq<Review>, id: nat)
    requires Schema(genres, books, reviews)
    ensures var (books', reviews') := DeleteBookCascade(books, reviews, id);
            Schema(genres, books', reviews')
  {
    var (books', reviews') := DeleteBookCascade(books, reviews, id);
    FilterIncreasing(books, IdIsNot(id), BookKey);
    FilterDistinct(books, IdIsNot(id), BookIsbn);
    FilterIncreasing(reviews, NotAbout({id}), ReviewKey);
    forall v | v in reviews' ensures v.bookId in BookIds(books') {
      var b :| b in books && b.id == v.bookId;
      assert b in books';
    }
  }

  lemma DeleteGenreKeepsSchema(genres: seq<Genre>, books: seq<Book>, reviews: seq<Review>, gid: nat)
    requires Schema(genres, books, reviews)
    ensures var (genres', books', reviews') := DeleteGenreCascade(genres, books, reviews, gid);
            Schema(genres', books', reviews')
  {
    var (genres', books', reviews') := DeleteGenreCascade(genres, books, reviews, gid);
    FilterIncreasing(genres, GenreIsNot(gid), GenreKey);
    FilterDistinct(genres, GenreIsNot(gid), GenreName);
    FilterIncreasing(books, OutsideGenre(gid), BookKey);
    FilterDistinct(books, OutsideGenre(gid), BookIsbn);
    FilterIncreasing(reviews, NotAbout(BookIdsInGenre(books, gid)), ReviewKey);
    forall b | b in books' && b.genreId.Some? ensures b.genreId.value in GenreIds(genres') {
      var g :| g in genres && g.id == b.genreId.value;
      assert g in genres';
    }
    forall v | v in reviews' ensures v.bookId in BookIds(books') {
      var b :| b in books && b.id == v.bookId;
      assert b in books';
    }
  }

  /** Deleting a book with N reviews removes N + 1 rows: the book and exactly its reviews. */
  lemma {:induction false} DeleteBookRowCount(books: seq<Book>, reviews: seq<Review>, id: nat)
    requires StrictlyIncreasing(books, BookKey) && id in BookIds(books)
    ensures var (books', reviews') := DeleteBookCascade(books, reviews, id);
            && |books'| == |books| - 1
            && |reviews'| == |reviews| - |Filter(reviews, AboutBook(id))|
  {
    FilterRemovesOne(books, id);
    FilterComplement(reviews, id);
  }

  function AboutBook(id: nat): Review -> bool { (r: Review) => r.bookId == id }

  lemma {:induction false} FilterComplement(reviews: seq<Review>, id: nat)
    ensures |Filter(reviews, NotAbout({id}))| + |Filter(reviews, AboutBook(id))| == |reviews|
  {
    if reviews != [] {
      FilterComplement(reviews[1..], id);
    }
  }

  lemma {:induction false} FilterRemovesOne(books: seq<Book>, id: nat)
    requires StrictlyIncreasing(books, BookKey) && id in BookIds(books)
    ensures |Filter(books, IdIsNot(id))| == |books| - 1
  {
    if books[0].id == id {
      FilterAll(books[1..], IdIsNot(id));
    } else {
      var b :| b in books && b.id == id;
      assert b in books[1..];
      assert id in BookIds(books[1..]);
      FilterRemovesOne(books[1..], id);
    }
  }

  /** `created_at` is never changed and `updated_at` never moves backwards
      for a book present before and after a change. */
  ghost predicate TimestampsMonotone(before: seq<Book>, after: seq<Book>) {
    forall b, b' | b in before && b' in after && b.id == b'.id ::
      b'.createdAt == b.createdAt && MonotoneStamp(b.updatedAt, b'.updatedAt)
  }

  predicate MonotoneStamp(earlier: Option<Timestamp>, later: Option<Timestamp>) {
    earlier.Some? ==> later.Some? && earlier.value <= later.value
  }

  /** Every book carries both timestamps, created no later than updated, and
      neither later than the store's clock `now`. */
  ghost predicate Stamped(books: seq<Book>, now: Timestamp) {
    forall b | b in books ::
      && b.createdAt.Some? && b.updatedAt.Some?
      && b.createdAt.value <= b.updatedAt.value <= now
  }

  /** Flushing a book whose attributes went from `before` to `after`: when a
      column changed, an UPDATE is emitted and `onupdate=func.now()` stamps
      `updated_at`; when nothing changed, no UPDATE is emitted. */
  function FlushBook(before: Book, after: Book, now: Timestamp): (r: Book)
    requires after.id == before.id && after.createdAt == before.createdAt && after.updatedAt == before.updatedAt
    ensures r.id == before.id && r.createdAt == before.createdAt
    ensures r.(updatedAt := after.updatedAt) == after
    ensures r.updatedAt == (if after == before then before.updatedAt else Some(now))
  {
    if after == before then before else after.(updatedAt := Some(now))
  }

  /** `Book.to_dict()`: every column by name, the status as its display value,
      a timestamp rendered (`isoformat()`) when present and None when absent. */
  datatype BookDict = BookDict(
    id: nat,
    title: string,
    author: string,
    status: string,
    genreId: Option<nat>,
    publicationYear: Option<int>,
    isbn: string,
    createdAt: Option<string>,
    updatedAt: Option<string>)

  /** The text form of an abstract timestamp, standing for `isoformat()`. */
  function IsoFormat(t: Timestamp): string { Text.Decimal(t) }

  function RenderStamp(t: Option<Timestamp>): Option<string> {
    if t.Some? then Some(IsoFormat(t.value)) else None
  }

  function ToDict(b: Book): (d: BookDict)
    ensures StatusOfValue(d.status) == Some(b.status)
    ensures d.id == b.id && d.title == b.title && d.author == b.author && d.isbn == b.isbn
    ensures d.genreId == b.genreId && d.publicationYear == b.publicationYear
    ensures d.createdAt.None? <==> b.createdAt.None?
    ensures d.updatedAt.None? <==> b.updatedAt.None?
  {
    BookDict(
      b.id, b.title, b.author, b.status.Value(), b.genreId, b.publicationYear, b.isbn,
      RenderStamp(b.createdAt), RenderStamp(b.updatedAt))
  }

  /** The dictionary form loses nothing: distinct books have distinct dictionaries. */
  lemma ToDictInjective(a: Book, b: Book)
    requires ToDict(a) == ToDict(b)
    ensures a == b
  {
    assert StatusOfValue(ToDict(a).status) == Some(a.status);
    RenderStampInjective(a.createdAt, b.createdAt);
    RenderStampInjective(a.updatedAt, b.updatedAt);
  }

  lemma RenderStampInjective(s: Option<Timestamp>, t: Option<Timestamp>)
    requires RenderStamp(s) == RenderStamp(t)
    ensures s == t
  {
    if s.Some? && t.Some? {
      Text.ParseDecimal(s.value);
      Text.ParseDecimal(t.value);
    }
  }
}
