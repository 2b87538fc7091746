/** The operations that change the book store. Each takes the user's typed
    answers as parameters and runs as one unit of work: a commit that fails
    is rolled back, so a failed operation leaves every table as it was. The
    one exception is the genre-name `add_book`: its genre commit stands when
    the book insert then fails. */
module Commands {
  import opened Seqs
  import opened Text
  import opened Models

  /** `int(answer) if answer else None`: a blank answer means "no year". */
  function ParseOptionalYear(answer: string): (r: ParseResult<Option<int>>)
    ensures r == Parsed(None) <==> answer == ""
    ensures r.ValueError? <==> answer != "" && !AllDigits(answer)
  {
    if answer == "" then Parsed(None)
    else match ParseInt(answer)
      case Parsed(n) => Parsed(Some(n))
      case ValueError => ValueError
  }

  /** `int(answer) if answer else current`: a blank answer keeps the current year. */
  function ParseYearOrKeep(answer: string, current: Option<int>): (r: ParseResult<Option<int>>)
    ensures answer == "" ==> r == Parsed(current)
    ensures r.ValueError? <==> answer != "" && !AllDigits(answer)
  {
    if answer == "" then Parsed(current)
    else match ParseInt(answer)
      case Parsed(n) => Parsed(Some(n))
      case ValueError => ValueError
  }

  /** A typed year is read back as that year by both prompts. */
  lemma {:induction false} YearAnswerRoundTrip(year: nat, current: Option<int>)
    ensures ParseOptionalYear(Decimal(year)) == Parsed(Some(year))
    ensures ParseYearOrKeep(Decimal(year), current) == Parsed(Some(year))
  {
    ParseDecimal(year);
  }

  /** `answer or current`: Python's `or` keeps the current text for a blank answer. */
  function KeepIfBlank(answer: string, current: string): (r: string)
    ensures r == answer || r == current
    ensures answer != "" ==> r == answer
    ensures r == "" ==> answer == "" && current == ""
  {
    if answer == "" then current else answer
  }

  /** `confirm.lower() == 'y'`: exactly the answers "y" and "Y" confirm a deletion. */
  predicate Confirmed(answer: string): (ok: bool)
    ensures ok <==> answer == "y" || answer == "Y"
  {
    LowersToY(answer);
    Lower(answer) == "y"
  }

  /** Exactly "y" and "Y" lower to "y". */
  lemma LowersToY(answer: string)
    ensures Lower(answer) == "y" <==> answer == "y" || answer == "Y"
  {
    if Lower(answer) == "y" {
      assert |answer| == 1 && Lower(answer)[0] == 'y';
      assert LowerChar(answer[0]) == 'y';
      assert answer == [answer[0]];
    }
    if answer == "Y" {
      assert Lower(answer) == [LowerChar('Y')];
    }
  }

  function HasId(id: nat): Book -> bool { (b: Book) => b.id == id }
  function HasTitle(title: string): Book -> bool { (b: Book) => b.title == title }
  function HasName(name: string): Genre -> bool { (g: Genre) => g.name == name }

  /** `query(Book).filter(Book.id == id).first()`, as a row index. */
  function BookIndexById(books: seq<Book>, id: nat): (r: Option<nat>)
    ensures r.Some? ==> r.value < |books| && books[r.value].id == id
    ensures r.None? <==> id !in BookIds(books)
  {
    var r := FirstIndex(books, HasId(id));
    assert r.Some? ==> books[r.value] in books;
    r
  }

  /** `query(Book).filter_by(title=title).first()`, as a row index. */
  function BookIndexByTitle(books: seq<Book>, title: string): (r: Option<nat>)
    ensures r.Some? ==> r.value < |books| && books[r.value].title == title
    ensures r.Some? ==> forall j :: 0 <= j < r.value ==> books[j].title != title
    ensures r.None? <==> forall b :: b in books ==> b.title != title
  {
    var r := FirstIndex(books, HasTitle(title));
    assert r.None? ==> forall b :: b in books ==> b.title != title by {
      if r.None? {
        forall b | b in books ensures b.title != title {
          var j :| 0 <= j < |books| && books[j] == b;
          assert !HasTitle(title)(books[j]);
        }
      }
    }
    r
  }

  /** `query(Genre).filter_by(name=name).first()`; a NULL name matches no row. */
  function GenreIndexByName(genres: seq<Genre>, name: Option<string>): (r: Option<nat>)
    ensures r.Some? ==> r.value < |genres| && name == Some(genres[r.value].name)
    ensures r.None? <==> name.None? || name.value !in GenreNames(genres)
  {
    if name.None? then None
    else
      var r := FirstIndex(genres, HasName(name.value));
      assert r.Some? ==> genres[r.value] in genres;
      r
  }

  /** Some book other than the one at index `i` already has `isbn`. */
  predicate IsbnTakenByOther(books: seq<Book>, i: nat, isbn: string) {
    exists j :: 0 <= j < |books| && j != i && books[j].isbn == isbn
  }

  /** A book row present both before and after keeps `created_at` and never
      moves `updated_at` back, when every row after is an old row, a row
      with a new id, or the old row at `i` flushed with `FlushBook`. */
  lemma {:induction false} StampsAfterReplace(before: seq<Book>, i: nat, after: seq<Book>, now: Timestamp)
    requires StrictlyIncreasing(before, BookKey) && Stamped(before, now) && i < |before|
    requires |after| == |before| && forall j :: 0 <= j < |before| && j != i ==> after[j] == before[j]
    requires after[i].id == before[i].id && after[i].createdAt == before[i].createdAt
    requires MonotoneStamp(before[i].updatedAt, after[i].updatedAt)
    ensures TimestampsMonotone(before, after)
  {
    forall b, b' | b in before && b' in after && b.id == b'.id
      ensures b'.createdAt == b.createdAt && MonotoneStamp(b.updatedAt, b'.updatedAt)
    {
      var j :| 0 <= j < |after| && after[j] == b';
      IncreasingKeysIdentify(before, b, before[j], BookKey);
    }
  }

  lemma StampsAfterShrinkOrGrow(before: seq<Book>, after: seq<Book>)
    requires StrictlyIncreasing(before, BookKey)
    requires forall b' :: b' in after ==> b' in before || b'.id !in BookIds(before)
    ensures TimestampsMonotone(before, after)
  {
    forall b, b' | b in before && b' in after && b.id == b'.id
      ensures b'.createdAt == b.createdAt && MonotoneStamp(b.updatedAt, b'.updatedAt)
    {
      assert b.id in BookIds(before);
      IncreasingKeysIdentify(before, b, b', BookKey);
    }
  }

  /** Replacing the book at `i` by a row that keeps its id, genre and
      `created_at`, stamps `updated_at` no earlier than before and no later
      than `now`, and holds an isbn no other book has, keeps the table
      invariant and the timestamp rules. */
  lemma ReplaceBookKeepsValid(
    genres: seq<Genre>, books: seq<Book>, reviews: seq<Review>, clock: Timestamp, i: nat, row: Book, now: Timestamp)
    requires Schema(genres, books, reviews) && Stamped(books, clock) && clock <= now && i < |books|
    requires row.id == books[i].id && row.genreId == books[i].genreId && row.createdAt == books[i].createdAt
    requires MonotoneStamp(books[i].updatedAt, row.updatedAt) && row.updatedAt.Some? && row.updatedAt.value <= now
    requires !IsbnTakenByOther(books, i, row.isbn)
    ensures Schema(genres, books[i := row], reviews) && Stamped(books[i := row], now)
    ensures TimestampsMonotone(books, books[i := row])
  {
    ReplaceSameKey(books, i, row, BookKey);
    ReplaceDistinct(books, i, row, BookIsbn);
    StampsAfterReplace(books, i, books[i := row], clock);
    assert books[i] in books;
  }

  datatype AddOutcome = AddBadYear | Added(bookId: nat) | AddRolledBack

  datatype LegacyAddOutcome =
    | GenreRejected
    | BookRejected(genreId: nat)
    | BookAdded(genreId: nat, bookId: nat)

  datatype UpdateOutcome = UpdateBadId | UpdateNoBook | UpdateBadYear | UpdateRolledBack | Updated

  datatype DeleteOutcome = DeleteBadId | DeleteNoBook | DeleteCancelled | Deleted

  /** The three tables and the clock that stamps their rows. */
  class Store {
    var genres: seq<Genre>
    var books: seq<Book>
    var reviews: seq<Review>
    var clock: Timestamp

    ghost predicate Valid()
      reads this
    {
      Schema(genres, books, reviews) && Stamped(books, clock)
    }

    constructor ()
      ensures Valid()
      ensures genres == [] && books == [] && reviews == [] && clock == 0
    {
      genres, books, reviews, clock := [], [], [], 0;
    }

    /** `add_genre(name)`: inserts a genre; a NULL or taken name fails the commit. */
    method AddGenre(name: Option<string>) returns (id: Option<nat>)
      requires Valid()
      modifies this
      ensures Valid()
      ensures id.Some? <==> name.Some? && name.value !in GenreNames(old(genres))
      ensures id.Some? ==> id.value !in GenreIds(old(genres)) && genres == old(genres) + [Genre(id.value, name.value)]
      ensures id.None? ==> genres == old(genres)
      ensures books == old(books) && reviews == old(reviews) && clock == old(clock)
    {
      var row := InsertGenre(genres, name);
      if row.Some? {
        InsertGenreKeepsSchema(genres, books, reviews, name);
        genres := genres + [row.value];
        id := Some(row.value.id);
      } else {
        id := None;
      }
    }

    /** The find-or-create step of the genre-name `add_book`: an existing
        genre with that name is reused; otherwise a new genre is inserted and
        committed at once. A NULL name matches no genre and fails the insert. */
    method FindOrCreateGenre(name: Option<string>) returns (gid: Option<nat>)
      requires Valid()
      modifies this
      ensures Valid()
      ensures gid.None? <==> name.None?
      ensures gid.None? ==> genres == old(genres)
      ensures gid.Some? ==> exists g :: g in genres && g == Genre(gid.value, name.value)
      ensures name.Some? && name.value in GenreNames(old(genres)) ==> genres == old(genres)
      ensures name.Some? && name.value !in GenreNames(old(genres)) ==>
                && gid.value !in GenreIds(old(genres))
                && genres == old(genres) + [Genre(gid.value, name.value)]
      ensures books == old(books) && reviews == old(reviews) && clock == old(clock)
    {
      var found := GenreIndexByName(genres, name);
      if found.Some? {
        assert genres[found.value] in genres;
        return Some(genres[found.value].id);
      }
      gid := AddGenre(name);
      if gid.Some? {
        assert genres[|genres| - 1] == Genre(gid.value, name.value);
        assert genres[|genres| - 1] in genres;
      }
    }

    /** `add_book(title, author, genre_name, status, publication_year, isbn)`,
        the genre-name variant: finds or creates the genre, then inserts the
        book in a second commit. The genre's commit stands even when the
        book's insert then fails. Python keeps the later `add_book`
        definition, so the menu never calls this one. */
    method AddBookWithGenre(
      title: Option<string>, author: Option<string>, genreName: Option<string>,
      status: ReadingStatus, year: Option<int>, isbn: Option<string>)
      returns (outcome: LegacyAddOutcome)
      requires Valid()
      modifies this
      ensures Valid()
      ensures outcome.GenreRejected? <==> genreName.None?
      ensures outcome.GenreRejected? ==> genres == old(genres) && books == old(books) && clock == old(clock)
      ensures !outcome.GenreRejected? ==>
                genreName.Some? && exists g :: g in genres && g == Genre(outcome.genreId, genreName.value)
      ensures genreName.Some? && genreName.value in GenreNames(old(genres)) ==> genres == old(genres)
      ensures genreName.Some? && genreName.value !in GenreNames(old(genres)) ==>
                genres == old(genres) + [Genre(outcome.genreId, genreName.value)]
      ensures outcome.BookRejected? <==>
                genreName.Some? && !(title.Some? && author.Some? && isbn.Some? && isbn.value !in Isbns(old(books)))
      ensures outcome.BookRejected? ==> books == old(books) && clock == old(clock)
      ensures outcome.BookAdded? ==>
                && outcome.bookId !in BookIds(old(books)) && clock == old(clock) + 1
                && books == old(books) + [Book(outcome.bookId, title.value, author.value, status,
                                               Some(outcome.genreId), year, isbn.value, Some(clock), Some(clock))]
      ensures reviews == old(reviews)
      ensures TimestampsMonotone(old(books), books)
    {
      StampsAfterShrinkOrGrow(books, books);
      var gid := FindOrCreateGenre(genreName);
      if gid.None? {
        return GenreRejected;
      }
      var g :| g in genres && g == Genre(gid.value, genreName.value);
      assert gid.value in GenreIds(genres);
      var now := clock + 1;
      var book := InsertBook(books, title, author, Some(status), gid, year, isbn, now);
      if book.None? {
        return BookRejected(gid.value);
      }
      InsertBookKeepsSchema(genres, books, reviews, title, author, Some(status), gid, year, isbn, now);
      StampsAfterShrinkOrGrow(books, books + [book.value]);
      books, clock := books + [book.value], now;
      outcome := BookAdded(gid.value, book.value.id);
    }

    /** `add_book()`, the interactive variant the menu calls: the year answer
        is parsed before any table is touched; the book is inserted with the
        default status and no genre; a duplicate isbn fails the commit, which
        is rolled back. */
    method AddBook(title: string, author: string, isbn: string, yearAnswer: string) returns (outcome: AddOutcome)
      requires Valid()
      modifies this
      ensures Valid()
      ensures outcome.AddBadYear? <==> ParseOptionalYear(yearAnswer).ValueError?
      ensures outcome.AddRolledBack? <==> ParseOptionalYear(yearAnswer).Parsed? && isbn in Isbns(old(books))
      ensures !outcome.Added? ==> unchanged(this)
      ensures outcome.Added? ==>
                && outcome.bookId !in BookIds(old(books)) && clock == old(clock) + 1
                && books == old(books) + [Book(outcome.bookId, title, author, ToRead, None,
                                               ParseOptionalYear(yearAnswer).value, isbn, Some(clock), Some(clock))]
                && genres == old(genres) && reviews == old(reviews)
      ensures TimestampsMonotone(old(books), books)
    {
      StampsAfterShrinkOrGrow(books, books);
      var year := ParseOptionalYear(yearAnswer);
      if year.ValueError? {
        return AddBadYear;
      }
      var now := clock + 1;
      var book := InsertBook(books, Some(title), Some(author), None, None, year.value, Some(isbn), now);
      if book.None? {
        return AddRolledBack;
      }
      InsertBookKeepsSchema(genres, books, reviews, Some(title), Some(author), None, None, year.value, Some(isbn), now);
      StampsAfterShrinkOrGrow(books, books + [book.value]);
      books, clock := books + [book.value], now;
      outcome := Added(book.value.id);
    }

    /** `update_book_status(title, status)`: sets the status of the first book
        with that title; no such book changes nothing. */
    method UpdateBookStatus(title: string, status: ReadingStatus) returns (found: bool)
      requires Valid()
      modifies this
      ensures Valid()
      ensures found <==> exists b :: b in old(books) && b.title == title
      ensures !found ==> unchanged(this)
      ensures found ==>
                var i := BookIndexByTitle(old(books), title).value;
                var before := old(books)[i];
                && |books| == |old(books)|
                && (forall j :: 0 <= j < |books| && j != i ==> books[j] == old(books)[j])
                && books[i] == FlushBook(before, before.(status := status), clock)
                && clock == old(clock) + 1
      ensures genres == old(genres) && reviews == old(reviews)
      ensures TimestampsMonotone(old(books), books)
    {
      StampsAfterShrinkOrGrow(books, books);
      var index := BookIndexByTitle(books, title);
      if index.None? {
        return false;
      }
      var i := index.value;
      var before := books[i];
      var now := clock + 1;
      var row := FlushBook(before, before.(status := status), now);
      assert !IsbnTakenByOther(books, i, row.isbn);
      ReplaceBookKeepsValid(genres, books, reviews, clock, i, row, now);
      books, clock := books[i := row], now;
      found := true;
    }

    /** `update_book()`: the id answer must parse and name a book; each blank
        answer keeps the current value; a bad year answer cancels the whole
        update; a new isbn taken by another book fails the commit, which is
        rolled back. Only the title, author, isbn and year of that one book
        change (and `updated_at` when one of them does). */
    method UpdateBook(idAnswer: string, titleAnswer: string, authorAnswer: string, isbnAnswer: string, yearAnswer: string)
      returns (outcome: UpdateOutcome)
      requires Valid()
      modifies this
      ensures Valid()
      ensures outcome.UpdateBadId? <==> ParseInt(idAnswer).ValueError?
      ensures outcome.UpdateNoBook? <==> ParseInt(idAnswer).Parsed? && ParseInt(idAnswer).value !in BookIds(old(books))
      ensures !outcome.Updated? ==> unchanged(this)
      ensures ParseInt(idAnswer).Parsed? && ParseInt(idAnswer).value in BookIds(old(books)) ==>
                var i := BookIndexById(old(books), ParseInt(idAnswer).value).value;
                var before := old(books)[i];
                var year := ParseYearOrKeep(yearAnswer, before.publicationYear);
                var isbn := KeepIfBlank(isbnAnswer, before.isbn);
                && (outcome.UpdateBadYear? <==> year.ValueError?)
                && (outcome.UpdateRolledBack? <==> year.Parsed? && IsbnTakenByOther(old(books), i, isbn))
                && (outcome.Updated? ==>
                      && |books| == |old(books)|
                      && (forall j :: 0 <= j < |books| && j != i ==> books[j] == old(books)[j])
                      && books[i] == FlushBook(before,
                                               before.(title := KeepIfBlank(titleAnswer, before.title),
                                                       author := KeepIfBlank(authorAnswer, before.author),
                                                       isbn := isbn,
                                                       publicationYear := year.value),
                                               clock)
                      && clock == old(clock) + 1
                      && genres == old(genres) && reviews == old(reviews))
      ensures TimestampsMonotone(old(books), books)
    {
      StampsAfterShrinkOrGrow(books, books);
      var id := ParseInt(idAnswer);
      if id.ValueError? {
        return UpdateBadId;
      }
      var index := BookIndexById(books, id.value);
      if index.None? {
        return UpdateNoBook;
      }
      var i := index.value;
      var before := books[i];
      var title := KeepIfBlank(titleAnswer, before.title);
      var author := KeepIfBlank(authorAnswer, before.author);
      var isbn := KeepIfBlank(isbnAnswer, before.isbn);
      var year := ParseYearOrKeep(yearAnswer, before.publicationYear);
      if year.ValueError? {
        return UpdateBadYear;
      }
      if IsbnTakenByOther(books, i, isbn) {
        return UpdateRolledBack;
      }
      var now := clock + 1;
      var row := FlushBook(before, before.(title := title, author := author, isbn := isbn, publicationYear := year.value), now);
      ReplaceBookKeepsValid(genres, books, reviews, clock, i, row, now);
      books, clock := books[i := row], now;
      outcome := Updated;
    }

    /** `delete_book()`: the id answer must parse and name a book; only a
        confirmation that lowercases to "y" deletes it, and the delete
        cascades to exactly that book's reviews. */
    method DeleteBook(idAnswer: string, confirmation: string) returns (outcome: DeleteOutcome)
      requires Valid()
      modifies this
      ensures Valid()
      ensures outcome.DeleteBadId? <==> ParseInt(idAnswer).ValueError?
      ensures outcome.DeleteNoBook? <==> ParseInt(idAnswer).Parsed? && ParseInt(idAnswer).value !in BookIds(old(books))
      ensures outcome.DeleteCancelled? <==>
                ParseInt(idAnswer).Parsed? && ParseInt(idAnswer).value in BookIds(old(books)) && !Confirmed(confirmation)
      ensures !outcome.Deleted? ==> unchanged(this)
      ensures outcome.Deleted? ==>
                var id := ParseInt(idAnswer).value;
                && (books, reviews) == DeleteBookCascade(old(books), old(reviews), id)
                && |books| == |old(books)| - 1
                && |reviews| == |old(reviews)| - |Filter(old(reviews), AboutBook(id))|
                && genres == old(genres) && clock == old(clock)
      ensures TimestampsMonotone(old(books), books)
    {
      StampsAfterShrinkOrGrow(books, books);
      var id := ParseInt(idAnswer);
      if id.ValueError? {
        return DeleteBadId;
      }
      var index := BookIndexById(books, id.value);
      if index.None? {
        return DeleteNoBook;
      }
      if !Confirmed(confirmation) {
        return DeleteCancelled;
      }
      DeleteBookKeepsSchema(genres, books, reviews, id.value);
      DeleteBookRowCount(books, reviews, id.value);
      var (books', reviews') := DeleteBookCascade(books, reviews, id.value);
      StampsAfterShrinkOrGrow(books, books');
      books, reviews := books', reviews';
      outcome := Deleted;
    }

    /** `delete_book(title)`, the title variant Python's later definition
        shadows: deletes the first book with that title and its reviews. */
    method DeleteBookByTitle(title: string) returns (deleted: bool)
      requires Valid()
      modifies this
      ensures Valid()
      ensures deleted <==> exists b :: b in old(books) && b.title == title
      ensures !deleted ==> unchanged(this)
      ensures deleted ==>
                var id := old(books)[BookIndexByTitle(old(books), title).value].id;
                && (books, reviews) == DeleteBookCascade(old(books), old(reviews), id)
                && |books| == |old(books)| - 1
                && |reviews| == |old(reviews)| - |Filter(old(reviews), AboutBook(id))|
                && genres == old(genres) && clock == old(clock)
      ensures TimestampsMonotone(old(books), books)
    {
      StampsAfterShrinkOrGrow(books, books);
      var index := BookIndexByTitle(books, title);
      if index.None? {
        return false;
      }
      var id := books[index.value].id;
      assert id in BookIds(books);
      DeleteBookKeepsSchema(genres, books, reviews, id);
      DeleteBookRowCount(books, reviews, id);
      var (books', reviews') := DeleteBookCascade(books, reviews, id);
      StampsAfterShrinkOrGrow(books, books');
      books, reviews := books', reviews';
      deleted := true;
    }

    /** `add_review(book_title, rating, comment)`: reviews the first book with
        that title, dated `today`; no such book changes nothing. */
    method AddReview(bookTitle: string, rating: real, comment: Option<string>, today: string)
      returns (reviewId: Option<nat>)
      requires Valid()
      modifies this
      ensures Valid()
      ensures reviewId.Some? <==> exists b :: b in old(books) && b.title == bookTitle
      ensures reviewId.None? ==> unchanged(this)
      ensures reviewId.Some? ==>
                var book := old(books)[BookIndexByTitle(old(books), bookTitle).value];
                && reviewId.value !in KeySet(old(reviews), ReviewKey)
                && reviews == old(reviews) + [Review(reviewId.value, book.id, rating, comment, today)]
      ensures genres == old(genres) && books == old(books) && clock == old(clock)
    {
      var index := BookIndexByTitle(books, bookTitle);
      if index.None? {
        return None;
      }
      var book := books[index.value];
      assert book.id in BookIds(books);
      var row := InsertReview(reviews, book.id, rating, comment, today);
      InsertReviewKeepsSchema(genres, books, reviews, book.id, rating, comment, today);
      reviews := reviews + [row];
      reviewId := Some(row.id);
    }
  }
}
