# Booksystem in Dafny

A model of the book store at the heart of Booksystem. The store is three SQLite tables, reached through SQLAlchemy:
- **genres**: an id and a unique, non-null name;
- **books**: id, title, author, reading status, optional genre, optional publication year, unique isbn, and the two timestamps `created_at` and `updated_at`;
- **reviews**: id, the reviewed book, rating, optional comment, and date added.

The model covers the operations the command-line helpers run on the store:
- adding a book, in both variants the helpers module defines;
- updating a book by id;
- setting a book's reading status by title;
- deleting a book, by id after confirmation or by title;
- adding a review by book title;
- the case-insensitive search;
- the per-status and per-genre statistics;
- the top-rated ranking.

Modules:
- `Seqs` (`seqs.dfy`) holds the row-sequence helpers:
  - filtering in row order;
  - the first match in row order, which is what `.first()` returns;
  - key order and key uniqueness;
  - the next row id.
- `Text` (`text.dfy`) holds the string operations the queries and prompts use:
  - SQLite's ASCII `lower()`;
  - substring search, which is what `LIKE '%term%'` does;
  - Python's `int()` on decimal digits.
- `Models` (`models.dfy`) models `lib/db/models.py`:
  - the `ReadingStatus` enum and the three row types;
  - the table invariant `Schema`: each table in id order, unique genre names and isbns, and foreign keys that point at existing rows;
  - the INSERT rules, including NOT NULL, UNIQUE and the column defaults;
  - the cascades genre → books → reviews;
  - the timestamp rules;
  - `Book.to_dict`.
- `Queries` (`queries.dfy`) models the read-only helpers: `search_books`, `get_book_statistics` and `get_top_rated_books`.
- `Commands` (`commands.dfy`) models the helpers that change the store, as the `Store` class:
  - it holds the three tables as fields, plus an abstract clock;
  - every method keeps `Valid()`, which is `Schema` plus well-formed timestamps;
  - every method keeps the timestamp rule: `created_at` never changes and `updated_at` never moves back;
  - every failure path leaves the store unchanged, as a rolled-back commit does, except in the genre-name `add_book` (`Store.AddBookWithGenre`): there the genre commit stands when the book insert then fails.

Tables are sequences in row-id order. A new row gets the id SQLite assigns to an `INTEGER PRIMARY KEY` without AUTOINCREMENT: one more than the largest id present, or 1 for an empty table.

Each commit is all-or-nothing:
- a NOT NULL or UNIQUE violation makes the insert or update fail;
- the store is then left exactly as it was.

The typed answers are parameters of the methods. The source reads them with `input()`.

`lib/helpers.py` defines `add_book` and `delete_book` twice. Python keeps the later definition of each (lines 133 and 271), and that is what the menu calls. The earlier variants are modelled as well:
- `Store.AddBookWithGenre` (lines 33-50);
- `Store.DeleteBookByTitle` (lines 60-66).

The menu never calls either of them. `lib/cli.py:3-11` imports only the menu helpers, so the menu never calls `add_genre` (`Store.AddGenre`), `update_book_status` (`Store.UpdateBookStatus`), `add_review` (`Store.AddReview`), `get_book_statistics` (`Queries.BookStatistics`) or `get_top_rated_books` (`Queries.TopRatedBooks`) either. Only `Store.AddBook`, `Queries.SearchBooks`, `Store.UpdateBook` and `Store.DeleteBook` are reachable from the menu.

One might expect `updated_at` to change on every update. The column declares `onupdate=func.now()` (`lib/db/models.py:38`), and SQLAlchemy fires that only when it emits an UPDATE, which it does only when a column value actually changed. The model follows the code: `FlushBook` refreshes `updated_at` only when the row changed.

## Model

| member | source | states |
|---|---|---|
| Models.StatusOfValue | lib/db/models.py:11-14 | looking an enum member up by its value finds the member with that display string, and finds nothing for any other string |
| Models.StatusesClosed | lib/db/models.py:11-14 | the reading status has exactly three members, each listed once, with distinct display strings, and each is found again from its display string |
| Models.InsertGenre | lib/db/models.py:16-20 | a genre insert succeeds exactly when the name is non-null and not yet taken; the row carries that name and an id not in use |
| Models.InsertBook | lib/db/models.py:27-38 | a book insert succeeds exactly when title, author and isbn are non-null and the isbn is not taken; a missing status becomes To Read; both timestamps are the insert time; the id is new; the given columns are carried as given |
| Models.InsertReview | lib/db/models.py:59-66 | a review row carries the given book, rating, comment and date, with an id above every existing review id |
| Models.InsertGenreKeepsSchema | lib/db/models.py:19-20 | appending an accepted genre keeps the table invariant, including unique genre names |
| Models.InsertBookKeepsSchema | lib/db/models.py:30-36 | appending an accepted book whose genre exists keeps the table invariant, including unique isbns and the genre foreign key |
| Models.InsertReviewKeepsSchema | lib/db/models.py:62-63 | appending a review of an existing book keeps the table invariant, including the book foreign key |
| Models.DeleteBookCascade | lib/db/models.py:41 | deleting a book keeps exactly the other books and exactly the reviews of other books |
| Models.DeleteGenreCascade | lib/db/models.py:22 | deleting a genre keeps exactly the other genres, the books outside that genre, and the reviews of books outside that genre |
| Models.DeleteBookKeepsSchema | lib/db/models.py:41 | the book cascade leaves no dangling review and keeps the table invariant |
| Models.DeleteGenreKeepsSchema | lib/db/models.py:22 | the genre cascade, carried on to the reviews, leaves no dangling book or review and keeps the table invariant |
| Models.DeleteBookRowCount | lib/db/models.py:41 | deleting an existing book removes exactly one book and exactly as many reviews as that book had |
| Models.FlushBook | lib/db/models.py:37-38 | a flushed row keeps its id and `created_at` and takes every changed column; `updated_at` becomes the flush time when something changed and stays as it was otherwise |
| Models.ToDict | lib/db/models.py:46-57 | the dictionary carries id, title, author, genre, year and isbn unchanged, renders the status as a display string that maps back to the status, and renders a timestamp as None exactly when it is absent |
| Models.ToDictInjective | lib/db/models.py:46-57 | two books with the same dictionary are the same book: the dictionary loses nothing |
| Models.RenderStampInjective | lib/db/models.py:55-56 | distinct timestamps render to distinct strings, and an absent one renders differently from every present one |
| Models.SchemaKeys | lib/db/models.py:19-20 | under the table invariant a genre name, a book isbn, or an id picks out at most one row of its table |
| Seqs.FirstIndex | lib/helpers.py:54 | `.first()` in row order: the index found matches, no earlier row matches, and nothing is found only when no row matches |
| Seqs.NextKey | lib/db/models.py:19 | the id a new row receives exceeds every id in a table kept in id order |
| Text.Lower | lib/helpers.py:195-197 | lowering keeps the length, turns each ASCII capital into its lower-case letter and keeps every other character |
| Text.LowerEqual | lib/helpers.py:195-197 | two strings lower to the same string exactly when they have the same length and differ only in the case of ASCII letters |
| Text.Contains | lib/helpers.py:195-197 | the `%term%` match always succeeds for the empty term and never for a term longer than the text |
| Text.ContainsOccurs | lib/helpers.py:195-197 | the substring search answers yes exactly when the pattern occurs at some position |
| Text.ParseInt | lib/helpers.py:224 | `int()` of an answer succeeds exactly when the answer is a non-empty string of digits |
| Text.ParseDecimal | lib/helpers.py:224 | reading back the decimal rendering of a number gives that number |
| Commands.ParseOptionalYear | lib/helpers.py:140-145 | the add prompt's year is "no year" exactly for a blank answer and fails exactly for an answer that is not all digits |
| Commands.ParseYearOrKeep | lib/helpers.py:248-255 | the update prompt's year keeps the current year for a blank answer and fails exactly for an answer that is not all digits |
| Commands.YearAnswerRoundTrip | lib/helpers.py:138-141 | a year typed in decimal is read back as that year by both prompts |
| Commands.LowersToY | lib/helpers.py:291 | exactly the answers "y" and "Y" lower to "y" |
| Commands.Confirmed | lib/helpers.py:290-291 | a deletion is confirmed by exactly the answers "y" and "Y" |
| Commands.KeepIfBlank | lib/helpers.py:245-247 | `answer or current`: a non-blank answer is taken as typed, a blank one keeps the current value, and the result is blank only when both are |
| Commands.BookIndexById | lib/helpers.py:232 | the lookup by id finds a row with that id, and finds nothing exactly when no book has that id |
| Commands.BookIndexByTitle | lib/helpers.py:54 | the lookup by title finds the first row with that title, and finds nothing exactly when no book has that title |
| Commands.GenreIndexByName | lib/helpers.py:35 | the lookup by name finds a genre with that name, and finds nothing exactly when the name is null or no genre has it |
| Commands.StampsAfterReplace | lib/db/models.py:37-38 | replacing one row by its flushed version keeps every `created_at` and moves no `updated_at` back |
| Commands.StampsAfterShrinkOrGrow | lib/db/models.py:37-38 | deleting rows or appending rows with new ids keeps every surviving row's timestamps |
| Commands.ReplaceBookKeepsValid | lib/helpers.py:257-262 | assigning a book's columns in place, keeping its id, genre and `created_at` and holding an isbn no other book has, keeps the table invariant and moves no timestamp back |
| Commands.Store.AddGenre | lib/helpers.py:26-31 | `add_genre` appends one genre with a new id exactly when the name is non-null and free; otherwise nothing changes; the other tables never change |
| Commands.Store.FindOrCreateGenre | lib/helpers.py:35-39 | an existing genre with that name is reused and the genres stay as they were; otherwise exactly one new genre with that name is appended; a null name changes nothing |
| Commands.Store.AddBookWithGenre | lib/helpers.py:33-50 | the genre is found or created first, and its commit stands even when the book insert then fails; the book is appended in that genre, stamped with the new time, exactly when title, author and isbn are non-null and the isbn is free; reviews never change |
| Commands.Store.AddBook | lib/helpers.py:133-163 | a year answer that is not a number aborts and changes nothing; a taken isbn rolls back and changes nothing; otherwise exactly one book is appended, with status To Read, no genre, the parsed year and the new time in both timestamps |
| Commands.Store.UpdateBookStatus | lib/helpers.py:52-58 | the first book with that title gets the status, and no other row changes; when no book has that title, nothing changes |
| Commands.Store.UpdateBook | lib/helpers.py:219-269 | a bad id, an unknown id or a bad year changes nothing; an isbn another book holds rolls back; otherwise only that book's title, author, isbn and year change, each blank answer keeping its current value, and its `updated_at` is refreshed when something changed |
| Commands.Store.DeleteBook | lib/helpers.py:271-302 | a bad id, an unknown id or an answer that does not lower to "y" changes nothing; otherwise that book and exactly its reviews are removed: one book and as many reviews as it had |
| Commands.Store.DeleteBookByTitle | lib/helpers.py:60-66 | the first book with that title and exactly its reviews are removed; when no book has that title, nothing changes |
| Commands.Store.AddReview | lib/helpers.py:68-80 | when a book has that title, one review of the first such book is appended, with a new id, dated today; otherwise nothing changes |
| Queries.SearchBooks | lib/helpers.py:193-199 | the search returns at most every book, and a book is in the result exactly when it is in the table and matches the term in title, author or isbn |
| Queries.SearchBooksExact | lib/helpers.py:193-199 | a book is found exactly when the lowered term occurs in its lowered title, author or isbn |
| Queries.SearchIgnoresCase | lib/helpers.py:195-197 | searching for the lowered term finds the same books as the term itself |
| Queries.SearchKeepsRowOrder | lib/helpers.py:193-199 | the results keep the table's id order |
| Queries.SearchEmptyTermListsAll | lib/helpers.py:189-199 | an empty term lists every book |
| Queries.BookStatistics | lib/helpers.py:82-107 | the total is the number of books; there is one status entry per display string, zero counts included, each the number of books with that status; per genre name, the average rating of its books' reviews and its number of books |
| Queries.CountByStatus | lib/helpers.py:92-95 | the status loop fills one entry per display string with the number of books in that status |
| Queries.TallyGenres | lib/helpers.py:97-104 | the genre loop keys both maps by exactly the genre names, and each entry holds that genre's average rating and book count |
| Queries.StatusValues | lib/helpers.py:93-95 | the status loop visits every member of the enum, and their display strings are exactly "To Read", "Reading" and "Completed" |
| Queries.StatusCountsSum | lib/helpers.py:85-95 | the three status counts add up to the total number of books |
| Queries.CountWithStatus | lib/helpers.py:94 | the count of books in a status is at most the number of books, and is 0 exactly when no book has that status |
| Queries.CountInGenre | lib/helpers.py:104 | the count of books in a genre is at most the number of books, and is 0 exactly when no book is in that genre |
| Queries.Average | lib/helpers.py:100-103 | `avg(...) or 0`: an empty list averages 0, and otherwise the average times the number of values is their sum |
| Queries.GenreAverage | lib/helpers.py:100-103 | a genre none of whose books has a review averages 0 |
| Queries.AverageRating | lib/helpers.py:115 | a book's average is 0 without reviews and is the rating itself with exactly one review |
| Queries.SumBounds | lib/helpers.py:100-101 | a sum of ratings that all lie between two bounds lies between n times each bound |
| Queries.AverageBounds | lib/helpers.py:100-103 | an average rating lies between the smallest and largest rating averaged |
| Queries.Groups | lib/helpers.py:112-116 | there is one group per reviewed book, and each group is a reviewed book of the table with its average |
| Queries.GroupsExact | lib/helpers.py:112-116 | the groups of the join are exactly the reviewed books, each with its average rating |
| Queries.InsertByRatingPermutes | lib/helpers.py:116-117 | placing an entry into the ranking adds exactly that entry |
| Queries.InsertByRating | lib/helpers.py:116-117 | placing an entry makes the ranking one longer, and it then holds that entry and the old entries, and nothing else |
| Queries.RankByRating | lib/helpers.py:116-117 | the ranking has as many entries as there are groups, and holds exactly the groups |
| Queries.InsertByRatingSorted | lib/helpers.py:116-117 | placing an entry into a ranking ordered by average keeps it ordered |
| Queries.RankByRatingSorted | lib/helpers.py:116-117 | the ranking is ordered by average, highest first |
| Queries.RankByRatingPermutes | lib/helpers.py:116-117 | the ranking is a permutation of the groups: no group lost or repeated |
| Queries.TopRatedEntries | lib/helpers.py:116-118 | `.limit(limit)` (5 by default): the result is a prefix of the ranking, at most `limit` long for a non-negative limit, and shorter than the ranking only when it has exactly `limit` entries |
| Queries.TopRatedBooks | lib/helpers.py:109-121 | one (title, author, average) tuple per ranked entry, in rank order, at most `limit` of them (5 by default), with averages from highest to lowest |
| Queries.TopRatedShape | lib/helpers.py:109-121 | the result has `limit` entries, or all groups when there are fewer or the limit is negative; it is ordered by average, highest first; every entry is a reviewed book with its true average |
| Queries.TopRatedOmitsNoBetter | lib/helpers.py:116-118 | a reviewed book left out of the result has an average no higher than the last entry's |
| Queries.TopRatedOnlyReviewed | lib/helpers.py:112-116 | every entry is a book with at least one review |

## Left out

- Terminal I/O is not modelled:
  - the menu loop of `lib/cli.py`;
  - every `print`, `input` and "Press Enter" pause;
  - `display_menu`, `list_books`, `list_genres`, `view_book_details` and `__repr__`.

  The listing helpers return a table as it stands, which is the table field itself.
- Session plumbing is not modelled: engine and session creation, `SessionLocal`, and close/finally handling. `db.database` is not part of this model. Only the all-or-nothing outcome of a commit is kept.
- The source reaches the tables through two session factories. `get_session()` opens `sqlite:///bookbuddy.db` (`lib/helpers.py:8-12`) and serves the statistics, the top-rated list and the earlier helpers (`list_genres`, the first `list_books`, `add_genre`, the first `add_book`, `update_book_status`, the first `delete_book` and `add_review`). `SessionLocal` from `db.database` serves the menu's helpers: `add_book`, `list_books`, `search_books`, `update_book`, `delete_book` and `view_book_details`. The model has one `Store` and so assumes both reach the same database.
- Commands.Store.UpdateBookStatus: takes a `ReadingStatus` member, never None. `books.status` is nullable (`lib/db/models.py:33`), so `update_book_status(title, None)` would store NULL. After that, `to_dict` would raise and the per-status counts would no longer add up to `total_books`. No caller in the source passes None, and the model keeps the status always a member.
- Exceptions other than a constraint violation are not modelled: the broad `except Exception` blocks also catch I/O and driver failures. One such failure changes an outcome. sqlite3 binds only 64-bit integers, so a year answer of 2^63 or more makes the commit of `add_book` or `update_book` raise, and the `except Exception` at `lib/helpers.py:158` or `lib/helpers.py:264` rolls it back. The model has unbounded integers: `Store.AddBook` appends and `Store.UpdateBook` updates the book with that year. Likewise an id answer of 2^63 or more makes the lookup in `update_book` or `delete_book` raise, where the model reports that no book has that id; the store is unchanged either way.
- Ratings are `real`, not floating point. `round(..., 2)` in the statistics and the top-rated list is omitted.
- Timestamps are an abstract counter, not wall-clock values:
  - `func.now()` is the store's `clock`. Each book insert advances it by one, and so does each `update_book` or `update_book_status` whose commit succeeds, even when nothing changed (the clock is then advanced but no stamp uses it). Genre and review inserts and deletes do not use it;
  - `isoformat()` is the counter's decimal text;
  - the date `add_review` takes from `datetime.now()` is a parameter.
- Text.ParseInt: reads only plain decimal digits. Python's `int()` also accepts surrounding whitespace, a sign and underscores. The model rejects those answers where Python would read a number.
- Queries.SearchBooksExact: assumes a term without LIKE wildcards. The source does not escape `%` or `_` in the term, so those act as wildcards. Case folding is SQLite's ASCII-only `lower()`.
- Queries.BookStatistics: the average is exact. The source rounds it to two places.
- Queries.TopRatedBooks: averages are exact rather than rounded. Ties are ranked in table order, as a stable sort does; SQLite does not promise an order among ties.
- A negative `limit` returns every group, which is how SQLite reads `LIMIT -1`.
- `review.book_id` is nullable in the schema, but every review the helpers create names a book. The model gives every review a book.
- A review's `rating` is non-null and is always passed in.
- After a delete, the model reuses the deleted row's id when it was the largest, as SQLite does for an `INTEGER PRIMARY KEY` without AUTOINCREMENT. SQLite's fallback to a random unused id once the largest id reaches 2^63 - 1 is not modelled.
- Deleting a genre is modelled (`Models.DeleteGenreCascade`), but no helper deletes a genre, so it is not a method of `Store`.
- The seed script `lib/db/seed.py` is sample data only and is not modelled.
