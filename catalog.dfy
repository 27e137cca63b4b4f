// The content service's catalogue: BookService, AuthorService and
// GenreService over the books, authors and genres tables and the two link
// tables (a book's author and genre id sets). Rows are deleted outright, so
// a deleted row leaves `None` behind; an id is a position plus one.
module Catalog {
  import opened Wrappers
  import Text

  datatype Author = Author(
    name: string,
    bio: Option<string>,
    birthYear: Option<int>,
    deathYear: Option<int>,
    photoUrl: Option<string>,
    externalId: Option<string>,
    externalSource: Option<string>)

  datatype Genre = Genre(name: string, description: Option<string>)

  datatype Book = Book(
    title: string,
    subtitle: Option<string>,
    isbn10: Option<string>,
    isbn13: Option<string>,
    publisher: Option<string>,
    publishedDate: Option<int>,
    pageCount: Option<int>,
    language: string,
    description: Option<string>,
    coverUrl: Option<string>,
    externalId: Option<string>,
    externalSource: Option<string>,
    authors: set<nat>,
    genres: set<nat>)

  /** CreateBookRequest, used by both create and update. */
  datatype BookRequest = BookRequest(
    title: string,
    subtitle: Option<string>,
    isbn10: Option<string>,
    isbn13: Option<string>,
    publisher: Option<string>,
    publishedDate: Option<int>,
    pageCount: Option<int>,
    language: Option<string>,
    description: Option<string>,
    coverUrl: Option<string>,
    externalId: Option<string>,
    externalSource: Option<string>,
    authorIds: Option<set<nat>>,
    genreIds: Option<set<nat>>)

  datatype CatalogError =
    | BookNotFound(bookId: nat)
    | AuthorNotFound(authorId: nat)
    | GenreNotFound(genreId: nat)
    | NameNotFound(name: string)
    | DuplicateBook
    | DuplicateAuthor(authorName: string)
    | DuplicateGenre(genreName: string)
    /** IncorrectResultSizeDataAccessException: a single-row query matched several rows. */
    | NonUniqueResult

  datatype Result<T> = Ok(value: T) | Err(error: CatalogError)

  predicate Present<T>(rows: seq<Option<T>>, id: nat)
  {
    1 <= id <= |rows| && rows[id - 1].Some?
  }

  /** The language a request leaves unset is English. */
  function LanguageOf(req: BookRequest): string
  {
    req.language.GetOr("en")
  }

  /** The book fields a request sets, on create and on update alike. */
  function WithFields(b: Book, req: BookRequest): (r: Book)
    ensures r.title == req.title && r.subtitle == req.subtitle && r.isbn10 == req.isbn10 && r.isbn13 == req.isbn13
    ensures r.publisher == req.publisher && r.publishedDate == req.publishedDate && r.pageCount == req.pageCount
    ensures r.language == req.language.GetOr("en") && (req.language.None? ==> r.language == "en")
    ensures r.description == req.description && r.coverUrl == req.coverUrl
    ensures r.externalId == req.externalId && r.externalSource == req.externalSource
    ensures r.authors == b.authors && r.genres == b.genres
  {
    b.(title := req.title, subtitle := req.subtitle, isbn10 := req.isbn10, isbn13 := req.isbn13,
       publisher := req.publisher, publishedDate := req.publishedDate, pageCount := req.pageCount,
       language := LanguageOf(req), description := req.description, coverUrl := req.coverUrl,
       externalId := req.externalId, externalSource := req.externalSource)
  }

  /**
   * existsByIsbn10OrIsbn13 as the code calls it: a derived query compares a
   * null argument with IS NULL, so an absent ISBN matches every book that
   * has none either.
   */
  predicate IsbnTakenAsWritten(books: seq<Option<Book>>, isbn10: Option<string>, isbn13: Option<string>)
  {
    exists i :: 0 <= i < |books| && books[i].Some? && (books[i].value.isbn10 == isbn10 || books[i].value.isbn13 == isbn13)
  }

  /** What the duplicate check means: a supplied ISBN is already some book's. */
  predicate IsbnTaken(books: seq<Option<Book>>, isbn10: Option<string>, isbn13: Option<string>)
  {
    exists i :: 0 <= i < |books| && books[i].Some? &&
      ((isbn10.Some? && books[i].value.isbn10 == isbn10) || (isbn13.Some? && books[i].value.isbn13 == isbn13))
  }

  /** A book with only an ISBN-13 is refused as a duplicate of an unrelated book that has no ISBN-10. */
  lemma AbsentIsbnMatchesAbsentIsbn()
    ensures var stored := Book("Dune", None, None, Some("9780441013593"), None, None, None, "en", None, None, None, None, {}, {});
            var books := [Some(stored)];
            IsbnTakenAsWritten(books, None, Some("9780143111580")) && !IsbnTaken(books, None, Some("9780143111580"))
  {
    var stored := Book("Dune", None, None, Some("9780441013593"), None, None, None, "en", None, None, None, None, {}, {});
    var books := [Some(stored)];
    assert books[0].Some? && books[0].value.isbn10 == None;
    assert stored.isbn13 != Some("9780143111580");
  }

  /** The two checks agree whenever both ISBNs are supplied. */
  lemma IsbnChecksAgreeOnFullRequests(books: seq<Option<Book>>, isbn10: string, isbn13: string)
    ensures IsbnTakenAsWritten(books, Some(isbn10), Some(isbn13)) <==> IsbnTaken(books, Some(isbn10), Some(isbn13))
  {
  }

  /** Exact-name uniqueness, which create and update both guard. */
  predicate UniqueAuthorNames(authors: seq<Option<Author>>)
  {
    forall i, j :: 0 <= i < |authors| && 0 <= j < |authors| && i != j && authors[i].Some? && authors[j].Some? ==>
      authors[i].value.name != authors[j].value.name
  }

  predicate UniqueGenreNames(genres: seq<Option<Genre>>)
  {
    forall i, j :: 0 <= i < |genres| && 0 <= j < |genres| && i != j && genres[i].Some? && genres[j].Some? ==>
      genres[i].value.name != genres[j].value.name
  }

  /** existsByName for authors. */
  predicate AuthorNamed(authors: seq<Option<Author>>, name: string)
  {
    exists i :: 0 <= i < |authors| && authors[i].Some? && authors[i].value.name == name
  }

  predicate GenreNamed(genres: seq<Option<Genre>>, name: string)
  {
    exists i :: 0 <= i < |genres| && genres[i].Some? && genres[i].value.name == name
  }

  /** The pair (externalId, externalSource) that findByExternalIdAndExternalSource compares. */
  type ExternalKey = (Option<string>, Option<string>)

  function BookKey(b: Book): ExternalKey { (b.externalId, b.externalSource) }

  function AuthorKey(a: Author): ExternalKey { (a.externalId, a.externalSource) }

  /**
   * What a query for at most one row finds: no row, the one row, or several,
   * which Spring Data refuses for an Optional result.
   */
  datatype Found = Missing | Unique(id: nat) | Ambiguous

  /** Row i is live and its external key equals the wanted one (an absent part matches an absent one). */
  predicate KeyAt<T>(rows: seq<Option<T>>, key: T -> ExternalKey, want: ExternalKey, i: int)
  {
    0 <= i < |rows| && rows[i].Some? && key(rows[i].value) == want
  }

  /**
   * findByExternalIdAndExternalSource, for books and authors alike, over the
   * rows from position n on. No unique constraint covers the pair, so
   * several rows may carry it.
   */
  function ByExternal<T>(rows: seq<Option<T>>, key: T -> ExternalKey, want: ExternalKey, n: nat): (r: Found)
    requires n <= |rows|
    decreases |rows| - n
    ensures r.Missing? <==> forall i :: n <= i < |rows| ==> !KeyAt(rows, key, want, i)
    ensures r.Unique? ==> n < r.id <= |rows| && KeyAt(rows, key, want, r.id - 1) &&
                          forall i :: n <= i < |rows| && KeyAt(rows, key, want, i) ==> i == r.id - 1
    ensures r.Ambiguous? ==> exists i, j :: n <= i < j < |rows| && KeyAt(rows, key, want, i) && KeyAt(rows, key, want, j)
  {
    if n == |rows| then Missing
    else
      var rest := ByExternal(rows, key, want, n + 1);
      if !KeyAt(rows, key, want, n) then rest
      else if rest.Missing? then Unique(n + 1)
      else if rest.Unique? then assert KeyAt(rows, key, want, rest.id - 1); Ambiguous
      else Ambiguous
  }

  /** Genre i is live and its name equals the given one up to ASCII case. */
  predicate NamedAt(genres: seq<Option<Genre>>, name: string, i: int)
  {
    0 <= i < |genres| && genres[i].Some? && Text.Lower(genres[i].value.name) == Text.Lower(name)
  }

  /**
   * findByNameIgnoreCase over the genres from position n on. The services
   * keep names unique only as written, so names that differ in case alone
   * can both match.
   */
  function GenreByName(genres: seq<Option<Genre>>, name: string, n: nat): (r: Found)
    requires n <= |genres|
    decreases |genres| - n
    ensures r.Missing? <==> forall i :: n <= i < |genres| ==> !NamedAt(genres, name, i)
    ensures r.Unique? ==> n < r.id <= |genres| && NamedAt(genres, name, r.id - 1) &&
                          forall i :: n <= i < |genres| && NamedAt(genres, name, i) ==> i == r.id - 1
    ensures r.Ambiguous? ==> exists i, j :: n <= i < j < |genres| && NamedAt(genres, name, i) && NamedAt(genres, name, j)
  {
    if n == |genres| then Missing
    else
      var rest := GenreByName(genres, name, n + 1);
      if !NamedAt(genres, name, n) then rest
      else if rest.Missing? then Unique(n + 1)
      else if rest.Unique? then assert NamedAt(genres, name, rest.id - 1); Ambiguous
      else Ambiguous
  }

  /** getGenreByName: the one genre of that name in any ASCII case; not found, or the query's refusal of several. */
  function GetGenreByName(genres: seq<Option<Genre>>, name: string): (r: Result<nat>)
    ensures r == Err(NameNotFound(name)) <==> forall i :: 0 <= i < |genres| ==> !NamedAt(genres, name, i)
    ensures r.Ok? ==> NamedAt(genres, name, r.value - 1) &&
                      forall i :: 0 <= i < |genres| && NamedAt(genres, name, i) ==> i == r.value - 1
    ensures r == Err(NonUniqueResult) ==> exists i, j :: 0 <= i < j < |genres| && NamedAt(genres, name, i) && NamedAt(genres, name, j)
    ensures r.Ok? || r == Err(NameNotFound(name)) || r == Err(NonUniqueResult)
  {
    match GenreByName(genres, name, 0)
    case Missing => Err(NameNotFound(name))
    case Unique(id) => Ok(id)
    case Ambiguous => Err(NonUniqueResult)
  }

  /** A known genre is found by its name in any ASCII case: it is the answer unless another genre's name also matches. */
  lemma GenreFoundInAnyCase(genres: seq<Option<Genre>>, id: nat, name: string)
    requires Present(genres, id) && Text.Lower(name) == Text.Lower(genres[id - 1].value.name)
    ensures GetGenreByName(genres, name) != Err(NameNotFound(name))
    ensures GetGenreByName(genres, name).Ok? ==> GetGenreByName(genres, name).value == id
    ensures (forall i :: 0 <= i < |genres| && i != id - 1 ==> !NamedAt(genres, name, i)) ==> GetGenreByName(genres, name) == Ok(id)
  {
    assert NamedAt(genres, name, id - 1);
  }

  /** Names unique as written still let "Fiction" and "fiction" coexist, and the lookup then refuses both. */
  lemma CaseVariantsAreAmbiguous()
    ensures var genres := [Some(Genre("Fiction", None)), Some(Genre("fiction", None))];
            UniqueGenreNames(genres) && GetGenreByName(genres, "fiction") == Err(NonUniqueResult)
  {
    var genres := [Some(Genre("Fiction", None)), Some(Genre("fiction", None))];
    assert Text.Lower("Fiction") == "fiction" && Text.Lower("fiction") == "fiction";
    assert NamedAt(genres, "fiction", 0) && NamedAt(genres, "fiction", 1);
  }

  /** A blank book carrying the link sets a create request names. */
  function NewBook(req: BookRequest): Book
  {
    Book("", None, None, None, None, None, None, "en", None, None, None, None, req.authorIds.GetOr({}), req.genreIds.GetOr({}))
  }

  /**
   * createBook on the tables `books`, `authors` and `genres`: a supplied
   * ISBN must be new (the intended check, see IsbnTakenAsWritten), every
   * author and genre id must exist, authors checked first; `r` is the new
   * book's id on success and `books'` the books table after the call.
   */
  predicate BookCreated(books: seq<Option<Book>>, authors: seq<Option<Author>>, genres: seq<Option<Genre>>,
                        req: BookRequest, r: Result<nat>, books': seq<Option<Book>>)
  {
    ((req.isbn10.Some? || req.isbn13.Some?) && IsbnTaken(books, req.isbn10, req.isbn13) <==> r == Err(DuplicateBook)) &&
    (r.Err? && r.error.AuthorNotFound? ==>
       req.authorIds.Some? && r.error.authorId in req.authorIds.value && !Present(authors, r.error.authorId)) &&
    (r.Err? && r.error.GenreNotFound? ==>
       req.genreIds.Some? && r.error.genreId in req.genreIds.value && !Present(genres, r.error.genreId) &&
       (req.authorIds.Some? ==> forall a :: a in req.authorIds.value ==> Present(authors, a))) &&
    (r.Err? ==> r.error.DuplicateBook? || r.error.AuthorNotFound? || r.error.GenreNotFound?) &&
    (r.Ok? <==> !IsbnTaken(books, req.isbn10, req.isbn13) &&
                (req.authorIds.Some? ==> forall a :: a in req.authorIds.value ==> Present(authors, a)) &&
                (req.genreIds.Some? ==> forall g :: g in req.genreIds.value ==> Present(genres, g))) &&
    (r.Err? ==> books' == books) &&
    (r.Ok? ==> r.value == |books'| && books' == books + [Some(WithFields(NewBook(req), req))])
  }

  class CatalogStore {
    var books: seq<Option<Book>>
    var authors: seq<Option<Author>>
    var genres: seq<Option<Genre>>

    ghost predicate Valid()
      reads this
    {
      UniqueAuthorNames(authors) && UniqueGenreNames(genres)
    }

    constructor()
      ensures Valid() && books == [] && authors == [] && genres == []
    {
      books, authors, genres := [], [], [];
    }

    /** Every id of the set names an author (a genre); otherwise one that does not, which the service reports. */
    method CheckLinks(ids: set<nat>, isAuthors: bool) returns (missing: Option<nat>)
      ensures missing.None? <==> forall id :: id in ids ==> if isAuthors then Present(authors, id) else Present(genres, id)
      ensures missing.Some? ==> missing.value in ids && !(if isAuthors then Present(authors, missing.value) else Present(genres, missing.value))
    {
      if isAuthors && exists id :: id in ids && !Present(authors, id) {
        var id :| id in ids && !Present(authors, id);
        return Some(id);
      }
      if !isAuthors && exists id :: id in ids && !Present(genres, id) {
        var id :| id in ids && !Present(genres, id);
        return Some(id);
      }
      return None;
    }

    /** createBook: see BookCreated. */
    method CreateBook(req: BookRequest) returns (r: Result<nat>)
      requires Valid()
      modifies this
      ensures Valid() && authors == old(authors) && genres == old(genres)
      ensures BookCreated(old(books), authors, genres, req, r, books)
    {
      if (req.isbn10.Some? || req.isbn13.Some?) &&
         exists i :: 0 <= i < |books| && books[i].Some? &&
           ((req.isbn10.Some? && books[i].value.isbn10 == req.isbn10) || (req.isbn13.Some? && books[i].value.isbn13 == req.isbn13)) {
        return Err(DuplicateBook);
      }
      if req.authorIds.Some? {
        var missing := CheckLinks(req.authorIds.value, true);
        if missing.Some? {
          return Err(AuthorNotFound(missing.value));
        }
      }
      if req.genreIds.Some? {
        var missing := CheckLinks(req.genreIds.value, false);
        if missing.Some? {
          return Err(GenreNotFound(missing.value));
        }
      }
      books := books + [Some(WithFields(NewBook(req), req))];
      r := Ok(|books|);
    }

    /** updateBook: every field from the request; link sets only when the request carries them. */
    method UpdateBook(id: nat, req: BookRequest) returns (r: Result<()>)
      requires Valid()
      modifies this
      ensures Valid() && authors == old(authors) && genres == old(genres)
      ensures !Present(old(books), id) ==> r == Err(BookNotFound(id))
      ensures r.Err? && r.error.AuthorNotFound? ==> req.authorIds.Some? && r.error.authorId in req.authorIds.value && !Present(authors, r.error.authorId)
      ensures r.Err? && r.error.GenreNotFound? ==>
                req.genreIds.Some? && r.error.genreId in req.genreIds.value && !Present(genres, r.error.genreId) &&
                (req.authorIds.Some? ==> forall a :: a in req.authorIds.value ==> Present(authors, a))
      ensures r.Err? ==> r == Err(BookNotFound(id)) || r.error.AuthorNotFound? || r.error.GenreNotFound?
      ensures r.Err? && !r.error.BookNotFound? ==> Present(old(books), id)
      ensures r.Ok? <==> Present(old(books), id) &&
                         (req.authorIds.Some? ==> forall a :: a in req.authorIds.value ==> Present(authors, a)) &&
                         (req.genreIds.Some? ==> forall g :: g in req.genreIds.value ==> Present(genres, g))
      ensures r.Err? ==> books == old(books)
      ensures r.Ok? ==> var b := old(books)[id - 1].value;
                books == old(books)[id - 1 := Some(WithFields(b.(authors := req.authorIds.GetOr(b.authors), genres := req.genreIds.GetOr(b.genres)), req))]
    {
      if !Present(books, id) {
        return Err(BookNotFound(id));
      }
      var b := books[id - 1].value;
      b := WithFields(b, req);
      if req.authorIds.Some? {
        var missing := CheckLinks(req.authorIds.value, true);
        if missing.Some? {
          return Err(AuthorNotFound(missing.value));
        }
        b := b.(authors := req.authorIds.value);
      }
      if req.genreIds.Some? {
        var missing := CheckLinks(req.genreIds.value, false);
        if missing.Some? {
          return Err(GenreNotFound(missing.value));
        }
        b := b.(genres := req.genreIds.value);
      }
      books := books[id - 1 := Some(b)];
      r := Ok(());
    }

    /** deleteBook. */
    method DeleteBook(id: nat) returns (r: Result<()>)
      modifies this
      ensures authors == old(authors) && genres == old(genres)
      ensures !Present(old(books), id) ==> r == Err(BookNotFound(id)) && books == old(books)
      ensures Present(old(books), id) ==> r.Ok? && books == old(books)[id - 1 := None]
    {
      if !Present(books, id) {
        return Err(BookNotFound(id));
      }
      books := books[id - 1 := None];
      r := Ok(());
    }

    /**
     * findOrCreateByExternalId for books: the one match is returned untouched,
     * several are refused, and with none createBook runs.
     */
    method FindOrCreateBook(externalId: Option<string>, externalSource: Option<string>, req: BookRequest) returns (r: Result<nat>)
      requires Valid()
      modifies this
      ensures Valid() && authors == old(authors) && genres == old(genres)
      ensures var found := old(ByExternal(books, BookKey, (externalId, externalSource), 0));
              (found.Unique? ==> r == Ok(found.id) && books == old(books)) &&
              (found.Ambiguous? ==> r == Err(NonUniqueResult) && books == old(books)) &&
              (found.Missing? ==> BookCreated(old(books), authors, genres, req, r, books))
    {
      var found := ByExternal(books, BookKey, (externalId, externalSource), 0);
      match found
      case Unique(id) => r := Ok(id);
      case Ambiguous => r := Err(NonUniqueResult);
      case Missing => r := CreateBook(req);
    }

    /** addAuthorToBook / removeAuthorFromBook: both rows must exist; the link set gains or loses the author. */
    method LinkAuthor(bookId: nat, authorId: nat, add: bool) returns (r: Result<()>)
      modifies this
      ensures authors == old(authors) && genres == old(genres)
      ensures !Present(old(books), bookId) ==> r == Err(BookNotFound(bookId))
      ensures Present(old(books), bookId) && !Present(authors, authorId) ==> r == Err(AuthorNotFound(authorId))
      ensures r.Err? ==> books == old(books)
      ensures r.Ok? <==> Present(old(books), bookId) && Present(authors, authorId)
      ensures r.Ok? ==> var b := old(books)[bookId - 1].value;
                books == old(books)[bookId - 1 := Some(b.(authors := if add then b.authors + {authorId} else b.authors - {authorId}))]
    {
      if !Present(books, bookId) {
        return Err(BookNotFound(bookId));
      }
      if !Present(authors, authorId) {
        return Err(AuthorNotFound(authorId));
      }
      var b := books[bookId - 1].value;
      books := books[bookId - 1 := Some(b.(authors := if add then b.authors + {authorId} else b.authors - {authorId}))];
      r := Ok(());
    }

    /** addGenreToBook / removeGenreFromBook. */
    method LinkGenre(bookId: nat, genreId: nat, add: bool) returns (r: Result<()>)
      modifies this
      ensures authors == old(authors) && genres == old(genres)
      ensures !Present(old(books), bookId) ==> r == Err(BookNotFound(bookId))
      ensures Present(old(books), bookId) && !Present(genres, genreId) ==> r == Err(GenreNotFound(genreId))
      ensures r.Err? ==> books == old(books)
      ensures r.Ok? <==> Present(old(books), bookId) && Present(genres, genreId)
      ensures r.Ok? ==> var b := old(books)[bookId - 1].value;
                books == old(books)[bookId - 1 := Some(b.(genres := if add then b.genres + {genreId} else b.genres - {genreId}))]
    {
      if !Present(books, bookId) {
        return Err(BookNotFound(bookId));
      }
      if !Present(genres, genreId) {
        return Err(GenreNotFound(genreId));
      }
      var b := books[bookId - 1].value;
      books := books[bookId - 1 := Some(b.(genres := if add then b.genres + {genreId} else b.genres - {genreId}))];
      r := Ok(());
    }

    /** createAuthor: a new exact name is required. */
    method CreateAuthor(a: Author) returns (r: Result<nat>)
      requires Valid()
      modifies this
      ensures Valid() && books == old(books) && genres == old(genres)
      ensures AuthorNamed(old(authors), a.name) ==> r == Err(DuplicateAuthor(a.name)) && authors == old(authors)
      ensures !AuthorNamed(old(authors), a.name) ==> authors == old(authors) + [Some(a)] && r == Ok(|authors|)
    {
      if exists i :: 0 <= i < |authors| && authors[i].Some? && authors[i].value.name == a.name {
        return Err(DuplicateAuthor(a.name));
      }
      authors := authors + [Some(a)];
      r := Ok(|authors|);
      AppendKeepsUniqueAuthors(old(authors), a);
    }

    /** updateAuthor: every field is overwritten; a new name must not be taken, keeping the old one is fine. */
    method UpdateAuthor(id: nat, a: Author) returns (r: Result<()>)
      requires Valid()
      modifies this
      ensures Valid() && books == old(books) && genres == old(genres)
      ensures !Present(old(authors), id) ==> r == Err(AuthorNotFound(id)) && authors == old(authors)
      ensures Present(old(authors), id) && old(authors)[id - 1].value.name != a.name && AuthorNamed(old(authors), a.name) ==>
                r == Err(DuplicateAuthor(a.name)) && authors == old(authors)
      ensures Present(old(authors), id) && (old(authors)[id - 1].value.name == a.name || !AuthorNamed(old(authors), a.name)) ==>
                r.Ok? && authors == old(authors)[id - 1 := Some(a)]
    {
      if !Present(authors, id) {
        return Err(AuthorNotFound(id));
      }
      if authors[id - 1].value.name != a.name && exists i :: 0 <= i < |authors| && authors[i].Some? && authors[i].value.name == a.name {
        return Err(DuplicateAuthor(a.name));
      }
      authors := authors[id - 1 := Some(a)];
      r := Ok(());
    }

    /** deleteAuthor. */
    method DeleteAuthor(id: nat) returns (r: Result<()>)
      requires Valid()
      modifies this
      ensures Valid() && books == old(books) && genres == old(genres)
      ensures !Present(old(authors), id) ==> r == Err(AuthorNotFound(id)) && authors == old(authors)
      ensures Present(old(authors), id) ==> r.Ok? && authors == old(authors)[id - 1 := None]
    {
      if !Present(authors, id) {
        return Err(AuthorNotFound(id));
      }
      authors := authors[id - 1 := None];
      r := Ok(());
    }

    /**
     * findOrCreateByExternalId for authors: the one match is returned, several
     * are refused, and with none createAuthor runs and may still refuse the name.
     */
    method FindOrCreateAuthor(externalId: Option<string>, externalSource: Option<string>, a: Author) returns (r: Result<nat>)
      requires Valid()
      modifies this
      ensures Valid() && books == old(books) && genres == old(genres)
      ensures var found := old(ByExternal(authors, AuthorKey, (externalId, externalSource), 0));
              (found.Unique? ==> r == Ok(found.id) && authors == old(authors)) &&
              (found.Ambiguous? ==> r == Err(NonUniqueResult) && authors == old(authors)) &&
              (found.Missing? && AuthorNamed(old(authors), a.name) ==> r == Err(DuplicateAuthor(a.name)) && authors == old(authors)) &&
              (found.Missing? && !AuthorNamed(old(authors), a.name) ==> authors == old(authors) + [Some(a)] && r == Ok(|authors|))
    {
      var found := ByExternal(authors, AuthorKey, (externalId, externalSource), 0);
      match found
      case Unique(id) => r := Ok(id);
      case Ambiguous => r := Err(NonUniqueResult);
      case Missing => r := CreateAuthor(a);
    }

    /** createGenre. */
    method CreateGenre(g: Genre) returns (r: Result<nat>)
      requires Valid()
      modifies this
      ensures Valid() && books == old(books) && authors == old(authors)
      ensures GenreNamed(old(genres), g.name) ==> r == Err(DuplicateGenre(g.name)) && genres == old(genres)
      ensures !GenreNamed(old(genres), g.name) ==> genres == old(genres) + [Some(g)] && r == Ok(|genres|)
    {
      if exists i :: 0 <= i < |genres| && genres[i].Some? && genres[i].value.name == g.name {
        return Err(DuplicateGenre(g.name));
      }
      genres := genres + [Some(g)];
      r := Ok(|genres|);
      AppendKeepsUniqueGenres(old(genres), g);
    }

    /** updateGenre: name and description are overwritten; a new name must not be taken. */
    method UpdateGenre(id: nat, g: Genre) returns (r: Result<()>)
      requires Valid()
      modifies this
      ensures Valid() && books == old(books) && authors == old(authors)
      ensures !Present(old(genres), id) ==> r == Err(GenreNotFound(id)) && genres == old(genres)
      ensures Present(old(genres), id) && old(genres)[id - 1].value.name != g.name && GenreNamed(old(genres), g.name) ==>
                r == Err(DuplicateGenre(g.name)) && genres == old(genres)
      ensures Present(old(genres), id) && (old(genres)[id - 1].value.name == g.name || !GenreNamed(old(genres), g.name)) ==>
                r.Ok? && genres == old(genres)[id - 1 := Some(g)]
    {
      if !Present(genres, id) {
        return Err(GenreNotFound(id));
      }
      if genres[id - 1].value.name != g.name && exists i :: 0 <= i < |genres| && genres[i].Some? && genres[i].value.name == g.name {
        return Err(DuplicateGenre(g.name));
      }
      genres := genres[id - 1 := Some(g)];
      r := Ok(());
    }

    /** deleteGenre. */
    method DeleteGenre(id: nat) returns (r: Result<()>)
      requires Valid()
      modifies this
      ensures Valid() && books == old(books) && authors == old(authors)
      ensures !Present(old(genres), id) ==> r == Err(GenreNotFound(id)) && genres == old(genres)
      ensures Present(old(genres), id) ==> r.Ok? && genres == old(genres)[id - 1 := None]
    {
      if !Present(genres, id) {
        return Err(GenreNotFound(id));
      }
      genres := genres[id - 1 := None];
      r := Ok(());
    }
  }

  /** getAuthorById / getGenreById / getBookById. */
  function Lookup<T>(rows: seq<Option<T>>, id: nat): (r: Option<T>)
    ensures r.Some? <==> Present(rows, id)
    ensures r.Some? ==> rows[id - 1] == r
  {
    if Present(rows, id) then rows[id - 1] else None
  }

  lemma AppendKeepsUniqueAuthors(authors: seq<Option<Author>>, a: Author)
    requires UniqueAuthorNames(authors) && !AuthorNamed(authors, a.name)
    ensures UniqueAuthorNames(authors + [Some(a)])
  {
    var s := authors + [Some(a)];
    forall i, j | 0 <= i < |s| && 0 <= j < |s| && i != j && s[i].Some? && s[j].Some?
      ensures s[i].value.name != s[j].value.name
    {
      if i == |authors| {
        assert s[j] == authors[j];
      } else if j == |authors| {
        assert s[i] == authors[i];
      }
    }
  }

  lemma AppendKeepsUniqueGenres(genres: seq<Option<Genre>>, g: Genre)
    requires UniqueGenreNames(genres) && !GenreNamed(genres, g.name)
    ensures UniqueGenreNames(genres + [Some(g)])
  {
    var s := genres + [Some(g)];
    forall i, j | 0 <= i < |s| && 0 <= j < |s| && i != j && s[i].Some? && s[j].Some?
      ensures s[i].value.name != s[j].value.name
    {
      if i == |genres| {
        assert s[j] == genres[j];
      } else if j == |genres| {
        assert s[i] == genres[i];
      }
    }
  }
}
