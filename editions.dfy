// The records the Hardcover scraper reads from the API and writes to the
// catalogue database, and the pure rules of DatabaseManager.import_edition:
// field normalisation, the ordered rejection checks, the new book row and the
// insert-if-absent linking of authors and genres.
module Editions {
  import opened Wrappers
  import opened Text

  // ------------------------------------------------------------ API records

  datatype AuthorData = AuthorData(id: nat, name: string, bio: Option<string>, bornYear: Option<int>, deathYear: Option<int>)

  /** One entry of `contributions`; its `author` object may be null. */
  datatype Contribution = Contribution(author: Option<AuthorData>)

  /** The edition's `language` object: null or empty, or an object whose `language` name may be null. */
  datatype LanguageField = NoLanguage | Language(name: Option<string>)

  /** `default_physical_edition`; `publisher` is the publisher object's `name`. */
  datatype Edition = Edition(
    id: nat,
    title: Option<string>,
    subtitle: Option<string>,
    isbn10: Option<string>,
    isbn13: Option<string>,
    pages: Option<int>,
    releaseDate: Option<string>,
    publisher: Option<string>,
    language: LanguageField,
    contributions: seq<Contribution>)

  // ------------------------------------------------------------ database rows

  /** A row of `books`; `external` is the Hardcover edition id of rows with external_source 'hardcover'. */
  datatype BookRow = BookRow(
    title: string,
    subtitle: Option<string>,
    isbn10: Option<string>,
    isbn13: Option<string>,
    publisher: Option<string>,
    publishedDate: Option<string>,
    pageCount: Option<int>,
    language: string,
    description: Option<string>,
    external: Option<nat>)

  /** A row of `authors`; `external` is the Hardcover author id of rows with external_source 'hardcover'. */
  datatype AuthorRow = AuthorRow(name: string, bio: Option<string>, birthYear: Option<int>, deathYear: Option<int>, external: Option<nat>)

  datatype GenreRow = GenreRow(name: string)

  // ------------------------------------------------------------ normalisation

  /** Python truthiness of an optional string: present and non-empty. */
  predicate Truthy(o: Option<string>)
  {
    o.Some? && o.value != []
  }

  /** `x.strip() if x else None`. */
  function StripIfTruthy(o: Option<string>): (r: Option<string>)
    ensures r.Some? <==> Truthy(o)
  {
    if Truthy(o) then Some(Strip(o.value)) else None
  }

  /** A truthy value strips to a falsy one exactly when it is all whitespace. */
  lemma StripIfTruthyBlank(o: Option<string>)
    requires Truthy(o)
    ensures var r := StripIfTruthy(o);
      r.Some? && |r.value| <= |o.value| && (r.value == [] <==> forall i :: 0 <= i < |o.value| ==> IsSpace(o.value[i]))
  {
  }

  /** The ISBN check of import_edition: a truthy value that is not `len` digits becomes None; a falsy one is left as it is. */
  function CheckIsbn(o: Option<string>, len: nat): (r: Option<string>)
    ensures Truthy(r) <==> Truthy(o) && |o.value| == len && IsDigits(o.value)
    ensures r.Some? ==> r == o
    ensures o.Some? && o.value == [] ==> r == o
  {
    if Truthy(o) && (|o.value| != len || !IsDigits(o.value)) then None else o
  }

  function Isbn10Of(ed: Edition): Option<string> { CheckIsbn(StripIfTruthy(ed.isbn10), 10) }

  function Isbn13Of(ed: Edition): Option<string> { CheckIsbn(StripIfTruthy(ed.isbn13), 13) }

  /** An ISBN survives exactly when, once trimmed, it is non-empty, of the exact length and all digits. */
  lemma IsbnKeptIffWellFormed(raw: Option<string>, len: nat)
    requires len > 0
    ensures Truthy(CheckIsbn(StripIfTruthy(raw), len)) <==>
              raw.Some? && |Strip(raw.value)| == len && IsDigits(Strip(raw.value))
  {
  }

  /** `pages if pages and pages > 0 else None`. */
  function PageCount(pages: Option<int>): (r: Option<int>)
    ensures r.Some? <==> pages.Some? && pages.value > 0
    ensures r.Some? ==> r == pages
  {
    if pages.Some? && pages.value > 0 then pages else None
  }

  // ------------------------------------------------------------ rejections

  /** Why import_edition returned (False, message, 0); `Crashed` is its except branch. */
  datatype Rejection =
    | MissingTitle
    | MissingBothIsbns
    | InvalidIsbns
    | DuplicateIsbn10(isbn: string)
    | DuplicateIsbn13(isbn: string)
    | NonEnglish(name: string)
    | Crashed(editionId: nat, detail: string)
  {
    function Message(): string
    {
      match this
      case MissingTitle => "Missing title"
      case MissingBothIsbns => "Missing both ISBNs"
      case InvalidIsbns => "Invalid ISBNs"
      case DuplicateIsbn10(isbn) => "Duplicate ISBN-10: " + isbn
      case DuplicateIsbn13(isbn) => "Duplicate ISBN-13: " + isbn
      case NonEnglish(name) => "Non-English language: " + name
      case Crashed(id, detail) => "Error importing edition " + NatToString(id) + ": " + detail
    }
  }

  /** The AttributeError text Python gives for `None.strip()` / `None.lower()`. */
  function NoneHasNo(attribute: string): string
  {
    "'NoneType' object has no attribute '" + attribute + "'"
  }

  predicate Isbn10Taken(books: seq<BookRow>, isbn: string)
  {
    exists i :: 0 <= i < |books| && books[i].isbn10 == Some(isbn)
  }

  predicate Isbn13Taken(books: seq<BookRow>, isbn: string)
  {
    exists i :: 0 <= i < |books| && books[i].isbn13 == Some(isbn)
  }

  predicate EnglishName(name: string)
  {
    Lower(name) == "english" || Lower(name) == "en"
  }

  /** The ISBN checks: presence, then format, then duplicates, ISBN-10 before ISBN-13. */
  function IsbnProblem(ed: Edition, books: seq<BookRow>): (r: Option<Rejection>)
    ensures r.None? ==> Truthy(Isbn10Of(ed)) || Truthy(Isbn13Of(ed))
    ensures r == Some(MissingBothIsbns) <==> !Truthy(StripIfTruthy(ed.isbn10)) && !Truthy(StripIfTruthy(ed.isbn13))
    ensures r == Some(InvalidIsbns) <==>
              (Truthy(StripIfTruthy(ed.isbn10)) || Truthy(StripIfTruthy(ed.isbn13))) &&
              !Truthy(Isbn10Of(ed)) && !Truthy(Isbn13Of(ed))
    ensures r.Some? ==> r.value.MissingBothIsbns? || r.value.InvalidIsbns? || r.value.DuplicateIsbn10? || r.value.DuplicateIsbn13?
  {
    var raw10, raw13 := StripIfTruthy(ed.isbn10), StripIfTruthy(ed.isbn13);
    if !Truthy(raw10) && !Truthy(raw13) then Some(MissingBothIsbns)
    else
      var i10, i13 := CheckIsbn(raw10, 10), CheckIsbn(raw13, 13);
      if !Truthy(i10) && !Truthy(i13) then Some(InvalidIsbns)
      else if Truthy(i10) && Isbn10Taken(books, i10.value) then Some(DuplicateIsbn10(i10.value))
      else if Truthy(i13) && Isbn13Taken(books, i13.value) then Some(DuplicateIsbn13(i13.value))
      else None
  }

  /** The language check: an object whose name is not English (lower-cased) is refused; a null name crashes. */
  function LanguageProblem(ed: Edition): (r: Option<Rejection>)
    ensures r.Some? ==> r.value.NonEnglish? || r.value.Crashed?
    ensures r.None? <==> ed.language.NoLanguage? || (ed.language.name.Some? && EnglishName(ed.language.name.value))
  {
    match ed.language
    case NoLanguage => None
    case Language(name) =>
      if name.None? then Some(Crashed(ed.id, NoneHasNo("lower")))
      else if EnglishName(name.value) then None
      else Some(NonEnglish(Lower(name.value)))
  }

  /** The checks of import_edition that run before the first insert, in their order. */
  function Screen(ed: Edition, books: seq<BookRow>): (r: Option<Rejection>)
    ensures r.None? ==> ed.title.Some? && Strip(ed.title.value) != []
  {
    if ed.title.None? then Some(Crashed(ed.id, NoneHasNo("strip")))
    else if Strip(ed.title.value) == [] then Some(MissingTitle)
    else if IsbnProblem(ed, books).Some? then IsbnProblem(ed, books)
    else LanguageProblem(ed)
  }

  /** A null title crashes, a blank one is the first rejection. */
  lemma ScreenTitleFirst(ed: Edition, books: seq<BookRow>)
    ensures ed.title.None? ==> Screen(ed, books) == Some(Crashed(ed.id, NoneHasNo("strip")))
    ensures Screen(ed, books) == Some(MissingTitle) <==> ed.title.Some? && Strip(ed.title.value) == []
  {
  }

  /** Past the title checks, Screen is the ISBN checks and then the language check. */
  lemma ScreenAfterTitle(ed: Edition, books: seq<BookRow>)
    requires ed.title.Some? && Strip(ed.title.value) != []
    ensures Screen(ed, books) == if IsbnProblem(ed, books).Some? then IsbnProblem(ed, books) else LanguageProblem(ed)
  {
  }

  /** With a title, the ISBNs are looked at next: both missing is reported first ... */
  lemma ScreenMissingIsbns(ed: Edition, books: seq<BookRow>)
    ensures Screen(ed, books) == Some(MissingBothIsbns) <==>
              ed.title.Some? && Strip(ed.title.value) != [] &&
              !Truthy(StripIfTruthy(ed.isbn10)) && !Truthy(StripIfTruthy(ed.isbn13))
  {
    if ed.title.Some? && Strip(ed.title.value) != [] {
      ScreenAfterTitle(ed, books);
    }
  }

  /** ... and then two ISBNs of which neither is well formed. */
  lemma ScreenInvalidIsbns(ed: Edition, books: seq<BookRow>)
    ensures Screen(ed, books) == Some(InvalidIsbns) <==>
              ed.title.Some? && Strip(ed.title.value) != [] &&
              (Truthy(StripIfTruthy(ed.isbn10)) || Truthy(StripIfTruthy(ed.isbn13))) &&
              !Truthy(Isbn10Of(ed)) && !Truthy(Isbn13Of(ed))
  {
    if ed.title.Some? && Strip(ed.title.value) != [] {
      ScreenAfterTitle(ed, books);
    }
  }

  lemma IsbnDuplicate10(ed: Edition, books: seq<BookRow>)
    ensures var r := IsbnProblem(ed, books);
      r.Some? && r.value.DuplicateIsbn10? ==>
        Truthy(Isbn10Of(ed)) && r.value.isbn == Isbn10Of(ed).value && Isbn10Taken(books, r.value.isbn)
  {
  }

  lemma IsbnDuplicate13(ed: Edition, books: seq<BookRow>)
    ensures var r := IsbnProblem(ed, books);
      r.Some? && r.value.DuplicateIsbn13? ==>
        Truthy(Isbn13Of(ed)) && r.value.isbn == Isbn13Of(ed).value && Isbn13Taken(books, r.value.isbn) &&
        !(Truthy(Isbn10Of(ed)) && Isbn10Taken(books, Isbn10Of(ed).value))
  {
  }

  /** A duplicate is reported for a kept ISBN that a book already has, ISBN-10 first. */
  lemma ScreenDuplicates(ed: Edition, books: seq<BookRow>)
    ensures var r := Screen(ed, books);
      r.Some? && r.value.DuplicateIsbn10? ==>
        Truthy(Isbn10Of(ed)) && r.value.isbn == Isbn10Of(ed).value && Isbn10Taken(books, r.value.isbn)
    ensures var r := Screen(ed, books);
      r.Some? && r.value.DuplicateIsbn13? ==>
        Truthy(Isbn13Of(ed)) && r.value.isbn == Isbn13Of(ed).value && Isbn13Taken(books, r.value.isbn) &&
        !(Truthy(Isbn10Of(ed)) && Isbn10Taken(books, Isbn10Of(ed).value))
  {
    if ed.title.Some? && Strip(ed.title.value) != [] {
      ScreenAfterTitle(ed, books);
      IsbnDuplicate10(ed, books);
      IsbnDuplicate13(ed, books);
    }
  }

  /** The language check comes last and reports the lower-cased name. */
  lemma ScreenLanguageLast(ed: Edition, books: seq<BookRow>)
    ensures Screen(ed, books).Some? && Screen(ed, books).value.NonEnglish? ==>
              Acceptable(ed.(language := NoLanguage), books) &&
              ed.language.Language? && ed.language.name.Some? &&
              Screen(ed, books).value.name == Lower(ed.language.name.value) && !EnglishName(ed.language.name.value)
  {
  }

  /** What an edition must satisfy to be inserted, stated without the order of the checks. */
  predicate Acceptable(ed: Edition, books: seq<BookRow>)
  {
    ed.title.Some? && Strip(ed.title.value) != [] &&
    (Truthy(Isbn10Of(ed)) || Truthy(Isbn13Of(ed))) &&
    !(Truthy(Isbn10Of(ed)) && Isbn10Taken(books, Isbn10Of(ed).value)) &&
    !(Truthy(Isbn13Of(ed)) && Isbn13Taken(books, Isbn13Of(ed).value)) &&
    (ed.language.Language? ==> ed.language.name.Some? && EnglishName(ed.language.name.value))
  }

  /** import_edition inserts exactly the acceptable editions. */
  lemma ScreenPassesIffAcceptable(ed: Edition, books: seq<BookRow>)
    ensures Screen(ed, books).None? <==> Acceptable(ed, books)
  {
  }

  /** The row import_edition inserts. */
  function NewBook(ed: Edition, description: Option<string>): (b: BookRow)
    requires ed.title.Some?
    ensures b.title == Strip(ed.title.value) && b.language == "en" && b.external == Some(ed.id)
    ensures b.isbn10 == Isbn10Of(ed) && b.isbn13 == Isbn13Of(ed)
    ensures b.pageCount.Some? ==> b.pageCount.value > 0
  {
    BookRow(
      Strip(ed.title.value),
      StripIfTruthy(ed.subtitle),
      Isbn10Of(ed),
      Isbn13Of(ed),
      ed.publisher,
      ed.releaseDate,
      PageCount(ed.pages),
      "en",
      StripIfTruthy(description),
      Some(ed.id))
  }

  /** A stored ISBN is either a well-formed one or, when the API sent blanks, the empty string. */
  lemma StoredIsbnIsWellFormedOrBlank(ed: Edition, description: Option<string>)
    requires ed.title.Some?
    ensures var b := NewBook(ed, description);
      (b.isbn10.Some? ==> b.isbn10.value == [] || (|b.isbn10.value| == 10 && IsDigits(b.isbn10.value))) &&
      (b.isbn13.Some? ==> b.isbn13.value == [] || (|b.isbn13.value| == 13 && IsDigits(b.isbn13.value)))
  {
  }

  // ------------------------------------------------------------ authors

  /** The first row that carries a Hardcover author id (the SELECT by external_id). */
  function FindAuthor(rows: seq<AuthorRow>, hardcoverId: nat): (r: Option<nat>)
    ensures r.Some? ==> r.value < |rows| && rows[r.value].external == Some(hardcoverId) &&
                        forall j :: 0 <= j < r.value ==> rows[j].external != Some(hardcoverId)
    ensures r.None? ==> forall j :: 0 <= j < |rows| ==> rows[j].external != Some(hardcoverId)
  {
    if rows == [] then None
    else if rows[0].external == Some(hardcoverId) then Some(0)
    else
      var r := FindAuthor(rows[1..], hardcoverId);
      if r.Some? then Some(r.value + 1) else None
  }

  datatype Got<T> = Got(rows: seq<T>, id: nat)

  /** get_or_create_author: the id of the known author, or of a row appended for it. */
  function GetOrCreateAuthor(rows: seq<AuthorRow>, a: AuthorData): (g: Got<AuthorRow>)
    ensures 1 <= g.id <= |g.rows| && g.rows[g.id - 1].external == Some(a.id)
    ensures FindAuthor(rows, a.id).Some? ==> g.rows == rows && g.id == FindAuthor(rows, a.id).value + 1
    ensures FindAuthor(rows, a.id).None? ==>
              g.rows == rows + [AuthorRow(a.name, a.bio, a.bornYear, a.deathYear, Some(a.id))] && g.id == |g.rows|
  {
    var found := FindAuthor(rows, a.id);
    if found.Some? then Got(rows, found.value + 1)
    else Got(rows + [AuthorRow(a.name, a.bio, a.bornYear, a.deathYear, Some(a.id))], |rows| + 1)
  }

  /** Asking again for the same author changes nothing and gives the same id. */
  lemma GetOrCreateAuthorIdempotent(rows: seq<AuthorRow>, a: AuthorData)
    ensures GetOrCreateAuthor(GetOrCreateAuthor(rows, a).rows, a) == GetOrCreateAuthor(rows, a)
  {
    var g := GetOrCreateAuthor(rows, a);
    if FindAuthor(rows, a.id).None? {
      var f := FindAuthor(g.rows, a.id);
      assert f.Some? by { assert g.rows[|rows|].external == Some(a.id); }
      assert f.value == |rows|;
    }
  }

  /** No two rows carry the same Hardcover author id. */
  predicate UniqueAuthors(rows: seq<AuthorRow>)
  {
    forall i, j :: 0 <= i < j < |rows| && rows[i].external.Some? ==> rows[i].external != rows[j].external
  }

  lemma GetOrCreateAuthorKeepsUnique(rows: seq<AuthorRow>, a: AuthorData)
    requires UniqueAuthors(rows)
    ensures UniqueAuthors(GetOrCreateAuthor(rows, a).rows)
  {
  }

  /** The author tables while import_edition walks the contributions. */
  datatype AuthorLinks = AuthorLinks(authors: seq<AuthorRow>, links: map<(nat, nat), nat>, linked: nat)

  /** The contribution's author, when it is there and has a bio. */
  predicate Linkable(c: Contribution)
  {
    c.author.Some? && Truthy(c.author.value.bio)
  }

  /** One contribution: an author with a bio is fetched or created and linked with the next author_order (ON CONFLICT DO NOTHING). */
  function LinkAuthor(s: AuthorLinks, book: nat, c: Contribution): AuthorLinks
  {
    if !Linkable(c) then s
    else
      var g := GetOrCreateAuthor(s.authors, c.author.value);
      var key := (book, g.id);
      AuthorLinks(g.rows, if key in s.links then s.links else s.links[key := s.linked + 1], s.linked + 1)
  }

  /** The contribution loop over the first n contributions. */
  function LinkAuthors(s: AuthorLinks, book: nat, cs: seq<Contribution>, n: nat): AuthorLinks
    requires n <= |cs|
  {
    if n == 0 then s else LinkAuthor(LinkAuthors(s, book, cs, n - 1), book, cs[n - 1])
  }

  /** Contributions among the first n whose author has a bio. */
  function LinkableCount(cs: seq<Contribution>, n: nat): nat
    requires n <= |cs|
  {
    if n == 0 then 0 else LinkableCount(cs, n - 1) + (if Linkable(cs[n - 1]) then 1 else 0)
  }

  /**
   * The count import_edition returns is the number of authors with a bio; existing links keep their
   * author_order, and each new link of the book gets an order in the range just used.
   */
  lemma {:induction false} LinkAuthorsCounts(s: AuthorLinks, book: nat, cs: seq<Contribution>, n: nat)
    requires n <= |cs|
    ensures var r := LinkAuthors(s, book, cs, n);
      r.linked == s.linked + LinkableCount(cs, n) &&
      |s.authors| <= |r.authors| && r.authors[..|s.authors|] == s.authors &&
      (forall key :: key in s.links ==> key in r.links && r.links[key] == s.links[key]) &&
      (forall key :: key in r.links && key !in s.links ==> key.0 == book && s.linked < r.links[key] <= r.linked)
  {
    if n > 0 {
      LinkAuthorsCounts(s, book, cs, n - 1);
    }
  }

  /**
   * author_order counts the authors linked so far: a link the k-th contribution
   * creates carries the order after those of the linkable contributions before it.
   */
  lemma {:induction false} LinkAuthorsOrder(s: AuthorLinks, book: nat, cs: seq<Contribution>, n: nat, k: nat)
    requires k < n <= |cs| && Linkable(cs[k])
    ensures var p := LinkAuthors(s, book, cs, k);
      var key := (book, GetOrCreateAuthor(p.authors, cs[k].author.value).id);
      key !in p.links ==> key in LinkAuthors(s, book, cs, n).links &&
                          LinkAuthors(s, book, cs, n).links[key] == s.linked + LinkableCount(cs, k) + 1
  {
    var p := LinkAuthors(s, book, cs, k);
    var key := (book, GetOrCreateAuthor(p.authors, cs[k].author.value).id);
    if key !in p.links {
      if n == k + 1 {
        LinkAuthorsCounts(s, book, cs, k);
      } else {
        LinkAuthorsOrder(s, book, cs, n - 1, k);
      }
    }
  }

  /** No two links the loop creates share an author_order. */
  lemma {:induction false} LinkAuthorsOrdersDistinct(s: AuthorLinks, book: nat, cs: seq<Contribution>, n: nat)
    requires n <= |cs|
    ensures var r := LinkAuthors(s, book, cs, n);
      forall key, key' :: key in r.links && key' in r.links && key !in s.links && key' !in s.links && key != key' ==>
        r.links[key] != r.links[key']
  {
    if n > 0 {
      LinkAuthorsOrdersDistinct(s, book, cs, n - 1);
      LinkAuthorsCounts(s, book, cs, n - 1);
    }
  }

  /** Every author with a bio ends up linked to the book through the row that carries its Hardcover id. */
  lemma {:induction false} LinkAuthorsLinksEvery(s: AuthorLinks, book: nat, cs: seq<Contribution>, n: nat, k: nat)
    requires k < n <= |cs| && Linkable(cs[k])
    ensures var r := LinkAuthors(s, book, cs, n);
      exists id :: 1 <= id <= |r.authors| && r.authors[id - 1].external == Some(cs[k].author.value.id) && (book, id) in r.links
  {
    var r := LinkAuthors(s, book, cs, n);
    if k == n - 1 {
      var p := LinkAuthors(s, book, cs, n - 1);
      var g := GetOrCreateAuthor(p.authors, cs[k].author.value);
      assert (book, g.id) in r.links;
    } else {
      LinkAuthorsLinksEvery(s, book, cs, n - 1, k);
      var p := LinkAuthors(s, book, cs, n - 1);
      var id :| 1 <= id <= |p.authors| && p.authors[id - 1].external == Some(cs[k].author.value.id) && (book, id) in p.links;
      if Linkable(cs[n - 1]) {
        var g := GetOrCreateAuthor(p.authors, cs[n - 1].author.value);
        assert r.authors == g.rows;
        assert r.authors[id - 1] == p.authors[id - 1];
      }
    }
  }

  lemma {:induction false} LinkAuthorsKeepsUnique(s: AuthorLinks, book: nat, cs: seq<Contribution>, n: nat)
    requires n <= |cs| && UniqueAuthors(s.authors)
    ensures UniqueAuthors(LinkAuthors(s, book, cs, n).authors)
  {
    if n > 0 {
      LinkAuthorsKeepsUnique(s, book, cs, n - 1);
      var p := LinkAuthors(s, book, cs, n - 1);
      if Linkable(cs[n - 1]) {
        GetOrCreateAuthorKeepsUnique(p.authors, cs[n - 1].author.value);
      }
    }
  }

  // ------------------------------------------------------------ genres

  /** The first genre whose name matches case-insensitively (`LOWER(name) = LOWER(%s)`). */
  function FindGenre(rows: seq<GenreRow>, name: string): (r: Option<nat>)
    ensures r.Some? ==> r.value < |rows| && Lower(rows[r.value].name) == Lower(name) &&
                        forall j :: 0 <= j < r.value ==> Lower(rows[j].name) != Lower(name)
    ensures r.None? ==> forall j :: 0 <= j < |rows| ==> Lower(rows[j].name) != Lower(name)
  {
    if rows == [] then None
    else if Lower(rows[0].name) == Lower(name) then Some(0)
    else
      var r := FindGenre(rows[1..], name);
      if r.Some? then Some(r.value + 1) else None
  }

  /** get_or_create_genre: the id of the matching genre, or of a row appended under the given spelling. */
  function GetOrCreateGenre(rows: seq<GenreRow>, name: string): (g: Got<GenreRow>)
    ensures 1 <= g.id <= |g.rows| && Lower(g.rows[g.id - 1].name) == Lower(name)
    ensures FindGenre(rows, name).Some? ==> g.rows == rows && g.id == FindGenre(rows, name).value + 1
    ensures FindGenre(rows, name).None? ==> g.rows == rows + [GenreRow(name)] && g.id == |g.rows|
  {
    var found := FindGenre(rows, name);
    if found.Some? then Got(rows, found.value + 1) else Got(rows + [GenreRow(name)], |rows| + 1)
  }

  /** Any spelling of a known genre finds the same row and creates nothing. */
  lemma GetOrCreateGenreIgnoresCase(rows: seq<GenreRow>, name: string, other: string)
    requires Lower(other) == Lower(name)
    ensures var g := GetOrCreateGenre(rows, name);
      GetOrCreateGenre(g.rows, other) == g
  {
    var g := GetOrCreateGenre(rows, name);
    var f := FindGenre(g.rows, other);
    if FindGenre(rows, name).None? {
      assert f.Some? by { assert Lower(g.rows[|rows|].name) == Lower(other); }
      assert f.value == |rows|;
    }
  }

  /** No two genres share a lower-cased name. */
  predicate UniqueGenres(rows: seq<GenreRow>)
  {
    forall i, j :: 0 <= i < j < |rows| ==> Lower(rows[i].name) != Lower(rows[j].name)
  }

  datatype GenreLinks = GenreLinks(genres: seq<GenreRow>, links: set<(nat, nat)>)

  /** One genre name: a non-empty name is fetched or created and linked (ON CONFLICT DO NOTHING). */
  function LinkGenre(s: GenreLinks, book: nat, name: string): GenreLinks
  {
    if name == [] then s
    else
      var g := GetOrCreateGenre(s.genres, name);
      GenreLinks(g.rows, s.links + {(book, g.id)})
  }

  function LinkGenres(s: GenreLinks, book: nat, names: seq<string>, n: nat): GenreLinks
    requires n <= |names|
  {
    if n == 0 then s else LinkGenre(LinkGenres(s, book, names, n - 1), book, names[n - 1])
  }

  lemma LinkGenreKeepsUnique(s: GenreLinks, book: nat, name: string)
    requires UniqueGenres(s.genres)
    ensures UniqueGenres(LinkGenre(s, book, name).genres)
  {
    if name != [] && FindGenre(s.genres, name).None? {
      var r := LinkGenre(s, book, name).genres;
      forall i, j | 0 <= i < j < |r| ensures Lower(r[i].name) != Lower(r[j].name) {
        if j == |s.genres| { assert r[j].name == name; }
      }
    }
  }

  /**
   * The genre loop keeps the genre table free of case-insensitive duplicates, only appends genres and
   * only ever adds links of this book.
   */
  lemma {:induction false} LinkGenresGrows(s: GenreLinks, book: nat, names: seq<string>, n: nat)
    requires n <= |names| && UniqueGenres(s.genres)
    ensures var r := LinkGenres(s, book, names, n);
      UniqueGenres(r.genres) && |s.genres| <= |r.genres| && r.genres[..|s.genres|] == s.genres &&
      s.links <= r.links && (forall l :: l in r.links - s.links ==> l.0 == book && 1 <= l.1 <= |r.genres|)
  {
    if n > 0 {
      LinkGenresGrows(s, book, names, n - 1);
      LinkGenreKeepsUnique(LinkGenres(s, book, names, n - 1), book, names[n - 1]);
    }
  }

  /** Every non-empty name ends up linked to a genre of the same lower-cased name. */
  lemma {:induction false} LinkGenresLinksEvery(s: GenreLinks, book: nat, names: seq<string>, n: nat, k: nat)
    requires k < n <= |names| && names[k] != []
    ensures var r := LinkGenres(s, book, names, n);
      exists id :: 1 <= id <= |r.genres| && Lower(r.genres[id - 1].name) == Lower(names[k]) && (book, id) in r.links
  {
    var r := LinkGenres(s, book, names, n);
    var p := LinkGenres(s, book, names, n - 1);
    if k == n - 1 {
      var g := GetOrCreateGenre(p.genres, names[k]);
      assert (book, g.id) in r.links;
    } else {
      LinkGenresLinksEvery(s, book, names, n - 1, k);
      var id :| 1 <= id <= |p.genres| && Lower(p.genres[id - 1].name) == Lower(names[k]) && (book, id) in p.links;
      if names[n - 1] != [] {
        var g := GetOrCreateGenre(p.genres, names[n - 1]);
        assert r.genres == g.rows;
        assert r.genres[id - 1] == p.genres[id - 1];
      }
    }
  }
}
