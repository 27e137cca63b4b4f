// DatabaseManager of the Hardcover scraper over an in-memory store: the
// catalogue tables it writes, the scraper_runs ledger and the scraper_errors
// log. Row ids are positions plus one, as a BIGSERIAL hands them out.
module ScraperStore {
  import opened Wrappers
  import opened Text
  import opened Editions

  datatype RunStatus = Running | Stopped | Completed | Failed

  /** A row of scraper_runs; a new row has zero counters and no ledger position. */
  datatype RunRow = RunRow(
    status: RunStatus,
    startedAt: int,
    endedAt: Option<int>,
    notes: Option<string>,
    booksProcessed: int,
    editionsImported: int,
    authorsImported: int,
    errorsCount: int,
    lastBookId: Option<nat>,
    lastOffset: Option<int>)

  datatype ErrorRow = ErrorRow(runId: Option<nat>, errorType: string, hardcoverId: Option<nat>, hardcoverType: string, message: string)

  predicate Resumable(r: RunRow)
  {
    r.status.Running? || r.status.Stopped?
  }

  /** get_last_incomplete_run over the first n rows: the id of a running or stopped row started last. */
  function LatestResumableIn(runs: seq<RunRow>, n: nat): (r: Option<nat>)
    requires n <= |runs|
    ensures r.None? <==> forall j :: 0 <= j < n ==> !Resumable(runs[j])
    ensures r.Some? ==> 1 <= r.value <= n && Resumable(runs[r.value - 1]) &&
                        forall j :: 0 <= j < n && Resumable(runs[j]) ==> runs[j].startedAt <= runs[r.value - 1].startedAt
  {
    if n == 0 then None
    else
      var before := LatestResumableIn(runs, n - 1);
      if !Resumable(runs[n - 1]) then before
      else if before.Some? && runs[before.value - 1].startedAt > runs[n - 1].startedAt then before
      else Some(n)
  }

  function LatestResumable(runs: seq<RunRow>): Option<nat>
  {
    LatestResumableIn(runs, |runs|)
  }

  /** The offset a run resumes from: `last_offset or 0`, and 0 for a fresh run. */
  function ResumeOffset(runs: seq<RunRow>): (offset: int)
    ensures LatestResumable(runs).None? ==> offset == 0
    ensures LatestResumable(runs).Some? ==> offset == runs[LatestResumable(runs).value - 1].lastOffset.GetOr(0)
  {
    match LatestResumable(runs)
    case None => 0
    case Some(id) => runs[id - 1].lastOffset.GetOr(0)
  }

  /** A counter of update_run_stats is added only when it is positive. */
  function Positive(k: int): nat
  {
    if k > 0 then k else 0
  }

  /** The row after update_run_stats. */
  function WithStats(r: RunRow, books: int, editions: int, authors: int, errors: int, lastBookId: Option<nat>, lastOffset: Option<int>): (s: RunRow)
    ensures s.status == r.status && s.startedAt == r.startedAt && s.endedAt == r.endedAt && s.notes == r.notes
    ensures s.booksProcessed >= r.booksProcessed && s.editionsImported >= r.editionsImported
    ensures s.authorsImported >= r.authorsImported && s.errorsCount >= r.errorsCount
    ensures lastBookId.None? ==> s.lastBookId == r.lastBookId
    ensures lastOffset.None? ==> s.lastOffset == r.lastOffset
  {
    r.(booksProcessed := r.booksProcessed + Positive(books),
       editionsImported := r.editionsImported + Positive(editions),
       authorsImported := r.authorsImported + Positive(authors),
       errorsCount := r.errorsCount + Positive(errors),
       lastBookId := if lastBookId.Some? then lastBookId else r.lastBookId,
       lastOffset := if lastOffset.Some? then lastOffset else r.lastOffset)
  }

  /** Two updates add up: the counters grow by the positive parts of both. */
  lemma WithStatsAccumulates(r: RunRow, b1: int, e1: int, a1: int, x1: int, b2: int, e2: int, a2: int, x2: int, id: nat, offset: int)
    ensures var s := WithStats(WithStats(r, b1, e1, a1, x1, None, None), b2, e2, a2, x2, Some(id), Some(offset));
      s.booksProcessed == r.booksProcessed + Positive(b1) + Positive(b2) &&
      s.editionsImported == r.editionsImported + Positive(e1) + Positive(e2) &&
      s.authorsImported == r.authorsImported + Positive(a1) + Positive(a2) &&
      s.errorsCount == r.errorsCount + Positive(x1) + Positive(x2) &&
      s.lastBookId == Some(id) && s.lastOffset == Some(offset)
  {
  }

  /** A book row carries this Hardcover edition id (book_exists). */
  predicate Imported(books: seq<BookRow>, editionId: nat)
  {
    exists i :: 0 <= i < |books| && books[i].external == Some(editionId)
  }

  /** The catalogue tables import_edition writes. */
  datatype Catalogue = Catalogue(
    books: seq<BookRow>, authors: seq<AuthorRow>, genres: seq<GenreRow>,
    bookAuthors: map<(nat, nat), nat>, bookGenres: set<(nat, nat)>)

  class Database {
    var books: seq<BookRow>
    var authors: seq<AuthorRow>
    var genres: seq<GenreRow>
    /** book_authors: (book id, author id) to author_order. */
    var bookAuthors: map<(nat, nat), nat>
    /** book_genres: (book id, genre id). */
    var bookGenres: set<(nat, nat)>
    var runs: seq<RunRow>
    var errors: seq<ErrorRow>
    var currentRunId: Option<nat>

    /** A connection to a database that already holds these rows. */
    constructor(books0: seq<BookRow>, authors0: seq<AuthorRow>, genres0: seq<GenreRow>, runs0: seq<RunRow>)
      ensures books == books0 && authors == authors0 && genres == genres0 && runs == runs0
      ensures bookAuthors == map[] && bookGenres == {} && errors == [] && currentRunId == None
    {
      books, authors, genres, runs := books0, authors0, genres0, runs0;
      bookAuthors, bookGenres, errors := map[], {}, [];
      currentRunId := None;
    }

    function Tables(): Catalogue
      reads this
    {
      Catalogue(books, authors, genres, bookAuthors, bookGenres)
    }

    predicate CurrentRunIn()
      reads this
    {
      currentRunId.Some? && 1 <= currentRunId.value <= |runs|
    }

    function LastIncompleteRun(): (r: Option<nat>)
      reads this
      ensures r == LatestResumable(runs)
    {
      LatestResumable(runs)
    }

    /** book_exists. */
    function BookExists(editionId: nat): bool
      reads this
    {
      Imported(books, editionId)
    }

    /** genre_exists: some genre matches case-insensitively. */
    function GenreExists(name: string): (b: bool)
      reads this
      ensures b <==> exists j :: 0 <= j < |genres| && Lower(genres[j].name) == Lower(name)
    {
      FindGenre(genres, name).Some?
    }

    /** start_scraper_run: resume the given run (as running, restamped) or insert a new running row. */
    method StartRun(resume: Option<nat>, now: int) returns (id: nat)
      requires resume.Some? ==> 1 <= resume.value <= |runs|
      modifies this
      ensures resume.Some? ==> id == resume.value && runs == old(runs)[id - 1 := old(runs)[id - 1].(status := Running, startedAt := now)]
      ensures resume.None? ==> runs == old(runs) + [RunRow(Running, now, None, None, 0, 0, 0, 0, None, None)] && id == |runs|
      ensures currentRunId == Some(id) && CurrentRunIn()
      ensures books == old(books) && authors == old(authors) && genres == old(genres)
      ensures bookAuthors == old(bookAuthors) && bookGenres == old(bookGenres) && errors == old(errors)
    {
      if resume.Some? {
        id := resume.value;
        runs := runs[id - 1 := runs[id - 1].(status := Running, startedAt := now)];
      } else {
        runs := runs + [RunRow(Running, now, None, None, 0, 0, 0, 0, None, None)];
        id := |runs|;
      }
      currentRunId := Some(id);
    }

    /** end_scraper_run: nothing without a current run; otherwise its row gets the end time, status and notes. */
    method EndRun(status: RunStatus, notes: Option<string>, now: int)
      modifies this
      ensures CurrentRunIn() <==> old(CurrentRunIn())
      ensures old(CurrentRunIn()) ==>
                runs == old(runs)[old(currentRunId).value - 1 := old(runs)[old(currentRunId).value - 1].(endedAt := Some(now), status := status, notes := notes)]
      ensures !old(CurrentRunIn()) ==> runs == old(runs)
      ensures currentRunId == old(currentRunId)
      ensures books == old(books) && authors == old(authors) && genres == old(genres)
      ensures bookAuthors == old(bookAuthors) && bookGenres == old(bookGenres) && errors == old(errors)
    {
      if CurrentRunIn() {
        var id := currentRunId.value;
        runs := runs[id - 1 := runs[id - 1].(endedAt := Some(now), status := status, notes := notes)];
      }
    }

    /** update_run_stats on the current run. */
    method UpdateRunStats(booksProcessed: int, editionsImported: int, authorsImported: int, errorsCount: int,
                          lastBookId: Option<nat>, lastOffset: Option<int>)
      modifies this
      ensures CurrentRunIn() <==> old(CurrentRunIn())
      ensures old(CurrentRunIn()) ==>
                runs == old(runs)[old(currentRunId).value - 1 :=
                  WithStats(old(runs)[old(currentRunId).value - 1], booksProcessed, editionsImported, authorsImported, errorsCount, lastBookId, lastOffset)]
      ensures !old(CurrentRunIn()) ==> runs == old(runs)
      ensures currentRunId == old(currentRunId)
      ensures books == old(books) && authors == old(authors) && genres == old(genres)
      ensures bookAuthors == old(bookAuthors) && bookGenres == old(bookGenres) && errors == old(errors)
    {
      if CurrentRunIn() {
        var id := currentRunId.value;
        var row := runs[id - 1];
        if booksProcessed > 0 { row := row.(booksProcessed := row.booksProcessed + booksProcessed); }
        if editionsImported > 0 { row := row.(editionsImported := row.editionsImported + editionsImported); }
        if authorsImported > 0 { row := row.(authorsImported := row.authorsImported + authorsImported); }
        if errorsCount > 0 { row := row.(errorsCount := row.errorsCount + errorsCount); }
        if lastBookId.Some? { row := row.(lastBookId := lastBookId); }
        if lastOffset.Some? { row := row.(lastOffset := lastOffset); }
        runs := runs[id - 1 := row];
      }
    }

    /** log_error: one more error row, tagged with the current run. */
    method LogError(errorType: string, hardcoverId: Option<nat>, hardcoverType: string, message: string)
      modifies this
      ensures errors == old(errors) + [ErrorRow(currentRunId, errorType, hardcoverId, hardcoverType, message)]
      ensures runs == old(runs) && currentRunId == old(currentRunId)
      ensures books == old(books) && authors == old(authors) && genres == old(genres)
      ensures bookAuthors == old(bookAuthors) && bookGenres == old(bookGenres)
    {
      errors := errors + [ErrorRow(currentRunId, errorType, hardcoverId, hardcoverType, message)];
    }

    /** get_or_create_author. */
    method GetOrCreateAuthor(a: AuthorData) returns (id: nat)
      modifies this
      ensures authors == Editions.GetOrCreateAuthor(old(authors), a).rows && id == Editions.GetOrCreateAuthor(old(authors), a).id
      ensures books == old(books) && genres == old(genres) && bookAuthors == old(bookAuthors) && bookGenres == old(bookGenres)
      ensures runs == old(runs) && errors == old(errors) && currentRunId == old(currentRunId)
    {
      var found := FindAuthor(authors, a.id);
      if found.Some? {
        id := found.value + 1;
      } else {
        authors := authors + [AuthorRow(a.name, a.bio, a.bornYear, a.deathYear, Some(a.id))];
        id := |authors|;
      }
    }

    /** get_or_create_genre. */
    method GetOrCreateGenre(name: string) returns (id: nat)
      modifies this
      ensures genres == Editions.GetOrCreateGenre(old(genres), name).rows && id == Editions.GetOrCreateGenre(old(genres), name).id
      ensures books == old(books) && authors == old(authors) && bookAuthors == old(bookAuthors) && bookGenres == old(bookGenres)
      ensures runs == old(runs) && errors == old(errors) && currentRunId == old(currentRunId)
    {
      var found := FindGenre(genres, name);
      if found.Some? {
        id := found.value + 1;
      } else {
        genres := genres + [GenreRow(name)];
        id := |genres|;
      }
    }

    /** The contribution loop of import_edition for the book with this id. */
    method LinkAuthorsOf(bookId: nat, cs: seq<Contribution>) returns (linked: nat)
      modifies this
      ensures var al := LinkAuthors(AuthorLinks(old(authors), old(bookAuthors), 0), bookId, cs, |cs|);
        authors == al.authors && bookAuthors == al.links && linked == al.linked
      ensures books == old(books) && genres == old(genres) && bookGenres == old(bookGenres)
      ensures runs == old(runs) && errors == old(errors) && currentRunId == old(currentRunId)
    {
      linked := 0;
      var i := 0;
      while i < |cs|
        invariant 0 <= i <= |cs|
        invariant AuthorLinks(authors, bookAuthors, linked) == LinkAuthors(AuthorLinks(old(authors), old(bookAuthors), 0), bookId, cs, i)
        invariant books == old(books) && genres == old(genres) && bookGenres == old(bookGenres)
        invariant runs == old(runs) && errors == old(errors) && currentRunId == old(currentRunId)
      {
        var c := cs[i];
        if c.author.Some? && Truthy(c.author.value.bio) {
          var authorId := GetOrCreateAuthor(c.author.value);
          if (bookId, authorId) !in bookAuthors {
            bookAuthors := bookAuthors[(bookId, authorId) := linked + 1];
          }
          linked := linked + 1;
        }
        i := i + 1;
      }
    }

    /** The genre loop of import_edition for the book with this id. */
    method LinkGenresOf(bookId: nat, names: seq<string>)
      modifies this
      ensures var gl := LinkGenres(GenreLinks(old(genres), old(bookGenres)), bookId, names, |names|);
        genres == gl.genres && bookGenres == gl.links
      ensures books == old(books) && authors == old(authors) && bookAuthors == old(bookAuthors)
      ensures runs == old(runs) && errors == old(errors) && currentRunId == old(currentRunId)
    {
      var j := 0;
      while j < |names|
        invariant 0 <= j <= |names|
        invariant GenreLinks(genres, bookGenres) == LinkGenres(GenreLinks(old(genres), old(bookGenres)), bookId, names, j)
        invariant books == old(books) && authors == old(authors) && bookAuthors == old(bookAuthors)
        invariant runs == old(runs) && errors == old(errors) && currentRunId == old(currentRunId)
      {
        var name := names[j];
        if name != [] {
          var genreId := GetOrCreateGenre(name);
          bookGenres := bookGenres + {(bookId, genreId)};
        }
        j := j + 1;
      }
    }

    /**
     * import_edition. `fault` is the database error raised while the edition is written, if any:
     * the savepoint then takes every write of this edition back.
     */
    method ImportEdition(ed: Edition, description: Option<string>, genreNames: seq<string>, fault: Option<string>)
      returns (ok: bool, message: string, authorsImported: nat)
      modifies this
      ensures runs == old(runs) && errors == old(errors) && currentRunId == old(currentRunId)
      ensures Screen(ed, old(books)).Some? ==>
                !ok && message == Screen(ed, old(books)).value.Message() && authorsImported == 0 &&
                books == old(books) && authors == old(authors) && genres == old(genres) &&
                bookAuthors == old(bookAuthors) && bookGenres == old(bookGenres)
      ensures Screen(ed, old(books)).None? && fault.Some? ==>
                !ok && message == Crashed(ed.id, fault.value).Message() && authorsImported == 0 &&
                books == old(books) && authors == old(authors) && genres == old(genres) &&
                bookAuthors == old(bookAuthors) && bookGenres == old(bookGenres)
      ensures Screen(ed, old(books)).None? && fault.None? ==>
                ok && message == "Successfully imported: " + Strip(ed.title.value) &&
                books == old(books) + [NewBook(ed, description)] &&
                var al := LinkAuthors(AuthorLinks(old(authors), old(bookAuthors), 0), |books|, ed.contributions, |ed.contributions|);
                var gl := LinkGenres(GenreLinks(old(genres), old(bookGenres)), |books|, genreNames, |genreNames|);
                authors == al.authors && bookAuthors == al.links && authorsImported == al.linked &&
                genres == gl.genres && bookGenres == gl.links
      ensures ok <==> Screen(ed, old(books)).None? && fault.None?
    {
      var rejection := Screen(ed, books);
      if rejection.Some? {
        ok, message, authorsImported := false, rejection.value.Message(), 0;
      } else {
        ok, message, authorsImported := WriteEdition(ed, description, genreNames, fault);
      }
    }

    /** The inserts of import_edition: the book row, then its author and genre links. */
    method InsertEdition(ed: Edition, description: Option<string>, genreNames: seq<string>) returns (authorsImported: nat)
      requires ed.title.Some?
      modifies this
      ensures runs == old(runs) && errors == old(errors) && currentRunId == old(currentRunId)
      ensures books == old(books) + [NewBook(ed, description)]
      ensures var al := LinkAuthors(AuthorLinks(old(authors), old(bookAuthors), 0), |books|, ed.contributions, |ed.contributions|);
              authors == al.authors && bookAuthors == al.links && authorsImported == al.linked
      ensures var gl := LinkGenres(GenreLinks(old(genres), old(bookGenres)), |books|, genreNames, |genreNames|);
              genres == gl.genres && bookGenres == gl.links
    {
      books := books + [NewBook(ed, description)];
      var bookId := |books|;
      authorsImported := LinkAuthorsOf(bookId, ed.contributions);
      LinkGenresOf(bookId, genreNames);
    }

    /** import_edition from the savepoint on, for an edition that passed the checks. */
    method WriteEdition(ed: Edition, description: Option<string>, genreNames: seq<string>, fault: Option<string>)
      returns (ok: bool, message: string, authorsImported: nat)
      requires ed.title.Some?
      modifies this
      ensures runs == old(runs) && errors == old(errors) && currentRunId == old(currentRunId)
      ensures fault.Some? ==>
                !ok && message == Crashed(ed.id, fault.value).Message() && authorsImported == 0 &&
                books == old(books) && authors == old(authors) && genres == old(genres) &&
                bookAuthors == old(bookAuthors) && bookGenres == old(bookGenres)
      ensures fault.None? ==>
                ok && message == "Successfully imported: " + Strip(ed.title.value) &&
                books == old(books) + [NewBook(ed, description)] &&
                var al := LinkAuthors(AuthorLinks(old(authors), old(bookAuthors), 0), |books|, ed.contributions, |ed.contributions|);
                var gl := LinkGenres(GenreLinks(old(genres), old(bookGenres)), |books|, genreNames, |genreNames|);
                authors == al.authors && bookAuthors == al.links && authorsImported == al.linked &&
                genres == gl.genres && bookGenres == gl.links
    {
      // SAVEPOINT edition_import
      var books0, authors0, genres0, bookAuthors0, bookGenres0 := books, authors, genres, bookAuthors, bookGenres;
      authorsImported := InsertEdition(ed, description, genreNames);
      if fault.Some? {
        // ROLLBACK TO SAVEPOINT edition_import
        books, authors, genres, bookAuthors, bookGenres := books0, authors0, genres0, bookAuthors0, bookGenres0;
        ok, message, authorsImported := false, Crashed(ed.id, fault.value).Message(), 0;
      } else {
        ok, message := true, "Successfully imported: " + Strip(ed.title.value);
      }
    }
  }
}
