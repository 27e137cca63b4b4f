// The Hardcover scraper's driver: the rate limiter, the genre candidates of a
// book, the handling of one book and the resumable run loop over pages.
// Time is an integer clock in milliseconds; the API is an oracle handing out
// one page per request, and the shutdown signal arrives after a given number
// of checks of the running flag.
module Scraper {
  import opened Wrappers
  import opened Text
  import opened Editions
  import opened ScraperStore

  /** RateLimiter: successive requests are at least `delay` milliseconds apart. */
  class RateLimiter {
    const delay: int
    var lastRequestTime: int

    constructor(requestsPerMinute: nat)
      requires requestsPerMinute > 0
      ensures delay == 60000 / requestsPerMinute && lastRequestTime == 0
    {
      delay := 60000 / requestsPerMinute;
      lastRequestTime := 0;
    }

    /** wait: sleep out the rest of the interval, if any, and stamp the request. */
    method Wait(now: int) returns (after: int)
      modifies this
      ensures after == (if now - old(lastRequestTime) < delay then old(lastRequestTime) + delay else now)
      ensures after >= now && after >= old(lastRequestTime) + delay
      ensures lastRequestTime == after
    {
      after := now;
      var sinceLast := now - lastRequestTime;
      if sinceLast < delay {
        after := now + (delay - sinceLast);
      }
      lastRequestTime := after;
    }
  }

  /** One entry of a book's cached "Genre" tags. */
  datatype Tag = Tag(tag: Option<string>, count: int)

  /**
   * A book as the popular-books query returns it. `genreTags` is None when
   * cached_tags is empty or has no "Genre" entry.
   */
  datatype SourceBook = SourceBook(id: nat, edition: Option<Edition>, genreTags: Option<seq<Tag>>, description: Option<string>)

  /**
   * A page entry. `Item` is a well-formed book, with the database error its
   * edition import would meet, if any. `Malformed` is an entry on which the
   * per-book handler raises: with `id` None it has no "id" at all; with
   * `id` Some it raises only after the book was counted.
   */
  datatype SourceItem =
    | Item(book: SourceBook, importFault: Option<string>)
    | Malformed(id: Option<nat>, detail: string)

  /** The tags over the threshold among the first n: a name and a count of at least 10. */
  function PopularIn(tags: seq<Tag>, n: nat): (r: seq<string>)
    requires n <= |tags|
    ensures |r| <= n
  {
    if n == 0 then []
    else
      var t := tags[n - 1];
      PopularIn(tags, n - 1) + (if Truthy(t.tag) && t.count >= 10 then [t.tag.value] else [])
  }

  /** The named tags among the first n that name a genre already in the store. */
  function KnownIn(tags: seq<Tag>, n: nat, genres: seq<GenreRow>): (r: seq<string>)
    requires n <= |tags|
    ensures |r| <= n
  {
    if n == 0 then []
    else
      var t := tags[n - 1];
      KnownIn(tags, n - 1, genres) + (if Truthy(t.tag) && FindGenre(genres, t.tag.value).Some? then [t.tag.value] else [])
  }

  /** The genre names a book is imported with. */
  function GenreCandidates(genreTags: Option<seq<Tag>>, genres: seq<GenreRow>): seq<string>
  {
    match genreTags
    case None => []
    case Some(tags) =>
      var popular := PopularIn(tags, |tags|);
      if popular != [] then popular else KnownIn(tags, |tags|, genres)
  }

  /** A name is among the popular tags iff some named tag with that name has a count of at least 10. */
  lemma {:induction false} PopularInIff(tags: seq<Tag>, n: nat, name: string)
    requires n <= |tags|
    ensures name in PopularIn(tags, n) <==>
              exists j :: 0 <= j < n && Truthy(tags[j].tag) && tags[j].tag.value == name && tags[j].count >= 10
  {
    if n > 0 {
      PopularInIff(tags, n - 1, name);
    }
  }

  /** A name is among the known tags iff some named tag with that name matches a stored genre. */
  lemma {:induction false} KnownInIff(tags: seq<Tag>, n: nat, genres: seq<GenreRow>, name: string)
    requires n <= |tags|
    ensures name in KnownIn(tags, n, genres) <==>
              exists j :: 0 <= j < n && Truthy(tags[j].tag) && tags[j].tag.value == name && FindGenre(genres, name).Some?
  {
    if n > 0 {
      KnownInIff(tags, n - 1, genres, name);
    }
  }

  /** Every popular candidate is the name of one of the tags it was drawn from. */
  lemma {:induction false} PopularInOrder(tags: seq<Tag>, n: nat, i: nat)
    requires n <= |tags| && i < |PopularIn(tags, n)|
    ensures exists j :: 0 <= j < n && tags[j].tag == Some(PopularIn(tags, n)[i])
  {
    var t := tags[n - 1];
    if i < |PopularIn(tags, n - 1)| {
      PopularInOrder(tags, n - 1, i);
    } else {
      assert tags[n - 1].tag == Some(PopularIn(tags, n)[i]);
    }
  }

  /** With no tag over the threshold, every named tag that matches a stored genre is taken, not just the first. */
  lemma FallbackTakesEveryKnownTag(tags: seq<Tag>, genres: seq<GenreRow>, j: nat)
    requires j < |tags| && Truthy(tags[j].tag) && FindGenre(genres, tags[j].tag.value).Some?
    requires forall k :: 0 <= k < |tags| && Truthy(tags[k].tag) ==> tags[k].count < 10
    ensures tags[j].tag.value in GenreCandidates(Some(tags), genres)
  {
    var name := tags[j].tag.value;
    if PopularIn(tags, |tags|) != [] {
      PopularInIff(tags, |tags|, PopularIn(tags, |tags|)[0]);
      assert false;
    }
    KnownInIff(tags, |tags|, genres, name);
  }

  /** Two known tags under the threshold both become genres of the book. */
  lemma FallbackTakesBoth()
    ensures GenreCandidates(Some([Tag(Some("Fantasy"), 3), Tag(Some("Horror"), 2)]), [GenreRow("fantasy"), GenreRow("horror")])
              == ["Fantasy", "Horror"]
  {
    var tags := [Tag(Some("Fantasy"), 3), Tag(Some("Horror"), 2)];
    var genres := [GenreRow("fantasy"), GenreRow("horror")];
    assert PopularIn(tags, 2) == [];
    assert Lower("Fantasy") == "fantasy";
    assert Lower("Horror") == "horror";
    assert FindGenre(genres, "Fantasy").Some?;
    assert FindGenre(genres, "Horror").Some?;
  }

  /** What the handling of one book amounts to, for the run's counters. */
  datatype BookOutcome =
    | NoEdition(bookId: nat)
    | AlreadyImported(bookId: nat)
    | Added(bookId: nat, authors: nat)
    | ImportFailed(bookId: nat)
    | ProcessingError(book: Option<nat>)
  {
    /** The id recorded as the last processed book, if the handler got that far. */
    function Seen(): Option<nat>
    {
      match this
      case NoEdition(id) => Some(id)
      case AlreadyImported(id) => Some(id)
      case Added(id, _) => Some(id)
      case ImportFailed(id) => Some(id)
      case ProcessingError(id) => id
    }

    predicate IsError()
    {
      ImportFailed? || ProcessingError?
    }
  }

  /**
   * What an outcome says about the page entry it came from, whatever the
   * store held: a malformed entry is a processing error under its id, a book
   * without an edition is skipped, and any other book is found, added or
   * failed under its own id.
   */
  predicate Handles(item: SourceItem, outcome: BookOutcome)
  {
    match item
    case Malformed(id, _) => outcome == ProcessingError(id)
    case Item(book, _) =>
      if book.edition.None? then outcome == NoEdition(book.id)
      else (outcome.AlreadyImported? || outcome.Added? || outcome.ImportFailed?) && outcome.bookId == book.id
  }

  /** The outcomes are those of the first |outcomes| entries of the page. */
  predicate Aligned(page: seq<SourceItem>, outcomes: seq<BookOutcome>)
  {
    |outcomes| <= |page| && forall j :: 0 <= j < |outcomes| ==> Handles(page[j], outcomes[j])
  }

  /** total_books_processed: the entries whose id the handler read. */
  function CountSeen(os: seq<BookOutcome>): nat
  {
    if os == [] then 0 else CountSeen(os[..|os| - 1]) + (if os[|os| - 1].Seen().Some? then 1 else 0)
  }

  /** The editions imported. */
  function CountAdded(os: seq<BookOutcome>): nat
  {
    if os == [] then 0 else CountAdded(os[..|os| - 1]) + (if os[|os| - 1].Added? then 1 else 0)
  }

  /** The authors the imported editions created. */
  function SumAuthors(os: seq<BookOutcome>): nat
  {
    if os == [] then 0 else SumAuthors(os[..|os| - 1]) + (if os[|os| - 1].Added? then os[|os| - 1].authors else 0)
  }

  /** The failed imports and the entries the handler raised on. */
  function CountErrors(os: seq<BookOutcome>): nat
  {
    if os == [] then 0 else CountErrors(os[..|os| - 1]) + (if os[|os| - 1].IsError() then 1 else 0)
  }

  /** last_book_id after the outcomes, starting from `before`. */
  function LastSeen(os: seq<BookOutcome>, before: Option<nat>): Option<nat>
  {
    if os == [] then before
    else if os[|os| - 1].Seen().Some? then os[|os| - 1].Seen()
    else LastSeen(os[..|os| - 1], before)
  }

  /** The outcomes of consecutive pages, in order. */
  function Concat(hs: seq<seq<BookOutcome>>): seq<BookOutcome>
  {
    if hs == [] then [] else Concat(hs[..|hs| - 1]) + hs[|hs| - 1]
  }

  /** The entries among the first n that carry no id at all. */
  function Anonymous(page: seq<SourceItem>, n: nat): nat
    requires n <= |page|
  {
    if n == 0 then 0 else Anonymous(page, n - 1) + (if page[n - 1].Malformed? && page[n - 1].id.None? then 1 else 0)
  }

  /** The entries among the first n that are malformed. */
  function MalformedIn(page: seq<SourceItem>, n: nat): nat
    requires n <= |page|
  {
    if n == 0 then 0 else MalformedIn(page, n - 1) + (if page[n - 1].Malformed? then 1 else 0)
  }

  /**
   * What the counters of handled entries add up to: every entry counts as
   * processed except one without an id, every malformed entry is an error,
   * and an entry is added, failed or neither.
   */
  lemma {:induction false} HandledCounts(page: seq<SourceItem>, os: seq<BookOutcome>)
    requires Aligned(page, os)
    ensures CountSeen(os) == |os| - Anonymous(page, |os|)
    ensures CountErrors(os) >= MalformedIn(page, |os|)
    ensures CountAdded(os) + CountErrors(os) <= |os|
  {
    if os != [] {
      var n := |os| - 1;
      assert Aligned(page, os[..n]) by {
        forall j | 0 <= j < n ensures Handles(page[j], os[..n][j]) {
          assert os[..n][j] == os[j];
        }
      }
      HandledCounts(page, os[..n]);
      assert Handles(page[n], os[n]);
    }
  }

  /** The tallies of two stretches of outcomes add up, and the last id seen is the later one's, if any. */
  lemma {:induction false} TalliesAppend(a: seq<BookOutcome>, b: seq<BookOutcome>, before: Option<nat>)
    ensures CountSeen(a + b) == CountSeen(a) + CountSeen(b)
    ensures CountAdded(a + b) == CountAdded(a) + CountAdded(b)
    ensures SumAuthors(a + b) == SumAuthors(a) + SumAuthors(b)
    ensures CountErrors(a + b) == CountErrors(a) + CountErrors(b)
    ensures LastSeen(a + b, before) == LastSeen(b, LastSeen(a, before))
  {
    if b != [] {
      var n := |b| - 1;
      assert (a + b)[..|a + b| - 1] == a + b[..n];
      TalliesAppend(a, b[..n], before);
    } else {
      assert a + b == a;
    }
  }

  /** The outcome of the next entry extends the aligned outcomes. */
  lemma AlignedStep(page: seq<SourceItem>, os: seq<BookOutcome>, o: BookOutcome)
    requires Aligned(page, os) && |os| < |page| && Handles(page[|os|], o)
    ensures Aligned(page, os + [o])
  {
    forall j | 0 <= j < |os| + 1
      ensures Handles(page[j], (os + [o])[j])
    {
      if j < |os| {
        assert (os + [o])[j] == os[j];
      }
    }
  }

  /** One more outcome adds its own share to each tally. */
  lemma TallyStep(os: seq<BookOutcome>, o: BookOutcome, before: Option<nat>)
    ensures CountSeen(os + [o]) == CountSeen(os) + (if o.Seen().Some? then 1 else 0)
    ensures CountAdded(os + [o]) == CountAdded(os) + (if o.Added? then 1 else 0)
    ensures SumAuthors(os + [o]) == SumAuthors(os) + (if o.Added? then o.authors else 0)
    ensures CountErrors(os + [o]) == CountErrors(os) + (if o.IsError() then 1 else 0)
    ensures LastSeen(os + [o], before) == if o.Seen().Some? then o.Seen() else LastSeen(os, before)
  {
    assert (os + [o])[..|os|] == os;
  }

  /** The run's counters are the tallies of its outcomes. */
  predicate Tallied(os: seq<BookOutcome>, processed: nat, imported: nat, authors: nat, errors: nat)
  {
    processed == CountSeen(os) && imported == CountAdded(os) && authors == SumAuthors(os) && errors == CountErrors(os)
  }

  /** Counters kept over two stretches of outcomes add up. */
  lemma TalliedAppend(a: seq<BookOutcome>, b: seq<BookOutcome>, p: nat, i: nat, au: nat, e: nat, p': nat, i': nat, au': nat, e': nat)
    requires Tallied(a, p, i, au, e) && Tallied(b, p', i', au', e')
    ensures Tallied(a + b, p + p', i + i', au + au', e + e')
  {
    TalliesAppend(a, b, None);
  }

  /** The last id seen from `before` is the last one seen at all, or `before` when there is none. */
  lemma {:induction false} LastSeenFrom(os: seq<BookOutcome>, before: Option<nat>)
    ensures LastSeen(os, before) == if LastSeen(os, None).Some? then LastSeen(os, None) else before
  {
    if os != [] && os[|os| - 1].Seen().None? {
      LastSeenFrom(os[..|os| - 1], before);
    }
  }

  /**
   * The outcomes of the run's pages: each list is aligned with its page, and
   * every page but the last was handled to its end (only the signal cuts a page short).
   */
  predicate Handled(responses: seq<seq<SourceItem>>, hs: seq<seq<BookOutcome>>)
  {
    hs == [] ||
    (Handled(responses, hs[..|hs| - 1]) && Aligned(Page(responses, |hs| - 1), hs[|hs| - 1]) &&
     (|hs| > 1 ==> |hs[|hs| - 2]| == |Page(responses, |hs| - 2)|))
  }

  /** Each page's outcomes are those of its first entries, and all of them for every page but the last. */
  lemma {:induction false} HandledPages(responses: seq<seq<SourceItem>>, hs: seq<seq<BookOutcome>>, k: nat)
    requires Handled(responses, hs) && k < |hs|
    ensures Aligned(Page(responses, k), hs[k])
    ensures k < |hs| - 1 ==> |hs[k]| == |Page(responses, k)|
  {
    var init := hs[..|hs| - 1];
    if k < |hs| - 1 {
      assert init[k] == hs[k];
      if k < |init| - 1 {
        HandledPages(responses, init, k);
      }
    }
  }

  /** A further page's outcomes extend the handled pages when the page before was finished. */
  lemma HandledStep(responses: seq<seq<SourceItem>>, hs: seq<seq<BookOutcome>>, os: seq<BookOutcome>)
    requires Handled(responses, hs) && Aligned(Page(responses, |hs|), os)
    requires |hs| > 0 ==> |hs[|hs| - 1]| == |Page(responses, |hs| - 1)|
    ensures Handled(responses, hs + [os])
    ensures Concat(hs + [os]) == Concat(hs) + os
  {
    assert (hs + [os])[..|hs|] == hs;
  }

  /** The message import_edition returns for an edition that is not imported. */
  function FailureMessage(ed: Edition, books: seq<BookRow>, fault: Option<string>): string
  {
    match Screen(ed, books)
    case Some(rejection) => rejection.Message()
    case None => if fault.Some? then Crashed(ed.id, fault.value).Message() else ""
  }

  /** A failed import whose message mentions a duplicate is not written to the error log. */
  predicate Quiet(message: string)
  {
    Contains(message, "Duplicate") || Contains(message, "already exists")
  }

  /** Duplicate-ISBN rejections are never logged. */
  lemma DuplicatesAreQuiet(isbn: string)
    ensures Quiet(DuplicateIsbn10(isbn).Message()) && Quiet(DuplicateIsbn13(isbn).Message())
  {
    assert OccursAt(DuplicateIsbn10(isbn).Message(), "Duplicate", 0);
    assert OccursAt(DuplicateIsbn13(isbn).Message(), "Duplicate", 0);
  }

  /** A database error whose text says "already exists" is not logged either. */
  lemma ExistingRowIsQuiet(editionId: nat, detail: string)
    requires Contains(detail, "already exists")
    ensures Quiet(Crashed(editionId, detail).Message())
  {
    ContainsInSuffix("Error importing edition " + NatToString(editionId) + ": ", detail, "already exists");
  }

  /** The k-th page the API hands out; an exhausted oracle keeps answering with empty pages. */
  function Page(responses: seq<seq<SourceItem>>, k: nat): seq<SourceItem>
  {
    if k < |responses| then responses[k] else []
  }

  /** The offset after a request at `offset`: back to 0 after an empty page, one batch further otherwise. */
  function NextOffset(offset: int, page: seq<SourceItem>, booksPerBatch: int): int
  {
    if page == [] then 0 else offset + booksPerBatch
  }

  /** The number of entries on the first n pages. */
  function Fetched(responses: seq<seq<SourceItem>>, n: nat): nat
  {
    if n == 0 then 0 else Fetched(responses, n - 1) + |Page(responses, n - 1)|
  }

  /**
   * The ledger offset after the first n requests, the k-th made at offsets[k]:
   * the offset after the last non-empty page, or the row's own before any.
   */
  function PersistedOffset(responses: seq<seq<SourceItem>>, offsets: seq<int>, booksPerBatch: int, n: nat, initial: Option<int>): Option<int>
    requires n <= |offsets|
  {
    if n == 0 then initial
    else if Page(responses, n - 1) != [] then Some(offsets[n - 1] + booksPerBatch)
    else PersistedOffset(responses, offsets, booksPerBatch, n - 1, initial)
  }

  /** Later requests do not change the ledger offset after the first n. */
  lemma {:induction false} PersistedOffsetPrefix(responses: seq<seq<SourceItem>>, offsets: seq<int>, more: seq<int>,
                                                 booksPerBatch: int, n: nat, initial: Option<int>)
    requires n <= |offsets|
    ensures PersistedOffset(responses, offsets + more, booksPerBatch, n, initial) == PersistedOffset(responses, offsets, booksPerBatch, n, initial)
  {
    if n > 0 {
      PersistedOffsetPrefix(responses, offsets, more, booksPerBatch, n - 1, initial);
    }
  }

  /** The row start_scraper_run inserts for a fresh run, up to its start time. */
  function Fresh(): RunRow
  {
    RunRow(Running, 0, None, None, 0, 0, 0, 0, None, None)
  }

  /**
   * The ledger of a run after its first n requests, relative to the row it
   * started from: every entry of every fetched page counts as processed, the
   * other counters grow by the tallies of this run's outcomes, the last book
   * id is the last one an outcome saw, and the offset is the one after the
   * last non-empty page.
   */
  predicate Ledger(row: RunRow, base: RunRow, responses: seq<seq<SourceItem>>, offsets: seq<int>, booksPerBatch: int,
                   n: nat, outcomes: seq<BookOutcome>)
    requires n <= |offsets|
  {
    row.booksProcessed == base.booksProcessed + Fetched(responses, n) &&
    row.editionsImported == base.editionsImported + CountAdded(outcomes) &&
    row.authorsImported == base.authorsImported + SumAuthors(outcomes) &&
    row.errorsCount == base.errorsCount + CountErrors(outcomes) &&
    row.lastBookId == LastSeen(outcomes, base.lastBookId) &&
    row.lastOffset == PersistedOffset(responses, offsets, booksPerBatch, n, base.lastOffset)
  }

  /** The notes end_scraper_run records: the processed count on completion, the signal otherwise. */
  function EndNote(completed: bool, processed: nat): string
  {
    if completed then "Successfully imported " + NatToString(processed) + " books" else "Gracefully stopped by signal"
  }

  /** The row a run's ledger starts from: the resumed row, or a fresh one. */
  function StartRow(runs: seq<RunRow>): RunRow
  {
    match LatestResumable(runs)
    case Some(id) => runs[id - 1]
    case None => Fresh()
  }

  /** Ending a run touches neither its counters nor its offset. */
  lemma LedgerEnded(row: RunRow, row': RunRow, base: RunRow, responses: seq<seq<SourceItem>>, offsets: seq<int>,
                    booksPerBatch: int, n: nat, outcomes: seq<BookOutcome>)
    requires n <= |offsets|
    requires Ledger(row, base, responses, offsets, booksPerBatch, n, outcomes)
    requires row'.booksProcessed == row.booksProcessed && row'.editionsImported == row.editionsImported
    requires row'.authorsImported == row.authorsImported && row'.errorsCount == row.errorsCount
    requires row'.lastBookId == row.lastBookId && row'.lastOffset == row.lastOffset
    ensures Ledger(row', base, responses, offsets, booksPerBatch, n, outcomes)
  {
  }

  /**
   * One more request keeps the ledger: an empty page leaves the row, a full
   * one adds its length and the tallies of its outcomes `more`, with the last
   * id seen so far.
   */
  lemma LedgerStep(row: RunRow, row': RunRow, base: RunRow, responses: seq<seq<SourceItem>>, offsets: seq<int>, offset: int,
                   booksPerBatch: int, n: nat, outcomes: seq<BookOutcome>, more: seq<BookOutcome>,
                   p: nat, i: nat, au: nat, e: nat, last: Option<nat>)
    requires n == |offsets|
    requires Ledger(row, base, responses, offsets, booksPerBatch, n, outcomes)
    requires Tallied(more, p, i, au, e) && last == LastSeen(more, LastSeen(outcomes, None))
    requires row' == if Page(responses, n) == [] then row
                     else WithStats(row, |Page(responses, n)|, i, au, e, last, Some(offset + booksPerBatch))
    requires Page(responses, n) == [] ==> more == []
    ensures Ledger(row', base, responses, offsets + [offset], booksPerBatch, n + 1, outcomes + more)
  {
    PersistedOffsetPrefix(responses, offsets, [offset], booksPerBatch, n, base.lastOffset);
    TalliesAppend(outcomes, more, base.lastBookId);
    TalliesAppend(outcomes, more, None);
    LastSeenFrom(outcomes, base.lastBookId);
    LastSeenFrom(more, LastSeen(outcomes, base.lastBookId));
    LastSeenFrom(more, LastSeen(outcomes, None));
    assert outcomes + [] == outcomes;
  }

  /**
   * The requests of a run so far, the k-th at offsets[k] and time requests[k],
   * with totals[k] editions imported after it: the first request is at the
   * resume offset and at least `delay` after the limiter's last one, each
   * later offset follows from the page before, requests are `delay` apart,
   * and only the last page, when `done`, may bring the total to the target.
   */
  ghost predicate Trace(responses: seq<seq<SourceItem>>, offsets: seq<int>, requests: seq<int>, totals: seq<int>,
                        offset0: int, last0: int, booksPerBatch: int, delay: int, target: int, n: nat, done: bool)
  {
    |offsets| == |requests| == |totals| == n &&
    (n > 0 ==> offsets[0] == offset0 && requests[0] >= last0 + delay) &&
    (forall k :: 0 <= k < n - 1 ==> offsets[k + 1] == NextOffset(offsets[k], Page(responses, k), booksPerBatch)) &&
    (forall k :: 0 <= k < n - 1 ==> requests[k + 1] >= requests[k] + delay) &&
    (forall k :: 0 <= k < n && Page(responses, k) != [] && (k < n - 1 || !done) ==> totals[k] < target)
  }

  /** A request made at the offset and time the previous one leaves extends the trace. */
  lemma TraceStep(responses: seq<seq<SourceItem>>, offsets: seq<int>, requests: seq<int>, totals: seq<int>,
                  offset0: int, last0: int, booksPerBatch: int, delay: int, target: int,
                  offset: int, time: int, total: nat, done: bool)
    requires Trace(responses, offsets, requests, totals, offset0, last0, booksPerBatch, delay, target, |offsets|, false)
    requires |offsets| == 0 ==> offset == offset0 && time >= last0 + delay
    requires |offsets| > 0 ==> offset == NextOffset(offsets[|offsets| - 1], Page(responses, |offsets| - 1), booksPerBatch) &&
                               time >= requests[|offsets| - 1] + delay
    requires done <==> Page(responses, |offsets|) != [] && total >= target
    ensures Trace(responses, offsets + [offset], requests + [time], totals + [total], offset0, last0, booksPerBatch, delay, target,
                  |offsets| + 1, done)
  {
  }

  /** The settings a run's page loop works with, and where its first request starts. */
  datatype Settings = Settings(booksPerBatch: int, delay: int, target: int, offset0: int, last0: int)

  /** The outcomes of the pages so far, the counters as their tallies and the last id seen. */
  predicate OutcomesKept(responses: seq<seq<SourceItem>>, handled: seq<seq<BookOutcome>>,
                         processed: nat, imported: nat, authors: nat, errors: nat, lastBookId: Option<nat>)
  {
    Handled(responses, handled) &&
    Tallied(Concat(handled), processed, imported, authors, errors) && lastBookId == LastSeen(Concat(handled), None)
  }

  /** A further page's outcomes and counters extend those kept, when the page before was finished. */
  lemma OutcomesStep(responses: seq<seq<SourceItem>>, handled: seq<seq<BookOutcome>>,
                     processed: nat, imported: nat, authors: nat, errors: nat, lastBookId: Option<nat>,
                     batch: seq<BookOutcome>, p: nat, i: nat, au: nat, e: nat, lastBookId': Option<nat>)
    requires OutcomesKept(responses, handled, processed, imported, authors, errors, lastBookId)
    requires |handled| > 0 ==> |handled[|handled| - 1]| == |Page(responses, |handled| - 1)|
    requires Aligned(Page(responses, |handled|), batch) && Tallied(batch, p, i, au, e) && lastBookId' == LastSeen(batch, lastBookId)
    ensures OutcomesKept(responses, handled + [batch], processed + p, imported + i, authors + au, errors + e, lastBookId')
    ensures Concat(handled + [batch]) == Concat(handled) + batch
  {
    HandledStep(responses, handled, batch);
    TalliedAppend(Concat(handled), batch, processed, imported, authors, errors, p, i, au, e);
    TalliesAppend(Concat(handled), batch, None);
  }

  /**
   * The requests so far, with `lastRequest` the time of the latest and
   * `offset` the offset of the next: their trace, and the target reached
   * only by the last page, when `done`.
   */
  ghost predicate RequestsKept(responses: seq<seq<SourceItem>>, s: Settings, lastRequest: int,
                               offsets: seq<int>, requests: seq<int>, totals: seq<int>,
                               calls: nat, offset: int, done: bool, imported: nat)
  {
    |offsets| == |requests| == |totals| == calls &&
    (calls == 0 ==> offset == s.offset0 && lastRequest == s.last0) &&
    (calls > 0 ==> lastRequest == requests[calls - 1] && totals[calls - 1] == imported &&
                   offset == NextOffset(offsets[calls - 1], Page(responses, calls - 1), s.booksPerBatch)) &&
    Trace(responses, offsets, requests, totals, s.offset0, s.last0, s.booksPerBatch, s.delay, s.target, calls, done) &&
    (done ==> calls > 0 && imported >= s.target && Page(responses, calls - 1) != []) &&
    (!done && imported > 0 ==> imported < s.target)
  }

  /** A request at least `delay` after the latest, at the offset it left, extends the requests kept. */
  lemma RequestsStep(responses: seq<seq<SourceItem>>, s: Settings, lastRequest: int, lastRequest': int,
                     offsets: seq<int>, requests: seq<int>, totals: seq<int>,
                     calls: nat, offset: int, offset': int, done': bool, imported: nat, i: nat)
    requires RequestsKept(responses, s, lastRequest, offsets, requests, totals, calls, offset, false, imported)
    requires lastRequest' >= lastRequest + s.delay
    requires offset' == NextOffset(offset, Page(responses, calls), s.booksPerBatch)
    requires done' <==> Page(responses, calls) != [] && imported + i >= s.target
    requires Page(responses, calls) == [] ==> i == 0
    ensures RequestsKept(responses, s, lastRequest', offsets + [offset], requests + [lastRequest'], totals + [imported + i],
                         calls + 1, offset', done', imported + i)
  {
    TraceStep(responses, offsets, requests, totals, s.offset0, s.last0, s.booksPerBatch, s.delay, s.target,
              offset, lastRequest', imported + i, done');
  }

  /**
   * The page loop's account after `calls` requests: the outcomes of its
   * pages with their counters, the ledger `row`, the requests, and the
   * editions the store `gained`, which are the editions imported.
   */
  ghost predicate Account(responses: seq<seq<SourceItem>>, s: Settings, base: RunRow, row: RunRow, lastRequest: int, gained: int,
                          offsets: seq<int>, requests: seq<int>, totals: seq<int>, handled: seq<seq<BookOutcome>>,
                          calls: nat, offset: int, done: bool,
                          processed: nat, imported: nat, authors: nat, errors: nat, lastBookId: Option<nat>)
  {
    |handled| == calls && imported == gained &&
    OutcomesKept(responses, handled, processed, imported, authors, errors, lastBookId) &&
    RequestsKept(responses, s, lastRequest, offsets, requests, totals, calls, offset, done, imported) &&
    Ledger(row, base, responses, offsets, s.booksPerBatch, calls, Concat(handled))
  }

  /**
   * A request that continues the loop keeps the ledger: the row after it is
   * the row before with the page's tallies, or unchanged for an empty page.
   */
  lemma LedgerKeptStep(row: RunRow, row': RunRow, base: RunRow, responses: seq<seq<SourceItem>>, offsets: seq<int>,
                       offset: int, offset': int, booksPerBatch: int, handled: seq<seq<BookOutcome>>,
                       batch: seq<BookOutcome>, p: nat, i: nat, au: nat, e: nat,
                       lastBookId: Option<nat>, lastBookId': Option<nat>)
    requires |handled| == |offsets|
    requires Ledger(row, base, responses, offsets, booksPerBatch, |offsets|, Concat(handled))
    requires lastBookId == LastSeen(Concat(handled), None)
    requires offset' == NextOffset(offset, Page(responses, |offsets|), booksPerBatch)
    requires row' == if Page(responses, |offsets|) == [] then row
                     else WithStats(row, |Page(responses, |offsets|)|, i, au, e, lastBookId', Some(offset'))
    requires Page(responses, |offsets|) == [] ==> batch == []
    requires Tallied(batch, p, i, au, e) && lastBookId' == LastSeen(batch, lastBookId)
    ensures Ledger(row', base, responses, offsets + [offset], booksPerBatch, |offsets| + 1, Concat(handled + [batch]))
  {
    assert (handled + [batch])[..|handled|] == handled;
    LedgerStep(row, row', base, responses, offsets, offset, booksPerBatch, |offsets|, Concat(handled), batch, p, i, au, e, lastBookId');
  }

  /**
   * A request that continues the loop: its page's outcomes, counters, ledger
   * update and timing, as the request reports them, extend the account.
   */
  lemma AccountStep(responses: seq<seq<SourceItem>>, s: Settings, base: RunRow, row: RunRow, row': RunRow,
                    lastRequest: int, lastRequest': int, gained: int, gained': int,
                    offsets: seq<int>, requests: seq<int>, totals: seq<int>, handled: seq<seq<BookOutcome>>,
                    calls: nat, offset: int, offset': int, done': bool,
                    processed: nat, imported: nat, authors: nat, errors: nat, lastBookId: Option<nat>,
                    batch: seq<BookOutcome>, p: nat, i: nat, au: nat, e: nat, lastBookId': Option<nat>)
    requires Account(responses, s, base, row, lastRequest, gained, offsets, requests, totals, handled, calls, offset, false,
                     processed, imported, authors, errors, lastBookId)
    requires calls > 0 ==> |handled[calls - 1]| == |Page(responses, calls - 1)|
    requires lastRequest' >= lastRequest + s.delay && gained' == gained + i
    requires offset' == NextOffset(offset, Page(responses, calls), s.booksPerBatch)
    requires row' == if Page(responses, calls) == [] then row
                     else WithStats(row, |Page(responses, calls)|, i, au, e, lastBookId', Some(offset'))
    requires Page(responses, calls) == [] ==> batch == []
    requires Aligned(Page(responses, calls), batch) && Tallied(batch, p, i, au, e) && lastBookId' == LastSeen(batch, lastBookId)
    requires done' <==> Page(responses, calls) != [] && imported + i >= s.target
    ensures Account(responses, s, base, row', lastRequest', gained', offsets + [offset], requests + [lastRequest'],
                    totals + [imported + i], handled + [batch], calls + 1, offset', done',
                    processed + p, imported + i, authors + au, errors + e, lastBookId')
  {
    OutcomesStep(responses, handled, processed, imported, authors, errors, lastBookId, batch, p, i, au, e, lastBookId');
    RequestsStep(responses, s, lastRequest, lastRequest', offsets, requests, totals, calls, offset, offset', done', imported, i);
    LedgerKeptStep(row, row', base, responses, offsets, offset, offset', s.booksPerBatch, handled, batch, p, i, au, e,
                   lastBookId, lastBookId');
  }

  /** What the account says once the loop ends. */
  lemma AccountClosed(responses: seq<seq<SourceItem>>, s: Settings, base: RunRow, row: RunRow, lastRequest: int, gained: int,
                      offsets: seq<int>, requests: seq<int>, totals: seq<int>, handled: seq<seq<BookOutcome>>,
                      calls: nat, offset: int, done: bool,
                      processed: nat, imported: nat, authors: nat, errors: nat, lastBookId: Option<nat>)
    requires Account(responses, s, base, row, lastRequest, gained, offsets, requests, totals, handled, calls, offset, done,
                     processed, imported, authors, errors, lastBookId)
    ensures |offsets| == |requests| == |totals| == |handled| == calls && Handled(responses, handled)
    ensures Tallied(Concat(handled), processed, imported, authors, errors)
    ensures Ledger(row, base, responses, offsets, s.booksPerBatch, |offsets|, Concat(handled))
    ensures Trace(responses, offsets, requests, totals, s.offset0, s.last0, s.booksPerBatch, s.delay, s.target, |offsets|, done)
    ensures imported == gained
    ensures done ==> |offsets| > 0 && imported >= s.target && totals[|offsets| - 1] == imported && Page(responses, |offsets| - 1) != []
    ensures !done && imported > 0 ==> imported < s.target
  {
  }

  /** The Hardcover scraper, with the store, the limiter and its settings. */
  class HardcoverScraper {
    const db: Database
    const limiter: RateLimiter
    const booksPerBatch: int
    const targetBooksLimit: int
    var running: bool
    var now: int

    constructor(db0: Database, limiter0: RateLimiter, booksPerBatch0: int, targetBooksLimit0: int, now0: int)
      ensures db == db0 && limiter == limiter0 && booksPerBatch == booksPerBatch0 && targetBooksLimit == targetBooksLimit0
      ensures running && now == now0
    {
      db := db0;
      limiter := limiter0;
      booksPerBatch := booksPerBatch0;
      targetBooksLimit := targetBooksLimit0;
      running := true;
      now := now0;
    }

    /**
     * The genre selection of run: first the tags over the threshold; when
     * there are none, every tag naming a genre the store already has.
     */
    method SelectGenres(genreTags: Option<seq<Tag>>) returns (names: seq<string>)
      ensures names == GenreCandidates(genreTags, db.genres)
    {
      names := [];
      if genreTags.None? {
        return;
      }
      var tags := genreTags.value;
      var i := 0;
      while i < |tags|
        invariant 0 <= i <= |tags|
        invariant names == PopularIn(tags, i)
      {
        var name := tags[i].tag;
        if Truthy(name) && tags[i].count >= 10 {
          names := names + [name.value];
        }
        i := i + 1;
      }
      if names == [] {
        i := 0;
        while i < |tags|
          invariant 0 <= i <= |tags|
          invariant names == KnownIn(tags, i, db.genres)
        {
          var name := tags[i].tag;
          if Truthy(name) && db.GenreExists(name.value) {
            names := names + [name.value];
          }
          i := i + 1;
        }
      }
    }

    /** The body of run's per-book loop. */
    method ProcessBook(item: SourceItem) returns (outcome: BookOutcome)
      modifies db
      ensures db.runs == old(db.runs) && db.currentRunId == old(db.currentRunId)
      ensures Handles(item, outcome)
      ensures item.Malformed? ==>
                outcome == ProcessingError(item.id) && db.Tables() == old(db.Tables()) &&
                db.errors == old(db.errors) + [ErrorRow(old(db.currentRunId), "processing_error", item.id, "book", item.detail)]
      ensures item.Item? && item.book.edition.None? ==>
                outcome == NoEdition(item.book.id) && db.Tables() == old(db.Tables()) && db.errors == old(db.errors)
      ensures item.Item? && item.book.edition.Some? && Imported(old(db.books), item.book.edition.value.id) ==>
                outcome == AlreadyImported(item.book.id) && db.Tables() == old(db.Tables()) && db.errors == old(db.errors)
      ensures item.Item? && item.book.edition.Some? && !Imported(old(db.books), item.book.edition.value.id) ==>
                var ed := item.book.edition.value;
                var accepted := Screen(ed, old(db.books)).None? && item.importFault.None?;
                (outcome.Added? <==> accepted) &&
                (accepted ==>
                   outcome.bookId == item.book.id && db.errors == old(db.errors) &&
                   db.books == old(db.books) + [NewBook(ed, item.book.description)] &&
                   var al := LinkAuthors(AuthorLinks(old(db.authors), old(db.bookAuthors), 0), |db.books|, ed.contributions, |ed.contributions|);
                   var gl := LinkGenres(GenreLinks(old(db.genres), old(db.bookGenres)), |db.books|,
                                        GenreCandidates(item.book.genreTags, old(db.genres)), |GenreCandidates(item.book.genreTags, old(db.genres))|);
                   outcome.authors == al.linked && db.authors == al.authors && db.bookAuthors == al.links &&
                   db.genres == gl.genres && db.bookGenres == gl.links) &&
                (!accepted ==>
                   var message := FailureMessage(ed, old(db.books), item.importFault);
                   outcome == ImportFailed(item.book.id) && db.Tables() == old(db.Tables()) &&
                   db.errors == old(db.errors) +
                                (if Quiet(message) then [] else [ErrorRow(old(db.currentRunId), "import_error", Some(ed.id), "edition", message)]))
    {
      match item
      case Malformed(id, detail) =>
        db.LogError("processing_error", id, "book", detail);
        outcome := ProcessingError(id);
      case Item(book, fault) =>
        if book.edition.None? {
          outcome := NoEdition(book.id);
          return;
        }
        var ed := book.edition.value;
        if db.BookExists(ed.id) {
          outcome := AlreadyImported(book.id);
          return;
        }
        var genres := SelectGenres(book.genreTags);
        var ok, message, authors := db.ImportEdition(ed, book.description, genres, fault);
        if ok {
          outcome := Added(book.id, authors);
        } else {
          if !(Contains(message, "Duplicate") || Contains(message, "already exists")) {
            db.LogError("import_error", Some(ed.id), "edition", message);
          }
          outcome := ImportFailed(book.id);
        }
    }

    /** A check of `self.running`; the signal handler clears it at check number `signalAt`. */
    method CheckRunning(signalAt: nat, checks: nat) returns (stillRunning: bool, checks': nat)
      modifies this
      ensures running == (old(running) && checks < signalAt) && stillRunning == running
      ensures checks' == checks + 1 && now == old(now)
    {
      if checks >= signalAt {
        running := false;
      }
      checks' := checks + 1;
      stillRunning := running;
    }

    /**
     * The per-book loop of run over one page, with the batch counters it
     * keeps; `outcomes` are the handler's outcomes of the entries it reached
     * before the signal, if any, stopped it.
     */
    method ProcessPage(page: seq<SourceItem>, signalAt: nat, checks: nat, lastBookId: Option<nat>)
      returns (checks': nat, processed: nat, added: nat, authors: nat, errors: nat, lastBookId': Option<nat>,
               ghost outcomes: seq<BookOutcome>)
      requires running ==> checks <= signalAt
      modifies this, db
      ensures db.runs == old(db.runs) && db.currentRunId == old(db.currentRunId) && now == old(now)
      ensures Aligned(page, outcomes) && (|outcomes| < |page| ==> !running)
      ensures Tallied(outcomes, processed, added, authors, errors)
      ensures lastBookId' == LastSeen(outcomes, lastBookId)
      ensures |db.books| == |old(db.books)| + added
      ensures checks' >= checks && (page != [] ==> checks' > checks)
      ensures running ==> old(running) && checks' <= signalAt
    {
      checks', processed, added, authors, errors, lastBookId' := checks, 0, 0, 0, 0, lastBookId;
      outcomes := [];
      var i := 0;
      while i < |page|
        invariant 0 <= i <= |page| && |outcomes| == i
        invariant db.runs == old(db.runs) && db.currentRunId == old(db.currentRunId) && now == old(now)
        invariant Aligned(page, outcomes)
        invariant processed == CountSeen(outcomes) && added == CountAdded(outcomes)
        invariant authors == SumAuthors(outcomes) && errors == CountErrors(outcomes)
        invariant lastBookId' == LastSeen(outcomes, lastBookId)
        invariant |db.books| == |old(db.books)| + added
        invariant checks' == checks + i
        invariant running ==> old(running) && checks' <= signalAt
      {
        var go;
        go, checks' := CheckRunning(signalAt, checks');
        if !go {
          break;
        }
        var outcome := ProcessBook(page[i]);
        if outcome.Seen().Some? {
          lastBookId' := outcome.Seen();
          processed := processed + 1;
        }
        if outcome.Added? {
          added := added + 1;
          authors := authors + outcome.authors;
        }
        if outcome.IsError() {
          errors := errors + 1;
        }
        AlignedStep(page, outcomes, outcome);
        TallyStep(outcomes, outcome, lastBookId);
        outcomes := outcomes + [outcome];
        i := i + 1;
      }
    }

    /** The start of run: the run to resume, if any, and the offset it resumes from. */
    method Begin() returns (id: nat, offset: int)
      modifies db
      ensures offset == ResumeOffset(old(db.runs))
      ensures LatestResumable(old(db.runs)).Some? ==>
                id == LatestResumable(old(db.runs)).value && |db.runs| == |old(db.runs)| &&
                db.runs == old(db.runs)[id - 1 := old(db.runs)[id - 1].(status := Running, startedAt := now)]
      ensures LatestResumable(old(db.runs)).None? ==>
                id == |old(db.runs)| + 1 && db.runs == old(db.runs) + [RunRow(Running, now, None, None, 0, 0, 0, 0, None, None)]
      ensures db.currentRunId == Some(id) && db.CurrentRunIn()
      ensures db.books == old(db.books)
    {
      var resume := db.LastIncompleteRun();
      offset := 0;
      if resume.Some? {
        offset := db.runs[resume.value - 1].lastOffset.GetOr(0);
      }
      id := db.StartRun(resume, now);
    }

    /**
     * One pass of run's loop after the flag check: the rate-limited request for
     * the page at `offset`, then either the restart after an empty page or the
     * page's books and its ledger update. `done` says the target is reached.
     */
    method Step(responses: seq<seq<SourceItem>>, calls: nat, offset: int, signalAt: nat, checks: nat,
                lastBookId: Option<nat>, imported: nat)
      returns (offset': int, checks': nat, processed: nat, added: nat, authors: nat, errors: nat, lastBookId': Option<nat>, done: bool,
               ghost outcomes: seq<BookOutcome>)
      requires db.CurrentRunIn()
      requires running ==> checks <= signalAt
      modifies this, db, limiter
      ensures limiter.lastRequestTime >= old(limiter.lastRequestTime) + limiter.delay
      ensures offset' == NextOffset(offset, Page(responses, calls), booksPerBatch)
      ensures db.currentRunId == old(db.currentRunId) && |db.runs| == |old(db.runs)|
      ensures var id := old(db.currentRunId).value;
              var row := old(db.runs)[id - 1];
              db.runs == old(db.runs)[id - 1 := if Page(responses, calls) == [] then row
                                               else WithStats(row, |Page(responses, calls)|, added, authors, errors, lastBookId', Some(offset'))]
      ensures |db.books| == |old(db.books)| + added
      ensures Page(responses, calls) == [] ==> outcomes == [] && lastBookId' == lastBookId
      ensures Aligned(Page(responses, calls), outcomes) && (|outcomes| < |Page(responses, calls)| ==> !running)
      ensures Tallied(outcomes, processed, added, authors, errors)
      ensures lastBookId' == LastSeen(outcomes, lastBookId)
      ensures checks' >= checks && (running ==> checks' <= signalAt)
      ensures done <==> Page(responses, calls) != [] && imported + added >= targetBooksLimit
    {
      now := limiter.Wait(now);
      var page := Page(responses, calls);
      if page == [] {
        offset', checks', processed, added, authors, errors, lastBookId', done := 0, checks, 0, 0, 0, 0, lastBookId, false;
        outcomes := [];
        now := now + 60000;
        return;
      }
      checks', processed, added, authors, errors, lastBookId', outcomes := ProcessPage(page, signalAt, checks, lastBookId);
      offset' := offset + booksPerBatch;
      db.UpdateRunStats(|page|, added, authors, errors, lastBookId', Some(offset'));
      done := imported + added >= targetBooksLimit;
      if !done {
        now := now + 2000;
      }
    }

    /**
     * run: resume the newest running or stopped run, or start one, then
     * fetch and import pages until the signal or the target ends the run.
     * `offsets[k]` and `requests[k]` are the offset and the time of the k-th
     * request, `totals[k]` the editions imported by this run after it.
     */
    method Run(responses: seq<seq<SourceItem>>, signalAt: nat)
      returns (status: RunStatus, processed: nat, imported: nat, authors: nat, errors: nat,
               ghost offsets: seq<int>, ghost requests: seq<int>, ghost totals: seq<int>, ghost handled: seq<seq<BookOutcome>>)
      modifies this, db, limiter
      ensures status == Completed || status == Stopped
      ensures |handled| == |offsets| && Handled(responses, handled)
      ensures Tallied(Concat(handled), processed, imported, authors, errors)
      ensures |offsets| == |requests| == |totals|
      ensures |offsets| > 0 ==> offsets[0] == ResumeOffset(old(db.runs))
      ensures forall k :: 0 <= k < |offsets| - 1 ==> offsets[k + 1] == NextOffset(offsets[k], Page(responses, k), booksPerBatch)
      ensures |requests| > 0 ==> requests[0] >= old(limiter.lastRequestTime) + limiter.delay
      ensures forall k :: 0 <= k < |requests| - 1 ==> requests[k + 1] >= requests[k] + limiter.delay
      ensures forall k :: 0 <= k < |totals| - 1 && Page(responses, k) != [] ==> totals[k] < targetBooksLimit
      ensures status == Completed ==>
                imported >= targetBooksLimit && |totals| > 0 && totals[|totals| - 1] == imported && Page(responses, |totals| - 1) != []
      ensures status == Stopped && imported > 0 ==> imported < targetBooksLimit
      ensures imported == |db.books| - |old(db.books)|
      ensures LatestResumable(old(db.runs)).Some? ==> db.currentRunId == LatestResumable(old(db.runs)) && |db.runs| == |old(db.runs)|
      ensures LatestResumable(old(db.runs)).None? ==> db.currentRunId == Some(|old(db.runs)| + 1) && |db.runs| == |old(db.runs)| + 1
      ensures db.CurrentRunIn()
      ensures Ledger(db.runs[db.currentRunId.value - 1], StartRow(old(db.runs)), responses, offsets, booksPerBatch, |offsets|, Concat(handled))
      ensures db.runs[db.currentRunId.value - 1].status == status
      ensures db.runs[db.currentRunId.value - 1].notes == Some(EndNote(status == Completed, processed))
    {
      ghost var runs0 := db.runs;
      var id, offset := Begin();
      var done;
      done, processed, imported, authors, errors, offsets, requests, totals, handled := Pages(responses, signalAt, id, offset, StartRow(runs0));
      status := Finish(done, processed, responses, offsets, Concat(handled), StartRow(runs0));
    }

    /**
     * The page loop of run, from the request at `offset0` until the signal or
     * the target, with the ledger of run `id` kept relative to `base`.
     */
    method Pages(responses: seq<seq<SourceItem>>, signalAt: nat, id: nat, offset0: int, ghost base: RunRow)
      returns (done: bool, processed: nat, imported: nat, authors: nat, errors: nat,
               ghost offsets: seq<int>, ghost requests: seq<int>, ghost totals: seq<int>, ghost handled: seq<seq<BookOutcome>>)
      requires db.currentRunId == Some(id) && db.CurrentRunIn()
      requires Ledger(db.runs[id - 1], base, responses, [], booksPerBatch, 0, [])
      modifies this, db, limiter
      ensures db.currentRunId == Some(id) && |db.runs| == |old(db.runs)|
      ensures |offsets| == |requests| == |totals| == |handled| && Handled(responses, handled)
      ensures Tallied(Concat(handled), processed, imported, authors, errors)
      ensures Ledger(db.runs[id - 1], base, responses, offsets, booksPerBatch, |offsets|, Concat(handled))
      ensures Trace(responses, offsets, requests, totals, offset0, old(limiter.lastRequestTime), booksPerBatch,
                    limiter.delay, targetBooksLimit, |offsets|, done)
      ensures imported == |db.books| - |old(db.books)|
      ensures done ==> |offsets| > 0 && imported >= targetBooksLimit && totals[|offsets| - 1] == imported && Page(responses, |offsets| - 1) != []
      ensures !done && imported > 0 ==> imported < targetBooksLimit
    {
      ghost var books0, last0 := |db.books|, limiter.lastRequestTime;
      ghost var settings := Settings(booksPerBatch, limiter.delay, targetBooksLimit, offset0, last0);
      var offset := offset0;
      var lastBookId: Option<nat> := None;
      processed, imported, authors, errors := 0, 0, 0, 0;
      offsets, requests, totals, handled := [], [], [], [];
      var calls: nat := 0;
      var checks: nat := 0;
      done := false;
      while !done
        invariant db.currentRunId == Some(id) && db.CurrentRunIn() && |db.runs| == |old(db.runs)|
        invariant Account(responses, settings, base, db.runs[id - 1], limiter.lastRequestTime, |db.books| - books0,
                          offsets, requests, totals, handled, calls, offset, done, processed, imported, authors, errors, lastBookId)
        invariant calls > 0 && |handled[calls - 1]| < |Page(responses, calls - 1)| ==> !running
        invariant running ==> checks <= signalAt
        decreases if done then 0 else 1, if running then signalAt + 1 - checks else 0
      {
        var go;
        go, checks := CheckRunning(signalAt, checks);
        if !go {
          break;
        }
        offset, checks, processed, imported, authors, errors, lastBookId, done, offsets, requests, totals, handled, calls :=
          Request(responses, signalAt, id, base, settings, books0, offsets, requests, totals, handled, calls, offset, checks,
                  processed, imported, authors, errors, lastBookId);
      }
      AccountClosed(responses, settings, base, db.runs[id - 1], limiter.lastRequestTime, |db.books| - books0,
                    offsets, requests, totals, handled, calls, offset, done, processed, imported, authors, errors, lastBookId);
    }

    /** One pass of the page loop once the flag check let it continue: a request, with the loop's account kept. */
    method Request(responses: seq<seq<SourceItem>>, signalAt: nat, id: nat, ghost base: RunRow, ghost settings: Settings,
                   ghost books0: nat, ghost offsets: seq<int>, ghost requests: seq<int>, ghost totals: seq<int>,
                   ghost handled: seq<seq<BookOutcome>>, calls: nat, offset: int, checks: nat,
                   processed: nat, imported: nat, authors: nat, errors: nat, lastBookId: Option<nat>)
      returns (offset': int, checks': nat, processed': nat, imported': nat, authors': nat, errors': nat, lastBookId': Option<nat>,
               done: bool, ghost offsets': seq<int>, ghost requests': seq<int>, ghost totals': seq<int>,
               ghost handled': seq<seq<BookOutcome>>, calls': nat)
      requires db.currentRunId == Some(id) && db.CurrentRunIn()
      requires settings.booksPerBatch == booksPerBatch && settings.delay == limiter.delay && settings.target == targetBooksLimit
      requires Account(responses, settings, base, db.runs[id - 1], limiter.lastRequestTime, |db.books| - books0,
                       offsets, requests, totals, handled, calls, offset, false, processed, imported, authors, errors, lastBookId)
      requires running && checks <= signalAt
      requires calls > 0 ==> |handled[calls - 1]| == |Page(responses, calls - 1)|
      modifies this, db, limiter
      ensures db.currentRunId == Some(id) && db.CurrentRunIn() && |db.runs| == |old(db.runs)|
      ensures Account(responses, settings, base, db.runs[id - 1], limiter.lastRequestTime, |db.books| - books0,
                      offsets', requests', totals', handled', calls', offset', done, processed', imported', authors', errors', lastBookId')
      ensures calls' == calls + 1 && |handled'| == calls' && (|handled'[calls' - 1]| < |Page(responses, calls' - 1)| ==> !running)
      ensures checks' >= checks && (running ==> checks' <= signalAt)
    {
      ghost var row, time, gained := db.runs[id - 1], limiter.lastRequestTime, |db.books| - books0;
      var batchProcessed, batchImported, batchAuthors, batchErrors;
      ghost var batch;
      offset', checks', batchProcessed, batchImported, batchAuthors, batchErrors, lastBookId', done, batch :=
        Step(responses, calls, offset, signalAt, checks, lastBookId, imported);
      processed', imported', authors', errors' := processed + batchProcessed, imported + batchImported,
                                                  authors + batchAuthors, errors + batchErrors;
      offsets', requests', totals', handled' := offsets + [offset], requests + [limiter.lastRequestTime], totals + [imported'], handled + [batch];
      calls' := calls + 1;
      ghost var row', time', gained' := db.runs[id - 1], limiter.lastRequestTime, |db.books| - books0;
      AccountStep(responses, settings, base, row, row', time, time', gained, gained',
                  offsets, requests, totals, handled, calls, offset, offset', done, processed, imported, authors, errors, lastBookId,
                  batch, batchProcessed, batchImported, batchAuthors, batchErrors, lastBookId');
    }

    /**
     * The end of run: completed with the processed count once the target is
     * reached, stopped otherwise. The run's ledger, given by the ghost
     * parameters, is left as it was.
     */
    method Finish(done: bool, processed: nat, ghost responses: seq<seq<SourceItem>>, ghost offsets: seq<int>,
                  ghost outcomes: seq<BookOutcome>, ghost base: RunRow)
      returns (status: RunStatus)
      requires db.CurrentRunIn()
      requires Ledger(db.runs[db.currentRunId.value - 1], base, responses, offsets, booksPerBatch, |offsets|, outcomes)
      modifies db
      ensures status == (if done then Completed else Stopped)
      ensures db.currentRunId == old(db.currentRunId) && |db.runs| == |old(db.runs)| && db.books == old(db.books)
      ensures var id := db.currentRunId.value;
              var row, row' := old(db.runs[id - 1]), db.runs[id - 1];
              row'.status == status && row'.notes == Some(EndNote(done, processed)) &&
              row'.booksProcessed == row.booksProcessed && row'.editionsImported == row.editionsImported &&
              row'.authorsImported == row.authorsImported && row'.errorsCount == row.errorsCount &&
              row'.lastBookId == row.lastBookId && row'.lastOffset == row.lastOffset
      ensures Ledger(db.runs[db.currentRunId.value - 1], base, responses, offsets, booksPerBatch, |offsets|, outcomes)
    {
      status := if done then Completed else Stopped;
      ghost var row := db.runs[db.currentRunId.value - 1];
      db.EndRun(status, Some(EndNote(done, processed)), now);
      LedgerEnded(row, db.runs[db.currentRunId.value - 1], base, responses, offsets, booksPerBatch, |offsets|, outcomes);
    }
  }
}
