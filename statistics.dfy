// StatisticsService: the reading-method breakdown, the per-genre and
// per-author tallies of a shelf, and the completion counts. Percentages,
// ratings, averages and the time series are floating point and are not part
// of this model.
module Statistics {
  import opened Wrappers
  import opened Enums

  // ------------------------------------------------------------ reading methods

  /** One row of getReadingMethodBreakdown (grouped by method). */
  datatype MethodRow = MethodRow(readingMethod: ReadingMethod, books: nat, pages: nat, minutes: nat, sessions: nat)

  datatype Breakdown = Breakdown(books: nat, pages: nat, minutes: nat, sessions: nat)

  datatype MethodStatistics = MethodStatistics(
    physical: Breakdown, ebook: Breakdown, audiobook: Breakdown,
    preferred: Option<ReadingMethod>,
    // Not a field of ReadingMethodStatisticsDTO: the local total that the
    // percentages (left out) are divided by.
    totalSessions: nat)

  const NoData := Breakdown(0, 0, 0, 0)

  /** The breakdown reported for `m` over the first n rows: the last of them for it, or all zeros when none names it. */
  function BreakdownFor(rows: seq<MethodRow>, n: nat, m: ReadingMethod): (b: Breakdown)
    requires n <= |rows|
    ensures (forall i :: 0 <= i < n ==> rows[i].readingMethod != m) ==> b == NoData
    ensures b != NoData ==>
              exists i :: 0 <= i < n && rows[i].readingMethod == m &&
                          b == Breakdown(rows[i].books, rows[i].pages, rows[i].minutes, rows[i].sessions)
  {
    if n == 0 then NoData
    else
      var last := rows[n - 1];
      if last.readingMethod == m then Breakdown(last.books, last.pages, last.minutes, last.sessions)
      else BreakdownFor(rows, n - 1, m)
  }

  /** The sessions of the first n rows added up. */
  function SessionTotal(rows: seq<MethodRow>, n: nat): nat
    requires n <= |rows|
  {
    if n == 0 then 0 else SessionTotal(rows, n - 1) + rows[n - 1].sessions
  }

  /** Among the first n rows, row i has the most sessions, and strictly more than every earlier row. */
  predicate IsFirstMaximumBelow(rows: seq<MethodRow>, n: nat, i: nat)
  {
    i < n <= |rows| &&
    (forall j :: 0 <= j < n ==> rows[j].sessions <= rows[i].sessions) &&
    (forall j :: 0 <= j < i ==> rows[j].sessions < rows[i].sessions)
  }

  predicate IsFirstMaximum(rows: seq<MethodRow>, i: nat)
  {
    IsFirstMaximumBelow(rows, |rows|, i)
  }

  /** getReadingMethodStatistics without the percentages. */
  method GetReadingMethodStatistics(rows: seq<MethodRow>) returns (s: MethodStatistics)
    ensures s.physical == BreakdownFor(rows, |rows|, Physical)
    ensures s.ebook == BreakdownFor(rows, |rows|, Ebook)
    ensures s.audiobook == BreakdownFor(rows, |rows|, Audiobook)
    ensures s.totalSessions == SessionTotal(rows, |rows|)
    ensures s.preferred == None <==> forall j :: 0 <= j < |rows| ==> rows[j].sessions == 0
    ensures s.preferred.Some? ==>
              exists i: nat :: IsFirstMaximum(rows, i) && rows[i].sessions > 0 && rows[i].readingMethod == s.preferred.value
  {
    var physical, ebook, audiobook := NoData, NoData, NoData;
    var total: nat := 0;
    var preferred: Option<ReadingMethod> := None;
    var maxSessions: nat := 0;
    ghost var best: nat := 0;
    var k := 0;
    while k < |rows|
      invariant 0 <= k <= |rows|
      invariant physical == BreakdownFor(rows, k, Physical)
      invariant ebook == BreakdownFor(rows, k, Ebook)
      invariant audiobook == BreakdownFor(rows, k, Audiobook)
      invariant total == SessionTotal(rows, k)
      invariant forall j :: 0 <= j < k ==> rows[j].sessions <= maxSessions
      invariant preferred == None <==> maxSessions == 0
      invariant preferred.Some? ==>
                  IsFirstMaximumBelow(rows, k, best) && rows[best].sessions == maxSessions &&
                  rows[best].readingMethod == preferred.value
    {
      var row := rows[k];
      total := total + row.sessions;
      var better := row.sessions > maxSessions;
      preferred := if better then Some(row.readingMethod) else preferred;
      best := if better then k else best;
      maxSessions := if better then row.sessions else maxSessions;
      var b := Breakdown(row.books, row.pages, row.minutes, row.sessions);
      physical := if row.readingMethod == Physical then b else physical;
      ebook := if row.readingMethod == Ebook then b else ebook;
      audiobook := if row.readingMethod == Audiobook then b else audiobook;
      k := k + 1;
    }
    s := MethodStatistics(physical, ebook, audiobook, preferred, total);
  }

  // ------------------------------------------------------------ genre and author tallies

  /** A genre or an author as the content service reports it. */
  datatype Ref = Ref(id: nat, name: string)

  /** The part of a book's details the tallies read; a missing list is a Java null. */
  datatype BookDetail = BookDetail(genres: Option<seq<Ref>>, authors: Option<seq<Ref>>)

  /** The part of a shelf entry (UserBook) the statistics read. */
  datatype ShelfEntry = ShelfEntry(bookId: nat, status: ReadingStatus)

  /** Which list of a book is tallied: getGenreStatistics or getAuthorStatistics. */
  datatype Facet = ByGenre | ByAuthor

  datatype Counts = Counts(read: nat, current: nat, want: nat, total: nat)

  datatype Tally = Tally(id: nat, name: string, counts: Counts)

  const Zero := Counts(0, 0, 0, 0)

  /** The genres or authors of the book of an entry; none when the book or the list is missing. */
  function Refs(e: ShelfEntry, details: map<nat, BookDetail>, facet: Facet): seq<Ref>
  {
    if e.bookId !in details then []
    else
      match facet
      case ByGenre => details[e.bookId].genres.GetOr([])
      case ByAuthor => details[e.bookId].authors.GetOr([])
  }

  /** Occurrences of an id among the first n refs. */
  function CountRefIn(refs: seq<Ref>, n: nat, id: nat): nat
    requires n <= |refs|
  {
    if n == 0 then 0 else CountRefIn(refs, n - 1, id) + (if refs[n - 1].id == id then 1 else 0)
  }

  function CountRef(refs: seq<Ref>, id: nat): nat
  {
    CountRefIn(refs, |refs|, id)
  }

  /** k more occurrences of a book with this status: DID_NOT_FINISH only counts towards the total. */
  function Add(c: Counts, status: ReadingStatus, k: nat): Counts
  {
    Counts(
      c.read + (if status.Read? then k else 0),
      c.current + (if status.CurrentlyReading? then k else 0),
      c.want + (if status.WantToRead? then k else 0),
      c.total + k)
  }

  /** The reference counts of one genre or author over the first n shelf entries. */
  function CountsIn(entries: seq<ShelfEntry>, n: nat, details: map<nat, BookDetail>, facet: Facet, id: nat): Counts
    requires n <= |entries|
  {
    if n == 0 then Zero
    else
      var e := entries[n - 1];
      Add(CountsIn(entries, n - 1, details, facet, id), e.status, CountRef(Refs(e, details, facet), id))
  }

  function CountsOf(entries: seq<ShelfEntry>, details: map<nat, BookDetail>, facet: Facet, id: nat): Counts
  {
    CountsIn(entries, |entries|, details, facet, id)
  }

  /** Occurrences of a genre or author among the first n entries that have a status. */
  function OccurrencesWith(entries: seq<ShelfEntry>, n: nat, details: map<nat, BookDetail>, facet: Facet, id: nat, status: ReadingStatus): nat
    requires n <= |entries|
  {
    if n == 0 then 0
    else
      var e := entries[n - 1];
      OccurrencesWith(entries, n - 1, details, facet, id, status) +
        (if e.status == status then CountRef(Refs(e, details, facet), id) else 0)
  }

  lemma {:induction false} CountsSplitIn(entries: seq<ShelfEntry>, n: nat, details: map<nat, BookDetail>, facet: Facet, id: nat)
    requires n <= |entries|
    ensures var c := CountsIn(entries, n, details, facet, id);
      c.read == OccurrencesWith(entries, n, details, facet, id, Read) &&
      c.current == OccurrencesWith(entries, n, details, facet, id, CurrentlyReading) &&
      c.want == OccurrencesWith(entries, n, details, facet, id, WantToRead) &&
      c.total == c.read + c.current + c.want + OccurrencesWith(entries, n, details, facet, id, DidNotFinish)
  {
    if n > 0 {
      CountsSplitIn(entries, n - 1, details, facet, id);
      var e := entries[n - 1];
      var k := CountRef(Refs(e, details, facet), id);
      assert CountsIn(entries, n, details, facet, id) == Add(CountsIn(entries, n - 1, details, facet, id), e.status, k);
      forall status: ReadingStatus
        ensures OccurrencesWith(entries, n, details, facet, id, status) ==
                OccurrencesWith(entries, n - 1, details, facet, id, status) + (if e.status == status then k else 0)
      {
      }
      match e.status
      case Read =>
      case CurrentlyReading =>
      case WantToRead =>
      case DidNotFinish =>
    }
  }

  /** The three status columns count the books with that status; what the total has beyond them is the DID_NOT_FINISH books. */
  lemma CountsSplitByStatus(entries: seq<ShelfEntry>, details: map<nat, BookDetail>, facet: Facet, id: nat)
    ensures var c := CountsOf(entries, details, facet, id);
      c.read == OccurrencesWith(entries, |entries|, details, facet, id, Read) &&
      c.current == OccurrencesWith(entries, |entries|, details, facet, id, CurrentlyReading) &&
      c.want == OccurrencesWith(entries, |entries|, details, facet, id, WantToRead) &&
      c.total == c.read + c.current + c.want + OccurrencesWith(entries, |entries|, details, facet, id, DidNotFinish)
  {
    CountsSplitIn(entries, |entries|, details, facet, id);
  }

  predicate Distinct(ids: seq<nat>)
  {
    forall i, j :: 0 <= i < j < |ids| ==> ids[i] != ids[j]
  }

  /** The aggregation map (HashMap) together with the order its ids were first met. */
  datatype Agg = Agg(stats: map<nat, Tally>, order: seq<nat>)

  /** The map is keyed by id and each id is enumerated once by `order`. */
  ghost predicate Indexed(a: Agg)
  {
    Distinct(a.order) && (forall id :: id in a.stats <==> id in a.order) &&
    (forall id :: id in a.stats ==> a.stats[id].id == id)
  }

  /** The counts of an id, zero when it has no entry. */
  function Lookup(a: Agg, id: nat): Counts
  {
    if id in a.stats then a.stats[id].counts else Zero
  }

  /** One more occurrence of r: computeIfAbsent, then the counters. */
  function Bump(a: Agg, r: Ref, status: ReadingStatus): Agg
  {
    if r.id in a.stats then
      Agg(a.stats[r.id := Tally(r.id, a.stats[r.id].name, Add(a.stats[r.id].counts, status, 1))], a.order)
    else
      Agg(a.stats[r.id := Tally(r.id, r.name, Add(Zero, status, 1))], a.order + [r.id])
  }

  /** The first n refs of one book counted in. */
  function BumpAll(a: Agg, refs: seq<Ref>, n: nat, status: ReadingStatus): Agg
    requires n <= |refs|
  {
    if n == 0 then a else Bump(BumpAll(a, refs, n - 1, status), refs[n - 1], status)
  }

  /** The map after the first n shelf entries. */
  function TallyAll(entries: seq<ShelfEntry>, n: nat, details: map<nat, BookDetail>, facet: Facet): Agg
    requires n <= |entries|
  {
    if n == 0 then Agg(map[], [])
    else
      var e := entries[n - 1];
      var refs := Refs(e, details, facet);
      BumpAll(TallyAll(entries, n - 1, details, facet), refs, |refs|, e.status)
  }

  /** The name carried by the first of the first n refs with this id. */
  function FirstRefName(refs: seq<Ref>, n: nat, id: nat): Option<string>
    requires n <= |refs|
  {
    if n == 0 then None
    else
      var earlier := FirstRefName(refs, n - 1, id);
      if earlier.Some? then earlier else if refs[n - 1].id == id then Some(refs[n - 1].name) else None
  }

  /** The name the first occurrence of a genre or author among the first n shelf entries carries. */
  function FirstNameIn(entries: seq<ShelfEntry>, n: nat, details: map<nat, BookDetail>, facet: Facet, id: nat): Option<string>
    requires n <= |entries|
  {
    if n == 0 then None
    else
      var earlier := FirstNameIn(entries, n - 1, details, facet, id);
      var refs := Refs(entries[n - 1], details, facet);
      if earlier.Some? then earlier else FirstRefName(refs, |refs|, id)
  }

  /** The name the map holds for an id, if any. */
  function NameOf(a: Agg, id: nat): Option<string>
  {
    if id in a.stats then Some(a.stats[id].name) else None
  }

  /** computeIfAbsent keeps the name an id was first given. */
  lemma {:induction false} BumpAllNames(a: Agg, refs: seq<Ref>, n: nat, status: ReadingStatus, id: nat)
    requires n <= |refs|
    ensures NameOf(BumpAll(a, refs, n, status), id) == if NameOf(a, id).Some? then NameOf(a, id) else FirstRefName(refs, n, id)
  {
    if n > 0 {
      BumpAllNames(a, refs, n - 1, status, id);
    }
  }

  /** Each id of the map after n entries carries the name of its first occurrence. */
  lemma {:induction false} TallyAllNames(entries: seq<ShelfEntry>, n: nat, details: map<nat, BookDetail>, facet: Facet, id: nat)
    requires n <= |entries|
    ensures NameOf(TallyAll(entries, n, details, facet), id) == FirstNameIn(entries, n, details, facet, id)
  {
    if n > 0 {
      TallyAllNames(entries, n - 1, details, facet, id);
      var e := entries[n - 1];
      var refs := Refs(e, details, facet);
      BumpAllNames(TallyAll(entries, n - 1, details, facet), refs, |refs|, e.status, id);
    }
  }

  lemma IndexedBump(a: Agg, r: Ref, status: ReadingStatus)
    requires Indexed(a)
    ensures Indexed(Bump(a, r, status))
  {
    if r.id !in a.stats {
      var o := a.order + [r.id];
      forall i, j | 0 <= i < j < |o| ensures o[i] != o[j] {
        if j == |a.order| { assert o[i] in a.order; }
      }
    }
  }

  lemma {:induction false} BumpAllCounts(a: Agg, refs: seq<Ref>, n: nat, status: ReadingStatus, id: nat)
    requires n <= |refs|
    ensures Lookup(BumpAll(a, refs, n, status), id) == Add(Lookup(a, id), status, CountRefIn(refs, n, id))
    ensures id in BumpAll(a, refs, n, status).stats <==> id in a.stats || CountRefIn(refs, n, id) > 0
  {
    if n > 0 {
      BumpAllCounts(a, refs, n - 1, status, id);
      var b := BumpAll(a, refs, n - 1, status);
      var k := if refs[n - 1].id == id then 1 else 0;
      BumpCounts(b, refs[n - 1], status, id);
      AddAdds(Lookup(a, id), status, CountRefIn(refs, n - 1, id), k);
    }
  }

  lemma BumpCounts(b: Agg, r: Ref, status: ReadingStatus, id: nat)
    ensures Lookup(Bump(b, r, status), id) == Add(Lookup(b, id), status, if r.id == id then 1 else 0)
    ensures id in Bump(b, r, status).stats <==> id in b.stats || r.id == id
  {
  }

  lemma AddAdds(c: Counts, status: ReadingStatus, k: nat, m: nat)
    ensures Add(Add(c, status, k), status, m) == Add(c, status, k + m)
  {
  }

  lemma {:induction false} IndexedBumpAll(a: Agg, refs: seq<Ref>, n: nat, status: ReadingStatus)
    requires n <= |refs| && Indexed(a)
    ensures Indexed(BumpAll(a, refs, n, status))
  {
    if n > 0 {
      IndexedBumpAll(a, refs, n - 1, status);
      IndexedBump(BumpAll(a, refs, n - 1, status), refs[n - 1], status);
    }
  }

  /** The fold TallyAll is the reference count, and it has an entry exactly for the ids that occur. */
  lemma {:induction false} TallyAllCounts(entries: seq<ShelfEntry>, n: nat, details: map<nat, BookDetail>, facet: Facet, id: nat)
    requires n <= |entries|
    ensures Lookup(TallyAll(entries, n, details, facet), id) == CountsIn(entries, n, details, facet, id)
    ensures id in TallyAll(entries, n, details, facet).stats <==> CountsIn(entries, n, details, facet, id).total > 0
  {
    if n > 0 {
      TallyAllCounts(entries, n - 1, details, facet, id);
      var e := entries[n - 1];
      var refs := Refs(e, details, facet);
      BumpAllCounts(TallyAll(entries, n - 1, details, facet), refs, |refs|, e.status, id);
    }
  }

  lemma {:induction false} IndexedTallyAll(entries: seq<ShelfEntry>, n: nat, details: map<nat, BookDetail>, facet: Facet)
    requires n <= |entries|
    ensures Indexed(TallyAll(entries, n, details, facet))
  {
    if n > 0 {
      IndexedTallyAll(entries, n - 1, details, facet);
      var e := entries[n - 1];
      var refs := Refs(e, details, facet);
      IndexedBumpAll(TallyAll(entries, n - 1, details, facet), refs, |refs|, e.status);
    }
  }

  /** The inner loop: one book's genres or authors counted into the map. */
  method AddRefs(a: Agg, refs: seq<Ref>, status: ReadingStatus) returns (a': Agg)
    ensures a' == BumpAll(a, refs, |refs|, status)
  {
    a' := a;
    var j := 0;
    while j < |refs|
      invariant 0 <= j <= |refs|
      invariant a' == BumpAll(a, refs, j, status)
    {
      var r := refs[j];
      if r.id in a'.stats {
        var t := a'.stats[r.id];
        a' := Agg(a'.stats[r.id := Tally(r.id, t.name, Add(t.counts, status, 1))], a'.order);
      } else {
        a' := Agg(a'.stats[r.id := Tally(r.id, r.name, Add(Zero, status, 1))], a'.order + [r.id]);
      }
      j := j + 1;
    }
  }

  /** The outer loop of getGenreStatistics / getAuthorStatistics, before the ranking. */
  method Aggregate(entries: seq<ShelfEntry>, details: map<nat, BookDetail>, facet: Facet) returns (a: Agg)
    ensures Indexed(a)
    ensures forall id :: id in a.stats <==> CountsOf(entries, details, facet, id).total > 0
    ensures forall id :: id in a.stats ==> a.stats[id].counts == CountsOf(entries, details, facet, id)
    ensures forall id :: id in a.stats ==> Some(a.stats[id].name) == FirstNameIn(entries, |entries|, details, facet, id)
  {
    a := Agg(map[], []);
    var i := 0;
    while i < |entries|
      invariant 0 <= i <= |entries|
      invariant a == TallyAll(entries, i, details, facet)
    {
      var e := entries[i];
      a := AddRefs(a, Refs(e, details, facet), e.status);
      i := i + 1;
    }
    IndexedTallyAll(entries, |entries|, details, facet);
    forall id ensures (id in a.stats <==> CountsOf(entries, details, facet, id).total > 0) &&
                      (id in a.stats ==> a.stats[id].counts == CountsOf(entries, details, facet, id)) &&
                      (id in a.stats ==> Some(a.stats[id].name) == FirstNameIn(entries, |entries|, details, facet, id)) {
      TallyAllCounts(entries, |entries|, details, facet, id);
      TallyAllNames(entries, |entries|, details, facet, id);
    }
  }

  // ------------------------------------------------------------ ranking

  predicate SortedByRead(ts: seq<Tally>)
  {
    forall i, j :: 0 <= i < j < |ts| ==> ts[i].counts.read >= ts[j].counts.read
  }

  /** Places t before the first entry that has read no more books than t (stable for equal keys). */
  function InsertByRead(t: Tally, s: seq<Tally>): (r: seq<Tally>)
    requires SortedByRead(s)
    ensures |r| == |s| + 1 && (forall x :: x in r <==> x == t || x in s)
    ensures SortedByRead(r)
  {
    if s == [] || s[0].counts.read <= t.counts.read then [t] + s
    else
      var rest := InsertByRead(t, s[1..]);
      assert forall x :: x in rest ==> x.counts.read <= s[0].counts.read;
      [s[0]] + rest
  }

  lemma {:induction false} InsertByReadPermutes(t: Tally, s: seq<Tally>)
    requires SortedByRead(s)
    ensures multiset(InsertByRead(t, s)) == multiset(s) + multiset{t}
  {
    if s != [] && s[0].counts.read > t.counts.read {
      InsertByReadPermutes(t, s[1..]);
      assert s == [s[0]] + s[1..];
    }
  }

  /** The stream's `sorted` by books read, descending. */
  function SortByRead(ts: seq<Tally>): (r: seq<Tally>)
    ensures |r| == |ts| && (forall x :: x in r <==> x in ts)
    ensures SortedByRead(r)
  {
    if ts == [] then [] else InsertByRead(ts[0], SortByRead(ts[1..]))
  }

  /** Sorting keeps every tally exactly as often as it was there. */
  lemma {:induction false} SortByReadPermutes(ts: seq<Tally>)
    ensures multiset(SortByRead(ts)) == multiset(ts)
  {
    if ts != [] {
      SortByReadPermutes(ts[1..]);
      InsertByReadPermutes(ts[0], SortByRead(ts[1..]));
      assert ts == [ts[0]] + ts[1..];
    }
  }

  /** The map's values in the order its ids were first met. */
  function ValuesInOrder(a: Agg): (vs: seq<Tally>)
    requires forall id :: id in a.order ==> id in a.stats
    ensures |vs| == |a.order| && forall k :: 0 <= k < |a.order| ==> vs[k] == a.stats[a.order[k]]
  {
    seq(|a.order|, k requires 0 <= k < |a.order| => a.stats[a.order[k]])
  }

  /**
   * getGenreStatistics / getAuthorStatistics. `None` stands for the
   * IllegalArgumentException Stream.limit throws for a negative limit.
   */
  method GetFacetStatistics(entries: seq<ShelfEntry>, details: map<nat, BookDetail>, facet: Facet, limit: int)
    returns (r: Option<seq<Tally>>)
    ensures entries == [] ==> r == Some([])
    ensures entries != [] && limit < 0 ==> r == None
    ensures entries != [] && limit >= 0 ==> r.Some? && |r.value| <= limit
    ensures r.Some? ==> SortedByRead(r.value)
    ensures r.Some? ==> forall t :: t in r.value ==>
              t.counts == CountsOf(entries, details, facet, t.id) && t.counts.total > 0 &&
              Some(t.name) == FirstNameIn(entries, |entries|, details, facet, t.id)
    ensures r.Some? ==> DistinctIds(r.value)
    ensures r.Some? && entries != [] ==> forall id :: CountsOf(entries, details, facet, id).total > 0 ==>
              (exists t :: t in r.value && t.id == id) ||
              (|r.value| == limit && forall t :: t in r.value ==> t.counts.read >= CountsOf(entries, details, facet, id).read)
  {
    if entries == [] {
      return Some([]);
    }
    var a := Aggregate(entries, details, facet);
    var values := ValuesInOrder(a);
    var sorted := SortByRead(values);
    if limit < 0 {
      return None;
    }
    var n := if limit < |sorted| then limit else |sorted|;
    TopIsCounted(entries, details, facet, a, sorted, n);
    SortByReadPermutes(values);
    ValuesHaveDistinctIds(a);
    PermutedIdsStayDistinct(values, sorted);
    TopCoversCounted(entries, details, facet, a, sorted, n);
    r := Some(sorted[..n]);
  }

  /** Every tally that made the cut carries the reference counts of its id. */
  lemma TopIsCounted(entries: seq<ShelfEntry>, details: map<nat, BookDetail>, facet: Facet, a: Agg, sorted: seq<Tally>, n: nat)
    requires Indexed(a)
    requires forall id :: id in a.stats ==> a.stats[id].counts == CountsOf(entries, details, facet, id)
    requires forall id :: id in a.stats ==> Some(a.stats[id].name) == FirstNameIn(entries, |entries|, details, facet, id)
    requires forall id :: id in a.stats <==> CountsOf(entries, details, facet, id).total > 0
    requires forall x :: x in sorted <==> x in ValuesInOrder(a)
    requires n <= |sorted|
    ensures forall t :: t in sorted[..n] ==>
              t.counts == CountsOf(entries, details, facet, t.id) && t.counts.total > 0 &&
              Some(t.name) == FirstNameIn(entries, |entries|, details, facet, t.id)
  {
    forall t | t in sorted[..n]
      ensures t.counts == CountsOf(entries, details, facet, t.id) && t.counts.total > 0 &&
              Some(t.name) == FirstNameIn(entries, |entries|, details, facet, t.id)
    {
      var values := ValuesInOrder(a);
      assert t in values;
      var k :| 0 <= k < |a.order| && values[k] == t;
      assert a.order[k] in a.stats;
    }
  }

  /** No two tallies share an id. */
  predicate DistinctIds(ts: seq<Tally>)
  {
    forall i, j :: 0 <= i < j < |ts| ==> ts[i].id != ts[j].id
  }

  /** The map's values carry their keys, which its order lists once each. */
  lemma ValuesHaveDistinctIds(a: Agg)
    requires Indexed(a)
    ensures DistinctIds(ValuesInOrder(a))
  {
    var vs := ValuesInOrder(a);
    forall i, j | 0 <= i < j < |vs| ensures vs[i].id != vs[j].id {
      assert a.order[i] in a.stats && a.order[j] in a.stats;
    }
  }

  /** With distinct ids no tally occurs twice. */
  lemma {:induction false} DistinctIdsOccurOnce(ts: seq<Tally>, x: Tally)
    requires DistinctIds(ts)
    ensures multiset(ts)[x] <= 1
  {
    if ts != [] {
      var init := ts[..|ts| - 1];
      assert ts == init + [ts[|ts| - 1]];
      DistinctIdsOccurOnce(init, x);
      forall k | 0 <= k < |init| ensures init[k] != ts[|ts| - 1] {
        assert ts[k].id != ts[|ts| - 1].id;
      }
    }
  }

  /** A reordering keeps the ids distinct. */
  lemma PermutedIdsStayDistinct(s: seq<Tally>, t: seq<Tally>)
    requires DistinctIds(s) && multiset(s) == multiset(t)
    ensures DistinctIds(t)
  {
    forall i, j | 0 <= i < j < |t| ensures t[i].id != t[j].id {
      DistinctIdsOccurOnce(s, t[i]);
      RepeatCountsTwice(t, i, j);
      assert t[i] in multiset(s) && t[j] in multiset(s);
      var p :| 0 <= p < |s| && s[p] == t[i];
      var q :| 0 <= q < |s| && s[q] == t[j];
    }
  }

  /** A tally at two positions occurs at least twice. */
  lemma RepeatCountsTwice(t: seq<Tally>, i: nat, j: nat)
    requires i < j < |t|
    ensures t[i] == t[j] ==> multiset(t)[t[i]] >= 2
  {
    assert t == t[..j] + [t[j]] + t[j + 1..];
    assert t[i] in t[..j];
  }

  /** An id of the map either made the cut or read no more books than everything that did. */
  lemma KeptOrOutranked(a: Agg, sorted: seq<Tally>, n: nat, id: nat)
    requires Indexed(a) && id in a.stats
    requires forall x :: x in sorted <==> x in ValuesInOrder(a)
    requires SortedByRead(sorted) && n <= |sorted|
    ensures (exists t :: t in sorted[..n] && t.id == id) ||
            (n < |sorted| && forall t :: t in sorted[..n] ==> t.counts.read >= a.stats[id].counts.read)
  {
    var values := ValuesInOrder(a);
    var k :| 0 <= k < |a.order| && a.order[k] == id;
    assert values[k] == a.stats[id];
    assert a.stats[id] in sorted;
    var p :| 0 <= p < |sorted| && sorted[p] == a.stats[id];
    if p < n {
      assert sorted[..n][p] == a.stats[id];
    } else {
      forall t | t in sorted[..n] ensures t.counts.read >= a.stats[id].counts.read {
        var q :| 0 <= q < n && sorted[q] == t;
      }
    }
  }

  /** Every counted id made the cut, or the cut is full of tallies that read at least as many books. */
  lemma TopCoversCounted(entries: seq<ShelfEntry>, details: map<nat, BookDetail>, facet: Facet, a: Agg, sorted: seq<Tally>, n: nat)
    requires Indexed(a)
    requires forall id :: id in a.stats ==> a.stats[id].counts == CountsOf(entries, details, facet, id)
    requires forall id :: id in a.stats <==> CountsOf(entries, details, facet, id).total > 0
    requires forall x :: x in sorted <==> x in ValuesInOrder(a)
    requires SortedByRead(sorted) && n <= |sorted|
    ensures forall id :: CountsOf(entries, details, facet, id).total > 0 ==>
              (exists t :: t in sorted[..n] && t.id == id) ||
              (n < |sorted| && forall t :: t in sorted[..n] ==> t.counts.read >= CountsOf(entries, details, facet, id).read)
  {
    forall id | CountsOf(entries, details, facet, id).total > 0
      ensures (exists t :: t in sorted[..n] && t.id == id) ||
              (n < |sorted| && forall t :: t in sorted[..n] ==> t.counts.read >= CountsOf(entries, details, facet, id).read)
    {
      KeptOrOutranked(a, sorted, n, id);
    }
  }

  // ------------------------------------------------------------ completion counts

  datatype Completion = Completion(started: nat, completed: nat, dnf: nat)

  /** countByUserIdAndStatus over the shelf. */
  function CountStatus(entries: seq<ShelfEntry>, status: ReadingStatus): nat
  {
    if entries == [] then 0
    else CountStatus(entries[..|entries| - 1], status) + (if entries[|entries| - 1].status == status then 1 else 0)
  }

  /** getCompletionStatistics' counters: started = read + did-not-finish + currently reading. */
  function CompletionCounts(entries: seq<ShelfEntry>): (c: Completion)
    ensures c.completed + c.dnf <= c.started <= |entries|
  {
    StatusesPartition(entries);
    Completion(
      CountStatus(entries, Read) + CountStatus(entries, DidNotFinish) + CountStatus(entries, CurrentlyReading),
      CountStatus(entries, Read),
      CountStatus(entries, DidNotFinish))
  }

  /** Every started book is on the shelf; the rest of the shelf is exactly the want-to-read books. */
  lemma {:induction false} StartedPlusWantedIsShelf(entries: seq<ShelfEntry>)
    ensures CompletionCounts(entries).started + CountStatus(entries, WantToRead) == |entries|
  {
    StatusesPartition(entries);
  }

  lemma {:induction false} StatusesPartition(entries: seq<ShelfEntry>)
    ensures CountStatus(entries, Read) + CountStatus(entries, DidNotFinish) +
            CountStatus(entries, CurrentlyReading) + CountStatus(entries, WantToRead) == |entries|
  {
    if entries != [] {
      StatusesPartition(entries[..|entries| - 1]);
    }
  }
}
