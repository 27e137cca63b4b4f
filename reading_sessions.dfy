// ReadingSessionService: validating and logging a reading session, the
// shelf progress it carries over, the preferred reading method over the
// latest sessions, and the ownership checks of get and delete. Sessions are
// stored like shelf entries: id = position + 1, a deleted one leaves `None`.
module ReadingSessions {
  import opened Wrappers
  import opened Enums
  import Shelf

  /** CreateReadingSessionRequest. */
  datatype SessionRequest = SessionRequest(
    bookId: nat,
    readingMethod: ReadingMethod,
    pagesRead: Option<int>,
    minutesRead: Option<int>,
    sessionDate: Option<int>,
    startPage: Option<int>,
    endPage: Option<int>,
    notes: Option<string>)

  datatype ReadingSession = ReadingSession(
    userId: nat,
    bookId: nat,
    pagesRead: Option<int>,
    minutesRead: Option<int>,
    readingMethod: ReadingMethod,
    sessionDate: int,
    startPage: Option<int>,
    endPage: Option<int>,
    notes: Option<string>)

  datatype SessionError = BookNotFound(bookId: nat) | Unacceptable(message: string) | SessionNotFound(sessionId: nat) | Forbidden

  datatype Result<T> = Ok(value: T) | Err(error: SessionError)

  predicate Positive(o: Option<int>) { o.Some? && o.value > 0 }

  /** The request a session needs: the measure of its method, and a page range that moves forward. */
  predicate WellFormed(req: SessionRequest)
  {
    (req.readingMethod == Audiobook ==> Positive(req.minutesRead)) &&
    (req.readingMethod != Audiobook ==> Positive(req.pagesRead)) &&
    (req.startPage.Some? && req.endPage.Some? ==> req.endPage.value > req.startPage.value)
  }

  /** validateSessionConstraints: the first violated rule's message, or none. */
  function Violation(req: SessionRequest): (r: Option<string>)
    ensures r.None? <==> WellFormed(req)
    ensures req.readingMethod == Audiobook && !Positive(req.minutesRead) ==>
              r == Some("Audiobook sessions require minutes_read to be specified")
    ensures req.readingMethod != Audiobook && !Positive(req.pagesRead) ==>
              r == Some("Physical/ebook sessions require pages_read to be specified")
    ensures r == Some("end_page must be greater than start_page") ==>
              req.startPage.Some? && req.endPage.Some? && req.endPage.value <= req.startPage.value
    ensures (if req.readingMethod == Audiobook then Positive(req.minutesRead) else Positive(req.pagesRead)) &&
            req.startPage.Some? && req.endPage.Some? && req.endPage.value <= req.startPage.value ==>
              r == Some("end_page must be greater than start_page")
  {
    if req.readingMethod == Audiobook && !Positive(req.minutesRead) then
      Some("Audiobook sessions require minutes_read to be specified")
    else if req.readingMethod != Audiobook && !Positive(req.pagesRead) then
      Some("Physical/ebook sessions require pages_read to be specified")
    else if req.startPage.Some? && req.endPage.Some? && req.endPage.value <= req.startPage.value then
      Some("end_page must be greater than start_page")
    else None
  }

  /** The session row logged for a request; a missing date is today. */
  function Logged(userId: nat, req: SessionRequest, today: int): (s: ReadingSession)
    ensures s.sessionDate == req.sessionDate.GetOr(today)
    ensures s.userId == userId && s.bookId == req.bookId && s.readingMethod == req.readingMethod
    ensures s.pagesRead == req.pagesRead && s.minutesRead == req.minutesRead
    ensures s.startPage == req.startPage && s.endPage == req.endPage && s.notes == req.notes
  {
    ReadingSession(userId, req.bookId, req.pagesRead, req.minutesRead, req.readingMethod,
                   req.sessionDate.GetOr(today), req.startPage, req.endPage, req.notes)
  }

  /**
   * updateUserBookProgress for an existing entry: it is being read from now
   * on (a start is stamped only when the status changes and none is
   * recorded), audio time grows by the minutes listened, pages move to the
   * end page or forward by the pages read.
   */
  function Progressed(ub: Shelf.UserBook, req: SessionRequest, now: int): (r: Shelf.UserBook)
    ensures r.status == CurrentlyReading
    ensures r.startedAt == if ub.status != CurrentlyReading && ub.startedAt.None? then Some(now) else ub.startedAt
    ensures req.readingMethod == Audiobook && req.minutesRead.Some? ==>
              r.currentSeconds == Some(ub.currentSeconds.GetOr(0) + req.minutesRead.value * 60) && r.currentPage == ub.currentPage
    ensures !(req.readingMethod == Audiobook && req.minutesRead.Some?) && req.pagesRead.Some? ==>
              r.currentSeconds == ub.currentSeconds &&
              r.currentPage == Some(if req.endPage.Some? then req.endPage.value else ub.currentPage.GetOr(0) + req.pagesRead.value)
    ensures r.(status := ub.status, startedAt := ub.startedAt, currentPage := ub.currentPage, currentSeconds := ub.currentSeconds) == ub
  {
    var reading := if ub.status != CurrentlyReading then
                     ub.(status := CurrentlyReading, startedAt := if ub.startedAt.None? then Some(now) else ub.startedAt)
                   else ub;
    if req.readingMethod == Audiobook && req.minutesRead.Some? then
      reading.(currentSeconds := Some(ub.currentSeconds.GetOr(0) + req.minutesRead.value * 60))
    else if req.pagesRead.Some? then
      reading.(currentPage := Some(if req.endPage.Some? then req.endPage.value else ub.currentPage.GetOr(0) + req.pagesRead.value))
    else reading
  }

  /** updateUserBookProgress without an entry: a new one, being read since now, with this session's progress alone. */
  function Started(userId: nat, req: SessionRequest, now: int): (r: Shelf.UserBook)
    ensures r.userId == userId && r.bookId == req.bookId && r.status == CurrentlyReading && r.startedAt == Some(now)
    ensures req.readingMethod == Audiobook && req.minutesRead.Some? ==>
              r.currentSeconds == Some(req.minutesRead.value * 60) && r.currentPage == Some(0)
    ensures !(req.readingMethod == Audiobook && req.minutesRead.Some?) && req.pagesRead.Some? ==>
              r.currentSeconds == Some(0) && r.currentPage == Some(req.endPage.GetOr(req.pagesRead.value))
    ensures r.finishedAt.None? && r.dnfDate.None? && r.dnfReason.None? && r.notes.None? && r.personalRating.None?
  {
    var ub := Shelf.UserBook(userId, req.bookId, CurrentlyReading, Some(0), Some(0), None, None, None, None, Some(now), None, None, None);
    if req.readingMethod == Audiobook && req.minutesRead.Some? then ub.(currentSeconds := Some(req.minutesRead.value * 60))
    else if req.pagesRead.Some? then ub.(currentPage := Some(req.endPage.GetOr(req.pagesRead.value)))
    else ub
  }

  /** A new entry gets what an entry with no progress and no status history would get. */
  lemma StartedIsProgressFromNothing(userId: nat, req: SessionRequest, now: int)
    ensures var blank := Shelf.UserBook(userId, req.bookId, WantToRead, Some(0), Some(0), None, None, None, None, None, None, None, None);
            Started(userId, req, now) == Progressed(blank, req, now)
  {
  }

  /** findByUserIdAndBookId: where the user's entry for the book sits, if there is one. */
  function EntryFor(entries: seq<Option<Shelf.UserBook>>, userId: nat, bookId: nat): (r: Option<nat>)
    ensures r.Some? ==> r.value < |entries| && Shelf.Holds(entries[r.value], userId, bookId)
    ensures r.None? <==> !Shelf.OnShelf(entries, userId, bookId)
  {
    if entries == [] then None
    else if Shelf.Holds(entries[|entries| - 1], userId, bookId) then Some(|entries| - 1)
    else
      var r := EntryFor(entries[..|entries| - 1], userId, bookId);
      assert forall i :: 0 <= i < |entries| - 1 ==> entries[..|entries| - 1][i] == entries[i];
      r
  }

  // calculatePreferredMethod

  /** How many of the sessions were read in method m. */
  function Uses(methods: seq<ReadingMethod>, m: ReadingMethod): (n: nat)
    ensures n <= |methods|
  {
    if methods == [] then 0
    else Uses(methods[..|methods| - 1], m) + (if methods[|methods| - 1] == m then 1 else 0)
  }

  /** The size of the window the preferred method is computed over. */
  const RecentWindow := 20

  /**
   * The most used of the methods of the latest sessions (`recent` is in
   * the repository's newest-first order): none without sessions, and on a
   * tie physical beats both others and ebook beats audiobook.
   */
  function PreferredMethod(recent: seq<ReadingMethod>): (r: Option<ReadingMethod>)
  {
    if recent == [] then None
    else
      var window := if |recent| <= RecentWindow then recent else recent[..RecentWindow];
      var physical, ebook, audiobook := Uses(window, Physical), Uses(window, Ebook), Uses(window, Audiobook);
      if physical >= ebook && physical >= audiobook then Some(Physical)
      else if ebook >= audiobook then Some(Ebook)
      else Some(Audiobook)
  }

  /** The window's counts of the three methods add up to its length. */
  lemma {:induction false} UsesPartition(methods: seq<ReadingMethod>)
    ensures Uses(methods, Physical) + Uses(methods, Ebook) + Uses(methods, Audiobook) == |methods|
  {
    if methods != [] {
      UsesPartition(methods[..|methods| - 1]);
    }
  }

  /** The preferred method is used at least as often as any other in the window, and beats the later ones strictly. */
  lemma PreferredIsMostUsed(recent: seq<ReadingMethod>, m: ReadingMethod)
    requires recent != []
    ensures var window := if |recent| <= RecentWindow then recent else recent[..RecentWindow];
            var p := PreferredMethod(recent);
            p.Some? && Uses(window, p.value) >= Uses(window, m) && Uses(window, p.value) > 0 &&
            (p.value == Ebook ==> Uses(window, Ebook) > Uses(window, Physical)) &&
            (p.value == Audiobook ==> Uses(window, Audiobook) > Uses(window, Physical) && Uses(window, Audiobook) > Uses(window, Ebook))
  {
    var window := if |recent| <= RecentWindow then recent else recent[..RecentWindow];
    UsesPartition(window);
  }

  /** Only the twenty newest sessions count. */
  lemma OlderSessionsDoNotCount(recent: seq<ReadingMethod>, older: seq<ReadingMethod>)
    requires |recent| >= RecentWindow
    ensures PreferredMethod(recent + older) == PreferredMethod(recent)
  {
    if older == [] {
      assert recent + older == recent;
    } else {
      assert (recent + older)[..RecentWindow] == recent[..RecentWindow];
    }
  }

  /** findById followed by the ownership check of getSession and deleteSession. */
  function OwnedSession(sessions: seq<Option<ReadingSession>>, userId: nat, id: nat): (r: Result<ReadingSession>)
    ensures r.Ok? <==> 1 <= id <= |sessions| && sessions[id - 1].Some? && sessions[id - 1].value.userId == userId
    ensures r.Ok? ==> Some(r.value) == sessions[id - 1]
    ensures r == Err(SessionNotFound(id)) <==> id == 0 || id > |sessions| || sessions[id - 1].None?
    ensures r.Err? ==> r.error == SessionNotFound(id) || r.error == Forbidden
  {
    if id == 0 || id > |sessions| || sessions[id - 1].None? then Err(SessionNotFound(id))
    else if sessions[id - 1].value.userId != userId then Err(Forbidden)
    else Ok(sessions[id - 1].value)
  }

  class SessionLog {
    var sessions: seq<Option<ReadingSession>>
    const shelf: Shelf.ShelfStore

    constructor(shelf: Shelf.ShelfStore)
      ensures this.shelf == shelf && sessions == []
    {
      this.shelf := shelf;
      sessions := [];
    }

    /**
     * logSession: the book must exist (`bookKnown`), the request must be well
     * formed; then the session is stored and the shelf entry for the book is
     * advanced, or created. The new session's id on success.
     */
    method Log(userId: nat, req: SessionRequest, bookKnown: bool, today: int, now: int) returns (r: Result<nat>)
      requires shelf.Valid()
      modifies this, shelf
      ensures shelf.Valid()
      ensures !bookKnown ==> r == Err(BookNotFound(req.bookId))
      ensures bookKnown && !WellFormed(req) ==> r == Err(Unacceptable(Violation(req).value))
      ensures r.Ok? <==> bookKnown && WellFormed(req)
      ensures r.Err? ==> sessions == old(sessions) && shelf.entries == old(shelf.entries)
      ensures r.Ok? ==> sessions == old(sessions) + [Some(Logged(userId, req, today))] && r.value == |sessions|
      ensures r.Ok? ==> match EntryFor(old(shelf.entries), userId, req.bookId)
                        case Some(i) => shelf.entries == old(shelf.entries)[i := Some(Progressed(old(shelf.entries)[i].value, req, now))]
                        case None => shelf.entries == old(shelf.entries) + [Some(Started(userId, req, now))]
    {
      if !bookKnown {
        return Err(BookNotFound(req.bookId));
      }
      var problem := Violation(req);
      if problem.Some? {
        return Err(Unacceptable(problem.value));
      }
      sessions := sessions + [Some(Logged(userId, req, today))];
      r := Ok(|sessions|);
      var at := EntryFor(shelf.entries, userId, req.bookId);
      if at.Some? {
        shelf.Replace(at.value, Progressed(shelf.entries[at.value].value, req, now));
      } else {
        ghost var before := shelf.entries;
        shelf.entries := shelf.entries + [Some(Started(userId, req, now))];
        NewEntryKeepsOnePerBook(before, Started(userId, req, now));
      }
    }

    /** getSession. */
    function Get(userId: nat, id: nat): Result<ReadingSession>
      reads this
    {
      OwnedSession(sessions, userId, id)
    }

    /** deleteSession: only the owner's session is deleted. */
    method Delete(userId: nat, id: nat) returns (r: Result<()>)
      modifies this
      ensures old(OwnedSession(sessions, userId, id)).Err? ==> r == Err(old(OwnedSession(sessions, userId, id)).error) && sessions == old(sessions)
      ensures old(OwnedSession(sessions, userId, id)).Ok? ==> r.Ok? && sessions == old(sessions)[id - 1 := None]
    {
      var found := OwnedSession(sessions, userId, id);
      if found.Err? {
        return Err(found.error);
      }
      sessions := sessions[id - 1 := None];
      r := Ok(());
    }

    /**
     * calculatePreferredMethod: the preferred method of the user's sessions,
     * taken in the order the repository returns them (`order`, newest first).
     */
    function Preferred(userId: nat, order: seq<nat>): (r: Option<ReadingMethod>)
      requires NewestFirst(sessions, userId, order)
      reads this
      ensures r.None? <==> forall i :: 0 <= i < |sessions| ==> !Belongs(sessions[i], userId)
    {
      if order == [] then
        PreferredMethod([])
      else
        assert Belongs(sessions[order[0]], userId);
        PreferredMethod(MethodsAt(sessions, order))
    }
  }

  predicate Belongs(s: Option<ReadingSession>, userId: nat)
  {
    s.Some? && s.value.userId == userId
  }

  /** Session i is listed before session j: a later date, or the same date and created after it. */
  predicate Newer(sessions: seq<Option<ReadingSession>>, i: nat, j: nat)
    requires i < |sessions| && j < |sessions| && sessions[i].Some? && sessions[j].Some?
  {
    sessions[i].value.sessionDate > sessions[j].value.sessionDate ||
    (sessions[i].value.sessionDate == sessions[j].value.sessionDate && i > j)
  }

  /** findRecentByUserId's order: every session of the user, by date and then creation, newest first. */
  predicate NewestFirst(sessions: seq<Option<ReadingSession>>, userId: nat, order: seq<nat>)
  {
    (forall k :: 0 <= k < |order| ==> order[k] < |sessions| && Belongs(sessions[order[k]], userId)) &&
    (forall i :: 0 <= i < |sessions| && Belongs(sessions[i], userId) ==> i in order) &&
    (forall k, l :: 0 <= k < l < |order| ==>
       (order[k] < |sessions| && order[l] < |sessions| &&
        sessions[order[k]].Some? && sessions[order[l]].Some? && Newer(sessions, order[k], order[l])))
  }

  function MethodsAt(sessions: seq<Option<ReadingSession>>, order: seq<nat>): (r: seq<ReadingMethod>)
    requires forall k :: 0 <= k < |order| ==> order[k] < |sessions| && sessions[order[k]].Some?
    ensures |r| == |order| && forall k :: 0 <= k < |order| ==> r[k] == sessions[order[k]].value.readingMethod
  {
    if order == [] then [] else [sessions[order[0]].value.readingMethod] + MethodsAt(sessions, order[1..])
  }

  /** Appending an entry for a book the user does not have on the shelf keeps one entry per book. */
  lemma NewEntryKeepsOnePerBook(entries: seq<Option<Shelf.UserBook>>, ub: Shelf.UserBook)
    requires Shelf.OnePerBook(entries) && !Shelf.OnShelf(entries, ub.userId, ub.bookId)
    ensures Shelf.OnePerBook(entries + [Some(ub)])
  {
    var es := entries + [Some(ub)];
    forall i, j | 0 <= i < |es| && 0 <= j < |es| && i != j && es[i].Some?
      ensures !Shelf.Holds(es[j], es[i].value.userId, es[i].value.bookId)
    {
      if i == |entries| {
        assert !Shelf.Holds(entries[j], ub.userId, ub.bookId);
      } else if j < |entries| {
        assert es[i] == entries[i] && es[j] == entries[j];
      }
    }
  }
}
