// UserBookService: a user's shelf entries (user_books rows), their status
// transitions with the timestamps they stamp, and the privacy decision of
// UserBookController.getUserBooks. An entry's id is its position plus one;
// a removed entry (a hard delete) leaves `None` behind. Clock readings are
// integer parameters.
module Shelf {
  import opened Wrappers
  import opened Enums

  datatype UserBook = UserBook(
    userId: nat,
    bookId: nat,
    status: ReadingStatus,
    currentPage: Option<int>,
    currentSeconds: Option<int>,
    userPageCount: Option<int>,
    userAudioLengthSeconds: Option<int>,
    personalRating: Option<int>,
    notes: Option<string>,
    startedAt: Option<int>,
    finishedAt: Option<int>,
    dnfDate: Option<int>,
    dnfReason: Option<string>)

  /** The fields of a request to shelve a book. */
  datatype NewEntry = NewEntry(
    bookId: nat,
    status: ReadingStatus,
    currentPage: Option<int>,
    currentSeconds: Option<int>,
    userPageCount: Option<int>,
    userAudioLengthSeconds: Option<int>,
    personalRating: Option<int>,
    notes: Option<string>)

  /** UpdateUserBookRequest: every field is optional, `None` leaves it alone. */
  datatype Changes = Changes(
    status: Option<ReadingStatus>,
    currentPage: Option<int>,
    currentSeconds: Option<int>,
    userPageCount: Option<int>,
    userAudioLengthSeconds: Option<int>,
    personalRating: Option<int>,
    notes: Option<string>)

  datatype ShelfError = BookNotFound(bookId: nat) | DuplicateEntry | EntryNotFound(entryId: nat) | Forbidden

  datatype Result<T> = Ok(value: T) | Err(error: ShelfError)

  /** addBookToShelf's new row: progress defaults to 0 and the status stamps its own timestamp. */
  function Shelved(userId: nat, e: NewEntry, now: int): (ub: UserBook)
    ensures ub.userId == userId && ub.bookId == e.bookId && ub.status == e.status
    ensures ub.currentPage == Some(e.currentPage.GetOr(0)) && ub.currentSeconds == Some(e.currentSeconds.GetOr(0))
    ensures ub.userPageCount == e.userPageCount && ub.userAudioLengthSeconds == e.userAudioLengthSeconds
    ensures ub.personalRating == e.personalRating && ub.notes == e.notes
    ensures (ub.startedAt == Some(now) <==> e.status == CurrentlyReading) && (ub.startedAt.None? <==> e.status != CurrentlyReading)
    ensures (ub.finishedAt == Some(now) <==> e.status == Read) && (ub.finishedAt.None? <==> e.status != Read)
    ensures ub.dnfDate.None? && ub.dnfReason.None?
  {
    var ub := UserBook(userId, e.bookId, e.status, Some(e.currentPage.GetOr(0)), Some(e.currentSeconds.GetOr(0)),
                       e.userPageCount, e.userAudioLengthSeconds, e.personalRating, e.notes, None, None, None, None);
    if e.status == CurrentlyReading then ub.(startedAt := Some(now))
    else if e.status == Read then ub.(finishedAt := Some(now))
    else ub
  }

  /**
   * updateStatus: the entry moved to status `s` at `now`. A start is stamped
   * only when none is recorded; a finish or an abandonment only on entering
   * that status from another one. Nothing but the status and these stamps changes.
   */
  function WithStatus(ub: UserBook, s: ReadingStatus, now: int): (r: UserBook)
    ensures r.status == s
    ensures r.startedAt != ub.startedAt <==> s == CurrentlyReading && ub.startedAt.None?
    ensures r.finishedAt != ub.finishedAt ==> r.finishedAt == Some(now)
    ensures r.finishedAt == Some(now) <==> (s == Read && ub.status != Read) || ub.finishedAt == Some(now)
    ensures r.dnfDate != ub.dnfDate ==> r.dnfDate == Some(now)
    ensures r.dnfDate == Some(now) <==> (s == DidNotFinish && ub.status != DidNotFinish) || ub.dnfDate == Some(now)
    ensures r.startedAt != ub.startedAt ==> r.startedAt == Some(now)
    ensures r.(status := ub.status, startedAt := ub.startedAt, finishedAt := ub.finishedAt, dnfDate := ub.dnfDate) == ub
  {
    var started := if s == CurrentlyReading && ub.startedAt.None? then Some(now) else ub.startedAt;
    var finished := if s == Read && ub.status != Read then Some(now) else ub.finishedAt;
    var abandoned := if s == DidNotFinish && ub.status != DidNotFinish then Some(now) else ub.dnfDate;
    ub.(status := s, startedAt := started, finishedAt := finished, dnfDate := abandoned)
  }

  /** Setting the status an entry already has, at any later time, changes nothing more. */
  lemma WithStatusIdempotent(ub: UserBook, s: ReadingStatus, t1: int, t2: int)
    ensures WithStatus(WithStatus(ub, s, t1), s, t2) == WithStatus(ub, s, t1)
  {
  }

  /** The progress, rating and notes fields an update supplies, written over `s`; nothing else changes. */
  function Overridden(s: UserBook, c: Changes): (r: UserBook)
    ensures r.currentPage == (if c.currentPage.Some? then c.currentPage else s.currentPage)
    ensures r.currentSeconds == (if c.currentSeconds.Some? then c.currentSeconds else s.currentSeconds)
    ensures r.userPageCount == (if c.userPageCount.Some? then c.userPageCount else s.userPageCount)
    ensures r.userAudioLengthSeconds == (if c.userAudioLengthSeconds.Some? then c.userAudioLengthSeconds else s.userAudioLengthSeconds)
    ensures r.personalRating == (if c.personalRating.Some? then c.personalRating else s.personalRating)
    ensures r.notes == (if c.notes.Some? then c.notes else s.notes)
    ensures r.(currentPage := s.currentPage, currentSeconds := s.currentSeconds, userPageCount := s.userPageCount,
               userAudioLengthSeconds := s.userAudioLengthSeconds, personalRating := s.personalRating, notes := s.notes) == s
  {
    s.(currentPage := if c.currentPage.Some? then c.currentPage else s.currentPage,
       currentSeconds := if c.currentSeconds.Some? then c.currentSeconds else s.currentSeconds,
       userPageCount := if c.userPageCount.Some? then c.userPageCount else s.userPageCount,
       userAudioLengthSeconds := if c.userAudioLengthSeconds.Some? then c.userAudioLengthSeconds else s.userAudioLengthSeconds,
       personalRating := if c.personalRating.Some? then c.personalRating else s.personalRating,
       notes := if c.notes.Some? then c.notes else s.notes)
  }

  /** updateUserBook: every supplied field replaces the stored one, a supplied status goes through WithStatus. */
  function Applied(ub: UserBook, c: Changes, now: int): (r: UserBook)
    ensures c.status.Some? ==> r.status == c.status.value
    ensures c.status.None? ==> r.status == ub.status && r.startedAt == ub.startedAt && r.finishedAt == ub.finishedAt && r.dnfDate == ub.dnfDate
    ensures c.status.Some? ==> var w := WithStatus(ub, c.status.value, now);
              r.startedAt == w.startedAt && r.finishedAt == w.finishedAt && r.dnfDate == w.dnfDate
    ensures r.currentPage == (if c.currentPage.Some? then c.currentPage else ub.currentPage)
    ensures r.currentSeconds == (if c.currentSeconds.Some? then c.currentSeconds else ub.currentSeconds)
    ensures r.userPageCount == (if c.userPageCount.Some? then c.userPageCount else ub.userPageCount)
    ensures r.userAudioLengthSeconds == (if c.userAudioLengthSeconds.Some? then c.userAudioLengthSeconds else ub.userAudioLengthSeconds)
    ensures r.personalRating == (if c.personalRating.Some? then c.personalRating else ub.personalRating)
    ensures r.notes == (if c.notes.Some? then c.notes else ub.notes)
    ensures r.userId == ub.userId && r.bookId == ub.bookId && r.dnfReason == ub.dnfReason
  {
    Overridden(if c.status.Some? then WithStatus(ub, c.status.value, now) else ub, c)
  }

  /** An update that supplies nothing leaves the entry as it was. */
  lemma EmptyChangesKeepEntry(ub: UserBook, now: int)
    ensures Applied(ub, Changes(None, None, None, None, None, None, None), now) == ub
  {
  }

  /** markAsDidNotFinish: whatever the status was, the entry is abandoned now, for the given reason. */
  function Abandoned(ub: UserBook, reason: Option<string>, now: int): (r: UserBook)
    ensures r.status == DidNotFinish && r.dnfDate == Some(now) && r.dnfReason == reason
    ensures r.(status := ub.status, dnfDate := ub.dnfDate, dnfReason := ub.dnfReason) == ub
  {
    ub.(status := DidNotFinish, dnfDate := Some(now), dnfReason := reason)
  }

  /** Unlike WithStatus, marking an already abandoned entry stamps a new date. */
  lemma AbandonRestamps(ub: UserBook, reason: Option<string>, now: int)
    requires ub.status == DidNotFinish && ub.dnfDate != Some(now)
    ensures Abandoned(ub, reason, now).dnfDate != WithStatus(ub, DidNotFinish, now).dnfDate
  {
  }

  predicate Holds(e: Option<UserBook>, userId: nat, bookId: nat)
  {
    e.Some? && e.value.userId == userId && e.value.bookId == bookId
  }

  /** existsByUserIdAndBookId */
  predicate OnShelf(entries: seq<Option<UserBook>>, userId: nat, bookId: nat)
  {
    exists i :: 0 <= i < |entries| && Holds(entries[i], userId, bookId)
  }

  /** The table's unique (user_id, book_id) constraint. */
  predicate OnePerBook(entries: seq<Option<UserBook>>)
  {
    forall i, j :: 0 <= i < |entries| && 0 <= j < |entries| && i != j && entries[i].Some? ==>
      !Holds(entries[j], entries[i].value.userId, entries[i].value.bookId)
  }

  /** findById followed by the ownership check, shared by every per-entry operation. */
  function Owned(entries: seq<Option<UserBook>>, userId: nat, id: nat): (r: Result<UserBook>)
    ensures r.Ok? <==> 1 <= id <= |entries| && entries[id - 1].Some? && entries[id - 1].value.userId == userId
    ensures r.Ok? ==> Some(r.value) == entries[id - 1]
    ensures r == Err(EntryNotFound(id)) <==> id == 0 || id > |entries| || entries[id - 1].None?
    ensures r.Err? ==> r.error == EntryNotFound(id) || r.error == Forbidden
  {
    if id == 0 || id > |entries| || entries[id - 1].None? then Err(EntryNotFound(id))
    else if entries[id - 1].value.userId != userId then Err(Forbidden)
    else Ok(entries[id - 1].value)
  }

  /** getUserBooksByStatus: the user's entries, of the given status when one is given, in table order. */
  function ByStatus(entries: seq<Option<UserBook>>, userId: nat, status: Option<ReadingStatus>): (r: seq<UserBook>)
    ensures forall b :: b in r <==> Some(b) in entries && b.userId == userId && (status.Some? ==> b.status == status.value)
    ensures |r| <= |entries|
  {
    if entries == [] then []
    else
      var rest := ByStatus(entries[1..], userId, status);
      var e := entries[0];
      if e.Some? && e.value.userId == userId && (status.None? || e.value.status == status.value) then [e.value] + rest
      else rest
  }

  class ShelfStore {
    var entries: seq<Option<UserBook>>

    ghost predicate Valid()
      reads this
    {
      OnePerBook(entries)
    }

    constructor()
      ensures Valid() && entries == []
    {
      entries := [];
    }

    /** addBookToShelf; `bookKnown` is the content service's answer. The new entry's id on success. */
    method Add(userId: nat, e: NewEntry, bookKnown: bool, now: int) returns (r: Result<nat>)
      requires Valid()
      modifies this
      ensures Valid()
      ensures !bookKnown ==> r == Err(BookNotFound(e.bookId))
      ensures bookKnown && OnShelf(old(entries), userId, e.bookId) ==> r == Err(DuplicateEntry)
      ensures r.Ok? <==> bookKnown && !OnShelf(old(entries), userId, e.bookId)
      ensures r.Err? ==> entries == old(entries)
      ensures r.Ok? ==> entries == old(entries) + [Some(Shelved(userId, e, now))] && r.value == |entries|
    {
      if !bookKnown {
        return Err(BookNotFound(e.bookId));
      }
      if exists i :: 0 <= i < |entries| && Holds(entries[i], userId, e.bookId) {
        return Err(DuplicateEntry);
      }
      entries := entries + [Some(Shelved(userId, e, now))];
      r := Ok(|entries|);
    }

    /** updateUserBook. */
    method Update(userId: nat, id: nat, c: Changes, now: int) returns (r: Result<UserBook>)
      requires Valid()
      modifies this
      ensures Valid()
      ensures old(Owned(entries, userId, id)).Err? ==> r == old(Owned(entries, userId, id)) && entries == old(entries)
      ensures old(Owned(entries, userId, id)).Ok? ==>
                r == Ok(Applied(old(Owned(entries, userId, id)).value, c, now)) && entries == old(entries)[id - 1 := Some(r.value)]
    {
      var found := Owned(entries, userId, id);
      if found.Err? {
        return found;
      }
      var ub := found.value;
      if c.status.Some? {
        ub := WithStatus(ub, c.status.value, now);
      }
      if c.currentPage.Some? {
        ub := ub.(currentPage := c.currentPage);
      }
      if c.currentSeconds.Some? {
        ub := ub.(currentSeconds := c.currentSeconds);
      }
      if c.userPageCount.Some? {
        ub := ub.(userPageCount := c.userPageCount);
      }
      if c.userAudioLengthSeconds.Some? {
        ub := ub.(userAudioLengthSeconds := c.userAudioLengthSeconds);
      }
      if c.personalRating.Some? {
        ub := ub.(personalRating := c.personalRating);
      }
      if c.notes.Some? {
        ub := ub.(notes := c.notes);
      }
      Replace(id - 1, ub);
      r := Ok(ub);
    }

    /** updateReadingStatus. */
    method SetStatus(userId: nat, id: nat, s: ReadingStatus, now: int) returns (r: Result<UserBook>)
      requires Valid()
      modifies this
      ensures Valid()
      ensures old(Owned(entries, userId, id)).Err? ==> r == old(Owned(entries, userId, id)) && entries == old(entries)
      ensures old(Owned(entries, userId, id)).Ok? ==>
                r == Ok(WithStatus(old(Owned(entries, userId, id)).value, s, now)) && entries == old(entries)[id - 1 := Some(r.value)]
    {
      var found := Owned(entries, userId, id);
      if found.Err? {
        return found;
      }
      var ub := WithStatus(found.value, s, now);
      Replace(id - 1, ub);
      r := Ok(ub);
    }

    /** markAsDidNotFinish. */
    method MarkDidNotFinish(userId: nat, id: nat, reason: Option<string>, now: int) returns (r: Result<UserBook>)
      requires Valid()
      modifies this
      ensures Valid()
      ensures old(Owned(entries, userId, id)).Err? ==> r == old(Owned(entries, userId, id)) && entries == old(entries)
      ensures old(Owned(entries, userId, id)).Ok? ==>
                r == Ok(Abandoned(old(Owned(entries, userId, id)).value, reason, now)) && entries == old(entries)[id - 1 := Some(r.value)]
    {
      var found := Owned(entries, userId, id);
      if found.Err? {
        return found;
      }
      var ub := Abandoned(found.value, reason, now);
      Replace(id - 1, ub);
      r := Ok(ub);
    }

    /** removeBookFromShelf: the row is deleted outright. */
    method Remove(userId: nat, id: nat) returns (r: Result<()>)
      requires Valid()
      modifies this
      ensures Valid()
      ensures old(Owned(entries, userId, id)).Err? ==> r == Err(old(Owned(entries, userId, id)).error) && entries == old(entries)
      ensures old(Owned(entries, userId, id)).Ok? ==>
                r.Ok? && entries == old(entries)[id - 1 := None] &&
                !OnShelf(entries, userId, old(entries)[id - 1].value.bookId)
    {
      var found := Owned(entries, userId, id);
      if found.Err? {
        return Err(found.error);
      }
      entries := entries[id - 1 := None];
      r := Ok(());
    }

    /** Writes an entry back in place; user and book stay, so the table keeps one entry per book. */
    method Replace(i: nat, ub: UserBook)
      requires Valid() && i < |entries| && entries[i].Some?
      requires ub.userId == entries[i].value.userId && ub.bookId == entries[i].value.bookId
      modifies this
      ensures Valid() && entries == old(entries)[i := Some(ub)]
    {
      entries := entries[i := Some(ub)];
    }
  }

  // UserBookController

  /** What getUserBooks answers: a shelf query for an owner and an optional status, or a refusal. */
  datatype Listing = Query(ownerId: nat, status: Option<ReadingStatus>) | BadRequest | ForbiddenStatus

  /** A query parameter counts as given only when it is present and not empty. */
  predicate Given(param: Option<string>)
  {
    param.Some? && param.value != ""
  }

  /**
   * getUserBooks: the caller's own books, optionally by status; another
   * user's books only while they are being read.
   */
  function GetUserBooks(callerId: nat, userId: Option<nat>, status: Option<string>): (r: Listing)
    ensures Given(status) && ParseReadingStatus(status).Invalid? ==> r == BadRequest
    ensures userId.None? && !Given(status) ==> r == Query(callerId, None)
    ensures userId.None? && ParseReadingStatus(status).Parsed? ==> r == Query(callerId, Some(ParseReadingStatus(status).value))
    ensures userId.Some? && !Given(status) ==> r == Query(userId.value, Some(CurrentlyReading))
    ensures userId.Some? && ParseReadingStatus(status).Parsed? ==>
              r == if ParseReadingStatus(status).value == CurrentlyReading then Query(userId.value, Some(CurrentlyReading)) else ForbiddenStatus
    ensures r.ForbiddenStatus? ==> userId.Some?
    ensures r.Query? ==> r.ownerId == userId.GetOr(callerId)
  {
    var parsed := if Given(status) then Some(ParseReadingStatus(status)) else None;
    if parsed.Some? && parsed.value.Invalid? then BadRequest
    else if userId.None? then Query(callerId, if parsed.Some? then Some(parsed.value.value) else None)
    else if parsed.Some? && parsed.value.value != CurrentlyReading then ForbiddenStatus
    else Query(userId.value, Some(CurrentlyReading))
  }

  /** What another user's shelf shows: only that user's entries, and only those being read. */
  lemma OthersSeeOnlyWhatIsBeingRead(entries: seq<Option<UserBook>>, callerId: nat, userId: nat, status: Option<string>, b: UserBook)
    requires GetUserBooks(callerId, Some(userId), status).Query?
    requires b in ByStatus(entries, userId, GetUserBooks(callerId, Some(userId), status).status)
    ensures b.userId == userId && b.status == CurrentlyReading
  {
  }

  /** updateReadingStatus's guard: an unparseable status is answered 400 before the service is called. */
  function StatusParameter(status: string): (r: Option<ReadingStatus>)
    ensures r.Some? ==> ReadingStatusName(r.value) == KebabKey(status)
    ensures r.None? <==> ParseReadingStatus(Some(status)).Invalid?
  {
    match ParseReadingStatus(Some(status))
    case Parsed(s) => Some(s)
    case Invalid(_) => None
  }

  /** Every status is accepted under its constant name and its kebab-case spelling. */
  lemma StatusParameterAcceptsBothSpellings(s: ReadingStatus)
    ensures StatusParameter(ReadingStatusName(s)) == Some(s) && StatusParameter(Kebab(ReadingStatusName(s))) == Some(s)
  {
    ReadingStatusRoundTrip(s);
  }
}
