// ListService: a user's book lists (lists rows, soft-deleted), the books in
// them (list_books rows keyed by list and book, each with its position
// `bookOrder`), who may see which list, and the order rules of adding and
// reordering. A list's id is its position plus one.
module Lists {
  import opened Wrappers
  import opened Enums
  import Text

  datatype BookList = BookList(
    userId: nat,
    name: string,
    description: Option<string>,
    isPublic: bool,
    isDefault: bool,
    listType: ListType,
    deleted: bool)

  datatype ListBook = ListBook(listId: nat, bookId: nat, bookOrder: int)

  datatype ListError =
    | ListNotFound(listId: nat)
    | Forbidden(message: string)
    | DefaultList(message: string)
    | BookNotFound(bookId: nat)
    | AlreadyInList
    | NotInList(message: string)
    | NotDefaultType

  datatype Result<T> = Ok(value: T) | Err(error: ListError)

  /** findByIdAndDeletedAtIsNull */
  predicate Live(lists: seq<BookList>, listId: nat)
  {
    1 <= listId <= |lists| && !lists[listId - 1].deleted
  }

  /** The checks every owner-only operation starts with: the list exists and is the caller's. */
  function OwnedList(lists: seq<BookList>, userId: nat, listId: nat): (r: Result<BookList>)
    ensures r.Ok? <==> Live(lists, listId) && lists[listId - 1].userId == userId
    ensures r.Ok? ==> r.value == lists[listId - 1]
    ensures !Live(lists, listId) ==> r == Err(ListNotFound(listId))
    ensures Live(lists, listId) && lists[listId - 1].userId != userId ==> r == Err(Forbidden(""))
  {
    if !Live(lists, listId) then Err(ListNotFound(listId))
    else if lists[listId - 1].userId != userId then Err(Forbidden(""))
    else Ok(lists[listId - 1])
  }

  /** getList: a live list the caller owns, or a public one. */
  function Viewed(lists: seq<BookList>, userId: nat, listId: nat): (r: Result<BookList>)
    ensures r.Ok? <==> Live(lists, listId) && (lists[listId - 1].userId == userId || lists[listId - 1].isPublic)
    ensures r.Ok? ==> r.value == lists[listId - 1]
    ensures !Live(lists, listId) ==> r == Err(ListNotFound(listId))
    ensures Live(lists, listId) && lists[listId - 1].userId != userId && !lists[listId - 1].isPublic ==>
              r == Err(Forbidden("Cannot access private list"))
  {
    if !Live(lists, listId) then Err(ListNotFound(listId))
    else if lists[listId - 1].userId != userId && !lists[listId - 1].isPublic then Err(Forbidden("Cannot access private list"))
    else Ok(lists[listId - 1])
  }

  /**
   * getPublicUserLists: the ids of the target's live lists, all of them for
   * the target themself and only the public ones for anybody else, in table
   * order (getUserLists is the case where the two users are the same).
   */
  function VisibleLists(lists: seq<BookList>, requesterId: nat, targetId: nat): (r: seq<nat>)
    ensures forall id :: id in r <==> Live(lists, id) && lists[id - 1].userId == targetId && (requesterId == targetId || lists[id - 1].isPublic)
    ensures forall k, l :: 0 <= k < l < |r| ==> r[k] < r[l]
  {
    VisibleFrom(lists, requesterId, targetId, |lists|)
  }

  function VisibleFrom(lists: seq<BookList>, requesterId: nat, targetId: nat, n: nat): (r: seq<nat>)
    requires n <= |lists|
    ensures forall id :: id in r <==> 1 <= id <= n && Live(lists, id) && lists[id - 1].userId == targetId && (requesterId == targetId || lists[id - 1].isPublic)
    ensures forall k, l :: 0 <= k < l < |r| ==> r[k] < r[l]
    ensures forall k :: 0 <= k < |r| ==> 1 <= r[k] <= n
  {
    if n == 0 then []
    else
      var rest := VisibleFrom(lists, requesterId, targetId, n - 1);
      var l := lists[n - 1];
      if !l.deleted && l.userId == targetId && (requesterId == targetId || l.isPublic) then rest + [n] else rest
  }

  /** A list somebody else can see is one anybody can open. */
  lemma VisibleListsOpen(lists: seq<BookList>, requesterId: nat, targetId: nat, id: nat)
    requires id in VisibleLists(lists, requesterId, targetId)
    ensures Viewed(lists, requesterId, id).Ok?
  {
  }

  predicate InList(rows: seq<ListBook>, listId: nat, bookId: nat)
  {
    exists k :: 0 <= k < |rows| && rows[k].listId == listId && rows[k].bookId == bookId
  }

  /** The list_books primary key: a book is at most once in a list. */
  predicate OncePerList(rows: seq<ListBook>)
  {
    forall k, l :: 0 <= k < |rows| && 0 <= l < |rows| && k != l ==>
      rows[k].listId != rows[l].listId || rows[k].bookId != rows[l].bookId
  }

  /** Some row of the list. */
  predicate HasRows(rows: seq<ListBook>, listId: nat)
  {
    exists k :: 0 <= k < |rows| && rows[k].listId == listId
  }

  /**
   * findMaxBookOrderByListId, COALESCE(MAX(book_order), 0): the largest
   * position in a list that has rows, whatever its sign, and 0 for an empty list.
   */
  function MaxOrder(rows: seq<ListBook>, listId: nat): (m: int)
    ensures forall k :: 0 <= k < |rows| && rows[k].listId == listId ==> rows[k].bookOrder <= m
    ensures HasRows(rows, listId) ==> exists k :: 0 <= k < |rows| && rows[k].listId == listId && rows[k].bookOrder == m
    ensures !HasRows(rows, listId) ==> m == 0
  {
    if rows == [] then 0
    else
      var init := rows[..|rows| - 1];
      var m := MaxOrder(init, listId);
      var last := rows[|rows| - 1];
      assert forall k :: 0 <= k < |rows| - 1 ==> init[k] == rows[k];
      assert HasRows(init, listId) ==> HasRows(rows, listId);
      if last.listId == listId && (!HasRows(init, listId) || last.bookOrder > m) then last.bookOrder else m
  }

  /** countByListId */
  function BookCount(rows: seq<ListBook>, listId: nat): (n: nat)
    ensures n <= |rows|
  {
    if rows == [] then 0
    else BookCount(rows[1..], listId) + (if rows[0].listId == listId then 1 else 0)
  }

  /** deleteByListIdAndBookId: every other row, in order. */
  function Without(rows: seq<ListBook>, listId: nat, bookId: nat): (r: seq<ListBook>)
    ensures forall x :: x in r <==> x in rows && (x.listId != listId || x.bookId != bookId)
    ensures |r| <= |rows|
  {
    if rows == [] then []
    else
      var rest := Without(rows[1..], listId, bookId);
      if rows[0].listId == listId && rows[0].bookId == bookId then rest else [rows[0]] + rest
  }

  lemma {:induction false} WithoutKeepsOncePerList(rows: seq<ListBook>, listId: nat, bookId: nat)
    requires OncePerList(rows)
    ensures OncePerList(Without(rows, listId, bookId))
  {
    if rows != [] {
      var rest := Without(rows[1..], listId, bookId);
      assert OncePerList(rows[1..]) by {
        forall k, l | 0 <= k < |rows| - 1 && 0 <= l < |rows| - 1 && k != l
          ensures rows[1..][k].listId != rows[1..][l].listId || rows[1..][k].bookId != rows[1..][l].bookId
        {
          assert rows[1..][k] == rows[k + 1] && rows[1..][l] == rows[l + 1];
        }
      }
      WithoutKeepsOncePerList(rows[1..], listId, bookId);
      if !(rows[0].listId == listId && rows[0].bookId == bookId) {
        var r := [rows[0]] + rest;
        forall k | 0 <= k < |rest|
          ensures rest[k].listId != rows[0].listId || rest[k].bookId != rows[0].bookId
        {
          assert rest[k] in rows[1..];
          var j :| 0 <= j < |rows| - 1 && rows[1..][j] == rest[k];
          assert rows[j + 1] == rest[k];
        }
        assert OncePerList(r) by {
          forall k, l | 0 <= k < |r| && 0 <= l < |r| && k != l
            ensures r[k].listId != r[l].listId || r[k].bookId != r[l].bookId
          {
            if k > 0 && l > 0 {
              assert r[k] == rest[k - 1] && r[l] == rest[l - 1];
            } else if k == 0 {
              assert r[l] == rest[l - 1];
            } else {
              assert r[k] == rest[k - 1];
            }
          }
        }
      }
    }
  }

  /** The position a reorder gives a book: one past the last index at which it is named. */
  function LastIndexOf(ids: seq<nat>, bookId: nat): (r: Option<nat>)
    ensures r.Some? ==> r.value < |ids| && ids[r.value] == bookId && forall j :: r.value < j < |ids| ==> ids[j] != bookId
    ensures r.None? <==> bookId !in ids
  {
    if ids == [] then None
    else if ids[|ids| - 1] == bookId then Some(|ids| - 1)
    else
      var r := LastIndexOf(ids[..|ids| - 1], bookId);
      assert forall j :: 0 <= j < |ids| - 1 ==> ids[..|ids| - 1][j] == ids[j];
      assert ids == ids[..|ids| - 1] + [ids[|ids| - 1]];
      r
  }

  /** reorderBooksInList's outcome: each named book of the list moves to its last index plus one, every other row stays. */
  function Reordered(rows: seq<ListBook>, listId: nat, ids: seq<nat>): (r: seq<ListBook>)
    ensures |r| == |rows|
    ensures forall k :: 0 <= k < |rows| ==> r[k].listId == rows[k].listId && r[k].bookId == rows[k].bookId
  {
    seq(|rows|, k requires 0 <= k < |rows| =>
      var row := rows[k];
      if row.listId == listId && LastIndexOf(ids, row.bookId).Some? then row.(bookOrder := LastIndexOf(ids, row.bookId).value + 1)
      else row)
  }

  /** The first named book that is not in the list, which the reorder reports. */
  function FirstStranger(rows: seq<ListBook>, listId: nat, ids: seq<nat>): (r: Option<nat>)
    ensures r.Some? ==> r.value in ids && !InList(rows, listId, r.value)
    ensures r.None? <==> forall j :: 0 <= j < |ids| ==> InList(rows, listId, ids[j])
  {
    if ids == [] then None
    else if !InList(rows, listId, ids[0]) then Some(ids[0])
    else
      var r := FirstStranger(rows, listId, ids[1..]);
      assert forall j :: 1 <= j < |ids| ==> ids[j] == ids[1..][j - 1];
      r
  }

  /** A reorder naming every book of a list once, in some order, numbers them 1, 2, ... in that order. */
  lemma ReorderedNumbersInGivenOrder(rows: seq<ListBook>, listId: nat, ids: seq<nat>, j: nat, k: nat)
    requires j < |ids| && k < |rows| && rows[k].listId == listId && rows[k].bookId == ids[j]
    requires forall i :: 0 <= i < |ids| && i != j ==> ids[i] != ids[j]
    ensures Reordered(rows, listId, ids)[k].bookOrder == j + 1
  {
  }

  /** createDefaultList's names: the list type decides the name and the description. */
  function DefaultListFor(userId: nat, t: ListType): (l: BookList)
    requires t != Custom
    ensures l.userId == userId && l.listType == t && l.isDefault && l.isPublic && !l.deleted
    ensures l.name == (if t == CurrentlyReadingList then "Currently Reading" else "To Be Read")
    ensures l.description == Some(if t == CurrentlyReadingList then "Books I am currently reading" else "Books I want to read")
  {
    if t == CurrentlyReadingList then BookList(userId, "Currently Reading", Some("Books I am currently reading"), true, true, t, false)
    else BookList(userId, "To Be Read", Some("Books I want to read"), true, true, t, false)
  }

  /** findByUserIdAndListTypeAndIsDefaultTrue: the first default list of that type, deleted or not. */
  function DefaultListOf(lists: seq<BookList>, userId: nat, t: ListType, n: nat): (r: Option<nat>)
    requires n <= |lists|
    decreases |lists| - n
    ensures r.Some? ==> n < r.value <= |lists| && var l := lists[r.value - 1]; l.userId == userId && l.listType == t && l.isDefault
    ensures r.None? ==> forall i :: n <= i < |lists| ==> !(lists[i].userId == userId && lists[i].listType == t && lists[i].isDefault)
  {
    if n == |lists| then None
    else if lists[n].userId == userId && lists[n].listType == t && lists[n].isDefault then Some(n + 1)
    else DefaultListOf(lists, userId, t, n + 1)
  }

  /**
   * At most one default list of each type per user. No constraint enforces
   * it, but no operation here creates a second one, so the single-row query
   * above never meets several.
   */
  predicate OneDefaultEach(lists: seq<BookList>)
  {
    forall i, j :: 0 <= i < j < |lists| && lists[i].isDefault && lists[j].isDefault ==>
      lists[i].userId != lists[j].userId || lists[i].listType != lists[j].listType
  }

  /** Where the default lists are one of each kind, the query finds the one there is. */
  lemma {:induction false} DefaultListIsTheOne(lists: seq<BookList>, userId: nat, t: ListType, n: nat, i: nat)
    requires OneDefaultEach(lists) && n <= i < |lists|
    requires lists[i].userId == userId && lists[i].listType == t && lists[i].isDefault
    decreases |lists| - n
    ensures DefaultListOf(lists, userId, t, n) == Some(i + 1)
  {
    if n < i {
      DefaultListIsTheOne(lists, userId, t, n + 1, i);
    }
  }

  class ListStore {
    var lists: seq<BookList>
    var books: seq<ListBook>

    ghost predicate Valid()
      reads this
    {
      OncePerList(books)
    }

    constructor()
      ensures Valid() && lists == [] && books == []
    {
      lists := [];
      books := [];
    }

    /** createList: a private custom list unless the request says public. The new list's id. */
    method Create(userId: nat, name: string, description: Option<string>, isPublic: Option<bool>) returns (id: nat)
      modifies this
      ensures OneDefaultEach(old(lists)) ==> OneDefaultEach(lists)
      ensures lists == old(lists) + [BookList(userId, name, description, isPublic.GetOr(false), false, Custom, false)]
      ensures id == |lists| && books == old(books)
    {
      lists := lists + [BookList(userId, name, description, isPublic.GetOr(false), false, Custom, false)];
      id := |lists|;
    }

    /** updateList: the owner renames a custom list; visibility changes only when given. */
    method Update(userId: nat, listId: nat, name: string, description: Option<string>, isPublic: Option<bool>) returns (r: Result<()>)
      modifies this
      ensures OneDefaultEach(old(lists)) ==> OneDefaultEach(lists)
      ensures books == old(books)
      ensures old(OwnedList(lists, userId, listId)).Err? ==> r == Err(old(OwnedList(lists, userId, listId)).error) && lists == old(lists)
      ensures old(OwnedList(lists, userId, listId)).Ok? && old(lists)[listId - 1].isDefault ==>
                r == Err(DefaultList("Cannot modify default lists")) && lists == old(lists)
      ensures old(OwnedList(lists, userId, listId)).Ok? && !old(lists)[listId - 1].isDefault ==>
                var l := old(lists)[listId - 1];
                r.Ok? && lists == old(lists)[listId - 1 := l.(name := name, description := description, isPublic := isPublic.GetOr(l.isPublic))]
    {
      var found := OwnedList(lists, userId, listId);
      if found.Err? {
        return Err(found.error);
      }
      var l := found.value;
      if l.isDefault {
        return Err(DefaultList("Cannot modify default lists"));
      }
      l := l.(name := name, description := description);
      if isPublic.Some? {
        l := l.(isPublic := isPublic.value);
      }
      lists := lists[listId - 1 := l];
      r := Ok(());
    }

    /** deleteList: the owner soft-deletes a custom list; its books stay in list_books. */
    method Delete(userId: nat, listId: nat) returns (r: Result<()>)
      modifies this
      ensures OneDefaultEach(old(lists)) ==> OneDefaultEach(lists)
      ensures books == old(books)
      ensures old(OwnedList(lists, userId, listId)).Err? ==> r == Err(old(OwnedList(lists, userId, listId)).error) && lists == old(lists)
      ensures old(OwnedList(lists, userId, listId)).Ok? && old(lists)[listId - 1].isDefault ==>
                r == Err(DefaultList("Cannot delete default lists")) && lists == old(lists)
      ensures old(OwnedList(lists, userId, listId)).Ok? && !old(lists)[listId - 1].isDefault ==>
                r.Ok? && lists == old(lists)[listId - 1 := old(lists)[listId - 1].(deleted := true)] && !Live(lists, listId)
    {
      var found := OwnedList(lists, userId, listId);
      if found.Err? {
        return Err(found.error);
      }
      if found.value.isDefault {
        return Err(DefaultList("Cannot delete default lists"));
      }
      lists := lists[listId - 1 := found.value.(deleted := true)];
      r := Ok(());
    }

    /** addBookToList: a book not yet in the list goes after every book in it. */
    method AddBook(userId: nat, listId: nat, bookId: nat, bookKnown: bool) returns (r: Result<()>)
      requires Valid()
      modifies this
      ensures Valid() && lists == old(lists)
      ensures old(OwnedList(lists, userId, listId)).Err? ==> r == Err(old(OwnedList(lists, userId, listId)).error)
      ensures old(OwnedList(lists, userId, listId)).Ok? && !bookKnown ==> r == Err(BookNotFound(bookId))
      ensures old(OwnedList(lists, userId, listId)).Ok? && bookKnown && InList(old(books), listId, bookId) ==> r == Err(AlreadyInList)
      ensures r.Ok? <==> old(OwnedList(lists, userId, listId)).Ok? && bookKnown && !InList(old(books), listId, bookId)
      ensures r.Err? ==> books == old(books)
      ensures r.Ok? ==> books == old(books) + [ListBook(listId, bookId, MaxOrder(old(books), listId) + 1)]
      ensures r.Ok? ==> forall k :: 0 <= k < |old(books)| && old(books)[k].listId == listId ==>
                          old(books)[k].bookOrder < books[|books| - 1].bookOrder
    {
      var found := OwnedList(lists, userId, listId);
      if found.Err? {
        return Err(found.error);
      }
      if !bookKnown {
        return Err(BookNotFound(bookId));
      }
      if exists k :: 0 <= k < |books| && books[k].listId == listId && books[k].bookId == bookId {
        return Err(AlreadyInList);
      }
      books := books + [ListBook(listId, bookId, MaxOrder(books, listId) + 1)];
      r := Ok(());
    }

    /** removeBookFromList. */
    method RemoveBook(userId: nat, listId: nat, bookId: nat) returns (r: Result<()>)
      requires Valid()
      modifies this
      ensures Valid() && lists == old(lists)
      ensures old(OwnedList(lists, userId, listId)).Err? ==> r == Err(old(OwnedList(lists, userId, listId)).error)
      ensures old(OwnedList(lists, userId, listId)).Ok? && !InList(old(books), listId, bookId) ==>
                r == Err(NotInList("Book not found in this list"))
      ensures r.Ok? <==> old(OwnedList(lists, userId, listId)).Ok? && InList(old(books), listId, bookId)
      ensures r.Err? ==> books == old(books)
      ensures r.Ok? ==> books == Without(old(books), listId, bookId) && !InList(books, listId, bookId)
    {
      var found := OwnedList(lists, userId, listId);
      if found.Err? {
        return Err(found.error);
      }
      if !(exists k :: 0 <= k < |books| && books[k].listId == listId && books[k].bookId == bookId) {
        return Err(NotInList("Book not found in this list"));
      }
      WithoutKeepsOncePerList(books, listId, bookId);
      books := Without(books, listId, bookId);
      r := Ok(());
      assert !InList(books, listId, bookId) by {
        forall k | 0 <= k < |books|
          ensures !(books[k].listId == listId && books[k].bookId == bookId)
        {
          assert books[k] in books;
        }
      }
    }

    /**
     * reorderBooksInList: every id must name a book of the list, else nothing
     * changes; then the book named at index i gets position i + 1.
     */
    method Reorder(userId: nat, listId: nat, ids: seq<nat>) returns (r: Result<()>)
      requires Valid()
      modifies this
      ensures Valid() && lists == old(lists)
      ensures old(OwnedList(lists, userId, listId)).Err? ==> r == Err(old(OwnedList(lists, userId, listId)).error)
      ensures old(OwnedList(lists, userId, listId)).Ok? && old(FirstStranger(books, listId, ids)).Some? ==>
                r == Err(NotInList("Book " + Text.NatToString(old(FirstStranger(books, listId, ids)).value) + " is not in this list"))
      ensures r.Ok? <==> old(OwnedList(lists, userId, listId)).Ok? && old(FirstStranger(books, listId, ids)).None?
      ensures r.Err? ==> books == old(books)
      ensures r.Ok? ==> books == Reordered(old(books), listId, ids)
    {
      var found := OwnedList(lists, userId, listId);
      if found.Err? {
        return Err(found.error);
      }
      var stranger := FirstStranger(books, listId, ids);
      if stranger.Some? {
        return Err(NotInList("Book " + Text.NatToString(stranger.value) + " is not in this list"));
      }
      ghost var rows := books;
      var i := 0;
      while i < |ids|
        invariant 0 <= i <= |ids| && |books| == |rows| && lists == old(lists)
        invariant books == Reordered(rows, listId, ids[..i])
      {
        var k := Locate(books, listId, ids[i]);
        books := books[k := books[k].(bookOrder := i + 1)];
        ReorderStep(rows, listId, ids, i, k, books);
        i := i + 1;
      }
      assert ids[..|ids|] == ids;
      r := Ok(());
      ReorderedKeepsOncePerList(rows, listId, ids);
    }

    /** getDefaultList: a default list is found, or created public, by type; a custom list is no default. */
    method GetDefault(userId: nat, t: ListType) returns (r: Result<nat>)
      modifies this
      ensures OneDefaultEach(old(lists)) ==> OneDefaultEach(lists)
      ensures books == old(books)
      ensures t == Custom ==> r == Err(NotDefaultType) && lists == old(lists)
      ensures t != Custom && old(DefaultListOf(lists, userId, t, 0)).Some? ==>
                r == Ok(old(DefaultListOf(lists, userId, t, 0)).value) && lists == old(lists)
      ensures t != Custom && old(DefaultListOf(lists, userId, t, 0)).None? ==>
                lists == old(lists) + [DefaultListFor(userId, t)] && r == Ok(|lists|)
    {
      if t == Custom {
        return Err(NotDefaultType);
      }
      var existing := DefaultListOf(lists, userId, t, 0);
      if existing.Some? {
        return Ok(existing.value);
      }
      lists := lists + [DefaultListFor(userId, t)];
      r := Ok(|lists|);
    }
  }

  /** findFirst over the list's rows: where the book sits in the list. */
  method Locate(rows: seq<ListBook>, listId: nat, bookId: nat) returns (k: nat)
    requires InList(rows, listId, bookId)
    ensures k < |rows| && rows[k].listId == listId && rows[k].bookId == bookId
  {
    k := 0;
    while !(rows[k].listId == listId && rows[k].bookId == bookId)
      invariant k < |rows|
      invariant forall j :: 0 <= j < k ==> !(rows[j].listId == listId && rows[j].bookId == bookId)
      decreases |rows| - k
    {
      k := k + 1;
    }
  }

  /** One pass of the reorder loop: the book named at index i takes position i + 1. */
  lemma ReorderStep(rows: seq<ListBook>, listId: nat, ids: seq<nat>, i: nat, k: nat, next: seq<ListBook>)
    requires i < |ids| && k < |rows| && rows[k].listId == listId && rows[k].bookId == ids[i]
    requires OncePerList(rows)
    requires next == Reordered(rows, listId, ids[..i])[k := Reordered(rows, listId, ids[..i])[k].(bookOrder := i + 1)]
    ensures next == Reordered(rows, listId, ids[..i + 1])
  {
    var before, after := Reordered(rows, listId, ids[..i]), Reordered(rows, listId, ids[..i + 1]);
    assert ids[..i + 1] == ids[..i] + [ids[i]];
    forall j | 0 <= j < |rows|
      ensures next[j] == after[j]
    {
      assert LastIndexOf(ids[..i + 1], ids[i]) == Some(i);
      if j != k && rows[j].listId == listId {
        assert rows[j].bookId != ids[i];
        assert LastIndexOf(ids[..i + 1], rows[j].bookId) == LastIndexOf(ids[..i], rows[j].bookId);
      }
    }
  }

  lemma ReorderedKeepsOncePerList(rows: seq<ListBook>, listId: nat, ids: seq<nat>)
    requires OncePerList(rows)
    ensures OncePerList(Reordered(rows, listId, ids))
  {
  }
}
