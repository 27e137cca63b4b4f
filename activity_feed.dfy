// ActivityFeedService: the friends' feed merges three recent-activity
// queries, sorts the merged list newest first (a stable sort, as Java's
// List.sort is) and cuts one page out of it in memory.
module ActivityFeed {
  import opened Wrappers
  import Text
  import Friendships

  /** Each source query is limited to its first page of this size. */
  const SourceLimit := 100
  /** The controller's largest page size. */
  const MaxPageSize := 50

  datatype ActivityType = SessionLogged | ListCreated | BookFinished

  /** ActivityFeedDTO without the user and book enrichment; `subjectId` is the session, list or shelf-entry id. */
  datatype Activity = Activity(id: string, kind: ActivityType, subjectId: nat, userId: nat, timestamp: int)

  datatype SessionRow = SessionRow(id: nat, userId: nat, createdAt: int)
  datatype ListRow = ListRow(id: nat, userId: nat, isPublic: bool, deleted: bool, createdAt: int)
  datatype ShelfRow = ShelfRow(id: nat, userId: nat, finishedAt: Option<int>)

  datatype Page = Page(content: seq<Activity>, total: nat)

  function Prefix(kind: ActivityType): string
  {
    match kind
    case SessionLogged => "session-"
    case ListCreated => "list-"
    case BookFinished => "book-"
  }

  /** An activity's id is its kind's prefix followed by the id of what it is about. */
  predicate WellNamed(a: Activity)
  {
    a.id == Prefix(a.kind) + Text.NatToString(a.subjectId)
  }

  function MakeActivity(kind: ActivityType, subjectId: nat, userId: nat, timestamp: int): (a: Activity)
    ensures WellNamed(a) && a.kind == kind && a.subjectId == subjectId && a.userId == userId && a.timestamp == timestamp
  {
    Activity(Prefix(kind) + Text.NatToString(subjectId), kind, subjectId, userId, timestamp)
  }

  // ---- friends -------------------------------------------------------

  predicate Involves(f: Friendships.Friendship, userId: nat)
  {
    !f.deleted && (f.userId == userId || f.friendId == userId)
  }

  function Other(f: Friendships.Friendship, userId: nat): nat
  {
    if f.userId == userId then f.friendId else f.userId
  }

  /** getFriendIds: the other party of every live friendship the user is in. */
  function FriendIds(fs: seq<Friendships.Friendship>, userId: nat): (r: seq<nat>)
    ensures |r| <= |fs|
    ensures forall x :: x in r <==> exists f :: f in fs && Involves(f, userId) && Other(f, userId) == x
  {
    if fs == [] then []
    else
      var rest := FriendIds(fs[1..], userId);
      assert forall f :: f in fs[1..] ==> f in fs;
      assert forall f :: f in fs ==> f == fs[0] || f in fs[1..];
      if Involves(fs[0], userId) then [Other(fs[0], userId)] + rest else rest
  }

  // ---- newest first --------------------------------------------------

  predicate Descending(s: seq<Activity>)
  {
    forall i, j :: 0 <= i < j < |s| ==> s[i].timestamp >= s[j].timestamp
  }

  /** Puts `x` after every element at least as new, before the first older one. */
  function Insert(s: seq<Activity>, x: Activity): (r: seq<Activity>)
    ensures |r| == |s| + 1
  {
    if s == [] then [x]
    else if s[0].timestamp < x.timestamp then [x] + s
    else [s[0]] + Insert(s[1..], x)
  }

  /** The stable descending sort by timestamp: insertion of each element in turn. */
  function NewestFirst(s: seq<Activity>): seq<Activity>
  {
    if s == [] then [] else Insert(NewestFirst(s[..|s| - 1]), s[|s| - 1])
  }

  /** The elements of a given timestamp, in order. */
  function At(s: seq<Activity>, t: int): seq<Activity>
  {
    if s == [] then [] else (if s[0].timestamp == t then [s[0]] else []) + At(s[1..], t)
  }

  lemma {:induction false} InsertPermutes(s: seq<Activity>, x: Activity)
    ensures multiset(Insert(s, x)) == multiset(s) + multiset{x} && |Insert(s, x)| == |s| + 1
  {
    if s != [] && s[0].timestamp >= x.timestamp {
      InsertPermutes(s[1..], x);
      assert s == [s[0]] + s[1..];
    }
  }

  /** A newest-first sequence stays newest first under a head at least as new as its first element. */
  lemma DescendingCons(h: Activity, r: seq<Activity>)
    requires Descending(r) && (r != [] ==> h.timestamp >= r[0].timestamp)
    ensures Descending([h] + r)
  {
    var c := [h] + r;
    forall i, j | 0 <= i < j < |c| ensures c[i].timestamp >= c[j].timestamp {
      if i == 0 {
        assert c[j] == r[j - 1] && r[0].timestamp >= r[j - 1].timestamp;
      } else {
        assert c[i] == r[i - 1] && c[j] == r[j - 1];
      }
    }
  }

  lemma {:induction false} InsertKeepsDescending(s: seq<Activity>, x: Activity)
    requires Descending(s)
    ensures Descending(Insert(s, x))
  {
    if s == [] {
    } else if s[0].timestamp < x.timestamp {
      DescendingCons(x, s);
    } else {
      var t := s[1..];
      assert Descending(t) by {
        forall i, j | 0 <= i < j < |t| ensures t[i].timestamp >= t[j].timestamp {
          assert t[i] == s[i + 1] && t[j] == s[j + 1];
        }
      }
      InsertKeepsDescending(t, x);
      var r := Insert(t, x);
      assert r != [] && r[0] == (if t == [] || t[0].timestamp < x.timestamp then x else t[0]);
      if t != [] {
        assert t[0] == s[1];
      }
      DescendingCons(s[0], r);
      assert Insert(s, x) == [s[0]] + r;
    }
  }

  lemma {:induction false} NewestFirstDescends(s: seq<Activity>)
    ensures Descending(NewestFirst(s))
  {
    if s != [] {
      NewestFirstDescends(s[..|s| - 1]);
      InsertKeepsDescending(NewestFirst(s[..|s| - 1]), s[|s| - 1]);
    }
  }

  lemma {:induction false} NewestFirstPermutes(s: seq<Activity>)
    ensures multiset(NewestFirst(s)) == multiset(s) && |NewestFirst(s)| == |s|
  {
    if s != [] {
      var init, last := s[..|s| - 1], s[|s| - 1];
      NewestFirstPermutes(init);
      InsertPermutes(NewestFirst(init), last);
      assert NewestFirst(s) == Insert(NewestFirst(init), last);
      assert s == init + [last];
      assert multiset(s) == multiset(init) + multiset{last};
    }
  }

  /** The sort's result is newest first and holds the same activities. */
  lemma NewestFirstSorts(s: seq<Activity>)
    ensures Descending(NewestFirst(s)) && multiset(NewestFirst(s)) == multiset(s) && |NewestFirst(s)| == |s|
  {
    NewestFirstDescends(s);
    NewestFirstPermutes(s);
  }

  /** What a source query keeps comes from the rows it filtered. */
  lemma TakeNewestFrom(s: seq<Activity>, n: nat)
    ensures forall a :: a in Take(NewestFirst(s), n) ==> a in s
  {
    NewestFirstSorts(s);
    forall a | a in Take(NewestFirst(s), n) ensures a in s {
      assert a in multiset(NewestFirst(s));
    }
  }

  lemma {:induction false} AtDistributes(a: seq<Activity>, b: seq<Activity>, t: int)
    ensures At(a + b, t) == At(a, t) + At(b, t)
  {
    if a != [] {
      var head := if a[0].timestamp == t then [a[0]] else [];
      assert (a + b)[0] == a[0] && (a + b)[1..] == a[1..] + b;
      AtDistributes(a[1..], b, t);
      assert At(a + b, t) == head + At(a[1..] + b, t);
      assert At(a, t) == head + At(a[1..], t);
    } else {
      assert a + b == b;
    }
  }

  lemma {:induction false} InsertAfterEqualTimestamps(s: seq<Activity>, x: Activity, t: int)
    requires Descending(s)
    ensures At(Insert(s, x), t) == At(s, t) + At([x], t)
  {
    if s == [] {
    } else if s[0].timestamp < x.timestamp {
      if x.timestamp == t {
        NothingNewer(s, t);
      }
      assert At([x] + s, t) == At([x], t) + At(s, t) by { AtDistributes([x], s, t); }
    } else {
      InsertAfterEqualTimestamps(s[1..], x, t);
      assert [s[0]] + Insert(s[1..], x) == Insert(s, x);
      AtDistributes([s[0]], Insert(s[1..], x), t);
      AtDistributes([s[0]], s[1..], t);
      assert [s[0]] + s[1..] == s;
    }
  }

  lemma {:induction false} NothingNewer(s: seq<Activity>, t: int)
    requires Descending(s) && (s != [] ==> s[0].timestamp < t)
    ensures At(s, t) == []
  {
    if s != [] {
      assert Descending(s[1..]) && (s[1..] != [] ==> s[1..][0].timestamp <= s[0].timestamp);
      NothingNewer(s[1..], t);
    }
  }

  /** The sort is stable: activities with equal timestamps keep their merged order. */
  lemma {:induction false} NewestFirstIsStable(s: seq<Activity>, t: int)
    ensures At(NewestFirst(s), t) == At(s, t)
  {
    if s != [] {
      var init := s[..|s| - 1];
      NewestFirstIsStable(init, t);
      NewestFirstSorts(init);
      InsertAfterEqualTimestamps(NewestFirst(init), s[|s| - 1], t);
      assert s == init + [s[|s| - 1]];
      AtDistributes(init, [s[|s| - 1]], t);
    }
  }

  /** Insert places `x` at position `j` when everything before is at least as new and everything after is older. */
  lemma {:induction false} InsertSplits(s: seq<Activity>, x: Activity, j: nat)
    requires j <= |s|
    requires forall k :: 0 <= k < j ==> s[k].timestamp >= x.timestamp
    requires forall k :: j <= k < |s| ==> s[k].timestamp < x.timestamp
    ensures |Insert(s, x)| == |s| + 1 && Insert(s, x)[j] == x
    ensures forall k :: 0 <= k < j ==> Insert(s, x)[k] == s[k]
    ensures forall k :: j < k <= |s| ==> Insert(s, x)[k] == s[k - 1]
  {
    if j > 0 {
      var t := s[1..];
      assert Insert(s, x) == [s[0]] + Insert(t, x);
      InsertSplits(t, x, j - 1);
    }
  }

  /** The list after one step of the sort: element i moved into the newest-first prefix before it. */
  function Inserted(s: seq<Activity>, i: nat): seq<Activity>
    requires i < |s|
  {
    Insert(s[..i], s[i]) + s[i + 1..]
  }

  /** One step of the sort extends the sorted prefix by the next element of the input. */
  lemma SortStep(init: seq<Activity>, i: nat, cur: seq<Activity>)
    requires i < |init| == |cur| && cur == NewestFirst(init[..i]) + init[i..]
    ensures Descending(cur[..i])
    ensures Inserted(cur, i) == NewestFirst(init[..i + 1]) + init[i + 1..]
  {
    var sorted := NewestFirst(init[..i]);
    var rest := init[i..];
    NewestFirstDescends(init[..i]);
    NewestFirstPermutes(init[..i]);
    assert cur[..i] == sorted;
    assert cur[i] == rest[0] == init[i];
    assert cur[i + 1..] == rest[1..] == init[i + 1..];
    var p := init[..i + 1];
    assert p[..|p| - 1] == init[..i] && p[|p| - 1] == init[i];
    assert NewestFirst(p) == Insert(sorted, init[i]);
  }

  lemma InsertedPointwise(cur: seq<Activity>, i: nat, a: array<Activity>)
    requires i < |cur| == a.Length && Descending(cur[..i])
    requires forall k :: 0 <= k <= i ==> a[k] == Insert(cur[..i], cur[i])[k]
    requires forall k :: i < k < a.Length ==> a[k] == cur[k]
    ensures a[..] == Inserted(cur, i)
  {
    assert forall k :: 0 <= k < a.Length ==> a[..][k] == Inserted(cur, i)[k];
  }

  /** The in-place sort of the merged list: an insertion sort, stable because it never moves past an equal timestamp. */
  method SortNewestFirst(a: array<Activity>)
    modifies a
    ensures a[..] == NewestFirst(old(a[..]))
  {
    ghost var init := a[..];
    var i := 0;
    while i < a.Length
      invariant 0 <= i <= a.Length
      invariant a[..] == NewestFirst(init[..i]) + init[i..]
    {
      ghost var cur := a[..];
      SortStep(init, i, cur);
      InsertAt(a, i, cur);
      InsertedPointwise(cur, i, a);
      i := i + 1;
    }
    assert init[..a.Length] == init;
  }

  /** Moves a[i] left past every strictly older element of the newest-first prefix a[..i]. */
  method InsertAt(a: array<Activity>, i: nat, ghost s0: seq<Activity>)
    requires i < a.Length && s0 == a[..] && Descending(s0[..i])
    modifies a
    ensures forall k :: 0 <= k <= i ==> a[k] == Insert(s0[..i], s0[i])[k]
    ensures forall k :: i < k < a.Length ==> a[k] == s0[k]
  {
    var x := a[i];
    var j := i;
    while j > 0 && a[j - 1].timestamp < x.timestamp
      invariant 0 <= j <= i
      invariant forall k :: j <= k < i ==> s0[k].timestamp < x.timestamp
    {
      j := j - 1;
    }
    ShiftRight(a, j, i, s0);
    a[j] := x;
    PositionFound(s0, i, j);
  }

  /** Moves a[j..i] one place right, over a[i]. */
  method ShiftRight(a: array<Activity>, j: nat, i: nat, ghost s0: seq<Activity>)
    requires j <= i < a.Length && s0 == a[..]
    modifies a
    ensures forall k :: 0 <= k < a.Length && !(j < k <= i) ==> a[k] == s0[k]
    ensures forall k :: j < k <= i ==> a[k] == s0[k - 1]
  {
    var k := i;
    while k > j
      invariant j <= k <= i
      invariant forall m :: 0 <= m < a.Length && !(k < m <= i) ==> a[m] == s0[m]
      invariant forall m :: k < m <= i ==> a[m] == s0[m - 1]
    {
      a[k] := a[k - 1];
      k := k - 1;
    }
  }

  /** Where the search stops is where Insert puts the element. */
  lemma PositionFound(s0: seq<Activity>, i: nat, j: nat)
    requires i < |s0| && Descending(s0[..i]) && j <= i
    requires j == 0 || s0[j - 1].timestamp >= s0[i].timestamp
    requires forall k :: j <= k < i ==> s0[k].timestamp < s0[i].timestamp
    ensures Insert(s0[..i], s0[i])[j] == s0[i]
    ensures forall k :: 0 <= k < j ==> Insert(s0[..i], s0[i])[k] == s0[k]
    ensures forall k :: j < k <= i ==> Insert(s0[..i], s0[i])[k] == s0[k - 1]
  {
    var s := s0[..i];
    if j > 0 {
      assert forall k :: 0 <= k < j ==> s[k].timestamp >= s[j - 1].timestamp;
    }
    InsertSplits(s, s0[i], j);
  }

  // ---- the three sources ---------------------------------------------

  function Take(s: seq<Activity>, n: nat): (r: seq<Activity>)
    ensures |r| <= n && |r| <= |s| && r == s[..|r|] && (|s| <= n ==> r == s)
  {
    if |s| <= n then s else s[..n]
  }

  /** findRecentByUserIds: the friends' sessions, newest first, at most SourceLimit. */
  function RecentSessions(rows: seq<SessionRow>, friends: seq<nat>): (r: seq<Activity>)
    ensures |r| <= SourceLimit
    ensures forall a :: a in r ==> WellNamed(a) && a.kind == SessionLogged && a.userId in friends
  {
    TakeNewestFrom(SessionActivities(rows, friends), SourceLimit);
    Take(NewestFirst(SessionActivities(rows, friends)), SourceLimit)
  }

  function SessionActivities(rows: seq<SessionRow>, friends: seq<nat>): (r: seq<Activity>)
    ensures forall a :: a in r <==> exists s :: s in rows && s.userId in friends && a == MakeActivity(SessionLogged, s.id, s.userId, s.createdAt)
  {
    if rows == [] then []
    else
      var s := rows[0];
      assert forall x :: x in rows <==> x == s || x in rows[1..];
      (if s.userId in friends then [MakeActivity(SessionLogged, s.id, s.userId, s.createdAt)] else []) + SessionActivities(rows[1..], friends)
  }

  /** findRecentPublicListsByUserIds: the friends' live public lists, newest first, at most SourceLimit. */
  function RecentLists(rows: seq<ListRow>, friends: seq<nat>): (r: seq<Activity>)
    ensures |r| <= SourceLimit
    ensures forall a :: a in r ==> WellNamed(a) && a.kind == ListCreated && a.userId in friends
  {
    TakeNewestFrom(ListActivities(rows, friends), SourceLimit);
    Take(NewestFirst(ListActivities(rows, friends)), SourceLimit)
  }

  function ListActivities(rows: seq<ListRow>, friends: seq<nat>): (r: seq<Activity>)
    ensures forall a :: a in r <==>
      exists l :: l in rows && l.userId in friends && l.isPublic && !l.deleted && a == MakeActivity(ListCreated, l.id, l.userId, l.createdAt)
  {
    if rows == [] then []
    else
      var l := rows[0];
      assert forall x :: x in rows <==> x == l || x in rows[1..];
      (if l.userId in friends && l.isPublic && !l.deleted then [MakeActivity(ListCreated, l.id, l.userId, l.createdAt)] else [])
        + ListActivities(rows[1..], friends)
  }

  /** findRecentFinishedByUserIds: the friends' shelf entries with a finish date, latest first, at most SourceLimit. */
  function RecentFinished(rows: seq<ShelfRow>, friends: seq<nat>): (r: seq<Activity>)
    ensures |r| <= SourceLimit
    ensures forall a :: a in r ==> WellNamed(a) && a.kind == BookFinished && a.userId in friends
  {
    TakeNewestFrom(FinishedActivities(rows, friends), SourceLimit);
    Take(NewestFirst(FinishedActivities(rows, friends)), SourceLimit)
  }

  function FinishedActivities(rows: seq<ShelfRow>, friends: seq<nat>): (r: seq<Activity>)
    ensures forall a :: a in r <==>
      exists b :: b in rows && b.userId in friends && b.finishedAt.Some? && a == MakeActivity(BookFinished, b.id, b.userId, b.finishedAt.value)
  {
    if rows == [] then []
    else
      var b := rows[0];
      assert forall x :: x in rows <==> x == b || x in rows[1..];
      (if b.userId in friends && b.finishedAt.Some? then [MakeActivity(BookFinished, b.id, b.userId, b.finishedAt.value)] else [])
        + FinishedActivities(rows[1..], friends)
  }

  // ---- pages -----------------------------------------------------------

  function Min(a: int, b: int): int { if a < b then a else b }

  /** paginateInMemory with unbounded arithmetic: items [page*size, page*size + size) of the list, and its length. */
  function Paginate(all: seq<Activity>, page: nat, size: nat): (p: Page)
    ensures p.total == |all| && |p.content| <= size
    ensures page * size >= |all| ==> p.content == []
    ensures forall a :: a in p.content ==> a in all
    ensures Descending(all) ==> Descending(p.content)
  {
    var start := page * size;
    if start >= |all| then PageImpl([], page, size, |all|) else PageImpl(all[start..Min(start + size, |all|)], page, size, |all|)
  }

  /** A page inside the feed is the slice of it from page * size, `size` items or up to the end. */
  lemma PageIsTheSlice(all: seq<Activity>, page: nat, size: nat)
    requires page * size < |all|
    ensures Paginate(all, page, size).content == all[page * size..Min(page * size + size, |all|)]
  {
  }

  /**
   * Every activity is on a page: item i is at position i % size of page
   * i / size, a page holding `size` items or the rest of the feed.
   */
  lemma PagesCoverTheFeed(all: seq<Activity>, size: nat, i: nat)
    requires size > 0 && i < |all|
    ensures |Paginate(all, i / size, size).content| == Min(size, |all| - (i / size) * size)
    ensures |Paginate(all, i / size, size).content| > i % size
    ensures Paginate(all, i / size, size).content[i % size] == all[i]
  {
    var q, j := i / size, i % size;
    assert q * size + j == i;
    PageIsTheSlice(all, q, size);
  }

  /**
   * And on no other page: position j of page q holds item q * size + j,
   * whose page is q and position j, so the pages do not overlap.
   */
  lemma PageSlotIsItsItem(all: seq<Activity>, size: nat, q: nat, j: nat)
    requires size > 0 && j < |Paginate(all, q, size).content|
    ensures q * size + j < |all| && Paginate(all, q, size).content[j] == all[q * size + j]
    ensures (q * size + j) / size == q && (q * size + j) % size == j
  {
    assert j < size;
    DivModOfSlot(q * size + j, size, q, j);
  }

  /** Euclidean division recovers the page and the position: i = q * size + j with j < size. */
  lemma DivModOfSlot(i: int, size: int, q: int, j: int)
    requires 0 <= j < size && i == q * size + j
    ensures i / size == q && i % size == j
  {
    var d, m := i / size, i % size;
    assert (d - q) * size == j - m;
    MultipleBound(d - q, size);
  }

  /** A non-zero multiple of size is at least size away from 0. */
  lemma MultipleBound(x: int, size: int)
    requires size > 0
    ensures x >= 1 ==> x * size >= size
    ensures x <= -1 ==> x * size <= -size
  {
  }

  /** Java's 32-bit int arithmetic. */
  function Int32(x: int): int
  {
    (x + 0x8000_0000) % 0x1_0000_0000 - 0x8000_0000
  }

  /**
   * Spring's PageImpl(content, pageable, total): a non-empty page that
   * reaches past the given total reports instead its own end, the offset
   * (page * size, a long that does not wrap here) plus the content's size.
   */
  function PageImpl(content: seq<Activity>, page: nat, size: nat, total: nat): Page
  {
    if content != [] && page * size + size > total then Page(content, page * size + |content|) else Page(content, total)
  }

  /**
   * paginateInMemory as written: `currentPage * pageSize` and
   * `startItem + pageSize` are int products and sums that wrap; a negative
   * start makes subList throw, which is `None` here.
   */
  function PaginateAsWritten(all: seq<Activity>, page: nat, size: nat): Option<Page>
  {
    var start := Int32(page * size);
    if start >= |all| then Some(PageImpl([], page, size, |all|))
    else
      var end := Min(Int32(start + size), |all|);
      if start < 0 || end < start then None else Some(PageImpl(all[start..end], page, size, |all|))
  }

  /**
   * A page number far past the end wraps around to the start of the feed
   * instead of giving an empty page; PageImpl then reports the page's
   * unwrapped end as the total.
   */
  lemma FarPageWrapsAround()
    ensures var all := seq(60, _ => MakeActivity(SessionLogged, 7, 1, 0));
            PaginateAsWritten(all, 85899346, 50) == Some(Page(all[4..54], 4294967350)) &&
            Paginate(all, 85899346, 50) == Page([], 60) && all[4..54] != []
  {
    var all := seq(60, _ => MakeActivity(SessionLogged, 7, 1, 0));
    assert Int32(85899346 * 50) == 4;
    assert Int32(4 + 50) == 54;
    assert |all[4..54]| == 50;
  }

  /** The controller: sizes above MaxPageSize become MaxPageSize; PageRequest.of refuses a negative page or a size below one. */
  function PageRequestFor(page: int, size: int): (r: Option<(nat, nat)>)
    ensures r.Some? <==> page >= 0 && 1 <= size
    ensures r.Some? ==> r.value.0 == page && 1 <= r.value.1 <= MaxPageSize && (size <= MaxPageSize ==> r.value.1 == size)
  {
    var capped := if size > MaxPageSize then MaxPageSize else size;
    if page < 0 || capped < 1 then None else Some((page, capped))
  }

  // ---- the feed --------------------------------------------------------

  /** The merged list before sorting: sessions, then lists, then finished books. */
  function Merged(friends: seq<nat>, sessions: seq<SessionRow>, lists: seq<ListRow>, shelf: seq<ShelfRow>): seq<Activity>
  {
    RecentSessions(sessions, friends) + RecentLists(lists, friends) + RecentFinished(shelf, friends)
  }

  /** What getFriendActivityFeed returns. */
  function Feed(fs: seq<Friendships.Friendship>, sessions: seq<SessionRow>, lists: seq<ListRow>, shelf: seq<ShelfRow>,
                userId: nat, page: nat, size: nat): Page
  {
    var friends := FriendIds(fs, userId);
    if friends == [] then Page([], 0) else Paginate(NewestFirst(Merged(friends, sessions, lists, shelf)), page, size)
  }

  /** getFriendActivityFeed: merge into a list, sort it in place, cut the page out. */
  method FriendActivityFeed(fs: seq<Friendships.Friendship>, sessions: seq<SessionRow>, lists: seq<ListRow>, shelf: seq<ShelfRow>,
                            userId: nat, page: nat, size: nat) returns (p: Page)
    ensures p == Feed(fs, sessions, lists, shelf, userId, page, size)
  {
    var friends := FriendIds(fs, userId);
    if friends == [] {
      return Page([], 0);
    }
    var all := RecentSessions(sessions, friends) + RecentLists(lists, friends) + RecentFinished(shelf, friends);
    var a := new Activity[|all|](k requires 0 <= k < |all| => all[k]);
    assert a[..] == all;
    SortNewestFirst(a);
    p := Paginate(a[..], page, size);
  }

  /** Without live friendships the feed is an empty page with total 0. */
  lemma NoFriendsNoFeed(fs: seq<Friendships.Friendship>, sessions: seq<SessionRow>, lists: seq<ListRow>, shelf: seq<ShelfRow>,
                        userId: nat, page: nat, size: nat)
    requires forall k :: 0 <= k < |fs| ==> !Involves(fs[k], userId)
    ensures Feed(fs, sessions, lists, shelf, userId, page, size) == Page([], 0)
  {
  }

  lemma MergedIsBounded(friends: seq<nat>, sessions: seq<SessionRow>, lists: seq<ListRow>, shelf: seq<ShelfRow>)
    ensures |Merged(friends, sessions, lists, shelf)| <= 3 * SourceLimit
    ensures forall a :: a in Merged(friends, sessions, lists, shelf) ==> WellNamed(a) && a.userId in friends
  {
  }

  /**
   * Every page is newest first and holds at most `size` activities, each
   * named after its kind and by a friend; the total is at most three
   * times SourceLimit.
   */
  lemma FeedIsNewestFirstFromFriends(fs: seq<Friendships.Friendship>, sessions: seq<SessionRow>, lists: seq<ListRow>, shelf: seq<ShelfRow>,
                                     userId: nat, page: nat, size: nat)
    ensures var p := Feed(fs, sessions, lists, shelf, userId, page, size);
            Descending(p.content) && |p.content| <= size && p.total <= 3 * SourceLimit &&
            forall a :: a in p.content ==> WellNamed(a) && exists f :: f in fs && Involves(f, userId) && Other(f, userId) == a.userId
  {
    var friends := FriendIds(fs, userId);
    if friends != [] {
      var m := Merged(friends, sessions, lists, shelf);
      MergedIsBounded(friends, sessions, lists, shelf);
      NewestFirstSorts(m);
      var p := Paginate(NewestFirst(m), page, size);
      forall a | a in p.content
        ensures WellNamed(a) && a.userId in friends
      {
        assert a in multiset(NewestFirst(m));
      }
    }
  }
}
