// FriendshipService over the friend_requests and friendships tables. Rows are
// soft-deleted (`deleted` stands for a non-null deleted_at) and their id is
// their position plus one. The user service is an oracle saying whether the
// addressee exists.
module Friendships {
  import opened Wrappers
  import opened Enums

  datatype FriendRequest = FriendRequest(requesterId: nat, addresseeId: nat, status: FriendRequestStatus, deleted: bool)

  /** An accepted friendship, stored once per pair. */
  datatype Friendship = Friendship(userId: nat, friendId: nat, deleted: bool)

  datatype FriendError =
    | SelfRequest
    | UserNotFound(userId: nat)
    | DuplicateFriendship
    | AlreadyRequestedYou
    | DuplicateRequest
    | RequestNotFound(requestId: nat)
    | Forbidden(message: string)
    | NotPending
    | FriendshipNotFound
  {
    /** The messages the service puts in its exceptions, where it writes them out. */
    function Message(): string
    {
      match this
      case SelfRequest => "Cannot send friend request to yourself"
      case AlreadyRequestedYou => "This user has already sent you a friend request. Check your incoming requests."
      case Forbidden(message) => message
      case NotPending => "Friend request is not in PENDING status"
      case _ => ""
    }
  }

  datatype Result<T> = Ok(value: T) | Err(error: FriendError)

  /** getFriendshipStatus: the relation between a user and a target, with the row id behind it. */
  datatype Relation = Friends(friendshipId: nat) | PendingSent(sentId: nat) | PendingReceived(receivedId: nat) | NoRelation

  predicate SamePair(a1: nat, b1: nat, a2: nat, b2: nat)
  {
    (a1 == a2 && b1 == b2) || (a1 == b2 && b1 == a2)
  }

  /** A live request between the two users, in either direction (findExistingRequestBetweenUsers). */
  predicate RequestLinks(r: FriendRequest, a: nat, b: nat)
  {
    !r.deleted && SamePair(r.requesterId, r.addresseeId, a, b)
  }

  /** A live pending request from `a` to `b` (findPendingRequest). */
  predicate PendingFrom(r: FriendRequest, a: nat, b: nat)
  {
    !r.deleted && r.requesterId == a && r.addresseeId == b && r.status == Pending
  }

  /** A live friendship between the two users, stored in either order (findBetweenUsers). */
  predicate FriendshipLinks(f: Friendship, a: nat, b: nat)
  {
    !f.deleted && SamePair(f.userId, f.friendId, a, b)
  }

  /** The first position from k on whose element satisfies p: what an Optional query hands back. */
  function FirstFrom<T>(s: seq<T>, p: T -> bool, k: nat): (r: Option<nat>)
    decreases |s| - k
    ensures r.Some? ==> k <= r.value < |s| && p(s[r.value]) && forall j :: k <= j < r.value ==> !p(s[j])
    ensures r.None? ==> forall j :: k <= j < |s| ==> !p(s[j])
  {
    if k >= |s| then None
    else if p(s[k]) then Some(k)
    else FirstFrom(s, p, k + 1)
  }

  function First<T>(s: seq<T>, p: T -> bool): Option<nat>
  {
    FirstFrom(s, p, 0)
  }

  predicate HasFriendship(fs: seq<Friendship>, a: nat, b: nat)
  {
    exists j :: 0 <= j < |fs| && FriendshipLinks(fs[j], a, b)
  }

  predicate HasPending(rs: seq<FriendRequest>, a: nat, b: nat)
  {
    exists i :: 0 <= i < |rs| && PendingFrom(rs[i], a, b)
  }

  /** createFriendship: the pair stored in ascending order. */
  function CreateFriendship(a: nat, b: nat): (f: Friendship)
    ensures f.userId <= f.friendId && SamePair(f.userId, f.friendId, a, b) && !f.deleted
  {
    if a <= b then Friendship(a, b, false) else Friendship(b, a, false)
  }

  // The invariants the service keeps over both tables.

  predicate WellFormed(rs: seq<FriendRequest>, fs: seq<Friendship>)
  {
    (forall i :: 0 <= i < |rs| ==> rs[i].requesterId != rs[i].addresseeId) &&
    (forall j :: 0 <= j < |fs| ==> fs[j].userId < fs[j].friendId)
  }

  /** No two live requests join the same pair of users. */
  predicate OneRequestPerPair(rs: seq<FriendRequest>)
  {
    forall i, k :: 0 <= i < |rs| && 0 <= k < |rs| && i != k && !rs[i].deleted ==>
      !RequestLinks(rs[k], rs[i].requesterId, rs[i].addresseeId)
  }

  /** No two live friendships join the same pair of users. */
  predicate OneFriendshipPerPair(fs: seq<Friendship>)
  {
    forall j, k :: 0 <= j < |fs| && 0 <= k < |fs| && j != k && !fs[j].deleted ==>
      !FriendshipLinks(fs[k], fs[j].userId, fs[j].friendId)
  }

  /** A pending request is only ever live between users who are not friends. */
  predicate PendingOnlyBetweenStrangers(rs: seq<FriendRequest>, fs: seq<Friendship>)
  {
    forall i, j :: 0 <= i < |rs| && 0 <= j < |fs| && !rs[i].deleted && rs[i].status == Pending ==>
      !FriendshipLinks(fs[j], rs[i].requesterId, rs[i].addresseeId)
  }

  predicate Consistent(rs: seq<FriendRequest>, fs: seq<Friendship>)
  {
    WellFormed(rs, fs) && OneRequestPerPair(rs) && OneFriendshipPerPair(fs) && PendingOnlyBetweenStrangers(rs, fs)
  }

  /**
   * getFriendshipStatus: friends first, then a request the user sent, then
   * one the user received, and otherwise none.
   */
  function RelationOf(rs: seq<FriendRequest>, fs: seq<Friendship>, u: nat, t: nat): (s: Relation)
    ensures s.Friends? <==> HasFriendship(fs, u, t)
    ensures s.PendingSent? <==> !HasFriendship(fs, u, t) && HasPending(rs, u, t)
    ensures s.PendingReceived? <==> !HasFriendship(fs, u, t) && !HasPending(rs, u, t) && HasPending(rs, t, u)
    ensures s.Friends? ==> 1 <= s.friendshipId <= |fs| && FriendshipLinks(fs[s.friendshipId - 1], u, t)
    ensures s.PendingSent? ==> 1 <= s.sentId <= |rs| && PendingFrom(rs[s.sentId - 1], u, t)
    ensures s.PendingReceived? ==> 1 <= s.receivedId <= |rs| && PendingFrom(rs[s.receivedId - 1], t, u)
  {
    match First(fs, f => FriendshipLinks(f, u, t))
    case Some(j) => Friends(j + 1)
    case None =>
      match First(rs, r => PendingFrom(r, u, t))
      case Some(i) => PendingSent(i + 1)
      case None =>
        match First(rs, r => PendingFrom(r, t, u))
        case Some(i) => PendingReceived(i + 1)
        case None => NoRelation
  }

  /**
   * acceptFriendRequest as written: the request is looked up by id alone,
   * so a cancelled or already accepted request is found and accepted again.
   */
  function AcceptAsWritten(rs: seq<FriendRequest>, fs: seq<Friendship>, addresseeId: nat, requestId: nat)
    : (out: (Result<nat>, seq<FriendRequest>, seq<Friendship>))
    ensures out.0.Ok? <==> 1 <= requestId <= |rs| && rs[requestId - 1].addresseeId == addresseeId && rs[requestId - 1].status == Pending
  {
    if requestId == 0 || requestId > |rs| then (Result<nat>.Err(RequestNotFound(requestId)), rs, fs)
    else
      var q := rs[requestId - 1];
      if q.addresseeId != addresseeId then (Result<nat>.Err(Forbidden("You are not authorized to accept this friend request")), rs, fs)
      else if q.status != Pending then (Result<nat>.Err(NotPending), rs, fs)
      else
        var fs' := fs + [CreateFriendship(q.requesterId, q.addresseeId)];
        (Ok(|fs'|), rs[requestId - 1 := q.(deleted := true)], fs')
  }

  /** User 1 sends a request and cancels it; user 2 asks back; user 2 can still accept the cancelled one. */
  lemma CancelledRequestCanBeAccepted()
    ensures var rs := [FriendRequest(1, 2, Pending, true), FriendRequest(2, 1, Pending, false)];
            var out := AcceptAsWritten(rs, [], 2, 1);
            Consistent(rs, []) && out.0 == Ok(1) && out.2 == [Friendship(1, 2, false)] &&
            !Consistent(out.1, out.2)
  {
    var rs := [FriendRequest(1, 2, Pending, true), FriendRequest(2, 1, Pending, false)];
    var out := AcceptAsWritten(rs, [], 2, 1);
    assert !PendingOnlyBetweenStrangers(out.1, out.2) by {
      assert !out.1[1].deleted && out.1[1].status == Pending;
      assert FriendshipLinks(out.2[0], out.1[1].requesterId, out.1[1].addresseeId);
    }
  }

  /**
   * The checks sendFriendRequest makes before it writes anything, in its
   * order: the refusal, or None when the request may be sent. The live
   * request it inspects is the only one between the pair, so a pending
   * request in either direction is always seen.
   */
  function SendRefusal(rs: seq<FriendRequest>, fs: seq<Friendship>, a: nat, b: nat, known: bool): (e: Option<FriendError>)
    requires OneRequestPerPair(rs)
    ensures a == b ==> e == Some(SelfRequest)
    ensures a != b && !known ==> e == Some(UserNotFound(b))
    ensures a != b && known && HasFriendship(fs, a, b) ==> e == Some(DuplicateFriendship)
    ensures a != b && known && !HasFriendship(fs, a, b) && HasPending(rs, b, a) ==> e == Some(AlreadyRequestedYou)
    ensures a != b && known && !HasFriendship(fs, a, b) && HasPending(rs, a, b) ==> e == Some(DuplicateRequest)
    ensures e.None? <==> a != b && known && !HasFriendship(fs, a, b) && !HasPending(rs, a, b) && !HasPending(rs, b, a)
  {
    if a == b then Some(SelfRequest)
    else if !known then Some(UserNotFound(b))
    else if First(fs, f => FriendshipLinks(f, a, b)).Some? then Some(DuplicateFriendship)
    else
      NoPendingWithoutLiveRequest(rs, a, b);
      match First(rs, q => RequestLinks(q, a, b))
      case None => None
      case Some(i) =>
        OnlyLiveRequest(rs, i, a, b);
        var q := rs[i];
        if q.requesterId == b && q.addresseeId == a && q.status == Pending then Some(AlreadyRequestedYou)
        else if q.requesterId == a && q.addresseeId == b && q.status == Pending then Some(DuplicateRequest)
        else None
  }

  class FriendshipService {
    var requests: seq<FriendRequest>
    var friendships: seq<Friendship>

    ghost predicate Valid()
      reads this
    {
      Consistent(requests, friendships)
    }

    constructor()
      ensures Valid() && requests == [] && friendships == []
    {
      requests := [];
      friendships := [];
    }

    function Status(userId: nat, targetUserId: nat): Relation
      reads this
    {
      RelationOf(requests, friendships, userId, targetUserId)
    }

    /** sendFriendRequest; the new request's id on success. */
    method Send(requesterId: nat, addresseeId: nat, addresseeKnown: bool) returns (r: Result<nat>)
      requires Valid()
      modifies this
      ensures Valid() && friendships == old(friendships)
      ensures var e := SendRefusal(old(requests), friendships, requesterId, addresseeId, addresseeKnown);
              (e.Some? ==> r == Err(e.value) && requests == old(requests)) && (e.None? ==> r.Ok?)
      ensures r.Ok? ==>
                |requests| == |old(requests)| + 1 && r.value == |requests| &&
                requests[|requests| - 1] == FriendRequest(requesterId, addresseeId, Pending, false) &&
                (forall i :: 0 <= i < |old(requests)| ==>
                   requests[i] == if RequestLinks(old(requests)[i], requesterId, addresseeId) then old(requests)[i].(deleted := true)
                                  else old(requests)[i]) &&
                Status(requesterId, addresseeId) == PendingSent(r.value) &&
                Status(addresseeId, requesterId) == PendingReceived(r.value)
    {
      var refusal := SendRefusal(requests, friendships, requesterId, addresseeId, addresseeKnown);
      if refusal.Some? {
        return Err(refusal.value);
      }
      var existing := First(requests, q => RequestLinks(q, requesterId, addresseeId));
      if existing.Some? {
        var e := requests[existing.value];
        OnlyLiveRequest(requests, existing.value, requesterId, addresseeId);
        if e.status == Rejected {
          requests := requests[existing.value := e.(deleted := true)];
        }
      }
      ghost var before := requests;
      requests := requests + [FriendRequest(requesterId, addresseeId, Pending, false)];
      r := Ok(|requests|);
      SentIsConsistent(old(requests), before, friendships, requesterId, addresseeId, requests);
    }

    /** acceptFriendRequest, with the lookup restricted to live requests; the new friendship's id on success. */
    method Accept(addresseeId: nat, requestId: nat) returns (r: Result<nat>)
      requires Valid()
      modifies this
      ensures Valid()
      ensures (requestId == 0 || requestId > |old(requests)| || old(requests)[requestId - 1].deleted) ==>
                r == Err(RequestNotFound(requestId))
      ensures 1 <= requestId <= |old(requests)| && !old(requests)[requestId - 1].deleted ==>
                var q := old(requests)[requestId - 1];
                (q.addresseeId != addresseeId ==> r == Err(Forbidden("You are not authorized to accept this friend request"))) &&
                (q.addresseeId == addresseeId && q.status != Pending ==> r == Err(NotPending)) &&
                (q.addresseeId == addresseeId && q.status == Pending ==>
                   r == Ok(|friendships|) &&
                   friendships == old(friendships) + [CreateFriendship(q.requesterId, addresseeId)] &&
                   requests == old(requests)[requestId - 1 := q.(deleted := true)] &&
                   Status(q.requesterId, addresseeId).Friends? && Status(addresseeId, q.requesterId).Friends?)
      ensures r.Err? ==> requests == old(requests) && friendships == old(friendships)
    {
      if requestId == 0 || requestId > |requests| || requests[requestId - 1].deleted {
        return Err(RequestNotFound(requestId));
      }
      var q := requests[requestId - 1];
      if q.addresseeId != addresseeId {
        return Err(Forbidden("You are not authorized to accept this friend request"));
      }
      if q.status != Pending {
        return Err(NotPending);
      }
      ghost var rs0, fs0 := requests, friendships;
      friendships := friendships + [CreateFriendship(q.requesterId, q.addresseeId)];
      requests := requests[requestId - 1 := q.(deleted := true)];
      r := Ok(|friendships|);
      AcceptedIsConsistent(rs0, fs0, requestId - 1, requests, friendships);
      assert FriendshipLinks(friendships[|friendships| - 1], q.requesterId, addresseeId);
      assert FriendshipLinks(friendships[|friendships| - 1], addresseeId, q.requesterId);
    }

    /** rejectFriendRequest: the request stays, marked REJECTED. */
    method Reject(addresseeId: nat, requestId: nat) returns (r: Result<()>)
      requires Valid()
      modifies this
      ensures Valid() && friendships == old(friendships)
      ensures (requestId == 0 || requestId > |old(requests)|) ==> r == Err(RequestNotFound(requestId))
      ensures 1 <= requestId <= |old(requests)| ==>
                var q := old(requests)[requestId - 1];
                (q.addresseeId != addresseeId ==> r == Err(Forbidden("You are not authorized to reject this friend request"))) &&
                (q.addresseeId == addresseeId && q.status != Pending ==> r == Err(NotPending)) &&
                (q.addresseeId == addresseeId && q.status == Pending ==>
                   r.Ok? && requests == old(requests)[requestId - 1 := q.(status := Rejected)])
      ensures r.Err? ==> requests == old(requests)
    {
      if requestId == 0 || requestId > |requests| {
        return Err(RequestNotFound(requestId));
      }
      var q := requests[requestId - 1];
      if q.addresseeId != addresseeId {
        return Err(Forbidden("You are not authorized to reject this friend request"));
      }
      if q.status != Pending {
        return Err(NotPending);
      }
      requests := requests[requestId - 1 := q.(status := Rejected)];
      r := Ok(());
    }

    /** cancelFriendRequest: the requester withdraws a pending request. */
    method Cancel(requesterId: nat, requestId: nat) returns (r: Result<()>)
      requires Valid()
      modifies this
      ensures Valid() && friendships == old(friendships)
      ensures (requestId == 0 || requestId > |old(requests)|) ==> r == Err(RequestNotFound(requestId))
      ensures 1 <= requestId <= |old(requests)| ==>
                var q := old(requests)[requestId - 1];
                (q.requesterId != requesterId ==> r == Err(Forbidden("You are not authorized to cancel this friend request"))) &&
                (q.requesterId == requesterId && q.status != Pending ==> r == Err(NotPending)) &&
                (q.requesterId == requesterId && q.status == Pending ==>
                   r.Ok? && requests == old(requests)[requestId - 1 := q.(deleted := true)] &&
                   (!q.deleted ==> Status(requesterId, q.addresseeId) == NoRelation))
      ensures r.Err? ==> requests == old(requests)
    {
      if requestId == 0 || requestId > |requests| {
        return Err(RequestNotFound(requestId));
      }
      var q := requests[requestId - 1];
      if q.requesterId != requesterId {
        return Err(Forbidden("You are not authorized to cancel this friend request"));
      }
      if q.status != Pending {
        return Err(NotPending);
      }
      ghost var rs0 := requests;
      requests := requests[requestId - 1 := q.(deleted := true)];
      r := Ok(());
      if !q.deleted {
        CancelledLeavesNoRelation(rs0, friendships, requestId - 1, requests);
      }
    }

    /** unfriend: soft-delete the friendship between the two users. */
    method Unfriend(userId: nat, friendId: nat) returns (r: Result<()>)
      requires Valid()
      modifies this
      ensures Valid() && requests == old(requests)
      ensures !HasFriendship(old(friendships), userId, friendId) ==> r == Err(FriendshipNotFound) && friendships == old(friendships)
      ensures HasFriendship(old(friendships), userId, friendId) ==>
                r.Ok? && |friendships| == |old(friendships)| &&
                (forall j :: 0 <= j < |friendships| ==>
                   friendships[j] == if FriendshipLinks(old(friendships)[j], userId, friendId) then old(friendships)[j].(deleted := true)
                                     else old(friendships)[j]) &&
                !Status(userId, friendId).Friends?
    {
      var found := First(friendships, f => FriendshipLinks(f, userId, friendId));
      if found.None? {
        return Err(FriendshipNotFound);
      }
      ghost var fs0 := friendships;
      friendships := friendships[found.value := friendships[found.value].(deleted := true)];
      r := Ok(());
      UnfriendedIsConsistent(requests, fs0, found.value, userId, friendId, friendships);
    }
  }

  // Lemmas behind the invariant.

  /** A pending request in either direction is a live request between the pair. */
  lemma NoPendingWithoutLiveRequest(rs: seq<FriendRequest>, a: nat, b: nat)
    ensures HasPending(rs, a, b) ==> exists i :: 0 <= i < |rs| && RequestLinks(rs[i], a, b)
    ensures HasPending(rs, b, a) ==> exists i :: 0 <= i < |rs| && RequestLinks(rs[i], a, b)
  {
  }

  /** By the invariant, the live request found between a pair is the only one. */
  lemma OnlyLiveRequest(rs: seq<FriendRequest>, i: nat, a: nat, b: nat)
    requires OneRequestPerPair(rs) && i < |rs| && RequestLinks(rs[i], a, b)
    ensures forall k :: 0 <= k < |rs| && k != i ==> !RequestLinks(rs[k], a, b)
    ensures HasPending(rs, a, b) ==> PendingFrom(rs[i], a, b)
    ensures HasPending(rs, b, a) ==> PendingFrom(rs[i], b, a)
  {
    forall k | 0 <= k < |rs| && k != i
      ensures !RequestLinks(rs[k], a, b)
    {
      assert !RequestLinks(rs[k], rs[i].requesterId, rs[i].addresseeId);
    }
  }

  /** A request sent where no friendship and no pending request join the pair keeps the invariant. */
  lemma SentIsConsistent(rs0: seq<FriendRequest>, rs1: seq<FriendRequest>, fs: seq<Friendship>, a: nat, b: nat, rs2: seq<FriendRequest>)
    requires Consistent(rs0, fs) && a != b && !HasFriendship(fs, a, b)
    requires |rs1| == |rs0|
    requires forall i :: 0 <= i < |rs0| ==> rs1[i] == if RequestLinks(rs0[i], a, b) then rs0[i].(deleted := true) else rs0[i]
    requires rs2 == rs1 + [FriendRequest(a, b, Pending, false)]
    ensures Consistent(rs2, fs)
    ensures RelationOf(rs2, fs, a, b) == PendingSent(|rs2|) && RelationOf(rs2, fs, b, a) == PendingReceived(|rs2|)
  {
    var n := |rs0|;
    forall i | 0 <= i < n
      ensures !RequestLinks(rs2[i], a, b)
    {
    }
    forall i, k | 0 <= i < |rs2| && 0 <= k < |rs2| && i != k && !rs2[i].deleted
      ensures !RequestLinks(rs2[k], rs2[i].requesterId, rs2[i].addresseeId)
    {
      if i == n {
      } else if k == n {
        assert !RequestLinks(rs2[i], a, b);
      } else {
        assert !rs0[i].deleted && rs2[i] == rs0[i];
      }
    }
    forall i, j | 0 <= i < |rs2| && 0 <= j < |fs| && !rs2[i].deleted && rs2[i].status == Pending
      ensures !FriendshipLinks(fs[j], rs2[i].requesterId, rs2[i].addresseeId)
    {
      if i < n {
        assert rs2[i] == rs0[i];
      }
    }
    assert PendingFrom(rs2[n], a, b);
    assert !HasPending(rs2, b, a);
  }

  /** Accepting a live pending request keeps the invariant. */
  lemma AcceptedIsConsistent(rs0: seq<FriendRequest>, fs0: seq<Friendship>, i: nat, rs1: seq<FriendRequest>, fs1: seq<Friendship>)
    requires Consistent(rs0, fs0) && i < |rs0| && !rs0[i].deleted && rs0[i].status == Pending
    requires rs1 == rs0[i := rs0[i].(deleted := true)]
    requires fs1 == fs0 + [CreateFriendship(rs0[i].requesterId, rs0[i].addresseeId)]
    ensures Consistent(rs1, fs1)
  {
    var a, b := rs0[i].requesterId, rs0[i].addresseeId;
    var n := |fs0|;
    forall k | 0 <= k < |rs1| && !rs1[k].deleted
      ensures !RequestLinks(rs1[k], a, b)
    {
      assert k != i && rs1[k] == rs0[k];
      assert !RequestLinks(rs0[k], rs0[i].requesterId, rs0[i].addresseeId);
    }
    forall j, k | 0 <= j < |fs1| && 0 <= k < |fs1| && j != k && !fs1[j].deleted
      ensures !FriendshipLinks(fs1[k], fs1[j].userId, fs1[j].friendId)
    {
      if j == n {
        assert !FriendshipLinks(fs0[k], a, b);
      } else if k == n {
        assert !FriendshipLinks(fs0[j], a, b);
      }
    }
    forall k, j | 0 <= k < |rs1| && 0 <= j < |fs1| && !rs1[k].deleted && rs1[k].status == Pending
      ensures !FriendshipLinks(fs1[j], rs1[k].requesterId, rs1[k].addresseeId)
    {
      assert k != i && rs1[k] == rs0[k];
      if j == n {
        assert !RequestLinks(rs1[k], a, b);
      }
    }
  }

  /** Once its only live request is withdrawn, a pair of strangers has no relation at all. */
  lemma CancelledLeavesNoRelation(rs0: seq<FriendRequest>, fs: seq<Friendship>, i: nat, rs1: seq<FriendRequest>)
    requires Consistent(rs0, fs) && i < |rs0| && !rs0[i].deleted && rs0[i].status == Pending
    requires rs1 == rs0[i := rs0[i].(deleted := true)]
    ensures Consistent(rs1, fs)
    ensures RelationOf(rs1, fs, rs0[i].requesterId, rs0[i].addresseeId) == NoRelation
  {
    var a, b := rs0[i].requesterId, rs0[i].addresseeId;
    OnlyLiveRequest(rs0, i, a, b);
    forall j | 0 <= j < |fs|
      ensures !FriendshipLinks(fs[j], a, b)
    {
    }
    forall k | 0 <= k < |rs1|
      ensures !PendingFrom(rs1[k], a, b) && !PendingFrom(rs1[k], b, a)
    {
      if k != i {
        assert !RequestLinks(rs0[k], a, b);
      }
    }
  }

  /** Removing the friendship between a pair keeps the invariant and leaves them no longer friends. */
  lemma UnfriendedIsConsistent(rs: seq<FriendRequest>, fs0: seq<Friendship>, j: nat, u: nat, t: nat, fs1: seq<Friendship>)
    requires Consistent(rs, fs0) && j < |fs0| && FriendshipLinks(fs0[j], u, t)
    requires forall k :: 0 <= k < j ==> !FriendshipLinks(fs0[k], u, t)
    requires fs1 == fs0[j := fs0[j].(deleted := true)]
    ensures Consistent(rs, fs1)
    ensures |fs1| == |fs0| &&
            forall k :: 0 <= k < |fs1| ==> fs1[k] == if FriendshipLinks(fs0[k], u, t) then fs0[k].(deleted := true) else fs0[k]
    ensures !HasFriendship(fs1, u, t)
  {
    forall k | 0 <= k < |fs0| && k != j
      ensures !FriendshipLinks(fs0[k], u, t)
    {
      assert !FriendshipLinks(fs0[k], fs0[j].userId, fs0[j].friendId);
    }
  }
}
