/** Who may act on a tender or a bid: the membership check repeated across the handlers, and the
    author / co-member rule of the bid handlers. */
module Authorization {
  import opened Outcomes
  import opened Models
  import opened Tables

  /** The scalar subquery `(SELECT organization_id FROM organization_responsibles WHERE user_id = a)`:
      its value when `a` has exactly one membership row. With no row it is NULL, and with several
      rows it is an error; either way the comparison around it matches nothing (None). */
  function SoleOrganization(ms: seq<Membership>, authorId: Id): (r: Option<Id>)
    ensures r.Some? <==> |MembershipsOf(ms, authorId)| == 1
    ensures r.Some? ==> IsMember(ms, authorId, r.value)
    ensures r.Some? ==> forall m :: m in ms && m.userId == authorId ==> m.organizationId == r.value
  {
    var rows := MembershipsOf(ms, authorId);
    if |rows| == 1 then
      assert rows[0] in rows;
      assert forall m :: m in rows ==> m == rows[0];
      Some(rows[0].organizationId)
    else None
  }

  /** The bid authorization branch: a User-authored bid is open to its author only; an
      Organization-authored bid to its author id and to members of the author's sole organization. */
  predicate BidAccess(ms: seq<Membership>, b: Bid, userId: Id) {
    match b.authorType
    case AuthorOrganization =>
      b.authorId == userId ||
      (SoleOrganization(ms, b.authorId).Some? && IsMember(ms, userId, SoleOrganization(ms, b.authorId).value))
    case AuthorUser => b.authorId == userId
  }

  /** The bid rule in terms of memberships: permitted iff the user is the author, or the bid is
      Organization-authored, its author has exactly one membership, and the user is a member of
      that membership's organization. */
  lemma BidAccessIff(ms: seq<Membership>, b: Bid, userId: Id)
    ensures BidAccess(ms, b, userId) <==>
      userId == b.authorId ||
      (b.authorType == AuthorOrganization &&
       exists m :: m in ms && m.userId == b.authorId && |MembershipsOf(ms, b.authorId)| == 1 &&
                   IsMember(ms, userId, m.organizationId))
  {
    if b.authorType == AuthorOrganization && userId != b.authorId {
      var so := SoleOrganization(ms, b.authorId);
      if BidAccess(ms, b, userId) {
        var m :| m in ms && m.userId == b.authorId && m.organizationId == so.value;
      }
    }
  }

  /** Co-members are symmetric: when the author's only membership is in organization o, every
      member of o may act on the Organization-authored bid, and nobody else but the author may. */
  lemma CoMemberAccess(ms: seq<Membership>, b: Bid, o: Id, userId: Id)
    requires b.authorType == AuthorOrganization
    requires IsMember(ms, b.authorId, o) && |MembershipsOf(ms, b.authorId)| == 1
    ensures BidAccess(ms, b, userId) <==> userId == b.authorId || IsMember(ms, userId, o)
  {
    var m :| m in ms && m.userId == b.authorId && m.organizationId == o;
    assert SoleOrganization(ms, b.authorId) == Some(o);
  }

  /** An Organization-authored bid whose author has no membership, or several, is open to its
      author id only. */
  lemma AmbiguousAuthorOnlyAuthor(ms: seq<Membership>, b: Bid, userId: Id)
    requires |MembershipsOf(ms, b.authorId)| != 1
    ensures BidAccess(ms, b, userId) <==> userId == b.authorId
  {
  }

  /** The common prefix of the tender handlers: the user named `username` must exist (401), the
      tender must exist (404), and the user must be responsible for the tender's organization (403).
      On success: the user and the tender's row position. */
  function TenderGate(es: seq<Employee>, ms: seq<Membership>, ts: seq<Tender>, username: string, tenderId: Id): (r: Result<(Employee, nat)>)
    ensures r == Err(Unauthenticated) <==> EmployeeByName(es, username).None?
    ensures r == Err(NotFound) <==> EmployeeByName(es, username).Some? && FindTender(ts, tenderId).None?
    ensures r.Err? ==> r.error in {Unauthenticated, NotFound, Forbidden}
    ensures r.Ok? ==> r.value.1 < |ts| && ts[r.value.1].id == tenderId
    ensures r.Ok? ==> r.value.0 in es && r.value.0.username == username
    ensures r.Ok? ==> IsMember(ms, r.value.0.id, ts[r.value.1].organizationId)
    ensures r == Err(Forbidden) <==>
      EmployeeByName(es, username).Some? && FindTender(ts, tenderId).Some? &&
      !IsMember(ms, EmployeeByName(es, username).value.id, ts[FindTender(ts, tenderId).value].organizationId)
  {
    match EmployeeByName(es, username)
    case None => Err(Unauthenticated)
    case Some(e) =>
      match FindTender(ts, tenderId)
      case None => Err(NotFound)
      case Some(i) =>
        if IsMember(ms, e.id, ts[i].organizationId) then Ok((e, i)) else Err(Forbidden)
  }

  /** The common prefix of the bid handlers: user (401), bid (404), then the bid rule (403). */
  function BidGate(es: seq<Employee>, ms: seq<Membership>, bs: seq<Bid>, username: string, bidId: Id): (r: Result<(Employee, nat)>)
    ensures r == Err(Unauthenticated) <==> EmployeeByName(es, username).None?
    ensures r == Err(NotFound) <==> EmployeeByName(es, username).Some? && FindBid(bs, bidId).None?
    ensures r.Err? ==> r.error in {Unauthenticated, NotFound, Forbidden}
    ensures r.Ok? ==> r.value.1 < |bs| && bs[r.value.1].id == bidId
    ensures r.Ok? ==> r.value.0 in es && r.value.0.username == username
    ensures r.Ok? ==> BidAccess(ms, bs[r.value.1], r.value.0.id)
    ensures r == Err(Forbidden) <==>
      EmployeeByName(es, username).Some? && FindBid(bs, bidId).Some? &&
      !BidAccess(ms, bs[FindBid(bs, bidId).value], EmployeeByName(es, username).value.id)
  {
    match EmployeeByName(es, username)
    case None => Err(Unauthenticated)
    case Some(e) =>
      match FindBid(bs, bidId)
      case None => Err(NotFound)
      case Some(i) =>
        if BidAccess(ms, bs[i], e.id) then Ok((e, i)) else Err(Forbidden)
  }

  /** The common prefix of the decision and feedback handlers: the user exists (401), the bid
      exists (404) and is published (400), and the bid's tender exists (404). On success: the
      user and the bid's and the tender's row positions. */
  function PublishedBidGate(es: seq<Employee>, ts: seq<Tender>, bs: seq<Bid>, username: string, bidId: Id): (r: Result<(Employee, nat, nat)>)
    ensures r == Err(Unauthenticated) <==> EmployeeByName(es, username).None?
    ensures r == Err(InvalidArgument) <==>
      EmployeeByName(es, username).Some? && FindBid(bs, bidId).Some? && bs[FindBid(bs, bidId).value].status != BidPublished
    ensures r == Err(NotFound) <==>
      EmployeeByName(es, username).Some? &&
      (FindBid(bs, bidId).None? ||
       (bs[FindBid(bs, bidId).value].status == BidPublished && FindTender(ts, bs[FindBid(bs, bidId).value].tenderId).None?))
    ensures r.Err? ==> r.error in {Unauthenticated, InvalidArgument, NotFound}
    ensures r.Ok? ==>
      && r.value.0 in es && r.value.0.username == username
      && r.value.1 < |bs| && bs[r.value.1].id == bidId && bs[r.value.1].status == BidPublished
      && r.value.2 < |ts| && ts[r.value.2].id == bs[r.value.1].tenderId
  {
    match EmployeeByName(es, username)
    case None => Err(Unauthenticated)
    case Some(user) =>
      match FindBid(bs, bidId)
      case None => Err(NotFound)
      case Some(bi) =>
        if bs[bi].status != BidPublished then Err(InvalidArgument)
        else
          match FindTender(ts, bs[bi].tenderId)
          case None => Err(NotFound)
          case Some(ti) => Ok((user, bi, ti))
  }
}
