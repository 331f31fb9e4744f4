/** The bid handlers. Each takes the store, the request's parameters, and the values the
    environment supplies: a fresh row id, the id of the history row a trigger inserts, the time. */
module BidController {
  import opened Outcomes
  import opened Seqs
  import opened Paging
  import opened Ordering
  import opened Models
  import opened Tables
  import opened Versioning
  import opened Authorization
  import opened Database

  /** The JSON body of bid creation; a field the JSON leaves out holds "" or NilId. */
  datatype CreateBidRequest = CreateBidRequest(
    name: string,
    description: string,
    tenderId: Id,
    authorType: string,
    authorId: Id)

  /** `binding:"required"` on every field: none may hold its zero value. */
  predicate CreateBidRequestComplete(q: CreateBidRequest) {
    q.name != "" && q.description != "" && q.tenderId != NilId && q.authorType != "" && q.authorId != NilId
  }

  /** The checks bid creation makes before it inserts: the author exists, the tender exists and
      is published, and an author acting for an organization is responsible for some organization. */
  predicate CreateBidAdmissible(db: Store, q: CreateBidRequest)
    reads db
  {
    && CreateBidRequestComplete(q)
    && EmployeeById(db.employees, q.authorId).Some?
    && FindTender(db.tenders, q.tenderId).Some?
    && db.tenders[FindTender(db.tenders, q.tenderId).value].status == Published
    && (q.authorType == AuthorTypeName(AuthorOrganization) ==> HasAnyMembership(db.memberships, q.authorId))
  }

  /** The JSON body of a bid edit; a field the JSON leaves out holds "". */
  datatype EditBidRequest = EditBidRequest(name: string, description: string, status: string)

  /** The status values the edit handler lets through: the tender status labels, not the bid ones. */
  predicate EditStatusAllowed(s: string) {
    s == "" || s == "Created" || s == "Published" || s == "Closed"
  }

  /** The columns `Updates(req)` sets: exactly the non-empty fields of the edit body. */
  function EditBidWrite(q: EditBidRequest): (w: BidWrite)
    ensures NoZeroBidColumns(w) && w.version.None?
    ensures IsEmptyBidWrite(w) <==> q == EditBidRequest("", "", "")
    ensures (w.name.Some? <==> q.name != "") && (w.name.Some? ==> w.name.value == q.name)
    ensures (w.description.Some? <==> q.description != "") && (w.description.Some? ==> w.description.value == q.description)
    ensures (w.status.Some? <==> q.status != "") && (w.status.Some? ==> w.status.value == q.status)
  {
    BidWrite(Written(q.name), Written(q.description), Written(q.status), None)
  }

  /** Of the statuses the edit handler lets through, the store takes Created and Published and
      refuses Closed, which is not a bid status; Canceled never reaches the store. */
  lemma EditStatusReachesStore(s: string)
    requires s != ""
    ensures EditStatusAllowed(s) && ParseBidStatus(s).Some? <==> s == "Created" || s == "Published"
    ensures EditStatusAllowed(s) && ParseBidStatus(s).None? <==> s == "Closed"
    ensures !EditStatusAllowed(s) && ParseBidStatus(s).Some? <==> s == "Canceled"
  {
  }

  /** POST /bids/new: the body binds and is complete (400), the author exists (401), the tender
      exists (404) and is published (403), an Organization author is responsible for some
      organization (403), and the store takes the author type (500); the new bid is Created, at
      version 1, on the requested tender. */
  method CreateBid(db: Store, body: Option<CreateBidRequest>, newId: Id, now: Time) returns (r: Result<Bid>)
    requires db.Valid()
    modifies db`bids
    ensures db.Valid()
    ensures body.None? || !CreateBidRequestComplete(body.value) ==> r == Err(InvalidArgument)
    ensures body.Some? && CreateBidRequestComplete(body.value) ==>
      var q := body.value;
      var tender := FindTender(db.tenders, q.tenderId);
      && (EmployeeById(db.employees, q.authorId).None? ==> r == Err(Unauthenticated))
      && (EmployeeById(db.employees, q.authorId).Some? ==>
            && (tender.None? ==> r == Err(NotFound))
            && (tender.Some? && db.tenders[tender.value].status != Published ==> r == Err(Forbidden))
            && (tender.Some? && db.tenders[tender.value].status == Published &&
                q.authorType == "Organization" && !HasAnyMembership(db.memberships, q.authorId)
                ==> r == Err(Forbidden)))
    ensures r.Ok? <==>
      body.Some? && CreateBidAdmissible(db, body.value) && ParseAuthorType(body.value.authorType).Some? &&
      !HasBid(old(db.bids), newId) && TextFits(body.value.name, body.value.description)
    ensures body.Some? && CreateBidAdmissible(db, body.value) && !r.Ok? ==> r == Err(StorageFailure)
    ensures r.Ok? ==>
      r.value == Bid(newId, body.value.name, body.value.description, BidCreated, body.value.tenderId,
                     ParseAuthorType(body.value.authorType).value, body.value.authorId, InitialVersion, now)
    ensures db.bids == if r.Ok? then old(db.bids) + [r.value] else old(db.bids)
  {
    if body.None? || !CreateBidRequestComplete(body.value) {
      return Err(InvalidArgument);
    }
    var q := body.value;
    if EmployeeById(db.employees, q.authorId).None? {
      return Err(Unauthenticated);
    }
    var tender := FindTender(db.tenders, q.tenderId);
    if tender.None? {
      return Err(NotFound);
    }
    if db.tenders[tender.value].status != Published {
      return Err(Forbidden);
    }
    if q.authorType == "Organization" && !HasAnyMembership(db.memberships, q.authorId) {
      return Err(Forbidden);
    }
    var authorType := ParseAuthorType(q.authorType);
    if authorType.None? {
      return Err(StorageFailure);
    }
    var b := Bid(newId, q.name, q.description, BidCreated, q.tenderId, authorType.value, q.authorId, InitialVersion, now);
    var ok := db.InsertBid(b);
    if !ok {
      return Err(StorageFailure);
    }
    r := Ok(b);
  }

  /** GET /bids/my: a page of the bids the user authored, ordered by name. */
  method GetUserBids(db: Store, username: string, limit: IntParam, offset: IntParam) returns (r: Result<seq<Bid>>)
    ensures r == Err(InvalidArgument) <==> username == "" || ReadWindow(limit, offset).Err?
    ensures r == Err(Unauthenticated) <==>
      username != "" && ReadWindow(limit, offset).Ok? && EmployeeByName(db.employees, username).None?
    ensures r.Err? ==> r.error in {InvalidArgument, Unauthenticated}
    ensures r.Ok? ==> |r.value| <= ReadLimit(limit).value
    ensures r.Ok? ==> forall b :: b in r.value ==>
      b in db.bids && b.authorId == EmployeeByName(db.employees, username).value.id
    ensures r.Ok? ==> SortedBy(r.value, BidName)
    ensures r.Ok? ==>
      var userId := EmployeeByName(db.employees, username).value.id;
      r.value == Page(SortBy(Filter(db.bids, (b: Bid) => b.authorId == userId), BidName),
                      ReadLimit(limit).value, ReadOffset(offset).value)
  {
    if username == "" {
      return Err(InvalidArgument);
    }
    var window := ReadWindow(limit, offset);
    if window.Err? {
      return Err(window.error);
    }
    var user := EmployeeByName(db.employees, username);
    if user.None? {
      return Err(Unauthenticated);
    }
    var userId := user.value.id;
    var mine := Filter(db.bids, (b: Bid) => b.authorId == userId);
    SortedPage(mine, BidName, window.value.0, window.value.1);
    r := Ok(Page(SortBy(mine, BidName), window.value.0, window.value.1));
  }

  /** GET /bids/{tenderId}/list: for a responsible of the tender's organization, a page of the
      tender's published bids, ordered by name. */
  method GetTenderBids(db: Store, tenderId: Id, username: string, limit: IntParam, offset: IntParam) returns (r: Result<seq<Bid>>)
    ensures r == Err(InvalidArgument) <==> username == "" || ReadWindow(limit, offset).Err?
    ensures username != "" && ReadWindow(limit, offset).Ok? ==>
      var g := TenderGate(db.employees, db.memberships, db.tenders, username, tenderId);
      && (g.Err? ==> r == Err(g.error))
      && (g.Ok? ==> r.Ok?)
    ensures r.Ok? ==> |r.value| <= ReadLimit(limit).value
    ensures r.Ok? ==> forall b :: b in r.value ==> b in db.bids && b.tenderId == tenderId && b.status == BidPublished
    ensures r.Ok? ==> SortedBy(r.value, BidName)
    ensures r.Ok? ==>
      r.value == Page(SortBy(Filter(db.bids, (b: Bid) => b.tenderId == tenderId && b.status == BidPublished), BidName),
                      ReadLimit(limit).value, ReadOffset(offset).value)
  {
    if username == "" {
      return Err(InvalidArgument);
    }
    var window := ReadWindow(limit, offset);
    if window.Err? {
      return Err(window.error);
    }
    var g := TenderGate(db.employees, db.memberships, db.tenders, username, tenderId);
    if g.Err? {
      return Err(g.error);
    }
    var published := Filter(db.bids, (b: Bid) => b.tenderId == tenderId && b.status == BidPublished);
    SortedPage(published, BidName, window.value.0, window.value.1);
    r := Ok(Page(SortBy(published, BidName), window.value.0, window.value.1));
  }

  /** GET /bids/{bidId}/status: the bid's status, for whoever the bid rule lets in. This handler
      has no check for an empty username: that goes straight to the employee lookup. */
  method GetBidStatus(db: Store, bidId: Id, username: string) returns (r: Result<BidStatus>)
    ensures var g := BidGate(db.employees, db.memberships, db.bids, username, bidId);
      && (g.Err? ==> r == Err(g.error))
      && (g.Ok? ==> r == Ok(db.bids[g.value.1].status))
    ensures r.Ok? ==> exists b :: b in db.bids && b.id == bidId && b.status == r.value
  {
    var g := BidGate(db.employees, db.memberships, db.bids, username, bidId);
    if g.Err? {
      return Err(g.error);
    }
    r := Ok(db.bids[g.value.1].status);
  }

  /** PUT /bids/{bidId}/status: one versioned UPDATE of the status column, to Created, Published
      or Canceled. */
  method UpdateBidStatus(db: Store, bidId: Id, username: string, status: string, historyId: Id, now: Time)
    returns (r: Result<Bid>)
    requires db.Valid()
    modifies db`bids, db`bidHistories
    ensures db.Valid()
    ensures username == "" || status == "" ==> r == Err(InvalidArgument)
    ensures username != "" && status != "" ==>
      var g := BidGate(old(db.employees), old(db.memberships), old(db.bids), username, bidId);
      && (g.Err? ==> r == Err(g.error))
      && (g.Ok? && ParseBidStatus(status).None? ==> r == Err(InvalidArgument))
      && (g.Ok? && ParseBidStatus(status).Some? ==>
            var b := old(db.bids)[g.value.1];
            && r == Ok(b.(status := ParseBidStatus(status).value, version := b.version + 1))
            && db.bids == old(db.bids)[g.value.1 := r.value]
            && db.bidHistories == old(db.bidHistories) + [BidSnapshot(b, historyId, now)])
    ensures r.Err? ==> db.bids == old(db.bids) && db.bidHistories == old(db.bidHistories)
  {
    if username == "" || status == "" {
      return Err(InvalidArgument);
    }
    var g := BidGate(db.employees, db.memberships, db.bids, username, bidId);
    if g.Err? {
      return Err(g.error);
    }
    var i := g.value.1;
    var newStatus := ParseBidStatus(status);
    if newStatus.None? {
      return Err(InvalidArgument);
    }
    db.SetBidStatus(i, newStatus.value, historyId, now);
    r := Ok(db.bids[i]);
  }

  /** PUT /bids/{bidId}/edit: a struct update with the edit body, after the handler's own status
      check. An empty body issues no statement; a value the store refuses is a server error. */
  method EditBid(db: Store, bidId: Id, username: string, body: Option<EditBidRequest>, historyId: Id, now: Time)
    returns (r: Result<Bid>)
    requires db.Valid()
    modifies db`bids, db`bidHistories
    ensures db.Valid()
    ensures username == "" ==> r == Err(InvalidArgument)
    ensures username != "" ==>
      var g := BidGate(old(db.employees), old(db.memberships), old(db.bids), username, bidId);
      && (g.Err? ==> r == Err(g.error))
      && (g.Ok? && (body.None? || !EditStatusAllowed(body.value.status)) ==> r == Err(InvalidArgument))
      && (g.Ok? && body.Some? && EditStatusAllowed(body.value.status) ==>
            var w := EditBidWrite(body.value);
            var b := old(db.bids)[g.value.1];
            && (IsEmptyBidWrite(w) ==> r == Ok(b))
            && (!IsEmptyBidWrite(w) && !BidWriteAccepted(w) ==> r == Err(StorageFailure))
            && (!IsEmptyBidWrite(w) && BidWriteAccepted(w) ==>
                  && r == Ok(AssignBid(b, w).value.(version := b.version + 1))
                  && db.bids == old(db.bids)[g.value.1 := r.value]
                  && db.bidHistories == old(db.bidHistories) + [BidSnapshot(b, historyId, now)]))
    ensures r.Err? || db.bidHistories == old(db.bidHistories) ==>
      db.bids == old(db.bids) && db.bidHistories == old(db.bidHistories)
  {
    if username == "" {
      return Err(InvalidArgument);
    }
    var g := BidGate(db.employees, db.memberships, db.bids, username, bidId);
    if g.Err? {
      return Err(g.error);
    }
    var i := g.value.1;
    if body.None? || !EditStatusAllowed(body.value.status) {
      return Err(InvalidArgument);
    }
    var ok := db.UpdateBid(i, EditBidWrite(body.value), historyId, now);
    if !ok {
      return Err(StorageFailure);
    }
    r := Ok(db.bids[i]);
  }

  /** PUT /bids/{bidId}/rollback/{version}: writes back the content of an earlier version as a new
      version. A missing version parameter is rejected before any lookup. */
  method RollbackBid(db: Store, bidId: Id, username: string, version: IntParam, historyId: Id, now: Time)
    returns (r: Result<Bid>)
    requires db.Valid()
    modifies db`bids, db`bidHistories
    ensures db.Valid()
    ensures username == "" || version.Absent? ==> r == Err(InvalidArgument)
    ensures username != "" && !version.Absent? ==>
      var g := BidGate(old(db.employees), old(db.memberships), old(db.bids), username, bidId);
      && (g.Err? ==> r == Err(g.error))
      && (g.Ok? && ReadVersion(version).Err? ==> r == Err(InvalidArgument))
      && (g.Ok? && ReadVersion(version).Ok? ==>
            var b := old(db.bids)[g.value.1];
            var v := ReadVersion(version).value;
            var h := FindBidHistory(old(db.bidHistories), bidId, v);
            && (r == Err(NotFound) <==> v >= b.version)
            && (h.None? ==> r == Err(NotFound))
            && (h.Some? ==>
                  && r.Ok?
                  && BidContentOf(r.value) == BidHistoryContent(h.value)
                  && r.value == b.(name := h.value.name, description := h.value.description,
                                   status := h.value.status, version := b.version + 1)
                  && db.bids == old(db.bids)[g.value.1 := r.value]
                  && db.bidHistories == old(db.bidHistories) + [BidSnapshot(b, historyId, now)]))
    ensures r.Err? ==> db.bids == old(db.bids) && db.bidHistories == old(db.bidHistories)
  {
    if username == "" || version.Absent? {
      return Err(InvalidArgument);
    }
    var g := BidGate(db.employees, db.memberships, db.bids, username, bidId);
    if g.Err? {
      return Err(g.error);
    }
    var i := g.value.1;
    var v := ReadVersion(version);
    if v.Err? {
      return Err(v.error);
    }
    BidHistoryVersions(db.bids, db.bidHistories, i, v.value);
    var h := FindBidHistory(db.bidHistories, bidId, v.value);
    if h.None? {
      return Err(NotFound);
    }
    db.RestoreBid(i, h.value, historyId, now);
    r := Ok(db.bids[i]);
  }
}
