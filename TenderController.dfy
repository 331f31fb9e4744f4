/** The tender handlers. Each takes the store, the request's parameters, and the values the
    environment supplies: a fresh row id, the id of the history row a trigger inserts, the time. */
module TenderController {
  import opened Outcomes
  import opened Seqs
  import opened Paging
  import opened Ordering
  import opened Models
  import opened Tables
  import opened Versioning
  import opened Authorization
  import opened Database

  /** The JSON body of tender creation; a field the JSON leaves out holds "" or NilId. */
  datatype CreateTenderRequest = CreateTenderRequest(
    name: string,
    description: string,
    serviceType: string,
    organizationId: Id,
    creatorUsername: string)

  /** `binding:"required"` on every field: none may hold its zero value. */
  predicate CreateTenderRequestComplete(q: CreateTenderRequest) {
    q.name != "" && q.description != "" && q.serviceType != "" &&
    q.organizationId != NilId && q.creatorUsername != ""
  }

  /** The checks tender creation makes before it inserts: the organization exists, the creator
      exists and is responsible for it, and the service type is one of the three. */
  predicate CreateTenderAdmissible(db: Store, q: CreateTenderRequest)
    reads db
  {
    && CreateTenderRequestComplete(q)
    && OrganizationExists(db.organizations, q.organizationId)
    && EmployeeByName(db.employees, q.creatorUsername).Some?
    && IsMember(db.memberships, EmployeeByName(db.employees, q.creatorUsername).value.id, q.organizationId)
    && ParseServiceType(q.serviceType).Some?
  }

  /** The JSON body of a tender edit; a field the JSON leaves out holds "". */
  datatype EditTenderRequest = EditTenderRequest(name: string, description: string, serviceType: string, status: string)

  /** The columns `Updates(req)` sets: exactly the non-empty fields of the edit body. */
  function EditTenderWrite(q: EditTenderRequest): (w: TenderWrite)
    ensures NoZeroTenderColumns(w) && w.version.None?
    ensures (w.name.Some? <==> q.name != "") && (w.name.Some? ==> w.name.value == q.name)
    ensures (w.description.Some? <==> q.description != "") && (w.description.Some? ==> w.description.value == q.description)
    ensures (w.serviceType.Some? <==> q.serviceType != "") && (w.serviceType.Some? ==> w.serviceType.value == q.serviceType)
    ensures (w.status.Some? <==> q.status != "") && (w.status.Some? ==> w.status.value == q.status)
    ensures IsEmptyTenderWrite(w) <==> q == EditTenderRequest("", "", "", "")
  {
    TenderWrite(Written(q.name), Written(q.description), Written(q.serviceType), Written(q.status), None)
  }

  /** A row GET /tenders shows: published, and of one of the requested service types when any is given. */
  predicate Listed(t: Tender, serviceTypes: seq<string>) {
    t.status == Published && (serviceTypes == [] || ServiceTypeName(t.serviceType) in serviceTypes)
  }

  /** GET /tenders: a page of the published tenders, filtered by service type and ordered by name.
      A requested type that is not a label of the enumeration makes the store reject the query. */
  method GetTenders(db: Store, limit: IntParam, offset: IntParam, serviceTypes: seq<string>) returns (r: Result<seq<Tender>>)
    ensures r == Err(InvalidArgument) <==> ReadWindow(limit, offset).Err?
    ensures r == Err(StorageFailure) <==>
      ReadWindow(limit, offset).Ok? && exists s :: s in serviceTypes && ParseServiceType(s).None?
    ensures r.Ok? ==> |r.value| <= ReadLimit(limit).value
    ensures r.Ok? ==> forall t :: t in r.value ==> t in db.tenders && Listed(t, serviceTypes)
    ensures r.Ok? ==> SortedBy(r.value, TenderName)
    ensures r.Ok? ==>
      r.value == Page(SortBy(Filter(db.tenders, (t: Tender) => Listed(t, serviceTypes)), TenderName),
                      ReadLimit(limit).value, ReadOffset(offset).value)
  {
    var window := ReadWindow(limit, offset);
    if window.Err? {
      return Err(window.error);
    }
    if exists s :: s in serviceTypes && ParseServiceType(s).None? {
      return Err(StorageFailure);
    }
    var listed := Filter(db.tenders, (t: Tender) => Listed(t, serviceTypes));
    SortedPage(listed, TenderName, window.value.0, window.value.1);
    r := Ok(Page(SortBy(listed, TenderName), window.value.0, window.value.1));
  }

  /** POST /tenders/new: the body binds and is complete (400), the organization exists (400), the
      creator exists (401) and is responsible for it (403), the service type is valid (400); the new
      tender is Created, at version 1, and owned by the requested organization. */
  method CreateTender(db: Store, body: Option<CreateTenderRequest>, newId: Id, now: Time) returns (r: Result<Tender>)
    requires db.Valid()
    modifies db`tenders
    ensures db.Valid()
    ensures body.None? || !CreateTenderRequestComplete(body.value) ==> r == Err(InvalidArgument)
    ensures body.Some? && CreateTenderRequestComplete(body.value) ==>
      var q := body.value;
      var user := EmployeeByName(db.employees, q.creatorUsername);
      && (!OrganizationExists(db.organizations, q.organizationId) ==> r == Err(InvalidArgument))
      && (OrganizationExists(db.organizations, q.organizationId) && user.None? ==> r == Err(Unauthenticated))
      && (OrganizationExists(db.organizations, q.organizationId) && user.Some? ==>
            && (!IsMember(db.memberships, user.value.id, q.organizationId) ==> r == Err(Forbidden))
            && (IsMember(db.memberships, user.value.id, q.organizationId) && ParseServiceType(q.serviceType).None?
                ==> r == Err(InvalidArgument)))
    ensures r.Ok? <==>
      body.Some? && CreateTenderAdmissible(db, body.value) &&
      !HasTender(old(db.tenders), newId) && TextFits(body.value.name, body.value.description)
    ensures body.Some? && CreateTenderAdmissible(db, body.value) && !r.Ok? ==> r == Err(StorageFailure)
    ensures r.Ok? ==>
      r.value == Tender(newId, body.value.name, body.value.description, ParseServiceType(body.value.serviceType).value,
                        Created, body.value.organizationId, InitialVersion, now)
    ensures db.tenders == if r.Ok? then old(db.tenders) + [r.value] else old(db.tenders)
  {
    if body.None? || !CreateTenderRequestComplete(body.value) {
      return Err(InvalidArgument);
    }
    var q := body.value;
    if !OrganizationExists(db.organizations, q.organizationId) {
      return Err(InvalidArgument);
    }
    var user := EmployeeByName(db.employees, q.creatorUsername);
    if user.None? {
      return Err(Unauthenticated);
    }
    if !IsMember(db.memberships, user.value.id, q.organizationId) {
      return Err(Forbidden);
    }
    var serviceType := ParseServiceType(q.serviceType);
    if serviceType.None? {
      return Err(InvalidArgument);
    }
    var t := Tender(newId, q.name, q.description, serviceType.value, Created, q.organizationId, InitialVersion, now);
    var ok := db.InsertTender(t);
    if !ok {
      return Err(StorageFailure);
    }
    r := Ok(t);
  }

  /** GET /tenders/my: a page of the tenders of every organization the user is responsible for,
      ordered by name. */
  method GetUserTenders(db: Store, username: string, limit: IntParam, offset: IntParam) returns (r: Result<seq<Tender>>)
    ensures r == Err(InvalidArgument) <==> username == "" || ReadWindow(limit, offset).Err?
    ensures r == Err(Unauthenticated) <==>
      username != "" && ReadWindow(limit, offset).Ok? && EmployeeByName(db.employees, username).None?
    ensures r.Err? ==> r.error in {InvalidArgument, Unauthenticated}
    ensures r.Ok? ==> |r.value| <= ReadLimit(limit).value
    ensures r.Ok? ==> forall t :: t in r.value ==>
      t in db.tenders && IsMember(db.memberships, EmployeeByName(db.employees, username).value.id, t.organizationId)
    ensures r.Ok? ==> SortedBy(r.value, TenderName)
    ensures r.Ok? ==>
      var userId := EmployeeByName(db.employees, username).value.id;
      var ms := db.memberships;
      r.value == Page(SortBy(Filter(db.tenders, (t: Tender) => IsMember(ms, userId, t.organizationId)), TenderName),
                      ReadLimit(limit).value, ReadOffset(offset).value)
  {
    if username == "" {
      return Err(InvalidArgument);
    }
    var window := ReadWindow(limit, offset);
    if window.Err? {
      return Err(window.error);
    }
    var user := EmployeeByName(db.employees, username);
    if user.None? {
      return Err(Unauthenticated);
    }
    var userId := user.value.id;
    var ms := db.memberships;
    var mine := Filter(db.tenders, (t: Tender) => IsMember(ms, userId, t.organizationId));
    SortedPage(mine, TenderName, window.value.0, window.value.1);
    r := Ok(Page(SortBy(mine, TenderName), window.value.0, window.value.1));
  }

  /** GET /tenders/{tenderId}/status: the tender's status, for a responsible of its organization. */
  method GetTenderStatus(db: Store, tenderId: Id, username: string) returns (r: Result<Status>)
    ensures username == "" <==> r == Err(InvalidArgument)
    ensures username != "" ==>
      var g := TenderGate(db.employees, db.memberships, db.tenders, username, tenderId);
      && (g.Err? ==> r == Err(g.error))
      && (g.Ok? ==> r == Ok(db.tenders[g.value.1].status))
    ensures r.Ok? ==> exists t :: t in db.tenders && t.id == tenderId && t.status == r.value
  {
    if username == "" {
      return Err(InvalidArgument);
    }
    var g := TenderGate(db.employees, db.memberships, db.tenders, username, tenderId);
    if g.Err? {
      return Err(g.error);
    }
    r := Ok(db.tenders[g.value.1].status);
  }

  /** PUT /tenders/{tenderId}/status: one versioned UPDATE of the status column. Writing the
      status the tender already has still records a history row and bumps the version. */
  method UpdateTenderStatus(db: Store, tenderId: Id, username: string, status: string, historyId: Id, now: Time)
    returns (r: Result<Tender>)
    requires db.Valid()
    modifies db`tenders, db`tenderHistories
    ensures db.Valid()
    ensures username == "" || status == "" ==> r == Err(InvalidArgument)
    ensures username != "" && status != "" ==>
      var g := TenderGate(old(db.employees), old(db.memberships), old(db.tenders), username, tenderId);
      && (g.Err? ==> r == Err(g.error))
      && (g.Ok? && ParseStatus(status).None? ==> r == Err(InvalidArgument))
      && (g.Ok? && ParseStatus(status).Some? ==>
            var t := old(db.tenders)[g.value.1];
            && r == Ok(t.(status := ParseStatus(status).value, version := t.version + 1))
            && db.tenders == old(db.tenders)[g.value.1 := r.value]
            && db.tenderHistories == old(db.tenderHistories) + [TenderSnapshot(t, historyId, now)])
    ensures r.Err? ==> db.tenders == old(db.tenders) && db.tenderHistories == old(db.tenderHistories)
  {
    if username == "" || status == "" {
      return Err(InvalidArgument);
    }
    var g := TenderGate(db.employees, db.memberships, db.tenders, username, tenderId);
    if g.Err? {
      return Err(g.error);
    }
    var i := g.value.1;
    var newStatus := ParseStatus(status);
    if newStatus.None? {
      return Err(InvalidArgument);
    }
    db.SetTenderStatus(i, newStatus.value, historyId, now);
    r := Ok(db.tenders[i]);
  }

  /** PUT /tenders/{tenderId}/edit: a struct update with the edit body. An empty body issues no
      statement (no history row, same version); a value the store refuses is a server error. */
  method EditTender(db: Store, tenderId: Id, username: string, body: Option<EditTenderRequest>, historyId: Id, now: Time)
    returns (r: Result<Tender>)
    requires db.Valid()
    modifies db`tenders, db`tenderHistories
    ensures db.Valid()
    ensures username == "" ==> r == Err(InvalidArgument)
    ensures username != "" ==>
      var g := TenderGate(old(db.employees), old(db.memberships), old(db.tenders), username, tenderId);
      && (g.Err? ==> r == Err(g.error))
      && (g.Ok? && body.None? ==> r == Err(InvalidArgument))
      && (g.Ok? && body.Some? ==>
            var w := EditTenderWrite(body.value);
            var t := old(db.tenders)[g.value.1];
            && (IsEmptyTenderWrite(w) ==> r == Ok(t))
            && (!IsEmptyTenderWrite(w) && !TenderWriteAccepted(w) ==> r == Err(StorageFailure))
            && (!IsEmptyTenderWrite(w) && TenderWriteAccepted(w) ==>
                  && r == Ok(AssignTender(t, w).value.(version := t.version + 1))
                  && db.tenders == old(db.tenders)[g.value.1 := r.value]
                  && db.tenderHistories == old(db.tenderHistories) + [TenderSnapshot(t, historyId, now)]))
    ensures r.Err? || db.tenderHistories == old(db.tenderHistories) ==>
      db.tenders == old(db.tenders) && db.tenderHistories == old(db.tenderHistories)
  {
    if username == "" {
      return Err(InvalidArgument);
    }
    var g := TenderGate(db.employees, db.memberships, db.tenders, username, tenderId);
    if g.Err? {
      return Err(g.error);
    }
    var i := g.value.1;
    if body.None? {
      return Err(InvalidArgument);
    }
    var ok := db.UpdateTender(i, EditTenderWrite(body.value), historyId, now);
    if !ok {
      return Err(StorageFailure);
    }
    r := Ok(db.tenders[i]);
  }

  /** PUT /tenders/{tenderId}/rollback/{version}: writes back the content of an earlier version as a
      new version. Only versions 1 .. current - 1 have history rows; any other version is 404. */
  method RollbackTender(db: Store, tenderId: Id, username: string, version: IntParam, historyId: Id, now: Time)
    returns (r: Result<Tender>)
    requires db.Valid()
    modifies db`tenders, db`tenderHistories
    ensures db.Valid()
    ensures username == "" ==> r == Err(InvalidArgument)
    ensures username != "" ==>
      var g := TenderGate(old(db.employees), old(db.memberships), old(db.tenders), username, tenderId);
      && (g.Err? ==> r == Err(g.error))
      && (g.Ok? && ReadVersion(version).Err? ==> r == Err(InvalidArgument))
      && (g.Ok? && ReadVersion(version).Ok? ==>
            var t := old(db.tenders)[g.value.1];
            var v := ReadVersion(version).value;
            var h := FindTenderHistory(old(db.tenderHistories), tenderId, v);
            && (r == Err(NotFound) <==> v >= t.version)
            && (h.None? ==> r == Err(NotFound))
            && (h.Some? ==>
                  && r.Ok?
                  && TenderContentOf(r.value) == TenderHistoryContent(h.value)
                  && r.value == t.(name := h.value.name, description := h.value.description,
                                   serviceType := h.value.serviceType, status := h.value.status,
                                   version := t.version + 1)
                  && db.tenders == old(db.tenders)[g.value.1 := r.value]
                  && db.tenderHistories == old(db.tenderHistories) + [TenderSnapshot(t, historyId, now)]))
    ensures r.Err? ==> db.tenders == old(db.tenders) && db.tenderHistories == old(db.tenderHistories)
  {
    if username == "" {
      return Err(InvalidArgument);
    }
    var g := TenderGate(db.employees, db.memberships, db.tenders, username, tenderId);
    if g.Err? {
      return Err(g.error);
    }
    var i := g.value.1;
    var v := ReadVersion(version);
    if v.Err? {
      return Err(v.error);
    }
    TenderHistoryVersions(db.tenders, db.tenderHistories, i, v.value);
    var h := FindTenderHistory(db.tenderHistories, tenderId, v.value);
    if h.None? {
      return Err(NotFound);
    }
    db.RestoreTender(i, h.value, historyId, now);
    r := Ok(db.tenders[i]);
  }
}
