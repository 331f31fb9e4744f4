/** The record shapes and the closed enumerations of the store (the models package and the
    Postgres enum types created at start-up). */
module Models {
  import opened Outcomes

  /** A UUID primary or foreign key. */
  type Id = nat
  /** The all-zero UUID, which `binding:"required"` refuses. */
  const NilId: Id := 0
  /** A timestamp (time.Now() / NOW()), supplied by the caller. */
  type Time = nat

  /** Column widths: varchar(100) names, varchar(500) descriptions, varchar(1000) review texts. */
  const MaxNameLength: nat := 100
  const MaxDescriptionLength: nat := 500
  const MaxReviewLength: nat := 1000
  /** The `default:1` of the version columns. */
  const InitialVersion: int := 1

  // ---------------------------------------------------------------- enumerations

  datatype ServiceType = Construction | Delivery | Manufacture
  datatype Status = Created | Published | Closed
  datatype AuthorType = AuthorOrganization | AuthorUser
  datatype BidStatus = BidCreated | BidPublished | BidCanceled
  datatype DecisionType = Approved | Rejected
  datatype OrganizationType = IE | LLC | JSC

  function ServiceTypeName(t: ServiceType): string {
    match t
    case Construction => "Construction"
    case Delivery => "Delivery"
    case Manufacture => "Manufacture"
  }

  /** The cast of a text value to the `service_type` enum; None is the cast error. */
  function ParseServiceType(s: string): (r: Option<ServiceType>)
    ensures r.Some? <==> s == "Construction" || s == "Delivery" || s == "Manufacture"
    ensures r.Some? ==> ServiceTypeName(r.value) == s
  {
    if s == "Construction" then Some(Construction)
    else if s == "Delivery" then Some(Delivery)
    else if s == "Manufacture" then Some(Manufacture)
    else None
  }

  function StatusName(t: Status): string {
    match t
    case Created => "Created"
    case Published => "Published"
    case Closed => "Closed"
  }

  /** The cast of a text value to the tender `status` enum. */
  function ParseStatus(s: string): (r: Option<Status>)
    ensures r.Some? <==> s == "Created" || s == "Published" || s == "Closed"
    ensures r.Some? ==> StatusName(r.value) == s
  {
    if s == "Created" then Some(Created)
    else if s == "Published" then Some(Published)
    else if s == "Closed" then Some(Closed)
    else None
  }

  function BidStatusName(t: BidStatus): string {
    match t
    case BidCreated => "Created"
    case BidPublished => "Published"
    case BidCanceled => "Canceled"
  }

  /** The cast of a text value to the `bid_status` enum; "Closed" is not one of its labels. */
  function ParseBidStatus(s: string): (r: Option<BidStatus>)
    ensures r.Some? <==> s == "Created" || s == "Published" || s == "Canceled"
    ensures r.Some? ==> BidStatusName(r.value) == s
  {
    if s == "Created" then Some(BidCreated)
    else if s == "Published" then Some(BidPublished)
    else if s == "Canceled" then Some(BidCanceled)
    else None
  }

  function AuthorTypeName(t: AuthorType): string {
    match t
    case AuthorOrganization => "Organization"
    case AuthorUser => "User"
  }

  /** The cast of a text value to the `author_type` enum. */
  function ParseAuthorType(s: string): (r: Option<AuthorType>)
    ensures r.Some? <==> s == "Organization" || s == "User"
    ensures r.Some? ==> AuthorTypeName(r.value) == s
  {
    if s == "Organization" then Some(AuthorOrganization)
    else if s == "User" then Some(AuthorUser)
    else None
  }

  function DecisionTypeName(t: DecisionType): string {
    match t
    case Approved => "Approved"
    case Rejected => "Rejected"
  }

  /** The decision values SubmitDecision accepts. */
  function ParseDecisionType(s: string): (r: Option<DecisionType>)
    ensures r.Some? <==> s == "Approved" || s == "Rejected"
    ensures r.Some? ==> DecisionTypeName(r.value) == s
  {
    if s == "Approved" then Some(Approved)
    else if s == "Rejected" then Some(Rejected)
    else None
  }

  /** Every enumeration label reads back as itself. */
  lemma EnumRoundTrips(st: ServiceType, s: Status, b: BidStatus, a: AuthorType, d: DecisionType)
    ensures ParseServiceType(ServiceTypeName(st)) == Some(st)
    ensures ParseStatus(StatusName(s)) == Some(s)
    ensures ParseBidStatus(BidStatusName(b)) == Some(b)
    ensures ParseAuthorType(AuthorTypeName(a)) == Some(a)
    ensures ParseDecisionType(DecisionTypeName(d)) == Some(d)
  {
  }

  // ---------------------------------------------------------------- records

  datatype Employee = Employee(id: Id, username: string, firstName: string, lastName: string)

  datatype Organization = Organization(id: Id, name: string, description: string, orgType: Option<OrganizationType>)

  /** One row of organization_responsibles: `userId` is responsible for `organizationId`. */
  datatype Membership = Membership(id: Id, organizationId: Id, userId: Id)

  datatype Tender = Tender(
    id: Id,
    name: string,
    description: string,
    serviceType: ServiceType,
    status: Status,
    organizationId: Id,
    version: int,
    createdAt: Time)

  /** The column tender listings are ordered by. */
  function TenderName(t: Tender): string { t.name }

  datatype TenderHistory = TenderHistory(
    id: Id,
    tenderId: Id,
    name: string,
    description: string,
    serviceType: ServiceType,
    status: Status,
    version: int,
    createdAt: Time)

  datatype Bid = Bid(
    id: Id,
    name: string,
    description: string,
    status: BidStatus,
    tenderId: Id,
    authorType: AuthorType,
    authorId: Id,
    version: int,
    createdAt: Time)

  /** The column bid listings are ordered by. */
  function BidName(b: Bid): string { b.name }

  datatype BidHistory = BidHistory(
    id: Id,
    bidId: Id,
    name: string,
    description: string,
    status: BidStatus,
    version: int,
    createdAt: Time)

  datatype Decision = Decision(id: Id, bidId: Id, authorId: Id, decisionType: DecisionType, createdAt: Time)

  datatype Review = Review(id: Id, bidId: Id, bidAuthorId: Id, description: string, createdAt: Time)

  /** A name and a description fit their varchar columns. */
  predicate TextFits(name: string, description: string) {
    |name| <= MaxNameLength && |description| <= MaxDescriptionLength
  }
}
