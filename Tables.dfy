/** Single-row lookups (`Where(...).First(...)`) and counts over the stored tables. */
module Tables {
  import opened Outcomes
  import opened Seqs
  import opened Models

  /** `WHERE username = ?` on employees. */
  function EmployeeByName(es: seq<Employee>, username: string): (r: Option<Employee>)
    ensures r.Some? ==> r.value in es && r.value.username == username
    ensures r.None? <==> forall e :: e in es ==> e.username != username
  {
    match IndexOf(es, (e: Employee) => e.username == username)
    case Some(i) => Some(es[i])
    case None => None
  }

  /** `WHERE id = ?` on employees. Bid creation is the one handler that names its user by id (the
      body's authorId) rather than by username, so the two lookups key on different columns. */
  function EmployeeById(es: seq<Employee>, id: Id): (r: Option<Employee>)
    ensures r.Some? ==> r.value in es && r.value.id == id
    ensures r.None? <==> forall e :: e in es ==> e.id != id
  {
    match IndexOf(es, (e: Employee) => e.id == id)
    case Some(i) => Some(es[i])
    case None => None
  }

  /** Whether `WHERE id = ?` on organizations finds a row. */
  predicate OrganizationExists(os: seq<Organization>, id: Id) {
    exists o :: o in os && o.id == id
  }

  /** The position of the tender row with this id. */
  function FindTender(ts: seq<Tender>, id: Id): (r: Option<nat>)
    ensures r.Some? ==> r.value < |ts| && ts[r.value].id == id
    ensures r.None? <==> forall k :: 0 <= k < |ts| ==> ts[k].id != id
  {
    IndexOf(ts, (t: Tender) => t.id == id)
  }

  /** The position of the bid row with this id. */
  function FindBid(bs: seq<Bid>, id: Id): (r: Option<nat>)
    ensures r.Some? ==> r.value < |bs| && bs[r.value].id == id
    ensures r.None? <==> forall k :: 0 <= k < |bs| ==> bs[k].id != id
  {
    IndexOf(bs, (b: Bid) => b.id == id)
  }

  /** `WHERE user_id = ? AND organization_id = ?` on organization_responsibles finds a row. */
  predicate IsMember(ms: seq<Membership>, userId: Id, organizationId: Id) {
    exists m :: m in ms && m.userId == userId && m.organizationId == organizationId
  }

  /** `WHERE user_id = ?` on organization_responsibles finds a row. */
  predicate HasAnyMembership(ms: seq<Membership>, userId: Id) {
    exists m :: m in ms && m.userId == userId
  }

  /** The membership rows of one user, in table order. */
  function MembershipsOf(ms: seq<Membership>, userId: Id): (r: seq<Membership>)
    ensures forall m :: m in r <==> m in ms && m.userId == userId
    ensures r == [] <==> !HasAnyMembership(ms, userId)
  {
    var r := Filter(ms, (m: Membership) => m.userId == userId);
    if r == [] then r else assert r[0] in r; r
  }

  /** `COUNT(*) WHERE organization_id = ?` on organization_responsibles. */
  function MemberCount(ms: seq<Membership>, organizationId: Id): (n: nat)
    ensures n <= |ms|
    ensures ms == [] ==> n == 0
  {
    |Filter(ms, (m: Membership) => m.organizationId == organizationId)|
  }

  /** Each membership row of the organization adds one to its count; other rows add nothing. */
  lemma MemberCountSnoc(ms: seq<Membership>, m: Membership, organizationId: Id)
    ensures MemberCount(ms + [m], organizationId) ==
      MemberCount(ms, organizationId) + if m.organizationId == organizationId then 1 else 0
  {
    FilterSnoc(ms, m, (m: Membership) => m.organizationId == organizationId);
  }

  /** A responsible member makes the organization's member count positive. */
  lemma MemberCountPositive(ms: seq<Membership>, userId: Id, organizationId: Id)
    requires IsMember(ms, userId, organizationId)
    ensures MemberCount(ms, organizationId) >= 1
  {
    var m :| m in ms && m.userId == userId && m.organizationId == organizationId;
    FilterSome(ms, m, (m: Membership) => m.organizationId == organizationId);
  }

  /** The history rows of one tender, in insertion order. */
  function TenderHistoryOf(hs: seq<TenderHistory>, tenderId: Id): (r: seq<TenderHistory>)
    ensures forall k :: 0 <= k < |r| ==> r[k].tenderId == tenderId && r[k] in hs
  {
    Filter(hs, (h: TenderHistory) => h.tenderId == tenderId)
  }

  /** Appending a history row extends exactly the history of the tender it names. */
  lemma TenderHistoryOfSnoc(hs: seq<TenderHistory>, h: TenderHistory, tenderId: Id)
    ensures TenderHistoryOf(hs + [h], tenderId)
         == if h.tenderId == tenderId then TenderHistoryOf(hs, tenderId) + [h] else TenderHistoryOf(hs, tenderId)
  {
    FilterSnoc(hs, h, (h: TenderHistory) => h.tenderId == tenderId);
  }

  /** The history rows of one bid, in insertion order. */
  function BidHistoryOf(hs: seq<BidHistory>, bidId: Id): (r: seq<BidHistory>)
    ensures forall k :: 0 <= k < |r| ==> r[k].bidId == bidId && r[k] in hs
  {
    Filter(hs, (h: BidHistory) => h.bidId == bidId)
  }

  /** Appending a history row extends exactly the history of the bid it names. */
  lemma BidHistoryOfSnoc(hs: seq<BidHistory>, h: BidHistory, bidId: Id)
    ensures BidHistoryOf(hs + [h], bidId)
         == if h.bidId == bidId then BidHistoryOf(hs, bidId) + [h] else BidHistoryOf(hs, bidId)
  {
    FilterSnoc(hs, h, (h: BidHistory) => h.bidId == bidId);
  }

  /** `WHERE tender_id = ? AND version = ?` on tender_histories. */
  function FindTenderHistory(hs: seq<TenderHistory>, tenderId: Id, version: int): (r: Option<TenderHistory>)
    ensures r.Some? ==> r.value in hs && r.value.tenderId == tenderId && r.value.version == version
    ensures r.None? <==> forall h :: h in hs ==> !(h.tenderId == tenderId && h.version == version)
  {
    match IndexOf(hs, (h: TenderHistory) => h.tenderId == tenderId && h.version == version)
    case Some(i) => Some(hs[i])
    case None => None
  }

  /** `WHERE bid_id = ? AND version = ?` on bid_histories. */
  function FindBidHistory(hs: seq<BidHistory>, bidId: Id, version: int): (r: Option<BidHistory>)
    ensures r.Some? ==> r.value in hs && r.value.bidId == bidId && r.value.version == version
    ensures r.None? <==> forall h :: h in hs ==> !(h.bidId == bidId && h.version == version)
  {
    match IndexOf(hs, (h: BidHistory) => h.bidId == bidId && h.version == version)
    case Some(i) => Some(hs[i])
    case None => None
  }
}
