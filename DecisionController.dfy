/** Decisions on bids and the approval quorum that closes a tender. */
module DecisionController {
  import opened Outcomes
  import opened Seqs
  import opened Models
  import opened Tables
  import opened Versioning
  import opened Authorization
  import opened Database

  /** No tender needs more than this many approvals. */
  const QuorumCap: nat := 3

  /** The approvals a bid needs to close its tender: the number of responsibles of the tender's
      organization, but at most three. */
  function Quorum(responsibles: nat): (q: nat)
    ensures q <= QuorumCap && q <= responsibles
    ensures q == QuorumCap || q == responsibles
  {
    if responsibles < QuorumCap then responsibles else QuorumCap
  }

  /** The Approved decisions recorded for a bid, from anyone, repeats included. */
  function ApprovedCount(ds: seq<Decision>, bidId: Id): (n: nat)
    ensures n <= |ds|
    ensures n > 0 <==> exists d :: d in ds && d.bidId == bidId && d.decisionType == Approved
  {
    var approvals := Filter(ds, (d: Decision) => d.bidId == bidId && d.decisionType == Approved);
    if |approvals| > 0 then
      assert approvals[0] in approvals;
      |approvals|
    else
      |approvals|
  }

  /** Recording one more decision adds one to the count exactly when it approves this bid. */
  lemma ApprovedCountSnoc(ds: seq<Decision>, d: Decision, bidId: Id)
    ensures ApprovedCount(ds + [d], bidId) ==
      ApprovedCount(ds, bidId) + (if d.bidId == bidId && d.decisionType == Approved then 1 else 0)
  {
    FilterSnoc(ds, d, (d: Decision) => d.bidId == bidId && d.decisionType == Approved);
  }

  /** Whoever may decide is a responsible of the tender's organization, so the quorum lies in 1..3. */
  lemma QuorumOfMember(ms: seq<Membership>, userId: Id, organizationId: Id)
    requires IsMember(ms, userId, organizationId)
    ensures 1 <= Quorum(MemberCount(ms, organizationId)) <= QuorumCap
  {
    MemberCountPositive(ms, userId, organizationId);
  }

  /** A rejection leaves the count as it was: it closes the tender only when earlier approvals
      already reached the quorum. */
  lemma RejectionClosesOnlyAtQuorum(ds: seq<Decision>, d: Decision, bidId: Id, responsibles: nat)
    requires d.decisionType == Rejected
    ensures ApprovedCount(ds + [d], bidId) >= Quorum(responsibles) <==> ApprovedCount(ds, bidId) >= Quorum(responsibles)
  {
    ApprovedCountSnoc(ds, d, bidId);
  }

  /** A rejection of a bid that has no approvals yet, submitted by a responsible, never closes the
      tender: the quorum is at least one. */
  lemma FirstRejectionKeepsTenderOpen(ds: seq<Decision>, d: Decision, ms: seq<Membership>, userId: Id, organizationId: Id)
    requires IsMember(ms, userId, organizationId)
    requires d.decisionType == Rejected && ApprovedCount(ds, d.bidId) == 0
    ensures ApprovedCount(ds + [d], d.bidId) < Quorum(MemberCount(ms, organizationId))
  {
    QuorumOfMember(ms, userId, organizationId);
    ApprovedCountSnoc(ds, d, d.bidId);
  }

  /** The first approval of a bid closes the tender exactly when the organization has a single
      responsible. */
  lemma FirstApprovalCloses(ds: seq<Decision>, d: Decision, bidId: Id, responsibles: nat)
    requires responsibles >= 1 && ApprovedCount(ds, bidId) == 0
    requires d.bidId == bidId && d.decisionType == Approved
    ensures ApprovedCount(ds + [d], bidId) >= Quorum(responsibles) <==> responsibles == 1
  {
    ApprovedCountSnoc(ds, d, bidId);
  }

  /** The count does not tell authors apart: approvals of a bid recorded after any table of
      decisions each count in full, even when a single responsible submitted all of them. */
  lemma {:induction false} ApprovalsCountInFull(ds: seq<Decision>, extra: seq<Decision>, bidId: Id)
    requires forall k :: 0 <= k < |extra| ==> extra[k].bidId == bidId && extra[k].decisionType == Approved
    ensures ApprovedCount(ds + extra, bidId) == ApprovedCount(ds, bidId) + |extra|
    decreases |extra|
  {
    if extra == [] {
      assert ds + extra == ds;
    } else {
      var init := extra[..|extra| - 1];
      var last := extra[|extra| - 1];
      ApprovalsCountInFull(ds, init, bidId);
      assert ds + extra == (ds + init) + [last];
      ApprovedCountSnoc(ds + init, last, bidId);
    }
  }

  /** Hence three approvals by the same responsible close the tender, whatever the decisions
      already recorded and whatever the size of the organization. */
  lemma OneResponsibleReachesQuorum(ds: seq<Decision>, extra: seq<Decision>, bidId: Id, authorId: Id, responsibles: nat)
    requires |extra| == QuorumCap
    requires forall k :: 0 <= k < |extra| ==>
      extra[k].bidId == bidId && extra[k].decisionType == Approved && extra[k].authorId == authorId
    ensures ApprovedCount(ds + extra, bidId) >= Quorum(responsibles)
  {
    ApprovalsCountInFull(ds, extra, bidId);
  }

  /** The checks of decision submission, in the handler's order: both parameters given (400), the
      published-bid checks (401, 404, 400, 404), the tender published (400), the user responsible
      for the tender's organization (403), and the decision Approved or Rejected (400). On
      success: the user, the bid's and the tender's row positions, and the decision. */
  function DecisionGate(es: seq<Employee>, ms: seq<Membership>, ts: seq<Tender>, bs: seq<Bid>,
                        username: string, bidId: Id, decision: string): (r: Result<(Employee, nat, nat, DecisionType)>)
    ensures username == "" || decision == "" ==> r == Err(InvalidArgument)
    ensures username != "" && decision != "" ==>
      var p := PublishedBidGate(es, ts, bs, username, bidId);
      && (p.Err? ==> r == Err(p.error))
      && (p.Ok? ==>
            var t := ts[p.value.2];
            var member := IsMember(ms, p.value.0.id, t.organizationId);
            && (t.status != Published ==> r == Err(InvalidArgument))
            && (t.status == Published && !member ==> r == Err(Forbidden))
            && (t.status == Published && member ==>
                  r == if ParseDecisionType(decision).Some?
                       then Ok((p.value.0, p.value.1, p.value.2, ParseDecisionType(decision).value))
                       else Err(InvalidArgument)))
    ensures r.Ok? ==>
      var (e, bi, ti, kind) := r.value;
      && e in es && e.username == username
      && bi < |bs| && bs[bi].id == bidId && bs[bi].status == BidPublished
      && ti < |ts| && ts[ti].id == bs[bi].tenderId && ts[ti].status == Published
      && IsMember(ms, e.id, ts[ti].organizationId)
      && DecisionTypeName(kind) == decision
  {
    if username == "" || decision == "" then Err(InvalidArgument)
    else
      match PublishedBidGate(es, ts, bs, username, bidId)
      case Err(e) => Err(e)
      case Ok((user, bi, ti)) =>
        if ts[ti].status != Published then Err(InvalidArgument)
        else if !IsMember(ms, user.id, ts[ti].organizationId) then Err(Forbidden)
        else
          match ParseDecisionType(decision)
          case None => Err(InvalidArgument)
          case Some(kind) => Ok((user, bi, ti, kind))
  }

  /** The writes of an accepted decision: the decision row, the cancellation of a rejected bid,
      and the closing of the tender once the bid's approvals reach the quorum. */
  method RecordDecision(db: Store, bi: nat, ti: nat, userId: Id, kind: DecisionType,
                        decisionId: Id, bidHistoryId: Id, tenderHistoryId: Id, now: Time)
    requires db.Valid() && bi < |db.bids| && ti < |db.tenders|
    modifies db`decisions, db`bids, db`bidHistories, db`tenders, db`tenderHistories
    ensures db.Valid()
    ensures db.decisions == old(db.decisions) + [Decision(decisionId, old(db.bids)[bi].id, userId, kind, now)]
    ensures var b := old(db.bids)[bi];
      && (kind == Rejected ==>
            && db.bids == old(db.bids)[bi := b.(status := BidCanceled, version := b.version + 1)]
            && db.bidHistories == old(db.bidHistories) + [BidSnapshot(b, bidHistoryId, now)])
      && (kind == Approved ==> db.bids == old(db.bids) && db.bidHistories == old(db.bidHistories))
    ensures var t := old(db.tenders)[ti];
      var closes := ApprovedCount(db.decisions, old(db.bids)[bi].id) >= Quorum(MemberCount(db.memberships, t.organizationId));
      && (closes ==>
            && db.tenders == old(db.tenders)[ti := t.(status := Closed, version := t.version + 1)]
            && db.tenderHistories == old(db.tenderHistories) + [TenderSnapshot(t, tenderHistoryId, now)])
      && (!closes ==> db.tenders == old(db.tenders) && db.tenderHistories == old(db.tenderHistories))
  {
    var bidId := db.bids[bi].id;
    db.InsertDecision(Decision(decisionId, bidId, userId, kind, now));
    if kind == Rejected {
      db.SetBidStatus(bi, BidCanceled, bidHistoryId, now);
    }
    var approved := ApprovedCount(db.decisions, bidId);
    var quorum := Quorum(MemberCount(db.memberships, db.tenders[ti].organizationId));
    if approved >= quorum {
      db.SetTenderStatus(ti, Closed, tenderHistoryId, now);
    }
  }

  /** PUT /bids/{bidId}/submit_decision: records the decision of a responsible of the tender's
      organization on a published bid of a published tender. A rejection cancels the bid; once the
      bid's approvals reach the quorum the tender is closed. Both changes are versioned updates.
      The response is the bid as stored afterwards. */
  method SubmitDecision(db: Store, bidId: Id, username: string, decision: string,
                        decisionId: Id, bidHistoryId: Id, tenderHistoryId: Id, now: Time) returns (r: Result<Bid>)
    requires db.Valid()
    modifies db`decisions, db`bids, db`bidHistories, db`tenders, db`tenderHistories
    ensures db.Valid()
    ensures var g := DecisionGate(old(db.employees), old(db.memberships), old(db.tenders), old(db.bids), username, bidId, decision);
      g.Err? ==>
        && r == Err(g.error)
        && db.decisions == old(db.decisions)
        && db.bids == old(db.bids) && db.bidHistories == old(db.bidHistories)
        && db.tenders == old(db.tenders) && db.tenderHistories == old(db.tenderHistories)
    ensures var g := DecisionGate(old(db.employees), old(db.memberships), old(db.tenders), old(db.bids), username, bidId, decision);
      g.Ok? ==>
        var (user, bi, ti, kind) := g.value;
        var b := old(db.bids)[bi];
        var t := old(db.tenders)[ti];
        var closes := ApprovedCount(db.decisions, bidId) >= Quorum(MemberCount(db.memberships, t.organizationId));
        && db.decisions == old(db.decisions) + [Decision(decisionId, bidId, user.id, kind, now)]
        && (kind == Rejected ==>
              && db.bids == old(db.bids)[bi := b.(status := BidCanceled, version := b.version + 1)]
              && db.bidHistories == old(db.bidHistories) + [BidSnapshot(b, bidHistoryId, now)])
        && (kind == Approved ==> db.bids == old(db.bids) && db.bidHistories == old(db.bidHistories))
        && (closes ==>
              && db.tenders == old(db.tenders)[ti := t.(status := Closed, version := t.version + 1)]
              && db.tenderHistories == old(db.tenderHistories) + [TenderSnapshot(t, tenderHistoryId, now)])
        && (!closes ==> db.tenders == old(db.tenders) && db.tenderHistories == old(db.tenderHistories))
        && r == Ok(db.bids[bi])
  {
    var g := DecisionGate(db.employees, db.memberships, db.tenders, db.bids, username, bidId, decision);
    if g.Err? {
      return Err(g.error);
    }
    var (user, bi, ti, kind) := g.value;
    RecordDecision(db, bi, ti, user.id, kind, decisionId, bidHistoryId, tenderHistoryId, now);
    r := Ok(db.bids[bi]);
  }
}
