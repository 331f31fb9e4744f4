/** The in-memory store: one class holding every table. Its methods are the only writers, and
    each UPDATE of a tender or bid row runs the history trigger. */
module Database {
  import opened Outcomes
  import opened Models
  import opened Tables
  import opened Versioning

  class Store {
    var employees: seq<Employee>
    var organizations: seq<Organization>
    var memberships: seq<Membership>
    var tenders: seq<Tender>
    var tenderHistories: seq<TenderHistory>
    var bids: seq<Bid>
    var bidHistories: seq<BidHistory>
    var decisions: seq<Decision>
    var reviews: seq<Review>

    /** Unique row ids, storable rows, and a complete version history for every tender and bid. */
    ghost predicate Valid()
      reads this
    {
      TenderTableValid(tenders, tenderHistories) && BidTableValid(bids, bidHistories)
    }

    /** A store over existing employees, organizations and memberships; the lifecycle tables
        start empty. */
    constructor (employees: seq<Employee>, organizations: seq<Organization>, memberships: seq<Membership>)
      ensures Valid()
      ensures this.employees == employees && this.organizations == organizations
      ensures this.memberships == memberships
      ensures tenders == [] && tenderHistories == [] && bids == [] && bidHistories == []
      ensures decisions == [] && reviews == []
    {
      this.employees := employees;
      this.organizations := organizations;
      this.memberships := memberships;
      tenders, tenderHistories := [], [];
      bids, bidHistories := [], [];
      decisions, reviews := [], [];
    }

    /** INSERT INTO tenders; refused on a duplicate primary key or a text too long for its column. */
    method InsertTender(t: Tender) returns (ok: bool)
      requires Valid()
      requires t.version == InitialVersion && t.name != "" && t.description != ""
      modifies this`tenders
      ensures Valid()
      ensures ok <==> !HasTender(old(tenders), t.id) && TextFits(t.name, t.description)
      ensures tenders == if ok then old(tenders) + [t] else old(tenders)
      ensures ok ==> TenderHistoryOf(tenderHistories, t.id) == []
    {
      ok := FindTender(tenders, t.id).None? && TextFits(t.name, t.description);
      if ok {
        TenderInsertKeepsTable(tenders, tenderHistories, t);
        tenders := tenders + [t];
      }
    }

    /** UPDATE tenders SET <w> WHERE id = <row i>, with trigger update_tender_history. An empty
        write issues no statement; a write the store refuses changes nothing. Otherwise the
        history gains the old row and the version becomes old + 1, even when every written
        value equals the current one. */
    method UpdateTender(i: nat, w: TenderWrite, historyId: Id, now: Time) returns (ok: bool)
      requires Valid() && i < |tenders| && NoZeroTenderColumns(w)
      modifies this`tenders, this`tenderHistories
      ensures Valid()
      ensures ok <==> IsEmptyTenderWrite(w) || TenderWriteAccepted(w)
      ensures !ok || IsEmptyTenderWrite(w) ==>
        tenders == old(tenders) && tenderHistories == old(tenderHistories)
      ensures ok && !IsEmptyTenderWrite(w) ==>
        var step := TenderTrigger(old(tenders)[i], AssignTender(old(tenders)[i], w).value, historyId, now);
        tenders == old(tenders)[i := step.0] && tenderHistories == old(tenderHistories) + [step.1]
      ensures ok && !IsEmptyTenderWrite(w) ==>
        tenders[i].version == old(tenders)[i].version + 1 &&
        TenderHistoryOf(tenderHistories, tenders[i].id)
          == TenderHistoryOf(old(tenderHistories), tenders[i].id) + [TenderSnapshot(old(tenders)[i], historyId, now)]
    {
      if IsEmptyTenderWrite(w) {
        return true;
      }
      var next := AssignTender(tenders[i], w);
      if next.None? {
        return false;
      }
      TenderUpdateKeepsTable(tenders, tenderHistories, i, next.value, historyId, now);
      var step := TenderTrigger(tenders[i], next.value, historyId, now);
      tenderHistories := tenderHistories + [step.1];
      tenders := tenders[i := step.0];
      ok := true;
    }

    /** UPDATE tenders SET status = s WHERE id = <row i>: a one-column update, always issued, so
        always versioned. */
    method SetTenderStatus(i: nat, s: Status, historyId: Id, now: Time)
      requires Valid() && i < |tenders|
      modifies this`tenders, this`tenderHistories
      ensures Valid()
      ensures tenders == old(tenders)[i := old(tenders)[i].(status := s, version := old(tenders)[i].version + 1)]
      ensures tenderHistories == old(tenderHistories) + [TenderSnapshot(old(tenders)[i], historyId, now)]
    {
      EnumRoundTrips(Construction, s, BidCreated, AuthorUser, Approved);
      var ok := UpdateTender(i, TenderWrite(None, None, None, Some(StatusName(s)), None), historyId, now);
      assert ok;
    }

    /** `Updates(t)` with the row's content replaced by history row h: every column is non-zero, so
        the statement is issued and versioned, and the content becomes h's. */
    method RestoreTender(i: nat, h: TenderHistory, historyId: Id, now: Time)
      requires Valid() && i < |tenders| && TenderHistoryRowOk(h)
      modifies this`tenders, this`tenderHistories
      ensures Valid()
      ensures tenders == old(tenders)[i := TenderTrigger(old(tenders)[i], RestoredTender(old(tenders)[i], h), historyId, now).0]
      ensures tenderHistories == old(tenderHistories) + [TenderTrigger(old(tenders)[i], RestoredTender(old(tenders)[i], h), historyId, now).1]
    {
      EnumRoundTrips(h.serviceType, h.status, BidCreated, AuthorUser, Approved);
      var w := TenderWrite(Some(h.name), Some(h.description), Some(ServiceTypeName(h.serviceType)),
                           Some(StatusName(h.status)), Some(tenders[i].version));
      var ok := UpdateTender(i, w, historyId, now);
      assert ok;
    }

    /** INSERT INTO bids; refused on a duplicate primary key or a text too long for its column. */
    method InsertBid(b: Bid) returns (ok: bool)
      requires Valid()
      requires b.version == InitialVersion && b.name != "" && b.description != ""
      modifies this`bids
      ensures Valid()
      ensures ok <==> !HasBid(old(bids), b.id) && TextFits(b.name, b.description)
      ensures bids == if ok then old(bids) + [b] else old(bids)
      ensures ok ==> BidHistoryOf(bidHistories, b.id) == []
    {
      ok := FindBid(bids, b.id).None? && TextFits(b.name, b.description);
      if ok {
        BidInsertKeepsTable(bids, bidHistories, b);
        bids := bids + [b];
      }
    }

    /** UPDATE bids SET <w> WHERE id = <row i>, with trigger update_bid_history. */
    method UpdateBid(i: nat, w: BidWrite, historyId: Id, now: Time) returns (ok: bool)
      requires Valid() && i < |bids| && NoZeroBidColumns(w)
      modifies this`bids, this`bidHistories
      ensures Valid()
      ensures ok <==> IsEmptyBidWrite(w) || BidWriteAccepted(w)
      ensures !ok || IsEmptyBidWrite(w) ==>
        bids == old(bids) && bidHistories == old(bidHistories)
      ensures ok && !IsEmptyBidWrite(w) ==>
        var step := BidTrigger(old(bids)[i], AssignBid(old(bids)[i], w).value, historyId, now);
        bids == old(bids)[i := step.0] && bidHistories == old(bidHistories) + [step.1]
      ensures ok && !IsEmptyBidWrite(w) ==>
        bids[i].version == old(bids)[i].version + 1 &&
        BidHistoryOf(bidHistories, bids[i].id)
          == BidHistoryOf(old(bidHistories), bids[i].id) + [BidSnapshot(old(bids)[i], historyId, now)]
    {
      if IsEmptyBidWrite(w) {
        return true;
      }
      var next := AssignBid(bids[i], w);
      if next.None? {
        return false;
      }
      BidUpdateKeepsTable(bids, bidHistories, i, next.value, historyId, now);
      var step := BidTrigger(bids[i], next.value, historyId, now);
      bidHistories := bidHistories + [step.1];
      bids := bids[i := step.0];
      ok := true;
    }

    /** UPDATE bids SET status = s WHERE id = <row i>: a one-column update, always issued, so
        always versioned. */
    method SetBidStatus(i: nat, s: BidStatus, historyId: Id, now: Time)
      requires Valid() && i < |bids|
      modifies this`bids, this`bidHistories
      ensures Valid()
      ensures bids == old(bids)[i := old(bids)[i].(status := s, version := old(bids)[i].version + 1)]
      ensures bidHistories == old(bidHistories) + [BidSnapshot(old(bids)[i], historyId, now)]
    {
      EnumRoundTrips(Construction, Created, s, AuthorUser, Approved);
      var ok := UpdateBid(i, BidWrite(None, None, Some(BidStatusName(s)), None), historyId, now);
      assert ok;
    }

    /** `Updates(b)` with the row's content replaced by history row h: every column is non-zero, so
        the statement is issued and versioned, and the content becomes h's. */
    method RestoreBid(i: nat, h: BidHistory, historyId: Id, now: Time)
      requires Valid() && i < |bids| && BidHistoryRowOk(h)
      modifies this`bids, this`bidHistories
      ensures Valid()
      ensures bids == old(bids)[i := BidTrigger(old(bids)[i], RestoredBid(old(bids)[i], h), historyId, now).0]
      ensures bidHistories == old(bidHistories) + [BidTrigger(old(bids)[i], RestoredBid(old(bids)[i], h), historyId, now).1]
    {
      EnumRoundTrips(Construction, Created, h.status, AuthorUser, Approved);
      var w := BidWrite(Some(h.name), Some(h.description), Some(BidStatusName(h.status)), Some(bids[i].version));
      var ok := UpdateBid(i, w, historyId, now);
      assert ok;
    }

    /** INSERT INTO decisions. */
    method InsertDecision(d: Decision)
      modifies this`decisions
      ensures decisions == old(decisions) + [d]
    {
      decisions := decisions + [d];
    }

    /** INSERT INTO reviews; refused when the text is too long for its varchar(1000) column. */
    method InsertReview(r: Review) returns (ok: bool)
      modifies this`reviews
      ensures ok <==> |r.description| <= MaxReviewLength
      ensures reviews == if ok then old(reviews) + [r] else old(reviews)
    {
      ok := |r.description| <= MaxReviewLength;
      if ok {
        reviews := reviews + [r];
      }
    }
  }
}
