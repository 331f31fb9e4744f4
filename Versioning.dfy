/** The versioned-update backbone: the BEFORE UPDATE triggers `update_tender_history` and
    `update_bid_history`. Every UPDATE of a tender or bid row inserts a history row holding the
    OLD values and the OLD version, and stores the NEW values with version OLD.version + 1,
    whatever version the statement itself wrote. */
module Versioning {
  import opened Outcomes
  import opened Seqs
  import opened Models
  import opened Tables

  /** A string field of a request struct as `Updates(struct)` sees it: "" is the zero value and is
      not written. */
  function Written(s: string): (r: Option<string>)
    ensures r.None? <==> s == ""
    ensures r.Some? ==> r.value == s
  {
    if s == "" then None else Some(s)
  }

  // ================================================================ tenders

  /** The columns one UPDATE statement sets on a tender row; None leaves a column as it is.
      Enum columns arrive as text and are cast by the store. */
  datatype TenderWrite = TenderWrite(
    name: Option<string>,
    description: Option<string>,
    serviceType: Option<string>,
    status: Option<string>,
    version: Option<int>)

  /** No column is set, so no statement is issued at all. */
  predicate IsEmptyTenderWrite(w: TenderWrite) {
    w.name.None? && w.description.None? && w.serviceType.None? && w.status.None? && w.version.None?
  }

  /** A struct update never sets a column to the zero value of its field. */
  predicate NoZeroTenderColumns(w: TenderWrite) {
    w.name != Some("") && w.description != Some("")
  }

  /** The store accepts the written values: enum labels cast, texts fit their columns. */
  predicate TenderWriteAccepted(w: TenderWrite) {
    && (w.name.Some? ==> |w.name.value| <= MaxNameLength)
    && (w.description.Some? ==> |w.description.value| <= MaxDescriptionLength)
    && (w.serviceType.Some? ==> ParseServiceType(w.serviceType.value).Some?)
    && (w.status.Some? ==> ParseStatus(w.status.value).Some?)
  }

  /** The NEW row of the statement, before the trigger runs; None when the store refuses it.
      Only the written columns change; id, organization and creation time never do. */
  function AssignTender(t: Tender, w: TenderWrite): (r: Option<Tender>)
    ensures r.Some? <==> TenderWriteAccepted(w)
    ensures r.Some? ==> r.value.id == t.id && r.value.organizationId == t.organizationId
    ensures r.Some? ==> r.value.createdAt == t.createdAt
    ensures r.Some? ==> r.value.name == (if w.name.Some? then w.name.value else t.name)
    ensures r.Some? ==> r.value.description == (if w.description.Some? then w.description.value else t.description)
    ensures r.Some? ==> ServiceTypeName(r.value.serviceType) == (if w.serviceType.Some? then w.serviceType.value else ServiceTypeName(t.serviceType))
    ensures r.Some? ==> StatusName(r.value.status) == (if w.status.Some? then w.status.value else StatusName(t.status))
    ensures r.Some? && w.serviceType.None? ==> r.value.serviceType == t.serviceType
    ensures r.Some? && w.status.None? ==> r.value.status == t.status
  {
    if !TenderWriteAccepted(w) then None
    else
      Some(Tender(
        t.id,
        if w.name.Some? then w.name.value else t.name,
        if w.description.Some? then w.description.value else t.description,
        if w.serviceType.Some? then ParseServiceType(w.serviceType.value).value else t.serviceType,
        if w.status.Some? then ParseStatus(w.status.value).value else t.status,
        t.organizationId,
        if w.version.Some? then w.version.value else t.version,
        t.createdAt))
  }

  /** The history row the trigger inserts: the OLD values and the OLD version. */
  function TenderSnapshot(t: Tender, historyId: Id, now: Time): TenderHistory {
    TenderHistory(historyId, t.id, t.name, t.description, t.serviceType, t.status, t.version, now)
  }

  /** update_tender_history on OLD row `before` and NEW row `after`: the row stored, and the
      history row inserted. */
  function TenderTrigger(before: Tender, after: Tender, historyId: Id, now: Time): (Tender, TenderHistory) {
    (after.(version := before.version + 1), TenderSnapshot(before, historyId, now))
  }

  /** The content a tender history row captures. */
  datatype TenderContent = TenderContent(name: string, description: string, serviceType: ServiceType, status: Status)

  function TenderContentOf(t: Tender): TenderContent {
    TenderContent(t.name, t.description, t.serviceType, t.status)
  }

  function TenderHistoryContent(h: TenderHistory): TenderContent {
    TenderContent(h.name, h.description, h.serviceType, h.status)
  }

  /** One UPDATE of a tender row: the NEW row it produced, and the history id and time the trigger used. */
  datatype TenderUpdate = TenderUpdate(after: Tender, historyId: Id, at: Time)

  /** The row and the history rows after a sequence of UPDATEs of one tender. */
  function ReplayTender(t: Tender, us: seq<TenderUpdate>): (r: (Tender, seq<TenderHistory>))
    ensures r.0.version == t.version + |us|
    ensures |r.1| == |us|
    decreases |us|
  {
    if us == [] then (t, [])
    else
      var step := TenderTrigger(t, us[0].after, us[0].historyId, us[0].at);
      var rest := ReplayTender(step.0, us[1..]);
      (rest.0, [step.1] + rest.1)
  }

  /** History fidelity: after N updates the version has grown by N; history row k carries version
      v0 + k and the content the tender held while its version read v0 + k (the initial content for
      k = 0, the content written by update k otherwise). From version 1 the history versions are
      exactly 1..N and the version is N + 1. */
  lemma {:induction false} TenderReplayFidelity(t: Tender, us: seq<TenderUpdate>)
    decreases |us|
    requires forall k :: 0 <= k < |us| ==> us[k].after.id == t.id
    ensures ReplayTender(t, us).0.id == t.id
    ensures forall k :: 0 <= k < |us| ==>
      ReplayTender(t, us).1[k].tenderId == t.id && ReplayTender(t, us).1[k].version == t.version + k
    ensures |us| > 0 ==> TenderHistoryContent(ReplayTender(t, us).1[0]) == TenderContentOf(t)
    ensures forall k :: 1 <= k < |us| ==>
      TenderHistoryContent(ReplayTender(t, us).1[k]) == TenderContentOf(us[k - 1].after)
    ensures |us| > 0 ==> TenderContentOf(ReplayTender(t, us).0) == TenderContentOf(us[|us| - 1].after)
    ensures t.version == InitialVersion ==>
      ReplayTender(t, us).0.version == |us| + 1 &&
      forall k :: 0 <= k < |us| ==> ReplayTender(t, us).1[k].version == k + 1
  {
    if us != [] {
      var step := TenderTrigger(t, us[0].after, us[0].historyId, us[0].at);
      TenderReplayFidelity(step.0, us[1..]);
      var rest := ReplayTender(step.0, us[1..]);
      assert ReplayTender(t, us) == (rest.0, [step.1] + rest.1);
      forall k | 1 <= k < |us|
        ensures TenderHistoryContent(ReplayTender(t, us).1[k]) == TenderContentOf(us[k - 1].after)
      {
        assert ReplayTender(t, us).1[k] == rest.1[k - 1];
        if k > 1 {
          assert us[1..][k - 2] == us[k - 1];
        }
      }
      if |us| > 1 {
        assert us[1..][|us[1..]| - 1] == us[|us| - 1];
      }
    }
  }

  /** A tender row the handlers can store: non-empty texts that fit their columns. */
  predicate TenderRowOk(t: Tender) {
    t.name != "" && t.description != "" && TextFits(t.name, t.description)
  }

  predicate TenderHistoryRowOk(h: TenderHistory) {
    h.name != "" && h.description != "" && TextFits(h.name, h.description)
  }

  /** The history of a tender holds one row per earlier version, versions 1 .. version - 1 in order. */
  predicate TenderChain(t: Tender, hist: seq<TenderHistory>) {
    |hist| == t.version - 1 && forall k :: 0 <= k < |hist| ==> hist[k].version == k + 1
  }

  predicate HasTender(ts: seq<Tender>, id: Id) {
    exists j :: 0 <= j < |ts| && ts[j].id == id
  }

  /** The invariant of the tenders and tender_histories tables. */
  predicate TenderTableValid(ts: seq<Tender>, hs: seq<TenderHistory>) {
    TenderIdsUnique(ts) && TenderRowsChained(ts, hs) && TenderHistoryOwned(ts, hs)
  }

  predicate TenderIdsUnique(ts: seq<Tender>) {
    forall i, j :: 0 <= i < j < |ts| ==> ts[i].id != ts[j].id
  }

  /** Every row is storable and its history chains up to its version. */
  predicate TenderRowsChained(ts: seq<Tender>, hs: seq<TenderHistory>) {
    forall i :: 0 <= i < |ts| ==> TenderRowOk(ts[i]) && TenderChain(ts[i], TenderHistoryOf(hs, ts[i].id))
  }

  /** Every history row is storable and belongs to a stored row. */
  predicate TenderHistoryOwned(ts: seq<Tender>, hs: seq<TenderHistory>) {
    forall k :: 0 <= k < |hs| ==> TenderHistoryRowOk(hs[k]) && HasTender(ts, hs[k].tenderId)
  }

  /** After the trigger on row i, row j is still well formed and its history still chains; only
      row i's history grows, by the snapshot of its old version. */
  lemma TenderUpdateKeepsRow(ts: seq<Tender>, hs: seq<TenderHistory>, i: nat, j: nat, after: Tender, historyId: Id, now: Time)
    requires TenderTableValid(ts, hs)
    requires i < |ts| && j < |ts| && after.id == ts[i].id && TenderRowOk(after)
    ensures var step := TenderTrigger(ts[i], after, historyId, now);
      TenderRowOk(ts[i := step.0][j]) &&
      TenderChain(ts[i := step.0][j], TenderHistoryOf(hs + [step.1], ts[j].id))
  {
    var step := TenderTrigger(ts[i], after, historyId, now);
    TenderHistoryOfSnoc(hs, step.1, ts[j].id);
    var hist := TenderHistoryOf(hs, ts[j].id);
    assert TenderChain(ts[j], hist);
    if j == i {
      var hist' := hist + [step.1];
      assert TenderHistoryOf(hs + [step.1], ts[j].id) == hist';
      assert forall k :: 0 <= k < |hist| ==> hist'[k] == hist[k];
    } else {
      assert ts[i].id != ts[j].id by {
        if i < j { assert ts[i].id != ts[j].id; } else { assert ts[j].id != ts[i].id; }
      }
    }
  }

  /** Every history row still names a stored row after the trigger on row i. */
  lemma TenderUpdateKeepsHistoryRows(ts: seq<Tender>, hs: seq<TenderHistory>, i: nat, after: Tender, historyId: Id, now: Time)
    requires TenderTableValid(ts, hs)
    requires i < |ts| && after.id == ts[i].id
    ensures var step := TenderTrigger(ts[i], after, historyId, now);
      TenderHistoryOwned(ts[i := step.0], hs + [step.1])
  {
    var step := TenderTrigger(ts[i], after, historyId, now);
    var ts', hs' := ts[i := step.0], hs + [step.1];
    forall k | 0 <= k < |hs'|
      ensures TenderHistoryRowOk(hs'[k]) && HasTender(ts', hs'[k].tenderId)
    {
      if k < |hs| {
        var j :| 0 <= j < |ts| && ts[j].id == hs[k].tenderId;
        assert ts'[j].id == hs'[k].tenderId;
      } else {
        assert ts'[i].id == hs'[k].tenderId;
      }
    }
  }

  /** The trigger keeps the table invariant: the updated tender's history grows by exactly the row
      for its old version, and no other tender's history changes. */
  lemma TenderUpdateKeepsTable(ts: seq<Tender>, hs: seq<TenderHistory>, i: nat, after: Tender, historyId: Id, now: Time)
    requires TenderTableValid(ts, hs)
    requires i < |ts| && after.id == ts[i].id && TenderRowOk(after)
    ensures TenderTableValid(ts[i := TenderTrigger(ts[i], after, historyId, now).0],
                             hs + [TenderTrigger(ts[i], after, historyId, now).1])
    ensures TenderHistoryOf(hs + [TenderTrigger(ts[i], after, historyId, now).1], ts[i].id)
         == TenderHistoryOf(hs, ts[i].id) + [TenderSnapshot(ts[i], historyId, now)]
  {
    var step := TenderTrigger(ts[i], after, historyId, now);
    var ts', hs' := ts[i := step.0], hs + [step.1];
    assert TenderIdsUnique(ts') by {
      assert forall j :: 0 <= j < |ts| ==> ts'[j].id == ts[j].id;
    }
    assert TenderRowsChained(ts', hs') by {
      forall j | 0 <= j < |ts'|
        ensures TenderRowOk(ts'[j]) && TenderChain(ts'[j], TenderHistoryOf(hs', ts'[j].id))
      {
        TenderUpdateKeepsRow(ts, hs, i, j, after, historyId, now);
      }
    }
    TenderUpdateKeepsHistoryRows(ts, hs, i, after, historyId, now);
    TenderHistoryOfSnoc(hs, step.1, ts[i].id);
  }

  /** Inserting a tender with a fresh id and version 1 keeps the table invariant; it starts with
      no history. */
  lemma TenderInsertKeepsTable(ts: seq<Tender>, hs: seq<TenderHistory>, t: Tender)
    requires TenderTableValid(ts, hs)
    requires !HasTender(ts, t.id) && TenderRowOk(t) && t.version == InitialVersion
    ensures TenderTableValid(ts + [t], hs)
    ensures TenderHistoryOf(hs, t.id) == []
  {
    FilterNone(hs, (h: TenderHistory) => h.tenderId == t.id);
    var ts' := ts + [t];
    forall k | 0 <= k < |hs| ensures HasTender(ts', hs[k].tenderId) {
      var j :| 0 <= j < |ts| && ts[j].id == hs[k].tenderId;
      assert ts'[j].id == hs[k].tenderId;
    }
  }

  /** Rollback targets: a tender has a history row for version v exactly when 1 <= v < its current
      version, and that row is one the store accepts back. */
  lemma TenderHistoryVersions(ts: seq<Tender>, hs: seq<TenderHistory>, i: nat, v: int)
    requires TenderTableValid(ts, hs) && i < |ts|
    ensures FindTenderHistory(hs, ts[i].id, v).Some? <==> 1 <= v < ts[i].version
    ensures FindTenderHistory(hs, ts[i].id, v).Some? ==> TenderHistoryRowOk(FindTenderHistory(hs, ts[i].id, v).value)
  {
    var hist := TenderHistoryOf(hs, ts[i].id);
    assert TenderChain(ts[i], hist);
    var found := FindTenderHistory(hs, ts[i].id, v);
    if found.Some? {
      var h := found.value;
      assert h in Filter(hs, (h: TenderHistory) => h.tenderId == ts[i].id);
      var k :| 0 <= k < |hist| && hist[k] == h;
      assert h.version == k + 1;
      var m :| 0 <= m < |hs| && hs[m] == h;
    }
    if 1 <= v < ts[i].version {
      assert hist[v - 1].version == v && hist[v - 1] in hs;
    }
  }

  /** The row a rollback writes: the content of history row `h` over the current row. */
  function RestoredTender(t: Tender, h: TenderHistory): Tender {
    t.(name := h.name, description := h.description, serviceType := h.serviceType, status := h.status)
  }

  /** Rollback is one more forward update: the row takes the content of version v under a version
      above both v and the current one, the table stays valid, and every version up to the one
      rolled back from stays reachable in the history. */
  lemma TenderRollbackForward(ts: seq<Tender>, hs: seq<TenderHistory>, i: nat, v: int, historyId: Id, now: Time)
    requires TenderTableValid(ts, hs) && i < |ts|
    requires FindTenderHistory(hs, ts[i].id, v).Some?
    ensures
      var h := FindTenderHistory(hs, ts[i].id, v).value;
      var step := TenderTrigger(ts[i], RestoredTender(ts[i], h), historyId, now);
      && TenderContentOf(step.0) == TenderHistoryContent(h)
      && step.0.version == ts[i].version + 1 && ts[i].version > v
      && TenderTableValid(ts[i := step.0], hs + [step.1])
      && forall u :: 1 <= u <= ts[i].version ==> FindTenderHistory(hs + [step.1], ts[i].id, u).Some?
  {
    TenderHistoryVersions(ts, hs, i, v);
    var h := FindTenderHistory(hs, ts[i].id, v).value;
    var step := TenderTrigger(ts[i], RestoredTender(ts[i], h), historyId, now);
    TenderUpdateKeepsTable(ts, hs, i, RestoredTender(ts[i], h), historyId, now);
    var ts', hs' := ts[i := step.0], hs + [step.1];
    forall u | 1 <= u <= ts[i].version ensures FindTenderHistory(hs', ts[i].id, u).Some? {
      TenderHistoryVersions(ts', hs', i, u);
    }
  }

  // ================================================================ bids

  /** The columns one UPDATE statement sets on a bid row. */
  datatype BidWrite = BidWrite(
    name: Option<string>,
    description: Option<string>,
    status: Option<string>,
    version: Option<int>)

  predicate IsEmptyBidWrite(w: BidWrite) {
    w.name.None? && w.description.None? && w.status.None? && w.version.None?
  }

  predicate NoZeroBidColumns(w: BidWrite) {
    w.name != Some("") && w.description != Some("")
  }

  predicate BidWriteAccepted(w: BidWrite) {
    && (w.name.Some? ==> |w.name.value| <= MaxNameLength)
    && (w.description.Some? ==> |w.description.value| <= MaxDescriptionLength)
    && (w.status.Some? ==> ParseBidStatus(w.status.value).Some?)
  }

  /** The NEW bid row before the trigger; tender, author type and author never change. */
  function AssignBid(b: Bid, w: BidWrite): (r: Option<Bid>)
    ensures r.Some? <==> BidWriteAccepted(w)
    ensures r.Some? ==> r.value.id == b.id && r.value.tenderId == b.tenderId
    ensures r.Some? ==> r.value.authorType == b.authorType && r.value.authorId == b.authorId
    ensures r.Some? ==> r.value.createdAt == b.createdAt
    ensures r.Some? ==> r.value.name == (if w.name.Some? then w.name.value else b.name)
    ensures r.Some? ==> r.value.description == (if w.description.Some? then w.description.value else b.description)
    ensures r.Some? ==> BidStatusName(r.value.status) == (if w.status.Some? then w.status.value else BidStatusName(b.status))
    ensures r.Some? && w.status.None? ==> r.value.status == b.status
  {
    if !BidWriteAccepted(w) then None
    else
      Some(Bid(
        b.id,
        if w.name.Some? then w.name.value else b.name,
        if w.description.Some? then w.description.value else b.description,
        if w.status.Some? then ParseBidStatus(w.status.value).value else b.status,
        b.tenderId,
        b.authorType,
        b.authorId,
        if w.version.Some? then w.version.value else b.version,
        b.createdAt))
  }

  function BidSnapshot(b: Bid, historyId: Id, now: Time): BidHistory {
    BidHistory(historyId, b.id, b.name, b.description, b.status, b.version, now)
  }

  /** update_bid_history on OLD row `before` and NEW row `after`. */
  function BidTrigger(before: Bid, after: Bid, historyId: Id, now: Time): (Bid, BidHistory) {
    (after.(version := before.version + 1), BidSnapshot(before, historyId, now))
  }

  datatype BidContent = BidContent(name: string, description: string, status: BidStatus)

  function BidContentOf(b: Bid): BidContent {
    BidContent(b.name, b.description, b.status)
  }

  function BidHistoryContent(h: BidHistory): BidContent {
    BidContent(h.name, h.description, h.status)
  }

  datatype BidUpdate = BidUpdate(after: Bid, historyId: Id, at: Time)

  function ReplayBid(b: Bid, us: seq<BidUpdate>): (r: (Bid, seq<BidHistory>))
    ensures r.0.version == b.version + |us|
    ensures |r.1| == |us|
    decreases |us|
  {
    if us == [] then (b, [])
    else
      var step := BidTrigger(b, us[0].after, us[0].historyId, us[0].at);
      var rest := ReplayBid(step.0, us[1..]);
      (rest.0, [step.1] + rest.1)
  }

  /** History fidelity for bids, as for tenders. */
  lemma {:induction false} BidReplayFidelity(b: Bid, us: seq<BidUpdate>)
    decreases |us|
    requires forall k :: 0 <= k < |us| ==> us[k].after.id == b.id
    ensures ReplayBid(b, us).0.id == b.id
    ensures forall k :: 0 <= k < |us| ==>
      ReplayBid(b, us).1[k].bidId == b.id && ReplayBid(b, us).1[k].version == b.version + k
    ensures |us| > 0 ==> BidHistoryContent(ReplayBid(b, us).1[0]) == BidContentOf(b)
    ensures forall k :: 1 <= k < |us| ==>
      BidHistoryContent(ReplayBid(b, us).1[k]) == BidContentOf(us[k - 1].after)
    ensures |us| > 0 ==> BidContentOf(ReplayBid(b, us).0) == BidContentOf(us[|us| - 1].after)
    ensures b.version == InitialVersion ==>
      ReplayBid(b, us).0.version == |us| + 1 &&
      forall k :: 0 <= k < |us| ==> ReplayBid(b, us).1[k].version == k + 1
  {
    if us != [] {
      var step := BidTrigger(b, us[0].after, us[0].historyId, us[0].at);
      BidReplayFidelity(step.0, us[1..]);
      var rest := ReplayBid(step.0, us[1..]);
      assert ReplayBid(b, us) == (rest.0, [step.1] + rest.1);
      forall k | 1 <= k < |us|
        ensures BidHistoryContent(ReplayBid(b, us).1[k]) == BidContentOf(us[k - 1].after)
      {
        assert ReplayBid(b, us).1[k] == rest.1[k - 1];
        if k > 1 {
          assert us[1..][k - 2] == us[k - 1];
        }
      }
      if |us| > 1 {
        assert us[1..][|us[1..]| - 1] == us[|us| - 1];
      }
    }
  }

  predicate BidRowOk(b: Bid) {
    b.name != "" && b.description != "" && TextFits(b.name, b.description)
  }

  predicate BidHistoryRowOk(h: BidHistory) {
    h.name != "" && h.description != "" && TextFits(h.name, h.description)
  }

  predicate BidChain(b: Bid, hist: seq<BidHistory>) {
    |hist| == b.version - 1 && forall k :: 0 <= k < |hist| ==> hist[k].version == k + 1
  }

  predicate HasBid(bs: seq<Bid>, id: Id) {
    exists j :: 0 <= j < |bs| && bs[j].id == id
  }

  /** The invariant of the bids and bid_histories tables. */
  predicate BidTableValid(bs: seq<Bid>, hs: seq<BidHistory>) {
    BidIdsUnique(bs) && BidRowsChained(bs, hs) && BidHistoryOwned(bs, hs)
  }

  predicate BidIdsUnique(bs: seq<Bid>) {
    forall i, j :: 0 <= i < j < |bs| ==> bs[i].id != bs[j].id
  }

  /** Every row is storable and its history chains up to its version. */
  predicate BidRowsChained(bs: seq<Bid>, hs: seq<BidHistory>) {
    forall i :: 0 <= i < |bs| ==> BidRowOk(bs[i]) && BidChain(bs[i], BidHistoryOf(hs, bs[i].id))
  }

  /** Every history row is storable and belongs to a stored row. */
  predicate BidHistoryOwned(bs: seq<Bid>, hs: seq<BidHistory>) {
    forall k :: 0 <= k < |hs| ==> BidHistoryRowOk(hs[k]) && HasBid(bs, hs[k].bidId)
  }

  lemma BidUpdateKeepsRow(bs: seq<Bid>, hs: seq<BidHistory>, i: nat, j: nat, after: Bid, historyId: Id, now: Time)
    requires BidTableValid(bs, hs)
    requires i < |bs| && j < |bs| && after.id == bs[i].id && BidRowOk(after)
    ensures var step := BidTrigger(bs[i], after, historyId, now);
      BidRowOk(bs[i := step.0][j]) &&
      BidChain(bs[i := step.0][j], BidHistoryOf(hs + [step.1], bs[j].id))
  {
    var step := BidTrigger(bs[i], after, historyId, now);
    BidHistoryOfSnoc(hs, step.1, bs[j].id);
    var hist := BidHistoryOf(hs, bs[j].id);
    assert BidChain(bs[j], hist);
    if j == i {
      var hist' := hist + [step.1];
      assert BidHistoryOf(hs + [step.1], bs[j].id) == hist';
      assert forall k :: 0 <= k < |hist| ==> hist'[k] == hist[k];
    } else {
      assert bs[i].id != bs[j].id by {
        if i < j { assert bs[i].id != bs[j].id; } else { assert bs[j].id != bs[i].id; }
      }
    }
  }

  /** Every history row still names a stored row after the trigger on row i. */
  lemma BidUpdateKeepsHistoryRows(bs: seq<Bid>, hs: seq<BidHistory>, i: nat, after: Bid, historyId: Id, now: Time)
    requires BidTableValid(bs, hs)
    requires i < |bs| && after.id == bs[i].id
    ensures var step := BidTrigger(bs[i], after, historyId, now);
      BidHistoryOwned(bs[i := step.0], hs + [step.1])
  {
    var step := BidTrigger(bs[i], after, historyId, now);
    var bs', hs' := bs[i := step.0], hs + [step.1];
    forall k | 0 <= k < |hs'|
      ensures BidHistoryRowOk(hs'[k]) && HasBid(bs', hs'[k].bidId)
    {
      if k < |hs| {
        var j :| 0 <= j < |bs| && bs[j].id == hs[k].bidId;
        assert bs'[j].id == hs'[k].bidId;
      } else {
        assert bs'[i].id == hs'[k].bidId;
      }
    }
  }

  /** The bid trigger keeps the table invariant. */
  lemma BidUpdateKeepsTable(bs: seq<Bid>, hs: seq<BidHistory>, i: nat, after: Bid, historyId: Id, now: Time)
    requires BidTableValid(bs, hs)
    requires i < |bs| && after.id == bs[i].id && BidRowOk(after)
    ensures BidTableValid(bs[i := BidTrigger(bs[i], after, historyId, now).0],
                          hs + [BidTrigger(bs[i], after, historyId, now).1])
    ensures BidHistoryOf(hs + [BidTrigger(bs[i], after, historyId, now).1], bs[i].id)
         == BidHistoryOf(hs, bs[i].id) + [BidSnapshot(bs[i], historyId, now)]
  {
    var step := BidTrigger(bs[i], after, historyId, now);
    var bs', hs' := bs[i := step.0], hs + [step.1];
    assert BidIdsUnique(bs') by {
      assert forall j :: 0 <= j < |bs| ==> bs'[j].id == bs[j].id;
    }
    assert BidRowsChained(bs', hs') by {
      forall j | 0 <= j < |bs'|
        ensures BidRowOk(bs'[j]) && BidChain(bs'[j], BidHistoryOf(hs', bs'[j].id))
      {
        BidUpdateKeepsRow(bs, hs, i, j, after, historyId, now);
      }
    }
    BidUpdateKeepsHistoryRows(bs, hs, i, after, historyId, now);
    BidHistoryOfSnoc(hs, step.1, bs[i].id);
  }

  lemma BidInsertKeepsTable(bs: seq<Bid>, hs: seq<BidHistory>, b: Bid)
    requires BidTableValid(bs, hs)
    requires !HasBid(bs, b.id) && BidRowOk(b) && b.version == InitialVersion
    ensures BidTableValid(bs + [b], hs)
    ensures BidHistoryOf(hs, b.id) == []
  {
    FilterNone(hs, (h: BidHistory) => h.bidId == b.id);
    var bs' := bs + [b];
    forall k | 0 <= k < |hs| ensures HasBid(bs', hs[k].bidId) {
      var j :| 0 <= j < |bs| && bs[j].id == hs[k].bidId;
      assert bs'[j].id == hs[k].bidId;
    }
  }

  lemma BidHistoryVersions(bs: seq<Bid>, hs: seq<BidHistory>, i: nat, v: int)
    requires BidTableValid(bs, hs) && i < |bs|
    ensures FindBidHistory(hs, bs[i].id, v).Some? <==> 1 <= v < bs[i].version
    ensures FindBidHistory(hs, bs[i].id, v).Some? ==> BidHistoryRowOk(FindBidHistory(hs, bs[i].id, v).value)
  {
    var hist := BidHistoryOf(hs, bs[i].id);
    assert BidChain(bs[i], hist);
    var found := FindBidHistory(hs, bs[i].id, v);
    if found.Some? {
      var h := found.value;
      assert h in Filter(hs, (h: BidHistory) => h.bidId == bs[i].id);
      var k :| 0 <= k < |hist| && hist[k] == h;
      assert h.version == k + 1;
      var m :| 0 <= m < |hs| && hs[m] == h;
    }
    if 1 <= v < bs[i].version {
      assert hist[v - 1].version == v && hist[v - 1] in hs;
    }
  }

  /** The row a rollback writes: the content of history row `h` over the current row. */
  function RestoredBid(b: Bid, h: BidHistory): Bid {
    b.(name := h.name, description := h.description, status := h.status)
  }

  /** Rollback is one more forward update: the row takes the content of version v under a version
      above both v and the current one, the table stays valid, and every version up to the one
      rolled back from stays reachable in the history. */
  lemma BidRollbackForward(bs: seq<Bid>, hs: seq<BidHistory>, i: nat, v: int, historyId: Id, now: Time)
    requires BidTableValid(bs, hs) && i < |bs|
    requires FindBidHistory(hs, bs[i].id, v).Some?
    ensures
      var h := FindBidHistory(hs, bs[i].id, v).value;
      var step := BidTrigger(bs[i], RestoredBid(bs[i], h), historyId, now);
      && BidContentOf(step.0) == BidHistoryContent(h)
      && step.0.version == bs[i].version + 1 && bs[i].version > v
      && BidTableValid(bs[i := step.0], hs + [step.1])
      && forall u :: 1 <= u <= bs[i].version ==> FindBidHistory(hs + [step.1], bs[i].id, u).Some?
  {
    BidHistoryVersions(bs, hs, i, v);
    var h := FindBidHistory(hs, bs[i].id, v).value;
    var step := BidTrigger(bs[i], RestoredBid(bs[i], h), historyId, now);
    BidUpdateKeepsTable(bs, hs, i, RestoredBid(bs[i], h), historyId, now);
    var bs', hs' := bs[i := step.0], hs + [step.1];
    forall u | 1 <= u <= bs[i].version ensures FindBidHistory(hs', bs[i].id, u).Some? {
      BidHistoryVersions(bs', hs', i, u);
    }
  }
}
