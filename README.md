# Tender and bid lifecycle: a Dafny model

This project models the core of a tender service built on gin and gorm over Postgres.

- Organizations publish **tenders**.
- Employees submit **bids** on them.
- The responsibles of the tender's organization leave **decisions** and **reviews** on those bids.

The backbone is the pair of Postgres `BEFORE UPDATE` triggers, `update_tender_history` and `update_bid_history`. Every UPDATE of a tender or bid row does two things:

- it inserts a history row holding the OLD values and the OLD version;
- it stores the NEW row with version OLD.version + 1.

The model is split into modules:

- **Models** holds the records and the closed Postgres enumerations. Each enumeration has a label function and a cast that fails outside its labels.
- **Database** holds the store as one class, `Store`, with a sequence-valued field per table.
  - Its methods are the only writers.
  - `UpdateTender` and `UpdateBid` run the trigger.
  - `Valid()` is the table invariant: unique ids, storable rows, and for every row a history with exactly one entry per earlier version.
- **Versioning** holds the trigger as functions, and the lemmas about it:
  - the history a run of updates leaves behind;
  - preservation of the invariant;
  - forward-only rollback.
- **Authorization** holds:
  - the membership gate of the tender handlers;
  - the author / co-member rule of the bid handlers, including the scalar subquery over the author's memberships;
  - the published-bid checks of the decision and feedback handlers.
- **Ordering** holds the `ORDER BY name` of the listings: a lexicographic order on names and an insertion sort by it.
- **TenderController**, **BidController**, **DecisionController** and **ReviewController** each hold one method per HTTP handler.
  - Each method takes the store and the decoded request, and returns `Ok(value)` or `Err(kind)`.
  - The error kinds are 400 InvalidArgument, 401 Unauthenticated, 403 Forbidden, 404 NotFound and 500 StorageFailure.
  - Each method's `ensures` gives the outcome of every check, in the handler's order.
  - For a successful call, it also gives the whole new state of the tables the handler writes.
- **Paging**, **Tables**, **Seqs** and **Outcomes** are the support modules. They hold the `limit`/`offset` window, single-row lookups and counts, filtering, and the result types.

The environment supplies fresh row ids, history row ids and the current time as parameters.

Some behaviours of the code are easy to miss. The model keeps them as they are:

- **An empty edit body changes nothing.** gorm's struct update writes only the non-empty fields, and issues no statement at all when every field is empty. So no trigger fires, no history row is written, and the version stays.
- **Writing an unchanged value still makes a new version.** A status update, or an edit that writes a value equal to the current one, still fires the trigger: one more history row, version + 1.
- **EditBid checks status against the tender's labels.** Its own status check admits Created, Published and Closed, so Canceled is refused with 400. Closed passes the check, but the `bid_status` enum refuses it, so the answer is 500.
- **The co-member rule depends on a scalar subquery.** It looks up the author's organization. When the author has no membership, the subquery yields NULL and matches no row. When the author has several, Postgres raises an error because a scalar subquery returned more than one row. Either way the lookup fails, the answer is 403, and only the author may act on an Organization-authored bid.
- **The quorum counts approvals, not approvers.** Every Approved decision on the bid counts, including repeats by the same responsible. So one responsible can close a tender alone.
- **A rejection can close the tender.** The quorum check also runs after a rejection, so a rejection closes the tender when the earlier approvals already reached the quorum.
- **A review's author is the reviewer.** A stored review records as `bidAuthorId` the id of the user who submitted it, not the bid's author. The review listing filters on that column.

## Model

| member | source | states |
|---|---|---|
| Models.ParseServiceType | models/tender.go:8-14 | the cast succeeds exactly on Construction, Delivery and Manufacture, and yields the value with that label |
| Models.ParseStatus | models/tender.go:16-22 | the tender status cast succeeds exactly on Created, Published and Closed, and yields the value with that label |
| Models.ParseAuthorType | models/bid.go:8-13 | the author type cast succeeds exactly on Organization and User |
| Models.ParseBidStatus | models/bid.go:15-21 | the bid status cast succeeds exactly on Created, Published and Canceled; Closed is refused |
| Models.ParseDecisionType | controllers/decision.go:69-78 | a decision value is accepted exactly when it is Approved or Rejected |
| Models.EnumRoundTrips | main.go:53-105 | every enumeration label casts back to its own value |
| Paging.ReadLimit | controllers/tender.go:38-46 | limit defaults to 5; a non-number or a value <= 0 is 400; otherwise the given value |
| Paging.ReadOffset | controllers/tender.go:48-52 | offset defaults to 0; a non-number or a negative value is 400; otherwise the given value |
| Paging.ReadWindow | controllers/review.go:103-114 | the window is accepted exactly when both limit and offset are, and is then the pair of their values |
| Paging.ReadVersion | controllers/tender.go:360-365 | the rollback version is accepted exactly when it is a number > 0 |
| Paging.Page | controllers/tender.go:56 | LIMIT/OFFSET: at most `limit` rows, row k is row offset + k of the input, and the page is full whenever enough rows remain |
| Ordering.NameLeTotal | controllers/tender.go:56 | any two names are ordered one way or the other |
| Ordering.NameLeTrans | controllers/tender.go:56 | the name order is transitive |
| Ordering.InsertBy | controllers/tender.go:56 | inserting a row into name-sorted rows keeps them sorted and adds exactly that row |
| Ordering.SortBy | controllers/tender.go:56 | `ORDER BY name`: the result is sorted by name and is a permutation of the input |
| Ordering.SortByMembers | controllers/tender.go:56 | sorting neither adds nor drops a row |
| Ordering.PageOfSorted | controllers/tender.go:56 | LIMIT and OFFSET applied after the sort give a sorted page |
| Ordering.SortedPage | controllers/tender.go:56 | a window of the sorted rows is sorted and holds only rows of the query's result |
| Tables.MemberCount | controllers/decision.go:105-106 | the count of an organization's responsibles is at most the number of membership rows, and 0 on an empty table |
| Tables.MemberCountSnoc | controllers/decision.go:105-106 | one more membership row adds one to the count exactly when it is of that organization |
| Tables.MemberCountPositive | controllers/decision.go:64 | a user who passed the membership check makes the member count at least 1 |
| Tables.TenderHistoryOfSnoc | main.go:115-116 | appending a history row extends exactly the history of the tender it names |
| Tables.BidHistoryOfSnoc | main.go:148-149 | appending a history row extends exactly the history of the bid it names |
| Versioning.Written | controllers/tender.go:26-31 | an edit body field is written exactly when it is non-empty, and then with its value |
| Versioning.AssignTender | controllers/tender.go:311-315 | the store accepts the written values exactly when the enum labels cast and the texts fit; only written columns change; id, organization and creation time never do |
| Versioning.AssignBid | controllers/big.go:379-382 | the store accepts the written values exactly when the status casts and the texts fit; tender, author type, author and id never change |
| Versioning.ReplayTender | main.go:111-126 | after N updates the version has grown by N and there are N history rows |
| Versioning.TenderReplayFidelity | main.go:111-126 | history row k holds version v0 + k and the content the tender had at that version; from version 1, N updates give version N + 1 and history versions exactly 1..N |
| Versioning.ReplayBid | main.go:143-159 | after N bid updates the version has grown by N and there are N history rows |
| Versioning.BidReplayFidelity | main.go:143-159 | bid history row k holds version v0 + k and the content at that version; from version 1, N updates give version N + 1 and history versions 1..N |
| Versioning.TenderUpdateKeepsRow | main.go:115-119 | after the trigger on one row, every row is still storable and its history still chains; only the updated row's history grows |
| Versioning.TenderUpdateKeepsHistoryRows | main.go:115-116 | every history row still belongs to a stored tender after the trigger |
| Versioning.TenderUpdateKeepsTable | main.go:111-141 | the trigger keeps the tender table invariant, and the updated tender's history grows by exactly the snapshot of its old row |
| Versioning.TenderInsertKeepsTable | models/tender.go:31 | inserting a fresh tender at version 1 keeps the invariant; its history starts empty |
| Versioning.TenderHistoryVersions | controllers/tender.go:367-371 | a tender has a history row for version v exactly when 1 <= v < its current version |
| Versioning.TenderRollbackForward | controllers/tender.go:373-382 | restoring a found version under the trigger gives the row that version's content at version current + 1, above the target; the table invariant holds; every version up to the one rolled back from stays in the history |
| Versioning.BidUpdateKeepsRow | main.go:148-152 | after the trigger on one bid row, every bid is still storable and its history still chains |
| Versioning.BidUpdateKeepsHistoryRows | main.go:148-149 | every bid history row still belongs to a stored bid after the trigger |
| Versioning.BidUpdateKeepsTable | main.go:143-174 | the trigger keeps the bid table invariant, and the updated bid's history grows by exactly the snapshot of its old row |
| Versioning.BidInsertKeepsTable | models/bid.go:31 | inserting a fresh bid at version 1 keeps the invariant; its history starts empty |
| Versioning.BidHistoryVersions | controllers/big.go:447-451 | a bid has a history row for version v exactly when 1 <= v < its current version |
| Versioning.BidRollbackForward | controllers/big.go:453-458 | restoring a found bid version gives the row that version's content at version current + 1, above the target; the invariant holds; every version up to the one rolled back from stays in the history |
| Database.Store.InsertTender | controllers/tender.go:121 | the insert succeeds exactly on a fresh id and fitting texts, appends the row and keeps the invariant |
| Database.Store.UpdateTender | main.go:111-141 | an empty write changes nothing; a refused write changes nothing; otherwise the row gets the written columns, version old + 1 and a history row with the old values, and the invariant holds |
| Database.Store.SetTenderStatus | controllers/tender.go:258 | a status update always changes the status, bumps the version and appends the snapshot of the old row |
| Database.Store.RestoreTender | controllers/tender.go:374-379 | restoring a history row copies its name, description, service type and status, bumps the version and appends the old row |
| Database.Store.InsertBid | controllers/big.go:82 | the insert succeeds exactly on a fresh id and fitting texts, appends the row and keeps the invariant |
| Database.Store.UpdateBid | main.go:143-174 | the bid update under the trigger: no-op on an empty or refused write, else written columns, version old + 1 and one history row |
| Database.Store.SetBidStatus | controllers/big.go:302 | a bid status update always changes the status, bumps the version and appends the old row |
| Database.Store.RestoreBid | controllers/big.go:454-458 | restoring a bid history row copies name, description and status, bumps the version and appends the old row |
| Database.Store.InsertDecision | controllers/decision.go:87 | a decision is appended |
| Database.Store.InsertReview | controllers/review.go:76 | a review is stored exactly when its text fits varchar(1000) |
| Authorization.SoleOrganization | controllers/big.go:222 | the subquery yields an organization exactly when the author has a single membership row, and that row's organization |
| Authorization.BidAccessIff | controllers/big.go:215-233 | access is granted iff the user is the author, or the bid is Organization-authored, the author has exactly one membership, and the user is a member of its organization |
| Authorization.CoMemberAccess | controllers/big.go:266-275 | when the author's only membership is in organization o, exactly the author and the members of o may act |
| Authorization.AmbiguousAuthorOnlyAuthor | controllers/big.go:427-430 | with zero or several author memberships, only the author may act |
| Authorization.TenderGate | controllers/tender.go:223-239 | 401 iff the user is unknown; 404 iff the user is known and the tender missing; 403 iff both exist and the user is not a responsible; on success the user and the tender row |
| Authorization.BidGate | controllers/big.go:253-282 | 401 iff the user is unknown; 404 iff the bid is missing; 403 iff the bid rule refuses; on success the user and the bid row |
| Authorization.PublishedBidGate | controllers/decision.go:33-55 | 401 unknown user, 404 missing bid, 400 bid not published, 404 missing tender, each as an iff; on success a published bid and its tender |
| TenderController.EditTenderWrite | controllers/tender.go:312 | each of name, description, service type and status is written exactly when its body field is non-empty, and then with that value; the version is never written; the write is empty exactly when the whole body is |
| TenderController.GetTenders | controllers/tender.go:33-68 | 400 on a bad window; 500 iff a requested service type is not a label; else at most `limit` published tenders of the requested types, in name order: the window of the filtered table sorted by name |
| TenderController.CreateTender | controllers/tender.go:70-127 | body 400, organization 400, creator 401, membership 403, service type 400, in that order; success iff all pass and the store accepts, and 500 when all pass but the store refuses; the new tender is Created, version 1, in the requested organization |
| TenderController.GetUserTenders | controllers/tender.go:129-171 | 400 on empty username or bad window, 401 on unknown user; else at most `limit` tenders, all of organizations the user is responsible for, in name order: the window of those tenders sorted by name |
| TenderController.GetTenderStatus | controllers/tender.go:173-206 | 400 on empty username, then the tender gate; on success the stored status of that tender |
| TenderController.UpdateTenderStatus | controllers/tender.go:208-270 | 400, then the gate, then 400 on a status outside the three; any status may be set from any status; the tender gets it with version + 1 and one history row; errors change nothing |
| TenderController.EditTender | controllers/tender.go:272-324 | 400, gate, 400 on an unbound body; empty body returns the tender unchanged; a refused value is 500; else only the supplied fields change, version + 1, one history row |
| TenderController.RollbackTender | controllers/tender.go:326-391 | 400, gate, 400 on version <= 0; 404 exactly when the version is not below the current one; else the content of that version is restored at version old + 1 |
| BidController.EditBidWrite | controllers/big.go:379 | each of name, description and status is written exactly when its body field is non-empty, and then with that value; the version is never written; the write is empty exactly when the whole body is |
| BidController.EditStatusReachesStore | controllers/big.go:367-382 | of non-empty statuses, Created and Published reach the store and are accepted, Closed passes the handler but the store refuses it, Canceled is refused by the handler |
| BidController.CreateBid | controllers/big.go:32-88 | body 400, author 401, tender 404, tender not published 403, Organization author without membership 403; success iff all pass and the store accepts, and 500 when all pass but the cast or the store refuses; the new bid is Created, version 1, on the requested tender by the requested author |
| BidController.GetUserBids | controllers/big.go:90-132 | 400 on empty username or bad window, 401 on unknown user; else at most `limit` bids, all authored by the user, in name order: the window of the user's bids sorted by name |
| BidController.GetTenderBids | controllers/big.go:134-192 | 400, then the tender gate; else at most `limit` bids, all published bids of that tender, in name order: the window of those bids sorted by name |
| BidController.GetBidStatus | controllers/big.go:194-236 | the bid gate, with no empty-username check; on success the stored status of that bid |
| BidController.UpdateBidStatus | controllers/big.go:238-313 | 400, bid gate, then 400 on a status outside Created/Published/Canceled; the bid gets it with version + 1 and one history row; errors change nothing |
| BidController.EditBid | controllers/big.go:315-391 | 400, bid gate, 400 on an unbound body or a status outside Created/Published/Closed; empty body unchanged; a refused value is 500; else supplied fields, version + 1, one history row |
| BidController.RollbackBid | controllers/big.go:393-470 | 400 on missing username or version, bid gate, 400 on version <= 0; 404 exactly when the version is not below the current one; else restore at version old + 1 |
| DecisionController.Quorum | controllers/decision.go:108 | the quorum is min(3, number of responsibles) |
| DecisionController.ApprovedCount | controllers/decision.go:102-103 | the count is positive exactly when some Approved decision on this bid exists |
| DecisionController.ApprovedCountSnoc | controllers/decision.go:87-103 | one more decision adds one to the count exactly when it approves this bid |
| DecisionController.QuorumOfMember | controllers/decision.go:64-108 | whoever passes the membership check sees a quorum between 1 and 3 |
| DecisionController.RejectionClosesOnlyAtQuorum | controllers/decision.go:93-116 | after a rejection the tender closes iff the earlier approvals already reached the quorum |
| DecisionController.FirstRejectionKeepsTenderOpen | controllers/decision.go:101-116 | a rejection of a bid with no approvals never closes the tender |
| DecisionController.FirstApprovalCloses | controllers/decision.go:101-116 | the first approval closes the tender exactly when the organization has one responsible |
| DecisionController.ApprovalsCountInFull | controllers/decision.go:81-103 | approvals of a bid appended to any table of decisions each add one to the count, whoever submitted them |
| DecisionController.OneResponsibleReachesQuorum | controllers/decision.go:81-110 | three approvals by the same responsible, after any earlier decisions, reach any quorum |
| DecisionController.DecisionGate | controllers/decision.go:27-78 | the checks in order: 400 missing parameters, published-bid checks, 400 tender not published, 403 not a responsible, 400 decision not Approved/Rejected |
| DecisionController.RecordDecision | controllers/decision.go:80-116 | one decision is appended; a rejection cancels the bid with version + 1; the tender is closed with version + 1 iff the approvals reach the quorum |
| DecisionController.SubmitDecision | controllers/decision.go:16-125 | nothing is written unless every check passes; then the decision writes above, and the reloaded bid is returned |
| ReviewController.ReviewsBy | controllers/review.go:142 | the listed reviews are exactly those of the table whose author id is the given one |
| ReviewController.ToResponses | controllers/review.go:148-154 | one response per review, in the same order, with its id, description and creation time |
| ReviewController.PagedResponsesByAuthor | controllers/review.go:142-154 | every response on the page renders a stored review written under the author's id |
| ReviewController.SubmitFeedback | controllers/review.go:22-82 | 400 missing parameters, published-bid checks, 403 not a responsible, 500 text too long; on success one review (bid, reviewer, text) is appended and the bid returned unchanged |
| ReviewController.GetReviews | controllers/review.go:84-157 | 400 missing parameters or bad window, then the tender gate, 404 unknown author; else at most `limit` responses, each from a review by the author, in table order |

## Left out

- TenderController.GetTenders: `ORDER BY name` is modelled as character-code lexicographic order, not the database's locale collation. Rows with equal names come in insertion order, where Postgres leaves their order unspecified.
- TenderController.GetUserTenders: the same name order as GetTenders, with the same two differences from Postgres' collation and tie order.
- BidController.GetUserBids: the same name order as GetTenders, with the same two differences from Postgres' collation and tie order.
- BidController.GetTenderBids: the same name order as GetTenders, with the same two differences from Postgres' collation and tie order.
- UUIDs and timestamps are not modelled as values. Ids are natural numbers, with 0 as the all-zero UUID that `binding:"required"` refuses. Fresh ids and the current time are parameters. The string rendering of ids and times in review responses is not modelled.
- A malformed UUID in a path parameter is modelled as an id that matches no row, so the lookup answers 404.
- Uniqueness of generated history, decision and review ids is not checked, because no handler looks those rows up by id.
- Storage failures other than enum casts, varchar overflow and duplicate primary keys are not modelled. This leaves out connection loss, failed reloads and the ignored `Count` errors. Arbitrary failures cannot be derived from the code.
- Concurrency is not modelled. Each handler is one sequential step, including the non-atomic insert / count / close sequence of decision submission.
- JSON binding and number parsing are abstracted:
  - a body that does not bind is `None`;
  - an integer parameter is `Absent`, `Malformed` or a value.
- A review listing with no entries encodes as JSON `null`. This is not modelled; the model returns an empty sequence.
- Integers are unbounded. Go's `int` overflow of versions, limits and offsets is not modelled, because no realistic run reaches it.
- Postgres' stripping of trailing spaces on varchar overflow is not modelled: any over-long text is refused.
- Creating employees, organizations and memberships is not modelled; the code never does it, so they are initial state.
- Routing, configuration, the server lifecycle, the extension set-up and the schema migration are not part of this model.
