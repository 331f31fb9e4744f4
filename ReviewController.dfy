/** Feedback on bids and the listing of the feedback an author's bids received. */
module ReviewController {
  import opened Outcomes
  import opened Seqs
  import opened Paging
  import opened Models
  import opened Tables
  import opened Authorization
  import opened Database

  /** One entry of the review listing. */
  datatype ReviewResponse = ReviewResponse(id: Id, description: string, createdAt: Time)

  function ToResponse(rv: Review): ReviewResponse {
    ReviewResponse(rv.id, rv.description, rv.createdAt)
  }

  /** The reviews, in table order, whose author id is `authorId`. */
  function ReviewsBy(reviews: seq<Review>, authorId: Id): (r: seq<Review>)
    ensures |r| <= |reviews|
    ensures forall rv :: rv in r <==> rv in reviews && rv.bidAuthorId == authorId
  {
    Filter(reviews, (rv: Review) => rv.bidAuthorId == authorId)
  }

  /** `x` is the response entry of a stored review whose author id is `authorId`. */
  ghost predicate RendersReviewBy(x: ReviewResponse, reviews: seq<Review>, authorId: Id) {
    exists rv :: rv in reviews && rv.bidAuthorId == authorId && x == ToResponse(rv)
  }

  /** The response loop: one entry per review, in the same order. */
  method ToResponses(reviews: seq<Review>) returns (rs: seq<ReviewResponse>)
    ensures |rs| == |reviews|
    ensures forall k :: 0 <= k < |reviews| ==>
      rs[k].id == reviews[k].id && rs[k].description == reviews[k].description &&
      rs[k].createdAt == reviews[k].createdAt
  {
    rs := [];
    for k := 0 to |reviews|
      invariant |rs| == k
      invariant forall j :: 0 <= j < k ==> rs[j] == ToResponse(reviews[j])
    {
      rs := rs + [ToResponse(reviews[k])];
    }
  }

  /** PUT /bids/{bidId}/feedback: a responsible of the tender's organization leaves a review of a
      published bid. The stored review names the bid and, as its author, the submitting user. A
      text longer than the column takes is refused by the store. The response is the bid. */
  method SubmitFeedback(db: Store, bidId: Id, username: string, feedback: string, reviewId: Id, now: Time)
    returns (r: Result<Bid>)
    modifies db`reviews
    ensures username == "" || feedback == "" ==> r == Err(InvalidArgument)
    ensures username != "" && feedback != "" ==>
      var p := PublishedBidGate(db.employees, db.tenders, db.bids, username, bidId);
      && (p.Err? ==> r == Err(p.error))
      && (p.Ok? ==>
            var (user, bi, ti) := p.value;
            && (!IsMember(db.memberships, user.id, db.tenders[ti].organizationId) ==> r == Err(Forbidden))
            && (IsMember(db.memberships, user.id, db.tenders[ti].organizationId) ==>
                  && (|feedback| > MaxReviewLength ==> r == Err(StorageFailure))
                  && (|feedback| <= MaxReviewLength ==>
                        r == Ok(db.bids[bi]) &&
                        db.reviews == old(db.reviews) + [Review(reviewId, bidId, user.id, feedback, now)])))
    ensures r.Err? ==> db.reviews == old(db.reviews)
  {
    if username == "" || feedback == "" {
      return Err(InvalidArgument);
    }
    var p := PublishedBidGate(db.employees, db.tenders, db.bids, username, bidId);
    if p.Err? {
      return Err(p.error);
    }
    var (user, bi, ti) := p.value;
    if !IsMember(db.memberships, user.id, db.tenders[ti].organizationId) {
      return Err(Forbidden);
    }
    var ok := db.InsertReview(Review(reviewId, bidId, user.id, feedback, now));
    if !ok {
      return Err(StorageFailure);
    }
    r := Ok(db.bids[bi]);
  }

  /** GET /bids/{tenderId}/reviews: for a responsible of the tender's organization, a page of the
      reviews whose author id is the named author's, each turned into a response entry. The
      tender only gates access; it does not filter the reviews. */
  method GetReviews(db: Store, tenderId: Id, authorUsername: string, requesterUsername: string, limit: IntParam, offset: IntParam)
    returns (r: Result<seq<ReviewResponse>>)
    ensures r == Err(InvalidArgument) <==>
      authorUsername == "" || requesterUsername == "" || ReadWindow(limit, offset).Err?
    ensures authorUsername != "" && requesterUsername != "" && ReadWindow(limit, offset).Ok? ==>
      var g := TenderGate(db.employees, db.memberships, db.tenders, requesterUsername, tenderId);
      && (g.Err? ==> r == Err(g.error))
      && (g.Ok? && EmployeeByName(db.employees, authorUsername).None? ==> r == Err(NotFound))
      && (g.Ok? && EmployeeByName(db.employees, authorUsername).Some? ==> r.Ok?)
    ensures r.Ok? ==> |r.value| <= ReadLimit(limit).value
    ensures r.Ok? ==>
      var authorId := EmployeeByName(db.employees, authorUsername).value.id;
      forall k :: 0 <= k < |r.value| ==> RendersReviewBy(r.value[k], db.reviews, authorId)
    ensures r.Ok? ==>
      var authorId := EmployeeByName(db.employees, authorUsername).value.id;
      var page := Page(ReviewsBy(db.reviews, authorId), ReadLimit(limit).value, ReadOffset(offset).value);
      |r.value| == |page| && forall k :: 0 <= k < |page| ==> r.value[k] == ToResponse(page[k])
  {
    if authorUsername == "" || requesterUsername == "" {
      return Err(InvalidArgument);
    }
    var window := ReadWindow(limit, offset);
    if window.Err? {
      return Err(window.error);
    }
    var g := TenderGate(db.employees, db.memberships, db.tenders, requesterUsername, tenderId);
    if g.Err? {
      return Err(g.error);
    }
    var author := EmployeeByName(db.employees, authorUsername);
    if author.None? {
      return Err(NotFound);
    }
    var authorId := author.value.id;
    var page := Page(ReviewsBy(db.reviews, authorId), window.value.0, window.value.1);
    var responses := ToResponses(page);
    assert forall k :: 0 <= k < |page| ==> responses[k] == ToResponse(page[k]);
    PagedResponsesByAuthor(db.reviews, authorId, window.value.0, window.value.1, responses);
    r := Ok(responses);
  }

  /** Every response on a page of an author's reviews renders a stored review written by that author. */
  lemma PagedResponsesByAuthor(reviews: seq<Review>, authorId: Id, limit: int, offset: int, responses: seq<ReviewResponse>)
    requires limit > 0 && offset >= 0
    requires var page := Page(ReviewsBy(reviews, authorId), limit, offset);
      |responses| == |page| && forall k :: 0 <= k < |page| ==> responses[k] == ToResponse(page[k])
    ensures forall k :: 0 <= k < |responses| ==> RendersReviewBy(responses[k], reviews, authorId)
  {
    var written := ReviewsBy(reviews, authorId);
    var page := Page(written, limit, offset);
    forall k | 0 <= k < |responses|
      ensures RendersReviewBy(responses[k], reviews, authorId)
    {
      var rv := written[offset + k];
      assert rv in written;
      assert responses[k] == ToResponse(rv);
    }
  }
}
