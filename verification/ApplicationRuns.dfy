/** Safety of the application life cycle over whole runs: what every reachable register
    satisfies and how applications evolve. */
module ApplicationRuns {
  import opened Prelude
  import opened Screening
  import opened Applications

  datatype Step =
    | Submit(hex: string, intake: Intake)
    | Upload(id: string, documents: seq<DocKey>)
    | Resolve(reviewId: string, decision: string, reviewer: string, notes: string)
    | Inspect(requestId: string, fallback: string, clientId: string, high: bool, userId: string)
    | Direct(call: KycCall)

  function Next(s: State, step: Step, lists: Lists): State {
    match step
    case Submit(hex, intake) => Submitted(s, hex, intake, lists)
    case Upload(id, documents) => Uploaded(s, id, documents)
    case Resolve(id, decision, reviewer, notes) => ResolvedReview(s, id, Resolved(decision, reviewer, notes))
    case Inspect(requestId, fallback, clientId, high, userId) =>
      Inspected(s, requestId, fallback, clientId, high, userId)
    case Direct(c) => DirectlyScreened(s, c, lists)
  }

  /** Application ids are fresh; uuid-derived parts are hexadecimal. */
  predicate Allowed(s: State, step: Step) {
    match step
    case Submit(hex, _) => IsHex(hex) && AppId(hex) !in s.records
    case Inspect(_, fallback, _, _, _) => IsHex(fallback)
    case _ => true
  }

  function Run(steps: seq<Step>, lists: Lists): State {
    if steps == [] then State(map[], [])
    else Next(Run(steps[..|steps| - 1], lists), steps[|steps| - 1], lists)
  }

  predicate Legal(steps: seq<Step>, lists: Lists) {
    steps == []
    || (Legal(steps[..|steps| - 1], lists) && Allowed(Run(steps[..|steps| - 1], lists), steps[|steps| - 1]))
  }

  // ------------------------------------------------------------ the invariant

  function HexOf(id: string): string {
    if |id| >= 4 then id[4..] else ""
  }

  predicate Flagged(r: Record) {
    r.kyc == PendingReview
  }

  /** The review an application must carry: its screening review when flagged, its final
      approval when the file is complete, none otherwise. */
  function DueReview(r: Record): Option<string> {
    if Flagged(r) then Some(KycReviewId(r.id))
    else if r.missing == [] then Some(FinalReviewId(r.id))
    else None
  }

  /** Provided and missing documents partition the required ones, both in their listed order. */
  predicate ChecklistExact(r: Record) {
    && AsSet(r.provided) <= AsSet(REQUIRED)
    && r.provided == Pick(ALPHABETICAL, AsSet(r.provided))
    && r.missing == Pick(REQUIRED, AsSet(REQUIRED) - AsSet(r.provided))
  }

  predicate RecordOk(id: string, r: Record) {
    && r.id == id && IsHex(HexOf(id)) && id == AppId(HexOf(id))
    && ChecklistExact(r)
    && r.reviewId == DueReview(r)
  }

  /** The id of the final approval of an application. */
  predicate IsFinalOf(hex: string, reviewId: string) {
    IsHex(hex) && reviewId == FinalReviewId(AppId(hex))
  }

  /** A final approval belongs to its application. The same is not true of screening reviews,
      which direct calls can queue for applications yet to come. */
  ghost predicate Owned(s: State, reviewId: string) {
    forall hex | IsFinalOf(hex, reviewId) ::
      AppId(hex) in s.records && s.records[AppId(hex)].reviewId == Some(reviewId)
  }

  predicate Queued(s: State, reviewId: string) {
    FindReview(s.reviews, reviewId).Some?
  }

  ghost predicate Inv(s: State) {
    && (forall id :: id in s.records ==> RecordOk(id, s.records[id]))
    && (forall id :: id in s.records && s.records[id].reviewId.Some? ==> Queued(s, s.records[id].reviewId.value))
    && (forall reviewId :: Queued(s, reviewId) ==> Owned(s, reviewId))
    && DistinctIds(s.reviews)
  }

  // ------------------------------------------------------------ the queue as a map

  lemma FindAfterPut(reviews: seq<Review>, review: Review, id: string)
    ensures FindReview(PutReview(reviews, review), id) ==
            if id == review.id then Some(review) else FindReview(reviews, id)
    ensures DistinctIds(reviews) ==> DistinctIds(PutReview(reviews, review))
  {
    var after := PutReview(reviews, review);
    var k, l := IndexOf(reviews, id), IndexOf(after, id);
    assert forall i :: 0 <= i < |reviews| && reviews[i].id != review.id ==> after[i] == reviews[i];
    assert forall i :: 0 <= i < |reviews| ==> after[i].id == reviews[i].id;
    assert after[IndexOf(reviews, review.id)] == review;
    if k < |reviews| {
      assert l == k;
    } else if id == review.id {
      assert l == |reviews|;
    } else {
      assert l == |after|;
    }
  }

  lemma FindAfterResolve(reviews: seq<Review>, resolved: string, state: ReviewState, id: string)
    ensures FindReview(ResolveIn(reviews, resolved, state), id) ==
            var before := FindReview(reviews, id);
            if id == resolved && before.Some? then Some(before.value.(state := state)) else before
    ensures DistinctIds(reviews) ==> DistinctIds(ResolveIn(reviews, resolved, state))
  {
    var after := ResolveIn(reviews, resolved, state);
    assert forall i :: 0 <= i < |reviews| ==> after[i].id == reviews[i].id;
    assert IndexOf(after, id) == IndexOf(reviews, id);
  }

  // ------------------------------------------------------------ the checklist

  lemma {:induction false} PickCongruent(keys: seq<DocKey>, a: set<DocKey>, b: set<DocKey>)
    requires forall k :: k in keys ==> (k in a <==> k in b)
    ensures Pick(keys, a) == Pick(keys, b)
  {
    if keys != [] {
      PickCongruent(keys[1..], a, b);
    }
  }

  lemma ChecklistOf(p: set<DocKey>)
    ensures var provided := Pick(ALPHABETICAL, p);
            && AsSet(provided) == p * AsSet(REQUIRED)
            && provided == Pick(ALPHABETICAL, AsSet(provided))
            && Pick(REQUIRED, AsSet(REQUIRED) - p) == Pick(REQUIRED, AsSet(REQUIRED) - AsSet(provided))
  {
    var provided := Pick(ALPHABETICAL, p);
    assert forall k :: k in ALPHABETICAL <==> k in REQUIRED;
    assert AsSet(provided) == p * AsSet(REQUIRED);
    PickCongruent(ALPHABETICAL, p, AsSet(provided));
    PickCongruent(REQUIRED, AsSet(REQUIRED) - p, AsSet(REQUIRED) - AsSet(provided));
  }

  /** What the exact checklist means: a partition of the required documents. */
  lemma ChecklistPartitions(r: Record)
    requires ChecklistExact(r)
    ensures AsSet(r.provided) + AsSet(r.missing) == AsSet(REQUIRED)
    ensures AsSet(r.provided) !! AsSet(r.missing)
  {
    hide Pick;
  }

  // ------------------------------------------------------------ steps keep the invariant

  lemma HexOfAppId(hex: string)
    ensures HexOf(AppId(hex)) == hex
  {
  }

  lemma DueReviewOwned(r: Record)
    requires IsHex(HexOf(r.id)) && r.id == AppId(HexOf(r.id)) && DueReview(r).Some?
    ensures OwnsReviewId(HexOf(r.id), DueReview(r).value)
  {
    hide KycReviewId, FinalReviewId;
  }

  lemma UpdateKeepsInv(s: State, id: string, r: Record)
    requires Inv(s) && RecordOk(id, r)
    requires r.reviewId == if id in s.records then s.records[id].reviewId else None
    ensures Inv(State(s.records[id := r], s.reviews))
  {
    hide RecordOk, IsFinalOf, FindReview, DistinctIds;
    var s' := State(s.records[id := r], s.reviews);
    forall reviewId | Queued(s', reviewId) ensures Owned(s', reviewId) {
      assert Queued(s, reviewId);
    }
  }

  lemma NotYetQueued(s: State, id: string, hex: string, reviewId: string)
    requires Inv(s) && id == AppId(hex) && IsFinalOf(hex, reviewId)
    requires id in s.records ==> s.records[id].reviewId.None?
    ensures !Queued(s, reviewId)
  {
    hide IsFinalOf, FindReview, DistinctIds, RecordOk, Queued, AppId;
    assert Queued(s, reviewId) ==> Owned(s, reviewId);
  }

  lemma QueuedAfterPut(s: State, records: map<string, Record>, review: Review, reviewId: string)
    ensures Queued(State(records, PutReview(s.reviews, review)), reviewId) <==>
            reviewId == review.id || Queued(s, reviewId)
  {
    hide FindReview, PutReview;
    FindAfterPut(s.reviews, review, reviewId);
  }

  lemma {:induction false} OwnedAfterPut(s: State, hex: string, r: Record, review: Review, reviewId: string)
    requires Inv(s) && OwnsReviewId(hex, review.id) && r.reviewId == Some(review.id)
    requires AppId(hex) in s.records ==> s.records[AppId(hex)].reviewId.None?
    requires reviewId == review.id || Queued(s, reviewId)
    ensures Owned(State(s.records[AppId(hex) := r], PutReview(s.reviews, review)), reviewId)
  {
    hide FindReview, DistinctIds, RecordOk, Queued, AppId, PutReview, KycReviewId, FinalReviewId;
    var records := s.records[AppId(hex) := r];
    forall other | IsFinalOf(other, reviewId)
      ensures AppId(other) in records && records[AppId(other)].reviewId == Some(reviewId)
    {
      if reviewId == review.id {
        ReviewIdHasOneOwner(other, hex, reviewId);
      } else {
        assert Owned(s, reviewId);
      }
    }
  }

  lemma {:induction false} PutKeepsInv(s: State, id: string, r: Record, review: Review)
    requires Inv(s) && RecordOk(id, r) && r.reviewId == Some(review.id)
    requires id in s.records ==> s.records[id].reviewId.None?
    ensures Inv(State(s.records[id := r], PutReview(s.reviews, review)))
  {
    hide Inv, OwnsReviewId, Queued, PutReview, ChecklistExact;
    DueReviewOwned(r);
    hide AppId, HexOf, RecordOk;
    OwnedPutKeepsInv(s, id, HexOf(id), r, review);
  }

  lemma {:induction false} OwnedPutKeepsInv(s: State, id: string, hex: string, r: Record, review: Review)
    requires Inv(s) && RecordOk(id, r) && r.reviewId == Some(review.id)
    requires id in s.records ==> s.records[id].reviewId.None?
    requires id == AppId(hex) && OwnsReviewId(hex, review.id)
    ensures Inv(State(s.records[id := r], PutReview(s.reviews, review)))
  {
    hide OwnsReviewId, FindReview, DistinctIds, RecordOk, PutReview, AppId, Owned, Queued;
    var s' := State(s.records[id := r], PutReview(s.reviews, review));
    FindAfterPut(s.reviews, review, review.id);
    forall other | other in s'.records && s'.records[other].reviewId.Some?
      ensures Queued(s', s'.records[other].reviewId.value)
    {
      QueuedAfterPut(s, s'.records, review, s'.records[other].reviewId.value);
    }
    forall reviewId | Queued(s', reviewId) ensures Owned(s', reviewId) {
      QueuedAfterPut(s, s'.records, review, reviewId);
      OwnedAfterPut(s, hex, r, review, reviewId);
    }
  }

  lemma ForeignPutKeepsInv(s: State, review: Review)
    requires Inv(s) && forall hex :: !IsFinalOf(hex, review.id)
    ensures Inv(s.(reviews := PutReview(s.reviews, review)))
  {
    hide IsFinalOf, FindReview, DistinctIds, RecordOk, PutReview;
    var s' := s.(reviews := PutReview(s.reviews, review));
    FindAfterPut(s.reviews, review, review.id);
    forall id | id in s.records && s.records[id].reviewId.Some? ensures Queued(s', s.records[id].reviewId.value) {
      FindAfterPut(s.reviews, review, s.records[id].reviewId.value);
    }
    forall reviewId | Queued(s', reviewId) ensures Owned(s', reviewId) {
      FindAfterPut(s.reviews, review, reviewId);
      if reviewId != review.id {
        assert Owned(s, reviewId);
      }
    }
  }

  lemma ResolveKeepsInv(s: State, id: string, state: ReviewState)
    requires Inv(s)
    ensures Inv(ResolvedReview(s, id, state))
  {
    hide IsFinalOf, FindReview, DistinctIds, RecordOk, ResolveIn;
    var s' := ResolvedReview(s, id, state);
    FindAfterResolve(s.reviews, id, state, id);
    forall app | app in s.records && s.records[app].reviewId.Some? ensures Queued(s', s.records[app].reviewId.value) {
      FindAfterResolve(s.reviews, id, state, s.records[app].reviewId.value);
    }
    forall reviewId | Queued(s', reviewId) ensures Owned(s', reviewId) {
      FindAfterResolve(s.reviews, id, state, reviewId);
      assert Owned(s, reviewId);
    }
  }

  /** An application with a well-formed id and an exact checklist. */
  predicate BaseOk(id: string, r: Record) {
    r.id == id && IsHex(HexOf(id)) && id == AppId(HexOf(id)) && ChecklistExact(r)
  }

  lemma RecheckedOk(id: string, r: Record, p: set<DocKey>)
    requires r.id == id && IsHex(HexOf(id)) && id == AppId(HexOf(id))
    requires r.provided == Pick(ALPHABETICAL, p) && r.missing == Pick(REQUIRED, AsSet(REQUIRED) - p)
    ensures BaseOk(id, r)
  {
    ChecklistOf(p);
  }

  /** The last act of submit and upload on an unflagged application. */
  lemma FinalReviewKeepsInv(s: State, id: string, r0: Record)
    requires Inv(s) && BaseOk(id, r0) && !Flagged(r0)
    requires r0.reviewId == if id in s.records then s.records[id].reviewId else None
    requires r0.reviewId.Some? ==> r0.missing == [] && r0.reviewId == Some(FinalReviewId(id))
    ensures var (r, queue) := WithFinalReview(r0, s.reviews);
            Inv(State(s.records[id := r], queue))
  {
    hide Inv, PutReview, FinalReviewId, KycReviewId, Pick, AsSet, AppId, HexOf, IsHex;
    var (r, queue) := WithFinalReview(r0, s.reviews);
    assert RecordOk(id, r);
    if r0.reviewId.Some? || r0.missing != [] {
      UpdateKeepsInv(s, id, r);
    } else {
      PutKeepsInv(s, id, r, Review(FinalReviewId(id), r0.clientId, "low", PortalUser(r0.company), Pending));
    }
  }

  lemma {:induction false} SubmitKeepsInv(s: State, hex: string, intake: Intake, lists: Lists)
    requires Inv(s) && IsHex(hex) && AppId(hex) !in s.records
    ensures Inv(Submitted(s, hex, intake, lists))
  {
    HexOfAppId(hex);
    hide Inv, Onboarded, Slug, Pick, KycReviewId, FinalReviewId, AppId, HexOf, IsHex, PutReview, ChecklistExact, AsSet;
    var id, clientId := AppId(hex), ClientIdFor(intake.company);
    var risk := Onboarded(intake.company, intake.jurisdiction, intake.owners, lists);
    var provided := AsSet(intake.documents);
    var r := Record(
      id, clientId, intake.company, intake.jurisdiction, intake.product,
      Pick(ALPHABETICAL, provided), Pick(REQUIRED, AsSet(REQUIRED) - provided),
      risk.status, if risk.status == PendingReview then Some(KycReviewId(id)) else None);
    RecheckedOk(id, r, provided);
    if risk.status == PendingReview {
      assert RecordOk(id, r);
      PutKeepsInv(s, id, r,
        Review(KycReviewId(id), clientId, if risk.high then "high" else "low", PortalUser(intake.company), Pending));
    } else {
      FinalReviewKeepsInv(s, id, r);
    }
  }

  /** The record an upload leads to, before a final review is due. */
  function Rechecked(r: Record, documents: seq<DocKey>): Record {
    var provided := AsSet(r.provided) + AsSet(documents) * AsSet(REQUIRED);
    r.(provided := Pick(ALPHABETICAL, provided), missing := Pick(REQUIRED, AsSet(REQUIRED) - provided))
  }

  /** Uploading only ever shortens the list of missing documents. */
  lemma UploadShrinksMissing(r: Record, documents: seq<DocKey>)
    requires ChecklistExact(r)
    ensures AsSet(Rechecked(r, documents).missing) == AsSet(r.missing) - AsSet(documents)
    ensures AsSet(Rechecked(r, documents).provided) == AsSet(r.provided) + AsSet(documents) * AsSet(REQUIRED)
    ensures r.missing == [] ==> Rechecked(r, documents).missing == []
  {
    var p := AsSet(r.provided) + AsSet(documents) * AsSet(REQUIRED);
    ChecklistOf(p);
    hide Pick;
    var after := Rechecked(r, documents);
    if r.missing == [] && after.missing != [] {
      assert after.missing[0] in AsSet(after.missing);
    }
  }

  lemma {:induction false} UploadKeepsInv(s: State, id: string, documents: seq<DocKey>)
    requires Inv(s)
    ensures Inv(Uploaded(s, id, documents))
  {
    if id in s.records {
      var r := s.records[id];
      assert RecordOk(id, r);
      UploadShrinksMissing(r, documents);
      var r0 := Rechecked(r, documents);
      RecheckedOk(id, r0, AsSet(r.provided) + AsSet(documents) * AsSet(REQUIRED));
      hide Inv, Pick, KycReviewId, FinalReviewId, AppId, HexOf, IsHex, PutReview, ChecklistExact, AsSet;
      if Flagged(r) {
        UpdateKeepsInv(s, id, r0);
      } else {
        FinalReviewKeepsInv(s, id, r0);
      }
    }
  }

  lemma TaskIsNotFinal(c: KycCall, hex: string)
    ensures !IsFinalOf(hex, TaskIdOf(c))
  {
    hide ReviewSuffix;
    if IsHex(hex) {
      ReviewIdsOf(hex);
      assert ("REV-ONB-" + hex)[4] == 'O' && TaskIdOf(c)[4] == 'K';
    }
  }

  lemma {:induction false} StepKeepsInv(s: State, step: Step, lists: Lists)
    requires Inv(s) && Allowed(s, step)
    ensures Inv(Next(s, step, lists))
  {
    hide Inv, Submitted, Uploaded, ResolvedReview, ComplianceReviewId, FinalReviewId, KycReviewId, Onboarded;
    match step
    case Submit(hex, intake) => SubmitKeepsInv(s, hex, intake, lists);
    case Upload(id, documents) => UploadKeepsInv(s, id, documents);
    case Resolve(id, decision, reviewer, notes) => ResolveKeepsInv(s, id, Resolved(decision, reviewer, notes));
    case Inspect(requestId, fallback, clientId, high, userId) =>
      var severity := if high then "high" else "medium";
      var review := Review(ComplianceReviewId(requestId, fallback), clientId, severity, userId, Pending);
      forall hex ensures !IsFinalOf(hex, review.id) {
        ComplianceIdIsForeign(requestId, fallback, hex);
      }
      ForeignPutKeepsInv(s, review);
    case Direct(c) =>
      forall hex ensures !IsFinalOf(hex, TaskIdOf(c)) {
        TaskIsNotFinal(c, hex);
      }
      hide TaskIdOf, Escalates;
      if Escalates(c, lists) {
        ForeignPutKeepsInv(s, TaskFor(c, lists));
      }
  }

  /** Every reachable register satisfies the invariant. */
  lemma {:induction false} RunSatisfiesInv(steps: seq<Step>, lists: Lists)
    requires Legal(steps, lists)
    ensures Inv(Run(steps, lists))
  {
    if steps != [] {
      RunSatisfiesInv(steps[..|steps| - 1], lists);
      StepKeepsInv(Run(steps[..|steps| - 1], lists), steps[|steps| - 1], lists);
    }
  }

  // ------------------------------------------------------------ what the status means

  predicate InQueue(s: State, reviewId: string, pending: bool) {
    exists k :: 0 <= k < |s.reviews| && s.reviews[k].id == reviewId && (s.reviews[k].state.Pending? <==> pending)
  }

  function StatusIn(s: State, id: string): ClientStatus
    requires id in s.records
  {
    StatusOf(s.records[id], s.reviews)
  }

  predicate Decided(status: ClientStatus) {
    status == ApprovedStatus || status == Declined
  }

  /** In every reachable register the client is asked for documents exactly when the file is
      unflagged and incomplete, sees "under review" exactly when the application's review is
      pending in the queue, and sees a decision exactly when that review is resolved. */
  lemma {:induction false} StatusMeaning(s: State, id: string)
    requires Inv(s) && id in s.records
    ensures var r := s.records[id];
            && (StatusIn(s, id) == AdditionalDocumentsNeeded <==> !Flagged(r) && r.missing != [])
            && (StatusIn(s, id) == UnderReview <==> r.reviewId.Some? && InQueue(s, r.reviewId.value, true))
            && (Decided(StatusIn(s, id)) <==> r.reviewId.Some? && InQueue(s, r.reviewId.value, false))
  {
    hide Owned, IsApproval, ChecklistExact, KycReviewId, FinalReviewId, AppId, HexOf, IsHex;
    var r := s.records[id];
    assert RecordOk(id, r);
    if r.reviewId.Some? {
      assert Queued(s, r.reviewId.value);
    }
  }

  /** What a client is asked for, in every reachable register: nothing once there is a decision,
      otherwise exactly the required documents not provided; a client told that documents are
      missing is told which. */
  lemma OutstandingMeaning(s: State, id: string)
    requires Inv(s) && id in s.records
    ensures var r := s.records[id];
            var outstanding := OutstandingOf(r, s.reviews);
            && AsSet(outstanding) == (if Decided(StatusIn(s, id)) then {} else AsSet(REQUIRED) - AsSet(r.provided))
            && (StatusIn(s, id) == AdditionalDocumentsNeeded ==> outstanding != [])
  {
    hide StatusOf, Pick, DueReview, AppId, HexOf, Owned, Queued;
    StatusMeaning(s, id);
    InvRecord(s, id);
  }

  /** Review tasks are never shared between applications. */
  lemma {:induction false} ReviewsAreUnique(s: State, a: string, b: string)
    requires Inv(s) && a in s.records && b in s.records
    requires s.records[a].reviewId.Some? && s.records[a].reviewId == s.records[b].reviewId
    ensures a == b
  {
    assert RecordOk(a, s.records[a]) && RecordOk(b, s.records[b]);
    DueReviewOwned(s.records[a]);
    DueReviewOwned(s.records[b]);
    ReviewIdHasOneOwner(HexOf(a), HexOf(b), s.records[a].reviewId.value);
  }

  // ------------------------------------------------------------ how records evolve

  /** An application stays, its screening result stays, its missing documents only shrink and
      its review, once assigned, stays. */
  predicate Evolves(before: Record, after: Record) {
    && after.id == before.id && after.clientId == before.clientId && after.kyc == before.kyc
    && AsSet(after.missing) <= AsSet(before.missing)
    && (before.reviewId.Some? ==> after.reviewId == before.reviewId)
  }

  lemma {:induction false} StepEvolves(s: State, step: Step, lists: Lists, id: string)
    requires Inv(s) && Allowed(s, step) && id in s.records
    ensures var s' := Next(s, step, lists); id in s'.records && Evolves(s.records[id], s'.records[id])
  {
    hide Inv, Onboarded, Pick, KycReviewId, FinalReviewId, PutReview, ResolveIn, ComplianceReviewId;
    if step.Upload? && step.id in s.records {
      assert RecordOk(step.id, s.records[step.id]) by { InvRecord(s, step.id); }
      UploadShrinksMissing(s.records[step.id], step.documents);
    }
  }

  lemma {:induction false} InvRecord(s: State, id: string)
    requires Inv(s) && id in s.records
    ensures RecordOk(id, s.records[id])
  {
  }

  lemma {:induction false} RunEvolves(steps: seq<Step>, more: seq<Step>, lists: Lists, id: string)
    requires Legal(steps + more, lists)
    requires id in Run(steps, lists).records
    ensures id in Run(steps + more, lists).records
    ensures Evolves(Run(steps, lists).records[id], Run(steps + more, lists).records[id])
  {
    hide Inv, Next, Evolves, Allowed;
    if more == [] {
      assert steps + more == steps;
      EvolvesReflexive(Run(steps, lists).records[id]);
    } else {
      var init := more[..|more| - 1];
      assert (steps + more)[..|steps + more| - 1] == steps + init;
      RunEvolves(steps, init, lists, id);
      RunSatisfiesInv(steps + init, lists);
      var middle := Run(steps + init, lists);
      StepEvolves(middle, more[|more| - 1], lists, id);
      EvolvesTransitive(Run(steps, lists).records[id], middle.records[id], Run(steps + more, lists).records[id]);
    }
  }

  lemma EvolvesReflexive(r: Record)
    ensures Evolves(r, r)
  {
  }

  lemma EvolvesTransitive(a: Record, b: Record, c: Record)
    requires Evolves(a, b) && Evolves(b, c)
    ensures Evolves(a, c)
  {
  }
}
