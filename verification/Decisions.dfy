/** Who decides an application: over whole runs, direct onboarding calls included. */
module Decisions {
  import opened Prelude
  import opened Text
  import opened Screening
  import opened Applications
  import opened ApplicationRuns

  // ------------------------------------------------------------ what a step does to a review

  /** The step starts the review with this id from the beginning: an escalated submission or an
      escalated direct call. */
  predicate Restarts(step: Step, lists: Lists, reviewId: string) {
    match step
    case Submit(hex, intake) =>
      && Onboarded(intake.company, intake.jurisdiction, intake.owners, lists).status == PendingReview
      && KycReviewId(AppId(hex)) == reviewId
    case Direct(c) => Escalates(c, lists) && TaskIdOf(c) == reviewId
    case _ => false
  }

  predicate PendingIn(reviews: seq<Review>, reviewId: string) {
    var found := FindReview(reviews, reviewId);
    found.Some? && found.value.state == Pending
  }

  lemma PutIsPending(reviews: seq<Review>, review: Review)
    requires review.state == Pending
    ensures PendingIn(PutReview(reviews, review), review.id)
  {
    hide FindReview, PutReview;
    FindAfterPut(reviews, review, review.id);
  }

  lemma RestartIsPending(s: State, step: Step, lists: Lists, reviewId: string)
    requires Restarts(step, lists, reviewId)
    ensures PendingIn(Next(s, step, lists).reviews, reviewId)
  {
    hide Onboarded, PutReview, FindReview, KycReviewId, FinalReviewId, Pick, PendingIn, TaskIdOf, Slug, AppId;
    match step
    case Submit(hex, intake) =>
      var risk := Onboarded(intake.company, intake.jurisdiction, intake.owners, lists);
      var severity := if risk.high then "high" else "low";
      PutIsPending(s.reviews,
        Review(reviewId, ClientIdFor(intake.company), severity, PortalUser(intake.company), Pending));
    case Direct(c) =>
      PutIsPending(s.reviews, TaskFor(c, lists));
  }

  /** A review found before is found unchanged; one found only now is pending. */
  predicate LeavesReview(before: seq<Review>, after: seq<Review>, reviewId: string) {
    var b, a := FindReview(before, reviewId), FindReview(after, reviewId);
    if b.Some? then a == b else a.Some? ==> a.value.state == Pending
  }

  predicate SameReview(before: seq<Review>, after: seq<Review>, reviewId: string) {
    FindReview(before, reviewId) == FindReview(after, reviewId)
  }

  lemma OtherPutLeavesReview(reviews: seq<Review>, review: Review, reviewId: string)
    requires review.id != reviewId
    ensures SameReview(reviews, PutReview(reviews, review), reviewId)
    ensures LeavesReview(reviews, PutReview(reviews, review), reviewId)
  {
    hide FindReview, PutReview;
    FindAfterPut(reviews, review, reviewId);
  }

  lemma NewPutLeavesReview(reviews: seq<Review>, review: Review, reviewId: string)
    requires review.state == Pending && FindReview(reviews, review.id).None?
    ensures LeavesReview(reviews, PutReview(reviews, review), reviewId)
  {
    hide FindReview, PutReview;
    FindAfterPut(reviews, review, reviewId);
  }

  lemma FinalReviewLeavesReview(r: Record, reviews: seq<Review>, reviewId: string)
    requires r.reviewId.None? ==> FindReview(reviews, FinalReviewId(r.id)).None?
    ensures LeavesReview(reviews, WithFinalReview(r, reviews).1, reviewId)
    ensures reviewId != FinalReviewId(r.id) ==> SameReview(reviews, WithFinalReview(r, reviews).1, reviewId)
    ensures r.reviewId.Some? ==> WithFinalReview(r, reviews) == (r, reviews)
  {
    hide FindReview, PutReview;
    if r.reviewId.None? {
      var review := Review(FinalReviewId(r.id), r.clientId, "low", PortalUser(r.company), Pending);
      NewPutLeavesReview(reviews, review, reviewId);
      if reviewId != review.id {
        OtherPutLeavesReview(reviews, review, reviewId);
      }
    }
  }

  lemma {:induction false} SubmitTouches(s: State, hex: string, intake: Intake, lists: Lists, reviewId: string)
    requires Inv(s) && IsHex(hex) && AppId(hex) !in s.records
    requires !Restarts(Submit(hex, intake), lists, reviewId)
    ensures var after := Submitted(s, hex, intake, lists).reviews;
            && LeavesReview(s.reviews, after, reviewId)
            && (reviewId != FinalReviewId(AppId(hex)) ==> SameReview(s.reviews, after, reviewId))
  {
    var id := AppId(hex);
    NotYetQueued(s, id, hex, FinalReviewId(id));
    hide Inv, Onboarded, Pick, KycReviewId, FinalReviewId, PutReview, FindReview, AppId, Slug, IsHex,
         WithFinalReview, LeavesReview, SameReview;
    var clientId := ClientIdFor(intake.company);
    var risk := Onboarded(intake.company, intake.jurisdiction, intake.owners, lists);
    var provided := AsSet(intake.documents);
    var flagged := risk.status == PendingReview;
    var r := Record(
      id, clientId, intake.company, intake.jurisdiction, intake.product,
      Pick(ALPHABETICAL, provided), Pick(REQUIRED, AsSet(REQUIRED) - provided),
      risk.status, if flagged then Some(KycReviewId(id)) else None);
    if flagged {
      var severity := if risk.high then "high" else "low";
      var review := Review(KycReviewId(id), clientId, severity, PortalUser(intake.company), Pending);
      OtherPutLeavesReview(s.reviews, review, reviewId);
      FinalReviewLeavesReview(r, PutReview(s.reviews, review), reviewId);
    } else {
      FinalReviewLeavesReview(r, s.reviews, reviewId);
    }
  }

  lemma {:induction false} UploadTouches(s: State, id: string, documents: seq<DocKey>, reviewId: string)
    requires Inv(s)
    ensures var after := Uploaded(s, id, documents).reviews;
            && LeavesReview(s.reviews, after, reviewId)
            && (id in s.records && reviewId != FinalReviewId(id) ==> SameReview(s.reviews, after, reviewId))
            && (id !in s.records ==> SameReview(s.reviews, after, reviewId))
  {
    if id in s.records {
      InvRecord(s, id);
      var r := Rechecked(s.records[id], documents);
      if r.reviewId.None? {
        NotYetQueued(s, id, HexOf(id), FinalReviewId(id));
      }
      hide Inv, Pick, FinalReviewId, PutReview, FindReview, AppId, HexOf, IsHex, WithFinalReview, LeavesReview,
           SameReview;
      FinalReviewLeavesReview(r, s.reviews, reviewId);
    }
  }

  lemma KycIsNotFinal(hex: string, id: string)
    requires IsHex(hex) && IsHex(HexOf(id)) && id == AppId(HexOf(id))
    ensures KycReviewId(AppId(hex)) != FinalReviewId(id)
  {
    ReviewIdsOf(hex);
    ReviewIdsOf(HexOf(id));
    assert ("REV-ONB-" + HexOf(id))[4] == 'O' && ("REV-KYC-" + hex)[4] == 'K';
  }

  /** A step that neither decides a review nor starts it again leaves it as it is; and screening
      reviews appear in no other way. */
  lemma {:induction false} OnlyResolveTouchesReviews(s: State, step: Step, lists: Lists, hex: string, reviewId: string)
    requires Inv(s) && Allowed(s, step) && OwnsReviewId(hex, reviewId)
    requires !step.Resolve? && !Restarts(step, lists, reviewId)
    ensures LeavesReview(s.reviews, Next(s, step, lists).reviews, reviewId)
    ensures reviewId == KycReviewId(AppId(hex)) ==> SameReview(s.reviews, Next(s, step, lists).reviews, reviewId)
  {
    assert IsHex(hex);
    hide Inv, Onboarded, Pick, KycReviewId, FinalReviewId, PutReview, ResolveIn, ComplianceReviewId, FindReview,
         OwnsReviewId, AppId, Slug, IsHex, HexOf, LeavesReview, SameReview, Submitted, Uploaded, TaskIdOf;
    match step
    case Submit(h, intake) =>
      SubmitTouches(s, h, intake, lists, reviewId);
      HexOfAppId(h);
      KycIsNotFinal(hex, AppId(h));
    case Upload(id, documents) =>
      UploadTouches(s, id, documents, reviewId);
      if id in s.records {
        InvRecord(s, id);
        KycIsNotFinal(hex, id);
      }
    case Inspect(requestId, fallback, clientId, high, userId) =>
      ComplianceIdIsForeign(requestId, fallback, hex);
      var severity := if high then "high" else "medium";
      OtherPutLeavesReview(s.reviews,
        Review(ComplianceReviewId(requestId, fallback), clientId, severity, userId, Pending), reviewId);
    case Direct(c) =>
      if Escalates(c, lists) {
        OtherPutLeavesReview(s.reviews, TaskFor(c, lists), reviewId);
      } else {
        NothingTouched(s.reviews, reviewId);
      }
  }

  lemma NothingTouched(reviews: seq<Review>, reviewId: string)
    ensures LeavesReview(reviews, reviews, reviewId) && SameReview(reviews, reviews, reviewId)
  {
  }

  // ------------------------------------------------------------ one step

  /** The resolution that decides an application, if its review is resolved. */
  function Verdict(r: Record, reviews: seq<Review>): (v: Option<ReviewState>)
    ensures v.Some? ==> v.value.Resolved?
  {
    if r.reviewId.None? then None
    else
      var review := FindReview(reviews, r.reviewId.value);
      if review.Some? && review.value.state.Resolved? then Some(review.value.state) else None
  }

  lemma StatusFollowsVerdict(r: Record, reviews: seq<Review>)
    ensures var v := Verdict(r, reviews);
            if v.None? then !Decided(StatusOf(r, reviews))
            else StatusOf(r, reviews) == if IsApproval(v.value.decision) then ApprovedStatus else Declined
  {
    hide FindReview, IsApproval;
  }

  lemma {:induction false} NewFlaggedRestarts(s: State, step: Step, lists: Lists, id: string)
    requires Inv(s) && id !in s.records && id in Next(s, step, lists).records
    requires Flagged(Next(s, step, lists).records[id])
    ensures Restarts(step, lists, KycReviewId(id))
  {
    hide Inv, Onboarded, Pick, KycReviewId, FinalReviewId, PutReview, AppId;
    if step.Upload? && step.id in s.records {
      InvRecord(s, step.id);
    }
  }

  lemma {:induction false} OwnRestartIsDirect(s: State, step: Step, lists: Lists, id: string, reviewId: string)
    requires Inv(s) && Allowed(s, step) && id in s.records && s.records[id].reviewId == Some(reviewId)
    requires Restarts(step, lists, reviewId)
    ensures step.Direct?
  {
    InvRecord(s, id);
    DueReviewOwned(s.records[id]);
    if step.Submit? {
      hide Inv, AppId, KycReviewId, FinalReviewId, Onboarded;
      ReviewIdHasOneOwner(step.hex, HexOf(id), reviewId);
    }
  }

  lemma {:induction false} NewReviewNotQueued(s: State, step: Step, lists: Lists, id: string, reviewId: string)
    requires Inv(s) && Allowed(s, step) && Inv(Next(s, step, lists))
    requires id in Next(s, step, lists).records && Next(s, step, lists).records[id].reviewId == Some(reviewId)
    requires id in s.records ==> s.records[id].reviewId.None?
    requires !Restarts(step, lists, reviewId)
    ensures !Queued(s, reviewId)
  {
    hide Next, Inv, Restarts, AppId, HexOf, IsHex, FinalReviewId, KycReviewId, Allowed, ChecklistExact, Queued;
    var s' := Next(s, step, lists);
    InvRecord(s', id);
    if Flagged(s'.records[id]) {
      if id in s.records {
        InvRecord(s, id);
        StepEvolves(s, step, lists, id);
      } else {
        NewFlaggedRestarts(s, step, lists, id);
      }
    } else {
      NotYetQueued(s, id, HexOf(id), reviewId);
    }
  }

  lemma {:induction false} OnlyResolveChangesVerdict(s: State, step: Step, lists: Lists, id: string)
    requires Inv(s) && Allowed(s, step) && !step.Resolve? && !step.Direct?
    requires id in Next(s, step, lists).records
    ensures var s' := Next(s, step, lists);
            Verdict(s'.records[id], s'.reviews) == if id in s.records then Verdict(s.records[id], s.reviews) else None
  {
    hide Inv, Next, FindReview, Allowed, ChecklistExact, KycReviewId, FinalReviewId, AppId, HexOf, IsHex,
         OwnsReviewId, Restarts;
    var s' := Next(s, step, lists);
    StepKeepsInv(s, step, lists);
    InvRecord(s', id);
    if id in s.records {
      StepEvolves(s, step, lists, id);
    }
    if s'.records[id].reviewId.Some? {
      var reviewId := s'.records[id].reviewId.value;
      DueReviewOwned(s'.records[id]);
      if Restarts(step, lists, reviewId) {
        RestartIsPending(s, step, lists, reviewId);
        if id in s.records && s.records[id].reviewId.Some? {
          OwnRestartIsDirect(s, step, lists, id, reviewId);
        }
      } else {
        OnlyResolveTouchesReviews(s, step, lists, HexOf(id), reviewId);
        if id in s.records && s.records[id].reviewId.Some? {
          OwnReviewQueued(s, id);
        } else {
          NewReviewNotQueued(s, step, lists, id, reviewId);
        }
      }
    }
  }

  lemma {:induction false} OwnReviewQueued(s: State, id: string)
    requires Inv(s) && id in s.records && s.records[id].reviewId.Some?
    ensures Queued(s, s.records[id].reviewId.value)
  {
  }

  /** Maker-checker, one step: no submission, upload or inspection moves any application into
      or out of "approved" or "declined". */
  lemma {:induction false} OnlyResolveDecides(s: State, step: Step, lists: Lists, id: string)
    requires Inv(s) && Allowed(s, step) && !step.Resolve? && !step.Direct?
    requires id in Next(s, step, lists).records
    ensures var s' := Next(s, step, lists);
            if id in s.records && Decided(StatusIn(s, id)) then StatusIn(s', id) == StatusIn(s, id)
            else !Decided(StatusIn(s', id))
  {
    hide Inv, Next, StatusOf, IsApproval, Verdict, Allowed;
    var s' := Next(s, step, lists);
    OnlyResolveChangesVerdict(s, step, lists, id);
    StatusFollowsVerdict(s'.records[id], s'.reviews);
    if id in s.records {
      StatusFollowsVerdict(s.records[id], s.reviews);
    }
  }

  // ------------------------------------------------------------ direct calls

  lemma TaskBelongsIff(id: string, r: Record, suffix: string)
    requires RecordOk(id, r)
    ensures r.reviewId == Some("REV-KYC-" + suffix) <==> Flagged(r) && suffix == HexOf(id)
  {
    hide ChecklistExact, KycReviewId, FinalReviewId;
    ReviewIdsOf(HexOf(id));
    var a, b := "REV-KYC-" + suffix, "REV-KYC-" + HexOf(id);
    assert a[8..] == suffix && b[8..] == HexOf(id);
    assert ("REV-ONB-" + HexOf(id))[4] == 'O' && a[4] == 'K';
  }

  lemma StatusAfterPut(r: Record, reviews: seq<Review>, review: Review)
    requires review.state == Pending
    ensures StatusOf(r, PutReview(reviews, review)) ==
              if r.reviewId == Some(review.id) then UnderReview else StatusOf(r, reviews)
  {
    hide PutReview, FindReview, IsApproval;
    if r.reviewId.Some? {
      FindAfterPut(reviews, review, r.reviewId.value);
    }
  }

  /** A direct call changes the status of an application exactly if its client is escalated, the
      application was itself escalated at submission and the request id ends in the application's
      own number; then a decision is undone and the application is under review again. */
  lemma StatusAfterDirectCall(s: State, c: KycCall, lists: Lists, id: string)
    requires id in s.records && RecordOk(id, s.records[id])
    ensures StatusIn(DirectlyScreened(s, c, lists), id) ==
              if Escalates(c, lists) && Flagged(s.records[id]) && ReviewSuffix(c.requestId, c.fallback) == HexOf(id)
              then UnderReview else StatusIn(s, id)
  {
    hide Onboarded, PutReview, ReviewSuffix, RecordOk, HexOf, StatusOf, Flagged;
    TaskBelongsIff(id, s.records[id], ReviewSuffix(c.requestId, c.fallback));
    StatusAfterPut(s.records[id], s.reviews, TaskFor(c, lists));
  }

  /** Every application escalated at submission can be put back under review, whatever was
      decided about it. */
  lemma SomeCallUndoesDecision(s: State, lists: Lists, id: string) returns (c: KycCall)
    requires id in s.records && RecordOk(id, s.records[id]) && Flagged(s.records[id])
    ensures StatusIn(DirectlyScreened(s, c, lists), id) == UnderReview
  {
    var pep := Owner("", "", Some("pep"));
    c := KycCall(HexOf(id), "", "", "", "", [pep], "");
    HexIsItsSuffix(HexOf(id), "");
    MarkerOfPep();
    assert pep in c.owners && IsPep(pep);
    ReviewIffMatchOrPep(c.name, c.jurisdiction, c.owners, lists);
    hide RecordOk, HexOf, Onboarded, ReviewSuffix, Flagged, DirectlyScreened, StatusOf;
    StatusAfterDirectCall(s, c, lists, id);
  }

  lemma MarkerOfPep()
    ensures IsPep(Owner("", "", Some("pep")))
  {
    assert Stripped("pep") == "pep";
    assert |Marker("pep")| == 3 && Marker("pep")[0] == 'p';
  }

  lemma HexIsItsSuffix(hex: string, fallback: string)
    requires IsHex(hex)
    ensures ReviewSuffix(hex, fallback) == hex
  {
    NoDashInHex(hex);
    AfterLastDashOfPlain(hex);
    assert |Lower(hex)| == 8;
  }

  // ------------------------------------------------------------ whole runs

  /** The latest decision a run took on a review since it was last started; failed resolve calls
      do not count. */
  function LastDecision(steps: seq<Step>, lists: Lists, reviewId: string): (d: Option<ReviewState>)
    ensures d.Some? ==> d.value.Resolved?
  {
    if steps == [] then None
    else
      var init, last := steps[..|steps| - 1], steps[|steps| - 1];
      if last.Resolve? && last.reviewId == reviewId && Queued(Run(init, lists), reviewId)
      then Some(Resolved(last.decision, last.reviewer, last.notes))
      else if Restarts(last, lists, reviewId) then None
      else LastDecision(init, lists, reviewId)
  }

  lemma {:induction false} QueueRecordsDecisions(steps: seq<Step>, lists: Lists, hex: string, reviewId: string)
    requires Legal(steps, lists) && OwnsReviewId(hex, reviewId)
    ensures var found := FindReview(Run(steps, lists).reviews, reviewId);
            if found.Some? then found.value.state == LastDecision(steps, lists, reviewId).GetOr(Pending)
            else LastDecision(steps, lists, reviewId).None?
  {
    if steps != [] {
      var init, last := steps[..|steps| - 1], steps[|steps| - 1];
      QueueRecordsDecisions(init, lists, hex, reviewId);
      RunSatisfiesInv(init, lists);
      hide Inv, OwnsReviewId, FindReview, Submitted, Uploaded, Inspected, DirectlyScreened, ResolveIn, Allowed,
           Restarts, KycReviewId, AppId;
      var s := Run(init, lists);
      if last.Resolve? {
        FindAfterResolve(s.reviews, last.reviewId, Resolved(last.decision, last.reviewer, last.notes), reviewId);
        ResolveRestartsNothing(last, lists, reviewId);
      } else if Restarts(last, lists, reviewId) {
        RestartIsPending(s, last, lists, reviewId);
      } else {
        OnlyResolveTouchesReviews(s, last, lists, hex, reviewId);
      }
    }
  }

  lemma ResolveRestartsNothing(step: Step, lists: Lists, reviewId: string)
    requires step.Resolve?
    ensures !Restarts(step, lists, reviewId)
  {
  }

  /** Maker-checker, whole runs: an application is approved exactly when the latest decision on
      its own review since that review was last started was an approval, and declined exactly when
      it was anything else. */
  lemma {:induction false} DecidedByLatestHumanDecision(steps: seq<Step>, lists: Lists, id: string)
    requires Legal(steps, lists) && id in Run(steps, lists).records
    ensures var s := Run(steps, lists);
            var reviewId := s.records[id].reviewId;
            var decision := if reviewId.Some? then LastDecision(steps, lists, reviewId.value) else None;
            && (StatusIn(s, id) == ApprovedStatus <==> decision.Some? && IsApproval(decision.value.decision))
            && (StatusIn(s, id) == Declined <==> decision.Some? && !IsApproval(decision.value.decision))
  {
    hide Inv, OwnsReviewId, FindReview, IsApproval, Run, Legal, LastDecision, StatusOf, ChecklistExact,
         KycReviewId, FinalReviewId, AppId, HexOf, IsHex;
    var s := Run(steps, lists);
    RunSatisfiesInv(steps, lists);
    InvRecord(s, id);
    StatusFollowsVerdict(s.records[id], s.reviews);
    if s.records[id].reviewId.Some? {
      DueReviewOwned(s.records[id]);
      QueueRecordsDecisions(steps, lists, HexOf(id), s.records[id].reviewId.value);
    }
  }

  // ------------------------------------------------------------ runs without direct calls

  predicate NoDirectCalls(steps: seq<Step>) {
    forall i :: 0 <= i < |steps| ==> !steps[i].Direct?
  }

  /** The latest decision a run took on a review at all. */
  function LatestDecision(steps: seq<Step>, lists: Lists, reviewId: string): (d: Option<ReviewState>) {
    if steps == [] then None
    else
      var init, last := steps[..|steps| - 1], steps[|steps| - 1];
      if last.Resolve? && last.reviewId == reviewId && Queued(Run(init, lists), reviewId)
      then Some(Resolved(last.decision, last.reviewer, last.notes))
      else LatestDecision(init, lists, reviewId)
  }

  /** Without direct calls a screening review is only ever queued with its application. */
  lemma {:induction false} ScreeningNeedsApplication(steps: seq<Step>, lists: Lists, hex: string)
    requires Legal(steps, lists) && NoDirectCalls(steps) && IsHex(hex)
    requires Queued(Run(steps, lists), KycReviewId(AppId(hex)))
    ensures AppId(hex) in Run(steps, lists).records
  {
    if steps != [] {
      var init, last, reviewId := steps[..|steps| - 1], steps[|steps| - 1], KycReviewId(AppId(hex));
      var s := Run(init, lists);
      RunSatisfiesInv(init, lists);
      assert OwnsReviewId(hex, reviewId);
      if AppId(hex) in s.records {
        hide Inv, Next, KycReviewId, AppId, Queued, Allowed;
        StepEvolves(s, last, lists, AppId(hex));
      } else {
        assert !Queued(s, reviewId) by {
          if Queued(s, reviewId) {
            ScreeningNeedsApplication(init, lists, hex);
          }
        }
        ScreeningQueuedBySubmission(s, last, lists, hex);
      }
    }
  }

  lemma {:induction false} ScreeningQueuedBySubmission(s: State, step: Step, lists: Lists, hex: string)
    requires Inv(s) && Allowed(s, step) && !step.Direct? && IsHex(hex)
    requires var reviewId := KycReviewId(AppId(hex)); !Queued(s, reviewId) && Queued(Next(s, step, lists), reviewId)
    ensures AppId(hex) in Next(s, step, lists).records
  {
    var reviewId := KycReviewId(AppId(hex));
    assert OwnsReviewId(hex, reviewId);
    if step.Resolve? {
      hide Inv, KycReviewId, AppId, FindReview, ResolveIn;
      FindAfterResolve(s.reviews, step.reviewId, Resolved(step.decision, step.reviewer, step.notes), reviewId);
    } else if Restarts(step, lists, reviewId) {
      hide Inv, KycReviewId, AppId, FindReview, Onboarded, Pick, FinalReviewId, PutReview;
      assert step.Submit? && OwnsReviewId(step.hex, reviewId);
      ReviewIdHasOneOwner(step.hex, hex, reviewId);
    } else {
      hide Inv, KycReviewId, AppId, FindReview, OwnsReviewId, Next, Restarts, Allowed;
      OnlyResolveTouchesReviews(s, step, lists, hex, reviewId);
    }
  }

  /** So in runs without direct calls the deciding decision is simply the latest one. */
  lemma {:induction false} LatestDecisionCounts(steps: seq<Step>, lists: Lists, hex: string, reviewId: string)
    requires Legal(steps, lists) && NoDirectCalls(steps) && OwnsReviewId(hex, reviewId)
    ensures LastDecision(steps, lists, reviewId) == LatestDecision(steps, lists, reviewId)
  {
    if steps != [] {
      var init, last := steps[..|steps| - 1], steps[|steps| - 1];
      LatestDecisionCounts(init, lists, hex, reviewId);
      if Restarts(last, lists, reviewId) {
        var s := Run(init, lists);
        QueueRecordsDecisions(init, lists, hex, reviewId);
        assert last.Submit? && OwnsReviewId(last.hex, reviewId);
        if Queued(s, reviewId) {
          ScreeningNeedsApplication(init, lists, last.hex);
        }
      }
    }
  }
}
