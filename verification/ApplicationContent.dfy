/** What the steps of an application write: records, reviews and their severity. */
module ApplicationContent {
  import opened Prelude
  import opened Text
  import opened Screening
  import opened ScreeningExact
  import opened Applications
  import opened ApplicationRuns

  // ------------------------------------------------------------ words and identifiers

  lemma LowerIs(s: string, m: string)
    requires forall i :: 0 <= i < |m| ==> !('A' <= m[i] <= 'Z')
    ensures Lower(s) == m <==> IgnoringCase(s, m)
  {
  }

  /** A decision approves if it is one of two words, in any case. */
  lemma ApprovalExact(decision: string)
    ensures IsApproval(decision) <==> IgnoringCase(decision, "approve") || IgnoringCase(decision, "approved")
  {
    hide Lower, IgnoringCase;
    LowerIs(decision, "approve");
    LowerIs(decision, "approved");
  }

  /** No identity: nothing, or one of two placeholders in any case. */
  predicate Anonymous(s: string) {
    s == "" || IgnoringCase(s, "unknown") || IgnoringCase(s, "none")
  }

  /** The part of a request id that review ids carry: what follows the last dash, the whole id if
      nothing does, and a fresh one if that names nobody. */
  lemma {:induction false} SuffixExact(prefix: string, tail: string, fallback: string)
    requires '-' !in tail
    ensures ReviewSuffix(tail, fallback) == if Anonymous(tail) then fallback else tail
    ensures tail != "" ==>
              ReviewSuffix(prefix + "-" + tail, fallback) == if Anonymous(tail) then fallback else tail
    ensures tail == "" ==>
              ReviewSuffix(prefix + "-", fallback) == if Anonymous(prefix + "-") then fallback else prefix + "-"
  {
    hide Lower, IgnoringCase, AfterLastDash;
    AfterLastDashOf(prefix, tail);
    AfterLastDashOfPlain(tail);
    assert prefix + "-" + "" == prefix + "-";
    LowerIs(tail, "unknown");
    LowerIs(tail, "none");
    LowerIs(prefix + "-", "unknown");
    LowerIs(prefix + "-", "none");
  }

  /** `name` in capitals, with dashes for spaces. */
  predicate Shouted(id: string, name: string) {
    |id| == 7 + |name| && id[..7] == "CLIENT-"
    && forall i :: 0 <= i < |name| ==> if name[i] == ' ' then id[7 + i] == '-' else id[7 + i] == UpperChar(name[i])
  }

  lemma ClientIdExact(company: string)
    ensures Shouted(ClientIdFor(company), if company == "" then "unknown" else company)
  {
    hide UpperChar;
  }

  // ------------------------------------------------------------ the checklist

  /** Picking keeps the order of the keys. */
  lemma {:induction false} PickInOrder(keys: seq<DocKey>, s: set<DocKey>) returns (idx: seq<nat>)
    ensures |idx| == |Pick(keys, s)|
    ensures forall i :: 0 <= i < |idx| ==> idx[i] < |keys| && Pick(keys, s)[i] == keys[idx[i]]
    ensures forall i, j :: 0 <= i < j < |idx| ==> idx[i] < idx[j]
  {
    idx := [];
    if keys != [] {
      var later := PickInOrder(keys[1..], s);
      var own, rest := if keys[0] in s then [keys[0]] else [], Pick(keys[1..], s);
      idx := (if keys[0] in s then [0] else []) + Shifted(later);
      assert Pick(keys, s) == own + rest;
      forall i | 0 <= i < |idx| ensures idx[i] < |keys| && (own + rest)[i] == keys[idx[i]] {
        if i >= |own| {
          assert (own + rest)[i] == rest[i - |own|] && idx[i] == later[i - |own|] + 1;
        }
      }
    }
  }

  /** The file holds the required documents that were handed in and misses the others. */
  ghost predicate FileOf(r: Record, handedIn: set<DocKey>) {
    && (forall k :: k in r.provided <==> k in REQUIRED && k in handedIn)
    && (forall k :: k in r.missing <==> k in REQUIRED && k !in handedIn)
  }

  // ------------------------------------------------------------ submission

  /** Somebody matched a list. */
  ghost predicate ListedClient(intake: Intake, lists: Lists) {
    Listed(Stripped(intake.company), lists)
    || exists o :: o in intake.owners && NameOf(o) != "" && Listed(NameOf(o), lists)
  }

  ghost predicate PepAmong(intake: Intake) {
    exists o :: o in intake.owners && IsPep(o)
  }

  lemma {:induction false} RiskExact(intake: Intake, lists: Lists)
    ensures var r := Onboarded(intake.company, intake.jurisdiction, intake.owners, lists);
            && (r.status == PendingReview <==> ListedClient(intake, lists) || PepAmong(intake))
            && (r.high <==>
                  ListedClient(intake, lists) || (PepAmong(intake) && RiskyCode(Stripped(intake.jurisdiction))))
  {
    hide Listed, Stripped, IsPep, RiskyCode, Onboarded, Points;
    AssessmentExact(intake.company, intake.jurisdiction, intake.owners, lists);
  }

  predicate OnlyReview(before: seq<Review>, after: seq<Review>, review: Review, id: string) {
    FindReview(after, id) == if id == review.id then Some(review) else FindReview(before, id)
  }

  /** The part of an application id that is generated: eight hexadecimal digits in capitals. */
  lemma HexExact(hex: string)
    ensures IsHex(hex) <==> |hex| == 8 && forall i :: 0 <= i < 8 ==> hex[i] in "0123456789ABCDEF"
  {
    forall c: char ensures '0' <= c <= '9' || 'A' <= c <= 'F' <==> c in "0123456789ABCDEF" {
      HexDigit(c);
    }
  }

  lemma HexDigit(c: char)
    ensures '0' <= c <= '9' || 'A' <= c <= 'F' <==> c in "0123456789ABCDEF"
  {
    var all := "0123456789ABCDEF";
    if '0' <= c <= '9' {
      assert all[c as int - '0' as int] == c;
    } else if 'A' <= c <= 'F' {
      assert all[c as int - 'A' as int + 10] == c;
    }
  }

  /** How ids and the portal's user are spelled. */
  lemma IdentifiersExact(hex: string, company: string, requestId: string, fallback: string, c: KycCall)
    ensures AppId(hex) == "APP-" + hex && PortalUser(company) == "client-portal:" + company
    ensures IsHex(hex) ==> FinalReviewId(AppId(hex)) == "REV-ONB-" + hex && KycReviewId(AppId(hex)) == "REV-KYC-" + hex
    ensures ComplianceReviewId(requestId, fallback) == "REV-" + ReviewSuffix(requestId, fallback)
    ensures TaskIdOf(c) == "REV-KYC-" + ReviewSuffix(c.requestId, c.fallback)
  {
    hide ReviewSuffix, IsHex;
    if IsHex(hex) {
      ReviewIdsOf(hex);
    }
  }

  /** The record carries the data of the intake. */
  ghost predicate RecordFrom(r: Record, hex: string, intake: Intake) {
    && r.id == AppId(hex) && r.clientId == ClientIdFor(intake.company)
    && r.company == intake.company && r.jurisdiction == intake.jurisdiction && r.product == intake.product
    && FileOf(r, AsSet(intake.documents))
  }

  /** The task for a flagged client, with high severity if somebody is listed or the PEP comes with
      a risky jurisdiction. */
  ghost predicate FlaggedTask(review: Review, hex: string, intake: Intake, lists: Lists) {
    && review.id == KycReviewId(AppId(hex)) && review.clientId == ClientIdFor(intake.company)
    && review.userId == PortalUser(intake.company) && review.state == Pending
    && review.severity ==
       if ListedClient(intake, lists) || RiskyCode(Stripped(intake.jurisdiction)) then "high" else "low"
  }

  /** The task for the final approval of a complete file. */
  predicate FinalTask(review: Review, r: Record) {
    && review.id == FinalReviewId(r.id) && review.clientId == r.clientId
    && review.userId == PortalUser(r.company) && review.state == Pending && review.severity == "low"
  }

  /** `review` is put into the queue and nothing else happens to it. */
  ghost predicate QueuedIn(before: seq<Review>, after: seq<Review>, review: Review) {
    forall id :: OnlyReview(before, after, review, id)
  }

  lemma PutQueues(reviews: seq<Review>, review: Review)
    ensures QueuedIn(reviews, PutReview(reviews, review), review)
  {
    hide FindReview, PutReview;
    forall id ensures OnlyReview(reviews, PutReview(reviews, review), review, id) {
      FindAfterPut(reviews, review, id);
    }
  }

  /** The record before the final review. */
  function Intaken(hex: string, intake: Intake, lists: Lists): Record {
    var risk, provided := Onboarded(intake.company, intake.jurisdiction, intake.owners, lists), AsSet(intake.documents);
    Record(
      AppId(hex), ClientIdFor(intake.company), intake.company, intake.jurisdiction, intake.product,
      Pick(ALPHABETICAL, provided), Pick(REQUIRED, AsSet(REQUIRED) - provided),
      risk.status, if risk.status == PendingReview then Some(KycReviewId(AppId(hex))) else None)
  }

  function FirstTask(hex: string, intake: Intake, lists: Lists): Review {
    var risk := Onboarded(intake.company, intake.jurisdiction, intake.owners, lists);
    Review(KycReviewId(AppId(hex)), ClientIdFor(intake.company), if risk.high then "high" else "low",
      PortalUser(intake.company), Pending)
  }

  lemma SubmittedIs(s: State, hex: string, intake: Intake, lists: Lists)
    ensures var r := Intaken(hex, intake, lists);
            var queue := if Flagged(r) then PutReview(s.reviews, FirstTask(hex, intake, lists)) else s.reviews;
            Submitted(s, hex, intake, lists)
            == State(s.records[AppId(hex) := WithFinalReview(r, queue).0], WithFinalReview(r, queue).1)
  {
    hide Onboarded, PutReview, Pick, AsSet, WithFinalReview, AppId, KycReviewId, ClientIdFor, PortalUser;
  }

  lemma {:induction false} IntakenExact(hex: string, intake: Intake, lists: Lists, reviewId: Option<string>)
    ensures var r := Intaken(hex, intake, lists);
            && RecordFrom(r.(reviewId := reviewId), hex, intake)
            && (Flagged(r) <==> ListedClient(intake, lists) || PepAmong(intake))
            && r.reviewId == (if Flagged(r) then Some(KycReviewId(AppId(hex))) else None)
  {
    hide Onboarded, ListedClient, PepAmong, AppId, KycReviewId, ClientIdFor, FileOf, Pick, AsSet;
    RiskExact(intake, lists);
    FileIs(Intaken(hex, intake, lists), AsSet(intake.documents));
  }

  lemma {:induction false} FirstTaskExact(hex: string, intake: Intake, lists: Lists)
    requires ListedClient(intake, lists) || PepAmong(intake)
    ensures FlaggedTask(FirstTask(hex, intake, lists), hex, intake, lists)
  {
    hide Onboarded, ListedClient, PepAmong, AppId, KycReviewId, ClientIdFor, PortalUser, RiskyCode, Stripped;
    RiskExact(intake, lists);
  }

  /** What `submit` writes: a record with the data of the intake and nothing else in the register;
      one review task if the client is listed or a PEP is among the owners, the final approval if
      the file of another client is complete, none otherwise. */
  lemma {:induction false} SubmissionExact(s: State, hex: string, intake: Intake, lists: Lists)
    returns (r: Record, task: Review)
    ensures var after := Submitted(s, hex, intake, lists);
            var flagged := ListedClient(intake, lists) || PepAmong(intake);
            && after.records == s.records[AppId(hex) := r]
            && RecordFrom(r, hex, intake) && (Flagged(r) <==> flagged)
            && (if flagged then
                  FlaggedTask(task, hex, intake, lists) && QueuedIn(s.reviews, after.reviews, task)
                else if r.missing == [] then FinalTask(task, r) && QueuedIn(s.reviews, after.reviews, task)
                else after.reviews == s.reviews)
            && r.reviewId == if flagged || r.missing == [] then Some(task.id) else None
  {
    hide Submitted, Intaken, FirstTask, RecordFrom, ListedClient, PepAmong, PutReview, QueuedIn, FlaggedTask,
         WithFinalReview, AppId, KycReviewId, FinalReviewId, PortalUser, FinalTask;
    var r0 := Intaken(hex, intake, lists);
    SubmittedIs(s, hex, intake, lists);
    IntakenExact(hex, intake, lists, r0.reviewId);
    IntakenExact(hex, intake, lists, Some(FinalReviewId(r0.id)));
    if Flagged(r0) {
      r, task := r0, FirstTask(hex, intake, lists);
      FirstTaskExact(hex, intake, lists);
      FlaggedTaskId(task, hex, intake, lists);
      PutQueues(s.reviews, task);
      var _ := FinalIs(r0, PutReview(s.reviews, task));
    } else {
      task := FinalIs(r0, s.reviews);
      r := WithFinalReview(r0, s.reviews).0;
    }
  }

  lemma FlaggedTaskId(task: Review, hex: string, intake: Intake, lists: Lists)
    requires FlaggedTask(task, hex, intake, lists)
    ensures task.id == KycReviewId(AppId(hex))
  {
    hide KycReviewId, AppId;
  }

  lemma FileIs(r: Record, handedIn: set<DocKey>)
    requires r.provided == Pick(ALPHABETICAL, handedIn) && r.missing == Pick(REQUIRED, AsSet(REQUIRED) - handedIn)
    ensures FileOf(r, handedIn)
    ensures forall id :: FileOf(r.(reviewId := id), handedIn)
  {
    hide Pick;
    assert forall k :: k in ALPHABETICAL <==> k in REQUIRED;
  }

  /** The final review, if it is due. */
  lemma FinalIs(r: Record, reviews: seq<Review>) returns (task: Review)
    ensures var (final, queue) := WithFinalReview(r, reviews);
            if r.reviewId.Some? || r.missing != [] then final == r && queue == reviews
            else
              && final == r.(reviewId := Some(task.id)) && task.id == FinalReviewId(r.id)
              && FinalTask(task, final) && QueuedIn(reviews, queue, task)
  {
    hide PutReview, QueuedIn, FinalReviewId, PortalUser;
    task := Review(FinalReviewId(r.id), r.clientId, "low", PortalUser(r.company), Pending);
    PutQueues(reviews, task);
  }

  // ------------------------------------------------------------ uploads and inspections

  /** What an upload changes: the file, and when it completes an application without a review, the
      review; nothing else of the record and no other record. */
  lemma {:induction false} UploadExact(s: State, id: string, documents: seq<DocKey>) returns (r: Record, task: Review)
    requires id in s.records && s.records[id].id == id
    ensures var after, before := Uploaded(s, id, documents), s.records[id];
            && after.records == s.records[id := r]
            && FileOf(r, AsSet(before.provided) + AsSet(documents))
            && r.(provided := [], missing := [], reviewId := None)
               == before.(provided := [], missing := [], reviewId := None)
            && (if before.reviewId.None? && r.missing == []
                then r.reviewId == Some(task.id) && FinalTask(task, r) && QueuedIn(s.reviews, after.reviews, task)
                else r.reviewId == before.reviewId && after.reviews == s.reviews)
  {
    var r0 := Rechecked(s.records[id], documents);
    FileIs(r0, AsSet(s.records[id].provided) + AsSet(documents) * AsSet(REQUIRED));
    SameFile(s.records[id], r0, documents);
    hide PutReview, FinalReviewId, WithFinalReview, FileOf, AsSet, Pick, FinalTask, QueuedIn;
    task := FinalIs(r0, s.reviews);
    r := WithFinalReview(r0, s.reviews).0;
  }

  lemma SameFile(before: Record, r: Record, documents: seq<DocKey>)
    requires FileOf(r, AsSet(before.provided) + AsSet(documents) * AsSet(REQUIRED))
    ensures forall id :: FileOf(r.(reviewId := id), AsSet(before.provided) + AsSet(documents))
  {
    hide REQUIRED;
  }

  /** What a compliance inspection and a direct call put into the queue. */
  lemma {:induction false} TasksExact(
      s: State, requestId: string, fallback: string, clientId: string, high: bool, userId: string,
      c: KycCall, lists: Lists)
    ensures var after := Inspected(s, requestId, fallback, clientId, high, userId);
            && after.records == s.records
            && QueuedIn(s.reviews, after.reviews,
                 Review(ComplianceReviewId(requestId, fallback), clientId, if high then "high" else "medium",
                   userId, Pending))
    ensures var after := DirectlyScreened(s, c, lists);
            var risk := Onboarded(c.name, c.jurisdiction, c.owners, lists);
            && after.records == s.records
            && (if risk.status == PendingReview
                then QueuedIn(s.reviews, after.reviews,
                       Review(TaskIdOf(c), c.clientId, if risk.high then "high" else "low", c.userId, Pending))
                else after.reviews == s.reviews)
  {
    hide PutReview, QueuedIn, ComplianceReviewId, TaskIdOf, Onboarded;
    PutQueues(s.reviews,
      Review(ComplianceReviewId(requestId, fallback), clientId, if high then "high" else "medium", userId, Pending));
    PutQueues(s.reviews, TaskFor(c, lists));
  }
}
