/** Client applications, their review tasks and the client-facing status. */
module Applications {
  import opened Prelude
  import opened Text
  import opened Keyed
  import opened Screening

  // ------------------------------------------------------------ documents

  datatype DocKey =
    | CertificateOfIncorporation
    | ProofOfRegisteredAddress
    | SourceOfFundsDeclaration
    | BeneficialOwnershipEvidence
    | Unlisted(name: string)

  /** The required documents, in checklist order. */
  const REQUIRED: seq<DocKey> :=
    [CertificateOfIncorporation, ProofOfRegisteredAddress, SourceOfFundsDeclaration, BeneficialOwnershipEvidence]

  /** The same in the order `sorted` puts their keys. */
  const ALPHABETICAL: seq<DocKey> :=
    [BeneficialOwnershipEvidence, CertificateOfIncorporation, ProofOfRegisteredAddress, SourceOfFundsDeclaration]

  /** `[key for key in keys if key in s]`. */
  function Pick(keys: seq<DocKey>, s: set<DocKey>): (r: seq<DocKey>)
    ensures forall k :: k in r <==> k in keys && k in s
  {
    if keys == [] then [] else (if keys[0] in s then [keys[0]] else []) + Pick(keys[1..], s)
  }

  function AsSet(keys: seq<DocKey>): set<DocKey> {
    set k | k in keys
  }

  // ------------------------------------------------------------ records and reviews

  datatype Intake = Intake(
    company: string,
    jurisdiction: string,
    product: string,
    owners: seq<Owner>,
    documents: seq<DocKey>)

  datatype Record = Record(
    id: string,
    clientId: string,
    company: string,
    jurisdiction: string,
    product: string,
    provided: seq<DocKey>,
    missing: seq<DocKey>,
    kyc: Status,
    reviewId: Option<string>)

  datatype ReviewState = Pending | Resolved(decision: string, reviewer: string, notes: string)

  datatype Review = Review(id: string, clientId: string, severity: string, userId: string, state: ReviewState)

  datatype State = State(records: map<string, Record>, reviews: seq<Review>)

  datatype ClientStatus = AdditionalDocumentsNeeded | UnderReview | ApprovedStatus | Declined

  // ------------------------------------------------------------ identifiers

  /** Eight upper-case hexadecimal digits, as cut from a fresh uuid. */
  predicate IsHex(hex: string) {
    |hex| == 8 && forall i :: 0 <= i < 8 ==> '0' <= hex[i] <= '9' || 'A' <= hex[i] <= 'F'
  }

  function AppId(hex: string): string {
    "APP-" + hex
  }

  /** `s.split("-", 1)[-1]`. */
  function AfterFirstDash(s: string): string {
    if '-' !in s then s else if s[0] == '-' then s[1..] else AfterFirstDash(s[1..])
  }

  function FinalReviewId(appId: string): string {
    "REV-ONB-" + AfterFirstDash(appId)
  }

  /** The trailing segment of a request id, or a fresh one when it carries no identity. */
  function ReviewSuffix(requestId: string, fallback: string): string {
    var tail := AfterLastDash(requestId);
    var suffix := if tail != "" then tail else requestId;
    if suffix == "" || Lower(suffix) == "unknown" || Lower(suffix) == "none" then fallback else suffix
  }

  function Lower(s: string): string {
    seq(|s|, i requires 0 <= i < |s| => LowerChar(s[i]))
  }

  function KycReviewId(appId: string): string {
    "REV-KYC-" + ReviewSuffix("REQ-" + appId, "")
  }

  function ComplianceReviewId(requestId: string, fallback: string): string {
    "REV-" + ReviewSuffix(requestId, fallback)
  }

  lemma AfterFirstDashOf(hex: string)
    ensures AfterFirstDash(AppId(hex)) == hex
  {
    var s := AppId(hex);
    assert s[3] == '-' && s[0] == 'A' && s[1..][0] == 'P' && s[2..][0] == 'P' && s[3..][0] == '-';
    assert '-' in s && '-' in s[1..] && '-' in s[2..] && '-' in s[3..];
    assert s[1..][1..] == s[2..] && s[2..][1..] == s[3..] && s[3..][1..] == hex;
    assert AfterFirstDash(s[3..]) == hex;
    assert AfterFirstDash(s[2..]) == AfterFirstDash(s[3..]);
    assert AfterFirstDash(s[1..]) == AfterFirstDash(s[2..]);
  }

  lemma NoDashInHex(hex: string)
    requires IsHex(hex)
    ensures '-' !in hex && hex != ""
  {
  }

  /** The two review ids of an application spell out its hexadecimal part. */
  lemma ReviewIdsOf(hex: string)
    requires IsHex(hex)
    ensures FinalReviewId(AppId(hex)) == "REV-ONB-" + hex
    ensures KycReviewId(AppId(hex)) == "REV-KYC-" + hex
  {
    AfterFirstDashOf(hex);
    NoDashInHex(hex);
    AfterLastDashOf("REQ-APP", hex);
    assert "REQ-" + AppId(hex) == "REQ-APP" + "-" + hex;
    assert |Lower(hex)| == 8;
  }

  /** The review ids an application can carry. */
  predicate OwnsReviewId(hex: string, reviewId: string) {
    IsHex(hex) && (reviewId == KycReviewId(AppId(hex)) || reviewId == FinalReviewId(AppId(hex)))
  }

  /** No two applications can share a review id. */
  lemma ReviewIdHasOneOwner(a: string, b: string, reviewId: string)
    requires OwnsReviewId(a, reviewId) && OwnsReviewId(b, reviewId)
    ensures a == b
  {
    ReviewIdsOf(a);
    ReviewIdsOf(b);
    assert reviewId[8..] == a && reviewId[8..] == b;
  }

  lemma SuffixShape(requestId: string, fallback: string)
    requires IsHex(fallback)
    ensures var s := ReviewSuffix(requestId, fallback);
            '-' !in s || s[|s| - 1] == '-'
  {
    hide Lower;
    AfterLastDashHasNoDash(requestId);
    NoDashInHex(fallback);
  }

  /** The compliance agent's review ids never collide with those of an application. */
  lemma ComplianceIdIsForeign(requestId: string, fallback: string, hex: string)
    requires IsHex(fallback)
    ensures !OwnsReviewId(hex, ComplianceReviewId(requestId, fallback))
  {
    hide ReviewSuffix;
    if OwnsReviewId(hex, ComplianceReviewId(requestId, fallback)) {
      var s := ReviewSuffix(requestId, fallback);
      ReviewIdsOf(hex);
      SuffixShape(requestId, fallback);
      var id := "REV-" + s;
      assert id[4..] == s && id[7] == s[3] == '-' && s[3] in s;
      assert s[|s| - 1] == id[|id| - 1] == hex[7];
      NoDashInHex(hex);
    }
  }

  // ------------------------------------------------------------ the review queue

  const REVIEW_ID: Review -> string := (r: Review) => r.id

  /** The first review with this id; the length of the queue when there is none. */
  function IndexOf(reviews: seq<Review>, id: string): (k: nat)
    ensures k <= |reviews|
    ensures forall i :: 0 <= i < k ==> reviews[i].id != id
    ensures k < |reviews| ==> reviews[k].id == id
  {
    IndexBy(REVIEW_ID, reviews, id)
  }

  function FindReview(reviews: seq<Review>, id: string): Option<Review> {
    var k := IndexOf(reviews, id);
    if k < |reviews| then Some(reviews[k]) else None
  }

  /** Upsert: replaces the review with the same id, or appends. */
  function PutReview(reviews: seq<Review>, review: Review): seq<Review> {
    UpsertBy(REVIEW_ID, reviews, review)
  }

  function ResolveIn(reviews: seq<Review>, id: string, state: ReviewState): seq<Review> {
    var k := IndexOf(reviews, id);
    if k < |reviews| then reviews[k := reviews[k].(state := state)] else reviews
  }

  predicate DistinctIds(reviews: seq<Review>) {
    forall i, j :: 0 <= i < j < |reviews| ==> reviews[i].id != reviews[j].id
  }

  // ------------------------------------------------------------ the operations

  function ClientIdFor(company: string): string {
    "CLIENT-" + Slug(if company == "" then "unknown" else company)
  }

  /** `s.upper().replace(" ", "-")`, for ASCII letters. */
  function Slug(s: string): string {
    seq(|s|, i requires 0 <= i < |s| => if s[i] == ' ' then '-' else UpperChar(s[i]))
  }

  function PortalUser(company: string): string {
    "client-portal:" + company
  }

  /** Sends a complete, unflagged application to the queue for its final human approval. */
  function WithFinalReview(record: Record, reviews: seq<Review>): (Record, seq<Review>) {
    if record.reviewId.Some? || record.missing != [] then (record, reviews)
    else
      var id := FinalReviewId(record.id);
      (record.(reviewId := Some(id)),
       PutReview(reviews, Review(id, record.clientId, "low", PortalUser(record.company), Pending)))
  }

  function Submitted(s: State, hex: string, intake: Intake, lists: Lists): State {
    var id, clientId := AppId(hex), ClientIdFor(intake.company);
    var risk := Onboarded(intake.company, intake.jurisdiction, intake.owners, lists);
    var flagged := risk.status == PendingReview;
    var reviews :=
      if flagged
      then
        var severity := if risk.high then "high" else "low";
        PutReview(s.reviews, Review(KycReviewId(id), clientId, severity, PortalUser(intake.company), Pending))
      else s.reviews;
    var provided := AsSet(intake.documents);
    var record := Record(
      id, clientId, intake.company, intake.jurisdiction, intake.product,
      Pick(ALPHABETICAL, provided), Pick(REQUIRED, AsSet(REQUIRED) - provided),
      risk.status, if flagged then Some(KycReviewId(id)) else None);
    var (final, queue) := WithFinalReview(record, reviews);
    State(s.records[id := final], queue)
  }

  function Uploaded(s: State, id: string, documents: seq<DocKey>): State {
    if id !in s.records then s
    else
      var provided := AsSet(s.records[id].provided) + AsSet(documents) * AsSet(REQUIRED);
      var record := s.records[id].(
        provided := Pick(ALPHABETICAL, provided),
        missing := Pick(REQUIRED, AsSet(REQUIRED) - provided));
      var (final, queue) := WithFinalReview(record, s.reviews);
      State(s.records[record.id := final], queue)
  }

  function ResolvedReview(s: State, id: string, state: ReviewState): State {
    s.(reviews := ResolveIn(s.reviews, id, state))
  }

  function Inspected(
      s: State, requestId: string, fallback: string, clientId: string, high: bool, userId: string): State {
    s.(reviews := PutReview(
      s.reviews,
      Review(ComplianceReviewId(requestId, fallback), clientId, if high then "high" else "medium", userId, Pending)))
  }

  /** The onboarding agent called directly; `fallback` stands in for a request id without identity. */
  datatype KycCall = KycCall(
    requestId: string,
    fallback: string,
    clientId: string,
    name: string,
    jurisdiction: string,
    owners: seq<Owner>,
    userId: string)

  predicate Escalates(c: KycCall, lists: Lists) {
    Onboarded(c.name, c.jurisdiction, c.owners, lists).status == PendingReview
  }

  function TaskIdOf(c: KycCall): string {
    "REV-KYC-" + ReviewSuffix(c.requestId, c.fallback)
  }

  function TaskFor(c: KycCall, lists: Lists): Review {
    var risk := Onboarded(c.name, c.jurisdiction, c.owners, lists);
    Review(TaskIdOf(c), c.clientId, if risk.high then "high" else "low", c.userId, Pending)
  }

  /** An escalated client gets a review task; the queue replaces a task with the same id. */
  function DirectlyScreened(s: State, c: KycCall, lists: Lists): State {
    if Escalates(c, lists) then s.(reviews := PutReview(s.reviews, TaskFor(c, lists))) else s
  }

  predicate IsApproval(decision: string) {
    Lower(decision) == "approve" || Lower(decision) == "approved"
  }

  /** The status the client sees. */
  function StatusOf(record: Record, reviews: seq<Review>): ClientStatus {
    var review := if record.reviewId.Some? then FindReview(reviews, record.reviewId.value) else None;
    if review.Some? && review.value.state.Resolved? then
      if IsApproval(review.value.state.decision) then ApprovedStatus else Declined
    else if record.missing != [] && review.None? && record.kyc != PendingReview then AdditionalDocumentsNeeded
    else UnderReview
  }

  /** What the client is still asked for. */
  function OutstandingOf(record: Record, reviews: seq<Review>): seq<DocKey> {
    var status := StatusOf(record, reviews);
    if status == ApprovedStatus || status == Declined then [] else record.missing
  }

  // ------------------------------------------------------------ the register

  class Portal {
    const lists: Lists
    var records: map<string, Record>
    var reviews: seq<Review>

    function View(): State
      reads this
    {
      State(records, reviews)
    }

    constructor (lists: Lists)
      ensures this.lists == lists && View() == State(map[], [])
    {
      this.lists := lists;
      records, reviews := map[], [];
    }

    method AddReview(review: Review)
      modifies this`reviews
      ensures reviews == PutReview(old(reviews), review)
    {
      for index := 0 to |reviews|
        invariant reviews == old(reviews)
        invariant forall i :: 0 <= i < index ==> reviews[i].id != review.id
      {
        if reviews[index].id == review.id {
          reviews := reviews[index := review];
          return;
        }
      }
      reviews := reviews + [review];
    }

    /** False stands for the ValueError of an unknown review. */
    method ResolveReview(id: string, decision: string, reviewer: string, notes: string) returns (found: bool)
      modifies this`reviews
      ensures View() == ResolvedReview(old(View()), id, Resolved(decision, reviewer, notes))
      ensures found <==> FindReview(old(reviews), id).Some?
    {
      for index := 0 to |reviews|
        invariant reviews == old(reviews)
        invariant forall i :: 0 <= i < index ==> reviews[i].id != id
      {
        if reviews[index].id == id {
          reviews := reviews[index := reviews[index].(state := Resolved(decision, reviewer, notes))];
          return true;
        }
      }
      return false;
    }

    method EnsureFinalReview(record: Record) returns (r: Record)
      modifies this`reviews
      ensures (r, reviews) == WithFinalReview(record, old(reviews))
    {
      if record.reviewId.Some? || record.missing != [] {
        return record;
      }
      var id := FinalReviewId(record.id);
      AddReview(Review(id, record.clientId, "low", PortalUser(record.company), Pending));
      return record.(reviewId := Some(id));
    }

    /** `hex` is the random part of the new application id. */
    method SubmitApplication(hex: string, intake: Intake) returns (record: Record)
      modifies this
      ensures View() == Submitted(old(View()), hex, intake, lists)
      ensures AppId(hex) in records && record == records[AppId(hex)]
    {
      hide Onboarded, Slug, Pick, KycReviewId;
      var id, clientId := AppId(hex), ClientIdFor(intake.company);
      var risk := Onboarded(intake.company, intake.jurisdiction, intake.owners, lists);
      var reviewId: Option<string> := None;
      if risk.status == PendingReview {
        reviewId := Some(KycReviewId(id));
        var severity := if risk.high then "high" else "low";
        AddReview(Review(KycReviewId(id), clientId, severity, PortalUser(intake.company), Pending));
      }
      var provided := AsSet(intake.documents);
      record := Record(
        id, clientId, intake.company, intake.jurisdiction, intake.product,
        Pick(ALPHABETICAL, provided), Pick(REQUIRED, AsSet(REQUIRED) - provided), risk.status, reviewId);
      record := EnsureFinalReview(record);
      records := records[id := record];
    }

    /** False stands for the 404 of an unknown application. */
    method AddDocuments(id: string, submitted: seq<DocKey>) returns (found: bool)
      modifies this
      ensures View() == Uploaded(old(View()), id, submitted)
      ensures found <==> id in old(records)
    {
      hide Pick;
      if id !in records {
        return false;
      }
      var accepted: set<DocKey> := {};
      for i := 0 to |submitted|
        invariant accepted == AsSet(submitted[..i]) * AsSet(REQUIRED)
        invariant View() == old(View())
      {
        if submitted[i] in REQUIRED {
          accepted := accepted + {submitted[i]};
        }
        assert submitted[..i + 1] == submitted[..i] + [submitted[i]];
      }
      assert submitted[..|submitted|] == submitted;
      var provided := AsSet(records[id].provided) + accepted;
      var record := records[id].(
        provided := Pick(ALPHABETICAL, provided),
        missing := Pick(REQUIRED, AsSet(REQUIRED) - provided));
      record := EnsureFinalReview(record);
      records := records[record.id := record];
      return true;
    }

    method ClientView(record: Record) returns (status: ClientStatus, outstanding: seq<DocKey>)
      ensures status == StatusOf(record, reviews) && outstanding == OutstandingOf(record, reviews)
    {
      var review: Option<Review> := None;
      if record.reviewId.Some? {
        for i := 0 to |reviews|
          invariant review.None?
          invariant forall j :: 0 <= j < i ==> reviews[j].id != record.reviewId.value
        {
          if reviews[i].id == record.reviewId.value {
            review := Some(reviews[i]);
            break;
          }
        }
      }
      if review.Some? && review.value.state.Resolved? {
        status := if IsApproval(review.value.state.decision) then ApprovedStatus else Declined;
      } else if record.missing != [] && review.None? && record.kyc != PendingReview {
        status := AdditionalDocumentsNeeded;
      } else {
        status := UnderReview;
      }
      outstanding := [];
      if record.missing != [] && status != ApprovedStatus && status != Declined {
        outstanding := record.missing;
      }
    }
  }
}
