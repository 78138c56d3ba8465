/** What recorded entries say: every argument under its key, strings of the metadata masked. */
module AuditContent {
  import opened Prelude
  import opened Text
  import TextLaws
  import opened Audit
  import opened AuditRuns
  import opened Restarts

  predicate GivenOrNull(v: Value, s: Option<string>) {
    v == if s.Some? then Text(s.value) else Null
  }

  /** The stored metadata has the keys of the request; text is stored masked, anything else as it
      was given. */
  predicate MaskedFrom(stored: map<string, Value>, given: map<string, Value>, mask: string -> string) {
    && stored.Keys == given.Keys
    && forall k :: k in given ==>
         match given[k]
         case Text(x) => stored[k] == Text(mask(x))
         case _ => stored[k] == given[k]
  }

  const FIELD_NAMES: set<string> :=
    {"event_type", "timestamp", "actor_id", "resource_id", "request_id", "trace_id", "action", "result", "metadata",
     "immutable"}

  /** The dictionary of an entry holds the arguments of `record`. */
  predicate HoldsArguments(f: map<string, Value>, q: Request, mask: string -> string) {
    && f.Keys == FIELD_NAMES
    && f["event_type"] == Text(q.eventType) && f["timestamp"] == Text(q.timestamp)
    && f["actor_id"] == Text(q.actorId) && f["action"] == Text(q.action) && f["result"] == Text(q.result)
    && GivenOrNull(f["resource_id"], q.resourceId) && GivenOrNull(f["request_id"], q.requestId)
    && GivenOrNull(f["trace_id"], q.traceId)
    && f["immutable"] == Flag(true)
    && f["metadata"].Object? && MaskedFrom(f["metadata"].fields, q.metadata, mask)
  }

  lemma MetadataMasked(q: Request, mask: string -> string)
    ensures MaskedFrom(MaskedMetadata(q, mask), q.metadata, mask)
  {
  }

  lemma FieldsHoldArguments(q: Request, mask: string -> string)
    ensures HoldsArguments(Fields(q, mask), q, mask)
  {
    hide MaskedMetadata, MaskedFrom;
    MetadataMasked(q, mask);
  }

  /** `e` is what recording `q` as number `n` leaves. */
  predicate RecordOf(e: Entry, n: nat, q: Request, mask: string -> string) {
    e.content.logId == Some(LogId(n)) && HoldsArguments(e.content.fields, q, mask)
  }

  lemma NewEntryRecords(prev: Digest, n: nat, q: Request, mask: string -> string, key: string)
    ensures RecordOf(NewEntry(prev, n, q, mask, key), n, q, mask)
  {
    hide HoldsArguments, Fields, LogId;
    FieldsHoldArguments(q, mask);
  }

  /** The printed id: the prefix, then the number in decimal with at least six places. */
  lemma LogIdShape(n: nat)
    ensures var digits := LogId(n)[6..];
            && |LogId(n)| >= 12 && LogId(n)[..6] == "AUDIT-"
            && AllDigits(digits) && DecimalValue(digits) == n
            && (|digits| > 6 ==> digits[0] != '0')
  {
    DecimalRoundTrip(n);
    ZeroPadValue(Decimal(n), 6);
    TextLaws.PadShape(Decimal(n), 6);
    TextLaws.DecimalShape(n);
    assert LogId(n)[6..] == ZeroPad(Decimal(n), 6);
  }

  /** Every entry is the record of some request of the run. */
  ghost predicate AllRecorded(t: seq<Entry>, ops: seq<Op>, mask: string -> string) {
    forall e :: e in t ==>
      exists i :: 0 <= i < |ops| && ops[i].Write? && exists n :: RecordOf(e, n, ops[i].request, mask)
  }

  lemma AllRecordedGrows(t: seq<Entry>, ops: seq<Op>, op: Op, mask: string -> string)
    requires AllRecorded(t, ops, mask)
    ensures AllRecorded(t, ops + [op], mask)
  {
    hide RecordOf;
    var all := ops + [op];
    forall e | e in t
      ensures exists i :: 0 <= i < |all| && all[i].Write? && exists n :: RecordOf(e, n, all[i].request, mask)
    {
      var i :| 0 <= i < |ops| && ops[i].Write? && exists n :: RecordOf(e, n, ops[i].request, mask);
      assert all[i] == ops[i];
    }
  }

  lemma AllRecordedExtended(t: seq<Entry>, e: Entry, n: nat, ops: seq<Op>, op: Op, mask: string -> string)
    requires AllRecorded(t, ops, mask) && op.Write? && RecordOf(e, n, op.request, mask)
    ensures AllRecorded(t + [e], ops + [op], mask)
  {
    hide RecordOf;
    AllRecordedGrows(t, ops, op, mask);
    assert (ops + [op])[|ops|] == op;
  }

  /** Over every mix of records, losses and restarts: every entry in memory and in the file holds
      exactly the arguments of some record of the run, its metadata masked. */
  lemma {:induction false} EveryEntryIsMasked(ops: seq<Op>, mask: string -> string, key: string)
    ensures AllRecorded(Run(ops, mask, key).events, ops, mask)
    ensures AllRecorded(Parsed(Run(ops, mask, key).disk), ops, mask)
  {
    if ops != [] {
      hide RecordOf, AllRecorded, Recorded, Parsed, NewEntry, NoCorrupt;
      var init, op := ops[..|ops| - 1], ops[|ops| - 1];
      assert ops == init + [op];
      var log := Run(init, mask, key);
      EveryEntryIsMasked(init, mask, key);
      AllRecordedGrows(log.events, init, op, mask);
      AllRecordedGrows(Parsed(log.disk), init, op, mask);
      match op
      case Write(q, written) =>
        var e := RecordedFile(log, q, written, mask, key);
        NewEntryRecords(LastHash(log.events), log.counter, q, mask, key);
        AllRecordedExtended(log.events, e, log.counter, init, op, mask);
        AllRecordedExtended(Parsed(log.disk), e, log.counter, init, op, mask);
      case Restart =>
    }
  }

  /** In a run without restarts the entry at each position records the request at that position. */
  lemma {:induction false} EntriesRecordRequests(ops: seq<Op>, mask: string -> string, key: string, i: nat)
    requires Writes(ops) && i < |ops|
    ensures |Run(ops, mask, key).events| == |ops|
    ensures RecordOf(Run(ops, mask, key).events[i], i + 1, ops[i].request, mask)
  {
    hide RecordOf, Parsed, NewEntry, NoCorrupt, Accepted, FullySigned, Numbered;
    var init, op := ops[..|ops| - 1], ops[|ops| - 1];
    assert Writes(init);
    RunOfWrites(init, mask, key);
    RunOfWrites(ops, mask, key);
    var log := Run(init, mask, key);
    if i < |init| {
      EntriesRecordRequests(init, mask, key, i);
    } else {
      NewEntryRecords(LastHash(log.events), log.counter, op.request, mask, key);
    }
  }

  /** Two values of the metadata that masking makes the same. */
  predicate SameMasked(v: Value, w: Value, mask: string -> string) {
    v == w || (v.Text? && w.Text? && mask(v.text) == mask(w.text))
  }

  /** What masking removes leaves no trace in the entry: requests that differ only in strings it
      makes the same have equal hashed fields. */
  lemma MaskedAwayLeavesNoTrace(a: Request, b: Request, mask: string -> string)
    requires a.(metadata := map[]) == b.(metadata := map[]) && a.metadata.Keys == b.metadata.Keys
    requires forall k :: k in a.metadata ==> SameMasked(a.metadata[k], b.metadata[k], mask)
    ensures Fields(a, mask) == Fields(b, mask)
  {
    assert MaskedMetadata(a, mask) == MaskedMetadata(b, mask);
  }

  /** The number after a reload: one after the number in the last id; the number of entries plus
      one if the id does not end in digits; one if the entry has no id. */
  lemma NextNumberExact(t: seq<Entry>, prefix: string, tail: string)
    requires t != [] && '-' !in tail
    ensures t[|t| - 1].content.logId == Some(prefix + "-" + tail) ==>
              NextNumber(t) == if tail != "" && AllDigits(tail) then DecimalValue(tail) + 1 else |t| + 1
    ensures t[|t| - 1].content.logId == Some(tail) ==>
              NextNumber(t) == if tail != "" && AllDigits(tail) then DecimalValue(tail) + 1 else |t| + 1
    ensures t[|t| - 1].content.logId.None? ==> NextNumber(t) == 1
    ensures NextNumber([]) == 1
  {
    AfterLastDashOf(prefix, tail);
    AfterLastDashOfPlain(tail);
    AfterLastDashOf("AUDIT", "000000");
    assert "AUDIT" + "-" + "000000" == "AUDIT-000000";
    ZeroesAreZero();
  }

  lemma ZeroesAreZero()
    ensures AllDigits("000000") && DecimalValue("000000") == 0
  {
    DecimalRoundTrip(0);
    assert Decimal(0) == "0";
    LeadingZero("0");
    LeadingZero("00");
    LeadingZero("000");
    LeadingZero("0000");
    LeadingZero("00000");
    assert "0" + "0" == "00" && "0" + "00" == "000" && "0" + "000" == "0000" && "0" + "0000" == "00000";
    assert "0" + "00000" == "000000";
  }

  // ------------------------------------------------------------ reading and counting

  /** Reading a file: blank lines are skipped, every other line up to a corrupt one is kept. */
  lemma {:induction false} ParsedLaws(a: seq<Line>, b: seq<Line>, e: Entry)
    ensures Parsed([]) == [] && Parsed([Blank]) == [] && Parsed([Stored(e)]) == [e] && Parsed([Corrupt]) == []
    ensures NoCorrupt(a) ==> Parsed(a + b) == Parsed(a) + Parsed(b)
  {
    assert [Blank][1..] == [] && [Stored(e)][1..] == [];
    if a == [] {
      assert a + b == b;
    } else {
      assert (a + b)[0] == a[0] && (a + b)[1..] == a[1..] + b;
      ParsedLaws(a[1..], b, e);
      assert NoCorrupt(a) ==> NoCorrupt(a[1..]);
    }
  }

  /** The reported number of signatures is that of the entries that carry one. */
  lemma {:induction false} SignedCountIsCount(t: seq<Entry>)
    ensures SignedCount(t) == |set i | 0 <= i < |t| && t[i].signature.Some?|
  {
    if t != [] {
      var init, n := t[..|t| - 1], |t| - 1;
      SignedCountIsCount(init);
      var before, all := set i | 0 <= i < n && init[i].signature.Some?, set i | 0 <= i < |t| && t[i].signature.Some?;
      assert all == before + if t[n].signature.Some? then {n} else {};
    }
  }
}
