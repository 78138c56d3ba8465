/** Runs of the audit log: recording, restarts, and appends that may be lost. */
module AuditRuns {
  import opened Prelude
  import opened Text
  import opened Audit

  // ------------------------------------------------------------------ whole runs

  /** Recording never repairs and never breaks a chain. */
  lemma RecordKeepsVerdict(log: Log, q: Request, mask: string -> string, key: string, written: bool)
    requires Extensible(log.events)
    ensures var after := Recorded(log, q, mask, key, written).events;
            Accepted(after, key) <==> Accepted(log.events, key)
  {
    var t, after := log.events, Recorded(log, q, mask, key, written).events;
    assert after[..|t|] == t && after[..|t| + 1] == after;
    if Accepted(after, key) {
      PrefixAccepted(after, |t|, key);
    }
    if Accepted(t, key) {
      assert t == [] || Intact(t, |t| - 1, key);
      assert t[..|t|] == t;
      assert LastHash(t) == ChainHash(t);
      forall i | 0 <= i < |t| ensures Intact(after, i, key) {
        assert Intact(t, i, key) && after[..i] == t[..i] && after[..i + 1] == t[..i + 1];
      }
      assert Intact(after, |t|, key);
    }
  }

  datatype Op = Write(request: Request, written: bool) | Restart

  predicate Writes(ops: seq<Op>) {
    forall i :: 0 <= i < |ops| ==> ops[i].Write?
  }

  predicate Durable(ops: seq<Op>) {
    forall i :: 0 <= i < |ops| ==> ops[i].Write? ==> ops[i].written
  }

  predicate Recoverable(log: Log) {
    && Extensible(log.events)
    && forall i :: 0 <= i < |log.disk| ==> log.disk[i].Stored? && log.disk[i].entry.entryHash.Some?
  }

  /** Reading back a file without blank or corrupt lines. */
  lemma {:induction false} ParsedOfStored(disk: seq<Line>)
    requires forall i :: 0 <= i < |disk| ==> disk[i].Stored?
    ensures |Parsed(disk)| == |disk|
    ensures forall i :: 0 <= i < |disk| ==> Parsed(disk)[i] == disk[i].entry
  {
    if disk != [] {
      ParsedOfStored(disk[1..]);
      forall i | 1 <= i < |disk| ensures Parsed(disk)[i] == disk[i].entry {
        assert Parsed(disk)[i] == Parsed(disk[1..])[i - 1] && disk[1..][i - 1] == disk[i];
      }
    }
  }

  lemma {:induction false} ParsedExtended(disk: seq<Line>, e: Entry)
    requires forall i :: 0 <= i < |disk| ==> disk[i].Stored?
    ensures Parsed(disk + [Stored(e)]) == Parsed(disk) + [e]
  {
    ParsedOfStored(disk);
    ParsedOfStored(disk + [Stored(e)]);
  }

  function Step(log: Log, op: Op, mask: string -> string, key: string): (r: Log)
    requires Recoverable(log)
    ensures Recoverable(r)
  {
    match op
    case Write(q, written) => Recorded(log, q, mask, key, written)
    case Restart => ParsedOfStored(log.disk); Reloaded(log.disk)
  }

  /** A run of a persistent log that starts without a file. */
  function Run(ops: seq<Op>, mask: string -> string, key: string): (r: Log)
    ensures Recoverable(r)
  {
    if ops == [] then Log([], 1, []) else Step(Run(ops[..|ops| - 1], mask, key), ops[|ops| - 1], mask, key)
  }

  lemma {:induction false} LogIdParses(n: nat)
    ensures AfterLastDash(LogId(n)) == ZeroPad(Decimal(n), 6)
    ensures AfterLastDash(LogId(n)) != "" && AllDigits(AfterLastDash(LogId(n)))
    ensures DecimalValue(AfterLastDash(LogId(n))) == n
  {
    DecimalRoundTrip(n);
    ZeroPadValue(Decimal(n), 6);
    AfterLastDashOf("AUDIT", ZeroPad(Decimal(n), 6));
    ZeroPadNonEmpty(Decimal(n), 6);
  }

  lemma {:induction false} ZeroPadNonEmpty(s: string, width: nat)
    requires s != ""
    ensures ZeroPad(s, width) != ""
    decreases width - |s|
  {
    if |s| < width { ZeroPadNonEmpty("0" + s, width); }
  }

  predicate Numbered(t: seq<Entry>) {
    forall i :: 0 <= i < |t| ==> t[i].content.logId == Some(LogId(i + 1))
  }

  lemma {:induction false} NextNumberOf(t: seq<Entry>, n: nat)
    requires t != [] && t[|t| - 1].content.logId == Some(LogId(n))
    ensures NextNumber(t) == n + 1
  {
    LogIdParses(n);
  }

  /** The state of a log nothing was lost from. */
  predicate Complete(log: Log, key: string) {
    && Accepted(log.events, key) && FullySigned(log.events) && Numbered(log.events)
    && Parsed(log.disk) == log.events && log.counter == |log.events| + 1
  }

  lemma {:induction false} StepKeepsComplete(log: Log, op: Op, mask: string -> string, key: string)
    requires Recoverable(log) && Complete(log, key)
    requires op.Write? ==> op.written
    ensures Complete(Step(log, op, mask, key), key)
  {
    hide Accepted, LogId, Fields, Parsed;
    var after := Step(log, op, mask, key);
    ParsedOfStored(log.disk);
    match op
    case Write(q, _) =>
      RecordKeepsVerdict(log, q, mask, key, true);
      ParsedExtended(log.disk, after.events[|log.events|]);
    case Restart =>
      if log.events != [] {
        NextNumberOf(log.events, |log.events|);
      }
  }

  /** With durable writes the file mirrors the trail, the trail verifies, every entry is signed
      and ids run 1, 2, 3, ... - across any number of restarts. */
  lemma {:induction false} DurableRunVerifies(ops: seq<Op>, mask: string -> string, key: string)
    requires Durable(ops)
    ensures Complete(Run(ops, mask, key), key)
  {
    if ops != [] {
      var init := ops[..|ops| - 1];
      assert Durable(init);
      DurableRunVerifies(init, mask, key);
      StepKeepsComplete(Run(init, mask, key), ops[|ops| - 1], mask, key);
    }
  }

  /** A corrupt line hides everything behind it: the verdict is that of the lines before it. */
  lemma {:induction false} CorruptLineTruncates(good: seq<Line>, rest: seq<Line>)
    ensures Parsed(good + [Corrupt] + rest) == Parsed(good)
  {
    var file := good + [Corrupt] + rest;
    if good != [] && !good[0].Corrupt? {
      assert file[1..] == good[1..] + [Corrupt] + rest;
      CorruptLineTruncates(good[1..], rest);
    }
  }

  // ------------------------------------------------------------------ lost writes

  /** The memory after `n` records, whatever reached the disk. */
  predicate FullTrail(log: Log, n: nat, key: string) {
    && |log.events| == n && log.counter == n + 1
    && Accepted(log.events, key) && FullySigned(log.events) && Numbered(log.events)
  }

  lemma RecordKeepsFullTrail(log: Log, n: nat, q: Request, mask: string -> string, key: string, written: bool)
    requires Extensible(log.events) && FullTrail(log, n, key)
    ensures FullTrail(Recorded(log, q, mask, key, written), n + 1, key)
  {
    hide Accepted, LogId, Fields;
    RecordKeepsVerdict(log, q, mask, key, written);
  }

  /** A run without restarts, whatever was lost on the way to the disk. */
  lemma {:induction false} RunOfWrites(ops: seq<Op>, mask: string -> string, key: string)
    requires Writes(ops)
    ensures var log := Run(ops, mask, key);
            && |log.events| == |ops| && log.counter == |ops| + 1
            && Accepted(log.events, key) && FullySigned(log.events) && Numbered(log.events)
  {
    if ops != [] {
      hide Accepted, FullySigned, Numbered, Recorded;
      var init, op := ops[..|ops| - 1], ops[|ops| - 1];
      assert Writes(init);
      RunOfWrites(init, mask, key);
      RecordKeepsFullTrail(Run(init, mask, key), |init|, op.request, mask, key, op.written);
    }
  }

  predicate Persisted(op: Op) {
    op.Write? && op.written
  }

  /** Positions of the writes that reached the disk. */
  function Survivors(ops: seq<Op>): seq<nat> {
    if ops == [] then []
    else Survivors(ops[..|ops| - 1]) + if Persisted(ops[|ops| - 1]) then [|ops| - 1] else []
  }

  lemma {:induction false} SurvivorsSelect(ops: seq<Op>)
    ensures Selection(Survivors(ops), |ops|)
    ensures forall i :: 0 <= i < |ops| ==> (i in Survivors(ops) <==> Persisted(ops[i]))
  {
    if ops != [] {
      var init := ops[..|ops| - 1];
      SurvivorsSelect(init);
      forall i | 0 <= i < |ops| ensures i in Survivors(ops) <==> Persisted(ops[i]) {
        if i < |init| {
          assert init[i] == ops[i];
        } else {
          assert i !in Survivors(init);
        }
      }
    }
  }

  lemma SelectExtended(genuine: seq<Entry>, e: Entry, idx: seq<nat>)
    requires Selection(idx, |genuine|)
    ensures Select(genuine + [e], idx) == Select(genuine, idx)
    ensures Select(genuine + [e], idx + [|genuine|]) == Select(genuine, idx) + [e]
  {
  }

  lemma {:induction false} DiskHoldsSurvivors(ops: seq<Op>, mask: string -> string, key: string)
    requires Writes(ops)
    ensures |Run(ops, mask, key).events| == |ops| && Selection(Survivors(ops), |ops|)
    ensures Parsed(Run(ops, mask, key).disk) == Select(Run(ops, mask, key).events, Survivors(ops))
  {
    SurvivorsSelect(ops);
    if ops != [] {
      var init, op := ops[..|ops| - 1], ops[|ops| - 1];
      assert Writes(init);
      DiskHoldsSurvivors(init, mask, key);
      var before := Run(init, mask, key);
      var e := NewEntry(LastHash(before.events), before.counter, op.request, mask, key);
      SelectExtended(before.events, e, Survivors(init));
      ParsedExtended(before.disk, e);
      assert before.disk + [] == before.disk;
    }
  }

  /** Every persisted event precedes every lost one. */
  predicate PersistedPrefix(ops: seq<Op>)
    requires Writes(ops)
  {
    forall i, j :: 0 <= i < j < |ops| && ops[j].written ==> ops[i].written
  }

  /** Reloading after lost writes: the trail verifies if and only if the persisted events are a
      prefix of the recorded ones. */
  lemma ReloadVerifiesIffPrefix(ops: seq<Op>, mask: string -> string, key: string)
    requires Writes(ops)
    ensures Accepted(Reloaded(Run(ops, mask, key).disk).events, key) <==> PersistedPrefix(ops)
  {
    var genuine, idx := Run(ops, mask, key).events, Survivors(ops);
    RunOfWrites(ops, mask, key);
    DiskHoldsSurvivors(ops, mask, key);
    SurvivorsSelect(ops);
    var kept := Select(genuine, idx);
    forall i | 0 <= i < |idx| ensures Intact(kept, i, key) <==> idx[i] == i {
      DeletionBreaksEverythingAfter(genuine, idx, i, key);
    }
    if Accepted(kept, key) {
      forall i, j | 0 <= i < j < |ops| && ops[j].written ensures ops[i].written {
        assert j in idx;
        var p :| 0 <= p < |idx| && idx[p] == j;
        assert Intact(kept, p, key);
        assert Intact(kept, i, key);
        assert idx[i] in idx;
      }
    }
    if PersistedPrefix(ops) {
      forall i | 0 <= i < |idx| ensures idx[i] == i {
        SurvivorsOfPrefix(ops, idx, i);
      }
    }
  }

  lemma {:induction false} SurvivorsOfPrefix(ops: seq<Op>, idx: seq<nat>, i: nat)
    requires Writes(ops) && PersistedPrefix(ops) && idx == Survivors(ops) && i < |idx|
    ensures idx[i] == i
  {
    SurvivorsSelect(ops);
    SelectionAtLeast(idx, |ops|, i);
    if i > 0 {
      SurvivorsOfPrefix(ops, idx, i - 1);
    }
    assert idx[i] in idx && ops[idx[i]].written;
    assert ops[i].written && i in idx;
    var p :| 0 <= p < |idx| && idx[p] == i;
  }

  /** When an event was lost before a persisted one, the verifier names exactly the first
      persisted event after the first gap. */
  lemma ReloadNamesFirstEventAfterGap(ops: seq<Op>, gap: nat, next: nat, mask: string -> string, key: string)
    requires Writes(ops) && gap < next < |ops|
    requires forall i :: 0 <= i < gap ==> ops[i].written
    requires forall i :: gap <= i < next ==> !ops[i].written
    requires ops[next].written
    ensures |Run(ops, mask, key).events| == |ops|
    ensures var t := Reloaded(Run(ops, mask, key).disk).events;
            && FirstBroken(t, key) == gap < |t|
            && t[gap] == Run(ops, mask, key).events[next]
            && t[gap].content.logId == Some(LogId(next + 1))
  {
    var genuine, idx := Run(ops, mask, key).events, Survivors(ops);
    RunOfWrites(ops, mask, key);
    DiskHoldsSurvivors(ops, mask, key);
    SurvivorsSelect(ops);
    GapPosition(ops, gap, next);
    FirstBrokenOfSelection(genuine, idx, gap, key);
    assert Select(genuine, idx)[gap] == genuine[next];
  }

  lemma {:induction false} SurvivorsMonotone(ops: seq<Op>, n: nat)
    requires n <= |ops|
    ensures Survivors(ops[..n]) <= Survivors(ops)
  {
    if n == |ops| {
      assert ops[..n] == ops;
    } else {
      var init := ops[..|ops| - 1];
      assert init[..n] == ops[..n];
      SurvivorsMonotone(init, n);
    }
  }

  lemma SurvivorsStep(ops: seq<Op>, n: nat)
    requires n < |ops|
    ensures Survivors(ops[..n + 1]) == Survivors(ops[..n]) + if Persisted(ops[n]) then [n] else []
  {
    assert ops[..n + 1][..n] == ops[..n];
  }

  lemma {:induction false} SurvivorsBeforeGap(ops: seq<Op>, gap: nat, n: nat)
    requires n <= |ops|
    requires forall i :: 0 <= i < n ==> (Persisted(ops[i]) <==> i < gap)
    ensures |Survivors(ops[..n])| == if n < gap then n else gap
    ensures forall i :: 0 <= i < |Survivors(ops[..n])| ==> Survivors(ops[..n])[i] == i
  {
    if n > 0 {
      SurvivorsBeforeGap(ops, gap, n - 1);
      SurvivorsStep(ops, n - 1);
    }
  }

  lemma GapPosition(ops: seq<Op>, gap: nat, next: nat)
    requires gap < next < |ops|
    requires forall i :: 0 <= i < next ==> (Persisted(ops[i]) <==> i < gap)
    requires Persisted(ops[next])
    ensures gap < |Survivors(ops)| && Survivors(ops)[gap] == next
    ensures forall i :: 0 <= i < gap ==> Survivors(ops)[i] == i
  {
    SurvivorsBeforeGap(ops, gap, next);
    SurvivorsStep(ops, next);
    SurvivorsMonotone(ops, next + 1);
    var upTo := Survivors(ops[..next + 1]);
    assert upTo[gap] == next;
    assert forall i :: 0 <= i <= gap ==> Survivors(ops)[i] == upTo[i];
  }

  lemma LastSurvivor(ops: seq<Op>, last: nat)
    requires last < |ops| && Persisted(ops[last])
    requires forall i :: last < i < |ops| ==> !Persisted(ops[i])
    ensures Survivors(ops) != [] && Survivors(ops)[|Survivors(ops)| - 1] == last
  {
    SurvivorsSelect(ops);
    var idx := Survivors(ops);
    assert last in idx && idx[|idx| - 1] in idx;
  }

  /** Numbering continues after the last persisted entry. */
  lemma ReloadContinuesNumbering(ops: seq<Op>, last: nat, mask: string -> string, key: string)
    requires Writes(ops) && last < |ops| && ops[last].written
    requires forall i :: last < i < |ops| ==> !ops[i].written
    ensures Reloaded(Run(ops, mask, key).disk).counter == last + 2
  {
    hide Run, Parsed;
    var genuine, idx := Run(ops, mask, key).events, Survivors(ops);
    RunOfWrites(ops, mask, key);
    DiskHoldsSurvivors(ops, mask, key);
    LastSurvivor(ops, last);
    var kept := Select(genuine, idx);
    assert kept[|kept| - 1] == genuine[last];
    NextNumberOf(kept, last + 1);
  }
}
