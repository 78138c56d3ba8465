/** Audit runs that mix lost writes and restarts. */
module Restarts {
  import opened Prelude
  import opened Text
  import opened Audit
  import opened AuditRuns

  /** No restart from `i` on before `j`. */
  predicate SameSession(ops: seq<Op>, i: nat, j: nat)
    requires i <= j <= |ops|
  {
    forall k :: i <= k < j ==> ops[k].Write?
  }

  /** Within each session, no persisted write follows a lost one. */
  predicate Orderly(ops: seq<Op>) {
    forall i, j :: 0 <= i < j < |ops| && Persisted(ops[j]) && SameSession(ops, i, j) ==> Persisted(ops[i])
  }

  /** Nothing was lost in the current session. */
  predicate Clean(ops: seq<Op>) {
    forall i :: 0 <= i < |ops| && SameSession(ops, i, |ops|) ==> Persisted(ops[i])
  }

  lemma OrderlyStep(ops: seq<Op>)
    requires ops != []
    ensures var init, op := ops[..|ops| - 1], ops[|ops| - 1];
            Orderly(ops) <==> Orderly(init) && (Persisted(op) ==> Clean(init))
  {
    var n := |ops| - 1;
    var init := ops[..n];
    assert forall i, j :: 0 <= i <= j <= n ==> (SameSession(init, i, j) <==> SameSession(ops, i, j));
  }

  lemma CleanStep(ops: seq<Op>)
    requires ops != []
    ensures var init, op := ops[..|ops| - 1], ops[|ops| - 1];
            Clean(ops) <==> op.Restart? || (op.written && Clean(init))
  {
    var n := |ops| - 1;
    var init := ops[..n];
    assert ops[n].Write? ==> forall i :: 0 <= i <= n ==> (SameSession(init, i, n) <==> SameSession(ops, i, n + 1));
    assert SameSession(ops, n, n + 1) <==> ops[n].Write?;
  }

  // ------------------------------------------------------------ runs on an existing file

  predicate NoCorrupt(disk: seq<Line>) {
    forall i :: 0 <= i < |disk| ==> !disk[i].Corrupt?
  }

  /** A line appended behind a corrupt one is never read. */
  lemma {:induction false} ParsedAppend(disk: seq<Line>, e: Entry)
    ensures Parsed(disk + [Stored(e)]) == if NoCorrupt(disk) then Parsed(disk) + [e] else Parsed(disk)
  {
    var file := disk + [Stored(e)];
    if disk == [] {
      assert file[1..] == [];
    } else {
      assert file[1..] == disk[1..] + [Stored(e)] && file[0] == disk[0];
      ParsedAppend(disk[1..], e);
      assert NoCorrupt(disk) <==> !disk[0].Corrupt? && NoCorrupt(disk[1..]);
    }
  }

  /** What recording does to the trail and to what a restart would read. */
  lemma RecordedFile(log: Log, q: Request, written: bool, mask: string -> string, key: string) returns (e: Entry)
    requires Extensible(log.events)
    ensures e == NewEntry(LastHash(log.events), log.counter, q, mask, key) && e.entryHash.Some?
    ensures var after := Recorded(log, q, mask, key, written);
            && after.events == log.events + [e] && after.counter == log.counter + 1
            && Parsed(after.disk) == (if written && NoCorrupt(log.disk)
                                      then Parsed(log.disk) + [e] else Parsed(log.disk))
            && (NoCorrupt(after.disk) <==> NoCorrupt(log.disk))
  {
    e := NewEntry(LastHash(log.events), log.counter, q, mask, key);
    var after := Recorded(log, q, mask, key, written);
    hide Parsed, Fields;
    if written {
      ParsedAppend(log.disk, e);
      if !NoCorrupt(log.disk) {
        StaysCorrupt(log.disk, after.disk);
      }
    } else {
      assert after.disk == log.disk;
    }
  }

  lemma StaysCorrupt(disk: seq<Line>, after: seq<Line>)
    requires !NoCorrupt(disk) && disk <= after
    ensures !NoCorrupt(after)
  {
    var i :| 0 <= i < |disk| && disk[i].Corrupt?;
    assert after[i] == disk[i];
  }

  /** The memory and what a restart would read can both be extended. */
  predicate Extendable(log: Log) {
    Extensible(log.events) && Extensible(Parsed(log.disk))
  }

  lemma ExtendableStep(log: Log, q: Request, written: bool, mask: string -> string, key: string)
    requires Extendable(log)
    ensures Extendable(Recorded(log, q, mask, key, written))
  {
    hide Recorded, Parsed, NoCorrupt, NewEntry;
    var e := RecordedFile(log, q, written, mask, key);
  }

  function StepFrom(log: Log, op: Op, mask: string -> string, key: string): (r: Log)
    requires Extendable(log)
    ensures Extendable(r)
  {
    match op
    case Write(q, written) =>
      ExtendableStep(log, q, written, mask, key);
      Recorded(log, q, mask, key, written)
    case Restart => Reloaded(log.disk)
  }

  /** A run of a log started on a file, whose last readable entry carries a hash. */
  function RunFrom(file: seq<Line>, ops: seq<Op>, mask: string -> string, key: string): (r: Log)
    requires Extensible(Parsed(file))
    ensures Extendable(r)
  {
    if ops == [] then Reloaded(file)
    else StepFrom(RunFrom(file, ops[..|ops| - 1], mask, key), ops[|ops| - 1], mask, key)
  }

  lemma {:induction false} RunFromNothing(ops: seq<Op>, mask: string -> string, key: string)
    ensures RunFrom([], ops, mask, key) == Run(ops, mask, key)
  {
    if ops != [] {
      hide Recorded;
      RunFromNothing(ops[..|ops| - 1], mask, key);
    }
  }

  // ------------------------------------------------------------ when the reloaded trail verifies

  /** What the file and the memory have to do with each other: they are the same while the
      session is clean; afterwards, if the file still verifies, it is a proper prefix. */
  predicate InStep(log: Log, clean: bool, key: string) {
    var stored := Parsed(log.disk);
    && (clean ==> stored == log.events)
    && (!clean && Accepted(stored, key) ==> stored < log.events && Accepted(log.events, key))
  }

  lemma WriteStep(log: Log, clean: bool, q: Request, written: bool, mask: string -> string, key: string)
    requires Extensible(log.events) && NoCorrupt(log.disk) && InStep(log, clean, key)
    ensures var after := Recorded(log, q, mask, key, written);
            && NoCorrupt(after.disk) && InStep(after, clean && written, key)
            && (Accepted(Parsed(after.disk), key) <==> Accepted(Parsed(log.disk), key) && (written ==> clean))
  {
    var after, stored := Recorded(log, q, mask, key, written), Parsed(log.disk);
    var e := RecordedFile(log, q, written, mask, key);
    RecordKeepsVerdict(log, q, mask, key, written);
    hide Recorded, Parsed, NoCorrupt, NewEntry, Accepted;
    if written && !clean {
      BehindGapRejected(stored, log.events, e, q, log.counter, mask, key);
    }
  }

  /** An entry recorded behind lost ones does not fit the file. */
  lemma BehindGapRejected(
      stored: seq<Entry>, events: seq<Entry>, e: Entry, q: Request, counter: nat, mask: string -> string, key: string)
    requires Extensible(events) && e == NewEntry(LastHash(events), counter, q, mask, key)
    requires Accepted(stored, key) ==> stored < events && Accepted(events, key)
    ensures !Accepted(stored + [e], key)
  {
    var t, n := stored + [e], |stored|;
    if Accepted(t, key) {
      PrefixAccepted(t, n, key);
      assert t[..n] == stored;
      assert Intact(t, n, key) && Intact(events, |events| - 1, key);
      assert events[..|events|] == events;
      ChainHashInjective(stored, events);
    }
  }

  lemma RestartInStep(disk: seq<Line>, key: string)
    ensures InStep(Reloaded(disk), true, key)
  {
  }

  lemma EmptyRun()
    ensures Orderly([]) && Clean([])
  {
  }

  lemma {:induction false} RunInStep(file: seq<Line>, ops: seq<Op>, mask: string -> string, key: string)
    requires Extensible(Parsed(file)) && NoCorrupt(file)
    ensures var log := RunFrom(file, ops, mask, key);
            && NoCorrupt(log.disk) && InStep(log, Clean(ops), key)
            && (Accepted(Parsed(log.disk), key) <==> Accepted(Parsed(file), key) && Orderly(ops))
  {
    hide Recorded, InStep, Accepted, Orderly, Clean, Parsed, NoCorrupt, Extensible;
    EmptyRun();
    if ops == [] {
      RestartInStep(file, key);
    } else {
      var init, op := ops[..|ops| - 1], ops[|ops| - 1];
      RunInStep(file, init, mask, key);
      OrderlyStep(ops);
      CleanStep(ops);
      var log := RunFrom(file, init, mask, key);
      match op
      case Write(q, written) =>
        WriteStep(log, Clean(init), q, written, mask, key);
      case Restart =>
        RestartInStep(log.disk, key);
    }
  }

  /** Behind a corrupt line nothing is ever read: whatever was recorded since is gone at the next
      restart. */
  lemma {:induction false} BehindCorruptLineIsLost(file: seq<Line>, ops: seq<Op>, mask: string -> string, key: string)
    requires Extensible(Parsed(file)) && !NoCorrupt(file)
    ensures var log := RunFrom(file, ops, mask, key); !NoCorrupt(log.disk) && Parsed(log.disk) == Parsed(file)
  {
    if ops != [] {
      hide Parsed, NewEntry, Recorded, NoCorrupt;
      var log, op := RunFrom(file, ops[..|ops| - 1], mask, key), ops[|ops| - 1];
      BehindCorruptLineIsLost(file, ops[..|ops| - 1], mask, key);
      if op.Write? {
        var e := RecordedFile(log, op.request, op.written, mask, key);
      }
    }
  }

  /** On every file and over every mix of records, losses and restarts: after a restart the trail
      verifies if and only if the file did and, unless a corrupt line hides them, within each
      session no persisted write followed a lost one. */
  lemma ReloadOfFileVerifiesIff(file: seq<Line>, ops: seq<Op>, mask: string -> string, key: string)
    requires Extensible(Parsed(file))
    ensures Accepted(Reloaded(RunFrom(file, ops, mask, key).disk).events, key) <==>
            Accepted(Parsed(file), key) && (NoCorrupt(file) ==> Orderly(ops))
  {
    hide RunFrom, Parsed, Accepted, Orderly, NoCorrupt, Extensible;
    if NoCorrupt(file) {
      RunInStep(file, ops, mask, key);
    } else {
      BehindCorruptLineIsLost(file, ops, mask, key);
    }
  }

  /** The same for a log that starts without a file. */
  lemma ReloadVerifiesIffOrderly(ops: seq<Op>, mask: string -> string, key: string)
    ensures Accepted(Reloaded(Run(ops, mask, key).disk).events, key) <==> Orderly(ops)
  {
    hide RunFrom, Run, Orderly;
    RunFromNothing(ops, mask, key);
    ReloadOfFileVerifiesIff([], ops, mask, key);
  }

  // ------------------------------------------------------------ which entry is reported

  /** A disorderly run has a first write that is persisted behind a lost one. */
  lemma {:induction false} FirstDisorder(ops: seq<Op>) returns (j: nat)
    requires !Orderly(ops)
    ensures j < |ops| && Orderly(ops[..j]) && !Orderly(ops[..j + 1])
  {
    hide Orderly;
    EmptyRun();
    var init := ops[..|ops| - 1];
    assert ops[..|ops|] == ops;
    if Orderly(init) {
      j := |ops| - 1;
    } else {
      j := FirstDisorder(init);
      assert init[..j] == ops[..j] && init[..j + 1] == ops[..j + 1];
    }
  }

  /** Files only grow, and so does what is read of them. */
  lemma {:induction false} FileGrows(file: seq<Line>, ops: seq<Op>, n: nat, mask: string -> string, key: string)
    requires Extensible(Parsed(file)) && n <= |ops|
    ensures Parsed(RunFrom(file, ops[..n], mask, key).disk) <= Parsed(RunFrom(file, ops, mask, key).disk)
  {
    hide Parsed, NewEntry, Recorded, NoCorrupt;
    if n == |ops| {
      assert ops[..n] == ops;
    } else {
      var init := ops[..|ops| - 1];
      assert init[..n] == ops[..n];
      FileGrows(file, init, n, mask, key);
      var log := RunFrom(file, init, mask, key);
      var op := ops[|ops| - 1];
      if op.Write? {
        var e := RecordedFile(log, op.request, op.written, mask, key);
      }
    }
  }

  lemma FirstBrokenAt(t: seq<Entry>, u: seq<Entry>, key: string)
    requires u < t && Accepted(u, key) && !Accepted(t[..|u| + 1], key)
    ensures FirstBroken(t, key) == |u|
  {
    var n := |u|;
    var start := t[..n + 1];
    forall i | 0 <= i < n ensures Intact(t, i, key) && Intact(start, i, key) {
      assert Intact(u, i, key);
      assert t[..i] == u[..i] == start[..i] && t[..i + 1] == u[..i + 1] == start[..i + 1];
    }
    assert Intact(t, n, key) ==> Intact(start, n, key) by {
      assert t[..n] == start[..n] && t[..n + 1] == start[..n + 1];
    }
  }

  /** After losses and restarts in any order the verifier names exactly the first event that was
      persisted behind a lost one of its session. */
  lemma {:induction false} ReloadNamesFirstDisorder(
      file: seq<Line>, ops: seq<Op>, j: nat, mask: string -> string, key: string)
    requires Extensible(Parsed(file)) && NoCorrupt(file) && Accepted(Parsed(file), key)
    requires j < |ops| && Orderly(ops[..j]) && !Orderly(ops[..j + 1])
    ensures var t := Reloaded(RunFrom(file, ops, mask, key).disk).events;
            var before := Parsed(RunFrom(file, ops[..j], mask, key).disk);
            var session := RunFrom(file, ops[..j + 1], mask, key).events;
            && FirstBroken(t, key) == |before| < |t|
            && session != [] && t[|before|] == session[|session| - 1]
  {
    hide Parsed, NewEntry, Recorded, Orderly, Clean, Accepted, InStep, NoCorrupt;
    var upTo := ops[..j + 1];
    assert upTo[..|upTo| - 1] == ops[..j];
    OrderlyStep(upTo);
    RunInStep(file, ops[..j], mask, key);
    RunInStep(file, upTo, mask, key);
    FileGrows(file, ops, j + 1, mask, key);
    var log, next := RunFrom(file, ops[..j], mask, key), RunFrom(file, upTo, mask, key);
    var t := Parsed(RunFrom(file, ops, mask, key).disk);
    var e := RecordedFile(log, ops[j].request, ops[j].written, mask, key);
    assert t[..|Parsed(log.disk)| + 1] == Parsed(next.disk);
    FirstBrokenAt(t, Parsed(log.disk), key);
  }

  // ------------------------------------------------------------ numbers

  /** The number an entry's log id ends in. */
  function NumberOf(e: Entry): nat {
    var digits := AfterLastDash(e.content.logId.GetOr(""));
    if AllDigits(digits) then DecimalValue(digits) else 0
  }

  /** The ids are those of ascending numbers below `bound`. */
  predicate AscendingBelow(t: seq<Entry>, bound: nat) {
    && (forall i :: 0 <= i < |t| ==> t[i].content.logId == Some(LogId(NumberOf(t[i]))) && NumberOf(t[i]) < bound)
    && (forall i, j :: 0 <= i < j < |t| ==> NumberOf(t[i]) < NumberOf(t[j]))
  }

  lemma AscendingExtended(t: seq<Entry>, e: Entry, n: nat)
    requires AscendingBelow(t, n) && e.content.logId == Some(LogId(n))
    ensures AscendingBelow(t + [e], n + 1) && AscendingBelow(t, n + 1)
  {
    hide LogId, NumberOf;
    NumberOfId(e, n);
  }

  lemma NumberOfId(e: Entry, n: nat)
    requires e.content.logId == Some(LogId(n))
    ensures NumberOf(e) == n
  {
    LogIdParses(n);
  }

  lemma AscendingReloaded(t: seq<Entry>, bound: nat)
    requires AscendingBelow(t, bound)
    ensures AscendingBelow(t, NextNumber(t))
  {
    if t != [] {
      NextNumberOf(t, NumberOf(t[|t| - 1]));
      hide NextNumber, LogId, NumberOf;
    }
  }

  /** Over every mix of records, losses and restarts, the log ids in memory and in the file are
      those of strictly ascending numbers, all below the next one: none is ever used twice. */
  lemma {:induction false} NumbersAscend(ops: seq<Op>, mask: string -> string, key: string)
    ensures var log := Run(ops, mask, key);
            AscendingBelow(log.events, log.counter) && AscendingBelow(Parsed(log.disk), log.counter)
  {
    hide AscendingBelow, Parsed, NextNumber, LogId, Recorded, NoCorrupt;
    if ops == [] {
      NothingAscends();
    } else {
      var init, op := ops[..|ops| - 1], ops[|ops| - 1];
      var log := Run(init, mask, key);
      NumbersAscend(init, mask, key);
      match op
      case Write(q, written) =>
        var e := RecordedFile(log, q, written, mask, key);
        FileIsReadable(init, mask, key);
        AscendingExtended(log.events, e, log.counter);
        AscendingExtended(Parsed(log.disk), e, log.counter);
      case Restart =>
        AscendingReloaded(Parsed(log.disk), log.counter);
    }
  }

  lemma NothingAscends()
    ensures AscendingBelow([], 1) && Parsed([]) == []
  {
  }

  lemma FileIsReadable(ops: seq<Op>, mask: string -> string, key: string)
    ensures NoCorrupt(Run(ops, mask, key).disk)
  {
  }
}
