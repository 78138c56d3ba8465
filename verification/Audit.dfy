/** The tamper-evident audit trail: an append-only chain of hashed and signed entries with
    JSONL persistence. Digests are symbolic (a digest IS what was hashed), signatures are
    the key together with the digest that was signed. */
module Audit {
  import opened Prelude
  import opened Text

  datatype Value = Null | Text(text: string) | Number(n: int) | Flag(flag: bool) | Object(fields: map<string, Value>)

  /** The hashed part of an entry: everything but prev_hash, entry_hash and signature. */
  datatype Content = Content(logId: Option<string>, fields: map<string, Value>)

  /** `Foreign` stands for a string in a hash field that is not a digest of this chain. */
  datatype Digest = Genesis | Link(prev: Digest, content: Content) | Foreign(text: string)

  datatype Signature = Hmac(key: string, over: Digest) | Forged(text: string)

  datatype Entry = Entry(
    content: Content,
    prevHash: Option<Digest>,
    entryHash: Option<Digest>,
    signature: Option<Signature>)

  /** One line of the JSONL file. */
  datatype Line = Blank | Stored(entry: Entry) | Corrupt

  datatype Verdict = Verdict(valid: bool, count: nat, firstInvalid: Option<string>, signed: nat)

  // ---------------------------------------------------------------- the chain

  /** The digest an untampered chain with these contents ends in. */
  function ChainHash(t: seq<Entry>): Digest {
    if t == [] then Genesis else Link(ChainHash(t[..|t| - 1]), t[|t| - 1].content)
  }

  /** Entry `i` carries the hashes its position demands and, if signed, the right signature. */
  predicate Intact(t: seq<Entry>, i: nat, key: string)
    requires i < |t|
  {
    && t[i].prevHash == Some(ChainHash(t[..i]))
    && t[i].entryHash == Some(ChainHash(t[..i + 1]))
    && (t[i].signature.Some? ==> t[i].signature.value == Hmac(key, ChainHash(t[..i + 1])))
  }

  predicate Accepted(t: seq<Entry>, key: string) {
    forall i :: 0 <= i < |t| ==> Intact(t, i, key)
  }

  predicate FullySigned(t: seq<Entry>) {
    forall i :: 0 <= i < |t| ==> t[i].signature.Some?
  }

  /** The least broken position; the length of the trail when nothing is broken. */
  function FirstBroken(t: seq<Entry>, key: string, from: nat := 0): (k: nat)
    requires from <= |t|
    ensures from <= k <= |t|
    ensures forall i :: from <= i < k ==> Intact(t, i, key)
    ensures k < |t| ==> !Intact(t, k, key)
    decreases |t| - from
  {
    if from == |t| || !Intact(t, from, key) then from else FirstBroken(t, key, from + 1)
  }

  function SignedCount(t: seq<Entry>): nat {
    if t == [] then 0 else SignedCount(t[..|t| - 1]) + (if t[|t| - 1].signature.Some? then 1 else 0)
  }

  predicate SameHashedFields(a: seq<Entry>, b: seq<Entry>) {
    && |a| == |b|
    && forall i :: 0 <= i < |a| ==>
         a[i].content == b[i].content && a[i].prevHash == b[i].prevHash && a[i].entryHash == b[i].entryHash
  }

  lemma {:induction false} ChainHashInjective(a: seq<Entry>, b: seq<Entry>)
    requires ChainHash(a) == ChainHash(b)
    ensures |a| == |b|
    ensures forall i :: 0 <= i < |a| ==> a[i].content == b[i].content
  {
    if a != [] {
      ChainHashInjective(a[..|a| - 1], b[..|b| - 1]);
      forall i | 0 <= i < |a| ensures a[i].content == b[i].content {
        if i < |a| - 1 {
          assert a[..|a| - 1][i].content == b[..|b| - 1][i].content;
        }
      }
    }
  }

  lemma ChangedContentChangesHash(a: seq<Entry>, b: seq<Entry>, i: nat)
    requires i < |a| == |b| && a[i].content != b[i].content
    ensures ChainHash(a) != ChainHash(b)
  {
    if ChainHash(a) == ChainHash(b) {
      ChainHashInjective(a, b);
    }
  }

  lemma {:induction false} ChainHashOfContents(a: seq<Entry>, b: seq<Entry>)
    requires |a| == |b|
    requires forall i :: 0 <= i < |a| ==> a[i].content == b[i].content
    ensures ChainHash(a) == ChainHash(b)
  {
    if a != [] {
      ChainHashOfContents(a[..|a| - 1], b[..|b| - 1]);
    }
  }

  lemma PrefixAccepted(t: seq<Entry>, n: nat, key: string)
    requires Accepted(t, key) && n <= |t|
    ensures Accepted(t[..n], key)
  {
    forall i | 0 <= i < n ensures Intact(t[..n], i, key) {
      assert Intact(t, i, key) && t[..n][..i] == t[..i] && t[..n][..i + 1] == t[..i + 1];
    }
  }

  /** An entry hash pins the whole history before it: two accepted trails that agree on one
      entry hash, wherever it stands, are the same trail up to that entry. */
  lemma HashPinsHistory(a: seq<Entry>, i: nat, b: seq<Entry>, j: nat, key: string)
    requires Accepted(a, key) && Accepted(b, key)
    requires i < |a| && j < |b| && a[i].entryHash == b[j].entryHash
    ensures i == j && SameHashedFields(a[..i + 1], b[..j + 1])
  {
    assert Intact(a, i, key) && Intact(b, j, key);
    ChainHashInjective(a[..i + 1], b[..j + 1]);
    forall k | 0 <= k <= i
      ensures a[k].content == b[k].content && a[k].prevHash == b[k].prevHash && a[k].entryHash == b[k].entryHash
    {
      assert Intact(a, k, key) && Intact(b, k, key);
      forall l | 0 <= l <= i ensures a[l].content == b[l].content {
        assert a[..i + 1][l].content == b[..i + 1][l].content;
      }
      ChainHashOfContents(a[..k], b[..k]);
      ChainHashOfContents(a[..k + 1], b[..k + 1]);
    }
  }

  /** An accepted trail is determined in all hashed fields by its last entry hash. */
  lemma LastHashDeterminesTrail(a: seq<Entry>, b: seq<Entry>, key: string)
    requires Accepted(a, key) && Accepted(b, key)
    requires a != [] && b != [] && a[|a| - 1].entryHash == b[|b| - 1].entryHash
    ensures SameHashedFields(a, b)
  {
    HashPinsHistory(a, |a| - 1, b, |b| - 1, key);
    assert a[..|a| - 1 + 1] == a && b[..|b| - 1 + 1] == b;
  }

  /** Without a new signature nothing but a prefix of the real trail is accepted: one issued
      signature on the last entry already pins every hashed field, and if every entry is
      signed the trail is literally a prefix. */
  lemma IssuedSignaturesOnlyFitThePrefix(genuine: seq<Entry>, t: seq<Entry>, j: nat, key: string)
    requires Accepted(genuine, key) && Accepted(t, key)
    requires t != [] && j < |genuine|
    requires genuine[j].signature.Some? && t[|t| - 1].signature == genuine[j].signature
    ensures |t| == j + 1 && SameHashedFields(t, genuine[..j + 1])
    ensures FullySigned(t) && FullySigned(genuine) ==> t == genuine[..j + 1]
  {
    var n := |t| - 1;
    assert Intact(t, n, key) && Intact(genuine, j, key);
    HashPinsHistory(t, n, genuine, j, key);
    assert t[..n + 1] == t;
    if FullySigned(t) && FullySigned(genuine) {
      forall k | 0 <= k < |t| ensures t[k] == genuine[k] {
        assert Intact(t, k, key) && Intact(genuine, k, key);
        assert genuine[..j + 1][k] == genuine[k];
      }
    }
  }

  // ------------------------------------------------- deleting and editing entries

  /** Strictly increasing positions of `genuine` that were kept. */
  predicate Selection(idx: seq<nat>, n: nat) {
    && (forall i :: 0 <= i < |idx| ==> idx[i] < n)
    && (forall i, j :: 0 <= i < j < |idx| ==> idx[i] < idx[j])
  }

  function Select(genuine: seq<Entry>, idx: seq<nat>): seq<Entry>
    requires Selection(idx, |genuine|)
  {
    seq(|idx|, i requires 0 <= i < |idx| => genuine[idx[i]])
  }

  lemma {:induction false} SelectionAtLeast(idx: seq<nat>, n: nat, i: nat)
    requires Selection(idx, n) && i < |idx|
    ensures i <= idx[i]
  {
    if i > 0 {
      SelectionAtLeast(idx, n, i - 1);
    }
  }

  lemma {:induction false} SelectionFixed(idx: seq<nat>, n: nat, i: nat, k: nat)
    requires Selection(idx, n) && k <= i < |idx| && idx[i] == i
    ensures idx[k] == k
    decreases i - k
  {
    SelectionAtLeast(idx, n, k);
    if k < i {
      SelectionFixed(idx, n, i, k + 1);
    }
  }

  /** Deleting entries from a signed trail breaks exactly the entries behind the first gap:
      a surviving entry is intact if and only if nothing before it was deleted. */
  lemma DeletionBreaksEverythingAfter(genuine: seq<Entry>, idx: seq<nat>, i: nat, key: string)
    requires Accepted(genuine, key) && Selection(idx, |genuine|) && i < |idx|
    ensures Intact(Select(genuine, idx), i, key) <==> idx[i] == i
  {
    var kept := Select(genuine, idx);
    assert Intact(genuine, idx[i], key) && kept[i] == genuine[idx[i]];
    if Intact(kept, i, key) {
      ChainHashInjective(kept[..i + 1], genuine[..idx[i] + 1]);
    }
    if idx[i] == i {
      forall k | 0 <= k <= i ensures kept[k] == genuine[k] {
        SelectionFixed(idx, |genuine|, i, k);
      }
      assert kept[..i] == genuine[..i] && kept[..i + 1] == genuine[..i + 1];
    }
  }

  lemma FirstBrokenOfSelection(genuine: seq<Entry>, idx: seq<nat>, gap: nat, key: string)
    requires Accepted(genuine, key) && Selection(idx, |genuine|)
    requires gap < |idx| && idx[gap] != gap
    requires forall i :: 0 <= i < gap ==> idx[i] == i
    ensures FirstBroken(Select(genuine, idx), key) == gap
  {
    var kept := Select(genuine, idx);
    DeletionBreaksEverythingAfter(genuine, idx, gap, key);
    forall i | 0 <= i < gap ensures Intact(kept, i, key) {
      DeletionBreaksEverythingAfter(genuine, idx, i, key);
    }
  }

  /** Replacing an interior entry is accepted only if no hashed field changed. */
  lemma InteriorEditRejected(genuine: seq<Entry>, i: nat, e: Entry, key: string)
    requires Accepted(genuine, key) && i + 1 < |genuine|
    ensures Accepted(genuine[i := e], key) <==>
            && e.content == genuine[i].content
            && e.prevHash == genuine[i].prevHash
            && e.entryHash == genuine[i].entryHash
            && (e.signature.None? || e.signature.value == Hmac(key, ChainHash(genuine[..i + 1])))
  {
    var t := genuine[i := e];
    assert t[..i] == genuine[..i];
    assert Intact(genuine, i, key);
    if Accepted(t, key) {
      assert Intact(t, i + 1, key) && Intact(genuine, i + 1, key) && Intact(t, i, key);
      ChainHashInjective(t[..i + 1], genuine[..i + 1]);
      assert t[..i + 1][i] == e && genuine[..i + 1][i] == genuine[i];
    }
    if e.content == genuine[i].content {
      forall k | 0 <= k <= |t| ensures ChainHash(t[..k]) == ChainHash(genuine[..k]) {
        ChainHashOfContents(t[..k], genuine[..k]);
      }
      forall k | 0 <= k < |t| && k != i ensures Intact(t, k, key) {
        assert Intact(genuine, k, key);
      }
    }
  }

  /** A changed hashed field breaks every later entry, not only the next one. */
  lemma EditBreaksEverythingAfter(genuine: seq<Entry>, i: nat, e: Entry, k: nat, key: string)
    requires Accepted(genuine, key) && i < k < |genuine|
    requires e.content != genuine[i].content
    ensures !Intact(genuine[i := e], k, key)
  {
    var t := genuine[i := e];
    assert Intact(genuine, k, key);
    assert t[..k][i] == e && genuine[..k][i] == genuine[i];
    ChangedContentChangesHash(t[..k], genuine[..k], i);
  }

  // ------------------------------------------------------------------ missing signatures

  /** An unsigned trail with any contents, made without the key. */
  function Unsigned(contents: seq<Content>): seq<Entry> {
    if contents == [] then []
    else
      var before := Unsigned(contents[..|contents| - 1]);
      before + [UnsignedEntry(ChainHash(before), contents[|contents| - 1])]
  }

  function UnsignedEntry(prev: Digest, content: Content): Entry {
    Entry(content, Some(prev), Some(Link(prev, content)), None)
  }

  /** The chain is not keyed and a missing signature is accepted, so whatever the contents, a
      trail rewritten from the start without the key verifies. */
  lemma {:induction false} UnsignedTrailAccepted(contents: seq<Content>, key: string)
    ensures Accepted(Unsigned(contents), key)
    ensures |Unsigned(contents)| == |contents|
    ensures forall i :: 0 <= i < |contents| ==> Unsigned(contents)[i].content == contents[i]
  {
    if contents != [] {
      var before, t := Unsigned(contents[..|contents| - 1]), Unsigned(contents);
      UnsignedTrailAccepted(contents[..|contents| - 1], key);
      assert t[..|before|] == before && t[..|t|] == t;
      forall i | 0 <= i < |before| ensures Intact(t, i, key) {
        assert Intact(before, i, key) && t[..i] == before[..i] && t[..i + 1] == before[..i + 1];
      }
    }
  }

  /** The signed count the verifier reports tells whether a signature is missing. */
  lemma {:induction false} AllSignedIffCounted(t: seq<Entry>)
    ensures SignedCount(t) <= |t|
    ensures SignedCount(t) == |t| <==> FullySigned(t)
  {
    if t != [] {
      AllSignedIffCounted(t[..|t| - 1]);
      assert FullySigned(t) <==> FullySigned(t[..|t| - 1]) && t[|t| - 1].signature.Some?;
    }
  }

  /** Both hashes fit the position and the signature is the one the key makes. */
  predicate IntactAndSigned(t: seq<Entry>, i: nat, key: string)
    requires i < |t|
  {
    && t[i].prevHash == Some(ChainHash(t[..i]))
    && t[i].entryHash == Some(ChainHash(t[..i + 1]))
    && t[i].signature == Some(Hmac(key, ChainHash(t[..i + 1])))
  }

  /** What a caller has to look at: a trail is reported valid with as many signatures as entries
      exactly if it verifies and every entry carries the signature of the key. */
  lemma ValidAndCountedIffSigned(t: seq<Entry>, key: string)
    ensures Accepted(t, key) && SignedCount(t[..FirstBroken(t, key)]) == |t| <==>
            forall i :: 0 <= i < |t| ==> IntactAndSigned(t, i, key)
  {
    hide Intact, IntactAndSigned, SignedCount, FullySigned;
    forall i | 0 <= i < |t| ensures IntactAndSigned(t, i, key) <==> Intact(t, i, key) && t[i].signature.Some? {
      IntactAndSignedIff(t, i, key);
    }
    if Accepted(t, key) {
      assert t[..FirstBroken(t, key)] == t;
    }
    AllSignedIffCounted(t);
    SignedEverywhere(t);
  }

  lemma IntactAndSignedIff(t: seq<Entry>, i: nat, key: string)
    requires i < |t|
    ensures IntactAndSigned(t, i, key) <==> Intact(t, i, key) && t[i].signature.Some?
  {
    hide ChainHash;
  }

  lemma SignedEverywhere(t: seq<Entry>)
    ensures FullySigned(t) <==> forall i :: 0 <= i < |t| ==> t[i].signature.Some?
  {
  }

  // ------------------------------------------------------------------ recording

  datatype Request = Request(
    eventType: string,
    actorId: string,
    action: string,
    result: string,
    resourceId: Option<string>,
    requestId: Option<string>,
    traceId: Option<string>,
    timestamp: string,
    metadata: map<string, Value>)

  function Optional(s: Option<string>): Value {
    if s.Some? then Text(s.value) else Null
  }

  /** String metadata is masked before it reaches the trail; other values pass unchanged. */
  function MaskValue(mask: string -> string, v: Value): Value {
    if v.Text? then Text(mask(v.text)) else v
  }

  function Fields(q: Request, mask: string -> string): map<string, Value> {
    map[
      "event_type" := Text(q.eventType),
      "timestamp" := Text(q.timestamp),
      "actor_id" := Text(q.actorId),
      "resource_id" := Optional(q.resourceId),
      "request_id" := Optional(q.requestId),
      "trace_id" := Optional(q.traceId),
      "action" := Text(q.action),
      "result" := Text(q.result),
      "metadata" := Object(MaskedMetadata(q, mask)),
      "immutable" := Flag(true)
    ]
  }

  function MaskedMetadata(q: Request, mask: string -> string): map<string, Value> {
    map k | k in q.metadata :: MaskValue(mask, q.metadata[k])
  }

  /** Under its key in the dictionary. */
  predicate Holds(f: map<string, Value>, k: string, v: Value) {
    k in f && f[k] == v
  }

  lemma IdentityFields(q: Request, mask: string -> string)
    ensures var f := Fields(q, mask);
            && Holds(f, "event_type", Text(q.eventType)) && Holds(f, "timestamp", Text(q.timestamp))
            && Holds(f, "actor_id", Text(q.actorId)) && Holds(f, "action", Text(q.action))
  {
    hide MaskedMetadata, Optional;
  }

  lemma ContextFields(q: Request, mask: string -> string)
    ensures var f := Fields(q, mask);
            && Holds(f, "resource_id", Optional(q.resourceId)) && Holds(f, "request_id", Optional(q.requestId))
            && Holds(f, "trace_id", Optional(q.traceId)) && Holds(f, "result", Text(q.result))
            && Holds(f, "metadata", Object(MaskedMetadata(q, mask)))
  {
    hide MaskedMetadata, Optional;
  }

  /** Nothing of a request is dropped or merged: the hashed fields determine it up to masking. */
  lemma FieldsDetermineRequest(a: Request, b: Request, mask: string -> string)
    requires Fields(a, mask) == Fields(b, mask)
    ensures a.(metadata := map[]) == b.(metadata := map[])
    ensures MaskedMetadata(a, mask) == MaskedMetadata(b, mask)
  {
    hide Fields, MaskedMetadata;
    IdentityFields(a, mask);
    IdentityFields(b, mask);
    ContextFields(a, mask);
    ContextFields(b, mask);
  }

  /** `f"AUDIT-{n:06d}"`. */
  function LogId(n: nat): string {
    "AUDIT" + "-" + ZeroPad(Decimal(n), 6)
  }

  function NewEntry(prev: Digest, n: nat, q: Request, mask: string -> string, key: string): Entry {
    var content := Content(Some(LogId(n)), Fields(q, mask));
    Entry(content, Some(prev), Some(Link(prev, content)), Some(Hmac(key, Link(prev, content))))
  }

  /** The last entry has an entry_hash to chain to; Python raises KeyError otherwise. */
  predicate Extensible(t: seq<Entry>) {
    t == [] || t[|t| - 1].entryHash.Some?
  }

  function LastHash(t: seq<Entry>): Digest
    requires Extensible(t)
  {
    if t == [] then Genesis else t[|t| - 1].entryHash.value
  }

  // ---------------------------------------------------------------- persistence

  /** The entries a reload keeps: blank lines are skipped, the first corrupt line ends it. */
  function Parsed(disk: seq<Line>): seq<Entry> {
    if disk == [] || disk[0].Corrupt? then []
    else (if disk[0].Stored? then [disk[0].entry] else []) + Parsed(disk[1..])
  }

  /** The entries read before position `i` and, unless reading has ended, those still to come. */
  function ReadSoFar(events: seq<Entry>, disk: seq<Line>, i: nat, reading: bool): seq<Entry>
    requires i <= |disk|
  {
    events + if reading then Parsed(disk[i..]) else []
  }

  lemma ReadLine(events: seq<Entry>, disk: seq<Line>, i: nat)
    requires i < |disk|
    ensures var line := disk[i];
            ReadSoFar(events, disk, i, true) ==
              if line.Corrupt? then ReadSoFar(events, disk, i, false)
              else ReadSoFar(if line.Stored? then events + [line.entry] else events, disk, i + 1, true)
  {
    assert disk[i..][0] == disk[i] && disk[i..][1..] == disk[i + 1..];
  }

  lemma ReadAll(events: seq<Entry>, disk: seq<Line>, i: nat, reading: bool)
    requires i <= |disk| && (reading ==> i == |disk|)
    ensures ReadSoFar(events, disk, i, reading) == events
    ensures ReadSoFar([], disk, 0, true) == Parsed(disk)
  {
    assert disk[0..] == disk;
  }

  /** The number the next entry gets after a reload. */
  function NextNumber(t: seq<Entry>): nat {
    if t == [] then 1
    else
      var suffix := AfterLastDash(t[|t| - 1].content.logId.GetOr("AUDIT-000000"));
      if suffix != "" && AllDigits(suffix) then DecimalValue(suffix) + 1 else |t| + 1
  }

  /** The observable state of a log. */
  datatype Log = Log(events: seq<Entry>, counter: nat, disk: seq<Line>)

  function Recorded(log: Log, q: Request, mask: string -> string, key: string, written: bool): Log
    requires Extensible(log.events)
  {
    var e := NewEntry(LastHash(log.events), log.counter, q, mask, key);
    Log(log.events + [e], log.counter + 1, log.disk + if written then [Stored(e)] else [])
  }

  function Reloaded(disk: seq<Line>): Log {
    Log(Parsed(disk), NextNumber(Parsed(disk)), disk)
  }

  class AuditLog {
    const key: string
    const mask: string -> string
    const persistent: bool
    var events: seq<Entry>
    var counter: nat
    var disk: seq<Line>

    function View(): Log
      reads this
    {
      Log(events, counter, disk)
    }

    /** `file` is the content found at the path (empty when the file is missing). */
    constructor (key: string, mask: string -> string, persistent: bool, file: seq<Line>)
      ensures this.key == key && this.mask == mask && this.persistent == persistent
      ensures View() == if persistent then Reloaded(file) else Log([], 1, file)
    {
      this.key := key;
      this.mask := mask;
      this.persistent := persistent;
      events, counter, disk := [], 1, file;
      new;
      if persistent {
        Load();
      }
    }

    method Load()
      requires events == [] && counter == 1
      modifies this
      ensures View() == Reloaded(old(disk))
    {
      hide ReadSoFar, Parsed;
      var i, reading := 0, true;
      while i < |disk| && reading
        invariant 0 <= i <= |disk| && disk == old(disk) && counter == 1
        invariant ReadSoFar(events, disk, i, reading) == ReadSoFar([], disk, 0, true)
        decreases |disk| - i, reading
      {
        var line := disk[i];
        ReadLine(events, disk, i);
        if line.Corrupt? {
          reading := false;
        } else {
          if line.Stored? {
            events := events + [line.entry];
          }
          i := i + 1;
        }
      }
      ReadAll(events, disk, i, reading);
      if events != [] {
        counter := NextNumber(events);
      }
    }

    /** `canWrite` says whether the disk append would succeed; a failed one is swallowed. */
    method Record(q: Request, canWrite: bool) returns (e: Entry)
      requires Extensible(events)
      modifies this
      ensures View() == Recorded(old(View()), q, mask, key, persistent && canWrite)
      ensures e == events[|events| - 1]
      ensures Extensible(events)
    {
      var prev := if events == [] then Genesis else events[|events| - 1].entryHash.value;
      e := NewEntry(prev, counter, q, mask, key);
      counter := counter + 1;
      events := events + [e];
      if persistent && canWrite {
        disk := disk + [Stored(e)];
      }
    }

    /** Accepts exactly the accepted trails, and otherwise reports the least broken entry and
        how many signed entries precede it. */
    method VerifyChain() returns (r: Verdict)
      ensures r.count == |events|
      ensures r.valid <==> Accepted(events, key)
      ensures r.signed == SignedCount(events[..FirstBroken(events, key)])
      ensures r.firstInvalid ==
              if Accepted(events, key) then None else events[FirstBroken(events, key)].content.logId
    {
      var prev, signed, i := Genesis, 0, 0;
      ghost var broken := FirstBroken(events, key);
      while i < |events|
        invariant 0 <= i <= broken
        invariant prev == ChainHash(events[..i]) && signed == SignedCount(events[..i])
      {
        var event := events[i];
        assert events[..i + 1][..i] == events[..i] && events[..i + 1][i] == event;
        assert ChainHash(events[..i + 1]) == Link(prev, event.content);
        if event.prevHash != Some(prev) {
          assert !Intact(events, i, key);
          return Verdict(false, |events|, event.content.logId, signed);
        }
        if event.entryHash != Some(Link(prev, event.content)) {
          assert !Intact(events, i, key);
          return Verdict(false, |events|, event.content.logId, signed);
        }
        if event.signature.Some? {
          if event.signature.value != Hmac(key, event.entryHash.value) {
            assert !Intact(events, i, key);
            return Verdict(false, |events|, event.content.logId, signed);
          }
          signed := signed + 1;
        }
        prev := event.entryHash.value;
        i := i + 1;
      }
      return Verdict(true, |events|, None, signed);
    }
  }
}
