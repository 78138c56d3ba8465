/** Parallel workers: any interleaving of their steps gives one result, and the audit trail of a
    whole run is accounted for event by event. */
module FanOut {
  import opened Mcp
  import opened Supervisor

  // ------------------------------------------------------------ the parallel machine

  /** A worker: the events its call writes one after the other, and then the output it puts
      under its own key. */
  datatype Worker = Worker(key: Tool, events: seq<AuditEvent>, output: Output)

  /** The shared state, and how many steps each worker has taken. */
  datatype Fan = Fan(pc: seq<nat>, results: map<Tool, Output>, trail: seq<AuditEvent>)

  function Workers(w: World, ts: seq<Tool>, args: map<Tool, Args>): seq<Worker>
    requires forall t :: t in ts ==> IsIntent(t) && t in args
  {
    if ts == [] then []
    else
      var t := ts[|ts| - 1];
      var (output, events) := Work(w, t, args[t]);
      Workers(w, ts[..|ts| - 1], args) + [Worker(t, events, output)]
  }

  function Start(n: nat): Fan {
    Fan(seq(n, i => 0), map[], [])
  }

  /** Worker `i` takes its next step, if it has one. */
  function Advance(ws: seq<Worker>, s: Fan, i: nat): Fan {
    if i >= |ws| || i >= |s.pc| || s.pc[i] > |ws[i].events| then s
    else if s.pc[i] < |ws[i].events| then
      s.(pc := s.pc[i := s.pc[i] + 1], trail := s.trail + [ws[i].events[s.pc[i]]])
    else
      s.(pc := s.pc[i := s.pc[i] + 1], results := s.results[ws[i].key := ws[i].output])
  }

  /** The schedule names the worker that moves next; any sequence of numbers is one. */
  function Interleave(ws: seq<Worker>, schedule: seq<nat>): Fan {
    if schedule == [] then Start(|ws|)
    else Advance(ws, Interleave(ws, schedule[..|schedule| - 1]), schedule[|schedule| - 1])
  }

  /** Every worker has finished. */
  predicate Complete(ws: seq<Worker>, s: Fan) {
    |s.pc| == |ws| && forall i :: 0 <= i < |ws| ==> s.pc[i] > |ws[i].events|
  }

  function Turns(schedule: seq<nat>, i: nat): nat {
    if schedule == [] then 0
    else Turns(schedule[..|schedule| - 1], i) + if schedule[|schedule| - 1] == i then 1 else 0
  }

  predicate OwnKeys(ws: seq<Worker>) {
    forall i, j :: 0 <= i < j < |ws| ==> ws[i].key != ws[j].key
  }

  /** Exactly the finished workers have put their output under their key. */
  predicate ResultsAgree(ws: seq<Worker>, s: Fan) {
    && |s.pc| == |ws|
    && (forall i :: 0 <= i < |ws| ==> (ws[i].key in s.results <==> s.pc[i] > |ws[i].events|))
    && (forall i :: 0 <= i < |ws| && ws[i].key in s.results ==> s.results[ws[i].key] == ws[i].output)
    && (forall t :: t in s.results ==> exists i :: 0 <= i < |ws| && ws[i].key == t)
  }

  lemma AdvanceKeepsResults(ws: seq<Worker>, s: Fan, i: nat)
    requires OwnKeys(ws) && ResultsAgree(ws, s)
    ensures ResultsAgree(ws, Advance(ws, s, i))
  {
  }

  lemma {:induction false} InterleaveResults(ws: seq<Worker>, schedule: seq<nat>)
    requires OwnKeys(ws)
    ensures ResultsAgree(ws, Interleave(ws, schedule))
  {
    hide Advance;
    if schedule != [] {
      InterleaveResults(ws, schedule[..|schedule| - 1]);
      AdvanceKeepsResults(ws, Interleave(ws, schedule[..|schedule| - 1]), schedule[|schedule| - 1]);
    }
  }

  /** The first `n` of the events, all of them when there are fewer. */
  function Upto(events: seq<AuditEvent>, n: nat): seq<AuditEvent> {
    if n <= |events| then events[..n] else events
  }

  /** What the workers wrote so far, worker by worker. */
  function Written(ws: seq<Worker>, pc: seq<nat>): seq<AuditEvent>
    requires |pc| == |ws|
  {
    if ws == [] then []
    else
      var n := |ws| - 1;
      Written(ws[..n], pc[..n]) + Upto(ws[n].events, pc[n])
  }

  lemma {:induction false} WrittenStep(ws: seq<Worker>, pc: seq<nat>, i: nat)
    requires |pc| == |ws| && i < |ws| && pc[i] < |ws[i].events|
    ensures multiset(Written(ws, pc[i := pc[i] + 1])) == multiset(Written(ws, pc)) + multiset{ws[i].events[pc[i]]}
  {
    var n := |ws| - 1;
    var pc' := pc[i := pc[i] + 1];
    if i == n {
      assert pc'[..n] == pc[..n];
      assert Upto(ws[n].events, pc'[n]) == Upto(ws[n].events, pc[n]) + [ws[i].events[pc[i]]];
    } else {
      WrittenStep(ws[..n], pc[..n], i);
      assert pc'[..n] == pc[..n][i := pc[i] + 1];
    }
  }

  lemma {:induction false} WrittenFinish(ws: seq<Worker>, pc: seq<nat>, i: nat)
    requires |pc| == |ws| && i < |ws| && pc[i] == |ws[i].events|
    ensures Written(ws, pc[i := pc[i] + 1]) == Written(ws, pc)
  {
    var n := |ws| - 1;
    var pc' := pc[i := pc[i] + 1];
    if i == n {
      assert pc'[..n] == pc[..n];
    } else {
      WrittenFinish(ws[..n], pc[..n], i);
      assert pc'[..n] == pc[..n][i := pc[i] + 1];
    }
  }

  lemma {:induction false} WrittenAtStart(ws: seq<Worker>)
    ensures Written(ws, Start(|ws|).pc) == []
  {
    if ws != [] {
      var n := |ws| - 1;
      WrittenAtStart(ws[..n]);
      assert Start(|ws|).pc[..n] == Start(n).pc;
    }
  }

  lemma StartTrail(ws: seq<Worker>)
    ensures TrailAgrees(ws, Start(|ws|))
  {
    WrittenAtStart(ws);
  }

  predicate TrailAgrees(ws: seq<Worker>, s: Fan) {
    |s.pc| == |ws| && multiset(s.trail) == multiset(Written(ws, s.pc))
  }

  lemma AdvanceKeepsTrail(ws: seq<Worker>, s: Fan, i: nat)
    requires TrailAgrees(ws, s)
    ensures TrailAgrees(ws, Advance(ws, s, i))
  {
    hide Written;
    if i < |ws| && s.pc[i] < |ws[i].events| {
      WrittenStep(ws, s.pc, i);
    } else if i < |ws| && s.pc[i] == |ws[i].events| {
      WrittenFinish(ws, s.pc, i);
    }
  }

  lemma {:induction false} InterleaveTrail(ws: seq<Worker>, schedule: seq<nat>)
    ensures TrailAgrees(ws, Interleave(ws, schedule))
  {
    hide Advance, TrailAgrees;
    if schedule == [] {
      StartTrail(ws);
    } else {
      InterleaveTrail(ws, schedule[..|schedule| - 1]);
      AdvanceKeepsTrail(ws, Interleave(ws, schedule[..|schedule| - 1]), schedule[|schedule| - 1]);
    }
  }

  /** A schedule is complete exactly when it gives every worker as many turns as it has steps. */
  lemma {:induction false} ProgressIsTurns(ws: seq<Worker>, schedule: seq<nat>, i: nat)
    requires i < |ws|
    ensures var s := Interleave(ws, schedule);
            |s.pc| == |ws|
            && s.pc[i] == (if Turns(schedule, i) <= |ws[i].events| then Turns(schedule, i) else |ws[i].events| + 1)
  {
    if schedule != [] {
      ProgressIsTurns(ws, schedule[..|schedule| - 1], i);
    }
  }

  lemma CompleteIffEnoughTurns(ws: seq<Worker>, schedule: seq<nat>)
    ensures Complete(ws, Interleave(ws, schedule)) <==>
            forall i :: 0 <= i < |ws| ==> Turns(schedule, i) > |ws[i].events|
  {
    hide Interleave, Turns;
    forall i | 0 <= i < |ws|
      ensures |Interleave(ws, schedule).pc| == |ws|
      ensures Interleave(ws, schedule).pc[i] > |ws[i].events| <==> Turns(schedule, i) > |ws[i].events|
    {
      ProgressIsTurns(ws, schedule, i);
    }
    InterleaveTrail(ws, schedule);
  }

  // ------------------------------------------------------------ any schedule, one result

  lemma {:induction false} WorkersMatch(w: World, ts: seq<Tool>, args: map<Tool, Args>)
    requires forall t :: t in ts ==> IsIntent(t) && t in args
    ensures |Workers(w, ts, args)| == |ts|
    ensures forall i :: 0 <= i < |ts| ==>
              var k := Workers(w, ts, args)[i];
              k.key == ts[i] && (k.output, k.events) == Work(w, ts[i], args[ts[i]])
  {
    hide Work;
    if ts != [] {
      WorkersMatch(w, ts[..|ts| - 1], args);
    }
  }

  lemma {:induction false} SequentialResults(w: World, ts: seq<Tool>, args: map<Tool, Args>)
    requires forall t :: t in ts ==> IsIntent(t) && t in args
    ensures forall t :: t in WorkAll(w, ts, args).0 <==> t in ts
    ensures forall t :: t in ts ==> WorkAll(w, ts, args).0[t] == Work(w, t, args[t]).0
  {
    hide Work;
    if ts != [] {
      var init, last := ts[..|ts| - 1], ts[|ts| - 1];
      assert ts == init + [last];
      SequentialResults(w, init, args);
    }
  }

  lemma {:induction false} CompleteTrail(w: World, ts: seq<Tool>, args: map<Tool, Args>, pc: seq<nat>)
    requires forall t :: t in ts ==> IsIntent(t) && t in args
    requires |pc| == |Workers(w, ts, args)| && forall i :: 0 <= i < |pc| ==> pc[i] > |Workers(w, ts, args)[i].events|
    ensures Written(Workers(w, ts, args), pc) == WorkAll(w, ts, args).1
  {
    hide Work;
    if ts != [] {
      var n := |ts| - 1;
      var ws := Workers(w, ts, args);
      WorkersMatch(w, ts[..n], args);
      assert ws[..n] == Workers(w, ts[..n], args);
      CompleteTrail(w, ts[..n], args, pc[..n]);
      assert Upto(ws[n].events, pc[n]) == ws[n].events;
    }
  }

  /** Whatever the schedule, a completed fan-out has the results of running the workers one after
      the other, and its trail is a rearrangement of theirs. */
  lemma ScheduleDoesNotMatter(w: World, ts: seq<Tool>, args: map<Tool, Args>, schedule: seq<nat>)
    requires Distinct(ts) && forall t :: t in ts ==> IsIntent(t) && t in args
    requires Complete(Workers(w, ts, args), Interleave(Workers(w, ts, args), schedule))
    ensures var s := Interleave(Workers(w, ts, args), schedule);
            s.results == WorkAll(w, ts, args).0 && multiset(s.trail) == multiset(WorkAll(w, ts, args).1)
  {
    hide Interleave, Workers, WorkAll, Work, Written;
    var ws := Workers(w, ts, args);
    var s := Interleave(ws, schedule);
    WorkersMatch(w, ts, args);
    InterleaveResults(ws, schedule);
    InterleaveTrail(ws, schedule);
    CompleteTrail(w, ts, args, s.pc);
    SequentialResults(w, ts, args);
    assert forall t :: t in s.results ==> t in ts;
    forall t | t in ts
      ensures t in s.results && s.results[t] == Work(w, t, args[t]).0
    {
      var i :| 0 <= i < |ts| && ts[i] == t;
      assert ws[i].key == t;
    }
  }

  /** The answer does not depend on the schedule, and has one section for each allowed intent. */
  lemma {:induction false} AnswerDoesNotDependOnSchedule(w: World, r: Request, flags: seq<string>, schedule: seq<nat>)
    requires var ws := Workers(w, AllowedOf(r), Plan(r)); Complete(ws, Interleave(ws, schedule))
    ensures var s := Interleave(Workers(w, AllowedOf(r), Plan(r)), schedule);
            && Aggregated(r, flags, s.results) == Aggregated(r, flags, WorkAll(w, AllowedOf(r), Plan(r)).0)
            && Aggregated(r, flags, s.results).sections.Keys == (set t | t in AllowedOf(r))
            && forall t :: t in AllowedOf(r) ==>
                 Aggregated(r, flags, s.results).sections[t] == Work(w, t, Plan(r)[t]).0
  {
    hide Interleave, Workers, WorkAll, Work, IntentsOf, SummariesOf, Text.Join, JoinNames, NotesOf, Merged, Filter;
    RoutingIsSound(r);
    FilterSplits(IntentsOf(r), r, true);
    ScheduleDoesNotMatter(w, AllowedOf(r), Plan(r), schedule);
    SequentialResults(w, AllowedOf(r), Plan(r));
  }

  /** The argument table of a request; every allowed intent has its entry. */
  function Plan(r: Request): (args: map<Tool, Args>)
    ensures forall t :: t in AllowedOf(r) ==> IsIntent(t) && t in args
  {
    RoutingIsSound(r);
    Routed(r).args
  }

  // ------------------------------------------------------------ one worker after the other

  function EventsOf(ws: seq<Worker>): seq<AuditEvent> {
    if ws == [] then [] else EventsOf(ws[..|ws| - 1]) + ws[|ws| - 1].events
  }

  function Repeated(i: nat, turns: nat): seq<nat> {
    seq(turns, _ => i)
  }

  /** The schedule that finishes each of the first `m` workers before it starts the next. */
  function InTurn(ws: seq<Worker>, m: nat): seq<nat>
    requires m <= |ws|
  {
    if m == 0 then [] else InTurn(ws, m - 1) + Repeated(m - 1, |ws[m - 1].events| + 1)
  }

  lemma InterleaveNext(ws: seq<Worker>, schedule: seq<nat>, i: nat)
    ensures Interleave(ws, schedule + [i]) == Advance(ws, Interleave(ws, schedule), i)
  {
    assert (schedule + [i])[..|schedule|] == schedule;
  }

  lemma AdvanceOne(ws: seq<Worker>, s: Fan, i: nat, done: seq<AuditEvent>)
    requires |s.pc| == |ws| && i < |ws| && s.pc[i] <= |ws[i].events|
    requires s.trail == done + Upto(ws[i].events, s.pc[i])
    ensures Advance(ws, s, i).pc == s.pc[i := s.pc[i] + 1]
    ensures Advance(ws, s, i).trail == done + Upto(ws[i].events, s.pc[i] + 1)
  {
    if s.pc[i] < |ws[i].events| {
      assert Upto(ws[i].events, s.pc[i] + 1) == Upto(ws[i].events, s.pc[i]) + [ws[i].events[s.pc[i]]];
    }
  }

  lemma {:induction false} StepsInARow(ws: seq<Worker>, schedule: seq<nat>, i: nat, turns: nat)
    requires i < |ws| && turns <= |ws[i].events| + 1
    requires var s := Interleave(ws, schedule); |s.pc| == |ws| && s.pc[i] == 0
    ensures var s, after := Interleave(ws, schedule), Interleave(ws, schedule + Repeated(i, turns));
            after.pc == s.pc[i := turns] && after.trail == s.trail + Upto(ws[i].events, turns)
  {
    hide Interleave, Advance, Upto;
    var s := Interleave(ws, schedule);
    if turns == 0 {
      assert schedule + Repeated(i, 0) == schedule;
      NoneYet(ws[i].events, s.trail);
    } else {
      var before := schedule + Repeated(i, turns - 1);
      assert schedule + Repeated(i, turns) == before + [i];
      StepsInARow(ws, schedule, i, turns - 1);
      InterleaveNext(ws, before, i);
      AdvanceOne(ws, Interleave(ws, before), i, s.trail);
    }
  }

  lemma NoneYet(events: seq<AuditEvent>, trail: seq<AuditEvent>)
    ensures trail + Upto(events, 0) == trail
  {
  }

  lemma {:induction false} InTurnFinishes(ws: seq<Worker>, m: nat)
    requires m <= |ws|
    ensures var s := Interleave(ws, InTurn(ws, m));
            && |s.pc| == |ws| && s.trail == EventsOf(ws[..m])
            && (forall i :: 0 <= i < m ==> s.pc[i] == |ws[i].events| + 1)
            && (forall i :: m <= i < |ws| ==> s.pc[i] == 0)
  {
    hide Advance;
    if m > 0 {
      InTurnFinishes(ws, m - 1);
      StepsInARow(ws, InTurn(ws, m - 1), m - 1, |ws[m - 1].events| + 1);
      assert ws[..m][..m - 1] == ws[..m - 1];
    }
  }

  lemma {:induction false} EventsInTurn(w: World, ts: seq<Tool>, args: map<Tool, Args>)
    requires forall t :: t in ts ==> IsIntent(t) && t in args
    ensures EventsOf(Workers(w, ts, args)) == WorkAll(w, ts, args).1
  {
    hide Work;
    if ts != [] {
      EventsInTurn(w, ts[..|ts| - 1], args);
    }
  }

  /** Running the workers one after the other is one of the complete interleavings, and its trail
      is the sequential one event by event. */
  lemma SequentialIsASchedule(w: World, ts: seq<Tool>, args: map<Tool, Args>)
    requires forall t :: t in ts ==> IsIntent(t) && t in args
    ensures var ws := Workers(w, ts, args);
            var s := Interleave(ws, InTurn(ws, |ws|));
            Complete(ws, s) && s.trail == WorkAll(w, ts, args).1
  {
    hide Interleave, Workers, WorkAll;
    var ws := Workers(w, ts, args);
    InTurnFinishes(ws, |ws|);
    assert ws[..|ws|] == ws;
    EventsInTurn(w, ts, args);
  }
}
