/**
 `InputHandlerService.loadCSVs()`: build the CSV input handlers, check every
 handler's file and header, and only then load every handler's rows into the
 temporary store. Any exception, from construction, a check or a load, stops
 the run and escapes wrapped in one `RuntimeException`.

 The handlers themselves are not modelled: each is reduced to what its two
 calls do in this run.
 */
module CsvLoading {
  import opened Wrappers

  /** An exception raised by code outside this model; only its text is kept. */
  datatype Fault = Fault(description: string)

  /** The per-file load summary a handler returns; its fields are opaque here. */
  datatype ReadResult = ReadResult(handledType: string, total: int, loaded: int, failed: int, failures: seq<string>)

  /** One handler: what `readCSV(true)` does and what `readInputIntoDB()` does. */
  datatype Handler = Handler(verify: Outcome<Fault>, load: Result<ReadResult, Fault>)

  /** The observable steps of a run, indexed by handler position. */
  datatype Event =
    | HeaderChecked(handler: nat)
    | LoadStarted(handler: nat)
    | FailuresLogged(handler: nat, count: nat)

  /** Normal completion with every handler's result, or the wrapped exception. */
  datatype LoadOutcome = Loaded(results: seq<ReadResult>) | Aborted(cause: Fault)

  predicate AllVerified(hs: seq<Handler>) {
    forall i :: 0 <= i < |hs| ==> hs[i].verify.Pass?
  }

  predicate AllLoaded(hs: seq<Handler>) {
    forall i :: 0 <= i < |hs| ==> hs[i].load.Success?
  }

  /** The position of the first handler whose check throws. */
  function FirstRejected(hs: seq<Handler>): (i: nat)
    requires !AllVerified(hs)
    ensures i < |hs| && hs[i].verify.Fail?
    ensures forall k :: 0 <= k < i ==> hs[k].verify.Pass?
  {
    if hs[0].verify.Fail? then 0 else FirstRejected(hs[1..]) + 1
  }

  /** The position of the first handler whose load throws. */
  function FirstLoadFailure(hs: seq<Handler>): (i: nat)
    requires !AllLoaded(hs)
    ensures i < |hs| && hs[i].load.Failure?
    ensures forall k :: 0 <= k < i ==> hs[k].load.Success?
  {
    if hs[0].load.Failure? then 0 else FirstLoadFailure(hs[1..]) + 1
  }

  /** The failures a handler's load result reports, when that load completed. */
  predicate ReportsFailures(h: Handler) {
    h.load.Success? && |h.load.value.failures| > 0
  }

  /** The handlers whose load started, in trace order. */
  function Loads(trace: seq<Event>): seq<nat> {
    if trace == [] then []
    else Loads(trace[..|trace| - 1]) + (if trace[|trace| - 1].LoadStarted? then [trace[|trace| - 1].handler] else [])
  }

  /** The logged failure lists, as (handler, count) pairs in trace order. */
  function Logs(trace: seq<Event>): seq<(nat, nat)> {
    if trace == [] then []
    else
      var e := trace[|trace| - 1];
      Logs(trace[..|trace| - 1]) + (if e.FailuresLogged? then [(e.handler, e.count)] else [])
  }

  /** The (handler, count) pairs of the first `j` handlers whose load result reports failures, in order. */
  function Reporting(hs: seq<Handler>, j: nat): seq<(nat, nat)>
    requires j <= |hs|
  {
    if j == 0 then []
    else Reporting(hs, j - 1) + (if ReportsFailures(hs[j - 1]) then [(j - 1, |hs[j - 1].load.value.failures|)] else [])
  }

  lemma LoadsLogsAppend(trace: seq<Event>, e: Event)
    ensures Loads(trace + [e]) == Loads(trace) + (if e.LoadStarted? then [e.handler] else [])
    ensures Logs(trace + [e]) == Logs(trace) + (if e.FailuresLogged? then [(e.handler, e.count)] else [])
  {
    assert (trace + [e])[..|trace|] == trace;
  }

  /** The trace of the check phase holds no load and no log event. */
  lemma {:induction false} ChecksHoldNoLoads(trace: seq<Event>)
    requires forall k :: 0 <= k < |trace| ==> trace[k].HeaderChecked?
    ensures Loads(trace) == [] && Logs(trace) == []
  {
    if trace != [] {
      ChecksHoldNoLoads(trace[..|trace| - 1]);
    }
  }

  /** Listing loads and logs distributes over concatenated traces. */
  lemma {:induction false} LoadsLogsConcat(a: seq<Event>, b: seq<Event>)
    ensures Loads(a + b) == Loads(a) + Loads(b)
    ensures Logs(a + b) == Logs(a) + Logs(b)
    decreases |b|
  {
    if b != [] {
      var c := b[..|b| - 1];
      var e := b[|b| - 1];
      assert b == c + [e];
      assert a + b == (a + c) + [e];
      LoadsLogsConcat(a, c);
      LoadsLogsAppend(a + c, e);
      LoadsLogsAppend(c, e);
    } else {
      assert a + b == a;
    }
  }

  /** A load of handler `i` started iff `i` is listed by `Loads`. */
  lemma {:induction false} LoadsListsLoadEvents(trace: seq<Event>, i: nat)
    ensures LoadStarted(i) in trace <==> i in Loads(trace)
  {
    if trace != [] {
      var t := trace[..|trace| - 1];
      assert trace == t + [trace[|trace| - 1]];
      LoadsListsLoadEvents(t, i);
    }
  }

  /** A failure list of `c` entries for handler `i` was logged iff `(i, c)` is listed by `Logs`. */
  lemma {:induction false} LogsListsLogEvents(trace: seq<Event>, i: nat, c: nat)
    ensures FailuresLogged(i, c) in trace <==> (i, c) in Logs(trace)
  {
    if trace != [] {
      var t := trace[..|trace| - 1];
      assert trace == t + [trace[|trace| - 1]];
      LogsListsLogEvents(t, i, c);
    }
  }

  /**
   `Reporting` lists exactly the handlers before `j` whose load result holds
   a non-empty failure list, each with that list's size.
   */
  lemma {:induction false} ReportingExactly(hs: seq<Handler>, j: nat, i: nat, c: nat)
    requires j <= |hs|
    ensures (i, c) in Reporting(hs, j) <==>
      i < j && ReportsFailures(hs[i]) && c == |hs[i].load.value.failures|
  {
    if j > 0 {
      ReportingExactly(hs, j - 1, i, c);
    }
  }

  /** The trace of a check phase that checked handlers `0 .. n - 1`, in order. */
  function Checks(n: nat): seq<Event> {
    seq(n, k requires 0 <= k => HeaderChecked(k))
  }

  /** The events of a completed load of handler `i`: its start, then its failure log when the list is non-empty. */
  function LoadStep(hs: seq<Handler>, i: nat): seq<Event>
    requires i < |hs|
  {
    [LoadStarted(i)] + (if ReportsFailures(hs[i]) then [FailuresLogged(i, |hs[i].load.value.failures|)] else [])
  }

  /** The reference trace of a load phase whose loads of handlers `0 .. j - 1` completed, in order. */
  function LoadPhase(hs: seq<Handler>, j: nat): seq<Event>
    requires j <= |hs|
  {
    if j == 0 then [] else LoadPhase(hs, j - 1) + LoadStep(hs, j - 1)
  }

  /** One completed load lists its handler once among the loads, and its failure list among the logs when non-empty. */
  lemma LoadStepLists(hs: seq<Handler>, i: nat)
    requires i < |hs|
    ensures Loads(LoadStep(hs, i)) == [i]
    ensures Logs(LoadStep(hs, i)) == (if ReportsFailures(hs[i]) then [(i, |hs[i].load.value.failures|)] else [])
  {
    LoadsLogsAppend([], LoadStarted(i));
    assert [] + [LoadStarted(i)] == [LoadStarted(i)];
    if ReportsFailures(hs[i]) {
      LoadsLogsAppend([LoadStarted(i)], FailuresLogged(i, |hs[i].load.value.failures|));
    } else {
      assert LoadStep(hs, i) == [LoadStarted(i)];
    }
  }

  lemma CountUp(n: nat)
    ensures seq(n, i => i) + [n] == seq(n + 1, i => i)
  {
  }

  /** A load phase through `j` loads handlers `0 .. j - 1` once each, in order, and logs exactly the expected failure lists. */
  lemma {:induction false} LoadPhaseLists(hs: seq<Handler>, j: nat)
    requires j <= |hs|
    ensures Loads(LoadPhase(hs, j)) == seq(j, i => i)
    ensures Logs(LoadPhase(hs, j)) == Reporting(hs, j)
  {
    if j > 0 {
      var p := LoadPhase(hs, j - 1);
      var s := LoadStep(hs, j - 1);
      assert LoadPhase(hs, j) == p + s;
      LoadPhaseLists(hs, j - 1);
      LoadsLogsConcat(p, s);
      LoadStepLists(hs, j - 1);
      CountUp(j - 1);
      assert Loads(p + s) == seq(j - 1, i => i) + [j - 1];
      assert Logs(p + s) == Reporting(hs, j - 1) + Logs(s);
    }
  }

  /**
   A load phase through `j` holds no check, names only handlers before `j`,
   and each failure log directly follows its own handler's load start.
   */
  lemma {:induction false} LoadPhaseShape(hs: seq<Handler>, j: nat)
    requires j <= |hs|
    ensures forall k :: 0 <= k < |LoadPhase(hs, j)| ==>
      !LoadPhase(hs, j)[k].HeaderChecked? && LoadPhase(hs, j)[k].handler < j
    ensures forall k :: 0 <= k < |LoadPhase(hs, j)| && LoadPhase(hs, j)[k].FailuresLogged? ==>
      0 < k && LoadPhase(hs, j)[k - 1] == LoadStarted(LoadPhase(hs, j)[k].handler)
  {
    if j > 0 {
      LoadPhaseShape(hs, j - 1);
      var p := LoadPhase(hs, j - 1);
      var s := LoadStep(hs, j - 1);
      var t := LoadPhase(hs, j);
      assert t == p + s;
      forall k | 0 <= k < |t|
        ensures !t[k].HeaderChecked? && t[k].handler < j
        ensures t[k].FailuresLogged? ==> 0 < k && t[k - 1] == LoadStarted(t[k].handler)
      {
        if k < |p| {
          assert t[k] == p[k];
          if k > 0 {
            assert t[k - 1] == p[k - 1];
          }
        } else {
          assert t[k] == s[k - |p|];
          if k > |p| {
            assert t[k - 1] == s[0];
          }
        }
      }
    }
  }

  /** One round of the load loop: start handler `j`'s load and log its failure list when it is non-empty. */
  method LoadOne(hs: seq<Handler>, j: nat, events: seq<Event>) returns (r: Result<ReadResult, Fault>, events': seq<Event>)
    requires j < |hs|
    ensures r == hs[j].load
    ensures r.Failure? ==> events' == events + [LoadStarted(j)]
    ensures r.Success? ==> events' == events + LoadStep(hs, j)
  {
    events' := events + [LoadStarted(j)];
    r := hs[j].load;
    if r.Success? && |r.value.failures| > 0 {
      events' := events' + [FailuresLogged(j, |r.value.failures|)];
    }
  }

  /**
   The load phase: load each handler once, in order, logging non-empty
   failure lists, until a load throws. Returns the events of this phase only.
   */
  method LoadAll(hs: seq<Handler>) returns (outcome: LoadOutcome, events: seq<Event>)
    ensures outcome.Loaded? <==> AllLoaded(hs)
    ensures outcome.Loaded? ==>
      && |outcome.results| == |hs|
      && (forall i :: 0 <= i < |hs| ==> outcome.results[i] == hs[i].load.value)
      && events == LoadPhase(hs, |hs|)
    ensures !AllLoaded(hs) ==>
      && outcome == Aborted(hs[FirstLoadFailure(hs)].load.error)
      && events == LoadPhase(hs, FirstLoadFailure(hs)) + [LoadStarted(FirstLoadFailure(hs))]
  {
    events := [];
    var results: seq<ReadResult> := [];
    var j := 0;
    while j < |hs|
      invariant 0 <= j <= |hs|
      invariant forall k :: 0 <= k < j ==> hs[k].load.Success?
      invariant |results| == j
      invariant forall k :: 0 <= k < j ==> results[k] == hs[k].load.value
      invariant events == LoadPhase(hs, j)
    {
      var r;
      r, events := LoadOne(hs, j, events);
      if r.Failure? {
        assert FirstLoadFailure(hs) == j;
        return Aborted(r.error), events;
      }
      results := results + [r.value];
      j := j + 1;
    }
    return Loaded(results), events;
  }

  /**
   The check phase: check each handler in order, stopping at the first check
   that throws. Returns that check's failure, or `Pass` when all passed.
   */
  method CheckAll(hs: seq<Handler>) returns (verdict: Outcome<Fault>, checks: seq<Event>)
    ensures verdict.Pass? <==> AllVerified(hs)
    ensures verdict.Pass? ==> checks == Checks(|hs|)
    ensures verdict.Fail? ==>
      && verdict.error == hs[FirstRejected(hs)].verify.error
      && checks == Checks(FirstRejected(hs) + 1)
  {
    checks := [];
    var i := 0;
    while i < |hs|
      invariant 0 <= i <= |hs|
      invariant checks == Checks(i)
      invariant forall k :: 0 <= k < i ==> hs[k].verify.Pass?
    {
      assert Checks(i) + [HeaderChecked(i)] == Checks(i + 1);
      checks := checks + [HeaderChecked(i)];
      if hs[i].verify.Fail? {
        assert FirstRejected(hs) == i;
        return hs[i].verify, checks;
      }
      i := i + 1;
    }
    return Pass, checks;
  }

  method LoadCsvs(made: Result<seq<Handler>, Fault>) returns (outcome: LoadOutcome, trace: seq<Event>)
    // construction throws: nothing else happens
    ensures made.Failure? ==> outcome == Aborted(made.error) && trace == []
    // a failed check: the handlers up to it are checked, in order, and nothing else; its cause is rethrown
    ensures made.Success? && !AllVerified(made.value) ==>
      && outcome == Aborted(made.value[FirstRejected(made.value)].verify.error)
      && trace == Checks(FirstRejected(made.value) + 1)
    // a failed load: every handler checked, then each one up to it loaded in order; its cause is rethrown
    ensures made.Success? && AllVerified(made.value) && !AllLoaded(made.value) ==>
      && outcome == Aborted(made.value[FirstLoadFailure(made.value)].load.error)
      && trace == Checks(|made.value|) + LoadPhase(made.value, FirstLoadFailure(made.value))
        + [LoadStarted(FirstLoadFailure(made.value))]
    // normal completion exactly when nothing throws: every handler checked, then every one loaded, in order
    ensures outcome.Loaded? <==> made.Success? && AllVerified(made.value) && AllLoaded(made.value)
    ensures outcome.Loaded? ==>
      && |outcome.results| == |made.value|
      && (forall i :: 0 <= i < |made.value| ==> outcome.results[i] == made.value[i].load.value)
      && trace == Checks(|made.value|) + LoadPhase(made.value, |made.value|)
  {
    if made.Failure? {
      return Aborted(made.error), [];
    }
    var hs := made.value;

    // first, check every file and header
    var verdict, checks := CheckAll(hs);
    if verdict.Fail? {
      return Aborted(verdict.error), checks;
    }

    // then load every file into the temporary store
    var events;
    outcome, events := LoadAll(hs);
    trace := checks + events;
  }

  /**
   The trace of a run whose checks all passed and whose loads of handlers
   `0 .. j - 1` completed, followed, when `aborted`, by the start of handler
   `j`'s load that throws.
   */
  function RunTrace(hs: seq<Handler>, j: nat, aborted: bool): seq<Event>
    requires j <= |hs| && (aborted ==> j < |hs|)
  {
    Checks(|hs|) + LoadPhase(hs, j) + (if aborted then [LoadStarted(j)] else [])
  }

  /** A run past the check phase loads each handler up to the last one started exactly once, in order, and logs exactly the expected failure lists. */
  lemma RunTraceLists(hs: seq<Handler>, j: nat, aborted: bool)
    requires j <= |hs| && (aborted ==> j < |hs|)
    ensures Loads(RunTrace(hs, j, aborted)) == seq(if aborted then j + 1 else j, i => i)
    ensures Logs(RunTrace(hs, j, aborted)) == Reporting(hs, j)
  {
    var c := Checks(|hs|);
    var p := LoadPhase(hs, j);
    var tail: seq<Event> := if aborted then [LoadStarted(j)] else [];
    assert RunTrace(hs, j, aborted) == (c + p) + tail;
    ChecksHoldNoLoads(c);
    LoadPhaseLists(hs, j);
    LoadsLogsConcat(c, p);
    LoadsLogsConcat(c + p, tail);
    if aborted {
      LoadsLogsAppend([], LoadStarted(j));
      assert [] + [LoadStarted(j)] == tail;
      CountUp(j);
    } else {
      assert tail == [];
    }
  }

  /**
   In a run past the check phase, the first `|hs|` events are exactly the
   checks and no later event is one, so no load starts before every check
   has run; every event names an existing handler; and every failure log
   directly follows its own handler's load start.
   */
  lemma RunTraceOrder(hs: seq<Handler>, j: nat, aborted: bool)
    requires j <= |hs| && (aborted ==> j < |hs|)
    ensures forall k :: 0 <= k < |RunTrace(hs, j, aborted)| ==>
      && RunTrace(hs, j, aborted)[k].handler < |hs|
      && (RunTrace(hs, j, aborted)[k].HeaderChecked? <==> k < |hs|)
      && (k < |hs| ==> RunTrace(hs, j, aborted)[k] == HeaderChecked(k))
    ensures forall k :: 0 <= k < |RunTrace(hs, j, aborted)| && RunTrace(hs, j, aborted)[k].FailuresLogged? ==>
      0 < k && RunTrace(hs, j, aborted)[k - 1] == LoadStarted(RunTrace(hs, j, aborted)[k].handler)
  {
    LoadPhaseShape(hs, j);
    var c := Checks(|hs|);
    var p := LoadPhase(hs, j);
    var tail: seq<Event> := if aborted then [LoadStarted(j)] else [];
    var t := RunTrace(hs, j, aborted);
    assert t == c + p + tail;
    forall k | 0 <= k < |t|
      ensures t[k].handler < |hs|
      ensures t[k].HeaderChecked? <==> k < |hs|
      ensures k < |hs| ==> t[k] == HeaderChecked(k)
      ensures t[k].FailuresLogged? ==> 0 < k && t[k - 1] == LoadStarted(t[k].handler)
    {
      if k < |c| {
        assert t[k] == c[k];
      } else if k < |c| + |p| {
        assert t[k] == p[k - |c|];
        if p[k - |c|].FailuresLogged? {
          assert t[k - 1] == p[k - |c| - 1];
        }
      } else {
        assert t[k] == tail[k - |c| - |p|];
      }
    }
  }

  /**
   In a run past the check phase, a failure list is logged for handler `i`
   with `c` entries iff `i`'s load completed with a non-empty list of size `c`.
   */
  lemma FailuresLoggedExactly(hs: seq<Handler>, j: nat, aborted: bool, i: nat, c: nat)
    requires j <= |hs| && (aborted ==> j < |hs|)
    ensures FailuresLogged(i, c) in RunTrace(hs, j, aborted) <==>
      i < j && ReportsFailures(hs[i]) && c == |hs[i].load.value.failures|
  {
    RunTraceLists(hs, j, aborted);
    LogsListsLogEvents(RunTrace(hs, j, aborted), i, c);
    ReportingExactly(hs, j, i, c);
  }
}
