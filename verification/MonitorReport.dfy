/**
 Which entity lists a monitor run read in full (Monitor.run), and the headline it reports (overall).
 */
module MonitorReport {
  import opened Timeline
  import opened Wrappers
  import opened Incidents
  import opened IncidentHistory

  /** One check of a run: the results it added, and whether it stopped with an exception. */
  datatype Batch = Batch(name: string, area: string, results: seq<CheckResult>, threw: bool)

  const ENTITY_LISTS := ["svc:", "svc-restart:", "container:", "res:disk:", "net:bridge:", "pms:link:", "pms:sync:",
                         "cert:", "errors:"]

  /** The check ran to its end, produced results, and could verify every one of them. */
  predicate FullyVerified(b: Batch) {
    !b.threw && b.results != [] && forall r | r in b.results :: !r.status.NotVerified?
  }

  predicate Emits(b: Batch, list: string) {
    exists r | r in b.results :: list <= r.key
  }

  /** What one check leaves in the run's results: its own, and an unverified marker if it stopped early. */
  function Reports(b: Batch): seq<CheckResult> {
    b.results + if b.threw then [CheckResult(b.name + ":evidence", b.area, NotVerified, "", 1)] else []
  }

  function AllReports(batches: seq<Batch>): seq<CheckResult> {
    if batches == [] then [] else AllReports(batches[..|batches| - 1]) + Reports(batches[|batches| - 1])
  }

  /** The results of a run are those of its checks one after the other, each followed by its marker if it stopped. */
  lemma {:induction false} ReportsInOrder(a: seq<Batch>, b: seq<Batch>)
    ensures AllReports(a + b) == AllReports(a) + AllReports(b)
    ensures |b| == 1 && !b[0].threw ==> AllReports(b) == b[0].results
    ensures |b| == 1 && b[0].threw ==>
              && |AllReports(b)| == |b[0].results| + 1 && AllReports(b)[..|b[0].results|] == b[0].results
              && AllReports(b)[|b[0].results|].status == NotVerified
    decreases b
  {
    if b == [] {
      assert a + b == a;
    } else {
      var n := |b| - 1;
      assert (a + b)[..|a| + n] == a + b[..n];
      ReportsInOrder(a, b[..n]);
    }
  }

  /** A list is complete exactly when some fully verified check names an entity of it. */
  method RunChecks(batches: seq<Batch>, lists: seq<string>, now: Time) returns (run: MonitorRun)
    ensures run.results == AllReports(batches) && run.now == now
    ensures forall f :: f in run.complete <==>
              f in lists && exists i | 0 <= i < |batches| :: FullyVerified(batches[i]) && Emits(batches[i], f)
  {
    var results: seq<CheckResult>, complete: set<string> := [], {};
    for n := 0 to |batches|
      invariant results == AllReports(batches[..n])
      invariant forall f :: f in complete <==>
                  f in lists && exists i | 0 <= i < n :: FullyVerified(batches[i]) && Emits(batches[i], f)
    {
      var b := batches[n];
      assert batches[..n + 1][..n] == batches[..n];
      results := results + Reports(b);
      if FullyVerified(b) {
        complete := complete + set f | f in lists && Emits(b, f);
      }
    }
    assert batches[..|batches|] == batches;
    run := MonitorRun(results, complete, now);
  }

  /** Each entity list is read by one check. */
  ghost predicate OneOwner(batches: seq<Batch>, lists: seq<string>) {
    forall f, i, j | f in lists && 0 <= i < |batches| && 0 <= j < |batches| ::
      Emits(batches[i], f) && Emits(batches[j], f) ==> i == j
  }

  ghost predicate Produces(batches: seq<Batch>, lists: seq<string>, run: MonitorRun) {
    && run.results == AllReports(batches)
    && forall f :: f in run.complete <==>
         f in lists && exists i | 0 <= i < |batches| :: FullyVerified(batches[i]) && Emits(batches[i], f)
  }

  /** A check that stopped early or verified only part of a list it owns never closes that list. */
  lemma PartialReadClosesNothing(batches: seq<Batch>, lists: seq<string>, run: MonitorRun, n: nat, f: string)
    requires OneOwner(batches, lists) && Produces(batches, lists, run)
    requires n < |batches| && Emits(batches[n], f) && !FullyVerified(batches[n])
    ensures f !in run.complete
  {
  }

  /**
   A run that only failed to verify a key says nothing about it: whatever other checks read in full, the key
   neither counts nor clears, so its incident is kept and no recovery is reported.
   */
  lemma UnverifiedNeverClears(batches: seq<Batch>, lists: seq<string>, run: MonitorRun, n: nat, r: CheckResult,
                              inc: Option<Incident>)
    requires OneOwner(batches, lists) && Produces(batches, lists, run)
    requires n < |batches| && r in batches[n].results && r.status.NotVerified?
    requires !Listed(run.results, r.key)
    ensures Observe(run, r.key).Unknown?
    ensures Next(inc, run, r.key) == inc && !Recovers(inc, run, r.key)
  {
    FailureFails(run.results, r.key);
    forall f | f <= r.key ensures f !in run.complete {
      assert Emits(batches[n], f);
      PartialReadClosesNothing(batches, lists, run, n, f);
    }
  }

  /** The same from what the check did: it stopped with an exception, or could not verify one of its results. */
  lemma StoppedCheckClosesNothing(batches: seq<Batch>, lists: seq<string>, run: MonitorRun, n: nat, f: string,
                                  named: CheckResult)
    requires OneOwner(batches, lists) && Produces(batches, lists, run)
    requires n < |batches| && named in batches[n].results && f <= named.key
    requires batches[n].threw || exists r | r in batches[n].results :: r.status == NotVerified
    ensures f !in run.complete
  {
    assert Emits(batches[n], f);
  }

  // ----- Entities that are gone -----

  ghost predicate Mentioned(run: MonitorRun, key: string) {
    exists r | r in run.results :: r.key == key
  }

  /**
   An entity that no check mentions any more is closed exactly when a fully verified check names some entity of its
   list.
   */
  lemma AbsentKeyClosedIff(batches: seq<Batch>, lists: seq<string>, run: MonitorRun, key: string)
    requires Produces(batches, lists, run) && !Mentioned(run, key)
    ensures Observe(run, key).Cleared? <==>
            exists f, i | f in lists && 0 <= i < |batches| ::
              f <= key && FullyVerified(batches[i]) && Emits(batches[i], f)
  {
    FailureFails(run.results, key);
    if f, i :| f in lists && 0 <= i < |batches| && f <= key && FullyVerified(batches[i]) && Emits(batches[i], f) {
      assert f in run.complete;
    }
  }

  /**
   So an entity that is gone is closed once its check runs to the end, verifies all it reports and names a sibling.
   */
  lemma GoneEntityIsClosed(batches: seq<Batch>, lists: seq<string>, run: MonitorRun, key: string, n: nat, f: string,
                           sibling: CheckResult, inc: Option<Incident>)
    requires Produces(batches, lists, run) && forall r | r in run.results :: r.key != key
    requires n < |batches| && !batches[n].threw && sibling in batches[n].results
    requires forall r | r in batches[n].results :: r.status != NotVerified
    requires f in lists && f <= key && f <= sibling.key
    ensures Next(inc, run, key) == None && (Recovers(inc, run, key) <==> inc.Some? && inc.value.raised)
  {
    assert Emits(batches[n], f) && FullyVerified(batches[n]);
    AbsentKeyClosedIff(batches, lists, run, key);
  }

  /** The run neither mentions the key nor has a fully verified check that names an entity of a list the key is on. */
  ghost predicate Forgotten(batches: seq<Batch>, lists: seq<string>, run: MonitorRun, key: string) {
    && Produces(batches, lists, run) && !Mentioned(run, key)
    && forall f, i | f in lists && 0 <= i < |batches| :: f <= key && FullyVerified(batches[i]) ==> !Emits(batches[i], f)
  }

  lemma ForgottenIsUnknown(batches: seq<Batch>, lists: seq<string>, run: MonitorRun, key: string)
    requires Forgotten(batches, lists, run, key)
    ensures Observe(run, key).Unknown?
  {
    FailureFails(run.results, key);
    AbsentKeyClosedIff(batches, lists, run, key);
  }

  /** From run n on, every run forgets the key. */
  ghost predicate ForgottenFrom(checks: seq<seq<Batch>>, lists: seq<string>, runs: seq<MonitorRun>, key: string,
                                n: nat)
  {
    |checks| == |runs| && n <= |runs| && forall i | n <= i < |runs| :: Forgotten(checks[i], lists, runs[i], key)
  }

  lemma {:induction false} ForgottenIsKept(checks: seq<seq<Batch>>, lists: seq<string>, runs: seq<MonitorRun>,
                                           key: string, n: nat)
    requires ForgottenFrom(checks, lists, runs, key, n)
    ensures Track(runs, key) == Track(runs[..n], key)
    decreases |runs|
  {
    var last := |runs| - 1;
    if n < |runs| {
      assert runs[..last][..n] == runs[..n];
      ForgottenIsKept(checks[..last], lists, runs[..last], key, n);
      ForgottenIsUnknown(checks[last], lists, runs[last], key);
    } else {
      assert runs[..n] == runs;
    }
  }

  /**
   A raised incident whose key every later run forgets is never over: however many such runs follow, it is kept
   unchanged and the last of them reports it, carried from its last failure.
   */
  lemma ForgottenIsCarriedForever(checks: seq<seq<Batch>>, lists: seq<string>, runs: seq<MonitorRun>, key: string,
                                  n: nat)
    requires ForgottenFrom(checks, lists, runs, key, n) && n < |runs| && IsRaised(runs[..n], key)
    ensures Track(runs, key) == Track(runs[..n], key)
    ensures var inc := Track(runs[..n], key).value; Reported(runs, key) == Some(Issue(Carried(key, inc), inc))
  {
    var last := |runs| - 1;
    ForgottenIsKept(checks, lists, runs, key, n);
    assert runs[..last][..n] == runs[..n];
    ForgottenIsKept(checks[..last], lists, runs[..last], key, n);
    ForgottenIsUnknown(checks[last], lists, runs[last], key);
    UnknownIsCarried(Track(runs[..last], key), runs[last], key);
  }

  lemma UnknownIsCarried(inc: Option<Incident>, run: MonitorRun, key: string)
    requires Observe(run, key).Unknown? && inc.Some? && inc.value.raised
    ensures IssueOf(inc, run, key) == Some(Issue(Carried(key, inc.value), inc.value))
  {
  }

  /** What check_pms reports once no PMS connection is active. */
  ghost predicate NoPms(b: Batch) {
    && b.name == "check_pms" && !b.threw && |b.results| == 2
    && b.results[0].key == "pms:none" && b.results[0].status.Pass? && b.results[1].key == "posting:queue"
  }

  predicate PmsList(f: string) {
    f == "pms:link:" || f == "pms:sync:"
  }

  /** check_pms finds no connection; the other checks, whatever they report, name no PMS entity. */
  ghost predicate PmsRemoved(batches: seq<Batch>) {
    forall i | 0 <= i < |batches| :: "check_" <= batches[i].name &&
      if batches[i].name == "check_pms" then NoPms(batches[i]) else forall f | PmsList(f) :: !Emits(batches[i], f)
  }

  ghost predicate Unmentioned(results: seq<CheckResult>, key: string) {
    forall r | r in results :: r.key != key
  }

  lemma {:induction false} AllUnmentioned(batches: seq<Batch>, key: string)
    requires forall i | 0 <= i < |batches| :: Unmentioned(Reports(batches[i]), key)
    ensures Unmentioned(AllReports(batches), key)
  {
    if batches != [] {
      AllUnmentioned(batches[..|batches| - 1], key);
    }
  }

  lemma NoPmsNamesNone(b: Batch, list: string)
    requires NoPms(b) && PmsList(list)
    ensures !Emits(b, list)
  {
    assert list[4] != 'n' && list[1] == 'm';
    assert "pms:none"[4] == 'n' && "posting:queue"[1] == 'o';
    forall r | r in b.results ensures !(list <= r.key) {
      assert r.key[1] != list[1] || r.key[4] != list[4];
    }
  }

  lemma ReportsNone(b: Batch, list: string, key: string)
    requires "check_" <= b.name && PmsList(list) && list <= key && !Emits(b, list)
    ensures Unmentioned(Reports(b), key)
  {
    assert "check_"[0] == 'c' && list[0] == 'p';
    assert (b.name + ":evidence")[0] == 'c' && key[0] == 'p';
  }

  lemma OneListOfEach(f: string, list: string, key: string)
    requires f in ENTITY_LISTS && PmsList(list) && f <= key && list <= key
    ensures f == list
  {
    assert key[0] == list[0] == 'p' && key[4] == list[4];
    assert f[0] == 'p';
    assert |f| > 4 && f[4] == list[4];
  }

  /**
   So the last PMS connection is never closed by its removal: whatever the other checks do, a run whose check_pms finds
   no connection forgets every link and every sync.
   */
  lemma RemovedPmsIsForgotten(batches: seq<Batch>, run: MonitorRun, list: string, key: string)
    requires Produces(batches, ENTITY_LISTS, run) && PmsRemoved(batches) && PmsList(list) && list <= key
    ensures Forgotten(batches, ENTITY_LISTS, run, key)
  {
    forall i | 0 <= i < |batches| ensures !Emits(batches[i], list) && Unmentioned(Reports(batches[i]), key) {
      if batches[i].name == "check_pms" {
        NoPmsNamesNone(batches[i], list);
      }
      ReportsNone(batches[i], list, key);
    }
    AllUnmentioned(batches, key);
    forall f | f in ENTITY_LISTS && f <= key ensures f == list {
      OneListOfEach(f, list, key);
    }
  }

  /** The same over a history: removed while its incident is raised, a PMS connection is reported ever after. */
  lemma RemovedPmsIsCarriedForever(checks: seq<seq<Batch>>, runs: seq<MonitorRun>, list: string, key: string, n: nat)
    requires |checks| == |runs| && n < |runs| && PmsList(list) && list <= key && IsRaised(runs[..n], key)
    requires forall i | n <= i < |runs| :: Produces(checks[i], ENTITY_LISTS, runs[i]) && PmsRemoved(checks[i])
    ensures var inc := Track(runs[..n], key).value; Reported(runs, key) == Some(Issue(Carried(key, inc), inc))
  {
    forall i | n <= i < |runs| ensures Forgotten(checks[i], ENTITY_LISTS, runs[i], key) {
      RemovedPmsIsForgotten(checks[i], runs[i], list, key);
    }
    ForgottenIsCarriedForever(checks, ENTITY_LISTS, runs, key, n);
  }

  // ----- Headline -----

  function Rank(s: Status): nat {
    match s
    case Pass => 0
    case NotVerified => 1
    case Warn => 2
    case Critical => 3
  }

  function Worst(active: map<string, Issue>): (w: Status)
    ensures forall key | key in active :: Rank(active[key].shown.status) <= Rank(w)
    ensures w.Pass? || exists key | key in active :: active[key].shown.status == w
  {
    if exists key | key in active :: active[key].shown.status.Critical? then Critical
    else if exists key | key in active :: active[key].shown.status.Warn? then Warn
    else if exists key | key in active :: active[key].shown.status.NotVerified? then NotVerified
    else Pass
  }

  function Overall(active: map<string, Issue>, unverified: nat): Status {
    var worst := Worst(active);
    if worst.Pass? && unverified > 0 then NotVerified else worst
  }

  /** How many results of a run are unverified, the count the headline is given. */
  function Unverified(results: seq<CheckResult>): nat {
    if results == [] then 0
    else Unverified(results[..|results| - 1]) + if results[|results| - 1].status.NotVerified? then 1 else 0
  }

  ghost predicate AllVerified(run: MonitorRun) {
    forall r | r in run.results :: !r.status.NotVerified?
  }

  lemma {:induction false} NoneUnverifiedIff(results: seq<CheckResult>)
    ensures Unverified(results) == 0 <==> forall r | r in results :: !r.status.NotVerified?
  {
    if results != [] {
      var n := |results| - 1;
      NoneUnverifiedIff(results[..n]);
      assert results[n] in results && forall r | r in results[..n] :: r in results;
      assert forall r | r in results :: r in results[..n] || r == results[n];
    }
  }

  /** The key has not failed as often as its persistence asks since it was last evaluated without failing. */
  ghost predicate Quiet(runs: seq<MonitorRun>, key: string, persist: int) {
    FailuresSinceClear(runs, key) == 0 || FailuresSinceClear(runs, key) < persist
  }

  /**
   What the headline promises over a whole history: PASS exactly when every result of the last run was verified and
   every key is quiet; NOT_VERIFIED exactly when some result was not and every key is quiet.
   */
  lemma HeadlinePassIff(runs: seq<MonitorRun>, active: map<string, Issue>, persist: string -> int)
    requires runs != [] && forall key :: ConstantPersist(runs, key, persist(key))
    requires forall key :: Lookup(active, key) == Reported(runs, key)
    ensures var last := runs[|runs| - 1];
            var headline := Overall(active, Unverified(last.results));
            && (headline.Pass? <==> AllVerified(last) && forall key :: Quiet(runs, key, persist(key)))
            && (headline.NotVerified? <==> !AllVerified(last) && forall key :: Quiet(runs, key, persist(key)))
  {
    NoneUnverifiedIff(runs[|runs| - 1].results);
    forall key
      ensures key in active <==> !Quiet(runs, key, persist(key))
      ensures key in active ==> Fails(active[key].shown)
    {
      ReportedIff(runs, key, persist(key));
    }
  }

  /** The headline by the issues and the results themselves. */
  lemma HeadlineIff(active: map<string, Issue>, results: seq<CheckResult>)
    requires forall key | key in active :: FailedStatus(active[key].shown.status)
    ensures var headline := Overall(active, Unverified(results));
            var critical := exists key | key in active :: active[key].shown.status == Critical;
            var unverified := exists r | r in results :: r.status == NotVerified;
            && (headline == Critical <==> critical)
            && (headline == Warn <==> !critical && active != map[])
            && (headline == NotVerified <==> active == map[] && unverified)
            && (headline == Pass <==> active == map[] && !unverified)
  {
    NoneUnverifiedIff(results);
    if active != map[] {
      assert exists key :: key in active;
    }
  }

  /** A run in which a check stopped with an exception is never PASS. */
  lemma StoppedCheckIsNeverPass(batches: seq<Batch>, lists: seq<string>, run: MonitorRun, n: nat,
                                active: map<string, Issue>)
    requires Produces(batches, lists, run) && n < |batches| && batches[n].threw
    ensures !Overall(active, Unverified(run.results)).Pass?
  {
    StoppedCheckLeavesMarker(batches, n);
    NoneUnverifiedIff(run.results);
  }

  lemma InTheMiddle(a: seq<CheckResult>, b: seq<CheckResult>, c: seq<CheckResult>, i: nat)
    requires i < |b|
    ensures b[i] in a + (b + c)
  {
    assert (a + (b + c))[|a| + i] == b[i];
  }

  lemma StoppedCheckLeavesMarker(batches: seq<Batch>, n: nat)
    requires n < |batches| && batches[n].threw
    ensures exists r :: r in AllReports(batches) && r.status == NotVerified
  {
    var before, at, after := batches[..n], [batches[n]], batches[n + 1..];
    assert batches == before + (at + after);
    ReportsInOrder(before, at + after);
    ReportsInOrder(at, after);
    ReportsInOrder([], at);
    InTheMiddle(AllReports(before), AllReports(at), AllReports(after), |batches[n].results|);
  }
}
