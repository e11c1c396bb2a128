/**
 What the incident tracking means over a whole history of monitor runs.
 */
module IncidentHistory {
  import opened Timeline
  import opened Wrappers
  import opened Incidents

  // ----- What a run says about a key -----

  /** The two statuses that make a result a failure, for statements about the results themselves. */
  predicate FailedStatus(s: Status) {
    s == Warn || s == Critical
  }

  lemma {:induction false} FailureFails(results: seq<CheckResult>, key: string)
    ensures var f := FailureOf(results, key);
            f.Some? ==> f.value in results && f.value.key == key && Fails(f.value)
  {
    if results != [] {
      FailureFails(results[..|results| - 1], key);
    }
  }

  lemma {:induction false} FailureIsLast(results: seq<CheckResult>, key: string)
    ensures FailureOf(results, key).None? <==> forall r | r in results && r.key == key :: !FailedStatus(r.status)
    ensures FailureOf(results, key).Some? ==>
              exists i | 0 <= i < |results| ::
                && results[i] == FailureOf(results, key).value
                && results[i].key == key && FailedStatus(results[i].status)
                && forall j | i < j < |results| :: results[j].key == key ==> !FailedStatus(results[j].status)
  {
    if results != [] {
      var n := |results| - 1;
      FailureIsLast(results[..n], key);
      assert forall r :: r in results <==> r in results[..n] || r == results[n];
      assert forall i | 0 <= i < n :: results[..n][i] == results[i];
    }
  }

  /**
   A run's word on a key, from its results and the lists it read in full: it failed if any result of it is a warning or
   critical, and the last such one counts; otherwise it is cleared by a passing result of it or by a list it belongs to;
   otherwise nothing is known.
   */
  lemma ObserveIff(run: MonitorRun, key: string)
    ensures var failed := exists r | r in run.results :: r.key == key && FailedStatus(r.status);
            var passed := exists r | r in run.results :: r.key == key && r.status == Pass;
            var gone := exists f | f in run.complete :: f <= key;
            && (Observe(run, key).Failed? <==> failed)
            && (Observe(run, key).Cleared? <==> !failed && (passed || gone))
            && (Observe(run, key).Unknown? <==> !failed && !passed && !gone)
    ensures Observe(run, key).Failed? ==>
              exists i | 0 <= i < |run.results| ::
                && run.results[i] == Observe(run, key).r && run.results[i].key == key
                && forall j | i < j < |run.results| ::
                     run.results[j].key == key ==> !FailedStatus(run.results[j].status)
  {
    FailureIsLast(run.results, key);
    FailureFails(run.results, key);
    if exists r | r in run.results :: r.key == key && FailedStatus(r.status) {
      var r :| r in run.results && r.key == key && FailedStatus(r.status);
    }
  }

  /** A run that passes a key and does not fail it ends its incident, and reports the recovery of a raised one. */
  lemma PassClears(run: MonitorRun, key: string, inc: Option<Incident>, r: CheckResult)
    requires r in run.results && r.key == key && r.status == Pass
    requires forall other | other in run.results && other.key == key :: !FailedStatus(other.status)
    ensures Next(inc, run, key) == None && IssueOf(inc, run, key) == None
    ensures Recovers(inc, run, key) <==> inc.Some? && inc.value.raised
  {
    ObserveIff(run, key);
  }

  // ----- The state after a history -----

  /** The stored incident of one key after all runs, starting from nothing. */
  function Track(runs: seq<MonitorRun>, key: string): Option<Incident> {
    if runs == [] then None else Next(Track(runs[..|runs| - 1], key), runs[|runs| - 1], key)
  }

  /**
   The reference: how often a key failed since it was last evaluated without failing. Unverified runs do not count.
   */
  function FailuresSinceClear(runs: seq<MonitorRun>, key: string): nat {
    if runs == [] then 0
    else
      var earlier := FailuresSinceClear(runs[..|runs| - 1], key);
      match Observe(runs[|runs| - 1], key)
      case Failed(_) => earlier + 1
      case Cleared => 0
      case Unknown => earlier
  }

  /** Runs the stored state through the history, as successive monitor processes do. */
  method Replay(runs: seq<MonitorRun>)
    returns (store: IncidentStore, active: map<string, Issue>, recovered: map<string, Incident>)
    ensures forall key :: Lookup(store.st, key) == Track(runs, key)
    ensures runs != [] ==> forall key :: Lookup(active, key) == Reported(runs, key)
    ensures runs != [] ==> forall key :: key in recovered <==> RecoveredAt(runs, |runs| - 1, key)
  {
    store := new IncidentStore(map[], []);
    active, recovered := map[], map[];
    for i := 0 to |runs|
      invariant fresh(store)
      invariant forall key :: Lookup(store.st, key) == Track(runs[..i], key)
      invariant i > 0 ==> forall key :: Lookup(active, key) == Reported(runs[..i], key)
      invariant i > 0 ==> forall key :: key in recovered <==> RecoveredAt(runs[..i], i - 1, key)
    {
      assert runs[..i + 1][..i] == runs[..i] && runs[..i + 1][i] == runs[i];
      ghost var added;
      active, recovered, added := store.Apply(runs[i]);
    }
    assert runs[..|runs|] == runs;
  }

  /** What the last run reports about a key. */
  function Reported(runs: seq<MonitorRun>, key: string): Option<Issue>
    requires runs != []
  {
    IssueOf(Track(runs[..|runs| - 1], key), runs[|runs| - 1], key)
  }

  // ----- Refinement of the history -----

  /** The stored counters are the reference count, and an incident exists exactly while it is positive. */
  lemma {:induction false} CountersAreTheHistory(runs: seq<MonitorRun>, key: string)
    ensures Track(runs, key).Some? <==> FailuresSinceClear(runs, key) > 0
    ensures Track(runs, key).Some? ==>
              var inc := Track(runs, key).value;
              && inc.streak == inc.count == FailuresSinceClear(runs, key)
              && (inc.status.Warn? || inc.status.Critical?)
  {
    if runs != [] {
      CountersAreTheHistory(runs[..|runs| - 1], key);
      FailureFails(runs[|runs| - 1].results, key);
    }
  }

  ghost predicate ConstantPersist(runs: seq<MonitorRun>, key: string, persist: int) {
    forall i | 0 <= i < |runs| :: Observe(runs[i], key).Failed? ==> Observe(runs[i], key).r.persist == persist
  }

  lemma {:induction false} RaisedIsTheHistory(runs: seq<MonitorRun>, key: string, persist: int)
    requires ConstantPersist(runs, key, persist)
    ensures Track(runs, key).Some? ==> (Track(runs, key).value.raised <==> FailuresSinceClear(runs, key) >= persist)
  {
    if runs != [] {
      RaisedIsTheHistory(runs[..|runs| - 1], key, persist);
      CountersAreTheHistory(runs[..|runs| - 1], key);
    }
  }

  /**
   A key is reported after a run exactly when it failed at least `persist` times since it was last evaluated without
   failing, however many unverified runs lie between.
   */
  lemma ReportedIff(runs: seq<MonitorRun>, key: string, persist: int)
    requires runs != [] && ConstantPersist(runs, key, persist)
    ensures Reported(runs, key).Some? <==> 0 < FailuresSinceClear(runs, key) && persist <= FailuresSinceClear(runs, key)
    ensures Reported(runs, key).Some? ==>
              && Reported(runs, key).value.inc.count == FailuresSinceClear(runs, key)
              && Fails(Reported(runs, key).value.shown)
  {
    var before := runs[..|runs| - 1];
    CountersAreTheHistory(before, key);
    RaisedIsTheHistory(before, key, persist);
    FailureFails(runs[|runs| - 1].results, key);
  }

  // ----- The stored incident, field by field -----

  /** The failures of a key since it was last evaluated without failing: when, and with which result. */
  ghost function Failures(runs: seq<MonitorRun>, key: string): seq<(Time, CheckResult)> {
    if runs == [] then []
    else
      var earlier, last := Failures(runs[..|runs| - 1], key), runs[|runs| - 1];
      match Observe(last, key)
      case Failed(r) => earlier + [(last.now, r)]
      case Cleared => []
      case Unknown => earlier
  }

  /** Some failure found at least as many as its own persistence asks, itself included. */
  ghost predicate LongEnough(failures: seq<(Time, CheckResult)>) {
    exists i | 0 <= i < |failures| :: failures[i].1.persist <= i + 1
  }

  ghost function IncidentOf(failures: seq<(Time, CheckResult)>): Option<Incident> {
    if failures == [] then None
    else
      var last := failures[|failures| - 1];
      Some(Incident(failures[0].0, |failures|, |failures|, LongEnough(failures), last.0, last.1.status, last.1.text,
                    last.1.area))
  }

  /**
   What is stored about a key is exactly its failures since it was last evaluated without failing: the time of the
   first, how many, the time, status, text and area of the last, and whether any of them persisted long enough.
   */
  lemma {:induction false} TrackIsTheFailures(runs: seq<MonitorRun>, key: string)
    ensures Track(runs, key) == IncidentOf(Failures(runs, key))
  {
    if runs != [] {
      TrackIsTheFailures(runs[..|runs| - 1], key);
      if Observe(runs[|runs| - 1], key).Failed? {
        FailureAppended(Failures(runs[..|runs| - 1], key), runs[|runs| - 1], key);
      }
    }
  }

  lemma FailureAppended(earlier: seq<(Time, CheckResult)>, run: MonitorRun, key: string)
    requires Observe(run, key).Failed?
    ensures var r := Observe(run, key).r;
            IncidentOf(earlier + [(run.now, r)]) == Some(Fail(IncidentOf(earlier), r, run.now))
  {
    var r := Observe(run, key).r;
    var all := earlier + [(run.now, r)];
    assert forall i | 0 <= i < |earlier| :: all[i] == earlier[i];
    assert all[|earlier|] == (run.now, r);
    assert LongEnough(all) <==> LongEnough(earlier) || r.persist <= |earlier| + 1;
  }

  /**
   What the last run reports about a key, whatever the persistence of its results: its own failure if that persisted
   long enough, and if the run says nothing about the key, the last failure of an incident that once did.
   */
  lemma ReportedIsTheFailures(runs: seq<MonitorRun>, key: string)
    requires runs != []
    ensures var run, all := runs[|runs| - 1], Failures(runs, key);
            var n := |all|;
            match Observe(run, key)
            case Failed(r) =>
              Reported(runs, key) == if r.persist <= n then Some(Issue(r, IncidentOf(all).value)) else None
            case Cleared => Reported(runs, key) == None
            case Unknown =>
              if !LongEnough(all) then Reported(runs, key) == None
              else
                var (when, r) := all[n - 1];
                var shown := r.(key := key, text := r.text + "; last checked " + HourMinute(when), persist := 1);
                Reported(runs, key) == Some(Issue(shown, IncidentOf(all).value))
  {
    var before := Failures(runs[..|runs| - 1], key);
    TrackIsTheFailures(runs[..|runs| - 1], key);
    if Observe(runs[|runs| - 1], key).Failed? {
      FailureAppended(before, runs[|runs| - 1], key);
    }
  }

  // ----- Episodes -----

  ghost predicate IsRaised(runs: seq<MonitorRun>, key: string) {
    Track(runs, key).Some? && Track(runs, key).value.raised
  }

  /** Run number i raises the key. */
  ghost predicate RaisedAt(runs: seq<MonitorRun>, i: nat, key: string)
    requires i < |runs|
  {
    !IsRaised(runs[..i], key) && IsRaised(runs[..i + 1], key)
  }

  /** Run number i reports the key recovered. */
  ghost predicate RecoveredAt(runs: seq<MonitorRun>, i: nat, key: string)
    requires i < |runs|
  {
    Recovers(Track(runs[..i], key), runs[i], key)
  }

  lemma TrackStep(runs: seq<MonitorRun>, i: nat, key: string)
    requires i < |runs|
    ensures Track(runs[..i + 1], key) == Next(Track(runs[..i], key), runs[i], key)
  {
    assert runs[..i + 1][..i] == runs[..i];
  }

  /** A raised incident ends exactly in a reported recovery, and only on a run that evaluated the key. */
  lemma RecoveredIffEnded(runs: seq<MonitorRun>, i: nat, key: string)
    requires i < |runs|
    ensures RecoveredAt(runs, i, key) <==> IsRaised(runs[..i], key) && !IsRaised(runs[..i + 1], key)
    ensures RecoveredAt(runs, i, key) ==> Observe(runs[i], key).Cleared? && Track(runs[..i + 1], key).None?
  {
    TrackStep(runs, i, key);
  }

  lemma {:induction false} StaysRaised(runs: seq<MonitorRun>, i: nat, j: nat, key: string)
    requires i <= j <= |runs| && IsRaised(runs[..i], key)
    requires forall m | i <= m < j :: !RecoveredAt(runs, m, key)
    ensures IsRaised(runs[..j], key)
    decreases j
  {
    if i < j {
      StaysRaised(runs, i, j - 1, key);
      RecoveredIffEnded(runs, j - 1, key);
    }
  }

  /** Between two raises of a key there is a reported recovery. */
  lemma RecoveredBeforeRaisedAgain(runs: seq<MonitorRun>, i: nat, j: nat, key: string)
    requires i < j < |runs| && RaisedAt(runs, i, key) && RaisedAt(runs, j, key)
    ensures exists m | i < m < j :: RecoveredAt(runs, m, key)
  {
    if forall m | i < m < j :: !RecoveredAt(runs, m, key) {
      StaysRaised(runs, i + 1, j, key);
    }
  }

  /** And between two reported recoveries there is a raise. */
  lemma RaisedBeforeRecoveredAgain(runs: seq<MonitorRun>, i: nat, j: nat, key: string)
    requires i < j < |runs| && RecoveredAt(runs, i, key) && RecoveredAt(runs, j, key)
    ensures exists m | i < m < j :: RaisedAt(runs, m, key)
  {
    RecoveredIffEnded(runs, i, key);
    if forall m | i < m < j :: !RaisedAt(runs, m, key) {
      StaysQuiet(runs, i + 1, j, key);
    }
  }

  lemma {:induction false} StaysQuiet(runs: seq<MonitorRun>, i: nat, j: nat, key: string)
    requires i <= j <= |runs| && !IsRaised(runs[..i], key)
    requires forall m | i <= m < j :: !RaisedAt(runs, m, key)
    ensures !IsRaised(runs[..j], key)
    decreases j
  {
    if i < j {
      StaysQuiet(runs, i, j - 1, key);
      assert !RaisedAt(runs, j - 1, key);
    }
  }

  // ----- Conservation over all keys -----

  function ResultKeys(results: seq<CheckResult>): set<string> {
    set r | r in results :: r.key
  }

  function KeysOf(runs: seq<MonitorRun>): set<string> {
    if runs == [] then {} else KeysOf(runs[..|runs| - 1]) + ResultKeys(runs[|runs| - 1].results)
  }

  ghost function Open(runs: seq<MonitorRun>): set<string> {
    set key | key in KeysOf(runs) && IsRaised(runs, key)
  }

  ghost function NewlyRaised(runs: seq<MonitorRun>): set<string>
    requires runs != []
  {
    set key | key in KeysOf(runs) && RaisedAt(runs, |runs| - 1, key)
  }

  ghost function NewlyRecovered(runs: seq<MonitorRun>): set<string>
    requires runs != []
  {
    set key | key in KeysOf(runs) && RecoveredAt(runs, |runs| - 1, key)
  }

  ghost function RaisedTotal(runs: seq<MonitorRun>): nat {
    if runs == [] then 0 else RaisedTotal(runs[..|runs| - 1]) + |NewlyRaised(runs)|
  }

  ghost function RecoveredTotal(runs: seq<MonitorRun>): nat {
    if runs == [] then 0 else RecoveredTotal(runs[..|runs| - 1]) + |NewlyRecovered(runs)|
  }

  lemma {:induction false} UnseenKeysAreUntracked(runs: seq<MonitorRun>, key: string)
    ensures Track(runs, key).Some? ==> key in KeysOf(runs)
  {
    if runs != [] {
      UnseenKeysAreUntracked(runs[..|runs| - 1], key);
      FailureFails(runs[|runs| - 1].results, key);
    }
  }

  /** Raised minus recovered is always the number of raised incidents still open. */
  lemma {:induction false} RaisedMinusRecovered(runs: seq<MonitorRun>)
    ensures RaisedTotal(runs) == RecoveredTotal(runs) + |Open(runs)|
  {
    if runs == [] {
      assert Open(runs) == {};
    } else {
      var n := |runs| - 1;
      var before := runs[..n];
      RaisedMinusRecovered(before);
      assert runs[..n + 1] == runs;
      forall key
        ensures key in Open(before) ==> key in KeysOf(runs)
        ensures RecoveredAt(runs, n, key) <==> IsRaised(before, key) && !IsRaised(runs, key)
        ensures IsRaised(before, key) ==> key in KeysOf(before)
      {
        RecoveredIffEnded(runs, n, key);
        UnseenKeysAreUntracked(before, key);
      }
      var kept := Open(before) - NewlyRecovered(runs);
      assert NewlyRecovered(runs) <= Open(before);
      assert Open(before) == kept + NewlyRecovered(runs);
      assert Open(runs) == kept + NewlyRaised(runs) && kept !! NewlyRaised(runs);
    }
  }
}
