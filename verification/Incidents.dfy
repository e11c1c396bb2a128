/**
 The monitor's incident tracking across runs (deploy/monitor/onegate_monitor.py, class Incidents, the `complete`
 computation of Monitor.run, and overall).
 */
module Incidents {
  import opened Timeline
  import opened Wrappers

  datatype Status = Pass | Warn | Critical | NotVerified

  datatype CheckResult = CheckResult(key: string, area: string, status: Status, text: string, persist: int)

  datatype Incident = Incident(first: Time, count: nat, streak: nat, raised: bool, last: Time, status: Status,
                               text: string, area: string)

  datatype Resolved = Resolved(key: string, text: string, first: Time, cleared: Time, status: Status)

  /** One monitor run: its results, the entity lists it read in full, and its time. */
  datatype MonitorRun = MonitorRun(results: seq<CheckResult>, complete: set<string>, now: Time)

  /** An issue to report: what was observed, and the incident behind it. */
  datatype Issue = Issue(shown: CheckResult, inc: Incident)

  predicate Fails(r: CheckResult) {
    r.status.Warn? || r.status.Critical?
  }

  // ----- One run, key by key -----

  /** What a run says about one key. */
  datatype Observation = Failed(r: CheckResult) | Cleared | Unknown

  /** The failing result of a key; the last one wins. */
  function FailureOf(results: seq<CheckResult>, key: string): Option<CheckResult> {
    if results == [] then None
    else
      var r := results[|results| - 1];
      if r.key == key && Fails(r) then Some(r) else FailureOf(results[..|results| - 1], key)
  }

  predicate Listed(results: seq<CheckResult>, key: string) {
    exists r | r in results :: r.key == key && !r.status.NotVerified?
  }

  predicate Covered(complete: set<string>, key: string) {
    exists f | f in complete :: f <= key
  }

  function Observe(run: MonitorRun, key: string): Observation {
    if FailureOf(run.results, key).Some? then Failed(FailureOf(run.results, key).value)
    else if Listed(run.results, key) || Covered(run.complete, key) then Cleared
    else Unknown
  }

  function Fail(inc: Option<Incident>, r: CheckResult, now: Time): Incident {
    var old_ := if inc.Some? then inc.value else Incident(now, 0, 0, false, now, r.status, r.text, r.area);
    Incident(old_.first, old_.count + 1, old_.streak + 1, old_.raised || old_.streak + 1 >= r.persist, now, r.status,
             r.text, r.area)
  }

  function Next(inc: Option<Incident>, run: MonitorRun, key: string): Option<Incident> {
    match Observe(run, key)
    case Failed(r) => Some(Fail(inc, r, run.now))
    case Cleared => None
    case Unknown => inc
  }

  /** The issue a key contributes: failing long enough, or raised earlier and not evaluated now. */
  function IssueOf(inc: Option<Incident>, run: MonitorRun, key: string): Option<Issue> {
    match Observe(run, key)
    case Failed(r) => var i := Fail(inc, r, run.now); if i.streak >= r.persist then Some(Issue(r, i)) else None
    case Cleared => None
    case Unknown => if inc.Some? && inc.value.raised then Some(Issue(Carried(key, inc.value), inc.value)) else None
  }

  function Carried(key: string, inc: Incident): CheckResult {
    CheckResult(key, inc.area, inc.status, inc.text + "; last checked " + HourMinute(inc.last), 1)
  }

  predicate Recovers(inc: Option<Incident>, run: MonitorRun, key: string) {
    Observe(run, key).Cleared? && inc.Some? && inc.value.raised
  }

  function Lookup<V>(m: map<string, V>, key: string): Option<V> {
    if key in m then Some(m[key]) else None
  }

  // ----- The operation -----

  /** `del hist[:-50]`. */
  function LastFifty(h: seq<Resolved>): (r: seq<Resolved>)
    ensures |r| == (if |h| < 50 then |h| else 50) && h == h[..|h| - |r|] + r
  {
    if |h| <= 50 then h else h[|h| - 50..]
  }

  function HistoryKeys(added: seq<Resolved>): set<string> {
    if added == [] then {} else HistoryKeys(added[..|added| - 1]) + {added[|added| - 1].key}
  }

  /** One history entry for each recovered incident, with its own text, status and times. */
  ghost predicate Records(added: seq<Resolved>, recovered: map<string, Incident>, now: Time) {
    && |added| == |recovered|
    && HistoryKeys(added) == recovered.Keys
    && (forall i | 0 <= i < |added| ::
          && added[i].key in recovered
          && var inc := recovered[added[i].key];
             added[i] == Resolved(added[i].key, inc.text, inc.first, now, inc.status))
  }

  lemma RecordOne(added: seq<Resolved>, recovered: map<string, Incident>, now: Time, key: string, inc: Incident)
    requires Records(added, recovered, now) && key !in recovered
    ensures Records(added + [Resolved(key, inc.text, inc.first, now, inc.status)], recovered[key := inc], now)
  {
    var added' := added + [Resolved(key, inc.text, inc.first, now, inc.status)];
    var recovered' := recovered[key := inc];
    assert recovered'.Keys == recovered.Keys + {key};
    assert added'[..|added|] == added;
  }

  class IncidentStore {
    var st: map<string, Incident>
    var hist: seq<Resolved>

    constructor (incidents: map<string, Incident>, resolved: seq<Resolved>)
      ensures st == incidents && hist == resolved
    {
      st, hist := incidents, resolved;
    }

    /**
     Every key moves by its own observation only. An issue is reported once per key, a recovery exactly for the raised
     incidents that are closed, and the history gains one entry for each of those.
     */
    method Apply(run: MonitorRun)
      returns (active: map<string, Issue>, recovered: map<string, Incident>, ghost added: seq<Resolved>)
      modifies this
      ensures forall key :: Lookup(st, key) == Next(Lookup(old(st), key), run, key)
      ensures forall key :: Lookup(active, key) == IssueOf(Lookup(old(st), key), run, key)
      ensures forall key :: key in recovered <==> Recovers(Lookup(old(st), key), run, key)
      ensures forall key | key in recovered :: key in old(st) && recovered[key] == old(st)[key]
      ensures hist == LastFifty(old(hist) + added) && Records(added, recovered, run.now)
    {
      var failing := Failing(run.results);
      var evaluated := Evaluated(run, st.Keys);
      ghost var before := st;
      active := ApplyFailures(run, failing);
      active := Carry(failing, evaluated, active);
      recovered, added := Close(run.now, failing, evaluated);
      hist := LastFifty(hist);
      forall key
        ensures Lookup(st, key) == Next(Lookup(before, key), run, key)
        ensures Lookup(active, key) == IssueOf(Lookup(before, key), run, key)
        ensures key in recovered <==> Recovers(Lookup(before, key), run, key)
      {
        assert key in failing <==> FailureOf(run.results, key).Some?;
        assert key in before ==> (key in evaluated <==> Listed(run.results, key) || Covered(run.complete, key));
      }
    }

    /** The streak of every failing key grows; it is raised when the streak is long enough. */
    method ApplyFailures(run: MonitorRun, failing: map<string, CheckResult>) returns (active: map<string, Issue>)
      modifies this
      ensures hist == old(hist)
      ensures st.Keys == old(st).Keys + failing.Keys
      ensures forall key | key in st ::
                st[key] == if key in failing then Fail(Lookup(old(st), key), failing[key], run.now) else old(st)[key]
      ensures forall key :: key in active <==> key in failing && st[key].streak >= failing[key].persist
      ensures forall key | key in active :: active[key] == Issue(failing[key], st[key])
    {
      active := map[];
      var todo := failing.Keys;
      while todo != {}
        invariant todo <= failing.Keys && hist == old(hist)
        invariant st.Keys == old(st).Keys + (failing.Keys - todo)
        invariant forall key | key in st ::
                    st[key] == if key in failing.Keys - todo then Fail(Lookup(old(st), key), failing[key], run.now)
                               else old(st)[key]
        invariant forall key :: key in active <==> key in failing.Keys - todo && st[key].streak >= failing[key].persist
        invariant forall key | key in active :: active[key] == Issue(failing[key], st[key])
        decreases todo
      {
        var key :| key in todo;
        var issue := FailOne(key, failing[key], run.now);
        if issue.Some? {
          active := active[key := issue.value];
        }
        todo := todo - {key};
      }
    }

    method FailOne(key: string, r: CheckResult, now: Time) returns (issue: Option<Issue>)
      modifies this
      ensures hist == old(hist) && st == old(st)[key := Fail(Lookup(old(st), key), r, now)]
      ensures issue == if st[key].streak >= r.persist then Some(Issue(r, st[key])) else None
    {
      var inc := if key in st then st[key] else Incident(now, 0, 0, false, now, r.status, r.text, r.area);
      inc := inc.(streak := inc.streak + 1, count := inc.count + 1);
      inc := inc.(last := now, status := r.status, text := r.text, area := r.area);
      issue := None;
      if inc.streak >= r.persist {
        inc := inc.(raised := true);
        issue := Some(Issue(r, inc));
      }
      st := st[key := inc];
    }

    /** Raised incidents that this run neither failed nor evaluated are carried. */
    method Carry(failing: map<string, CheckResult>, evaluated: set<string>, active0: map<string, Issue>)
      returns (active: map<string, Issue>)
      requires forall key | key in active0 :: key in failing
      ensures forall key :: key in active <==>
                key in active0 || (key in st && key !in failing && key !in evaluated && st[key].raised)
      ensures forall key | key in active ::
                active[key] == if key in active0 then active0[key] else Issue(Carried(key, st[key]), st[key])
    {
      active := active0;
      var todo := st.Keys;
      while todo != {}
        invariant todo <= st.Keys
        invariant forall key :: key in active <==>
                    key in active0 || (key in st.Keys - todo && key !in failing && key !in evaluated && st[key].raised)
        invariant forall key | key in active ::
                    active[key] == if key in active0 then active0[key] else Issue(Carried(key, st[key]), st[key])
        decreases todo
      {
        var key :| key in todo;
        if key !in failing && key !in evaluated && st[key].raised {
          active := active[key := Issue(Carried(key, st[key]), st[key])];
        }
        todo := todo - {key};
      }
    }

    /** Incidents evaluated without failing are removed; the raised ones among them are reported and remembered. */
    method Close(now: Time, failing: map<string, CheckResult>, evaluated: set<string>)
      returns (recovered: map<string, Incident>, ghost added: seq<Resolved>)
      modifies this
      ensures forall key :: key in st <==> key in old(st) && (key in failing || key !in evaluated)
      ensures forall key | key in st :: st[key] == old(st)[key]
      ensures forall key :: key in recovered <==>
                key in old(st) && key !in failing && key in evaluated && old(st)[key].raised
      ensures forall key | key in recovered :: recovered[key] == old(st)[key]
      ensures hist == old(hist) + added && Records(added, recovered, now)
    {
      recovered, added := map[], [];
      ghost var st0 := st;
      var todo := st.Keys;
      while todo != {}
        invariant todo <= st0.Keys
        invariant forall key :: key in st <==> key in st0 && (key in todo || key in failing || key !in evaluated)
        invariant forall key | key in st :: st[key] == st0[key]
        invariant forall key :: key in recovered <==>
                    key in st0 && key !in todo && key !in failing && key in evaluated && st0[key].raised
        invariant forall key | key in recovered :: recovered[key] == st0[key]
        invariant hist == old(hist) + added && Records(added, recovered, now)
        decreases todo
      {
        var key :| key in todo;
        todo := todo - {key};
        if key !in failing && key in evaluated {
          recovered, added := CloseOne(key, now, recovered, added);
        }
      }
    }

    method CloseOne(key: string, now: Time, recovered0: map<string, Incident>, ghost added0: seq<Resolved>)
      returns (recovered: map<string, Incident>, ghost added: seq<Resolved>)
      requires key in st && key !in recovered0 && Records(added0, recovered0, now)
      modifies this
      ensures st == old(st) - {key}
      ensures recovered == if old(st)[key].raised then recovered0[key := old(st)[key]] else recovered0
      ensures Records(added, recovered, now)
      ensures forall h :: old(hist) == h + added0 ==> hist == h + added
    {
      recovered, added := recovered0, added0;
      var inc := st[key];
      st := st - {key};
      if inc.raised {
        var h := Resolved(key, inc.text, inc.first, now, inc.status);
        RecordOne(added, recovered, now, key, inc);
        recovered := recovered[key := inc];
        hist := hist + [h];
        added := added + [h];
      }
    }
  }

  /** The dictionary of failing results. */
  method Failing(results: seq<CheckResult>) returns (m: map<string, CheckResult>)
    ensures forall key :: Lookup(m, key) == FailureOf(results, key)
  {
    m := map[];
    for i := 0 to |results|
      invariant forall key :: Lookup(m, key) == FailureOf(results[..i], key)
    {
      assert results[..i + 1][..i] == results[..i];
      if Fails(results[i]) {
        m := m[results[i].key := results[i]];
      }
    }
    assert results[..|results|] == results;
  }

  /** Keys with a verified result, and known keys that fall under a list read in full. */
  method Evaluated(run: MonitorRun, known: set<string>) returns (s: set<string>)
    ensures forall key | key in known :: key in s <==> Listed(run.results, key) || Covered(run.complete, key)
  {
    s := set r | r in run.results && !r.status.NotVerified? :: r.key;
    s := s + set key | key in known && Covered(run.complete, key);
  }
}
