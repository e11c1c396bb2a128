/**
 The clock high-water mark over whole runs (license/store.go:166-172, 243-281, 360-390): what it equals, when a
 clock rollback is reported, and why an expired licence stays expired.
 */
module ClockGuard {
  import opened Licence
  import opened Timeline
  import opened StoreSpec
  import opened StoreRuns
  import opened RollbackGuard

  ghost function HighWater(d: Disk): Time {
    MainState(d).highWater
  }

  /** A call that got past every check, and whose state.json, if it writes one, took effect. */
  ghost predicate Persisted(v: Verifier, d: Disk, e: Event) {
    && e.Do? && !DecisionOf(v, d, e.call).done.Failed?
    && (StatePut(DecisionOf(v, d, e.call)).Some? ==> StateReplaced(v, d, e.call, e.script))
  }

  /** History of the run: the last Central time the mark was reset to, and every clock value persisted since. */
  ghost function MarksStep(v: Verifier, d: Disk, e: Event, marks: seq<Time>): seq<Time> {
    if !Persisted(v, d, e) then marks
    else match e.call
      case ResetHighWater(central, _, _) => [central]
      case AddRevocation(_) => marks
      case Install(_, now) => marks + [now]
      case MarkCloudValidated(now) => marks + [now]
      case EvaluateLoaded(_, now) => marks + [now]
  }

  ghost function Marks(v: Verifier, d: Disk, es: seq<Event>, marks: seq<Time>): seq<Time>
    decreases es
  {
    if es == [] then marks else Marks(v, Step(v, d, es[0]), es[1..], MarksStep(v, d, es[0], marks))
  }

  ghost predicate IsMaximum(t: Time, marks: seq<Time>) {
    t in marks && forall m | m in marks :: m <= t
  }

  /** The mark after a call: moved by a persisted clock value or reset, untouched otherwise. */
  lemma PersistedMark(v: Verifier, d: Disk, c: Call, script: seq<Fate>)
    requires StateIntact(d)
    ensures var m, m' := HighWater(d), HighWater(RunCall(v, d, c, script).0);
            m' == if !Persisted(v, d, Do(c, script)) || c.AddRevocation? then m
                  else if c.ResetHighWater? then c.central
                  else if c.now > m then c.now else m
  {
    StateEffect(v, d, c, script);
    IntactStateIsRead(d);
  }

  lemma MarkStep(v: Verifier, d: Disk, e: Event, marks: seq<Time>)
    requires StateIntact(d) && IsMaximum(HighWater(d), marks)
    requires e.Damage? ==> e.file != StateFile
    ensures IsMaximum(HighWater(Step(v, d, e)), MarksStep(v, d, e, marks))
  {
    if e.Do? {
      PersistedMark(v, d, e.call, e.script);
    }
  }

  /** The mark on disk is always the maximum of that history, in every run that spares state.json. */
  lemma {:induction false} MarkIsTheMaximum(v: Verifier, d: Disk, es: seq<Event>, marks: seq<Time>)
    requires StateIntact(d) && Intact(StateFile, es) && IsMaximum(HighWater(d), marks)
    ensures StateIntact(Run(v, d, es))
    ensures IsMaximum(HighWater(Run(v, d, es)), Marks(v, d, es, marks))
    decreases es
  {
    if es != [] {
      TailIntact(StateFile, es);
      VersionStep(v, d, es[0]);
      MarkStep(v, d, es[0], marks);
      MarkIsTheMaximum(v, Step(v, d, es[0]), es[1..], MarksStep(v, d, es[0], marks));
    }
  }

  /** What a successful answer says about the history. */
  lemma SuccessIsPersisted(v: Verifier, d: Disk, e: Event)
    requires e.Do? && !e.call.EvaluateLoaded?
    requires RunCall(v, d, e.call, e.script).1.Some? && !RunCall(v, d, e.call, e.script).1.value.Failed?
    ensures Persisted(v, d, e)
  {
    CallEffect(v, d, e.call, e.script);
    var dec := DecisionOf(v, d, e.call);
    RepliesOnlyDoneOrFail(d, Expand(d, dec.puts), e.script, dec.done, dec.fail);
  }

  /** The answer of an evaluation on a disk with an intact state. */
  lemma EvaluationReply(v: Verifier, d: Disk, c: Call, script: seq<Fate>)
    requires StateIntact(d) && c.EvaluateLoaded?
    requires RunCall(v, d, c, script).1.Some? && RunCall(v, d, c, script).1.value.Evaluated?
    ensures ReadRevoked(d).Found?
    ensures RunCall(v, d, c, script).1.value.ev == EvaluationOf(c.doc, c.now, MainState(d), ReadRevoked(d).value)
  {
    var dec := DecisionOf(v, d, c);
    RepliesOnlyDoneOrFail(d, Expand(d, dec.puts), script, dec.done, dec.fail);
    IntactStateIsRead(d);
  }

  /**
   From an empty directory, an evaluation reports a rolled-back clock exactly when some value of the history lies
   more than 48 hours ahead of the clock it was given. Then it evaluates at the greatest value of the history, otherwise
   at that clock.
   */
  lemma RollbackReportedIff(v: Verifier, es: seq<Event>, c: Call, script: seq<Fate>)
    requires Intact(StateFile, es) && c.EvaluateLoaded?
    ensures var d := Run(v, EMPTY_DISK, es);
            var r := RunCall(v, d, c, script).1;
            r.Some? && r.value.Evaluated? && !ReadRevoked(d).Damaged? ==>
              && (r.value.ev.clockRollback <==>
                    exists m :: m in Marks(v, EMPTY_DISK, es, [0]) && m > c.now + 2 * DAY)
              && (r.value.ev.clockRollback ==>
                    exists m | IsMaximum(m, Marks(v, EMPTY_DISK, es, [0])) ::
                      r.value.ev.state == StateAt(c.doc, m, c.doc.licenseId in ReadRevoked(d).value))
              && (!r.value.ev.clockRollback ==>
                    r.value.ev.state == StateAt(c.doc, c.now, c.doc.licenseId in ReadRevoked(d).value))
  {
    MarkIsTheMaximum(v, EMPTY_DISK, es, [0]);
    var d := Run(v, EMPTY_DISK, es);
    var r := RunCall(v, d, c, script).1;
    if r.Some? && r.value.Evaluated? {
      EvaluationReply(v, d, c, script);
      assert r.value.ev.clockRollback <==> HighWater(d) > c.now + ROLLBACK_TOLERANCE;
      assert HighWater(d) in Marks(v, EMPTY_DISK, es, [0]);
    }
  }

  // ----- Reset -----

  /** When a reset passes its checks, for every skew the type allows. */
  lemma ResetAllowedIff(v: Verifier, central: Time, localNow: Time, skew: int)
    requires Fits64(skew)
    ensures PreCheck(v, ResetHighWater(central, localNow, skew)).None? <==>
            && central != 0
            && (if skew == MAX64 then localNow - central >= -MAX64
                else if skew >= 0 then -skew <= localNow - central <= skew
                else skew == MIN64 && localNow - central <= MIN64)
  {
  }

  ghost predicate ClockAtMost(c: Call, bound: Time) {
    match c
    case Install(_, now) => now <= bound
    case ResetHighWater(central, _, _) => central <= bound
    case MarkCloudValidated(now) => now <= bound
    case AddRevocation(_) => true
    case EvaluateLoaded(_, now) => now <= bound
  }

  /** What one event does to the mark. */
  lemma MarkMoves(v: Verifier, d: Disk, e: Event)
    requires StateIntact(d) && (e.Damage? ==> e.file != StateFile)
    ensures var m := HighWater(Step(v, d, e));
            || m == HighWater(d)
            || (e.Do? && e.call.ResetHighWater? && m == e.call.central)
            || (&& e.Do? && (e.call.Install? || e.call.MarkCloudValidated? || e.call.EvaluateLoaded?)
                && m == e.call.now > HighWater(d))
  {
    if e.Do? {
      PersistedMark(v, d, e.call, e.script);
    }
  }

  lemma {:induction false} MarkStaysBelow(v: Verifier, d: Disk, es: seq<Event>, bound: Time)
    requires StateIntact(d) && Intact(StateFile, es) && HighWater(d) <= bound
    requires forall e | e in es :: e.Do? ==> ClockAtMost(e.call, bound)
    ensures StateIntact(Run(v, d, es)) && HighWater(Run(v, d, es)) <= bound
    decreases es
  {
    if es != [] {
      TailIntact(StateFile, es);
      assert es[0] in es && forall e | e in es[1..] :: e in es;
      VersionStep(v, d, es[0]);
      MarkMoves(v, d, es[0]);
      MarkStaysBelow(v, Step(v, d, es[0]), es[1..], bound);
    }
  }

  /**
   After a successful reset with a skew between 0 and 48 hours, an evaluation not before the reset's local clock uses
   its own clock and reports no rollback, as long as no call in between saw a clock more than 48 hours ahead of it.
   */
  lemma ResetRestoresTheClock(v: Verifier, d: Disk, reset: Call, script: seq<Fate>, es: seq<Event>, c: Call,
                              evalScript: seq<Fate>)
    requires StateIntact(d) && Intact(StateFile, es) && reset.ResetHighWater? && c.EvaluateLoaded?
    requires 0 <= reset.skew <= ROLLBACK_TOLERANCE
    requires RunCall(v, d, reset, script).1.Some? && RunCall(v, d, reset, script).1.value.Reset?
    requires c.now >= reset.localNow
    requires forall e | e in es :: e.Do? ==> ClockAtMost(e.call, c.now + ROLLBACK_TOLERANCE)
    ensures RunCall(v, d, reset, script).1.value.oldMark == HighWater(d)
    ensures var d' := Run(v, RunCall(v, d, reset, script).0, es);
            var r := RunCall(v, d', c, evalScript).1;
            r.Some? && r.value.Evaluated? && !ReadRevoked(d').Damaged? ==>
              && !r.value.ev.clockRollback
              && r.value.ev.state == StateAt(c.doc, c.now, c.doc.licenseId in ReadRevoked(d').value)
  {
    ResetAllowedIff(v, reset.central, reset.localNow, reset.skew);
    IntactStateIsRead(d);
    VersionStep(v, d, Do(reset, script));
    PersistedMark(v, d, reset, script);
    SuccessIsPersisted(v, d, Do(reset, script));
    var dec := DecisionOf(v, d, reset);
    RepliesOnlyDoneOrFail(d, Expand(d, dec.puts), script, dec.done, dec.fail);
    var d1 := RunCall(v, d, reset, script).0;
    MarkStaysBelow(v, d1, es, c.now + ROLLBACK_TOLERANCE);
    var d' := Run(v, d1, es);
    var r := RunCall(v, d', c, evalScript).1;
    if r.Some? && r.value.Evaluated? {
      EvaluationReply(v, d', c, evalScript);
    }
  }

  // ----- Sticky expiry -----

  ghost predicate NoReset(es: seq<Event>) {
    forall e | e in es :: e.Do? ==> !e.call.ResetHighWater?
  }

  /** Without a reset the mark never goes back, across every crash point. */
  lemma {:induction false} MarkNeverDecreases(v: Verifier, d: Disk, es: seq<Event>)
    requires StateIntact(d) && Intact(StateFile, es) && NoReset(es)
    ensures StateIntact(Run(v, d, es)) && HighWater(d) <= HighWater(Run(v, d, es))
    decreases es
  {
    if es != [] {
      TailIntact(StateFile, es);
      assert es[0] in es && forall e | e in es[1..] :: e in es;
      VersionStep(v, d, es[0]);
      MarkMoves(v, d, es[0]);
      MarkNeverDecreases(v, Step(v, d, es[0]), es[1..]);
    }
  }

  /**
   A licence is refused at every clock value exactly when the mark lies more than 48 hours past the end of its
   restricted period. The 48 hours are the tolerance that still lets a clock step back.
   */
  lemma RefusedAtEveryClockIff(doc: Document, st: StoreState, revoked: set<string>)
    requires Valid(doc) && doc.status.DocActive? && doc.licenseId !in revoked
    ensures (forall now :: !AllowsNewSessions(EvaluationOf(doc, now, st, revoked).state)) <==>
            st.highWater > RestrictedUntil(doc) + ROLLBACK_TOLERANCE
  {
    GraceArithmeticIsExact(doc);
    if st.highWater <= RestrictedUntil(doc) + ROLLBACK_TOLERANCE {
      assert AllowsNewSessions(EvaluationOf(doc, RestrictedUntil(doc), st, revoked).state);
    }
  }

  /** An evaluation whose writes succeed leaves a mark of at least its clock. */
  lemma EvaluationPersistsItsClock(v: Verifier, d: Disk, c: Call, script: seq<Fate>)
    requires StateIntact(d) && c.EvaluateLoaded? && Succeeded(script, 2)
    requires !ReadRevoked(d).Damaged?
    ensures var d' := RunCall(v, d, c, script).0; StateIntact(d') && HighWater(d') >= c.now
  {
    IntactStateIsRead(d);
    VersionStep(v, d, Do(c, script));
    PersistedMark(v, d, c, script);
  }

  /**
   Expiry is sticky. Once an evaluation has persisted a clock more than 48 hours past a licence's restricted period,
   every later evaluation of that licence, at any clock value and after any crashes, refuses new sessions
   until the mark is reset. This holds across later installs too.
   */
  lemma ExpiryIsSticky(v: Verifier, d: Disk, first: Call, firstScript: seq<Fate>, es: seq<Event>, c: Call,
                       script: seq<Fate>)
    requires StateIntact(d) && !ReadRevoked(d).Damaged?
    requires first.EvaluateLoaded? && Succeeded(firstScript, 2)
    requires Intact(StateFile, es) && NoReset(es)
    requires c.EvaluateLoaded? && Valid(c.doc) && first.now > RestrictedUntil(c.doc) + ROLLBACK_TOLERANCE
    ensures var r := RunCall(v, Run(v, RunCall(v, d, first, firstScript).0, es), c, script).1;
            r.Some? && r.value.Evaluated? ==> !AllowsNewSessions(r.value.ev.state)
  {
    EvaluationPersistsItsClock(v, d, first, firstScript);
    var d1 := RunCall(v, d, first, firstScript).0;
    MarkNeverDecreases(v, d1, es);
    var d' := Run(v, d1, es);
    var r := RunCall(v, d', c, script).1;
    if r.Some? && r.value.Evaluated? {
      EvaluationReply(v, d', c, script);
      HighMarkRefuses(c.doc, c.now, MainState(d'), ReadRevoked(d').value);
    }
  }

  lemma HighMarkRefuses(doc: Document, now: Time, st: StoreState, revoked: set<string>)
    requires Valid(doc) && st.highWater > RestrictedUntil(doc) + ROLLBACK_TOLERANCE
    ensures !AllowsNewSessions(EvaluationOf(doc, now, st, revoked).state)
  {
    GraceArithmeticIsExact(doc);
  }
}
