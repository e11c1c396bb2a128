/**
 Repeating an interrupted Install (license/store.go:183-241), and the permanence of revocations
 (license/store.go:98-115, 284-304).
 */
module CrashRecovery {
  import opened TwoSlotFile
  import opened Licence
  import opened Timeline
  import opened Wrappers
  import opened StoreSpec
  import opened StoreRuns
  import opened RollbackGuard

  // ----- Retrying an Install -----

  /** Attempts with the same bytes and clock, each with its own faults or crash point. */
  function Attempts(v: Verifier, d: Disk, c: Call, scripts: seq<seq<Fate>>): Disk
    decreases scripts
  {
    if scripts == [] then d else Attempts(v, RunCall(v, d, c, scripts[0]).0, c, scripts[1..])
  }

  /** The state a complete Install leaves. */
  ghost function Target(v: Verifier, d: Disk, c: Call): StoreState
    requires Accepts(v, d, c)
  {
    var (payload, doc) := v.Verify(c.raw).value;
    StateAfterInstall(doc, v.fingerprint(payload), ReadState(d).value, c.now)
  }

  /** A second Install of the same licence is accepted over its own result and changes nothing in it. */
  lemma InstallIsIdempotent(doc: Document, fpr: string, st: StoreState, now: Time)
    requires !VersionRefused(doc, fpr, st)
    ensures var st' := StateAfterInstall(doc, fpr, st, now);
            && !VersionRefused(doc, fpr, st') && !IssuedAtRefused(doc, st')
            && StateAfterInstall(doc, fpr, st', now) == st'
  {
  }

  /** One more attempt, interrupted anywhere, keeps the Install acceptable with the same target. */
  lemma AttemptKeepsTarget(v: Verifier, d: Disk, c: Call, script: seq<Fate>)
    requires Accepts(v, d, c)
    ensures var d' := RunCall(v, d, c, script).0;
            Accepts(v, d', c) && Target(v, d', c) == Target(v, d, c) && d'.revoked == d.revoked
    ensures var out := RunCall(v, d, c, script);
            out.1 == Some(DecisionOf(v, d, c).done) ==>
              out.0.current.main == Content(c.raw) && out.0.state.main == Content(Target(v, d, c))
  {
    CallEffect(v, d, c, script);
    var (payload, doc) := v.Verify(c.raw).value;
    InstallIsIdempotent(doc, v.fingerprint(payload), ReadState(d).value, c.now);
  }

  /** A script long enough for every write to succeed. */
  ghost predicate FaultFree(script: seq<Fate>) {
    |script| >= 4 && forall i | 0 <= i < |script| :: script[i].Done?
  }

  lemma {:induction false} FaultFreeSucceeds(d: Disk, ws: seq<Write>, script: seq<Fate>, done: Reply, fail: Reply)
    requires |ws| <= |script| && forall i | 0 <= i < |script| :: script[i].Done?
    ensures RunWrites(d, ws, script, done, fail).1 == Some(done)
    decreases ws
  {
    if ws != [] {
      FaultFreeSucceeds(Apply(d, ws[0]), ws[1..], script[1..], done, fail);
    }
  }

  lemma FourWritesAtMost(v: Verifier, d: Disk, c: Call)
    ensures |Expand(d, DecisionOf(v, d, c).puts)| <= 4
  {
    var puts := DecisionOf(v, d, c).puts;
    if |puts| == 2 {
      var d1 := ApplyAll(d, Durable(d, puts[0]));
      assert Expand(d1, puts[1..]) == Durable(d1, puts[1]) + [];
    }
  }

  /** An uninterrupted attempt reaches the target. */
  lemma CleanAttempt(v: Verifier, d: Disk, c: Call, last: seq<Fate>)
    requires Accepts(v, d, c) && FaultFree(last)
    ensures var out := RunCall(v, d, c, last);
            && out.1 == Some(Installed(v.Verify(c.raw).value.1))
            && out.0.current.main == Content(c.raw)
            && out.0.state.main == Content(Target(v, d, c))
            && out.0.revoked == d.revoked
  {
    var dec := DecisionOf(v, d, c);
    FourWritesAtMost(v, d, c);
    FaultFreeSucceeds(d, Expand(d, dec.puts), last, dec.done, dec.fail);
    AttemptKeepsTarget(v, d, c, last);
  }

  lemma {:induction false} AttemptsKeepTarget(v: Verifier, d: Disk, c: Call, scripts: seq<seq<Fate>>)
    requires Accepts(v, d, c)
    ensures var d' := Attempts(v, d, c, scripts);
            Accepts(v, d', c) && Target(v, d', c) == Target(v, d, c) && d'.revoked == d.revoked
    decreases scripts
  {
    if scripts != [] {
      AttemptKeepsTarget(v, d, c, scripts[0]);
      AttemptsKeepTarget(v, RunCall(v, d, c, scripts[0]).0, c, scripts[1..]);
    }
  }

  /**
   Crash recovery converges. On any disk that accepts an Install, however often and wherever it is interrupted,
   a final uninterrupted attempt succeeds and leaves the same current.json and state.json as one attempt alone.
   */
  lemma RetriesConverge(v: Verifier, d: Disk, c: Call, scripts: seq<seq<Fate>>, last: seq<Fate>)
    requires Accepts(v, d, c) && FaultFree(last)
    ensures var once, retried := RunCall(v, d, c, last), RunCall(v, Attempts(v, d, c, scripts), c, last);
            && once.1 == retried.1 == Some(Installed(v.Verify(c.raw).value.1))
            && once.0.current.main == retried.0.current.main == Content(c.raw)
            && once.0.state.main == retried.0.state.main
            && once.0.revoked == retried.0.revoked
  {
    AttemptsKeepTarget(v, d, c, scripts);
    CleanAttempt(v, d, c, last);
    CleanAttempt(v, Attempts(v, d, c, scripts), c, last);
  }

  // ----- Revocation -----

  /** revoked.json is whole, or the store has never written it. */
  ghost predicate RevokedIntact(d: Disk) {
    d.revoked.main.Content? || d.revoked == Fresh()
  }

  ghost function RevokedIds(d: Disk): set<string> {
    if d.revoked.main.Content? then d.revoked.main.value else {}
  }

  lemma RevokedEffect(v: Verifier, d: Disk, c: Call, script: seq<Fate>)
    requires RevokedIntact(d)
    ensures var d' := RunCall(v, d, c, script).0;
            && RevokedIntact(d')
            && (RevokedIds(d') == RevokedIds(d) || (c.AddRevocation? && RevokedIds(d') == RevokedIds(d) + {c.id}))
  {
    CallEffect(v, d, c, script);
  }

  lemma RevokedStep(v: Verifier, d: Disk, e: Event)
    requires RevokedIntact(d) && (e.Damage? ==> e.file != RevokedFile)
    ensures RevokedIntact(Step(v, d, e)) && RevokedIds(d) <= RevokedIds(Step(v, d, e))
  {
    if e.Do? {
      RevokedEffect(v, d, e.call, e.script);
    }
  }

  /** The revoked set only grows, across every crash point and any damage to the other files. */
  lemma {:induction false} RevokedOnlyGrows(v: Verifier, d: Disk, es: seq<Event>)
    requires RevokedIntact(d) && Intact(RevokedFile, es)
    ensures RevokedIntact(Run(v, d, es)) && RevokedIds(d) <= RevokedIds(Run(v, d, es))
    decreases es
  {
    if es != [] {
      TailIntact(RevokedFile, es);
      RevokedStep(v, d, es[0]);
      RevokedOnlyGrows(v, Step(v, d, es[0]), es[1..]);
    }
  }

  lemma RevokedAfterSuccess(v: Verifier, d: Disk, id: string, script: seq<Fate>)
    requires RevokedIntact(d) && RunCall(v, d, AddRevocation(id), script).1 == Some(Stored)
    ensures id in RevokedIds(RunCall(v, d, AddRevocation(id), script).0)
  {
    CallEffect(v, d, AddRevocation(id), script);
  }

  /**
   From an empty directory, after any run that spared state.json and revoked.json: re-importing the accepted versioned
   licence, in any envelope that verifies, succeeds exactly when its id was not revoked.
   */
  lemma ReimportSucceedsIff(v: Verifier, es: seq<Event>, raw: Bytes, now: Time, script: seq<Fate>)
    requires v.Sound() && Intact(StateFile, es) && Intact(RevokedFile, es) && FaultFree(script)
    requires Version(Run(v, EMPTY_DISK, es)) > 0
    requires v.Verify(raw).Some? && Some(v.Verify(raw).value.0) == LastAccepted(v, EMPTY_DISK, es, None)
    ensures var d, doc := Run(v, EMPTY_DISK, es), v.Verify(raw).value.1;
            RunCall(v, d, Install(raw, now), script).1 ==
            Some(if doc.licenseId in RevokedIds(d) then Failed(Rollback) else Installed(doc))
  {
    var d := Run(v, EMPTY_DISK, es);
    StateTracksTheAcceptedLicence(v, EMPTY_DISK, es, None);
    RevokedOnlyGrows(v, EMPTY_DISK, es);
    IntactStateIsRead(d);
    ReimportIsAccepted(v, d, LastAccepted(v, EMPTY_DISK, es, None), raw, now);
    if v.Verify(raw).value.1.licenseId !in RevokedIds(d) {
      CleanAttempt(v, d, Install(raw, now), script);
    }
  }

  /**
   Once AddRevocation(id) reported success, in every later run that spares revoked.json no Install of that id
   gets past its guards, and every Evaluate that answers for a document with that id answers Revoked.
   */
  lemma RevocationIsPermanent(v: Verifier, d: Disk, id: string, script: seq<Fate>, es: seq<Event>, later: Call,
                              laterScript: seq<Fate>)
    requires RevokedIntact(d) && Intact(RevokedFile, es)
    requires RunCall(v, d, AddRevocation(id), script).1 == Some(Stored)
    ensures var d' := Run(v, RunCall(v, d, AddRevocation(id), script).0, es);
            var r := RunCall(v, d', later, laterScript);
            && (later.Install? && v.Verify(later.raw).Some? && v.Verify(later.raw).value.1.licenseId == id ==>
                  r.0 == d' && r.1.Some? && r.1.value.Failed?)
            && (later.EvaluateLoaded? && later.doc.licenseId == id && r.1.Some? && r.1.value.Evaluated? ==>
                  r.1.value.ev.state.Revoked?)
  {
    var d1 := RunCall(v, d, AddRevocation(id), script).0;
    RevokedAfterSuccess(v, d, id, script);
    RevokedEffect(v, d, AddRevocation(id), script);
    RevokedOnlyGrows(v, d1, es);
    var d' := Run(v, d1, es);
    var dec := DecisionOf(v, d', later);
    RepliesOnlyDoneOrFail(d', Expand(d', dec.puts), laterScript, dec.done, dec.fail);
  }
}
