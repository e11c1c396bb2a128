/**
 What each call answers (license/store.go), in terms of the run so far: the licences accepted, the ids revoked, the
 clock values persisted and the last contact with the cloud. And what it answers when a write fails or a file is
 damaged.
 */
module CallReplies {
  import opened TwoSlotFile
  import opened Licence
  import opened Timeline
  import opened Wrappers
  import opened StoreSpec
  import opened StoreRuns
  import opened RollbackGuard
  import opened CrashRecovery
  import opened ClockGuard
  import opened UnlockedLoad

  // ----- Only signed licences -----

  /** An authentic envelope around this payload, which is a valid document. */
  ghost predicate Signed(v: Verifier, raw: Bytes, payload: string, doc: Document) {
    && v.decode(raw).Some? && v.authentic(v.decode(raw).value) && v.decode(raw).value.payload == payload
    && v.parse(payload) == Some(doc) && Valid(doc)
  }

  lemma VerifiedIffSigned(v: Verifier, raw: Bytes)
    ensures forall payload, doc :: v.Verify(raw) == Some((payload, doc)) <==> Signed(v, raw, payload, doc)
    ensures v.Verify(raw).Some? ==> Signed(v, raw, v.Verify(raw).value.0, v.Verify(raw).value.1)
  {
  }

  /** A copy of current.json that holds this document under an authentic signature. */
  ghost predicate Holds(v: Verifier, f: File<Bytes>, doc: Document) {
    f.Content? && exists payload :: Signed(v, f.value, payload, doc)
  }

  /**
   On any disk, however it came about: Load returns a document that one of the two copies holds signed, the main one if
   it holds any, and not superseded by a state it could read. It reports a missing licence exactly when neither copy
   exists, and damage otherwise.
   */
  lemma LoadFailsClosed(v: Verifier, d: Disk)
    ensures var r := Load(v, d);
            && (r.Loaded? ==> Holds(v, d.current.main, r.doc) ||
                              (Holds(v, d.current.prev, r.doc) && forall doc :: !Holds(v, d.current.main, doc)))
            && (r.Loaded? ==> ReadState(d).Found? && !Superseded(r.doc, ReadState(d).value))
            && (r == Failed(NoLicense) <==> d.current == Fresh())
            && (r.Loaded? || r == Failed(NoLicense) || r == Failed(StateDamaged))
            && (!ReadState(d).Damaged? ==>
                  forall doc | Holds(v, d.current.main, doc) ::
                    r == if Superseded(doc, ReadState(d).value) then Failed(StateDamaged) else Loaded(doc))
  {
    if d.current.main.Content? {
      VerifiedIffSigned(v, d.current.main.value);
    }
    if d.current.prev.Content? {
      VerifiedIffSigned(v, d.current.prev.value);
    }
  }

  // ----- Install -----

  /** What the licences accepted so far say to the next one: a newer version, the accepted payload, or a later issue. */
  ghost predicate Admits(docs: seq<Document>, acc: Option<string>, payload: string, doc: Document) {
    docs == [] ||
    var last := docs[|docs| - 1];
    if last.licenseVersion > 0 then doc.licenseVersion > last.licenseVersion || Some(payload) == acc
    else doc.licenseVersion > 0 || last.issuedAt == 0 || doc.issuedAt >= last.issuedAt
  }

  /**
   After any run from an empty directory that spared state.json and revoked.json, a clean Install of a signed licence
   succeeds exactly when its id was not revoked and the licences accepted so far admit it: once a versioned licence was
   accepted, a newer version or that very payload; before, any version or an issued_at not before the last one. Then it
   is in current.json and accepted. Otherwise it is refused and changes nothing.
   */
  lemma InstallSucceedsIff(v: Verifier, es: seq<Event>, raw: Bytes, payload: string, doc: Document, now: Time,
                           script: seq<Fate>)
    requires v.Sound() && Intact(StateFile, es) && Intact(RevokedFile, es) && FaultFree(script)
    requires Signed(v, raw, payload, doc)
    ensures var d := Run(v, EMPTY_DISK, es);
            var (d', reply) := RunCall(v, d, Install(raw, now), script);
            if && doc.licenseId !in RevokedBy(v, EMPTY_DISK, es)
               && Admits(Accepted(v, EMPTY_DISK, es), LastAccepted(v, EMPTY_DISK, es, None), payload, doc)
            then reply == Some(Installed(doc)) && d'.current.main == Content(raw)
                 && Accepted(v, EMPTY_DISK, es + [Do(Install(raw, now), script)]) == Accepted(v, EMPTY_DISK, es) + [doc]
            else reply == Some(Failed(Rollback)) && d' == d
  {
    var d, c := Run(v, EMPTY_DISK, es), Install(raw, now);
    VerifiedIffSigned(v, raw);
    StateTracksTheAcceptedLicence(v, EMPTY_DISK, es, None);
    StateDescribesLast(v, EMPTY_DISK, es);
    RevokedAreTheAdded(v, EMPTY_DISK, es);
    AdmittedIsAccepted(v, d, Accepted(v, EMPTY_DISK, es), LastAccepted(v, EMPTY_DISK, es, None), raw, now);
    if Accepts(v, d, c) {
      CleanAttempt(v, d, c, script);
      SuccessMeansAccepted(v, d, c, script);
      AcceptedSnoc(v, EMPTY_DISK, es, Do(c, script));
    }
  }

  lemma AcceptedSnoc(v: Verifier, d: Disk, es: seq<Event>, e: Event)
    ensures Accepted(v, d, es + [e]) == Accepted(v, d, es) + AcceptedBy(v, Run(v, d, es), e)
  {
    assert (es + [e])[..|es|] == es;
  }

  lemma AdmittedIsAccepted(v: Verifier, d: Disk, docs: seq<Document>, acc: Option<string>, raw: Bytes, now: Time)
    requires v.Sound() && Tracks(v, d, acc) && LastDecides(ZERO_STATE, docs, MainState(d)) && RevokedIntact(d)
    requires v.Verify(raw).Some?
    ensures var (payload, doc) := v.Verify(raw).value;
            Accepts(v, d, Install(raw, now)) <==> doc.licenseId !in RevokedIds(d) && Admits(docs, acc, payload, doc)
    ensures !Accepts(v, d, Install(raw, now)) ==> DecisionOf(v, d, Install(raw, now)) == Refuse(Rollback)
  {
    IntactStateIsRead(d);
  }

  /** An unsigned or invalid licence is refused before anything is read, on any disk. */
  lemma UnsignedIsRefused(v: Verifier, d: Disk, raw: Bytes, now: Time, script: seq<Fate>)
    requires forall payload, doc :: !Signed(v, raw, payload, doc)
    ensures RunCall(v, d, Install(raw, now), script) == (d, Some(Failed(InvalidLicence)))
  {
    VerifiedIffSigned(v, raw);
  }

  // ----- Revocation -----

  /** A revocation whose file was replaced. */
  ghost predicate Revoking(v: Verifier, d: Disk, e: Event) {
    e.Do? && e.call.AddRevocation? && RevokedEvent(v, d, e).Put? && RevokedEvent(v, d, e).progress.Replaced?
  }

  /** The ids whose revocation took effect in a run. */
  ghost function RevokedBy(v: Verifier, d: Disk, es: seq<Event>): set<string> {
    if es == [] then {}
    else
      var before, e := es[..|es| - 1], es[|es| - 1];
      RevokedBy(v, d, before) + if Revoking(v, Run(v, d, before), e) then {e.call.id} else {}
  }

  lemma RevokingStep(v: Verifier, d: Disk, e: Event)
    requires RevokedIntact(d) && (e.Damage? ==> e.file != RevokedFile)
    ensures RevokedIntact(Step(v, d, e))
    ensures RevokedIds(Step(v, d, e)) == RevokedIds(d) + if Revoking(v, d, e) then {e.call.id} else {}
  {
    StepByFile(v, d, e);
    if e.Do? {
      OnlyRevocationsRevoke(v, d, e.call);
    }
  }

  lemma OnlyRevocationsRevoke(v: Verifier, d: Disk, c: Call)
    requires RevokedIntact(d)
    ensures forall p | p in DecisionOf(v, d, c).puts ::
              p.PutRevoked? ==> c.AddRevocation? && p.ids == RevokedIds(d) + {c.id}
  {
  }

  /** revoked.json holds exactly those, in every run that spares it. */
  lemma {:induction false} RevokedAreTheAdded(v: Verifier, d: Disk, es: seq<Event>)
    requires RevokedIntact(d) && Intact(RevokedFile, es)
    ensures RevokedIntact(Run(v, d, es)) && RevokedIds(Run(v, d, es)) == RevokedIds(d) + RevokedBy(v, d, es)
    decreases es
  {
    if es != [] {
      var n := |es| - 1;
      assert es[n] in es;
      RunSnoc(v, d, es);
      RevokedAreTheAdded(v, d, es[..n]);
      RevokingStep(v, Run(v, d, es[..n]), es[n]);
    }
  }

  /** A clean revocation succeeds and adds exactly its id; one already there writes nothing. */
  lemma AddRevocationSucceeds(v: Verifier, d: Disk, id: string, script: seq<Fate>)
    requires RevokedIntact(d) && FaultFree(script)
    ensures var (d', reply) := RunCall(v, d, AddRevocation(id), script);
            && reply == Some(Stored) && RevokedIntact(d') && RevokedIds(d') == RevokedIds(d) + {id}
            && (id in RevokedIds(d) ==> d' == d) && d'.current == d.current && d'.state == d.state
  {
    CleanReply(v, d, AddRevocation(id), script);
    CallEffect(v, d, AddRevocation(id), script);
    RevokedEffect(v, d, AddRevocation(id), script);
    RevokedAfterSuccess(v, d, id, script);
  }

  // ----- The cloud -----

  /** The clock of the last cloud validation whose state was written, or what it was before. */
  ghost function ValidatedAt(v: Verifier, d: Disk, es: seq<Event>): Time {
    if es == [] then MainState(d).lastCloudValidation
    else
      var before, e := es[..|es| - 1], es[|es| - 1];
      if e.Do? && e.call.MarkCloudValidated? && StateReplaced(v, Run(v, d, before), e.call, e.script) then e.call.now
      else ValidatedAt(v, d, before)
  }

  lemma ValidationStep(v: Verifier, d: Disk, e: Event)
    requires StateIntact(d) && (e.Damage? ==> e.file != StateFile)
    ensures MainState(Step(v, d, e)).lastCloudValidation ==
            if e.Do? && e.call.MarkCloudValidated? && StateReplaced(v, d, e.call, e.script) then e.call.now
            else MainState(d).lastCloudValidation
  {
    if e.Do? {
      StateEffect(v, d, e.call, e.script);
      IntactStateIsRead(d);
    }
  }

  /** state.json holds that time, in every run that spares it: no other call touches it. */
  lemma {:induction false} LastValidationIsKept(v: Verifier, d: Disk, es: seq<Event>)
    requires StateIntact(d) && Intact(StateFile, es)
    ensures StateIntact(Run(v, d, es)) && MainState(Run(v, d, es)).lastCloudValidation == ValidatedAt(v, d, es)
    decreases es
  {
    if es != [] {
      var n := |es| - 1;
      assert es[n] in es;
      RunSnoc(v, d, es);
      LastValidationIsKept(v, d, es[..n]);
      VersionStep(v, Run(v, d, es[..n]), es[n]);
      ValidationStep(v, Run(v, d, es[..n]), es[n]);
    }
  }

  /** A clean MarkCloudValidated succeeds, sets that time, and moves the mark forward if the clock is past it. */
  lemma MarkCloudValidatedSucceeds(v: Verifier, d: Disk, now: Time, script: seq<Fate>)
    requires StateIntact(d) && FaultFree(script)
    ensures var (d', reply) := RunCall(v, d, MarkCloudValidated(now), script);
            && reply == Some(Stored) && StateIntact(d')
            && MainState(d') == MainState(d).(lastCloudValidation := now,
                                              highWater := if now > HighWater(d) then now else HighWater(d))
            && d'.current == d.current && d'.revoked == d.revoked
  {
    var c := MarkCloudValidated(now);
    IntactStateIsRead(d);
    CleanReply(v, d, c, script);
    CallEffect(v, d, c, script);
    VersionStep(v, d, Do(c, script));
    PersistedMark(v, d, c, script);
  }

  // ----- Reset -----

  /** A reset answers by its checks alone, and a clean one sets the mark to Central's time and returns the old one. */
  lemma ResetSucceedsIff(v: Verifier, d: Disk, central: Time, localNow: Time, skew: int, script: seq<Fate>)
    requires StateIntact(d) && FaultFree(script) && Fits64(skew)
    ensures var (d', reply) := RunCall(v, d, ResetHighWater(central, localNow, skew), script);
            var agree := if skew == MAX64 then localNow - central >= -MAX64
                         else if skew >= 0 then -skew <= localNow - central <= skew
                         else skew == MIN64 && localNow - central <= MIN64;
            if central != 0 && agree
            then reply == Some(Reset(HighWater(d))) && MainState(d') == MainState(d).(highWater := central)
                 && d'.current == d.current && d'.revoked == d.revoked
            else reply == Some(Failed(if central == 0 then NoCentralTime else ClockDisagrees)) && d' == d
  {
    var c := ResetHighWater(central, localNow, skew);
    ResetAllowedIff(v, central, localNow, skew);
    IntactStateIsRead(d);
    CleanReply(v, d, c, script);
    CallEffect(v, d, c, script);
  }

  // ----- Evaluate -----

  /** The clock an evaluation is made at: its own, or the mark if some persisted value is more than 48 hours ahead. */
  ghost predicate UsesClock(marks: seq<Time>, now: Time, clock: Time) {
    if exists m :: m in marks && m > now + 2 * DAY then IsMaximum(clock, marks) else clock == now
  }

  /** The answer at the clock to be used, with that last contact with the cloud. */
  ghost predicate AnswersAt(ev: Evaluation, doc: Document, now: Time, marks: seq<Time>, last: Time, revoked: bool) {
    exists clock | UsesClock(marks, now, clock) ::
      ev == Licence.Evaluate(doc, clock, last, revoked).(clockRollback := clock != now)
  }

  lemma AnswersAtItsClock(doc: Document, now: Time, st: StoreState, revoked: set<string>, marks: seq<Time>)
    requires IsMaximum(st.highWater, marks)
    ensures AnswersAt(EvaluationOf(doc, now, st, revoked), doc, now, marks, st.lastCloudValidation,
                      doc.licenseId in revoked)
  {
    var clock := if st.highWater > now + 2 * DAY then st.highWater else now;
    assert UsesClock(marks, now, clock);
  }

  /**
   After any run from an empty directory that spared state.json and revoked.json, every evaluation that answers: the
   clock it uses, and at that clock the state, the grace dates, the last contact with the cloud and its staleness. A
   failed write of the mark changes nothing in it, and without a newer clock nothing is written.
   */
  lemma EvaluateAnswers(v: Verifier, es: seq<Event>, doc: Document, now: Time, script: seq<Fate>)
    requires Intact(StateFile, es) && Intact(RevokedFile, es)
    ensures var d, marks := Run(v, EMPTY_DISK, es), Marks(v, EMPTY_DISK, es, [0]);
            var (d', reply) := RunCall(v, d, EvaluateLoaded(doc, now), script);
            && (reply.None? ==> |script| < 2)
            && (reply.Some? ==>
                  && reply.value.Evaluated?
                  && AnswersAt(reply.value.ev, doc, now, marks, ValidatedAt(v, EMPTY_DISK, es),
                               doc.licenseId in RevokedBy(v, EMPTY_DISK, es)))
            && ((exists m :: m in marks && m >= now) ==> d' == d)
  {
    var d, c := Run(v, EMPTY_DISK, es), EvaluateLoaded(doc, now);
    var marks := Marks(v, EMPTY_DISK, es, [0]);
    MarkIsTheMaximum(v, EMPTY_DISK, es, [0]);
    LastValidationIsKept(v, EMPTY_DISK, es);
    RevokedAreTheAdded(v, EMPTY_DISK, es);
    IntactStateIsRead(d);
    EvaluationEnds(v, d, c, script);
    AnswersAtItsClock(doc, now, MainState(d), RevokedIds(d), marks);
    if now <= HighWater(d) {
      QuietEvaluation(v, d, c, script);
    }
  }

  /** An evaluation at a clock not past the mark writes nothing. */
  lemma QuietEvaluation(v: Verifier, d: Disk, c: Call, script: seq<Fate>)
    requires c.EvaluateLoaded? && StateIntact(d) && c.now <= HighWater(d)
    ensures RunCall(v, d, c, script).0 == d
  {
    IntactStateIsRead(d);
    assert DecisionOf(v, d, c).puts == [];
  }

  /**
   The same evaluation reports the last contact with the cloud, and calls it stale exactly when there was one, the
   document has an offline allowance, and the clock used lies past it by more than that.
   */
  lemma CloudStaleIff(v: Verifier, es: seq<Event>, doc: Document, now: Time, script: seq<Fate>)
    requires Intact(StateFile, es) && Intact(RevokedFile, es) && Valid(doc)
    ensures var reply := RunCall(v, Run(v, EMPTY_DISK, es), EvaluateLoaded(doc, now), script).1;
            var last := ValidatedAt(v, EMPTY_DISK, es);
            reply.Some? ==>
              && reply.value.Evaluated? && reply.value.ev.lastCloudValidation == last
              && exists clock | UsesClock(Marks(v, EMPTY_DISK, es, [0]), now, clock) ::
                   reply.value.ev.cloudStale <==>
                   last != 0 && doc.offlineGraceDays > 0 && clock > last + doc.offlineGraceDays * DAY
  {
    EvaluateAnswers(v, es, doc, now, script);
    var reply := RunCall(v, Run(v, EMPTY_DISK, es), EvaluateLoaded(doc, now), script).1;
    var last, revoked := ValidatedAt(v, EMPTY_DISK, es), doc.licenseId in RevokedBy(v, EMPTY_DISK, es);
    if reply.Some? {
      var clock :| UsesClock(Marks(v, EMPTY_DISK, es, [0]), now, clock) && reply.value.ev ==
                   Licence.Evaluate(doc, clock, last, revoked).(clockRollback := clock != now);
      CloudSilenceOnlyWarns(doc, clock, last, last, revoked);
    }
  }

  lemma EvaluationEnds(v: Verifier, d: Disk, c: Call, script: seq<Fate>)
    requires c.EvaluateLoaded? && ReadState(d).Found? && ReadRevoked(d).Found?
    ensures var reply := RunCall(v, d, c, script).1;
            && (reply.None? ==> |script| < 2)
            && (reply.Some? ==> reply.value == Evaluated(EvaluationOf(c.doc, c.now, ReadState(d).value,
                                                                      ReadRevoked(d).value)))
  {
    var dec := DecisionOf(v, d, c);
    RepliesOnlyDoneOrFail(d, Expand(d, dec.puts), script, dec.done, dec.fail);
    RepliesByFates(d, Expand(d, dec.puts), script, dec.done, dec.fail);
    if dec.puts != [] {
      assert dec.puts[1..] == [];
      assert Expand(d, dec.puts) == Durable(d, dec.puts[0]) + [];
    }
  }

  // ----- Failing writes -----

  /** The first n writes of a call succeed and the next one reports an error. */
  ghost predicate ErrsAt(script: seq<Fate>, n: nat) {
    n < |script| && !script[n].Done? && Succeeded(script, n)
  }

  /**
   How a call ends: as decided exactly if every write succeeds, with its failure reply exactly if one reports an error,
   and with the process dead exactly if the writes outlast the fates.
   */
  lemma {:induction false} RepliesByFates(d: Disk, ws: seq<Write>, script: seq<Fate>, done: Reply, fail: Reply)
    ensures var r := RunWrites(d, ws, script, done, fail).1;
            && (Succeeded(script, |ws|) ==> r == Some(done))
            && ((exists n: nat :: n < |ws| && ErrsAt(script, n)) ==> r == Some(fail))
            && (|script| < |ws| && Succeeded(script, |script|) ==> r == None)
            && (r.None? ==> |script| < |ws|)
    decreases ws
  {
    if ws != [] && script != [] && script[0].Done? {
      var tail := script[1..];
      RepliesByFates(Apply(d, ws[0]), ws[1..], tail, done, fail);
      assert Succeeded(script, |ws|) ==> Succeeded(tail, |ws| - 1);
      forall n: nat | n < |ws| && ErrsAt(script, n) ensures n > 0 && ErrsAt(tail, n - 1) {
      }
    }
  }

  /** A call other than Evaluate whose n-th write reports an error answers with that error, whatever took effect. */
  lemma WriteErrorIsReported(v: Verifier, d: Disk, c: Call, script: seq<Fate>, n: nat)
    requires !c.EvaluateLoaded? && n < |Expand(d, DecisionOf(v, d, c).puts)| && ErrsAt(script, n)
    ensures RunCall(v, d, c, script).1 == Some(Failed(WriteFailed))
  {
    var dec := DecisionOf(v, d, c);
    RepliesByFates(d, Expand(d, dec.puts), script, dec.done, dec.fail);
  }

  /** A reply that is a refusal comes before any write. */
  lemma RefusalChangesNothing(v: Verifier, d: Disk, c: Call, script: seq<Fate>)
    ensures var (d', reply) := RunCall(v, d, c, script);
            reply.Some? && reply.value.Failed? && reply.value != Failed(WriteFailed) ==> d' == d
  {
    var dec := DecisionOf(v, d, c);
    RepliesOnlyDoneOrFail(d, Expand(d, dec.puts), script, dec.done, dec.fail);
  }

  lemma CleanReply(v: Verifier, d: Disk, c: Call, script: seq<Fate>)
    requires FaultFree(script)
    ensures RunCall(v, d, c, script).1 == Some(DecisionOf(v, d, c).done)
  {
    var dec := DecisionOf(v, d, c);
    FourWritesAtMost(v, d, c);
    FaultFreeSucceeds(d, Expand(d, dec.puts), script, dec.done, dec.fail);
  }

  // ----- Damaged files -----

  /**
   An unusable state.json stops every call that passed its own checks except AddRevocation, an unusable revoked.json all
   but ResetHighWater and MarkCloudValidated; nothing is then written. The others do not look at the damaged file.
   */
  lemma DamageFailsClosed(v: Verifier, d: Disk, c: Call, script: seq<Fate>)
    requires PreCheck(v, c).None?
    ensures (ReadState(d).Damaged? && !c.AddRevocation?) ||
            (ReadRevoked(d).Damaged? && !c.ResetHighWater? && !c.MarkCloudValidated?) ==>
              RunCall(v, d, c, script) == (d, Some(Failed(StateDamaged)))
    ensures c.AddRevocation? ==> forall s :: DecisionOf(v, d.(state := s), c) == DecisionOf(v, d, c)
    ensures c.ResetHighWater? || c.MarkCloudValidated? ==>
              forall s :: DecisionOf(v, d.(revoked := s), c) == DecisionOf(v, d, c)
    ensures !ReadState(d).Damaged? && !ReadRevoked(d).Damaged? ==> DecisionOf(v, d, c).done != Failed(StateDamaged)
  {
  }
}
