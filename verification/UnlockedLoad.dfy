/**
 What the calls that pass through the lock do to a Load that reads without it (license/store.go:308-358), and to the
 Evaluate that goes on with its document (license/store.go:361-390): exactly which licences, installed in between,
 make the one fail and the other answer for a superseded licence.
 */
module UnlockedLoad {
  import opened TwoSlotFile
  import opened Licence
  import opened Timeline
  import opened Wrappers
  import opened StoreSpec
  import opened StoreRuns
  import opened RollbackGuard
  import opened CrashRecovery
  import opened Interleaving

  // ----- What state.json says after a run -----

  ghost function AcceptedBy(v: Verifier, d: Disk, e: Event): seq<Document> {
    if Completes(v, d, e) && v.Doc(e.call.raw).Some? then [v.Doc(e.call.raw).value] else []
  }

  /** The licences whose Install reached state.json in a run, in order. */
  ghost function Accepted(v: Verifier, d: Disk, es: seq<Event>): seq<Document> {
    if es == [] then []
    else
      var before := es[..|es| - 1];
      Accepted(v, d, before) + AcceptedBy(v, Run(v, d, before), es[|es| - 1])
  }

  /** The state describes this licence, as far as later guards look. */
  ghost predicate Describing(st: StoreState, doc: Document) {
    && st.installedIssuedAt == doc.issuedAt && doc.licenseId != ""
    && st.highestVersion == (if doc.licenseVersion > 0 then doc.licenseVersion else 0)
    && (doc.licenseVersion >= 0 ==> st.acceptedId == doc.licenseId)
  }

  ghost predicate SameLicence(st: StoreState, st': StoreState) {
    st'.highestVersion == st.highestVersion && st'.acceptedId == st.acceptedId
    && st'.installedIssuedAt == st.installedIssuedAt
  }

  /** The state before and after some licences were accepted: the last one counts. */
  ghost predicate LastDecides(st: StoreState, docs: seq<Document>, st': StoreState) {
    if docs == [] then SameLicence(st, st') else Describing(st', docs[|docs| - 1])
  }

  /** The guards of Install let a licence follow one that the state describes. */
  ghost predicate Follows(doc: Document, st: StoreState) {
    && (st.highestVersion > 0 ==>
          || doc.licenseVersion > st.highestVersion
          || (doc.licenseVersion == st.highestVersion && doc.licenseId == st.acceptedId))
    && (doc.licenseVersion <= 0 && st.installedIssuedAt != 0 ==> doc.issuedAt >= st.installedIssuedAt)
  }

  lemma AcceptedStep(v: Verifier, d: Disk, e: Event)
    requires StateIntact(d) && (e.Damage? ==> e.file != StateFile)
    ensures StateIntact(Step(v, d, e)) && LastDecides(MainState(d), AcceptedBy(v, d, e), MainState(Step(v, d, e)))
    ensures forall x | x in AcceptedBy(v, d, e) :: Follows(x, MainState(d))
  {
    VersionStep(v, d, e);
    if e.Do? {
      if Accepts(v, d, e.call) {
        InstallEffect(v, d, e.call, e.script);
      } else {
        OtherEffect(v, d, e.call, e.script);
      }
    }
  }

  lemma {:induction false} StateDescribesLast(v: Verifier, d: Disk, es: seq<Event>)
    requires StateIntact(d) && Intact(StateFile, es)
    ensures StateIntact(Run(v, d, es)) && LastDecides(MainState(d), Accepted(v, d, es), MainState(Run(v, d, es)))
    decreases es
  {
    if es != [] {
      var n := |es| - 1;
      assert es[n] in es;
      RunSnoc(v, d, es);
      StateDescribesLast(v, d, es[..n]);
      AcceptedStep(v, Run(v, d, es[..n]), es[n]);
    }
  }

  // ----- Which accepted licences supersede a document -----

  /** A versioned licence by its version, or at the same version by its id; an unversioned one by a later issued_at. */
  predicate Overtakes(newer: Document, doc: Document) {
    if newer.licenseVersion > 0 then
      || newer.licenseVersion > doc.licenseVersion
      || (newer.licenseVersion == doc.licenseVersion && newer.licenseId != doc.licenseId)
    else
      0 != newer.issuedAt > doc.issuedAt
  }

  /** A document is superseded afterwards if the last licence accepted overtakes it, or with none, if it was before. */
  ghost predicate SupersededByLast(st: StoreState, docs: seq<Document>, st': StoreState, doc: Document) {
    Superseded(doc, st') <==> if docs == [] then Superseded(doc, st) else Overtakes(docs[|docs| - 1], doc)
  }

  /** In any run that spares state.json: a document is superseded by the last licence accepted, or was so before. */
  lemma SupersededIffOvertaken(v: Verifier, d: Disk, es: seq<Event>, doc: Document)
    requires StateIntact(d) && Intact(StateFile, es)
    ensures SupersededByLast(MainState(d), Accepted(v, d, es), MainState(Run(v, d, es)), doc)
  {
    StateDescribesLast(v, d, es);
    LastSupersedes(MainState(d), Accepted(v, d, es), MainState(Run(v, d, es)), doc);
  }

  lemma LastSupersedes(st: StoreState, docs: seq<Document>, st': StoreState, doc: Document)
    requires LastDecides(st, docs, st')
    ensures SupersededByLast(st, docs, st', doc)
  {
  }

  ghost predicate SomeOvertakes(docs: seq<Document>, doc: Document, versioned: bool) {
    exists x | x in docs :: (versioned ==> x.licenseVersion > 0) && Overtakes(x, doc)
  }

  ghost predicate NoneBeforeZero(docs: seq<Document>) {
    forall x | x in docs :: x.issuedAt >= 0
  }

  /**
   Whether the last accepted licence overtakes is whether any did, looking at versioned ones only once there is one.
   */
  ghost predicate LastIffSome(docs: seq<Document>, doc: Document)
    requires docs != []
  {
    var last := docs[|docs| - 1];
    && (last.licenseVersion > 0 ==> (Overtakes(last, doc) <==> SomeOvertakes(docs, doc, true)))
    && (last.licenseVersion <= 0 ==> forall x | x in docs :: x.licenseVersion <= 0)
    && (last.licenseVersion <= 0 && NoneBeforeZero(docs) ==>
          (Overtakes(last, doc) <==> SomeOvertakes(docs, doc, false)))
  }

  /**
   So a document is superseded exactly when some versioned licence accepted since overtakes it, or, if none accepted was
   versioned, when some licence accepted since was issued later. The latter for times from year 1 on: an issued_at of
   year 0 can be followed by the zero time, which the guards take for none.
   */
  lemma {:induction false} OvertakenBySome(v: Verifier, d: Disk, es: seq<Event>, doc: Document)
    requires StateIntact(d) && Intact(StateFile, es) && Accepted(v, d, es) != []
    ensures LastIffSome(Accepted(v, d, es), doc)
    decreases es
  {
    var n := |es| - 1;
    assert es[n] in es;
    var before, x := Accepted(v, d, es[..n]), AcceptedBy(v, Run(v, d, es[..n]), es[n]);
    StateDescribesLast(v, d, es[..n]);
    if before != [] {
      OvertakenBySome(v, d, es[..n], doc);
    }
    if x == [] {
      assert before + x == before;
    } else {
      AcceptedStep(v, Run(v, d, es[..n]), es[n]);
      AppendKeeps(before, x[0], MainState(Run(v, d, es[..n])), doc);
    }
  }

  lemma AppendKeeps(docs: seq<Document>, x: Document, st: StoreState, doc: Document)
    requires docs != [] ==> Describing(st, docs[|docs| - 1]) && LastIffSome(docs, doc)
    requires Follows(x, st)
    ensures LastIffSome(docs + [x], doc)
  {
    var all := docs + [x];
    assert forall y :: y in all <==> y in docs || y == x;
    if docs != [] {
      assert docs[|docs| - 1] in docs;
    }
  }

  // ----- A Load split by a run -----

  /**
   What makes a Load fail, given the state when it read current.json and the licences accepted before it reads
   state.json: the last of them overtakes its document, or there is none and the document is that of an upgrade back in
   time.
   */
  predicate Overtaken(doc: Document, st: StoreState, docs: seq<Document>) {
    if docs == [] then BackInTime(doc, st) else Overtakes(docs[|docs| - 1], doc)
  }

  /**
   A Load whose reads of current.json and of state.json are separated by any crash-only run, on any store that holds a
   licence: it fails exactly when the licences accepted by that run overtake its document.
   */
  lemma SplitLoadIff(v: Verifier, d1: Disk, acc: Option<string>, es: seq<Event>)
    requires v.Sound() && Tracks(v, d1, acc) && CurrentHolds(v, d1, acc) && d1.current.main.Content? && NoDamage(es)
    ensures var doc := v.Doc(d1.current.main.value).value;
            LoadSteps(v, LoadStep(v, AtCurrent, d1), Run(v, d1, es), 3) ==
            LoadDone(if Overtaken(doc, MainState(d1), Accepted(v, d1, es)) then Failed(StateDamaged) else Loaded(doc))
  {
    var doc, d2 := v.Doc(d1.current.main.value).value, Run(v, d1, es);
    VersionNeverDecreases(v, d1, es);
    SupersededIffOvertaken(v, d1, es, doc);
    ReadsState(v, doc, d2);
  }

  lemma ReadsState(v: Verifier, doc: Document, d: Disk)
    requires StateIntact(d)
    ensures LoadSteps(v, LoadState(doc), d, 3) == LoadDone(CheckLoaded(doc, MainState(d)))
  {
    var f1 := LoadStep(v, LoadState(doc), d);
    var f2 := LoadStep(v, f1, d);
    assert LoadSteps(v, f2, d, 1) == LoadStep(v, f2, d);
    assert LoadSteps(v, f1, d, 2) == LoadSteps(v, f2, d, 1);
  }

  /**
   The price of loading without the lock: when an Install that overtakes its document completes between its two reads,
   Load reports damage, although it succeeds on the disk before and on the disk after.
   */
  lemma RacingLoadFails(v: Verifier, d1: Disk, acc: Option<string>, c: Call, script: seq<Fate>)
    requires v.Sound() && Tracks(v, d1, acc) && CurrentHolds(v, d1, acc) && Load(v, d1).Loaded? && c.Install?
    requires RunCall(v, d1, c, script).1.Some? && RunCall(v, d1, c, script).1.value.Installed?
    requires Overtakes(RunCall(v, d1, c, script).1.value.doc, Load(v, d1).doc)
    ensures var (d2, reply) := RunCall(v, d1, c, script);
            && Load(v, d2) == Loaded(reply.value.doc)
            && LoadStep(v, LoadStep(v, AtCurrent, d1), d2) == LoadDone(Failed(StateDamaged))
  {
    IntactStateIsRead(d1);
    SuccessMeansAccepted(v, d1, c, script);
    InstallEffect(v, d1, c, script);
    AcceptedStep(v, d1, Do(c, script));
    IntactStateIsRead(RunCall(v, d1, c, script).0);
  }

  /** Such a race needs no version: an unversioned licence, and the same licence issued again later. */
  lemma ReissueFailsLoad(v: Verifier, a: Bytes, b: Bytes, now: Time, script: seq<Fate>)
    requires v.Sound() && v.Doc(a).Some? && v.Doc(b).Some? && FaultFree(script)
    requires v.Doc(a).value.licenseVersion == v.Doc(b).value.licenseVersion == 0
    requires v.Doc(a).value.licenseId == v.Doc(b).value.licenseId
    requires 0 < v.Doc(a).value.issuedAt < v.Doc(b).value.issuedAt
    ensures var d1 := RunCall(v, EMPTY_DISK, Install(a, now), script).0;
            var d2 := RunCall(v, d1, Install(b, now), script).0;
            && Load(v, d1) == Loaded(v.Doc(a).value) && Load(v, d2) == Loaded(v.Doc(b).value)
            && LoadStep(v, LoadStep(v, AtCurrent, d1), d2) == LoadDone(Failed(StateDamaged))
  {
    var c1, c2 := Install(a, now), Install(b, now);
    var d1 := RunCall(v, EMPTY_DISK, c1, script).0;
    IntactStateIsRead(EMPTY_DISK);
    CleanInstall(v, EMPTY_DISK, c1, script);
    IntactStateIsRead(d1);
    CleanInstall(v, d1, c2, script);
    CleanAttempt(v, d1, c2, script);
    assert CurrentHolds(v, d1, None);
    RacingLoadFails(v, d1, None, c2, script);
  }

  // ----- Every Load of every interleaving -----

  /** The disk as the calls left it that had left the mutex when the Load read current.json. */
  ghost function Base(v: Verifier, p: Process, l: Loader): Disk
    requires l.since <= |p.log|
  {
    Run(v, EMPTY_DISK, Events(p.log[..l.since]))
  }

  /** The licences accepted by the other calls, up to now. */
  ghost function AcceptedSince(v: Verifier, p: Process, l: Loader): seq<Document>
    requires l.since <= |p.log|
  {
    Accepted(v, Base(v, p, l), LockOrderFrom(p, l.since))
  }

  /** What current.json holds is not superseded by this state, except for an upgrade back in time. */
  ghost predicate ReadOver(v: Verifier, d: Disk, st: StoreState) {
    if d.current.main.Content? then
      && v.Doc(d.current.main.value).Some?
      && var doc := v.Doc(d.current.main.value).value; Superseded(doc, st) ==> BackInTime(doc, st)
    else
      st.highestVersion == 0 && st.installedIssuedAt == 0
  }

  /** Nothing was installed yet, so state.json knows no licence. */
  ghost predicate CurrentFirst(d: Disk) {
    !d.current.main.Content? ==> Version(d) == 0 && MainState(d).installedIssuedAt == 0
  }

  lemma {:induction false} CurrentComesFirst(v: Verifier, d: Disk, es: seq<Event>)
    requires StateIntact(d) && CurrentFirst(d) && NoDamage(es)
    ensures CurrentFirst(Run(v, d, es))
    decreases es
  {
    if es != [] {
      var e := es[0];
      assert e in es && forall x | x in es[1..] :: x in es;
      VersionStep(v, d, e);
      if Accepts(v, d, e.call) {
        InstallEffect(v, d, e.call, e.script);
      } else {
        OtherEffect(v, d, e.call, e.script);
      }
      CurrentComesFirst(v, Step(v, d, e), es[1..]);
    }
  }

  lemma ReadOverStep(v: Verifier, d: Disk, e: Event, acc: Option<string>)
    requires v.Sound() && Tracks(v, d, acc) && CurrentHolds(v, d, acc) && CurrentFirst(d) && e.Do?
    ensures ReadOver(v, Step(v, d, e), MainState(d))
  {
    if Accepts(v, d, e.call) {
      InstallEffect(v, d, e.call, e.script);
    } else {
      OtherEffect(v, d, e.call, e.script);
    }
  }

  lemma ReadOverBase(v: Verifier, p: Process)
    requires v.Sound() && Serial(v, EMPTY_DISK, p)
    ensures ReadOver(v, p.disk, MainState(Run(v, EMPTY_DISK, Events(p.log))))
  {
    var es := Events(p.log);
    var base, acc := Run(v, EMPTY_DISK, es), LastAccepted(v, EMPTY_DISK, es, None);
    CurrentHoldsAfterCrashes(v, EMPTY_DISK, es, None);
    CurrentComesFirst(v, EMPTY_DISK, es);
    if p.holder.Some? {
      var h := p.holder.value;
      HolderDisk(v, h, p.disk);
      ReadOverStep(v, base, Do(h.call, h.script), acc);
    }
  }

  ghost predicate LoaderSince(v: Verifier, p: Process, l: Loader) {
    l.since <= |p.log| && (!l.frame.AtCurrent? ==> ReadOver(v, l.seen, MainState(Base(v, p, l))))
  }

  ghost predicate AllSince(v: Verifier, p: Process) {
    forall t | t in p.loads :: LoaderSince(v, p, p.loads[t])
  }

  lemma SinceStep(v: Verifier, p: Process, a: Action)
    requires v.Sound() && Serial(v, EMPTY_DISK, p) && AllSince(v, p)
    ensures AllSince(v, Act(v, p, a))
  {
    var q := Act(v, p, a);
    ReadOverBase(v, p);
    assert p.log[..|p.log|] == p.log;
    forall t | t in q.loads ensures LoaderSince(v, q, q.loads[t]) {
      if t in p.loads {
        assert q.log[..p.loads[t].since] == p.log[..p.loads[t].since];
      }
    }
  }

  lemma {:induction false} SinceActs(v: Verifier, p: Process, actions: seq<Action>)
    requires v.Sound() && Serial(v, EMPTY_DISK, p) && AllSince(v, p)
    ensures AllSince(v, Acts(v, p, actions))
    decreases actions
  {
    if actions != [] {
      SerialStep(v, EMPTY_DISK, p, actions[0]);
      SinceStep(v, p, actions[0]);
      SinceActs(v, Act(v, p, actions[0]), actions[1..]);
    }
  }

  lemma LoaderSuperseded(v: Verifier, p: Process, l: Loader, doc: Document)
    requires Serial(v, EMPTY_DISK, p) && LoaderSince(v, p, l) && !l.frame.AtCurrent?
    requires l.seen.current.main.Content? ==> doc == v.Doc(l.seen.current.main.value).value
    ensures StateIntact(p.disk)
    ensures Superseded(doc, MainState(p.disk)) <==> Overtaken(doc, MainState(Base(v, p, l)), AcceptedSince(v, p, l))
  {
    var log := p.log[..l.since];
    SerialFrom(v, EMPTY_DISK, p, log);
    VersionNeverDecreases(v, EMPTY_DISK, Events(log));
    VersionNeverDecreases(v, Base(v, p, l), LockOrderFrom(p, l.since));
    SupersededIffOvertaken(v, Base(v, p, l), LockOrderFrom(p, l.since), doc);
  }

  /** The invariants of all Loads in progress, from an empty directory. */
  lemma LoadsReached(v: Verifier, actions: seq<Action>)
    requires v.Sound()
    ensures var p := Acts(v, Boot(EMPTY_DISK), actions);
            Serial(v, EMPTY_DISK, p) && LoadsOk(p) && AllExact(v, p) && AllSince(v, p)
  {
    SerialActs(v, EMPTY_DISK, Boot(EMPTY_DISK), actions);
    LoadsActs(v, EMPTY_DISK, Boot(EMPTY_DISK), actions);
    LoadsExact(v, Boot(EMPTY_DISK), actions);
    SinceActs(v, Boot(EMPTY_DISK), actions);
  }

  /**
   Every Load of every interleaving from an empty directory, versioned licences or not, calls inside the lock at its
   reads or not: when it comes to read state.json, it fails exactly if the licences accepted since it read current.json
   overtake its document. If there is no state.json yet, nothing has.
   */
  lemma InterleavedLoadIff(v: Verifier, actions: seq<Action>, t: nat)
    requires v.Sound() && t in Acts(v, Boot(EMPTY_DISK), actions).loads
    requires Acts(v, Boot(EMPTY_DISK), actions).loads[t].frame.LoadState?
    ensures var p := Acts(v, Boot(EMPTY_DISK), actions);
            var l := p.loads[t];
            && l.since <= |p.log|
            && var doc, overtaken := l.frame.doc,
                   Overtaken(l.frame.doc, MainState(Base(v, p, l)), AcceptedSince(v, p, l));
               if p.disk.state.main.Content?
               then LoadStep(v, l.frame, p.disk) == LoadDone(if overtaken then Failed(StateDamaged) else Loaded(doc))
               else !overtaken && LoadStep(v, l.frame, p.disk) == LoadStateStat(doc)
  {
    var p := Acts(v, Boot(EMPTY_DISK), actions);
    LoadsReached(v, actions);
    assert LoaderSince(v, p, p.loads[t]) && LoaderExact(v, p.loads[t]);
    LoaderSuperseded(v, p, p.loads[t], p.loads[t].frame.doc);
  }

  // ----- A Load that finds no state.json and goes on to the copy -----

  /** A state that was written after the first m of these licences were accepted, on a store that knew none. */
  ghost predicate Knows(st: StoreState, docs: seq<Document>, m: nat) {
    m <= |docs| && LastDecides(ZERO_STATE, docs[..m], st)
  }

  /** The copy of state.json, if there is one, knows some of the licences accepted. */
  ghost predicate CopyKnowsSome(copy: File<StoreState>, docs: seq<Document>) {
    copy.Absent? || (copy.Content? && exists m: nat :: Knows(copy.value, docs, m))
  }

  /** A write keeps the copy or makes it the state written before, and what is accepted with it only comes after. */
  lemma CopyKeepsKnowing(s: Slots<StoreState>, e: SlotEvent<StoreState>, docs: seq<Document>, more: seq<Document>)
    requires e.Put? && CopyKnowsSome(s.prev, docs) && (s.main.Content? ==> LastDecides(ZERO_STATE, docs, s.main.value))
    ensures CopyKnowsSome(SlotStep(s, e).prev, docs + more)
  {
    assert docs[..|docs|] == docs;
    forall st, m: nat | Knows(st, docs, m) ensures Knows(st, docs + more, m) {
      assert (docs + more)[..m] == docs[..m];
    }
    assert s.main.Content? ==> Knows(s.main.value, docs, |docs|);
  }

  lemma {:induction false} CopyIsEarlierState(v: Verifier, d: Disk, es: seq<Event>)
    requires d.state == Fresh() && Intact(StateFile, es)
    ensures CopyKnowsSome(Run(v, d, es).state.prev, Accepted(v, d, es))
    decreases es
  {
    if es != [] {
      var n := |es| - 1;
      assert es[n] in es;
      var before := Accepted(v, d, es[..n]);
      RunSnoc(v, d, es);
      CopyIsEarlierState(v, d, es[..n]);
      StateDescribesLast(v, d, es[..n]);
      StepByFile(v, Run(v, d, es[..n]), es[n]);
      CopyKeepsKnowing(Run(v, d, es[..n]).state, StateEvent(v, Run(v, d, es[..n]), es[n]), before,
                       AcceptedBy(v, Run(v, d, es[..n]), es[n]));
    }
  }

  lemma {:induction false} StateStays(v: Verifier, d: Disk, es: seq<Event>)
    requires d.state.main.Content? && Intact(StateFile, es)
    ensures Run(v, d, es).state.main.Content?
    decreases es
  {
    if es != [] {
      TailIntact(StateFile, es);
      StepByFile(v, d, es[0]);
      StateStays(v, Step(v, d, es[0]), es[1..]);
    }
  }

  /** A Load that found no state.json began before any was written; one that found the copy still will. */
  ghost predicate LoaderLate(v: Verifier, p: Process, l: Loader) {
    && l.since <= |p.log|
    && (l.frame.LoadStateStat? || l.frame.LoadStatePrev? ==> Base(v, p, l).state == Fresh())
    && (l.frame.LoadStatePrev? ==> !p.disk.state.prev.Absent?)
  }

  ghost predicate AllLate(v: Verifier, p: Process) {
    forall t | t in p.loads :: LoaderLate(v, p, p.loads[t])
  }

  lemma NoStateAtBase(v: Verifier, p: Process, l: Loader)
    requires Serial(v, EMPTY_DISK, p) && l.since <= |p.log|
    ensures StateIntact(p.disk) && (p.disk.state.main.Content? || Base(v, p, l).state == Fresh())
  {
    var log := p.log[..l.since];
    SerialFrom(v, EMPTY_DISK, p, log);
    VersionNeverDecreases(v, EMPTY_DISK, Events(log));
    VersionNeverDecreases(v, Base(v, p, l), LockOrderFrom(p, l.since));
    if Base(v, p, l).state.main.Content? {
      StateStays(v, Base(v, p, l), LockOrderFrom(p, l.since));
    }
  }

  /** A step keeps the log and never removes the copy of state.json. */
  lemma StepKeeps(v: Verifier, p: Process, a: Action)
    ensures p.log <= Act(v, p, a).log
    ensures !p.disk.state.prev.Absent? ==> !Act(v, p, a).disk.state.prev.Absent?
  {
  }

  /** A Load that does not read, or reads a disk of which the rest is known. */
  lemma LateLoader(v: Verifier, p: Process, l: Loader)
    requires LoaderLate(v, p, l) && StateIntact(p.disk)
    requires p.disk.state.main.Content? || Base(v, p, l).state == Fresh()
    ensures LoaderLate(v, p, LoaderReads(v, l, p.disk, |p.log|))
  {
  }

  /** What holds of a Load goes on to hold while the process makes a step that is not its own. */
  lemma LateElsewhere(v: Verifier, p: Process, q: Process, l: Loader)
    requires LoaderLate(v, p, l) && p.log <= q.log
    requires !p.disk.state.prev.Absent? ==> !q.disk.state.prev.Absent?
    ensures LoaderLate(v, q, l)
  {
    assert q.log[..l.since] == p.log[..l.since];
  }

  lemma LateStep(v: Verifier, p: Process, a: Action)
    requires Serial(v, EMPTY_DISK, p) && AllLate(v, p)
    ensures AllLate(v, Act(v, p, a))
  {
    var q := Act(v, p, a);
    StepKeeps(v, p, a);
    forall t | t in p.loads
      ensures LoaderLate(v, q, p.loads[t]) && LoaderLate(v, p, LoaderReads(v, p.loads[t], p.disk, |p.log|))
    {
      LateElsewhere(v, p, q, p.loads[t]);
      NoStateAtBase(v, p, p.loads[t]);
      LateLoader(v, p, p.loads[t]);
    }
    LateCases(v, p, a);
  }

  lemma LateCases(v: Verifier, p: Process, a: Action)
    requires forall t | t in p.loads :: LoaderLate(v, Act(v, p, a), p.loads[t])
    requires forall t | t in p.loads :: LoaderLate(v, p, LoaderReads(v, p.loads[t], p.disk, |p.log|))
    ensures AllLate(v, Act(v, p, a))
  {
    var q := Act(v, p, a);
    if a.LoadReads? && a.thread in p.loads {
      LateElsewhere(v, p, q, LoaderReads(v, p.loads[a.thread], p.disk, |p.log|));
    }
  }

  lemma {:induction false} LateActs(v: Verifier, p: Process, actions: seq<Action>)
    requires Serial(v, EMPTY_DISK, p) && AllLate(v, p)
    ensures AllLate(v, Acts(v, p, actions))
    decreases actions
  {
    if actions != [] {
      SerialStep(v, EMPTY_DISK, p, actions[0]);
      LateStep(v, p, actions[0]);
      LateActs(v, Act(v, p, actions[0]), actions[1..]);
    }
  }

  /** The reply of a Load that ends with the copy: it fails exactly if the last licence the copy knows overtakes. */
  ghost predicate DecidedByCopy(reply: LoadFrame, doc: Document, copy: File<StoreState>, docs: seq<Document>) {
    copy.Content? && exists m: nat | Knows(copy.value, docs, m) ::
      reply == LoadDone(if m > 0 && Overtakes(docs[m - 1], doc) then Failed(StateDamaged) else Loaded(doc))
  }

  lemma CopyDecides(v: Verifier, f: LoadFrame, d: Disk, docs: seq<Document>)
    requires f.LoadStatePrev? && !d.state.prev.Absent? && CopyKnowsSome(d.state.prev, docs)
    ensures DecidedByCopy(LoadStep(v, f, d), f.doc, d.state.prev, docs)
  {
    var m: nat :| Knows(d.state.prev.value, docs, m);
    assert m > 0 ==> docs[..m][m - 1] == docs[m - 1];
  }

  /**
   A Load that found no state.json: it succeeds if there is no copy either. If one has appeared, which takes a second
   write of state.json in between, it fails exactly if the last of the licences the copy knows of overtakes its
   document.
   */
  lemma LateLoadIff(v: Verifier, actions: seq<Action>, t: nat)
    requires t in Acts(v, Boot(EMPTY_DISK), actions).loads
    ensures var p := Acts(v, Boot(EMPTY_DISK), actions);
            var l := p.loads[t];
            && l.since <= |p.log|
            && (l.frame.LoadStateStat? && p.disk.state.prev.Absent? ==>
                  LoadStep(v, l.frame, p.disk) == LoadDone(Loaded(l.frame.doc)))
            && (l.frame.LoadStatePrev? ==>
                  DecidedByCopy(LoadStep(v, l.frame, p.disk), l.frame.doc, p.disk.state.prev, AcceptedSince(v, p, l)))
  {
    var p := Acts(v, Boot(EMPTY_DISK), actions);
    SerialActs(v, EMPTY_DISK, Boot(EMPTY_DISK), actions);
    LateActs(v, Boot(EMPTY_DISK), actions);
    var l := p.loads[t];
    assert LoaderLate(v, p, l);
    if l.frame.LoadStatePrev? {
      SerialFrom(v, EMPTY_DISK, p, p.log[..l.since]);
      CopyIsEarlierState(v, Base(v, p, l), LockOrderFrom(p, l.since));
      CopyDecides(v, l.frame, p.disk, AcceptedSince(v, p, l));
    }
  }

  // ----- Evaluate -----

  /**
   Every Evaluate: it takes the lock with the document of its Load, at least the version accepted when that began, and
   answers for it. By then the document is superseded exactly if the licences accepted since overtake it.
   */
  lemma InterleavedEvaluateIff(v: Verifier, actions: seq<Action>, t: nat, now: Time)
    requires v.Sound() && t in Acts(v, Boot(EMPTY_DISK), actions).loads
    requires var p := Acts(v, Boot(EMPTY_DISK), actions);
             p.holder.None? && p.loads[t].frame.LoadDone? && p.loads[t].frame.reply.Loaded?
    ensures var p := Acts(v, Boot(EMPTY_DISK), actions);
            var l, q := p.loads[t], Act(v, p, AcquireEvaluate(t, now));
            var doc := l.frame.reply.doc;
            && q == Enlist(p, EvaluateLoaded(doc, now)) && l.since <= |p.log|
            && (l.floor > 0 ==> doc.licenseVersion >= l.floor)
            && (Superseded(doc, MainState(q.disk)) <==>
                Overtaken(doc, MainState(Base(v, p, l)), AcceptedSince(v, p, l)))
  {
    var p := Acts(v, Boot(EMPTY_DISK), actions);
    LoadsReached(v, actions);
    assert LoaderSince(v, p, p.loads[t]) && LoaderExact(v, p.loads[t]) && LoaderOk(p.loads[t], p.disk);
    LoaderSuperseded(v, p, p.loads[t], p.loads[t].frame.reply.doc);
  }

  /**
   The run in which it happens: an Install that overtakes the document completes after the Load and before the lock.
   Evaluate then answers for the old licence, although a Load would return the new one.
   */
  lemma RacingEvaluateIsSuperseded(v: Verifier, d1: Disk, acc: Option<string>, c: Call, script: seq<Fate>,
                                   now: Time, evalScript: seq<Fate>)
    requires v.Sound() && Tracks(v, d1, acc) && CurrentHolds(v, d1, acc) && Load(v, d1).Loaded? && c.Install?
    requires RunCall(v, d1, c, script).1.Some? && RunCall(v, d1, c, script).1.value.Installed?
    requires Overtakes(RunCall(v, d1, c, script).1.value.doc, Load(v, d1).doc) && FaultFree(evalScript)
    ensures var (d2, reply) := RunCall(v, d1, c, script);
            var doc := Load(v, d1).doc;
            && Load(v, d2) == Loaded(reply.value.doc) && Superseded(doc, MainState(d2)) && ReadRevoked(d2).Found?
            && RunCall(v, d2, EvaluateLoaded(doc, now), evalScript).1 ==
               Some(Evaluated(EvaluationOf(doc, now, MainState(d2), ReadRevoked(d2).value)))
  {
    var d2, e := RunCall(v, d1, c, script).0, EvaluateLoaded(Load(v, d1).doc, now);
    RacingLoadFails(v, d1, acc, c, script);
    SuccessMeansAccepted(v, d1, c, script);
    InstallEffect(v, d1, c, script);
    AcceptedStep(v, d1, Do(c, script));
    IntactStateIsRead(d2);
    var dec := DecisionOf(v, d2, e);
    FourWritesAtMost(v, d2, e);
    FaultFreeSucceeds(d2, Expand(d2, dec.puts), evalScript, dec.done, dec.fail);
  }
}
