/**
 The accepted licence over whole runs: what `Load` may return after crashes, and after damage to current.json.
 */
module RollbackGuard {
  import opened TwoSlotFile
  import opened Licence
  import opened Timeline
  import opened Wrappers
  import opened StoreSpec
  import opened StoreRuns

  /** An Install that passed every guard on this disk. */
  ghost predicate Accepts(v: Verifier, d: Disk, c: Call) {
    c.Install? && DecisionOf(v, d, c).done.Installed?
  }

  /** How far an accepted Install got with current.json and with state.json. */
  ghost function InstallProgress(v: Verifier, d: Disk, c: Call, script: seq<Fate>): (Progress, Progress)
    requires Accepts(v, d, c)
  {
    var gs := Progresses(d, DecisionOf(v, d, c).puts, script);
    (gs[0], gs[1])
  }

  /** Interrupted between its two files: the new licence is on disk and the state does not know it. */
  ghost predicate Torn(v: Verifier, d: Disk, e: Event) {
    && e.Do? && Accepts(v, d, e.call)
    && var (cur, st) := InstallProgress(v, d, e.call, e.script); cur.Replaced? && !st.Replaced?
  }

  ghost predicate Completes(v: Verifier, d: Disk, e: Event) {
    e.Do? && Accepts(v, d, e.call) && InstallProgress(v, d, e.call, e.script).1.Replaced?
  }

  /** History of the run: the payload of the last Install that reached state.json. */
  ghost function LastAccepted(v: Verifier, d: Disk, es: seq<Event>, acc: Option<string>): Option<string>
    decreases es
  {
    if es == [] then acc
    else LastAccepted(v, Step(v, d, es[0]), es[1..], AcceptStep(v, d, es[0], acc))
  }

  ghost function AcceptStep(v: Verifier, d: Disk, e: Event, acc: Option<string>): Option<string> {
    if Completes(v, d, e) then Some(v.Verify(e.call.raw).value.0) else acc
  }

  /** state.json describes exactly this payload. */
  ghost predicate Describes(v: Verifier, st: StoreState, payload: string) {
    && v.parse(payload).Some? && Valid(v.parse(payload).value)
    && var doc := v.parse(payload).value;
       && st.highestVersion == doc.licenseVersion
       && st.acceptedId == doc.licenseId
       && st.acceptedFpr == v.fingerprint(payload)
       && st.installedIssuedAt == doc.issuedAt
  }

  /** Once a versioned licence was accepted, state.json always describes the last accepted payload. */
  ghost predicate Tracks(v: Verifier, d: Disk, acc: Option<string>) {
    && StateIntact(d)
    && (Version(d) > 0 ==> acc.Some? && Describes(v, MainState(d), acc.value))
  }

  lemma InstallEffect(v: Verifier, d: Disk, c: Call, script: seq<Fate>)
    requires StateIntact(d) && Accepts(v, d, c)
    ensures v.Verify(c.raw).Some?
    ensures var (payload, doc) := v.Verify(c.raw).value;
            var st' := StateAfterInstall(doc, v.fingerprint(payload), MainState(d), c.now);
            var (g, h) := InstallProgress(v, d, c, script);
            && (h != Nothing ==> g.Replaced?)
            && !VersionRefused(doc, v.fingerprint(payload), MainState(d)) && !IssuedAtRefused(doc, MainState(d))
            && RunCall(v, d, c, script).0 ==
               d.(current := SlotStep(d.current, SlotEvent.Put(c.raw, g)),
                  state := SlotStep(d.state, SlotEvent.Put(st', h)))
  {
    CallEffect(v, d, c, script);
    IntactStateIsRead(d);
  }

  /** Every other call leaves current.json alone and changes neither version, accepted id nor issued_at. */
  lemma OtherEffect(v: Verifier, d: Disk, c: Call, script: seq<Fate>)
    requires StateIntact(d) && !Accepts(v, d, c)
    ensures var d' := RunCall(v, d, c, script).0;
            && d'.current == d.current && StateIntact(d')
            && MainState(d') == MainState(d).(highWater := MainState(d').highWater,
                                              lastCloudValidation := MainState(d').lastCloudValidation)
  {
    CallEffect(v, d, c, script);
    IntactStateIsRead(d);
  }

  lemma TracksStep(v: Verifier, d: Disk, e: Event, acc: Option<string>)
    requires v.Sound() && Tracks(v, d, acc)
    requires e.Damage? ==> e.file != StateFile
    ensures Tracks(v, Step(v, d, e), AcceptStep(v, d, e, acc))
  {
    if e.Do? {
      if Accepts(v, d, e.call) {
        InstallEffect(v, d, e.call, e.script);
      } else {
        OtherEffect(v, d, e.call, e.script);
      }
    }
  }

  /** In every run that spares state.json, including torn installs and any damage elsewhere. */
  lemma {:induction false} StateTracksTheAcceptedLicence(v: Verifier, d: Disk, es: seq<Event>, acc: Option<string>)
    requires v.Sound() && Tracks(v, d, acc) && Intact(StateFile, es)
    ensures Tracks(v, Run(v, d, es), LastAccepted(v, d, es, acc))
    decreases es
  {
    if es != [] {
      TailIntact(StateFile, es);
      TracksStep(v, d, es[0], acc);
      StateTracksTheAcceptedLicence(v, Step(v, d, es[0]), es[1..], AcceptStep(v, d, es[0], acc));
    }
  }

  /** Re-importing the accepted versioned licence is never refused, unless it was revoked. */
  lemma ReimportIsAccepted(v: Verifier, d: Disk, acc: Option<string>, raw: Bytes, now: Time)
    requires v.Sound() && Tracks(v, d, acc) && Version(d) > 0
    requires v.Verify(raw).Some? && v.Verify(raw).value.0 == acc.value
    requires !ReadRevoked(d).Damaged?
    ensures Accepts(v, d, Install(raw, now)) <==> v.Verify(raw).value.1.licenseId !in ReadRevoked(d).value
  {
    IntactStateIsRead(d);
  }

  // ----- Damage to current.json -----

  /**
   After an Install of version n > 0 reported success: whatever later crashes do, and whatever happens to
   current.json and its copy, every Load that succeeds returns a version of at least n.
   */
  lemma LoadNeverOlderThanAccepted(v: Verifier, d: Disk, c: Call, script: seq<Fate>, es: seq<Event>)
    requires StateIntact(d) && c.Install? && Intact(StateFile, es)
    requires RunCall(v, d, c, script).1.Some? && RunCall(v, d, c, script).1.value.Installed?
    requires v.Verify(c.raw).Some? && v.Verify(c.raw).value.1.licenseVersion > 0
    ensures var r := Load(v, Run(v, RunCall(v, d, c, script).0, es));
            r.Loaded? ==> r.doc.licenseVersion >= v.Verify(c.raw).value.1.licenseVersion
  {
    var d1 := RunCall(v, d, c, script).0;
    SuccessMeansAccepted(v, d, c, script);
    InstallEffect(v, d, c, script);
    VersionNeverDecreases(v, d1, es);
    IntactStateIsRead(Run(v, d1, es));
  }

  lemma SuccessMeansAccepted(v: Verifier, d: Disk, c: Call, script: seq<Fate>)
    requires c.Install? && RunCall(v, d, c, script).1.Some? && RunCall(v, d, c, script).1.value.Installed?
    ensures Accepts(v, d, c) && InstallProgress(v, d, c, script) == (Replaced, Replaced)
    ensures v.Doc(c.raw) == Some(RunCall(v, d, c, script).1.value.doc)
  {
    CallEffect(v, d, c, script);
    var dec := DecisionOf(v, d, c);
    RepliesOnlyDoneOrFail(d, Expand(d, dec.puts), script, dec.done, dec.fail);
  }

  lemma {:induction false} RepliesOnlyDoneOrFail(d: Disk, ws: seq<Write>, script: seq<Fate>, done: Reply, fail: Reply)
    ensures var r := RunWrites(d, ws, script, done, fail).1; r.None? || r.value == done || r.value == fail
    decreases ws
  {
    if ws != [] && script != [] && script[0].Done? {
      RepliesOnlyDoneOrFail(Apply(d, ws[0]), ws[1..], script[1..], done, fail);
    }
  }

  /**
   Both copies of current.json hold accepted licences: none newer than the state, and at its version only the accepted
   one.
   */
  ghost predicate CopiesAccepted(v: Verifier, d: Disk, acc: Option<string>) {
    && CopyAccepted(v, d, d.current.main, acc)
    && CopyAccepted(v, d, d.current.prev, acc)
  }

  ghost predicate CopyAccepted(v: Verifier, d: Disk, f: File<Bytes>, acc: Option<string>) {
    f.Content? ==>
      && v.Verify(f.value).Some?
      && v.Verify(f.value).value.1.licenseVersion <= Version(d)
      && (v.Verify(f.value).value.1.licenseVersion == Version(d) > 0 ==> Some(v.Verify(f.value).value.0) == acc)
  }

  ghost predicate NeverTorn(v: Verifier, d: Disk, es: seq<Event>)
    decreases es
  {
    es == [] || (!Torn(v, d, es[0]) && NeverTorn(v, Step(v, d, es[0]), es[1..]))
  }

  lemma CopiesStep(v: Verifier, d: Disk, e: Event, acc: Option<string>)
    requires v.Sound() && Tracks(v, d, acc) && CopiesAccepted(v, d, acc) && !Torn(v, d, e)
    requires e.Damage? ==> e.file != StateFile
    ensures CopiesAccepted(v, Step(v, d, e), AcceptStep(v, d, e, acc))
  {
    if e.Do? {
      if Accepts(v, d, e.call) {
        InstallEffect(v, d, e.call, e.script);
      } else {
        OtherEffect(v, d, e.call, e.script);
      }
    }
  }

  lemma {:induction false} CopiesStayAccepted(v: Verifier, d: Disk, es: seq<Event>, acc: Option<string>)
    requires v.Sound() && Tracks(v, d, acc) && CopiesAccepted(v, d, acc)
    requires Intact(StateFile, es) && NeverTorn(v, d, es)
    ensures Tracks(v, Run(v, d, es), LastAccepted(v, d, es, acc))
    ensures CopiesAccepted(v, Run(v, d, es), LastAccepted(v, d, es, acc))
    decreases es
  {
    if es != [] {
      TailIntact(StateFile, es);
      TracksStep(v, d, es[0], acc);
      CopiesStep(v, d, es[0], acc);
      CopiesStayAccepted(v, Step(v, d, es[0]), es[1..], AcceptStep(v, d, es[0], acc));
    }
  }

  ghost function Payload(v: Verifier, d: Disk): ReadResult<string> {
    ReadOrPrev(d.current, raw => if v.Verify(raw).Some? then Some(v.Verify(raw).value.0) else None)
  }

  /**
   From an empty directory, with crashes anywhere except inside an Install between its two files, and any damage
   to current.json: once a versioned licence was accepted, Load returns exactly the last accepted payload or fails.
   */
  lemma LoadIsTheAcceptedPayloadOrFails(v: Verifier, es: seq<Event>)
    requires v.Sound() && Intact(StateFile, es) && NeverTorn(v, EMPTY_DISK, es)
    ensures var d := Run(v, EMPTY_DISK, es);
            var acc := LastAccepted(v, EMPTY_DISK, es, None);
            Version(d) > 0 && Load(v, d).Loaded? ==>
              acc.Some? && Payload(v, d) == Found(acc.value) && v.parse(acc.value) == Some(Load(v, d).doc)
  {
    CopiesStayAccepted(v, EMPTY_DISK, es, None);
    IntactStateIsRead(Run(v, EMPTY_DISK, es));
  }

  // ----- Crashes alone -----

  /** What crashes alone keep about current.json. */
  ghost predicate CurrentHolds(v: Verifier, d: Disk, acc: Option<string>) {
    && (d.current == Fresh() || (d.current.main.Content? && v.Verify(d.current.main.value).Some?))
    && (Version(d) > 0 ==>
          && d.current.main.Content?
          && var (payload, doc) := v.Verify(d.current.main.value).value;
             && doc.licenseVersion >= Version(d)
             && (doc.licenseVersion == Version(d) ==> Some(payload) == acc))
    && (Version(d) == 0 && d.current.main.Content? && v.Verify(d.current.main.value).value.1.licenseVersion <= 0 ==>
          !Superseded(v.Verify(d.current.main.value).value.1, MainState(d)))
  }

  /** A first versioned licence, issued before the unversioned one that the state records. */
  predicate BackInTime(doc: Document, st: StoreState) {
    st.highestVersion == 0 && doc.licenseVersion > 0 && 0 != st.installedIssuedAt > doc.issuedAt
  }

  /**
   The one crash state in which Load fails: a first versioned licence, issued earlier than the unversioned one it
   replaces.
   */
  ghost predicate TornUpgrade(v: Verifier, d: Disk) {
    && d.current.main.Content? && v.Verify(d.current.main.value).Some?
    && BackInTime(v.Verify(d.current.main.value).value.1, MainState(d))
  }

  lemma CurrentStep(v: Verifier, d: Disk, e: Event, acc: Option<string>)
    requires v.Sound() && Tracks(v, d, acc) && CurrentHolds(v, d, acc) && e.Do?
    ensures CurrentHolds(v, Step(v, d, e), AcceptStep(v, d, e, acc))
  {
    if Accepts(v, d, e.call) {
      InstallEffect(v, d, e.call, e.script);
    } else {
      OtherEffect(v, d, e.call, e.script);
    }
  }

  lemma {:induction false} CurrentHoldsAfterCrashes(v: Verifier, d: Disk, es: seq<Event>, acc: Option<string>)
    requires v.Sound() && Tracks(v, d, acc) && CurrentHolds(v, d, acc) && NoDamage(es)
    ensures Tracks(v, Run(v, d, es), LastAccepted(v, d, es, acc))
    ensures CurrentHolds(v, Run(v, d, es), LastAccepted(v, d, es, acc))
    decreases es
  {
    if es != [] {
      assert es[0] in es && forall e | e in es[1..] :: e in es;
      TracksStep(v, d, es[0], acc);
      CurrentStep(v, d, es[0], acc);
      CurrentHoldsAfterCrashes(v, Step(v, d, es[0]), es[1..], AcceptStep(v, d, es[0], acc));
    }
  }

  /**
   Crashes and write errors alone, from an empty directory. Once a versioned licence was accepted, Load always
   succeeds, with at least the accepted version and with the accepted payload at that version. Before that it
   fails exactly when nothing was installed or an upgrade was torn.
   */
  lemma CrashAloneNeverFailsLoad(v: Verifier, es: seq<Event>)
    requires v.Sound() && NoDamage(es)
    ensures var d := Run(v, EMPTY_DISK, es);
            && (Version(d) > 0 ==> Load(v, d).Loaded? && Load(v, d).doc.licenseVersion >= Version(d)
                                   && (Load(v, d).doc.licenseVersion == Version(d) ==>
                                         Load(v, d).doc.licenseId == MainState(d).acceptedId))
            && (Load(v, d).Loaded? <==> d.current.main.Content? && !TornUpgrade(v, d))
            && (Load(v, d) == Failed(NoLicense) <==> d.current == Fresh())
  {
    var d := Run(v, EMPTY_DISK, es);
    CurrentHoldsAfterCrashes(v, EMPTY_DISK, es, None);
    IntactStateIsRead(d);
  }

  /** The condition a caller can check: which Install leaves a store that Load refuses if it is torn. */
  ghost predicate UpgradesBackInTime(v: Verifier, d: Disk, c: Call) {
    && c.Install? && v.Verify(c.raw).Some?
    && BackInTime(v.Verify(c.raw).value.1, MainState(d))
  }

  /** A step makes Load fail in a crash-only run exactly by tearing such an Install. */
  lemma TornUpgradeIff(v: Verifier, d: Disk, e: Event)
    requires StateIntact(d) && !TornUpgrade(v, d) && e.Do?
    ensures TornUpgrade(v, Step(v, d, e)) <==> Torn(v, d, e) && UpgradesBackInTime(v, d, e.call)
  {
    if Accepts(v, d, e.call) {
      InstallEffect(v, d, e.call, e.script);
    } else {
      OtherEffect(v, d, e.call, e.script);
    }
  }

  // ----- The failing run, spelled out -----

  /** Install an unversioned licence, then lose power between the two files of an upgrade issued earlier. */
  function TornUpgradeRun(first: Bytes, upgrade: Bytes): seq<Event> {
    [Do(Install(first, 1), [Done, Done]), Do(Install(upgrade, 2), [Done, Done])]
  }

  /** No file is damaged in that run, and Load reports damage. */
  lemma TornUpgradeFailsLoad(v: Verifier, first: Bytes, upgrade: Bytes)
    requires v.Doc(first).Some? && v.Doc(first).value.licenseVersion == 0
    requires v.Doc(upgrade).Some? && v.Doc(upgrade).value.licenseVersion > 0
    requires 0 != v.Doc(first).value.issuedAt > v.Doc(upgrade).value.issuedAt
    ensures NoDamage(TornUpgradeRun(first, upgrade))
    ensures Load(v, Run(v, EMPTY_DISK, TornUpgradeRun(first, upgrade))) == Failed(StateDamaged)
  {
    var e1, e2 := TornUpgradeRun(first, upgrade)[0], TornUpgradeRun(first, upgrade)[1];
    var d1 := Step(v, EMPTY_DISK, e1);
    FirstInstall(v, e1, EMPTY_DISK);
    TornSecond(v, e2, d1);
    var d2 := Step(v, d1, e2);
    assert TornUpgradeRun(first, upgrade)[1..] == [e2] && [e2][1..] == [];
    assert Run(v, d1, [e2]) == d2;
  }

  lemma FirstInstall(v: Verifier, e: Event, d: Disk)
    requires d == EMPTY_DISK && e.Do? && e.call.Install? && e.script == [Done, Done] && v.Doc(e.call.raw).Some?
    requires v.Doc(e.call.raw).value.licenseVersion == 0
    ensures var d1 := Step(v, d, e);
            d1.current == Slots(Content(e.call.raw), Absent) && StateIntact(d1) && d1.state.prev.Absent?
            && d1.state.main.Content? && Version(d1) == 0
            && MainState(d1).installedIssuedAt == v.Doc(e.call.raw).value.issuedAt
            && d1.revoked == Fresh()
  {
    IntactStateIsRead(d);
    InstallEffect(v, d, e.call, e.script);
    SecondProgress(d, DecisionOf(v, d, e.call).puts, e.script);
  }

  lemma TornSecond(v: Verifier, e: Event, d: Disk)
    requires StateIntact(d) && d.current.main.Content? && d.state.main.Content? && d.revoked == Fresh()
    requires Version(d) == 0
    requires e.Do? && e.call.Install? && e.script == [Done, Done] && UpgradesBackInTime(v, d, e.call)
    ensures Load(v, Step(v, d, e)) == Failed(StateDamaged)
  {
    IntactStateIsRead(d);
    InstallEffect(v, d, e.call, e.script);
    SecondProgress(d, DecisionOf(v, d, e.call).puts, e.script);
    VersionStep(v, d, e);
    IntactStateIsRead(Step(v, d, e));
  }
}
