/**
 Whole runs of the licence store: any sequence of calls, each with its own write faults or crash point, and of
 damage to files. The run-level guarantees are no version rollback, recovery after crashes, and permanent
 revocation.
 */
module StoreRuns {
  import opened TwoSlotFile
  import opened Wrappers
  import opened StoreSpec

  // ----- Effect of a faulty call, file by file -----

  /** One `writeDurable` that got as far as `g`, on the slots of its file. */
  function PutOn(d: Disk, p: Put, g: Progress): Disk {
    match p
    case PutCurrent(raw) => d.(current := SlotStep(d.current, SlotEvent.Put(raw, g)))
    case PutState(st) => d.(state := SlotStep(d.state, SlotEvent.Put(st, g)))
    case PutRevoked(ids) => d.(revoked := SlotStep(d.revoked, SlotEvent.Put(ids, g)))
  }

  function PutAll(d: Disk, puts: seq<Put>, gs: seq<Progress>): Disk
    requires |puts| == |gs|
    decreases puts
  {
    if puts == [] then d else PutAll(PutOn(d, puts[0], gs[0]), puts[1..], gs[1..])
  }

  predicate Took(script: seq<Fate>, i: nat) {
    i < |script| && !script[i].ErrorLost?
  }

  predicate Succeeded(script: seq<Fate>, n: nat) {
    n <= |script| && forall i | 0 <= i < n :: script[i].Done?
  }

  function ProgressOf(d: Disk, p: Put, script: seq<Fate>): Progress {
    if PrevWrite(d, p).None? then if Took(script, 0) then Replaced else Nothing
    else if !Took(script, 0) then Nothing
    else if Succeeded(script, 1) && Took(script, 1) then Replaced
    else CopiedPrev
  }

  /** How far each `writeDurable` of a call gets. */
  function Progresses(d: Disk, puts: seq<Put>, script: seq<Fate>): (gs: seq<Progress>)
    ensures |gs| == |puts|
    decreases puts
  {
    if puts == [] then []
    else
      var n := |Durable(d, puts[0])|;
      var rest := if Succeeded(script, n) then Progresses(PutOn(d, puts[0], Replaced), puts[1..], script[n..])
                  else seq(|puts| - 1, _ => Nothing);
      [ProgressOf(d, puts[0], script)] + rest
  }

  lemma {:induction false} AllNothing(d: Disk, puts: seq<Put>)
    ensures PutAll(d, puts, seq(|puts|, _ => Nothing)) == d
    decreases puts
  {
    if puts != [] {
      assert seq(|puts|, _ => Nothing)[1..] == seq(|puts| - 1, _ => Nothing);
      AllNothing(d, puts[1..]);
    }
  }

  lemma DurableIsReplaced(d: Disk, p: Put)
    ensures ApplyAll(d, Durable(d, p)) == PutOn(d, p, Replaced)
  {
    ApplyDurable(d, p);
  }

  /** A call's disk is determined by how far each of its files got; a success reply means all were replaced. */
  lemma {:induction false} PutsLand(d: Disk, puts: seq<Put>, script: seq<Fate>, done: Reply, fail: Reply)
    ensures var gs := Progresses(d, puts, script);
            && RunWrites(d, Expand(d, puts), script, done, fail).0 == PutAll(d, puts, gs)
            && (done != fail && RunWrites(d, Expand(d, puts), script, done, fail).1 == Some(done) ==>
                  forall i | 0 <= i < |gs| :: gs[i].Replaced?)
    decreases puts
  {
    if puts != [] {
      var ws := Durable(d, puts[0]);
      var d1 := ApplyAll(d, ws);
      var rest := Expand(d1, puts[1..]);
      DurableIsReplaced(d, puts[0]);
      assert Expand(d, puts) == ws + rest;
      if Succeeded(script, |ws|) {
        SkipDone(d, ws, rest, script, done, fail);
        PutsLand(d1, puts[1..], script[|ws|..], done, fail);
      } else {
        StopsEarly(d, ws, rest, script, done, fail);
        AllNothing(PutOn(d, puts[0], ProgressOf(d, puts[0], script)), puts[1..]);
      }
    }
  }

  lemma {:induction false} SkipDone(d: Disk, a: seq<Write>, b: seq<Write>, script: seq<Fate>, done: Reply, fail: Reply)
    requires Succeeded(script, |a|)
    ensures RunWrites(d, a + b, script, done, fail) == RunWrites(ApplyAll(d, a), b, script[|a|..], done, fail)
    decreases a
  {
    if a == [] {
      assert a + b == b && script[0..] == script;
    } else {
      assert (a + b)[1..] == a[1..] + b && script[1..][|a| - 1..] == script[|a|..];
      SkipDone(Apply(d, a[0]), a[1..], b, script[1..], done, fail);
    }
  }

  lemma StopsEarly(d: Disk, ws: seq<Write>, rest: seq<Write>, script: seq<Fate>, done: Reply, fail: Reply)
    requires 1 <= |ws| <= 2 && !Succeeded(script, |ws|)
    ensures RunWrites(d, ws + rest, script, done, fail) ==
            if !Took(script, 0) then (d, if script == [] then None else Some(fail))
            else if script[0].ErrorApplied? then (Apply(d, ws[0]), Some(fail))
            else if |script| == 1 then (Apply(d, ws[0]), None)
            else if script[1].ErrorLost? then (Apply(d, ws[0]), Some(fail))
            else (Apply(Apply(d, ws[0]), ws[1]), Some(fail))
  {
    assert (ws + rest)[0] == ws[0];
    if |ws| == 2 {
      assert (ws + rest)[1..] == [ws[1]] + rest;
      assert ([ws[1]] + rest)[0] == ws[1];
    }
  }

  // ----- Runs -----

  datatype FileName = CurrentFile | StateFile | RevokedFile

  datatype Event = Do(call: Call, script: seq<Fate>) | Damage(file: FileName, prev: bool, hit: Hit)

  function HitOn<T>(prev: bool, hit: Hit): SlotEvent<T> {
    if prev then HitPrev(hit) else HitMain(hit)
  }

  function Step(v: Verifier, d: Disk, e: Event): Disk {
    match e
    case Do(c, script) => RunCall(v, d, c, script).0
    case Damage(CurrentFile, prev, hit) => d.(current := SlotStep(d.current, HitOn(prev, hit)))
    case Damage(StateFile, prev, hit) => d.(state := SlotStep(d.state, HitOn(prev, hit)))
    case Damage(RevokedFile, prev, hit) => d.(revoked := SlotStep(d.revoked, HitOn(prev, hit)))
  }

  function Run(v: Verifier, d: Disk, es: seq<Event>): Disk
    decreases es
  {
    if es == [] then d else Run(v, Step(v, d, es[0]), es[1..])
  }

  ghost predicate Intact(file: FileName, es: seq<Event>) {
    forall e | e in es :: e.Damage? ==> e.file != file
  }

  ghost predicate NoDamage(es: seq<Event>) {
    forall e | e in es :: e.Do?
  }

  lemma TailIntact(file: FileName, es: seq<Event>)
    requires es != [] && Intact(file, es)
    ensures Intact(file, es[1..]) && (es[0].Damage? ==> es[0].file != file)
  {
    assert es[0] in es;
    forall e | e in es[1..] ensures e in es {
    }
  }

  lemma {:induction false} RunConcat(v: Verifier, d: Disk, a: seq<Event>, b: seq<Event>)
    ensures Run(v, d, a + b) == Run(v, Run(v, d, a), b)
    decreases a
  {
    if a == [] {
      assert a + b == b;
    } else {
      assert (a + b)[1..] == a[1..] + b;
      RunConcat(v, Step(v, d, a[0]), a[1..], b);
    }
  }

  lemma SecondProgress(d: Disk, puts: seq<Put>, script: seq<Fate>)
    requires |puts| == 2
    ensures var n := |Durable(d, puts[0])|;
            Progresses(d, puts, script)[1] ==
            if Succeeded(script, n) then ProgressOf(PutOn(d, puts[0], Replaced), puts[1], script[n..]) else Nothing
  {
    var n := |Durable(d, puts[0])|;
    if Succeeded(script, n) {
      var d1 := PutOn(d, puts[0], Replaced);
      assert Progresses(d1, puts[1..], script[n..])[0] == ProgressOf(d1, puts[1], script[n..]);
    }
  }

  /** The disk after a call, and which of its files were replaced, in the order of its `writeDurable` calls. */
  lemma CallEffect(v: Verifier, d: Disk, c: Call, script: seq<Fate>)
    ensures var dec := DecisionOf(v, d, c);
            var gs := Progresses(d, dec.puts, script);
            var out := RunCall(v, d, c, script);
            && |dec.puts| <= 2
            && out.0 == (if |dec.puts| == 0 then d else if |dec.puts| == 1 then PutOn(d, dec.puts[0], gs[0])
                         else PutOn(PutOn(d, dec.puts[0], gs[0]), dec.puts[1], gs[1]))
            && (|dec.puts| == 2 && gs[1] != Nothing ==> gs[0].Replaced?)
            && (dec.done != dec.fail && out.1 == Some(dec.done) ==> forall i | 0 <= i < |gs| :: gs[i].Replaced?)
  {
    var dec := DecisionOf(v, d, c);
    var gs := Progresses(d, dec.puts, script);
    PutsLand(d, dec.puts, script, dec.done, dec.fail);
    if |dec.puts| == 1 {
      assert PutAll(PutOn(d, dec.puts[0], gs[0]), dec.puts[1..], gs[1..]) == PutOn(d, dec.puts[0], gs[0]);
    } else if |dec.puts| == 2 {
      var d1 := PutOn(d, dec.puts[0], gs[0]);
      assert PutAll(d1, dec.puts[1..], gs[1..]) == PutOn(d1, dec.puts[1], gs[1]);
    }
  }

  // ----- Each file of the store is a two-slot register -----

  /** What one event of the store does to current.json: a hit, the `writeDurable` of an Install, or nothing. */
  ghost function CurrentEvent(v: Verifier, d: Disk, e: Event): SlotEvent<Bytes> {
    match e
    case Damage(file, prev, hit) => if file.CurrentFile? then HitOn(prev, hit) else SlotEvent.Put("", Nothing)
    case Do(c, script) =>
      var puts := DecisionOf(v, d, c).puts;
      if puts != [] && puts[0].PutCurrent? then SlotEvent.Put(puts[0].raw, Progresses(d, puts, script)[0])
      else SlotEvent.Put("", Nothing)
  }

  /** What it does to state.json, always the last file a call writes. */
  ghost function StateEvent(v: Verifier, d: Disk, e: Event): SlotEvent<StoreState> {
    match e
    case Damage(file, prev, hit) => if file.StateFile? then HitOn(prev, hit) else SlotEvent.Put(ZERO_STATE, Nothing)
    case Do(c, script) =>
      var puts := DecisionOf(v, d, c).puts;
      if puts != [] && puts[|puts| - 1].PutState?
      then SlotEvent.Put(puts[|puts| - 1].st, Progresses(d, puts, script)[|puts| - 1])
      else SlotEvent.Put(ZERO_STATE, Nothing)
  }

  /** What it does to revoked.json. */
  ghost function RevokedEvent(v: Verifier, d: Disk, e: Event): SlotEvent<set<string>> {
    match e
    case Damage(file, prev, hit) => if file.RevokedFile? then HitOn(prev, hit) else SlotEvent.Put({}, Nothing)
    case Do(c, script) =>
      var puts := DecisionOf(v, d, c).puts;
      if puts != [] && puts[0].PutRevoked? then SlotEvent.Put(puts[0].ids, Progresses(d, puts, script)[0])
      else SlotEvent.Put({}, Nothing)
  }

  /** One event of the store is one event of each of its files. */
  lemma StepByFile(v: Verifier, d: Disk, e: Event)
    ensures Step(v, d, e) == Disk(SlotStep(d.current, CurrentEvent(v, d, e)), SlotStep(d.state, StateEvent(v, d, e)),
                                  SlotStep(d.revoked, RevokedEvent(v, d, e)))
  {
    if e.Do? {
      CallEffect(v, d, e.call, e.script);
    }
  }

  /** The history of each file over a run from an empty directory, one slot event for each event of the store. */
  ghost function CurrentHistory(v: Verifier, es: seq<Event>): seq<SlotEvent<Bytes>> {
    if es == [] then []
    else
      var before := es[..|es| - 1];
      CurrentHistory(v, before) + [CurrentEvent(v, Run(v, EMPTY_DISK, before), es[|es| - 1])]
  }

  ghost function StateHistory(v: Verifier, es: seq<Event>): seq<SlotEvent<StoreState>> {
    if es == [] then []
    else
      var before := es[..|es| - 1];
      StateHistory(v, before) + [StateEvent(v, Run(v, EMPTY_DISK, before), es[|es| - 1])]
  }

  ghost function RevokedHistory(v: Verifier, es: seq<Event>): seq<SlotEvent<set<string>>> {
    if es == [] then []
    else
      var before := es[..|es| - 1];
      RevokedHistory(v, before) + [RevokedEvent(v, Run(v, EMPTY_DISK, before), es[|es| - 1])]
  }

  /** One slot event for each event of the store, a damaging one exactly where this file was hit. */
  ghost predicate Aligned<T>(h: seq<SlotEvent<T>>, es: seq<Event>, file: FileName) {
    && |h| == |es|
    && forall i | 0 <= i < |es| :: h[i].Put? <==> !(es[i].Damage? && es[i].file == file)
  }

  lemma AlignedSnoc<T>(h: seq<SlotEvent<T>>, es: seq<Event>, file: FileName, e: SlotEvent<T>)
    requires es != [] && Aligned(h, es[..|es| - 1], file)
    requires e.Put? <==> !(es[|es| - 1].Damage? && es[|es| - 1].file == file)
    ensures Aligned(h + [e], es, file)
    ensures SlotRun(h + [e]) == SlotStep(SlotRun(h), e)
  {
    assert (h + [e])[..|h|] == h;
  }

  lemma AlignedUndamaged<T>(h: seq<SlotEvent<T>>, es: seq<Event>, file: FileName)
    requires Aligned(h, es, file) && Intact(file, es)
    ensures Undamaged(h)
  {
    assert forall i | 0 <= i < |es| :: es[i] in es;
  }

  lemma RunSnoc(v: Verifier, d: Disk, es: seq<Event>)
    requires es != []
    ensures Run(v, d, es) == Step(v, Run(v, d, es[..|es| - 1]), es[|es| - 1])
  {
    var n := |es| - 1;
    assert es == es[..n] + [es[n]] && [es[n]][1..] == [];
    RunConcat(v, d, es[..n], [es[n]]);
  }

  /**
   Every run of the store, with all its crashes and damage, is a run of three two-slot registers: each file is its own
   history of the writes the calls decided on, as far as they got, and of the damage to it.
   */
  lemma {:induction false} FilesAreRegisters(v: Verifier, es: seq<Event>)
    ensures var cur, st, rev := CurrentHistory(v, es), StateHistory(v, es), RevokedHistory(v, es);
            && Run(v, EMPTY_DISK, es) == Disk(SlotRun(cur), SlotRun(st), SlotRun(rev))
            && Aligned(cur, es, CurrentFile) && Aligned(st, es, StateFile) && Aligned(rev, es, RevokedFile)
    decreases es
  {
    if es != [] {
      var before, e := es[..|es| - 1], es[|es| - 1];
      var d := Run(v, EMPTY_DISK, before);
      FilesAreRegisters(v, before);
      RunSnoc(v, EMPTY_DISK, es);
      StepByFile(v, d, e);
      AlignedSnoc(CurrentHistory(v, before), es, CurrentFile, CurrentEvent(v, d, e));
      AlignedSnoc(StateHistory(v, before), es, StateFile, StateEvent(v, d, e));
      AlignedSnoc(RevokedHistory(v, before), es, RevokedFile, RevokedEvent(v, d, e));
    }
  }

  /** The states whose write of state.json took effect, oldest first. */
  ghost function StatesWritten(v: Verifier, es: seq<Event>): seq<StoreState> {
    Committed(StateHistory(v, es))
  }

  /**
   What is read: the last state written, or the one `.prev` lags behind by, or damage, or a fresh store exactly when no
   copy exists.
   */
  ghost predicate ReadsByLag(d: Disk, h: seq<SlotEvent<StoreState>>) {
    var r, w := ReadState(d), Committed(h);
    && (MainWhole(h) ==> w != [] && r == Found(w[|w| - 1]))
    && (!MainWhole(h) && Lag(h).Some? ==> Lag(h).value < |w| && r == Found(w[|w| - 1 - Lag(h).value]))
    && (!MainWhole(h) && Lag(h).None? ==> r == if d.state == Fresh() then Found(ZERO_STATE) else Damaged)
  }

  lemma RegisterReadsByLag(d: Disk, h: seq<SlotEvent<StoreState>>)
    requires d.state == SlotRun(h)
    ensures ReadsByLag(d, h)
  {
    ReadFallsBackByLag(h);
  }

  /** What any run with any damage leaves to read in state.json. */
  lemma StateReadsByLag(v: Verifier, es: seq<Event>)
    ensures ReadsByLag(Run(v, EMPTY_DISK, es), StateHistory(v, es))
  {
    FilesAreRegisters(v, es);
    RegisterReadsByLag(Run(v, EMPTY_DISK, es), StateHistory(v, es));
  }

  /**
   Before a hit the last state written, after it that one or the one before; fresh only if at most one was written.
   */
  ghost predicate FallsBackOneWrite(before: ReadResult<StoreState>, after: ReadResult<StoreState>, w: seq<StoreState>,
                                    prev: bool, hit: Hit)
  {
    && before == Found(if w == [] then ZERO_STATE else w[|w| - 1])
    && (|w| >= 2 ==> after == Found(w[|w| - 1]) || (!prev && after == Found(w[|w| - 2])))
    && (|w| == 1 ==> after == Found(w[0]) || after.Damaged? || (!prev && hit.Delete? && after == Found(ZERO_STATE)))
    && (w == [] ==> after == if hit.Delete? then Found(ZERO_STATE) else Damaged)
  }

  lemma RegisterFallsBack(d: Disk, h: seq<SlotEvent<StoreState>>, prev: bool, hit: Hit)
    requires d.state == SlotRun(h) && Undamaged(h)
    ensures FallsBackOneWrite(ReadState(d), ReadState(d.(state := SlotStep(d.state, HitOn(prev, hit)))), Committed(h),
                              prev, hit)
  {
    CrashesKeepTheRegister(h);
    if Committed(h) != [] {
      OneHitFallsBackOneCommit(h, HitOn(prev, hit));
    }
  }

  /**
   One damage event on state.json after any run that spared it. What is read next is the last state written or
   the one before it, or damage is reported; it reads as a fresh store only if at most one state was ever written.
   */
  lemma DamagedStateFallsBackOneWrite(v: Verifier, es: seq<Event>, prev: bool, hit: Hit)
    requires Intact(StateFile, es)
    ensures var d := Run(v, EMPTY_DISK, es);
            FallsBackOneWrite(ReadState(d), ReadState(Step(v, d, Damage(StateFile, prev, hit))), StatesWritten(v, es),
                              prev, hit)
  {
    FilesAreRegisters(v, es);
    AlignedUndamaged(StateHistory(v, es), es, StateFile);
    RegisterFallsBack(Run(v, EMPTY_DISK, es), StateHistory(v, es), prev, hit);
  }

  // ----- state.json: the accepted version never goes back -----

  /** state.json is whole, or the store has never written it. */
  ghost predicate StateIntact(d: Disk) {
    && (d.state.main.Content? || d.state == Fresh())
    && MainState(d).highestVersion >= 0
  }

  function MainState(d: Disk): StoreState {
    if d.state.main.Content? then d.state.main.value else ZERO_STATE
  }

  function Version(d: Disk): int {
    MainState(d).highestVersion
  }

  lemma IntactStateIsRead(d: Disk)
    requires StateIntact(d)
    ensures ReadState(d) == Found(MainState(d))
  {
  }

  /** The state a call writes to state.json, always as its last file. */
  ghost function StatePut(dec: Decision): Option<StoreState> {
    if dec.puts != [] && dec.puts[|dec.puts| - 1].PutState? then Some(dec.puts[|dec.puts| - 1].st) else None
  }

  /** The new main state took effect. */
  ghost predicate StateReplaced(v: Verifier, d: Disk, c: Call, script: seq<Fate>) {
    var dec := DecisionOf(v, d, c);
    StatePut(dec).Some? && Progresses(d, dec.puts, script)[|dec.puts| - 1].Replaced?
  }

  lemma StateEffect(v: Verifier, d: Disk, c: Call, script: seq<Fate>)
    requires StateIntact(d)
    ensures var d' := RunCall(v, d, c, script).0;
            && (d'.state.main.Content? || d'.state == Fresh())
            && MainState(d') == if StateReplaced(v, d, c, script) then StatePut(DecisionOf(v, d, c)).value
                                else MainState(d)
  {
    CallEffect(v, d, c, script);
  }

  /** No call lowers the accepted version, wherever it is interrupted, and state.json stays whole. */
  lemma VersionStep(v: Verifier, d: Disk, e: Event)
    requires StateIntact(d)
    requires e.Damage? ==> e.file != StateFile
    ensures StateIntact(Step(v, d, e))
    ensures Version(d) <= Version(Step(v, d, e))
  {
    if e.Do? {
      StateEffect(v, d, e.call, e.script);
      IntactStateIsRead(d);
    }
  }

  /** HighestVersion never decreases, over every run with crashes and write errors that spares state.json. */
  lemma {:induction false} VersionNeverDecreases(v: Verifier, d: Disk, es: seq<Event>)
    requires StateIntact(d) && Intact(StateFile, es)
    ensures StateIntact(Run(v, d, es))
    ensures Version(d) <= Version(Run(v, d, es))
    decreases es
  {
    if es != [] {
      TailIntact(StateFile, es);
      VersionStep(v, d, es[0]);
      VersionNeverDecreases(v, Step(v, d, es[0]), es[1..]);
    }
  }
}
