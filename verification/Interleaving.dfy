/**
 The store at the granularity of single file operations, with any number of threads (license/store.go:19-20).
 A locked call reads and replaces files one step at a time; `Load` reads without the lock; the process may
 die between any two steps. The module shows that the lock makes every interleaving end as the calls run one
 after the other in lock order, and what an unlocked `Load` can still see.
 */
module Interleaving {
  import opened TwoSlotFile
  import opened Licence
  import opened Timeline
  import opened Wrappers
  import opened StoreSpec
  import opened StoreRuns
  import opened RollbackGuard
  import opened CrashRecovery

  // ----- One locked call, step by step -----

  /** Where the lock holder stands, with its local variables. */
  datatype Frame =
    | AtState(call: Call)                            // about to read state.json
    | AtStateStat(call: Call)                        // it is missing: about to stat state.json.prev
    | AtStatePrev(call: Call)                        // it is unusable: about to read state.json.prev
    | AtRevoked(call: Call, st: StoreState)
    | AtRevokedStat(call: Call, st: StoreState)
    | AtRevokedPrev(call: Call, st: StoreState)
    | AtPut(puts: seq<Put>, done: Reply, fail: Reply)           // about to read the main file of puts[0]
    | AtCopy(w: Write, puts: seq<Put>, done: Reply, fail: Reply) // about to replace its .prev
    | AtMain(puts: seq<Put>, done: Reply, fail: Reply)          // about to replace its main file
    | Finished(reply: Reply)

  function Continue(puts: seq<Put>, done: Reply, fail: Reply): Frame {
    if puts == [] then Finished(done) else AtPut(puts, done, fail)
  }

  function Begin(dec: Decision): Frame {
    Continue(dec.puts, dec.done, dec.fail)
  }

  function Enter(c: Call): Frame {
    if NeedsState(c) then AtState(c) else AtRevoked(c, ZERO_STATE)
  }

  function AfterState(v: Verifier, c: Call, st: StoreState): Frame {
    if NeedsRevoked(c) then AtRevoked(c, st) else Begin(Decide(v, c, st, {}))
  }

  predicate Reads(f: Frame) {
    !f.AtCopy? && !f.AtMain? && !f.Finished?
  }

  /** One read or stat by the lock holder. */
  function ReadStep(v: Verifier, f: Frame, d: Disk): Frame
    requires Reads(f) && (f.AtPut? ==> f.puts != [])
  {
    match f
    case AtState(c) =>
      if d.state.main.Content? then AfterState(v, c, d.state.main.value)
      else if d.state.main.Absent? then AtStateStat(c) else AtStatePrev(c)
    case AtStateStat(c) =>
      if d.state.prev.Absent? then AfterState(v, c, ZERO_STATE) else AtStatePrev(c)
    case AtStatePrev(c) =>
      if d.state.prev.Content? then AfterState(v, c, d.state.prev.value) else Finished(Failed(StateDamaged))
    case AtRevoked(c, st) =>
      if d.revoked.main.Content? then Begin(Decide(v, c, st, d.revoked.main.value))
      else if d.revoked.main.Absent? then AtRevokedStat(c, st) else AtRevokedPrev(c, st)
    case AtRevokedStat(c, st) =>
      if d.revoked.prev.Absent? then Begin(Decide(v, c, st, {})) else AtRevokedPrev(c, st)
    case AtRevokedPrev(c, st) =>
      if d.revoked.prev.Content? then Begin(Decide(v, c, st, d.revoked.prev.value)) else Finished(Failed(StateDamaged))
    case AtPut(puts, done, fail) =>
      var w := PrevWrite(d, puts[0]);
      if w.Some? then AtCopy(w.value, puts, done, fail) else AtMain(puts, done, fail)
  }

  /** One replacement by the lock holder. */
  function WriteStep(f: Frame, d: Disk, fate: Fate): (Frame, Disk)
    requires (f.AtCopy? || f.AtMain?) && f.puts != []
  {
    var w := if f.AtCopy? then f.w else MainWrite(f.puts[0]);
    var next := if f.AtCopy? then AtMain(f.puts, f.done, f.fail) else Continue(f.puts[1..], f.done, f.fail);
    match fate
    case Done => (next, Apply(d, w))
    case ErrorApplied => (Finished(f.fail), Apply(d, w))
    case ErrorLost => (Finished(f.fail), d)
  }

  /** What a frame remembers of the disk; it stays true because nobody else writes. */
  ghost predicate FrameOk(f: Frame, d: Disk) {
    match f
    case AtState(c) => NeedsState(c)
    case AtStateStat(c) => NeedsState(c) && d.state.main.Absent?
    case AtStatePrev(c) => NeedsState(c) && !d.state.main.Content? && d.state != Fresh()
    case AtRevoked(c, st) => NeedsRevoked(c)
    case AtRevokedStat(c, st) => NeedsRevoked(c) && d.revoked.main.Absent?
    case AtRevokedPrev(c, st) => NeedsRevoked(c) && !d.revoked.main.Content? && d.revoked != Fresh()
    case AtPut(puts, _, _) => puts != []
    case AtCopy(w, puts, _, _) => puts != [] && PrevWrite(d, puts[0]) == Some(w)
    case AtMain(puts, _, _) => puts != []
    case Finished(_) => true
  }

  /** The outcome still ahead of a frame if the disk stays as it is and the coming writes meet these fates. */
  ghost function Ahead(v: Verifier, f: Frame, d: Disk, script: seq<Fate>): Outcome {
    match f
    case AtState(c) => RunDecision(d, LockedDecision(v, d, c), script)
    case AtStateStat(c) => RunDecision(d, LockedDecision(v, d, c), script)
    case AtStatePrev(c) => RunDecision(d, LockedDecision(v, d, c), script)
    case AtRevoked(c, st) => RunDecision(d, DecideOnRevoked(v, d, c, st), script)
    case AtRevokedStat(c, st) => RunDecision(d, DecideOnRevoked(v, d, c, st), script)
    case AtRevokedPrev(c, st) => RunDecision(d, DecideOnRevoked(v, d, c, st), script)
    case AtPut(puts, done, fail) => RunWrites(d, Expand(d, puts), script, done, fail)
    case AtCopy(w, puts, done, fail) => RunWrites(d, Expand(d, puts), script, done, fail)
    case AtMain(puts, done, fail) =>
      if puts == [] then (d, None)
      else RunWrites(d, [MainWrite(puts[0])] + Expand(Apply(d, MainWrite(puts[0])), puts[1..]), script, done, fail)
    case Finished(reply) => (d, Some(reply))
  }

  ghost function RunDecision(d: Disk, dec: Decision, script: seq<Fate>): Outcome {
    RunWrites(d, Expand(d, dec.puts), script, dec.done, dec.fail)
  }

  lemma BeginIsAhead(v: Verifier, dec: Decision, d: Disk, script: seq<Fate>)
    ensures Ahead(v, Begin(dec), d, script) == RunDecision(d, dec, script)
    ensures FrameOk(Begin(dec), d)
  {
  }

  /** A read changes nothing about what is ahead. */
  lemma ReadKeepsAhead(v: Verifier, f: Frame, d: Disk, script: seq<Fate>)
    requires Reads(f) && FrameOk(f, d)
    ensures FrameOk(ReadStep(v, f, d), d)
    ensures Ahead(v, ReadStep(v, f, d), d, script) == Ahead(v, f, d, script)
  {
    match f {
      case AtState(c) => StateReadKeeps(v, c, d.state.main, d, script);
      case AtStateStat(c) => if d.state.prev.Absent? { StateReadKeeps(v, c, Content(ZERO_STATE), d, script); }
      case AtStatePrev(c) => StateReadKeeps(v, c, d.state.prev, d, script);
      case AtRevoked(c, st) =>
        if d.revoked.main.Content? { BeginIsAhead(v, Decide(v, c, st, d.revoked.main.value), d, script); }
      case AtRevokedStat(c, st) => if d.revoked.prev.Absent? { BeginIsAhead(v, Decide(v, c, st, {}), d, script); }
      case AtRevokedPrev(c, st) =>
        if d.revoked.prev.Content? { BeginIsAhead(v, Decide(v, c, st, d.revoked.prev.value), d, script); }
      case AtPut(puts, done, fail) =>
        assert PrevWrite(d, puts[0]).None? ==> ApplyAll(d, Durable(d, puts[0])) == Apply(d, MainWrite(puts[0])) by {
          ApplyDurable(d, puts[0]);
        }
      case _ =>
    }
  }

  lemma StateReadKeeps(v: Verifier, c: Call, f: File<StoreState>, d: Disk, script: seq<Fate>)
    requires NeedsState(c)
    ensures f.Content? && ReadState(d) == Found(f.value) ==>
              && FrameOk(AfterState(v, c, f.value), d)
              && Ahead(v, AfterState(v, c, f.value), d, script) == RunDecision(d, LockedDecision(v, d, c), script)
  {
    if f.Content? && !NeedsRevoked(c) {
      BeginIsAhead(v, Decide(v, c, f.value, {}), d, script);
    }
  }

  lemma OneFate(d: Disk, w: Write, rest: seq<Write>, fate: Fate, script: seq<Fate>, done: Reply, fail: Reply)
    ensures RunWrites(d, [w] + rest, [fate] + script, done, fail) ==
            match fate
            case Done => RunWrites(Apply(d, w), rest, script, done, fail)
            case ErrorApplied => (Apply(d, w), Some(fail))
            case ErrorLost => (d, Some(fail))
  {
    var ws, all := [w] + rest, [fate] + script;
    assert ws[0] == w && ws[1..] == rest && all[0] == fate && all[1..] == script;
  }

  /** A replacement consumes one fate of what was ahead. */
  lemma WriteConsumesOneFate(v: Verifier, f: Frame, d: Disk, fate: Fate, script: seq<Fate>)
    requires (f.AtCopy? || f.AtMain?) && FrameOk(f, d)
    ensures var (f', d') := WriteStep(f, d, fate);
            FrameOk(f', d') && Ahead(v, f', d', script) == Ahead(v, f, d, [fate] + script)
  {
    var p := f.puts[0];
    if f.AtMain? {
      var tail := Expand(Apply(d, MainWrite(p)), f.puts[1..]);
      OneFate(d, MainWrite(p), tail, fate, script, f.done, f.fail);
      ContinueIsAhead(v, f.puts[1..], f.done, f.fail, Apply(d, MainWrite(p)), script);
    } else {
      ApplyDurable(d, p);
      var tail := Expand(Apply(Apply(d, f.w), MainWrite(p)), f.puts[1..]);
      assert Expand(d, f.puts) == [f.w, MainWrite(p)] + tail == [f.w] + ([MainWrite(p)] + tail);
      OneFate(d, f.w, [MainWrite(p)] + tail, fate, script, f.done, f.fail);
    }
  }

  lemma ContinueIsAhead(v: Verifier, puts: seq<Put>, done: Reply, fail: Reply, d: Disk, script: seq<Fate>)
    ensures FrameOk(Continue(puts, done, fail), d)
    ensures Ahead(v, Continue(puts, done, fail), d, script) == RunWrites(d, Expand(d, puts), script, done, fail)
  {
  }

  // ----- The unlocked Load, step by step -----

  datatype LoadFrame =
    | AtCurrent | AtCurrentStat | AtCurrentPrev
    | LoadState(doc: Document) | LoadStateStat(doc: Document) | LoadStatePrev(doc: Document)
    | LoadDone(reply: Reply)

  function LoadStep(v: Verifier, f: LoadFrame, d: Disk): LoadFrame {
    match f
    case AtCurrent =>
      if Parsed(d.current.main, v.Doc).Some? then LoadState(Parsed(d.current.main, v.Doc).value)
      else if d.current.main.Absent? then AtCurrentStat else AtCurrentPrev
    case AtCurrentStat => if d.current.prev.Absent? then LoadDone(Failed(NoLicense)) else AtCurrentPrev
    case AtCurrentPrev =>
      if Parsed(d.current.prev, v.Doc).Some? then LoadState(Parsed(d.current.prev, v.Doc).value)
      else LoadDone(Failed(StateDamaged))
    case LoadState(doc) =>
      if d.state.main.Content? then LoadDone(CheckLoaded(doc, d.state.main.value))
      else if d.state.main.Absent? then LoadStateStat(doc) else LoadStatePrev(doc)
    case LoadStateStat(doc) =>
      if d.state.prev.Absent? then LoadDone(CheckLoaded(doc, ZERO_STATE)) else LoadStatePrev(doc)
    case LoadStatePrev(doc) =>
      if d.state.prev.Content? then LoadDone(CheckLoaded(doc, d.state.prev.value)) else LoadDone(Failed(StateDamaged))
    case LoadDone(_) => f
  }

  function LoadSteps(v: Verifier, f: LoadFrame, d: Disk, n: nat): LoadFrame
    decreases n
  {
    if n == 0 then f else LoadSteps(v, LoadStep(v, f, d), d, n - 1)
  }

  /** On an unchanging disk the stepwise Load is the atomic one. */
  lemma UndisturbedLoad(v: Verifier, d: Disk)
    ensures LoadSteps(v, AtCurrent, d, 6) == LoadDone(Load(v, d))
  {
    var f1 := LoadStep(v, AtCurrent, d);
    var f2 := LoadStep(v, f1, d);
    var f3 := LoadStep(v, f2, d);
    var f4 := LoadStep(v, f3, d);
    var f5 := LoadStep(v, f4, d);
    var f6 := LoadStep(v, f5, d);
    assert LoadSteps(v, f4, d, 2) == f6;
    assert LoadSteps(v, f2, d, 4) == LoadSteps(v, f4, d, 2);
  }

  // ----- The process -----

  /** The thread inside the mutex; `base` records the disk at the moment it took the lock. */
  datatype Holder = Holder(call: Call, frame: Frame, script: seq<Fate>, base: Disk)

  /**
   A Load in progress; `floor` records the accepted version on disk when it began, `seen` the disk at its read of
   current.json and `since` how many calls had left the mutex by then.
   */
  datatype Loader = Loader(frame: LoadFrame, floor: int, seen: Disk, since: nat)

  function LoaderReads(v: Verifier, l: Loader, d: Disk, left: nat): Loader {
    var next := l.(frame := LoadStep(v, l.frame, d));
    if l.frame.AtCurrent? then next.(seen := d, since := left) else next
  }

  /** A call that left the mutex, in lock order; no reply if the process died inside it. */
  datatype Entry = Entry(call: Call, script: seq<Fate>, reply: Option<Reply>)

  datatype Process = Process(disk: Disk, holder: Option<Holder>, loads: map<nat, Loader>, log: seq<Entry>)

  datatype Action =
    | Acquire(call: Call)
    | AcquireEvaluate(thread: nat, now: Time)
    | HolderReads
    | HolderWrites(fate: Fate)
    | Release
    | BeginLoad(thread: nat)
    | LoadReads(thread: nat)
    | Crash

  function Enlist(p: Process, c: Call): Process {
    p.(holder := Some(Holder(c, Enter(c), [], p.disk)))
  }

  /** One step of the process; an action that is not enabled does nothing. */
  function Act(v: Verifier, p: Process, a: Action): Process {
    match a
    case Acquire(c) =>
      if p.holder.None? && !c.EvaluateLoaded? && PreCheck(v, c).None? then Enlist(p, c) else p
    case AcquireEvaluate(t, now) =>
      if p.holder.None? && t in p.loads && p.loads[t].frame.LoadDone? && p.loads[t].frame.reply.Loaded?
      then Enlist(p, EvaluateLoaded(p.loads[t].frame.reply.doc, now)) else p
    case HolderReads =>
      if && p.holder.Some? && Reads(p.holder.value.frame)
         && (p.holder.value.frame.AtPut? ==> p.holder.value.frame.puts != [])
      then p.(holder := Some(p.holder.value.(frame := ReadStep(v, p.holder.value.frame, p.disk)))) else p
    case HolderWrites(fate) =>
      if && p.holder.Some? && (p.holder.value.frame.AtCopy? || p.holder.value.frame.AtMain?)
         && p.holder.value.frame.puts != []
      then
        var (f, d) := WriteStep(p.holder.value.frame, p.disk, fate);
        p.(disk := d, holder := Some(p.holder.value.(frame := f, script := p.holder.value.script + [fate])))
      else p
    case Release =>
      if p.holder.Some? && p.holder.value.frame.Finished?
      then p.(holder := None,
              log := p.log + [Entry(p.holder.value.call, p.holder.value.script, Some(p.holder.value.frame.reply))])
      else p
    case BeginLoad(t) => p.(loads := p.loads[t := Loader(AtCurrent, Version(p.disk), p.disk, |p.log|)])
    case LoadReads(t) =>
      if t in p.loads then p.(loads := p.loads[t := LoaderReads(v, p.loads[t], p.disk, |p.log|)]) else p
    case Crash =>
      Process(p.disk, None, map[],
              if p.holder.Some? then p.log + [Entry(p.holder.value.call, p.holder.value.script, None)] else p.log)
  }

  function Acts(v: Verifier, p: Process, actions: seq<Action>): Process
    decreases actions
  {
    if actions == [] then p else Acts(v, Act(v, p, actions[0]), actions[1..])
  }

  function Boot(d: Disk): Process {
    Process(d, None, map[], [])
  }

  // ----- Serial equivalence -----

  ghost function Events(log: seq<Entry>): seq<Event> {
    seq(|log|, i requires 0 <= i < |log| => Do(log[i].call, log[i].script))
  }

  /** The calls that went through the lock, the current holder as far as it got. */
  ghost function LockOrder(p: Process): seq<Event> {
    if p.holder.None? then Events(p.log) else Events(p.log) + [Do(p.holder.value.call, p.holder.value.script)]
  }

  /** Every reply is the one the call would have given alone, at its place in lock order. */
  ghost predicate RepliesSerial(v: Verifier, d0: Disk, log: seq<Entry>) {
    forall i | 0 <= i < |log| && log[i].reply.Some? ::
      log[i].reply == RunCall(v, Run(v, d0, Events(log[..i])), log[i].call, log[i].script).1
  }

  ghost predicate HolderOk(v: Verifier, h: Holder, d: Disk) {
    && FrameOk(h.frame, d)
    && (forall ext :: RunCall(v, h.base, h.call, h.script + ext) == Ahead(v, h.frame, d, ext))
  }

  ghost predicate Serial(v: Verifier, d0: Disk, p: Process) {
    && RepliesSerial(v, d0, p.log)
    && match p.holder
       case None => p.disk == Run(v, d0, Events(p.log))
       case Some(h) => h.base == Run(v, d0, Events(p.log)) && HolderOk(v, h, p.disk)
  }

  lemma EnterOk(v: Verifier, c: Call, d: Disk)
    requires PreCheck(v, c).None?
    ensures HolderOk(v, Holder(c, Enter(c), [], d), d)
  {
    forall ext ensures RunCall(v, d, c, [] + ext) == Ahead(v, Enter(c), d, ext) {
      assert [] + ext == ext;
    }
  }

  lemma WriteOk(v: Verifier, h: Holder, d: Disk, fate: Fate)
    requires HolderOk(v, h, d) && (h.frame.AtCopy? || h.frame.AtMain?)
    ensures var (f, d') := WriteStep(h.frame, d, fate);
            HolderOk(v, h.(frame := f, script := h.script + [fate]), d')
  {
    var (f, d') := WriteStep(h.frame, d, fate);
    WriteConsumesOneFate(v, h.frame, d, fate, []);
    forall ext ensures RunCall(v, h.base, h.call, h.script + [fate] + ext) == Ahead(v, f, d', ext) {
      WriteConsumesOneFate(v, h.frame, d, fate, ext);
      assert h.script + [fate] + ext == h.script + ([fate] + ext);
    }
  }

  lemma ReadOk(v: Verifier, h: Holder, d: Disk)
    requires HolderOk(v, h, d) && Reads(h.frame)
    ensures HolderOk(v, h.(frame := ReadStep(v, h.frame, d)), d)
  {
    ReadKeepsAhead(v, h.frame, d, []);
    forall ext ensures RunCall(v, h.base, h.call, h.script + ext) == Ahead(v, ReadStep(v, h.frame, d), d, ext) {
      ReadKeepsAhead(v, h.frame, d, ext);
    }
  }

  /** The disk at any moment, holder inside or not, is a crash point of the serial run. */
  lemma HolderDisk(v: Verifier, h: Holder, d: Disk)
    requires HolderOk(v, h, d)
    ensures RunCall(v, h.base, h.call, h.script).0 == d
    ensures h.frame.Finished? ==> RunCall(v, h.base, h.call, h.script).1 == Some(h.frame.reply)
  {
    assert h.script + [] == h.script;
    assert RunCall(v, h.base, h.call, h.script + []) == Ahead(v, h.frame, d, []);
  }

  lemma ClosesEntry(v: Verifier, d0: Disk, p: Process, reply: Option<Reply>)
    requires Serial(v, d0, p) && p.holder.Some?
    requires var h := p.holder.value; reply == None || (h.frame.Finished? && reply == Some(h.frame.reply))
    ensures var log' := p.log + [Entry(p.holder.value.call, p.holder.value.script, reply)];
            RepliesSerial(v, d0, log') && p.disk == Run(v, d0, Events(log'))
  {
    var h := p.holder.value;
    var log' := p.log + [Entry(h.call, h.script, reply)];
    HolderDisk(v, h, p.disk);
    assert Events(log') == Events(p.log) + [Do(h.call, h.script)];
    RunConcat(v, d0, Events(p.log), [Do(h.call, h.script)]);
    assert [Do(h.call, h.script)][1..] == [];
    assert Run(v, h.base, [Do(h.call, h.script)]) == p.disk;
    forall i | 0 <= i < |log'| && log'[i].reply.Some?
      ensures log'[i].reply == RunCall(v, Run(v, d0, Events(log'[..i])), log'[i].call, log'[i].script).1
    {
      assert log'[..i] == p.log[..i];
      if i == |p.log| {
        assert p.log[..i] == p.log;
      }
    }
  }

  lemma SerialStep(v: Verifier, d0: Disk, p: Process, a: Action)
    requires Serial(v, d0, p)
    ensures Serial(v, d0, Act(v, p, a))
  {
    match a {
      case Acquire(c) => if PreCheck(v, c).None? { EnterOk(v, c, p.disk); }
      case AcquireEvaluate(t, now) =>
        if t in p.loads && p.loads[t].frame.LoadDone? && p.loads[t].frame.reply.Loaded? {
          EnterOk(v, EvaluateLoaded(p.loads[t].frame.reply.doc, now), p.disk);
        }
      case HolderReads => if p.holder.Some? && Reads(p.holder.value.frame) { ReadOk(v, p.holder.value, p.disk); }
      case HolderWrites(fate) =>
        if p.holder.Some? && (p.holder.value.frame.AtCopy? || p.holder.value.frame.AtMain?) {
          WriteOk(v, p.holder.value, p.disk, fate);
        }
      case Release =>
        if p.holder.Some? && p.holder.value.frame.Finished? {
          ClosesEntry(v, d0, p, Some(p.holder.value.frame.reply));
        }
      case Crash => if p.holder.Some? { ClosesEntry(v, d0, p, None); }
      case _ =>
    }
  }

  lemma {:induction false} SerialActs(v: Verifier, d0: Disk, p: Process, actions: seq<Action>)
    requires Serial(v, d0, p)
    ensures Serial(v, d0, Acts(v, p, actions))
    decreases actions
  {
    if actions != [] {
      SerialStep(v, d0, p, actions[0]);
      SerialActs(v, d0, Act(v, p, actions[0]), actions[1..]);
    }
  }

  /**
   No lost update. For every interleaving of every set of threads, with write errors and crashes anywhere: at each
   moment the files are those of the calls run one at a time in lock order (the holder as far as it got), and
   every call that returned gave the reply it gives in that serial run.
   */
  lemma EveryInterleavingIsSerial(v: Verifier, d0: Disk, actions: seq<Action>)
    ensures var p := Acts(v, Boot(d0), actions);
            p.disk == Run(v, d0, LockOrder(p)) && RepliesSerial(v, d0, p.log) && NoDamage(LockOrder(p))
  {
    SerialActs(v, d0, Boot(d0), actions);
    SerialDisk(v, d0, Acts(v, Boot(d0), actions));
  }

  lemma SerialDisk(v: Verifier, d0: Disk, p: Process)
    requires Serial(v, d0, p)
    ensures p.disk == Run(v, d0, LockOrder(p)) && NoDamage(LockOrder(p))
  {
    if p.holder.Some? {
      var h := p.holder.value;
      HolderDisk(v, h, p.disk);
      RunConcat(v, d0, Events(p.log), [Do(h.call, h.script)]);
      assert [Do(h.call, h.script)][1..] == [];
      assert Run(v, h.base, [Do(h.call, h.script)]) == p.disk;
    }
  }

  // ----- What the holder read is still there when it writes -----

  predicate SameMain(p: Put, a: Disk, b: Disk) {
    match p
    case PutCurrent(_) => a.current.main == b.current.main
    case PutState(_) => a.state.main == b.state.main
    case PutRevoked(_) => a.revoked.main == b.revoked.main
  }

  predicate SameFile(p: Put, q: Put) {
    (p.PutCurrent? && q.PutCurrent?) || (p.PutState? && q.PutState?) || (p.PutRevoked? && q.PutRevoked?)
  }

  /**
   No file is replaced twice, only current.json comes before another file, and the files still to be replaced are as
   they were when the lock was taken.
   */
  ghost predicate PutsUntouched(puts: seq<Put>, base: Disk, d: Disk) {
    && (forall i | 0 <= i < |puts| :: SameMain(puts[i], base, d))
    && (forall i | 0 <= i < |puts| - 1 :: puts[i].PutCurrent?)
    && (forall i, j | 0 <= i < j < |puts| :: !SameFile(puts[i], puts[j]))
  }

  ghost predicate Untouched(f: Frame, base: Disk, d: Disk) {
    match f
    case AtPut(puts, _, _) => PutsUntouched(puts, base, d) && ReadsUntouched(base, d)
    case AtCopy(_, puts, _, _) => PutsUntouched(puts, base, d) && ReadsUntouched(base, d)
    case AtMain(puts, _, _) => PutsUntouched(puts, base, d) && ReadsUntouched(base, d)
    case Finished(_) => true
    case _ => d == base
  }

  /** Both files still read as they did, from whichever copy. */
  ghost predicate ReadsUntouched(base: Disk, d: Disk) {
    ReadState(d) == ReadState(base) && ReadRevoked(d) == ReadRevoked(base)
  }

  ghost predicate HolderUntouched(p: Process) {
    p.holder.Some? ==> Untouched(p.holder.value.frame, p.holder.value.base, p.disk)
  }

  lemma DecideTouchesFilesOnce(v: Verifier, c: Call, st: StoreState, revoked: set<string>, d: Disk)
    ensures Untouched(Begin(Decide(v, c, st, revoked)), d, d)
  {
  }

  lemma ReadUntouched(v: Verifier, f: Frame, base: Disk, d: Disk)
    requires Reads(f) && FrameOk(f, d) && Untouched(f, base, d)
    ensures Untouched(ReadStep(v, f, d), base, d)
  {
    match f {
      case AtState(c) => if d.state.main.Content? { DecideTouchesFilesOnce(v, c, d.state.main.value, {}, d); }
      case AtStateStat(c) => DecideTouchesFilesOnce(v, c, ZERO_STATE, {}, d);
      case AtStatePrev(c) => if d.state.prev.Content? { DecideTouchesFilesOnce(v, c, d.state.prev.value, {}, d); }
      case AtRevoked(c, st) => if d.revoked.main.Content? { DecideTouchesFilesOnce(v, c, st, d.revoked.main.value, d); }
      case AtRevokedStat(c, st) => DecideTouchesFilesOnce(v, c, st, {}, d);
      case AtRevokedPrev(c, st) =>
        if d.revoked.prev.Content? { DecideTouchesFilesOnce(v, c, st, d.revoked.prev.value, d); }
      case _ =>
    }
  }

  lemma WriteUntouched(f: Frame, base: Disk, d: Disk, fate: Fate)
    requires (f.AtCopy? || f.AtMain?) && FrameOk(f, d) && Untouched(f, base, d)
    ensures var (f', d') := WriteStep(f, d, fate); Untouched(f', base, d')
  {
  }

  lemma UntouchedStep(v: Verifier, d0: Disk, p: Process, a: Action)
    requires Serial(v, d0, p) && HolderUntouched(p)
    ensures HolderUntouched(Act(v, p, a))
  {
    match a {
      case HolderReads =>
        if p.holder.Some? && Reads(p.holder.value.frame) {
          ReadUntouched(v, p.holder.value.frame, p.holder.value.base, p.disk);
        }
      case HolderWrites(fate) =>
        if p.holder.Some? && (p.holder.value.frame.AtCopy? || p.holder.value.frame.AtMain?) {
          WriteUntouched(p.holder.value.frame, p.holder.value.base, p.disk, fate);
        }
      case _ =>
    }
  }

  lemma {:induction false} UntouchedActs(v: Verifier, d0: Disk, p: Process, actions: seq<Action>)
    requires Serial(v, d0, p) && HolderUntouched(p)
    ensures HolderUntouched(Acts(v, p, actions))
    decreases actions
  {
    if actions != [] {
      SerialStep(v, d0, p, actions[0]);
      UntouchedStep(v, d0, p, actions[0]);
      UntouchedActs(v, d0, Act(v, p, actions[0]), actions[1..]);
    }
  }

  /**
   Whenever a lock holder is about to write, state.json and revoked.json still read as they did when it took the lock,
   through `.prev` or not, and the file it replaces is still the one it found.
   */
  lemma ReadIsStillThereAtWrite(v: Verifier, d0: Disk, actions: seq<Action>)
    ensures var p := Acts(v, Boot(d0), actions);
            p.holder.Some? && (p.holder.value.frame.AtCopy? || p.holder.value.frame.AtMain?) ==>
              && ReadState(p.disk) == ReadState(p.holder.value.base)
              && ReadRevoked(p.disk) == ReadRevoked(p.holder.value.base)
              && p.holder.value.frame.puts != []
              && SameMain(p.holder.value.frame.puts[0], p.holder.value.base, p.disk)
  {
    SerialActs(v, d0, Boot(d0), actions);
    UntouchedActs(v, d0, Boot(d0), actions);
  }

  // ----- What an unlocked Load can see -----

  /** The guarantees for crash-only runs therefore hold at every moment of every interleaving. */
  lemma LoadableAtEveryMoment(v: Verifier, actions: seq<Action>)
    requires v.Sound()
    ensures var d := Acts(v, Boot(EMPTY_DISK), actions).disk;
            StateIntact(d) && (Version(d) > 0 ==> Load(v, d).Loaded? && Load(v, d).doc.licenseVersion >= Version(d))
  {
    var p := Acts(v, Boot(EMPTY_DISK), actions);
    EveryInterleavingIsSerial(v, EMPTY_DISK, actions);
    CrashAloneNeverFailsLoad(v, LockOrder(p));
    VersionNeverDecreases(v, EMPTY_DISK, LockOrder(p));
  }

  /** An Install that returned success is a lower bound for the accepted version from then on. */
  lemma InstalledIsALowerBound(v: Verifier, d0: Disk, actions: seq<Action>, i: nat)
    requires StateIntact(d0)
    requires var log := Acts(v, Boot(d0), actions).log;
             i < |log| && log[i].call.Install? && log[i].reply.Some? && log[i].reply.value.Installed?
    ensures var p := Acts(v, Boot(d0), actions); Version(p.disk) >= p.log[i].reply.value.doc.licenseVersion
  {
    var p := Acts(v, Boot(d0), actions);
    EveryInterleavingIsSerial(v, d0, actions);
    var before, e := Events(p.log[..i]), Do(p.log[i].call, p.log[i].script);
    var rest := LockOrder(p)[i + 1..];
    SplitLockOrder(p, i);
    RunConcat(v, d0, before, [e] + rest);
    VersionNeverDecreases(v, d0, before);
    InstalledThenRun(v, Run(v, d0, before), e, rest);
  }

  /** A revocation that returned success is on disk from then on, whatever else runs at the same time. */
  lemma RevocationIsNeverLost(v: Verifier, d0: Disk, actions: seq<Action>, i: nat)
    requires RevokedIntact(d0)
    requires var log := Acts(v, Boot(d0), actions).log;
             i < |log| && log[i].call.AddRevocation? && log[i].reply == Some(Stored)
    ensures var p := Acts(v, Boot(d0), actions); p.log[i].call.id in RevokedIds(p.disk)
  {
    var p := Acts(v, Boot(d0), actions);
    EveryInterleavingIsSerial(v, d0, actions);
    var before, e := Events(p.log[..i]), Do(p.log[i].call, p.log[i].script);
    var rest := LockOrder(p)[i + 1..];
    SplitLockOrder(p, i);
    RunConcat(v, d0, before, [e] + rest);
    RevokedOnlyGrows(v, d0, before);
    var d := Run(v, d0, before);
    RevokedAfterSuccess(v, d, e.call.id, e.script);
    assert ([e] + rest)[0] == e && ([e] + rest)[1..] == rest;
    RevokedStep(v, d, e);
    RevokedOnlyGrows(v, Step(v, d, e), rest);
  }

  lemma SplitLockOrder(p: Process, i: nat)
    requires i < |p.log|
    ensures i + 1 <= |LockOrder(p)|
    ensures LockOrder(p) == Events(p.log[..i]) + ([Do(p.log[i].call, p.log[i].script)] + LockOrder(p)[i + 1..])
  {
    var order := LockOrder(p);
    assert order[..i] == Events(p.log[..i]);
    assert order[i..] == [Do(p.log[i].call, p.log[i].script)] + order[i + 1..];
  }

  lemma InstalledThenRun(v: Verifier, d: Disk, e: Event, rest: seq<Event>)
    requires StateIntact(d) && Intact(StateFile, rest) && e.Do? && e.call.Install?
    requires RunCall(v, d, e.call, e.script).1.Some? && RunCall(v, d, e.call, e.script).1.value.Installed?
    ensures Version(Run(v, d, [e] + rest)) >= RunCall(v, d, e.call, e.script).1.value.doc.licenseVersion
  {
    assert ([e] + rest)[0] == e && ([e] + rest)[1..] == rest;
    SuccessMeansAccepted(v, d, e.call, e.script);
    InstallEffect(v, d, e.call, e.script);
    VersionStep(v, d, e);
    VersionNeverDecreases(v, Step(v, d, e), rest);
  }

  /** What the lock holder is about to write never lowers the accepted version. */
  ghost predicate Raises(f: Frame, d: Disk) {
    match f
    case AtRevoked(c, st) => NeedsState(c) ==> st.highestVersion >= Version(d)
    case AtRevokedStat(c, st) => NeedsState(c) ==> st.highestVersion >= Version(d)
    case AtRevokedPrev(c, st) => NeedsState(c) ==> st.highestVersion >= Version(d)
    case AtPut(puts, _, _) => PutsRaise(puts, Version(d))
    case AtCopy(_, puts, _, _) => PutsRaise(puts, Version(d))
    case AtMain(puts, _, _) => PutsRaise(puts, Version(d))
    case _ => true
  }

  ghost predicate PutsRaise(puts: seq<Put>, version: int) {
    forall i | 0 <= i < |puts| :: puts[i].PutState? ==> i == |puts| - 1 && puts[i].st.highestVersion >= version
  }

  lemma DecideRaises(v: Verifier, c: Call, st: StoreState, revoked: set<string>, version: int)
    requires NeedsState(c) ==> st.highestVersion >= version
    ensures PutsRaise(Decide(v, c, st, revoked).puts, version)
  {
  }

  lemma ReadRaises(v: Verifier, f: Frame, d: Disk)
    requires StateIntact(d) && Reads(f) && FrameOk(f, d) && Raises(f, d)
    ensures Raises(ReadStep(v, f, d), d)
  {
    match f {
      case AtState(c) => DecideRaises(v, c, MainState(d), {}, Version(d));
      case AtStateStat(c) => DecideRaises(v, c, ZERO_STATE, {}, Version(d));
      case AtRevoked(c, st) => if d.revoked.main.Content? { DecideRaises(v, c, st, d.revoked.main.value, Version(d)); }
      case AtRevokedStat(c, st) => DecideRaises(v, c, st, {}, Version(d));
      case AtRevokedPrev(c, st) =>
        if d.revoked.prev.Content? { DecideRaises(v, c, st, d.revoked.prev.value, Version(d)); }
      case _ =>
    }
  }

  lemma WriteRaises(f: Frame, d: Disk, fate: Fate)
    requires StateIntact(d) && (f.AtCopy? || f.AtMain?) && FrameOk(f, d) && Raises(f, d)
    ensures var (f', d') := WriteStep(f, d, fate); StateIntact(d') && Raises(f', d') && Version(d) <= Version(d')
  {
  }

  /** A Load in progress cannot end below the version that was accepted when it began. */
  ghost predicate LoaderOk(l: Loader, d: Disk) {
    && 0 <= l.floor <= Version(d)
    && (l.frame.LoadStateStat? || l.frame.LoadStatePrev? ==> l.floor == 0)
    && (l.frame.LoadDone? && l.frame.reply.Loaded? && l.floor > 0 ==> l.frame.reply.doc.licenseVersion >= l.floor)
  }

  ghost predicate LoadsOk(p: Process) {
    && StateIntact(p.disk)
    && (p.holder.Some? ==> Raises(p.holder.value.frame, p.disk))
    && (forall t | t in p.loads :: LoaderOk(p.loads[t], p.disk))
  }

  lemma LoadsStep(v: Verifier, d0: Disk, p: Process, a: Action)
    requires Serial(v, d0, p) && LoadsOk(p)
    ensures LoadsOk(Act(v, p, a))
  {
    match a {
      case HolderReads =>
        if p.holder.Some? && Reads(p.holder.value.frame) { ReadRaises(v, p.holder.value.frame, p.disk); }
      case HolderWrites(fate) =>
        if p.holder.Some? && (p.holder.value.frame.AtCopy? || p.holder.value.frame.AtMain?) {
          WriteRaises(p.holder.value.frame, p.disk, fate);
        }
      case _ =>
    }
  }

  lemma {:induction false} LoadsActs(v: Verifier, d0: Disk, p: Process, actions: seq<Action>)
    requires Serial(v, d0, p) && LoadsOk(p)
    ensures LoadsOk(Acts(v, p, actions))
    decreases actions
  {
    if actions != [] {
      SerialStep(v, d0, p, actions[0]);
      LoadsStep(v, d0, p, actions[0]);
      LoadsActs(v, d0, Act(v, p, actions[0]), actions[1..]);
    }
  }

  /** In every interleaving, an unlocked Load that succeeds returns at least the version accepted when it began. */
  lemma UnlockedLoadIsNeverStale(v: Verifier, d0: Disk, actions: seq<Action>, t: nat)
    requires StateIntact(d0)
    requires t in Acts(v, Boot(d0), actions).loads
    ensures var l := Acts(v, Boot(d0), actions).loads[t];
            l.frame.LoadDone? && l.frame.reply.Loaded? && l.floor > 0 ==> l.frame.reply.doc.licenseVersion >= l.floor
  {
    LoadsActs(v, d0, Boot(d0), actions);
  }

  /** What crashes alone leave for Load: current.json itself, refused exactly after a torn upgrade. */
  ghost predicate LoadsMain(v: Verifier, d: Disk) {
    && (Load(v, d).Loaded? <==> d.current.main.Content? && !TornUpgrade(v, d))
    && (d.current.main.Content? ==> v.Doc(d.current.main.value).Some?
                                    && (Load(v, d).Loaded? ==> Load(v, d).doc == v.Doc(d.current.main.value).value))
    && (Version(d) > 0 ==> d.current.main.Content?)
  }

  lemma SerialLoadsMain(v: Verifier, p: Process)
    requires v.Sound() && Serial(v, EMPTY_DISK, p)
    ensures LoadsMain(v, p.disk)
  {
    SerialDisk(v, EMPTY_DISK, p);
    var es := LockOrder(p);
    CrashAloneNeverFailsLoad(v, es);
    CurrentHoldsAfterCrashes(v, EMPTY_DISK, es, None);
  }

  /** A Load in progress carries the document of the current.json it read, if there was one. */
  ghost predicate LoaderExact(v: Verifier, l: Loader) {
    !l.frame.AtCurrent? ==>
      && LoadsMain(v, l.seen) && l.floor <= Version(l.seen)
      && (l.seen.current.main.Content? ==>
            var doc := v.Doc(l.seen.current.main.value).value;
            match l.frame
            case LoadState(read) => read == doc
            case LoadStateStat(read) => read == doc
            case LoadStatePrev(read) => read == doc
            case LoadDone(r) => r.Loaded? ==> r.doc == doc
            case _ => false)
  }

  ghost predicate AllExact(v: Verifier, p: Process) {
    forall t | t in p.loads :: LoaderExact(v, p.loads[t])
  }

  lemma LoaderExactStep(v: Verifier, l: Loader, d: Disk, left: nat)
    requires LoaderExact(v, l) && LoaderOk(l, d) && LoadsMain(v, d)
    ensures LoaderExact(v, LoaderReads(v, l, d, left))
  {
  }

  lemma {:induction false} LoadsExact(v: Verifier, p: Process, actions: seq<Action>)
    requires v.Sound() && Serial(v, EMPTY_DISK, p) && LoadsOk(p)
    requires AllExact(v, p)
    ensures AllExact(v, Acts(v, p, actions))
    decreases actions
  {
    if actions != [] {
      SerialLoadsMain(v, p);
      SerialStep(v, EMPTY_DISK, p, actions[0]);
      LoadsStep(v, EMPTY_DISK, p, actions[0]);
      ExactStep(v, p, actions[0]);
      LoadsExact(v, Act(v, p, actions[0]), actions[1..]);
    }
  }

  lemma ExactStep(v: Verifier, p: Process, a: Action)
    requires LoadsOk(p) && LoadsMain(v, p.disk)
    requires AllExact(v, p)
    ensures AllExact(v, Act(v, p, a))
  {
    if a.LoadReads? && a.thread in p.loads {
      LoaderExactStep(v, p.loads[a.thread], p.disk, |p.log|);
    }
  }

  /**
   In every interleaving from an empty directory, an unlocked Load that succeeds returns what a Load under the lock
   would have returned at the moment it read current.json, exactly when that file existed then and no upgrade was half
   done. Both hold for every Load that began after a versioned licence was accepted.
   */
  lemma UnlockedLoadIsAtomicIff(v: Verifier, actions: seq<Action>, t: nat)
    requires v.Sound() && t in Acts(v, Boot(EMPTY_DISK), actions).loads
    ensures var l := Acts(v, Boot(EMPTY_DISK), actions).loads[t];
            l.frame.LoadDone? && l.frame.reply.Loaded? ==>
              && (Load(v, l.seen) == l.frame.reply <==> l.seen.current.main.Content? && !TornUpgrade(v, l.seen))
              && (l.floor > 0 ==> l.seen.current.main.Content? && !TornUpgrade(v, l.seen))
  {
    LoadsExact(v, Boot(EMPTY_DISK), actions);
  }

  /**
   The case without a file: a Load that finds no current.json, while two unversioned licences of the same issued_at are
   installed, goes on to `.prev` and returns the first, though the second is in force.
   */
  lemma EmptyStartReadsPrev(v: Verifier, d: Disk, a: Bytes, b: Bytes)
    requires d.current == Slots(Content(b), Content(a)) && StateIntact(d) && Version(d) == 0
    requires v.Doc(a).Some? && v.Doc(b).Some? && v.Doc(a) != v.Doc(b)
    requires d.state.main.Content?
    requires v.Doc(a).value.issuedAt == v.Doc(b).value.issuedAt == MainState(d).installedIssuedAt
    ensures LoadSteps(v, LoadStep(v, AtCurrent, EMPTY_DISK), d, 3) == LoadDone(Loaded(v.Doc(a).value))
    ensures Load(v, d) == Loaded(v.Doc(b).value)
  {
    IntactStateIsRead(d);
    var f1 := LoadStep(v, AtCurrent, EMPTY_DISK);
    var f2 := LoadStep(v, f1, d);
    var f3 := LoadStep(v, f2, d);
    assert LoadSteps(v, f3, d, 1) == LoadStep(v, f3, d);
    assert LoadSteps(v, f2, d, 2) == LoadSteps(v, f3, d, 1);
  }

  /** Installing both in turn leads to such a disk. */
  lemma TwoInstallsReachIt(v: Verifier, a: Bytes, b: Bytes, now: Time, script: seq<Fate>)
    requires v.Doc(a).Some? && v.Doc(b).Some? && FaultFree(script)
    requires v.Doc(a).value.licenseVersion == v.Doc(b).value.licenseVersion == 0
    requires v.Doc(a).value.issuedAt == v.Doc(b).value.issuedAt
    ensures var d := Run(v, EMPTY_DISK, [Do(Install(a, now), script), Do(Install(b, now), script)]);
            && d.current == Slots(Content(b), Content(a)) && StateIntact(d) && Version(d) == 0
            && d.state.main.Content? && MainState(d).installedIssuedAt == v.Doc(a).value.issuedAt
  {
    var e1, e2 := Do(Install(a, now), script), Do(Install(b, now), script);
    assert [e1, e2][1..] == [e2] && [e2][1..] == [];
    var d1 := Step(v, EMPTY_DISK, e1);
    IntactStateIsRead(EMPTY_DISK);
    CleanInstall(v, EMPTY_DISK, e1.call, script);
    IntactStateIsRead(d1);
    CleanInstall(v, d1, e2.call, script);
    assert Run(v, d1, [e2]) == Step(v, d1, e2);
  }

  lemma CleanInstall(v: Verifier, d: Disk, c: Call, script: seq<Fate>)
    requires StateIntact(d) && Accepts(v, d, c) && FaultFree(script)
    ensures var d', doc := RunCall(v, d, c, script).0, v.Verify(c.raw).value.1;
            && d'.current == SlotStep(d.current, SlotEvent.Put(c.raw, Replaced)) && d'.revoked == d.revoked
            && d'.state.main.Content? && StateIntact(d') && MainState(d').installedIssuedAt == doc.issuedAt
            && Version(d') == if doc.licenseVersion >= Version(d) then doc.licenseVersion else Version(d)
  {
    CleanAttempt(v, d, c, script);
    SuccessMeansAccepted(v, d, c, script);
    InstallEffect(v, d, c, script);
    VersionStep(v, d, Do(c, script));
  }

  /** The events that took the lock after the first n, the holder as far as it got. */
  ghost function LockOrderFrom(p: Process, n: nat): seq<Event>
    requires n <= |p.log|
  {
    LockOrder(p)[n..]
  }

  /** The disk is what the first n logged calls left, followed by those that took the lock after them. */
  lemma SerialFrom(v: Verifier, d0: Disk, p: Process, log: seq<Entry>)
    requires Serial(v, d0, p) && log <= p.log
    ensures p.disk == Run(v, Run(v, d0, Events(log)), LockOrderFrom(p, |log|))
    ensures NoDamage(LockOrderFrom(p, |log|)) && NoDamage(Events(log))
  {
    SerialDisk(v, d0, p);
    var order := LockOrder(p);
    assert order[..|log|] == Events(log);
    assert order == Events(log) + order[|log|..];
    RunConcat(v, d0, Events(log), order[|log|..]);
  }

  // ----- Every serial call is an interleaving -----

  /** How many steps of its own a lock holder has ahead at most. */
  ghost function Distance(f: Frame): nat {
    match f
    case AtState(_) => 15
    case AtStateStat(_) => 14
    case AtStatePrev(_) => 13
    case AtRevoked(_, _) => 12
    case AtRevokedStat(_, _) => 11
    case AtRevokedPrev(_, _) => 10
    case AtPut(puts, _, _) => 3 * |puts|
    case AtCopy(_, puts, _, _) => if puts == [] then 0 else 3 * |puts| - 1
    case AtMain(puts, _, _) => if puts == [] then 0 else 3 * |puts| - 2
    case Finished(_) => 0
  }

  ghost predicate Short(f: Frame) {
    match f
    case AtPut(puts, _, _) => |puts| <= 2
    case AtCopy(_, puts, _, _) => |puts| <= 2
    case AtMain(puts, _, _) => |puts| <= 2
    case _ => true
  }

  lemma ReadComesCloser(v: Verifier, f: Frame, d: Disk)
    requires Reads(f) && FrameOk(f, d) && Short(f)
    ensures Distance(ReadStep(v, f, d)) < Distance(f) && Short(ReadStep(v, f, d))
  {
  }

  lemma WriteComesCloser(f: Frame, d: Disk, fate: Fate)
    requires (f.AtCopy? || f.AtMain?) && FrameOk(f, d) && Short(f)
    ensures Distance(WriteStep(f, d, fate).0) < Distance(f) && Short(WriteStep(f, d, fate).0)
  {
  }

  lemma {:induction false} ActsConcat(v: Verifier, p: Process, a: seq<Action>, b: seq<Action>)
    ensures Acts(v, p, a + b) == Acts(v, Acts(v, p, a), b)
    decreases a
  {
    if a == [] {
      assert a + b == b;
    } else {
      assert (a + b)[0] == a[0] && (a + b)[1..] == a[1..] + b;
      ActsConcat(v, Act(v, p, a[0]), a[1..], b);
    }
  }

  /** The lock holder on its own reaches the end that lies ahead of it, unless the fates run out. */
  lemma {:induction false} HolderFinishes(v: Verifier, p: Process, script: seq<Fate>) returns (actions: seq<Action>)
    requires p.holder.Some? && FrameOk(p.holder.value.frame, p.disk) && Short(p.holder.value.frame)
    requires Ahead(v, p.holder.value.frame, p.disk, script).1.Some?
    ensures var q, out := Acts(v, p, actions), Ahead(v, p.holder.value.frame, p.disk, script);
            && q.holder.Some? && q.holder.value.frame == Finished(out.1.value) && q.disk == out.0
            && q.holder.value.call == p.holder.value.call && q.log == p.log && q.loads == p.loads
    decreases Distance(p.holder.value.frame)
  {
    var f := p.holder.value.frame;
    if f.Finished? {
      actions := [];
    } else if Reads(f) {
      ReadKeepsAhead(v, f, p.disk, script);
      ReadComesCloser(v, f, p.disk);
      var rest := HolderFinishes(v, Act(v, p, HolderReads), script);
      actions := [HolderReads] + rest;
    } else {
      assert script != [];
      var fate := script[0];
      assert script == [fate] + script[1..];
      WriteConsumesOneFate(v, f, p.disk, fate, script[1..]);
      WriteComesCloser(f, p.disk, fate);
      var rest := HolderFinishes(v, Act(v, p, HolderWrites(fate)), script[1..]);
      actions := [HolderWrites(fate)] + rest;
    }
  }

  /**
   Conversely every call that can end ends so in some interleaving: from any process whose lock is free, a call that
   passes its checks can take the lock, have the effect and the reply it has alone, and release the lock.
   */
  lemma EveryCallCanRun(v: Verifier, p: Process, c: Call, script: seq<Fate>) returns (actions: seq<Action>)
    requires p.holder.None? && !c.EvaluateLoaded? && PreCheck(v, c).None? && RunCall(v, p.disk, c, script).1.Some?
    ensures var q, out := Acts(v, p, actions), RunCall(v, p.disk, c, script);
            && q.disk == out.0 && q.holder.None? && |q.log| == |p.log| + 1 && q.log[..|p.log|] == p.log
            && q.log[|p.log|].call == c && q.log[|p.log|].reply == out.1 && q.loads == p.loads
  {
    EnterOk(v, c, p.disk);
    assert [] + script == script;
    var p1 := Act(v, p, Acquire(c));
    assert HolderOk(v, p1.holder.value, p.disk);
    var steps := HolderFinishes(v, p1, script);
    actions := [Acquire(c)] + (steps + [Release]);
    assert actions[0] == Acquire(c) && actions[1..] == steps + [Release];
    ActsConcat(v, p1, steps, [Release]);
    var p2 := Acts(v, p1, steps);
    assert [Release][1..] == [];
    assert Acts(v, p2, [Release]) == Act(v, p2, Release);
  }

  /** And so can an Evaluate whose Load has returned a document. */
  lemma EveryEvaluateCanRun(v: Verifier, p: Process, t: nat, now: Time, script: seq<Fate>)
    returns (actions: seq<Action>)
    requires p.holder.None? && t in p.loads && p.loads[t].frame.LoadDone? && p.loads[t].frame.reply.Loaded?
    requires RunCall(v, p.disk, EvaluateLoaded(p.loads[t].frame.reply.doc, now), script).1.Some?
    ensures var c := EvaluateLoaded(p.loads[t].frame.reply.doc, now);
            var q, out := Acts(v, p, actions), RunCall(v, p.disk, c, script);
            && q.disk == out.0 && q.holder.None? && |q.log| == |p.log| + 1 && q.log[..|p.log|] == p.log
            && q.log[|p.log|].call == c && q.log[|p.log|].reply == out.1
  {
    var c := EvaluateLoaded(p.loads[t].frame.reply.doc, now);
    EnterOk(v, c, p.disk);
    assert [] + script == script;
    var p1 := Act(v, p, AcquireEvaluate(t, now));
    assert HolderOk(v, p1.holder.value, p.disk);
    var steps := HolderFinishes(v, p1, script);
    actions := [AcquireEvaluate(t, now)] + (steps + [Release]);
    assert actions[0] == AcquireEvaluate(t, now) && actions[1..] == steps + [Release];
    ActsConcat(v, p1, steps, [Release]);
    var p2 := Acts(v, p1, steps);
    assert [Release][1..] == [];
    assert Acts(v, p2, [Release]) == Act(v, p2, Release);
  }

  /** A Load that is left alone with the disk returns what it returns there, and remembers where it began. */
  lemma EveryLoadCanRun(v: Verifier, p: Process, t: nat) returns (actions: seq<Action>)
    ensures var q := Acts(v, p, actions);
            && q.disk == p.disk && q.log == p.log && t in q.loads
            && q.loads[t] == Loader(LoadDone(Load(v, p.disk)), Version(p.disk), p.disk, |p.log|)
  {
    var p1 := Act(v, p, BeginLoad(t));
    UndisturbedLoad(v, p.disk);
    var steps := LoadAlone(v, p1, t, 6);
    actions := [BeginLoad(t)] + steps;
    assert actions[0] == BeginLoad(t) && actions[1..] == steps;
  }

  lemma {:induction false} LoadAlone(v: Verifier, p: Process, t: nat, n: nat) returns (actions: seq<Action>)
    requires t in p.loads
    ensures var q := Acts(v, p, actions);
            && q.disk == p.disk && q.log == p.log && t in q.loads
            && q.loads[t].frame == LoadSteps(v, p.loads[t].frame, p.disk, n) && q.loads[t].floor == p.loads[t].floor
            && (p.loads[t].seen == p.disk && p.loads[t].since == |p.log| ==>
                  q.loads[t].seen == p.disk && q.loads[t].since == |p.log|)
    decreases n
  {
    if n == 0 {
      actions := [];
    } else {
      var rest := LoadAlone(v, Act(v, p, LoadReads(t)), t, n - 1);
      actions := [LoadReads(t)] + rest;
      assert actions[0] == LoadReads(t) && actions[1..] == rest;
    }
  }
}
