/**
 The licence store as a function on its directory (license/store.go): what each call reads, whether it is
 refused, and the ordered list of atomic file replacements it performs. The fate of every replacement is an
 input, so a crash or a write error can fall between any two of them.
 */
module StoreSpec {
  import opened TwoSlotFile
  import opened Licence
  import opened Timeline
  import opened Wrappers

  // ----- What is on disk -----

  type Bytes = string

  datatype StoreState = StoreState(installedIssuedAt: Time, highestVersion: int, acceptedId: string,
                                   acceptedFpr: string, highWater: Time, lastCloudValidation: Time)

  const ZERO_STATE := StoreState(0, 0, "", "", 0, 0)

  datatype Disk = Disk(current: Slots<Bytes>, state: Slots<StoreState>, revoked: Slots<set<string>>)

  const EMPTY_DISK := Disk(Slots(Absent, Absent), Slots(Absent, Absent), Slots(Absent, Absent))

  // ----- Signature verification, left abstract -----

  datatype Envelope = Envelope(payload: string, signature: string, keyId: string)

  /** The trusted side of the store: envelope decoding, signature check, payload decoding, payload fingerprint. */
  datatype Verifier = Verifier(decode: Bytes -> Option<Envelope>, authentic: Envelope -> bool,
                               parse: string -> Option<Document>, fingerprint: string -> string)
  {
    /** `DecodeEnvelope` followed by `Verifier.Verify`: the signed payload and its document. */
    function Verify(raw: Bytes): Option<(string, Document)> {
      var e := decode(raw);
      if e.None? || !authentic(e.value) then None
      else
        var doc := parse(e.value.payload);
        if doc.None? || !Valid(doc.value) then None else Some((e.value.payload, doc.value))
    }

    function Doc(raw: Bytes): Option<Document> {
      if Verify(raw).Some? then Some(Verify(raw).value.1) else None
    }

    /** What the store relies on: fingerprints tell payloads apart and are never empty. */
    ghost predicate Sound() {
      && (forall p, q :: fingerprint(p) == fingerprint(q) ==> p == q)
      && (forall p :: fingerprint(p) != "")
    }
  }

  // ----- Reading -----

  function ReadState(d: Disk): ReadResult<StoreState> {
    var r := Read(d.state);
    if r.NotExist? then Found(ZERO_STATE) else r
  }

  function ReadRevoked(d: Disk): ReadResult<set<string>> {
    var r := Read(d.revoked);
    if r.NotExist? then Found({}) else r
  }

  datatype Error = InvalidLicence | StateDamaged | Rollback | NoLicense | NoCentralTime | ClockDisagrees | WriteFailed

  datatype Reply = Installed(doc: Document) | Reset(oldMark: Time) | Stored | Loaded(doc: Document)
                 | Evaluated(ev: Evaluation) | Failed(error: Error)

  predicate Superseded(doc: Document, st: StoreState) {
    if st.highestVersion > 0 then
      || doc.licenseVersion < st.highestVersion
      || (doc.licenseVersion == st.highestVersion && st.acceptedId != "" && doc.licenseId != st.acceptedId)
    else
      st.installedIssuedAt != 0 && doc.issuedAt < st.installedIssuedAt
  }

  /** The end of `Load`, once both files have been read. */
  function CheckLoaded(doc: Document, st: StoreState): Reply {
    if Superseded(doc, st) then Failed(StateDamaged) else Loaded(doc)
  }

  function Load(v: Verifier, d: Disk): Reply {
    var cur := ReadOrPrev(d.current, v.Doc);
    if cur.NotExist? then Failed(NoLicense)
    else if cur.Damaged? || ReadState(d).Damaged? then Failed(StateDamaged)
    else CheckLoaded(cur.value, ReadState(d).value)
  }

  // ----- Writing -----

  datatype Write =
    | WriteCurrent(prev: bool, raw: Bytes)
    | WriteState(prev: bool, st: StoreState)
    | WriteRevoked(prev: bool, ids: set<string>)

  function SetSlot<T>(s: Slots<T>, prev: bool, v: T): Slots<T> {
    if prev then s.(prev := Content(v)) else s.(main := Content(v))
  }

  /** One `writeSynced`: an atomic rename over one path. */
  function Apply(d: Disk, w: Write): Disk {
    match w
    case WriteCurrent(prev, raw) => d.(current := SetSlot(d.current, prev, raw))
    case WriteState(prev, st) => d.(state := SetSlot(d.state, prev, st))
    case WriteRevoked(prev, ids) => d.(revoked := SetSlot(d.revoked, prev, ids))
  }

  function ApplyAll(d: Disk, ws: seq<Write>): Disk
    decreases ws
  {
    if ws == [] then d else ApplyAll(Apply(d, ws[0]), ws[1..])
  }

  /** One `writeDurable` request. */
  datatype Put = PutCurrent(raw: Bytes) | PutState(st: StoreState) | PutRevoked(ids: set<string>)

  function MainWrite(p: Put): Write {
    match p
    case PutCurrent(raw) => WriteCurrent(false, raw)
    case PutState(st) => WriteState(false, st)
    case PutRevoked(ids) => WriteRevoked(false, ids)
  }

  /** The `.prev` copy that precedes it: only a well-formed main file is copied. */
  function PrevWrite(d: Disk, p: Put): Option<Write> {
    match p
    case PutCurrent(_) => if d.current.main.Content? then Some(WriteCurrent(true, d.current.main.value)) else None
    case PutState(_) => if d.state.main.Content? then Some(WriteState(true, d.state.main.value)) else None
    case PutRevoked(_) => if d.revoked.main.Content? then Some(WriteRevoked(true, d.revoked.main.value)) else None
  }

  function Durable(d: Disk, p: Put): seq<Write> {
    if PrevWrite(d, p).Some? then [PrevWrite(d, p).value, MainWrite(p)] else [MainWrite(p)]
  }

  lemma ApplyDurable(d: Disk, p: Put)
    ensures var prev := PrevWrite(d, p);
            ApplyAll(d, Durable(d, p)) == Apply(if prev.Some? then Apply(d, prev.value) else d, MainWrite(p))
  {
    var ws := Durable(d, p);
    if PrevWrite(d, p).Some? {
      assert ws[1..] == [ws[1]] && [ws[1]][1..] == [];
      assert ApplyAll(Apply(d, ws[0]), [ws[1]]) == Apply(Apply(d, ws[0]), ws[1]);
    } else {
      assert ws[1..] == [];
    }
  }

  /** The replacements of several `writeDurable` calls in a row. */
  function Expand(d: Disk, puts: seq<Put>): seq<Write>
    decreases puts
  {
    if puts == [] then [] else Durable(d, puts[0]) + Expand(ApplyAll(d, Durable(d, puts[0])), puts[1..])
  }

  // ----- Calls -----

  datatype Call =
    | Install(raw: Bytes, now: Time)
    | ResetHighWater(central: Time, localNow: Time, skew: int)
    | MarkCloudValidated(now: Time)
    | AddRevocation(id: string)
    | EvaluateLoaded(doc: Document, now: Time)  // the locked part of Evaluate, after its unlocked Load

  /** What a call does once it has read: the files it replaces, and its reply if all writes succeed or one fails. */
  datatype Decision = Decision(puts: seq<Put>, done: Reply, fail: Reply)

  function Refuse(e: Error): Decision {
    Decision([], Failed(e), Failed(e))
  }

  const ROLLBACK_TOLERANCE := 48 * HOUR

  function AdvanceHighWater(st: StoreState, now: Time): StoreState {
    if now > st.highWater then st.(highWater := now) else st
  }

  predicate VersionRefused(doc: Document, fpr: string, st: StoreState) {
    && st.highestVersion > 0
    && (|| doc.licenseVersion < st.highestVersion
        || (&& doc.licenseVersion == st.highestVersion
            && (doc.licenseId != st.acceptedId || (st.acceptedFpr != "" && fpr != st.acceptedFpr))))
  }

  predicate IssuedAtRefused(doc: Document, st: StoreState) {
    var newerVersion := doc.licenseVersion > 0 && doc.licenseVersion > st.highestVersion;
    !newerVersion && st.installedIssuedAt != 0 && doc.issuedAt < st.installedIssuedAt
  }

  function StateAfterInstall(doc: Document, fpr: string, st: StoreState, now: Time): StoreState {
    var st1 := st.(installedIssuedAt := doc.issuedAt);
    var st2 := if doc.licenseVersion >= st1.highestVersion
               then st1.(highestVersion := doc.licenseVersion, acceptedId := doc.licenseId, acceptedFpr := fpr)
               else st1;
    AdvanceHighWater(st2, now)
  }

  function DecideInstall(v: Verifier, raw: Bytes, now: Time, st: StoreState, revoked: set<string>): Decision {
    if v.Verify(raw).None? then Refuse(InvalidLicence)
    else
      var (payload, doc) := v.Verify(raw).value;
      var fpr := v.fingerprint(payload);
      if doc.licenseId in revoked || VersionRefused(doc, fpr, st) || IssuedAtRefused(doc, st) then Refuse(Rollback)
      else Decision([PutCurrent(raw), PutState(StateAfterInstall(doc, fpr, st, now))], Installed(doc),
                    Failed(WriteFailed))
  }

  function RollbackSeen(st: StoreState, now: Time): bool {
    Sub(st.highWater, now) > ROLLBACK_TOLERANCE
  }

  function EvaluationOf(doc: Document, now: Time, st: StoreState, revoked: set<string>): Evaluation {
    var effective := if RollbackSeen(st, now) then st.highWater else now;
    Evaluate(doc, effective, st.lastCloudValidation, doc.licenseId in revoked).(clockRollback := RollbackSeen(st, now))
  }

  /** The high-water write of an evaluation is best effort: a failed one changes nothing in the answer. */
  function DecideEvaluate(doc: Document, now: Time, st: StoreState, revoked: set<string>): Decision {
    var reply := Evaluated(EvaluationOf(doc, now, st, revoked));
    Decision(if now > st.highWater then [PutState(AdvanceHighWater(st, now))] else [], reply, reply)
  }

  predicate NeedsState(c: Call) {
    !c.AddRevocation?
  }

  predicate NeedsRevoked(c: Call) {
    c.Install? || c.EvaluateLoaded? || c.AddRevocation?
  }

  /** `-skew`, which wraps for the least 64-bit value. */
  function Neg64(x: int): int {
    Wrap64(-x)
  }

  /** The checks made before the lock is taken. */
  function PreCheck(v: Verifier, c: Call): Option<Error> {
    match c
    case Install(raw, _) => if v.Verify(raw).None? then Some(InvalidLicence) else None
    case ResetHighWater(central, localNow, skew) =>
      var d := Sub(localNow, central);
      if central == 0 then Some(NoCentralTime)
      else if d > skew || d < Neg64(skew) then Some(ClockDisagrees)
      else None
    case _ => None
  }

  /** The decision under the lock; a file the call does not read is passed as its empty value. */
  function Decide(v: Verifier, c: Call, st: StoreState, revoked: set<string>): Decision {
    match c
    case Install(raw, now) => DecideInstall(v, raw, now, st, revoked)
    case ResetHighWater(central, _, _) =>
      Decision([PutState(st.(highWater := central))], Reset(st.highWater), Failed(WriteFailed))
    case MarkCloudValidated(now) =>
      Decision([PutState(AdvanceHighWater(st.(lastCloudValidation := now), now))], Stored, Failed(WriteFailed))
    case AddRevocation(id) =>
      Decision(if id in revoked then [] else [PutRevoked(revoked + {id})], Stored, Failed(WriteFailed))
    case EvaluateLoaded(doc, now) => DecideEvaluate(doc, now, st, revoked)
  }

  /** The part of a call that reads revoked.json, if it does, and decides. */
  function DecideOnRevoked(v: Verifier, d: Disk, c: Call, st: StoreState): Decision {
    if !NeedsRevoked(c) then Decide(v, c, st, {})
    else if ReadRevoked(d).Damaged? then Refuse(StateDamaged)
    else Decide(v, c, st, ReadRevoked(d).value)
  }

  /** The locked part of a call on an unchanging disk. */
  function LockedDecision(v: Verifier, d: Disk, c: Call): Decision {
    if !NeedsState(c) then DecideOnRevoked(v, d, c, ZERO_STATE)
    else if ReadState(d).Damaged? then Refuse(StateDamaged)
    else DecideOnRevoked(v, d, c, ReadState(d).value)
  }

  /** The whole call on an unchanging disk. */
  function DecisionOf(v: Verifier, d: Disk, c: Call): Decision {
    if PreCheck(v, c).Some? then Refuse(PreCheck(v, c).value) else LockedDecision(v, d, c)
  }

  // ----- Execution with faults -----

  /** Fate of one `writeSynced`: it succeeds, or it reports an error after or before its rename took effect. */
  datatype Fate = Done | ErrorApplied | ErrorLost

  /** Result of a call; `None` means the process died inside it. */
  type Outcome = (Disk, Option<Reply>)

  /** Runs the replacements in order. The first error ends the call; an exhausted script is a crash. */
  function RunWrites(d: Disk, ws: seq<Write>, script: seq<Fate>, done: Reply, fail: Reply): Outcome
    decreases ws
  {
    if ws == [] then (d, Some(done))
    else if script == [] then (d, None)
    else match script[0]
      case Done => RunWrites(Apply(d, ws[0]), ws[1..], script[1..], done, fail)
      case ErrorApplied => (Apply(d, ws[0]), Some(fail))
      case ErrorLost => (d, Some(fail))
  }

  function RunCall(v: Verifier, d: Disk, c: Call, script: seq<Fate>): Outcome {
    var dec := DecisionOf(v, d, c);
    RunWrites(d, Expand(d, dec.puts), script, dec.done, dec.fail)
  }
}
