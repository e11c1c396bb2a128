/**
 The store as the process runs it (license/store.go): an object that reads and replaces files one at a time.
 The environment decides the fate of each coming `writeSynced`; when no fate is left, the process dies there.
 Every method is shown to have exactly the effect and the reply of the call it implements.
 */
module Store {
  import opened TwoSlotFile
  import opened Timeline
  import opened Wrappers
  import opened StoreSpec

  datatype WriteResult = WriteOk | WriteError | Died

  /** A call that replaces one file and then answers. */
  lemma OnePutReply(d: Disk, p: Put)
    ensures Expand(d, [p]) == Durable(d, p) + []
  {
    assert [p][1..] == [];
  }

  class LicenseStore {
    const verifier: Verifier
    var disk: Disk
    var fates: seq<Fate>

    constructor (v: Verifier, d: Disk, script: seq<Fate>)
      ensures verifier == v && disk == d && fates == script
    {
      verifier, disk, fates := v, d, script;
    }

    /** One atomic rename, with the next fate of the environment. */
    method WriteSynced(w: Write) returns (r: WriteResult)
      modifies this
      ensures old(fates) == [] ==> r.Died? && disk == old(disk) && fates == []
      ensures old(fates) != [] ==> fates == old(fates)[1..]
      ensures old(fates) != [] && old(fates)[0].Done? ==> r.WriteOk? && disk == Apply(old(disk), w)
      ensures old(fates) != [] && old(fates)[0].ErrorApplied? ==> r.WriteError? && disk == Apply(old(disk), w)
      ensures old(fates) != [] && old(fates)[0].ErrorLost? ==> r.WriteError? && disk == old(disk)
    {
      if fates == [] {
        return Died;
      }
      var fate := fates[0];
      fates := fates[1..];
      if !fate.ErrorLost? {
        disk := Apply(disk, w);
      }
      r := if fate.Done? then WriteOk else WriteError;
    }

    /**
     Copies a well-formed main file to `.prev`, then replaces the main file. Any further writes follow only on success.
     */
    method WriteDurable(p: Put) returns (r: WriteResult)
      modifies this
      ensures forall rest, done, fail
                {:trigger RunWrites(old(disk), Durable(old(disk), p) + rest, old(fates), done, fail)} ::
                RunWrites(old(disk), Durable(old(disk), p) + rest, old(fates), done, fail) ==
                match r
                case WriteOk => RunWrites(disk, rest, fates, done, fail)
                case WriteError => (disk, Some(fail))
                case Died => (disk, None)
      ensures r.WriteOk? ==> disk == ApplyAll(old(disk), Durable(old(disk), p))
    {
      ghost var ws := Durable(disk, p);
      ApplyDurable(disk, p);
      var prev := PrevWrite(disk, p);
      if prev.Some? {
        assert forall rest: seq<Write> {:trigger ws + rest} ::
            (ws + rest)[0] == prev.value && (ws + rest)[1..] == [MainWrite(p)] + rest;
        r := WriteSynced(prev.value);
        if !r.WriteOk? {
          return;
        }
      }
      assert forall rest: seq<Write> {:trigger [MainWrite(p)] + rest} ::
          ([MainWrite(p)] + rest)[0] == MainWrite(p) && ([MainWrite(p)] + rest)[1..] == rest;
      r := WriteSynced(MainWrite(p));
    }

    method Install(raw: Bytes, now: Time) returns (r: Option<Reply>)
      modifies this
      ensures (disk, r) == RunCall(verifier, old(disk), Call.Install(raw, now), old(fates))
    {
      var verified := verifier.Verify(raw);
      if verified.None? {
        return Some(Failed(InvalidLicence));
      }
      var (payload, doc) := verified.value;
      var readState, readRevoked := ReadState(disk), ReadRevoked(disk);
      if readState.Damaged? || readRevoked.Damaged? {
        return Some(Failed(StateDamaged));
      }
      var st, revoked := readState.value, readRevoked.value;
      var fpr := verifier.fingerprint(payload);
      if doc.licenseId in revoked {
        return Some(Failed(Rollback));
      }
      if st.highestVersion > 0 {
        if doc.licenseVersion < st.highestVersion {
          return Some(Failed(Rollback));
        }
        if doc.licenseVersion == st.highestVersion &&
           (doc.licenseId != st.acceptedId || (st.acceptedFpr != "" && fpr != st.acceptedFpr)) {
          return Some(Failed(Rollback));
        }
      }
      var newerVersion := doc.licenseVersion > 0 && doc.licenseVersion > st.highestVersion;
      if !newerVersion && st.installedIssuedAt != 0 && doc.issuedAt < st.installedIssuedAt {
        return Some(Failed(Rollback));
      }
      ghost var d0 := disk;
      ghost var puts := [PutCurrent(raw), PutState(StateAfterInstall(doc, fpr, st, now))];
      assert DecisionOf(verifier, d0, Call.Install(raw, now)) == Decision(puts, Installed(doc), Failed(WriteFailed));
      assert puts[1..] == [puts[1]];
      var w := WriteDurable(PutCurrent(raw));
      if w.Died? { return None; }
      if w.WriteError? { return Some(Failed(WriteFailed)); }
      OnePutReply(disk, puts[1]);
      st := st.(installedIssuedAt := doc.issuedAt);
      if doc.licenseVersion >= st.highestVersion {
        st := st.(highestVersion := doc.licenseVersion, acceptedId := doc.licenseId, acceptedFpr := fpr);
      }
      st := AdvanceHighWater(st, now);
      w := WriteDurable(PutState(st));
      if w.Died? { return None; }
      if w.WriteError? { return Some(Failed(WriteFailed)); }
      return Some(Installed(doc));
    }

    method ResetHighWater(central: Time, localNow: Time, skew: int) returns (r: Option<Reply>)
      modifies this
      ensures (disk, r) == RunCall(verifier, old(disk), Call.ResetHighWater(central, localNow, skew), old(fates))
    {
      if central == 0 {
        return Some(Failed(NoCentralTime));
      }
      var d := Sub(localNow, central);
      if d > skew || d < Neg64(skew) {
        return Some(Failed(ClockDisagrees));
      }
      var readState := ReadState(disk);
      if readState.Damaged? {
        return Some(Failed(StateDamaged));
      }
      var st := readState.value;
      var old_ := st.highWater;
      st := st.(highWater := central);
      OnePutReply(disk, PutState(st));
      var w := WriteDurable(PutState(st));
      if w.Died? { return None; }
      if w.WriteError? { return Some(Failed(WriteFailed)); }
      return Some(Reset(old_));
    }

    method MarkCloudValidated(now: Time) returns (r: Option<Reply>)
      modifies this
      ensures (disk, r) == RunCall(verifier, old(disk), Call.MarkCloudValidated(now), old(fates))
    {
      var readState := ReadState(disk);
      if readState.Damaged? {
        return Some(Failed(StateDamaged));
      }
      var st := readState.value;
      st := st.(lastCloudValidation := now);
      st := AdvanceHighWater(st, now);
      OnePutReply(disk, PutState(st));
      var w := WriteDurable(PutState(st));
      if w.Died? { return None; }
      if w.WriteError? { return Some(Failed(WriteFailed)); }
      return Some(Stored);
    }

    method AddRevocation(id: string) returns (r: Option<Reply>)
      modifies this
      ensures (disk, r) == RunCall(verifier, old(disk), Call.AddRevocation(id), old(fates))
    {
      var readRevoked := ReadRevoked(disk);
      if readRevoked.Damaged? {
        return Some(Failed(StateDamaged));
      }
      var ids := readRevoked.value;
      if id in ids {
        return Some(Stored);
      }
      ids := ids + {id};
      OnePutReply(disk, PutRevoked(ids));
      var w := WriteDurable(PutRevoked(ids));
      if w.Died? { return None; }
      if w.WriteError? { return Some(Failed(WriteFailed)); }
      return Some(Stored);
    }

    method Load() returns (r: Reply)
      ensures r == StoreSpec.Load(verifier, disk)
    {
      var current := ReadOrPrev(disk.current, verifier.Doc);
      if current.NotExist? {
        return Failed(NoLicense);
      }
      if current.Damaged? {
        return Failed(StateDamaged);
      }
      var readState := ReadState(disk);
      if readState.Damaged? {
        return Failed(StateDamaged);
      }
      return CheckLoaded(current.value, readState.value);
    }

    /** A failed write of the mark is only logged; the answer stands. */
    method Evaluate(now: Time) returns (r: Option<Reply>)
      modifies this
      ensures var loaded := StoreSpec.Load(verifier, old(disk));
              if loaded.Loaded?
              then (disk, r) == RunCall(verifier, old(disk), EvaluateLoaded(loaded.doc, now), old(fates))
              else disk == old(disk) && r == Some(loaded)
    {
      var loaded := Load();
      if !loaded.Loaded? {
        return Some(loaded);
      }
      var readState, readRevoked := ReadState(disk), ReadRevoked(disk);
      if readState.Damaged? || readRevoked.Damaged? {
        return Some(Failed(StateDamaged));
      }
      var st, revoked := readState.value, readRevoked.value;
      var effective, rollback := now, false;
      if Sub(st.highWater, now) > ROLLBACK_TOLERANCE {
        effective, rollback := st.highWater, true;
      }
      ghost var st0 := st;
      if now > st.highWater {
        st := AdvanceHighWater(st, now);
        OnePutReply(disk, PutState(st));
        var w := WriteDurable(PutState(st));
        if w.Died? { return None; }
      }
      var ev := Licence.Evaluate(loaded.doc, effective, st.lastCloudValidation, loaded.doc.licenseId in revoked);
      ev := ev.(clockRollback := rollback);
      assert ev == EvaluationOf(loaded.doc, now, st0, revoked);
      return Some(Evaluated(ev));
    }
  }
}
