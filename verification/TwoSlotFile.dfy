/**
 One durable file of the licence store: a main copy and a `.prev` fallback, each replaced by an
 atomic rename (`readFileOrPrev` and `writeDurable`, license/store.go).
 The module shows in which sense the pair behaves as a single register.
 */
module TwoSlotFile {

  import opened Wrappers

  /** What one path of the directory holds. `Malformed` covers every file that exists and cannot be used. */
  datatype File<+T> = Absent | Malformed | Content(value: T)

  datatype Slots<+T> = Slots(main: File<T>, prev: File<T>)

  /** Outcome of `readFileOrPrev`: os.ErrNotExist, ErrStateDamaged or a parsed value. */
  datatype ReadResult<+T> = NotExist | Damaged | Found(value: T)

  function Fresh<T>(): Slots<T> {
    Slots(Absent, Absent)
  }

  function Parsed<T, U>(f: File<T>, parse: T -> Option<U>): Option<U> {
    if f.Content? then parse(f.value) else None
  }

  function ReadOrPrev<T, U>(s: Slots<T>, parse: T -> Option<U>): (r: ReadResult<U>)
    ensures r.NotExist? <==> s == Slots(Absent, Absent)
    ensures Parsed(s.main, parse).Some? ==> r == Found(Parsed(s.main, parse).value)
    ensures Parsed(s.main, parse).None? && Parsed(s.prev, parse).Some? ==> r == Found(Parsed(s.prev, parse).value)
    ensures r.Found? ==> Parsed(s.main, parse).Some? || Parsed(s.prev, parse).Some?
  {
    if Parsed(s.main, parse).Some? then Found(Parsed(s.main, parse).value)
    else if s.main.Absent? && s.prev.Absent? then NotExist
    else if Parsed(s.prev, parse).Some? then Found(Parsed(s.prev, parse).value)
    else Damaged
  }

  /** The reader of state.json and revoked.json, whose well-formed contents always parse. */
  function Read<T>(s: Slots<T>): (r: ReadResult<T>)
    ensures r.NotExist? <==> s == Slots(Absent, Absent)
  {
    ReadOrPrev(s, v => Some(v))
  }

  // ----- The register refinement -----

  /** How far one `writeDurable` got: nothing, the `.prev` copy, or the new main file as well. */
  datatype Progress = Nothing | CopiedPrev | Replaced

  datatype Hit = Garble | Delete

  datatype SlotEvent<+T> = Put(value: T, progress: Progress) | HitMain(hit: Hit) | HitPrev(hit: Hit)

  function CopyPrev<T>(s: Slots<T>): Slots<T> {
    if s.main.Content? then s.(prev := s.main) else s
  }

  function AfterHit<T>(hit: Hit): File<T> {
    if hit.Garble? then Malformed else Absent
  }

  function SlotStep<T>(s: Slots<T>, e: SlotEvent<T>): Slots<T> {
    match e
    case Put(v, Nothing) => s
    case Put(v, CopiedPrev) => CopyPrev(s)
    case Put(v, Replaced) => CopyPrev(s).(main := Content(v))
    case HitMain(h) => s.(main := AfterHit(h))
    case HitPrev(h) => s.(prev := AfterHit(h))
  }

  function SlotRun<T>(events: seq<SlotEvent<T>>): Slots<T> {
    if events == [] then Fresh() else SlotStep(SlotRun(events[..|events| - 1]), events[|events| - 1])
  }

  /** The register's own history: the values whose main rename took effect, oldest first. */
  function Committed<T>(events: seq<SlotEvent<T>>): seq<T> {
    if events == [] then []
    else
      var earlier, e := Committed(events[..|events| - 1]), events[|events| - 1];
      if e.Put? && e.progress.Replaced? then earlier + [e.value] else earlier
  }

  ghost predicate Undamaged<T>(events: seq<SlotEvent<T>>) {
    forall i | 0 <= i < |events| :: events[i].Put?
  }

  ghost predicate OnlyGarbled<T>(events: seq<SlotEvent<T>>) {
    forall i | 0 <= i < |events| :: events[i].Put? || (events[i].HitMain? && events[i].hit.Garble?)
                                 || (events[i].HitPrev? && events[i].hit.Garble?)
  }

  /** The value one commit before the last, where there is one. */
  function Before<T>(c: seq<T>): Option<T> {
    if |c| >= 2 then Some(c[|c| - 2]) else None
  }

  /** The two-slot invariant: main is the last commit, prev is a recent commit, and prev exists after two commits. */
  ghost predicate Refines<T>(s: Slots<T>, c: seq<T>) {
    if c == [] then s == Fresh()
    else
      && s.main == Content(c[|c| - 1])
      && (s.prev.Absent? ==> |c| == 1)
      && (s.prev == Absent || s.prev == s.main || (Before(c).Some? && s.prev == Content(Before(c).value)))
  }

  /** Across every crash point of every write, the pair holds exactly the register's last and next-to-last commit. */
  lemma {:induction false} CrashesKeepTheRegister<T>(events: seq<SlotEvent<T>>)
    requires Undamaged(events)
    ensures Refines(SlotRun(events), Committed(events))
    ensures var c := Committed(events);
            Read(SlotRun(events)) == if c == [] then NotExist else Found(c[|c| - 1])
  {
    if events != [] {
      CrashesKeepTheRegister(events[..|events| - 1]);
    }
  }

  /**
   One damage event after any crash-only history. A read then yields the last commit or the one before it, or
   reports damage; it reads as empty only when the main file was deleted and no `.prev` copy exists, which
   needs fewer than two commits.
   */
  lemma OneHitFallsBackOneCommit<T>(events: seq<SlotEvent<T>>, e: SlotEvent<T>)
    requires Undamaged(events) && !e.Put?
    requires Committed(events) != []
    ensures var c, s := Committed(events), SlotRun(events);
            var r := Read(SlotStep(s, e));
            && (r.Found? ==> r.value == c[|c| - 1] || (e.HitMain? && Some(r.value) == Before(c)))
            && (e.HitPrev? ==> r == Found(c[|c| - 1]))
            && (|c| >= 2 ==> r.Found?)
            && (r.NotExist? <==> e == HitMain(Delete) && s.prev.Absent?)
            && (r.NotExist? ==> |c| == 1)
  {
    CrashesKeepTheRegister(events);
  }

  /** Garbling, however often and wherever it strikes, is never read as an empty file once something was committed. */
  lemma {:induction false} GarbleIsNeverEmpty<T>(events: seq<SlotEvent<T>>)
    requires OnlyGarbled(events)
    ensures Committed(events) != [] ==> !Read(SlotRun(events)).NotExist?
    ensures Committed(events) != [] ==> !SlotRun(events).main.Absent?
  {
    if events != [] {
      GarbleIsNeverEmpty(events[..|events| - 1]);
    }
  }

  /** Under any damage at all, a read only ever returns something that was committed. */
  lemma {:induction false} NothingIsInvented<T>(events: seq<SlotEvent<T>>)
    ensures var s, c := SlotRun(events), Committed(events);
            && (s.main.Content? ==> s.main.value in c)
            && (s.prev.Content? ==> s.prev.value in c)
            && (Read(s).Found? ==> Read(s).value in c)
  {
    if events != [] {
      NothingIsInvented(events[..|events| - 1]);
    }
  }

  // ----- How far back a read can fall, under any damage -----

  /** Nothing hit the main file since it was last replaced. */
  function MainWhole<T>(events: seq<SlotEvent<T>>): bool {
    if events == [] then false
    else
      match events[|events| - 1]
      case Put(_, Replaced) => true
      case HitMain(_) => false
      case _ => MainWhole(events[..|events| - 1])
  }

  /**
   How many commits the `.prev` copy is behind the last one, if it is usable. A write over a whole main file refreshes
   the copy; a write over an unusable one leaves it a commit further behind.
   */
  function Lag<T>(events: seq<SlotEvent<T>>): Option<nat> {
    if events == [] then None
    else
      var before := events[..|events| - 1];
      match events[|events| - 1]
      case Put(_, Nothing) => Lag(before)
      case Put(_, CopiedPrev) => if MainWhole(before) then Some(0) else Lag(before)
      case Put(_, Replaced) =>
        if MainWhole(before) then Some(1) else if Lag(before).Some? then Some(Lag(before).value + 1) else None
      case HitMain(_) => Lag(before)
      case HitPrev(_) => None
  }

  lemma {:induction false} SlotsFollowLag<T>(events: seq<SlotEvent<T>>)
    ensures var s, c := SlotRun(events), Committed(events);
            && (s.main.Content? <==> MainWhole(events))
            && (MainWhole(events) ==> c != [] && s.main.value == c[|c| - 1])
            && (s.prev.Content? <==> Lag(events).Some?)
            && (Lag(events).Some? ==> Lag(events).value < |c| && s.prev.value == c[|c| - 1 - Lag(events).value])
  {
    if events != [] {
      SlotsFollowLag(events[..|events| - 1]);
    }
  }

  /**
   What a read returns after any writes, crashes and damage: the last commit while the main file is whole, otherwise the
   commit the copy is behind by, and nothing when the copy is unusable too.
   */
  lemma ReadFallsBackByLag<T>(events: seq<SlotEvent<T>>)
    ensures var r, c := Read(SlotRun(events)), Committed(events);
            && (r.Found? <==> MainWhole(events) || Lag(events).Some?)
            && (MainWhole(events) ==> c != [] && r.value == c[|c| - 1])
            && (!MainWhole(events) && Lag(events).Some? ==>
                  Lag(events).value < |c| && r.value == c[|c| - 1 - Lag(events).value])
  {
    SlotsFollowLag(events);
  }

  /** A hit on the main file makes a read fall back by exactly the lag of the copy, or find nothing if it has none. */
  lemma HitFallsBackByLag<T>(events: seq<SlotEvent<T>>, hit: Hit)
    ensures var c := Committed(events);
            var r := Read(SlotStep(SlotRun(events), HitMain(hit)));
            && (r.Found? <==> Lag(events).Some?)
            && (r.Found? ==> Lag(events).value < |c| && r.value == c[|c| - 1 - Lag(events).value])
            && (Undamaged(events) && r.Found? ==> Lag(events).value <= 1)
  {
    SlotsFollowLag(events);
    if Undamaged(events) {
      UndamagedLag(events);
    }
  }

  /** Without damage the copy is never more than one commit behind. */
  lemma {:induction false} UndamagedLag<T>(events: seq<SlotEvent<T>>)
    requires Undamaged(events)
    ensures Lag(events).Some? ==> Lag(events).value <= 1
    ensures !MainWhole(events) ==> Lag(events).None?
  {
    if events != [] {
      UndamagedLag(events[..|events| - 1]);
    }
  }

  /** Two hits suffice to break the bound: the stale copy is kept over the repaired main file. */
  lemma TwoHitsFallBackFurther()
    ensures var events := [Put(1, Replaced), Put(2, Replaced), HitMain(Garble), Put(3, Replaced), HitMain(Garble)];
            Lag(events) == Some(2) && Committed(events) == [1, 2, 3] && Read(SlotRun(events)) == Found(1)
  {
    var e1 := [Put(1, Replaced)];
    var e2 := e1 + [Put(2, Replaced)];
    var e3 := e2 + [HitMain(Garble)];
    var e4 := e3 + [Put(3, Replaced)];
    var e5 := e4 + [HitMain(Garble)];
    assert e5 == [Put(1, Replaced), Put(2, Replaced), HitMain(Garble), Put(3, Replaced), HitMain(Garble)];
    assert e1[..0] == [] && e2[..1] == e1 && e3[..2] == e2 && e4[..3] == e3 && e5[..4] == e4;
    assert Committed(e1) == [1] && MainWhole(e1);
    assert Committed(e2) == [1, 2] && Lag(e2) == Some(1);
    assert Committed(e3) == [1, 2] && Lag(e3) == Some(1) && !MainWhole(e3);
    assert Committed(e4) == [1, 2, 3] && Lag(e4) == Some(2);
    assert Committed(e5) == [1, 2, 3] && Lag(e5) == Some(2) && !MainWhole(e5);
    ReadFallsBackByLag(e5);
  }
}
