/**
 The check inside the workflow's concurrency group. The group holds one started run and at most one waiting run; a newer
 run displaces the waiting one, which then never executes and leaves its head non-passing.
 */
module MergeGroup {
  import opened MergeAuthorization
  import opened Wrappers

  /** What a run was triggered by: the action, and the head at that moment. */
  datatype Trigger = Trigger(action: Action, eventHead: string)

  /** A started run occupies the group before it has read anything. */
  datatype Stage = Started | Decided(verdict: Verdict)

  datatype Run = Run(trigger: Trigger, stage: Stage)

  datatype PullRequest = PullRequest(live: Live, running: Option<Run>, waiting: Option<Trigger>,
                                     reported: map<string, bool>)

  datatype Event =
    | Edit(change: Change)
    | Judge          // the started run reads the live pull request and decides
    | DeleteLabel    // it removes the approval label
    | Report         // it ends and reports; the waiting run starts

  function Enqueue(p: PullRequest, t: Trigger): PullRequest {
    if p.running.None? then p.(running := Some(Run(t, Started)))
    else p.(waiting := Some(t),
            reported := if p.waiting.Some? then p.reported[p.waiting.value.eventHead := false] else p.reported)
  }

  /** One event; an event that is not possible changes nothing. */
  function Step(p: PullRequest, e: Event): PullRequest {
    match e
    case Edit(c) =>
      if !Possible(p.live, c) then p
      else
        var l := Changed(p.live, c);
        Enqueue(p.(live := l), Trigger(ActionOf(c), l.head))
    case Judge =>
      if p.running.None? || !p.running.value.stage.Started? then p
      else
        var t := p.running.value.trigger;
        p.(running := Some(Run(t, Decided(Decide(t.action, p.live.draft, p.live.labels, t.eventHead, p.live.head)))))
    case DeleteLabel =>
      if p.running.None? || !p.running.value.stage.Decided? || !p.running.value.stage.verdict.revoke then p
      else p.(live := WithoutApproval(p.live),
              running := Some(p.running.value.(stage := Decided(Verdict(false, false)))))
    case Report =>
      if p.running.None? || !p.running.value.stage.Decided? || p.running.value.stage.verdict.revoke then p
      else p.(running := if p.waiting.Some? then Some(Run(p.waiting.value, Started)) else None, waiting := None,
              reported := p.reported[p.running.value.trigger.eventHead := p.running.value.stage.verdict.passed])
  }

  function Steps(p: PullRequest, es: seq<Event>): PullRequest
    decreases es
  {
    if es == [] then p else Steps(Step(p, es[0]), es[1..])
  }

  /** Opened on this head; a label given on opening is given for it. */
  function Open(head: string, draft: bool, labels: set<string>): PullRequest {
    Enqueue(PullRequest(Live(head, draft, labels, head), None, None, map[]), Trigger(Opened, head))
  }

  /** Every run in the group is over. */
  predicate Settled(p: PullRequest) {
    p.running.None? && p.waiting.None?
  }

  predicate Passing(p: PullRequest) {
    p.live.head in p.reported && p.reported[p.live.head]
  }

  ghost predicate WellFormed(p: PullRequest) {
    && p.live.head != ""
    && (p.running.Some? ==> p.running.value.trigger.eventHead != "")
    && (p.waiting.Some? ==> p.running.Some? && p.waiting.value.eventHead == p.live.head)
  }

  // ----- When a label was given for the head -----

  predicate Revokes(t: Trigger, head: string) {
    t.action.Synchronize? && t.eventHead == head
  }

  /** A synchronize run for the current head that will still take the label away. */
  predicate RevocationPending(p: PullRequest) {
    || (p.waiting.Some? && Revokes(p.waiting.value, p.live.head))
    || (&& p.running.Some? && Revokes(p.running.value.trigger, p.live.head)
        && (p.running.value.stage.Started? || p.running.value.stage.verdict.revoke))
  }

  /** The change arrives while a synchronize run for the current head waits behind a started run, and displaces it. */
  predicate DisplacesRevocation(p: PullRequest, e: Event) {
    && e.Edit? && Possible(p.live, e.change)
    && p.waiting.Some? && Revokes(p.waiting.value, p.live.head)
  }

  /**
   History of the run: since the last push, and with the label on throughout, a change displaced the synchronize run of
   a head other than the one the label had been given for.
   */
  predicate Exposed(p: PullRequest, es: seq<Event>, before: bool)
    decreases es
  {
    if es == [] then before else Exposed(Step(p, es[0]), es[1..], ExposedStep(p, es[0], before))
  }

  predicate ExposedStep(p: PullRequest, e: Event, before: bool) {
    if !Has(Step(p, e).live.labels) then false
    else if e.Edit? && e.change.Push? && Possible(p.live, e.change) then false
    else if DisplacesRevocation(p, e) && Has(p.live.labels) && p.live.approvedHead != p.live.head then true
    else before
  }

  /** A label for another head is either about to be revoked, or its revocation was displaced. */
  ghost predicate LabelAccounted(p: PullRequest, exposed: bool) {
    && WellFormed(p)
    && (exposed ==> Has(p.live.labels) && p.live.approvedHead != p.live.head)
    && (Has(p.live.labels) ==> p.live.approvedHead == p.live.head || RevocationPending(p) || exposed)
  }

  lemma AccountedStep(p: PullRequest, e: Event, exposed: bool)
    requires LabelAccounted(p, exposed)
    ensures LabelAccounted(Step(p, e), ExposedStep(p, e, exposed))
  {
    if e.Edit? && Possible(p.live, e.change) {
      NewApproval(p.live, e.change);
    }
  }

  lemma {:induction false} AccountedSteps(p: PullRequest, es: seq<Event>, exposed: bool)
    requires LabelAccounted(p, exposed)
    ensures LabelAccounted(Steps(p, es), Exposed(p, es, exposed))
    decreases es
  {
    if es != [] {
      AccountedStep(p, es[0], exposed);
      AccountedSteps(Step(p, es[0]), es[1..], ExposedStep(p, es[0], exposed));
    }
  }

  /**
   In every run of the group: unless a revocation is still pending, a present approval label was given for the current
   head exactly when no change displaced the synchronize run of that head while the label stood for another one.
   */
  lemma ApprovalIsBoundToTheHeadIff(head: string, draft: bool, labels: set<string>, es: seq<Event>)
    requires head != ""
    ensures var p0 := Open(head, draft, labels);
            var p := Steps(p0, es);
            Has(p.live.labels) && !RevocationPending(p) ==>
              (p.live.approvedHead == p.live.head <==> !Exposed(p0, es, false))
  {
    AccountedSteps(Open(head, draft, labels), es, false);
  }

  ghost predicate NothingDisplaced(p: PullRequest, es: seq<Event>)
    decreases es
  {
    es == [] || (!DisplacesRevocation(p, es[0]) && NothingDisplaced(Step(p, es[0]), es[1..]))
  }

  lemma {:induction false} UndisplacedIsUnexposed(p: PullRequest, es: seq<Event>)
    requires NothingDisplaced(p, es)
    ensures !Exposed(p, es, false)
    decreases es
  {
    if es != [] {
      UndisplacedIsUnexposed(Step(p, es[0]), es[1..]);
    }
  }

  /** So the approval is bound to its head whenever no change arrives while a synchronize run for the head waits. */
  lemma UndisplacedApprovalIsBound(head: string, draft: bool, labels: set<string>, es: seq<Event>)
    requires head != "" && NothingDisplaced(Open(head, draft, labels), es)
    ensures var p := Steps(Open(head, draft, labels), es);
            Has(p.live.labels) ==> p.live.approvedHead == p.live.head || RevocationPending(p)
  {
    AccountedSteps(Open(head, draft, labels), es, false);
    UndisplacedIsUnexposed(Open(head, draft, labels), es);
  }

  /** A run that decides to pass while no revocation is pending judges the approved head, under the same condition. */
  lemma PassCoversTheApprovedHeadIff(head: string, draft: bool, labels: set<string>, es: seq<Event>)
    requires head != ""
    ensures var p0 := Open(head, draft, labels);
            var p, q := Steps(p0, es), Step(Steps(p0, es), Judge);
            && p.running.Some? && p.running.value.stage.Started? && !RevocationPending(p)
            && q.running.value.stage.verdict.passed ==>
              && p.running.value.trigger.eventHead == p.live.head && Approved(p.live)
              && (p.live.approvedHead == p.running.value.trigger.eventHead <==> !Exposed(p0, es, false))
  {
    AccountedSteps(Open(head, draft, labels), es, false);
  }

  // ----- What is reported once everything has settled -----

  /** A run for the current head that has not read the pull request yet. */
  predicate Unread(p: PullRequest) {
    || p.waiting.Some?
    || (p.running.Some? && p.running.value.stage.Started? && p.running.value.trigger.eventHead == p.live.head)
  }

  predicate JudgedHead(p: PullRequest) {
    p.running.Some? && p.running.value.stage.Decided? && p.running.value.trigger.eventHead == p.live.head
  }

  /** What the decided run will report still fits the pull request, unless a later run is to come. */
  ghost predicate VerdictFits(p: PullRequest) {
    p.running.Some? && p.running.value.stage.Decided? && !Unread(p) ==>
      var v := p.running.value.stage.verdict;
      && (v.passed && JudgedHead(p) ==> Approved(p.live))
      && (v.revoke ==> JudgedHead(p))
      && (!v.passed && !v.revoke && JudgedHead(p) ==> !Approved(p.live))
  }

  ghost predicate Settling(p: PullRequest) {
    && WellFormed(p) && VerdictFits(p)
    && (Unread(p) || JudgedHead(p) || (Passing(p) <==> Approved(p.live)))
  }

  lemma SettlingStep(p: PullRequest, e: Event)
    requires Settling(p)
    ensures Settling(Step(p, e))
  {
  }

  lemma {:induction false} SettlingSteps(p: PullRequest, es: seq<Event>)
    requires Settling(p)
    ensures Settling(Steps(p, es))
    decreases es
  {
    if es != [] {
      SettlingStep(p, es[0]);
      SettlingSteps(Step(p, es[0]), es[1..]);
    }
  }

  /**
   Once the group is empty, the status of the current head is PASS exactly when the pull request is not a draft and
   carries the approval label. That label was given for this head exactly when no displaced revocation is exposed.
   */
  lemma SettledStatusIsTheApproval(head: string, draft: bool, labels: set<string>, es: seq<Event>)
    requires head != "" && Settled(Steps(Open(head, draft, labels), es))
    ensures var p0 := Open(head, draft, labels);
            var p := Steps(p0, es);
            && (Passing(p) <==> Has(p.live.labels) && !p.live.draft)
            && (Has(p.live.labels) ==> (p.live.approvedHead == p.live.head <==> !Exposed(p0, es, false)))
  {
    SettlingSteps(Open(head, draft, labels), es);
    AccountedSteps(Open(head, draft, labels), es, false);
  }

  // ----- The displaced revocation, spelled out -----

  /** A draft change occupies the group, a push waits behind it, and the next draft change displaces the push's run. */
  function DisplacingRun(pushed: string): seq<Event> {
    [Edit(SetDraft(true)), Judge, Edit(Push(pushed)), Edit(SetDraft(false)), Report, Judge, Report]
  }

  /** From any settled, approved pull request that run settles on PASS for a head nobody approved. */
  lemma DisplacedRevocationPasses(p: PullRequest, pushed: string)
    requires Settled(p) && p.live.head != "" && Approved(p.live) && p.live.approvedHead == p.live.head
    requires pushed != "" && pushed != p.live.head
    ensures var q := Steps(p, DisplacingRun(pushed));
            && Settled(q) && Passing(q) && q.live.head == pushed && Has(q.live.labels)
            && q.live.approvedHead == p.live.head != q.live.head
            && Exposed(p, DisplacingRun(pushed), false)
  {
    var es := DisplacingRun(pushed);
    var p1 := Step(p, es[0]);
    var p2 := Step(p1, es[1]);
    var p3 := Step(p2, es[2]);
    assert p3.running.Some? && p3.waiting == Some(Trigger(Synchronize, pushed));
    var p4 := Step(p3, es[3]);
    assert DisplacesRevocation(p3, es[3]);
    assert p4.waiting == Some(Trigger(ReadyForReview, pushed));
    var p5 := Step(p4, es[4]);
    assert p5.running == Some(Run(Trigger(ReadyForReview, pushed), Started));
    var p6 := Step(p5, es[5]);
    assert p6.running.value.stage == Decided(Verdict(true, false));
    SevenSteps(p, es);
    AccountedSteps(p, es, false);
  }

  lemma SevenSteps(p: PullRequest, es: seq<Event>)
    requires |es| == 7
    ensures Steps(p, es) == Step(Step(Step(Step(Step(Step(Step(p, es[0]), es[1]), es[2]), es[3]), es[4]), es[5]), es[6])
  {
    var q := Step(Step(Step(p, es[0]), es[1]), es[2]);
    assert es[1..][1..] == es[2..] && es[2..][1..] == es[3..] && es[3..][1..] == es[4..];
    assert es[4..][1..] == es[5..] && es[5..][1..] == es[6..] && es[6..][1..] == [];
    assert Steps(Step(p, es[0]), es[1..]) == Steps(q, es[3..]);
    var r := Step(Step(q, es[3]), es[4]);
    assert Steps(q, es[3..]) == Steps(r, es[5..]);
    assert Steps(Step(r, es[5]), es[6..]) == Step(Step(r, es[5]), es[6]);
  }

  /** A displaced run never executes: its head is reported non-passing at once, and the newer run takes its place. */
  lemma DisplacedHeadFails(p: PullRequest, c: Change)
    requires p.running.Some? && p.waiting.Some? && Possible(p.live, c)
    ensures var q := Step(p, Edit(c));
            && q.running == p.running && q.waiting == Some(Trigger(ActionOf(c), q.live.head))
            && p.waiting.value.eventHead in q.reported && !q.reported[p.waiting.value.eventHead]
  {
  }

  // ----- The group always drains -----

  lemma {:induction false} StepsConcat(p: PullRequest, a: seq<Event>, b: seq<Event>)
    ensures Steps(p, a + b) == Steps(Steps(p, a), b)
    decreases a
  {
    if a == [] {
      assert a + b == b;
    } else {
      assert (a + b)[0] == a[0] && (a + b)[1..] == a[1..] + b;
      StepsConcat(Step(p, a[0]), a[1..], b);
    }
  }

  /** The started run judges, revokes if it has to, and reports; the waiting run starts. */
  lemma RunFinishes(p: PullRequest) returns (es: seq<Event>)
    requires p.running.Some?
    ensures forall e | e in es :: !e.Edit?
    ensures var q := Steps(p, es);
            q.waiting.None? && q.running == if p.waiting.Some? then Some(Run(p.waiting.value, Started)) else None
  {
    es := [Judge, DeleteLabel, Report];
    var p1 := Step(p, Judge);
    var p2 := Step(p1, DeleteLabel);
    assert es[1..] == [DeleteLabel, Report] && [DeleteLabel, Report][1..] == [Report] && [Report][1..] == [];
    assert Steps(p2, [Report]) == Step(p2, Report);
    assert Steps(p1, [DeleteLabel, Report]) == Steps(p2, [Report]);
  }

  /** Left alone, the group empties, so that the status settles. */
  lemma GroupDrains(p: PullRequest) returns (es: seq<Event>)
    requires p.waiting.Some? ==> p.running.Some?
    ensures Settled(Steps(p, es)) && forall e | e in es :: !e.Edit?
  {
    es := [];
    if p.running.Some? {
      es := RunFinishes(p);
      if p.waiting.Some? {
        var rest := RunFinishes(Steps(p, es));
        StepsConcat(p, es, rest);
        es := es + rest;
      }
    }
  }
}
