/**
 The check without the workflow's concurrency group: any number of its runs overlap, and each one executes in the end.
 */
module OverlappingRuns {
  import opened MergeAuthorization

  datatype Stage = Queued | Decided(verdict: Verdict)

  datatype Run = Run(action: Action, eventHead: string, stage: Stage)

  datatype PullRequest = PullRequest(live: Live, runs: map<nat, Run>, next: nat, reported: map<string, bool>)

  datatype Event =
    | Edit(change: Change)
    | Judge(run: nat)          // the run reads the live pull request and decides
    | DeleteLabel(run: nat)    // the run removes the approval label
    | Report(run: nat)         // the run ends and reports on its event head

  function Queue(p: PullRequest, action: Action): PullRequest {
    p.(runs := p.runs[p.next := Run(action, p.live.head, Queued)], next := p.next + 1)
  }

  /** One event; an event that is not possible changes nothing. */
  function Step(p: PullRequest, e: Event): PullRequest {
    match e
    case Edit(c) => if Possible(p.live, c) then Queue(p.(live := Changed(p.live, c)), ActionOf(c)) else p
    case Judge(i) =>
      if i !in p.runs || !p.runs[i].stage.Queued? then p
      else
        var r := p.runs[i];
        var verdict := Decide(r.action, p.live.draft, p.live.labels, r.eventHead, p.live.head);
        p.(runs := p.runs[i := r.(stage := Decided(verdict))])
    case DeleteLabel(i) =>
      if i !in p.runs || !p.runs[i].stage.Decided? || !p.runs[i].stage.verdict.revoke then p
      else p.(live := WithoutApproval(p.live), runs := p.runs[i := p.runs[i].(stage := Decided(Verdict(false, false)))])
    case Report(i) =>
      if i !in p.runs || !p.runs[i].stage.Decided? || p.runs[i].stage.verdict.revoke then p
      else p.(runs := p.runs - {i}, reported := p.reported[p.runs[i].eventHead := p.runs[i].stage.verdict.passed])
  }

  function Steps(p: PullRequest, es: seq<Event>): PullRequest
    decreases es
  {
    if es == [] then p else Steps(Step(p, es[0]), es[1..])
  }

  /** Opened on this head; a label given on opening is given for it. */
  function Open(head: string, draft: bool, labels: set<string>): PullRequest {
    Queue(PullRequest(Live(head, draft, labels, head), map[], 0, map[]), Opened)
  }

  // ----- The label belongs to the head -----

  /** A synchronize run for the current head that will still take the label away. */
  ghost predicate RevocationPending(p: PullRequest) {
    exists i | i in p.runs ::
      p.runs[i].action.Synchronize? && p.runs[i].eventHead == p.live.head
      && (p.runs[i].stage.Queued? || p.runs[i].stage.verdict.revoke)
  }

  ghost predicate WellFormed(p: PullRequest) {
    && p.live.head != ""
    && (forall i | i in p.runs :: i < p.next && p.runs[i].eventHead != "")
  }

  ghost predicate LabelIsForTheHead(p: PullRequest) {
    WellFormed(p) && (Has(p.live.labels) ==> p.live.approvedHead == p.live.head || RevocationPending(p))
  }

  lemma RevocationSurvives(p: PullRequest, e: Event, i: nat)
    requires WellFormed(p) && i in p.runs && p.runs[i].action.Synchronize? && p.runs[i].eventHead == p.live.head
    requires p.runs[i].stage.Queued? || p.runs[i].stage.verdict.revoke
    requires !(e.Edit? && e.change.Push?)
    ensures Has(Step(p, e).live.labels) && Has(p.live.labels) ==> RevocationPending(Step(p, e))
  {
    var p' := Step(p, e);
    assert i in p'.runs;
    if Has(p'.live.labels) && Has(p.live.labels) {
      assert p'.runs[i].eventHead == p'.live.head && p'.runs[i].action.Synchronize?;
    }
  }

  lemma LabelStep(p: PullRequest, e: Event)
    requires LabelIsForTheHead(p)
    ensures LabelIsForTheHead(Step(p, e))
  {
    var p' := Step(p, e);
    if Has(p'.live.labels) && p'.live.approvedHead != p'.live.head && p' != p {
      if e.Edit? && e.change.Push? {
        assert p'.runs[p.next] == Run(Synchronize, p'.live.head, Queued);
      } else {
        if e.Edit? { NewApproval(p.live, e.change); }
        var i :| i in p.runs && p.runs[i].action.Synchronize? && p.runs[i].eventHead == p.live.head
                 && (p.runs[i].stage.Queued? || p.runs[i].stage.verdict.revoke);
        RevocationSurvives(p, e, i);
      }
    }
  }

  lemma {:induction false} LabelSteps(p: PullRequest, es: seq<Event>)
    requires LabelIsForTheHead(p)
    ensures LabelIsForTheHead(Steps(p, es))
    decreases es
  {
    if es != [] {
      LabelStep(p, es[0]);
      LabelSteps(Step(p, es[0]), es[1..]);
    }
  }

  /**
   If no run is ever dropped, then in every interleaving of changes and overlapping runs a present approval label was
   given for the current head, or a synchronize run for that head is still going to remove it.
   */
  lemma UndroppedRunsBindTheLabel(head: string, draft: bool, labels: set<string>, es: seq<Event>)
    requires head != ""
    ensures var p := Steps(Open(head, draft, labels), es);
            Has(p.live.labels) ==> p.live.approvedHead == p.live.head || RevocationPending(p)
  {
    LabelSteps(Open(head, draft, labels), es);
  }

  // ----- Why runs must not overlap -----

  predicate Passing(p: PullRequest) {
    p.live.head in p.reported && p.reported[p.live.head]
  }

  /** Two runs of which the first, started on a labelled pull request, reports last. */
  function Overlap(n: nat): seq<Event> {
    [Edit(AddLabel(LABEL)), Judge(n), Edit(RemoveLabel(LABEL))] + [Judge(n + 1), Report(n + 1), Report(n)]
  }

  /** On every settled pull request overlapping runs can report PASS after the label is gone. */
  lemma OverlappingRunsReportStale(p: PullRequest)
    requires p.live.head != "" && !p.live.draft && p.live.labels == {} && p.runs == map[]
    ensures var q := Steps(p, Overlap(p.next));
            q.runs == map[] && q.live.head == p.live.head && Passing(q) && !Has(q.live.labels)
  {
    var n := p.next;
    LabelThenRemove(p);
    ThreeSteps(p, Edit(AddLabel(LABEL)), Judge(n), Edit(RemoveLabel(LABEL)), [Judge(n + 1), Report(n + 1), Report(n)]);
    LastWordIsStale(Step(Step(Step(p, Edit(AddLabel(LABEL))), Judge(n)), Edit(RemoveLabel(LABEL))), n);
  }

  lemma ThreeSteps(p: PullRequest, a: Event, b: Event, c: Event, rest: seq<Event>)
    ensures Steps(p, [a, b, c] + rest) == Steps(Step(Step(Step(p, a), b), c), rest)
  {
    var es := [a, b, c] + rest;
    assert es[1..] == [b, c] + rest && ([b, c] + rest)[1..] == [c] + rest && ([c] + rest)[1..] == rest;
    assert Steps(Step(p, a), [b, c] + rest) == Steps(Step(Step(p, a), b), [c] + rest);
  }

  lemma LabelThenRemove(p: PullRequest)
    requires p.live.head != "" && !p.live.draft && p.live.labels == {} && p.runs == map[]
    ensures var n := p.next;
            var q := Step(Step(Step(p, Edit(AddLabel(LABEL))), Judge(n)), Edit(RemoveLabel(LABEL)));
            && q.live.head == p.live.head && q.live.labels == {} && !q.live.draft && q.next == n + 2
            && q.runs == map[n := Run(Labeled, p.live.head, Decided(Verdict(true, false))),
                             n + 1 := Run(Unlabeled, p.live.head, Queued)]
  {
    assert Lower(LABEL) == LABEL;
    var p1 := Step(p, Edit(AddLabel(LABEL)));
    assert p1.live.labels == {LABEL} && LABEL in p1.live.labels && Has(p1.live.labels);
    assert p1.runs == map[p.next := Run(Labeled, p.live.head, Queued)];
    var p2 := Step(p1, Judge(p.next));
    assert p2.runs == map[p.next := Run(Labeled, p.live.head, Decided(Verdict(true, false)))];
  }

  lemma LastWordIsStale(q: PullRequest, n: nat)
    requires q.live.head != "" && q.live.labels == {} && !q.live.draft && q.next == n + 2
    requires q.runs == map[n := Run(Labeled, q.live.head, Decided(Verdict(true, false))),
                           n + 1 := Run(Unlabeled, q.live.head, Queued)]
    ensures var r := Steps(q, [Judge(n + 1), Report(n + 1), Report(n)]);
            r.runs == map[] && r.live.head == q.live.head && Passing(r) && !Has(r.live.labels)
  {
    var q2 := Step(Step(q, Judge(n + 1)), Report(n + 1));
    assert q2.runs == map[n := Run(Labeled, q.live.head, Decided(Verdict(true, false)))];
    var q3 := Step(q2, Report(n));
    assert q3.runs == map[];
    ThreeSteps(q, Judge(n + 1), Report(n + 1), Report(n), []);
    assert [Judge(n + 1), Report(n + 1), Report(n)] == [Judge(n + 1), Report(n + 1), Report(n)] + [];
  }
}
