/**
 The merge-authorization decision (tools/po_merge_authorization.py) and the live pull request it reads. People push,
 label and change the draft flag at any time, and every such change triggers a run of the check.
 */
module MergeAuthorization {

  const LABEL := "po-merge-approved"

  datatype Action = Opened | Reopened | Synchronize | ReadyForReview | ConvertedToDraft | Labeled | Unlabeled

  function LowerChar(c: char): char {
    if 'A' <= c <= 'Z' then (c as int + 32) as char else c
  }

  function Lower(s: string): string {
    seq(|s|, i requires 0 <= i < |s| => LowerChar(s[i]))
  }

  predicate IsApproval(name: string) {
    Lower(name) == LABEL
  }

  predicate Has(labels: set<string>) {
    exists l | l in labels :: IsApproval(l)
  }

  datatype Verdict = Verdict(passed: bool, revoke: bool)

  /** The pure decision. */
  function Decide(action: Action, draft: bool, labels: set<string>, eventHead: string, liveHead: string): (v: Verdict)
    ensures v.passed ==> !v.revoke && eventHead == liveHead != "" && Has(labels) && !draft
    ensures v.revoke <==> action.Synchronize? && Has(labels) && eventHead == liveHead != ""
    ensures Has(labels) && !draft && eventHead == liveHead != "" ==> v.passed || v.revoke
  {
    if eventHead == "" || liveHead == "" then Verdict(false, false)
    else if eventHead != liveHead then Verdict(false, false)
    else if action.Synchronize? && Has(labels) then Verdict(false, true)
    else if draft then Verdict(false, false)
    else if !Has(labels) then Verdict(false, false)
    else Verdict(true, false)
  }

  // ----- The live pull request -----

  /** `approvedHead` records the head at the moment the approval label was last applied. */
  datatype Live = Live(head: string, draft: bool, labels: set<string>, approvedHead: string)

  datatype Change = Push(head: string) | AddLabel(name: string) | RemoveLabel(name: string) | SetDraft(draft: bool)

  /** The change does something, so it triggers a run. */
  predicate Possible(l: Live, c: Change) {
    match c
    case Push(h) => h != "" && h != l.head
    case AddLabel(name) => forall x | x in l.labels :: Lower(x) != Lower(name)
    case RemoveLabel(name) => name in l.labels
    case SetDraft(b) => b != l.draft
  }

  function Changed(l: Live, c: Change): Live {
    match c
    case Push(h) => l.(head := h)
    case AddLabel(name) =>
      l.(labels := l.labels + {name}, approvedHead := if IsApproval(name) then l.head else l.approvedHead)
    case RemoveLabel(name) => l.(labels := l.labels - {name})
    case SetDraft(b) => l.(draft := b)
  }

  function ActionOf(c: Change): Action {
    match c
    case Push(_) => Synchronize
    case AddLabel(_) => Labeled
    case RemoveLabel(_) => Unlabeled
    case SetDraft(b) => if b then ConvertedToDraft else ReadyForReview
  }

  /** The DELETE request of a revoking run. */
  function WithoutApproval(l: Live): Live {
    l.(labels := set x | x in l.labels && !IsApproval(x))
  }

  ghost predicate Approved(l: Live) {
    Has(l.labels) && !l.draft
  }

  /** Only applying the approval label makes it present, and that records the head. */
  lemma NewApproval(l: Live, c: Change)
    requires Possible(l, c)
    ensures var l' := Changed(l, c);
            && (Has(l'.labels) && !Has(l.labels) ==> l'.approvedHead == l'.head == l.head)
            && (Has(l'.labels) && Has(l.labels) ==> l'.approvedHead == l.approvedHead)
  {
    if Has(l.labels) {
      var x :| x in l.labels && IsApproval(x);
    }
  }

  /** The same letter, or the capital of a small letter. */
  predicate SameLetter(c: char, small: char) {
    c == small || ('A' <= c <= 'Z' && c as int + 32 == small as int)
  }

  /** A label approves exactly if it is the approval label, whatever the case of its letters. */
  lemma ApprovalIff(name: string)
    ensures IsApproval(name) <==> |name| == |LABEL| && forall i | 0 <= i < |LABEL| :: SameLetter(name[i], LABEL[i])
  {
    forall i | 0 <= i < |LABEL| ensures !('A' <= LABEL[i] <= 'Z') {
      NoCapitals(i);
    }
    if |name| == |LABEL| {
      forall i | 0 <= i < |LABEL| ensures Lower(name)[i] == LABEL[i] <==> SameLetter(name[i], LABEL[i]) {
      }
    }
    if IsApproval(name) {
      assert |Lower(name)| == |name|;
    }
  }

  lemma NoCapitals(i: nat)
    requires i < |LABEL|
    ensures !('A' <= LABEL[i] <= 'Z')
  {
  }

  lemma ApprovalByName()
    ensures IsApproval("po-merge-approved") && IsApproval("PO-Merge-Approved") && !IsApproval("po-merge-approve")
  {
    assert Lower("po-merge-approved") == LABEL;
    assert Lower("PO-Merge-Approved") == LABEL;
    assert |Lower("po-merge-approve")| < |LABEL|;
  }

  /** What people do takes effect: any other head can be pushed, any absent label set, any present one removed. */
  lemma ChangesTakeEffect(l: Live, head: string, name: string)
    ensures head != "" && head != l.head ==>
              && Possible(l, Push(head)) && Changed(l, Push(head)) == l.(head := head)
              && ActionOf(Push(head)) == Synchronize
    ensures (forall x | x in l.labels :: Lower(x) != Lower(name)) ==>
              && Possible(l, AddLabel(name)) && Changed(l, AddLabel(name)).labels == l.labels + {name}
              && ActionOf(AddLabel(name)) == Labeled
    ensures name in l.labels ==>
              && Possible(l, RemoveLabel(name)) && Changed(l, RemoveLabel(name)).labels == l.labels - {name}
              && ActionOf(RemoveLabel(name)) == Unlabeled
    ensures Possible(l, SetDraft(!l.draft)) && Changed(l, SetDraft(!l.draft)) == l.(draft := !l.draft)
    ensures ActionOf(SetDraft(true)) == ConvertedToDraft && ActionOf(SetDraft(false)) == ReadyForReview
  {
  }

  /** A revoking run takes the approval away and nothing else. */
  lemma RevocationRemovesTheApproval(l: Live)
    ensures var l' := WithoutApproval(l);
            && !Has(l'.labels) && l'.labels <= l.labels && l' == l.(labels := l'.labels)
            && forall x | x in l.labels && x !in l'.labels :: IsApproval(x)
  {
  }
}
