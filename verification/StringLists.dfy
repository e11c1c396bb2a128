/**
 Strings in sorted lists. The order is by code point, as Go's sort.Strings has it; JavaScript's default sort compares
 UTF-16 code units, which agrees below U+E000.
 */
module StringLists {

  function Elements(s: seq<string>): set<string> {
    set x | x in s
  }

  lemma ElementsConcat(a: seq<string>, b: seq<string>)
    ensures Elements(a + b) == Elements(a) + Elements(b)
    ensures |a| == 1 ==> Elements(a) == {a[0]}
  {
  }

  predicate Leq(a: string, b: string) {
    a == [] || (b != [] && (a[0] < b[0] || (a[0] == b[0] && Leq(a[1..], b[1..]))))
  }

  function Insert(x: string, s: seq<string>): (r: seq<string>)
    ensures Elements(r) == Elements(s) + {x}
  {
    if s == [] then [x]
    else if x == s[0] then s
    else if Leq(x, s[0]) then ElementsConcat([x], s); [x] + s
    else
      assert Elements(s) == {s[0]} + Elements(s[1..]);
      ElementsConcat([s[0]], Insert(x, s[1..]));
      [s[0]] + Insert(x, s[1..])
  }

  lemma {:induction false} LeqTotal(a: string, b: string)
    ensures Leq(a, b) || Leq(b, a)
    ensures Leq(a, b) && Leq(b, a) ==> a == b
  {
    if a != [] && b != [] && a[0] == b[0] {
      LeqTotal(a[1..], b[1..]);
      assert a == [a[0]] + a[1..] && b == [b[0]] + b[1..];
    }
  }

  lemma {:induction false} LeqTransitive(a: string, b: string, c: string)
    requires Leq(a, b) && Leq(b, c)
    ensures Leq(a, c)
  {
    if a != [] && a[0] == b[0] == c[0] {
      LeqTransitive(a[1..], b[1..], c[1..]);
    }
  }

  ghost predicate StrictlySorted(s: seq<string>) {
    forall i, j | 0 <= i < j < |s| :: Leq(s[i], s[j]) && s[i] != s[j]
  }

  lemma {:induction false} InsertKeepsSorted(x: string, s: seq<string>)
    requires StrictlySorted(s)
    ensures StrictlySorted(Insert(x, s))
  {
    if s != [] && x != s[0] {
      if Leq(x, s[0]) {
        forall j | 0 <= j < |s| ensures Leq(x, s[j]) && x != s[j] {
          LeqTotal(x, s[0]);
          if j > 0 {
            LeqTransitive(x, s[0], s[j]);
            LeqTotal(s[0], s[j]);
          }
        }
      } else {
        LeqTotal(x, s[0]);
        InsertKeepsSorted(x, s[1..]);
        var r := Insert(x, s[1..]);
        forall j | 0 <= j < |r| ensures Leq(s[0], r[j]) && s[0] != r[j] {
          assert r[j] in Elements(r);
        }
      }
    }
  }

  lemma {:induction false} SortedIsUnique(a: seq<string>, b: seq<string>)
    requires StrictlySorted(a) && StrictlySorted(b) && Elements(a) == Elements(b)
    ensures a == b
  {
    if a == [] {
      assert forall i | 0 <= i < |b| :: b[i] in Elements(a);
    } else {
      assert a[0] in Elements(b) && b != [];
      assert b[0] in Elements(a);
      LeqTotal(a[0], b[0]);
      assert a[0] == b[0];
      assert Elements(a[1..]) == Elements(a) - {a[0]};
      assert Elements(b[1..]) == Elements(b) - {b[0]};
      SortedIsUnique(a[1..], b[1..]);
      assert a == [a[0]] + a[1..] && b == [b[0]] + b[1..];
    }
  }

  /** `sortedKeys`: the elements of a set in order. */
  method SortedKeys(s: set<string>) returns (r: seq<string>)
    ensures StrictlySorted(r) && Elements(r) == s
  {
    r := [];
    var todo := s;
    while todo != {}
      invariant todo <= s && StrictlySorted(r) && Elements(r) == s - todo
      decreases todo
    {
      var x :| x in todo;
      InsertKeepsSorted(x, r);
      r := Insert(x, r);
      todo := todo - {x};
    }
  }

  /** The position of the first difference of two strings, or the end of the shorter one. */
  function Common(a: string, b: string): nat {
    if a == [] || b == [] || a[0] != b[0] then 0 else 1 + Common(a[1..], b[1..])
  }

  /** The order is by the first character that differs, and a proper prefix comes first. */
  lemma {:induction false} LeqByFirstDifference(a: string, b: string)
    ensures var n := Common(a, b);
            && n <= |a| && n <= |b| && a[..n] == b[..n]
            && (n < |a| && n < |b| ==> a[n] != b[n])
            && (Leq(a, b) <==> n == |a| || (n < |b| && a[n] < b[n]))
  {
    if a != [] && b != [] && a[0] == b[0] {
      LeqByFirstDifference(a[1..], b[1..]);
      var n := Common(a[1..], b[1..]);
      assert a[..n + 1] == [a[0]] + a[1..][..n] && b[..n + 1] == [b[0]] + b[1..][..n];
    }
  }
}
