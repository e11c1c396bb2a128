/**
 A module catalogue as a finite dependency graph: the shared notion behind license/modules.go and
 cloud-admin/lib/modules.ts. Cycles and dependencies on unknown modules are allowed.
 */
module ModuleGraph {
  import opened StringLists
  import opened Wrappers

  datatype ModuleSpec = ModuleSpec(id: string, title: string, needs: seq<string>)

  type Specs = seq<ModuleSpec>

  /** The first entry with this id. */
  function Find(specs: Specs, id: string): Option<ModuleSpec> {
    if specs == [] then None else if specs[0].id == id then Some(specs[0]) else Find(specs[1..], id)
  }

  predicate Known(specs: Specs, id: string) {
    Find(specs, id).Some?
  }

  /** Direct dependencies; an unknown module has none. */
  function Requires(specs: Specs, id: string): seq<string> {
    if Find(specs, id).Some? then Find(specs, id).value.needs else []
  }

  /** A known module has all the needs of its first entry, and an unknown one has none. */
  lemma {:induction false} RequiresOfFirst(specs: Specs, id: string, i: nat)
    ensures i < |specs| && specs[i].id == id && (forall j | 0 <= j < i :: specs[j].id != id) ==>
              Known(specs, id) && Requires(specs, id) == specs[i].needs
    ensures (forall j | 0 <= j < |specs| :: specs[j].id != id) ==> !Known(specs, id) && Requires(specs, id) == []
  {
    if specs != [] {
      RequiresOfFirst(specs[1..], id, if i > 0 then i - 1 else 0);
      assert forall j | 1 <= j < |specs| :: specs[j] == specs[1..][j - 1];
    }
  }

  ghost predicate Closed(specs: Specs, s: set<string>) {
    forall id, dep | id in s && dep in Requires(specs, id) :: dep in s
  }

  /** Every id that some entry depends on. */
  function AllDeps(specs: Specs): set<string> {
    if specs == [] then {} else Elements(specs[0].needs) + AllDeps(specs[1..])
  }

  lemma {:induction false} RequiresAreDeps(specs: Specs, id: string)
    ensures Elements(Requires(specs, id)) <= AllDeps(specs)
  {
    if specs != [] && specs[0].id != id {
      RequiresAreDeps(specs[1..], id);
    }
  }

  // ----- Reachability -----

  /** One or more dependency edges. */
  ghost predicate IsPath(specs: Specs, p: seq<string>) {
    |p| >= 2 && forall i | 0 <= i < |p| - 1 :: p[i + 1] in Requires(specs, p[i])
  }

  ghost predicate Reaches(specs: Specs, a: string, b: string) {
    exists p :: IsPath(specs, p) && p[0] == a && p[|p| - 1] == b
  }

  /** Everything `id` needs, directly or through other modules. */
  ghost function Needed(specs: Specs, id: string): set<string> {
    set dep | dep in AllDeps(specs) && Reaches(specs, id, dep)
  }

  lemma NeededIsReachable(specs: Specs, a: string, b: string)
    ensures b in Needed(specs, a) <==> Reaches(specs, a, b)
  {
    if Reaches(specs, a, b) {
      var p :| IsPath(specs, p) && p[0] == a && p[|p| - 1] == b;
      assert p[|p| - 2 + 1] in Requires(specs, p[|p| - 2]);
      RequiresAreDeps(specs, p[|p| - 2]);
    }
  }

  lemma EdgeReaches(specs: Specs, a: string, b: string)
    requires b in Requires(specs, a)
    ensures Reaches(specs, a, b)
  {
    var p := [a, b];
    assert IsPath(specs, p) && p[0] == a && p[|p| - 1] == b;
  }

  lemma EdgeThenReaches(specs: Specs, a: string, b: string, c: string)
    requires b in Requires(specs, a) && Reaches(specs, b, c)
    ensures Reaches(specs, a, c)
  {
    var p :| IsPath(specs, p) && p[0] == b && p[|p| - 1] == c;
    var q := [a] + p;
    forall i | 0 <= i < |q| - 1 ensures q[i + 1] in Requires(specs, q[i]) {
      if i > 0 {
        assert p[i - 1 + 1] in Requires(specs, p[i - 1]);
      }
    }
    assert IsPath(specs, q) && q[0] == a && q[|q| - 1] == c;
  }

  lemma ReachesThenEdge(specs: Specs, a: string, b: string, c: string)
    requires Reaches(specs, a, b) && c in Requires(specs, b)
    ensures Reaches(specs, a, c)
  {
    var p :| IsPath(specs, p) && p[0] == a && p[|p| - 1] == b;
    var q := p + [c];
    forall i | 0 <= i < |q| - 1 ensures q[i + 1] in Requires(specs, q[i]) {
      if i < |p| - 1 {
        assert p[i + 1] in Requires(specs, p[i]);
      }
    }
    assert IsPath(specs, q) && q[0] == a && q[|q| - 1] == c;
  }

  /** A closed set contains everything its members need. */
  lemma ClosedHoldsNeeded(specs: Specs, s: set<string>, id: string)
    requires Closed(specs, s) && Elements(Requires(specs, id)) <= s
    ensures Needed(specs, id) <= s
  {
    forall b | b in Needed(specs, id) ensures b in s {
      var p :| IsPath(specs, p) && p[0] == id && p[|p| - 1] == b;
      PathStaysInside(specs, s, p, |p| - 1);
    }
  }

  lemma {:induction false} PathStaysInside(specs: Specs, s: set<string>, p: seq<string>, n: nat)
    requires Closed(specs, s) && IsPath(specs, p) && Elements(Requires(specs, p[0])) <= s && 1 <= n < |p|
    ensures p[n] in s
  {
    assert p[n - 1 + 1] in Requires(specs, p[n - 1]);
    if n > 1 {
      PathStaysInside(specs, s, p, n - 1);
    } else {
      assert p[1] in Elements(Requires(specs, p[0]));
    }
  }

  /** What a module needs contains its direct dependencies and what they need. */
  lemma NeededIsTransitive(specs: Specs, id: string, dep: string)
    requires dep in Requires(specs, id)
    ensures dep in Needed(specs, id) && Needed(specs, dep) <= Needed(specs, id)
  {
    EdgeReaches(specs, id, dep);
    NeededIsReachable(specs, id, dep);
    forall c | c in Needed(specs, dep) ensures c in Needed(specs, id) {
      EdgeThenReaches(specs, id, dep, c);
    }
  }

  lemma NeededIsClosed(specs: Specs, id: string)
    ensures Closed(specs, Needed(specs, id))
  {
    forall b, c | b in Needed(specs, id) && c in Requires(specs, b) ensures c in Needed(specs, id) {
      ReachesThenEdge(specs, id, b, c);
      NeededIsReachable(specs, id, c);
    }
  }

  // ----- Greatest closed subset -----

  /** The members of `s` that find everything they need inside `s`. */
  ghost function Supported(specs: Specs, s: set<string>): set<string> {
    set id | id in s && Needed(specs, id) <= s
  }

  /** They form the greatest dependency-closed subset. */
  lemma SupportedIsGreatestClosed(specs: Specs, s: set<string>)
    ensures Closed(specs, Supported(specs, s))
    ensures forall t: set<string> | t <= s && Closed(specs, t) :: t <= Supported(specs, s)
    ensures Supported(specs, s) == s <==> Closed(specs, s)
  {
    forall id, dep | id in Supported(specs, s) && dep in Requires(specs, id) ensures dep in Supported(specs, s) {
      NeededIsTransitive(specs, id, dep);
    }
    forall t: set<string> | t <= s && Closed(specs, t) ensures t <= Supported(specs, s) {
      forall id | id in t ensures Needed(specs, id) <= s {
        assert Elements(Requires(specs, id)) <= t;
        ClosedHoldsNeeded(specs, t, id);
      }
    }
  }
}
