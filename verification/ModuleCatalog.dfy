/**
 Selecting modules in the console (cloud-admin/lib/modules.ts): the depth-first search for dependencies over a
 shared set, and the toggles that keep a selection valid.
 */
module ModuleCatalog {
  import opened StringLists
  import opened Wrappers
  import opened ModuleGraph

  datatype SiteType = SiteType(id: string, preset: seq<string>)

  datatype Catalog = Catalog(modules: Specs, siteTypes: seq<SiteType>)

  /** The `Set` that the recursive calls of `requiredBy` share and fill, in insertion order. */
  class SeenSet {
    var order: seq<string>

    constructor ()
      ensures order == []
    {
      order := [];
    }

    ghost function Ids(): set<string>
      reads this
    {
      Elements(order)
    }
  }

  /** The dependencies of some modules are all there. */
  ghost predicate Supplied(specs: Specs, s: set<string>, all: set<string>) {
    forall id, dep | id in s && dep in Requires(specs, id) :: dep in all
  }

  lemma SuppliedByVisit(specs: Specs, start: set<string>, before: set<string>, id: string, after: set<string>)
    requires Supplied(specs, before - start, before) && before + {id} <= after
    requires Supplied(specs, after - (before + {id}), after) && Elements(Requires(specs, id)) <= after
    ensures Supplied(specs, after - start, after)
  {
    assert forall dep | dep in Requires(specs, id) :: dep in Elements(Requires(specs, id));
  }

  /**
   Adds to `seen` what `id` needs. On return every id it added has all its dependencies in `seen`, and so has `id`;
   nothing unreachable was added. It terminates on cycles because each call adds an unseen dependency.
   */
  method Visit(catalog: Catalog, id: string, seen: SeenSet)
    modifies seen
    ensures old(seen.Ids()) <= seen.Ids()
    ensures Elements(Requires(catalog.modules, id)) <= seen.Ids()
    ensures Supplied(catalog.modules, seen.Ids() - old(seen.Ids()), seen.Ids())
    ensures seen.Ids() <= old(seen.Ids()) + Needed(catalog.modules, id)
    decreases AllDeps(catalog.modules) - seen.Ids()
  {
    var deps := Requires(catalog.modules, id);
    for i := 0 to |deps|
      invariant old(seen.Ids()) <= seen.Ids()
      invariant Elements(deps[..i]) <= seen.Ids()
      invariant Supplied(catalog.modules, seen.Ids() - old(seen.Ids()), seen.Ids())
      invariant seen.Ids() <= old(seen.Ids()) + Needed(catalog.modules, id)
    {
      NeededIsTransitive(catalog.modules, id, deps[i]);
      if deps[i] !in seen.order {
        RequiresAreDeps(catalog.modules, id);
        assert deps[i] in Elements(deps);
        ghost var before := seen.Ids();
        seen.order := seen.order + [deps[i]];
        assert seen.Ids() == before + {deps[i]};
        Visit(catalog, deps[i], seen);
        SuppliedByVisit(catalog.modules, old(seen.Ids()), before, deps[i], seen.Ids());
      }
    }
    assert deps[..|deps|] == deps;
  }

  /** Exactly the modules reachable from `id` over one or more dependency edges. */
  method RequiredBy(catalog: Catalog, id: string) returns (r: seq<string>)
    ensures Elements(r) == Needed(catalog.modules, id)
  {
    var seen := new SeenSet();
    Visit(catalog, id, seen);
    r := seen.order;
    assert Elements(r) - {} == Elements(r) && Closed(catalog.modules, Elements(r));
    ClosedHoldsNeeded(catalog.modules, Elements(r), id);
  }

  // ----- Toggles, as functions on the selected set -----

  ghost function SwitchedOn(specs: Specs, s: set<string>, id: string): set<string> {
    s + {id} + Needed(specs, id)
  }

  ghost function SwitchedOff(specs: Specs, s: set<string>, id: string): set<string> {
    set m | m in s && m != id && id !in Needed(specs, m)
  }

  ghost function Toggled(specs: Specs, s: set<string>, id: string, checked: bool): set<string> {
    if checked then SwitchedOn(specs, s, id) else SwitchedOff(specs, s, id)
  }

  /** Switching on a module of a closed selection gives the least closed selection that has both. */
  lemma SwitchedOnIsLeast(specs: Specs, s: set<string>, id: string)
    requires Closed(specs, s)
    ensures var r := SwitchedOn(specs, s, id);
            && Closed(specs, r) && s + {id} <= r
            && forall t: set<string> | s + {id} <= t && Closed(specs, t) :: r <= t
  {
    NeededIsClosed(specs, id);
    forall a, dep | a in SwitchedOn(specs, s, id) && dep in Requires(specs, a) ensures dep in SwitchedOn(specs, s, id) {
      if a == id {
        NeededIsTransitive(specs, id, dep);
      }
    }
    forall t: set<string> | s + {id} <= t && Closed(specs, t) ensures SwitchedOn(specs, s, id) <= t {
      assert id in t;
      ClosedHoldsNeeded(specs, t, id);
    }
  }

  /** Switching off a module of a closed selection gives the greatest closed part that lacks it. */
  lemma SwitchedOffIsGreatest(specs: Specs, s: set<string>, id: string)
    requires Closed(specs, s)
    ensures var r := SwitchedOff(specs, s, id);
            && Closed(specs, r) && r <= s - {id}
            && forall t: set<string> | t <= s - {id} && Closed(specs, t) :: t <= r
  {
    forall a, dep | a in SwitchedOff(specs, s, id) && dep in Requires(specs, a)
      ensures dep in SwitchedOff(specs, s, id)
    {
      NeededIsTransitive(specs, a, dep);
    }
    forall t: set<string> | t <= s - {id} && Closed(specs, t) ensures t <= SwitchedOff(specs, s, id) {
      forall m | m in t ensures id !in Needed(specs, m) {
        assert Elements(Requires(specs, m)) <= t;
        ClosedHoldsNeeded(specs, t, m);
      }
    }
  }

  datatype Click = Click(id: string, checked: bool)

  ghost function Clicks(specs: Specs, s: set<string>, clicks: seq<Click>): set<string>
    decreases clicks
  {
    if clicks == [] then s else Clicks(specs, Toggled(specs, s, clicks[0].id, clicks[0].checked), clicks[1..])
  }

  /** Any sequence of toggles from a closed selection stays closed. */
  lemma {:induction false} ClicksStayClosed(specs: Specs, s: set<string>, clicks: seq<Click>)
    requires Closed(specs, s)
    ensures Closed(specs, Clicks(specs, s, clicks))
    decreases clicks
  {
    if clicks != [] {
      SwitchedOnIsLeast(specs, s, clicks[0].id);
      SwitchedOffIsGreatest(specs, s, clicks[0].id);
      ClicksStayClosed(specs, Toggled(specs, s, clicks[0].id, clicks[0].checked), clicks[1..]);
    }
  }

  /**
   A ticked module is selected with the least that keeps the selection closed, an unticked one goes with the least.
   */
  lemma ToggleIsExact(specs: Specs, s: set<string>, id: string)
    requires Closed(specs, s)
    ensures var on, off := Toggled(specs, s, id, true), Toggled(specs, s, id, false);
            && Closed(specs, on) && s + {id} <= on && Closed(specs, off) && off <= s - {id}
            && (forall t: set<string> | s + {id} <= t && Closed(specs, t) :: on <= t)
            && (forall t: set<string> | t <= s - {id} && Closed(specs, t) :: t <= off)
  {
    SwitchedOnIsLeast(specs, s, id);
    SwitchedOffIsGreatest(specs, s, id);
  }

  /** After any clicks the module clicked last is selected exactly if it was ticked. */
  lemma {:induction false} LastClickDecides(specs: Specs, s: set<string>, clicks: seq<Click>)
    requires Closed(specs, s) && clicks != []
    ensures var last := clicks[|clicks| - 1]; last.id in Clicks(specs, s, clicks) <==> last.checked
    decreases clicks
  {
    var s1 := Toggled(specs, s, clicks[0].id, clicks[0].checked);
    ToggleIsExact(specs, s, clicks[0].id);
    if |clicks| == 1 {
      assert Clicks(specs, s1, clicks[1..]) == s1;
    } else {
      LastClickDecides(specs, s1, clicks[1..]);
    }
  }

  // ----- The lists the console shows -----

  /** The distinct elements outside the catalogue, sorted. */
  function SortedUnknown(specs: Specs, ids: seq<string>): (r: seq<string>)
    ensures Elements(r) == set id | id in ids && !Known(specs, id)
  {
    if ids == [] then []
    else
      assert Elements(ids) == {ids[0]} + Elements(ids[1..]);
      var rest := SortedUnknown(specs, ids[1..]);
      if Known(specs, ids[0]) then rest else Insert(ids[0], rest)
  }

  function KnownInOrder(all: Specs, ids: seq<string>): (r: seq<string>)
    ensures Elements(r) == set id | id in ids && Known(all, id)
  {
    if all == [] then []
    else
      var rest := KnownInOrder(all[1..], ids);
      ElementsConcat([all[0].id], rest);
      if all[0].id in ids then [all[0].id] + rest else rest
  }

  /** Catalogue order first, then unknown ids: nothing is lost and nothing added. */
  function Ordered(specs: Specs, ids: seq<string>): (r: seq<string>)
    ensures Elements(r) == Elements(ids)
  {
    ElementsConcat(KnownInOrder(specs, ids), SortedUnknown(specs, ids));
    KnownInOrder(specs, ids) + SortedUnknown(specs, ids)
  }

  // ----- The list is determined by the set -----

  lemma {:induction false} SortedUnknownIsSorted(specs: Specs, ids: seq<string>)
    ensures StrictlySorted(SortedUnknown(specs, ids))
  {
    if ids != [] {
      SortedUnknownIsSorted(specs, ids[1..]);
      InsertKeepsSorted(ids[0], SortedUnknown(specs, ids[1..]));
    }
  }

  lemma {:induction false} KnownInOrderBySet(all: Specs, a: seq<string>, b: seq<string>)
    requires Elements(a) == Elements(b)
    ensures KnownInOrder(all, a) == KnownInOrder(all, b)
  {
    if all != [] {
      KnownInOrderBySet(all[1..], a, b);
      assert all[0].id in a <==> all[0].id in Elements(a);
      assert all[0].id in b <==> all[0].id in Elements(b);
    }
  }

  /** Two lists of the same selection are shown as the same list. */
  lemma OrderedIsCanonical(specs: Specs, a: seq<string>, b: seq<string>)
    requires Elements(a) == Elements(b)
    ensures Ordered(specs, a) == Ordered(specs, b)
  {
    KnownInOrderBySet(specs, a, b);
    SortedUnknownIsSorted(specs, a);
    SortedUnknownIsSorted(specs, b);
    assert forall id :: id in a <==> id in Elements(a);
    assert forall id :: id in b <==> id in Elements(b);
    SortedIsUnique(SortedUnknown(specs, a), SortedUnknown(specs, b));
  }

  lemma {:induction false} KnownFollowTheCatalogue(all: Specs, ids: seq<string>) returns (at: seq<nat>)
    ensures var r := KnownInOrder(all, ids);
            && |at| == |r|
            && (forall i | 0 <= i < |r| :: at[i] < |all| && all[at[i]].id == r[i])
            && (forall i, j | 0 <= i < j < |r| :: at[i] < at[j])
  {
    at := [];
    if all != [] {
      var rest := KnownFollowTheCatalogue(all[1..], ids);
      var shifted := seq(|rest|, i requires 0 <= i < |rest| => rest[i] + 1);
      at := if all[0].id in ids then [0] + shifted else shifted;
    }
  }

  /**
   The shape of the shown list: catalogue modules first, in catalogue order (`at` gives their positions), then the ids
   the catalogue does not know, sorted and without repetition.
   */
  lemma OrderedShape(specs: Specs, ids: seq<string>) returns (k: nat, at: seq<nat>)
    ensures var r := Ordered(specs, ids);
            && k <= |r| && |at| == k
            && (forall i | 0 <= i < |r| :: i < k <==> Known(specs, r[i]))
            && (forall i | 0 <= i < k :: at[i] < |specs| && specs[at[i]].id == r[i])
            && (forall i, j | 0 <= i < j < k :: at[i] < at[j])
            && StrictlySorted(r[k..])
  {
    var known, unknown := KnownInOrder(specs, ids), SortedUnknown(specs, ids);
    k := |known|;
    at := KnownFollowTheCatalogue(specs, ids);
    SortedUnknownIsSorted(specs, ids);
    assert Ordered(specs, ids)[k..] == unknown;
    assert forall i | 0 <= i < |known| :: known[i] in Elements(known);
    assert forall i | 0 <= i < |unknown| :: unknown[i] in Elements(unknown);
  }

  // ----- The console operations -----

  method DependantsOf(catalog: Catalog, id: string, selected: seq<string>) returns (r: seq<string>)
    ensures Elements(r) == set m | m in selected && m != id && id in Needed(catalog.modules, m)
  {
    r := [];
    for i := 0 to |selected|
      invariant Elements(r) == set m | m in selected[..i] && m != id && id in Needed(catalog.modules, m)
    {
      var needed := RequiredBy(catalog, selected[i]);
      assert id in needed <==> id in Elements(needed);
      assert selected[..i + 1] == selected[..i] + [selected[i]];
      if selected[i] != id && id in needed {
        ElementsConcat(r, [selected[i]]);
        r := r + [selected[i]];
      }
    }
    assert selected[..|selected|] == selected;
  }

  function Without(s: seq<string>, drop: set<string>): (r: seq<string>)
    ensures Elements(r) == Elements(s) - drop
  {
    if s == [] then []
    else
      assert Elements(s) == {s[0]} + Elements(s[1..]);
      ElementsConcat([s[0]], Without(s[1..], drop));
      if s[0] in drop then Without(s[1..], drop) else [s[0]] + Without(s[1..], drop)
  }

  /** The list shown after a click, which depends on the selected set only. */
  method ToggleModule(catalog: Catalog, selected: seq<string>, id: string, checked: bool) returns (r: seq<string>)
    ensures Elements(r) == Toggled(catalog.modules, Elements(selected), id, checked)
    ensures r == Ordered(catalog.modules, r)
  {
    ghost var raw: seq<string>;
    if checked {
      var needed := RequiredBy(catalog, id);
      var all := selected + [id] + needed;
      assert Elements(all) == Elements(selected) + {id} + Elements(needed);
      r := Ordered(catalog.modules, all);
      raw := all;
    } else {
      var dependants := DependantsOf(catalog, id, selected);
      var kept := Without(selected, {id} + Elements(dependants));
      r := Ordered(catalog.modules, kept);
      raw := kept;
    }
    OrderedIsCanonical(catalog.modules, raw, r);
  }

  function FindSiteType(siteTypes: seq<SiteType>, id: string): Option<SiteType> {
    if siteTypes == [] then None
    else if siteTypes[0].id == id then Some(siteTypes[0])
    else FindSiteType(siteTypes[1..], id)
  }

  /** The preset ids of a site type; an unset or unknown one has none. */
  function PresetOf(catalog: Catalog, siteType: Option<string>): seq<string> {
    var t := if siteType.Some? then FindSiteType(catalog.siteTypes, siteType.value) else None;
    if t.Some? then t.value.preset else []
  }

  /** The first site type with this id gives its own preset; an unset or unknown one gives none. */
  lemma {:induction false} PresetOfFirst(catalog: Catalog, id: string, i: nat)
    ensures var types := catalog.siteTypes;
            && (i < |types| && types[i].id == id && (forall j | 0 <= j < i :: types[j].id != id) ==>
                  PresetOf(catalog, Some(id)) == types[i].preset)
            && ((forall j | 0 <= j < |types| :: types[j].id != id) ==> PresetOf(catalog, Some(id)) == [])
            && PresetOf(catalog, None) == []
    decreases catalog.siteTypes
  {
    var types := catalog.siteTypes;
    if types != [] {
      PresetOfFirst(catalog.(siteTypes := types[1..]), id, if i > 0 then i - 1 else 0);
      assert forall j | 1 <= j < |types| :: types[j] == types[1..][j - 1];
    }
  }

  /** A preset with everything it needs: the least closed selection that contains it. */
  method PresetFor(catalog: Catalog, siteType: Option<string>) returns (r: seq<string>)
    ensures var p := Elements(PresetOf(catalog, siteType));
            && Closed(catalog.modules, Elements(r)) && p <= Elements(r)
            && forall t: set<string> | p <= t && Closed(catalog.modules, t) :: Elements(r) <= t
    ensures r == Ordered(catalog.modules, r)
  {
    var preset := PresetOf(catalog, siteType);
    var all: seq<string> := [];
    for i := 0 to |preset|
      invariant Closed(catalog.modules, Elements(all)) && Elements(preset[..i]) <= Elements(all)
      invariant forall t: set<string> | Elements(preset[..i]) <= t && Closed(catalog.modules, t) :: Elements(all) <= t
    {
      var needed := RequiredBy(catalog, preset[i]);
      ghost var before := Elements(all);
      SwitchedOnIsLeast(catalog.modules, before, preset[i]);
      all := all + [preset[i]] + needed;
      assert Elements(all) == SwitchedOn(catalog.modules, before, preset[i]);
      assert Elements(preset[..i + 1]) == Elements(preset[..i]) + {preset[i]};
    }
    assert preset[..|preset|] == preset;
    r := Ordered(catalog.modules, all);
    OrderedIsCanonical(catalog.modules, all, r);
  }
}
