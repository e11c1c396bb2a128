/**
 Issuing and authorising modules on the appliance side (license/modules.go). The operations are stated over any
 registry; REGISTRY is the one the product ships.
 */
module ModuleRegistry {
  import opened StringLists
  import opened Wrappers
  import opened Licence
  import opened ModuleGraph

  const REGISTRY: Specs := [
    ModuleSpec("hospitality", "Hotel (PMS, Room sign-in, stays)", []),
    ModuleSpec("paid_access", "Paid access (priced Internet Packages)", []),
    ModuleSpec("card_payment", "Card payment", ["paid_access"]),
    ModuleSpec("room_charge", "Room charge (PMS posting)", ["hospitality", "paid_access"]),
    ModuleSpec("sms_otp", "SMS one-time code", []),
    ModuleSpec("whatsapp_otp", "WhatsApp one-time code", []),
    ModuleSpec("email_otp", "Email accounts", []),
    ModuleSpec("social_login", "Social sign-in", []),
    ModuleSpec("white_label", "White label", []),
    ModuleSpec("ha", "High availability", [])]

  datatype Refusal = UnknownModule(id: string) | MissingDependency(id: string, dep: string)

  datatype Issued = Granted(modules: Modules) | Refused(reason: Refusal)

  ghost predicate AllKnown(specs: Specs, s: set<string>) {
    forall id | id in s :: Known(specs, id)
  }

  /** The selection lacks a dependency of this member. */
  ghost predicate Lacks(specs: Specs, s: set<string>, id: string) {
    id in s && exists dep | dep in Requires(specs, id) :: dep !in s
  }

  /** The first dependency of the first member, in sorted order, that the selection lacks. */
  ghost predicate FirstLacking(specs: Specs, s: set<string>, id: string, dep: string) {
    && Lacks(specs, s, id)
    && (forall other | Lacks(specs, s, other) :: Leq(id, other))
    && exists i | 0 <= i < |Requires(specs, id)| ::
         Requires(specs, id)[i] == dep && dep !in s && forall j | 0 <= j < i :: Requires(specs, id)[j] in s
  }

  method CheckDependencies(specs: Specs, ids: seq<string>) returns (r: Option<Refusal>)
    ensures r.None? <==> Closed(specs, Elements(ids))
    ensures r.Some? ==> r.value.MissingDependency? && FirstLacking(specs, Elements(ids), r.value.id, r.value.dep)
  {
    var have: set<string> := {};
    for i := 0 to |ids|
      invariant have == Elements(ids[..i])
    {
      have := have + {ids[i]};
    }
    assert ids[..|ids|] == ids;
    var keys := SortedKeys(have);
    for k := 0 to |keys|
      invariant forall j | 0 <= j < k :: !Lacks(specs, have, keys[j])
    {
      var id := keys[k];
      assert id in Elements(keys);
      var deps := Requires(specs, id);
      for i := 0 to |deps|
        invariant forall j | 0 <= j < i :: deps[j] in have
      {
        if deps[i] !in have {
          SortedFirst(specs, have, keys, k);
          return Some(MissingDependency(id, deps[i]));
        }
      }
    }
    forall id, dep | id in have && dep in Requires(specs, id) ensures dep in have {
      assert id in Elements(keys);
      var j :| 0 <= j < |keys| && keys[j] == id;
      assert !Lacks(specs, have, keys[j]);
    }
    return None;
  }

  lemma SortedFirst(specs: Specs, s: set<string>, keys: seq<string>, k: nat)
    requires StrictlySorted(keys) && Elements(keys) == s && k < |keys|
    requires forall j | 0 <= j < k :: !Lacks(specs, s, keys[j])
    ensures forall other | Lacks(specs, s, other) :: Leq(keys[k], other)
  {
    forall other | Lacks(specs, s, other) ensures Leq(keys[k], other) {
      assert other in Elements(keys);
      var j :| 0 <= j < |keys| && keys[j] == other;
      LeqTotal(other, other);
    }
  }

  method ModulesFromIDs(specs: Specs, ids: seq<string>) returns (r: Issued)
    ensures r.Granted? <==> AllKnown(specs, Elements(ids)) && Closed(specs, Elements(ids))
    ensures r.Granted? ==>
              r.modules.Keys == Elements(ids) && forall id | id in r.modules :: r.modules[id].limits == map[]
    ensures r.Refused? && r.reason.UnknownModule? <==> !AllKnown(specs, Elements(ids))
    ensures r.Refused? && r.reason.UnknownModule? ==>
              exists i | 0 <= i < |ids| ::
                ids[i] == r.reason.id && !Known(specs, ids[i]) && AllKnown(specs, Elements(ids[..i]))
    ensures r.Refused? && r.reason.MissingDependency? ==> FirstLacking(specs, Elements(ids), r.reason.id, r.reason.dep)
  {
    var m: Modules := map[];
    for i := 0 to |ids|
      invariant m.Keys == Elements(ids[..i]) && AllKnown(specs, m.Keys)
      invariant forall id | id in m :: m[id].limits == map[]
    {
      if !Known(specs, ids[i]) {
        assert ids[i] in Elements(ids);
        return Refused(UnknownModule(ids[i]));
      }
      m := m[ids[i] := ModuleGrant(map[])];
    }
    assert ids[..|ids|] == ids;
    var e := CheckDependencies(specs, ids);
    r := if e.Some? then Refused(e.value) else Granted(m);
  }

  function Grant(m: Modules, granted: bool, id: string): (r: Modules)
    ensures r.Keys == if granted then m.Keys + {id} else m.Keys
  {
    if granted then m[id := ModuleGrant(map[])] else m
  }

  /** Pre-v4 documents: features stand for modules, but paid_wifi proves nothing. */
  function LegacyModules(f: Features): (m: Modules)
    ensures ProjectFeatures(m) == f.(paidWiFi := false)
    ensures m.Keys <= {"hospitality", "sms_otp", "email_otp", "social_login", "ha", "white_label"}
  {
    var m1 := Grant(map[], f.pms, "hospitality");
    var m2 := Grant(m1, f.smsOtp, "sms_otp");
    var m3 := Grant(m2, f.emailOtp, "email_otp");
    var m4 := Grant(m3, f.socialLogin, "social_login");
    var m5 := Grant(m4, f.ha, "ha");
    Grant(m5, f.whiteLabel, "white_label")
  }

  function SourceModules(d: Document): Modules {
    if d.schemaVersion >= 4 then if d.modules.Some? then d.modules.value else map[] else LegacyModules(d.features)
  }

  /** The granted modules this build knows. */
  ghost function KnownGrants(specs: Specs, d: Document): set<string> {
    set id | id in SourceModules(d) && Known(specs, id)
  }

  /**
   Deletes modules with an unmet dependency until nothing changes, visiting them in any order. The result does not
   depend on that order: it is the set of known grants that find all they need among the known grants.
   */
  method AuthorizedModules(specs: Specs, d: Document) returns (out: set<string>)
    ensures out == Supported(specs, KnownGrants(specs, d))
  {
    var src := SourceModules(d);
    out := {};
    var todo := src.Keys;
    while todo != {}
      invariant todo <= src.Keys && out == set id | id in src.Keys - todo && Known(specs, id)
      decreases todo
    {
      var id :| id in todo;
      if Known(specs, id) {
        out := out + {id};
      }
      todo := todo - {id};
    }
    ghost var granted := KnownGrants(specs, d);
    assert out == granted;
    var changed := true;
    while changed
      invariant out <= granted
      invariant forall t: set<string> | t <= granted && Closed(specs, t) :: t <= out
      invariant !changed ==> Closed(specs, out)
      decreases out, changed
    {
      changed := false;
      ghost var before := out;
      var pending := out;
      while pending != {}
        invariant pending <= out <= before
        invariant forall t: set<string> | t <= granted && Closed(specs, t) :: t <= out
        invariant !changed ==> out == before
        invariant !changed ==> forall id, dep | id in out - pending && dep in Requires(specs, id) :: dep in out
        invariant changed ==> out < before
        decreases pending
      {
        var id :| id in pending;
        pending := pending - {id};
        out, changed := DropIfUnmet(specs, id, out, changed);
      }
    }
    SupportedIsGreatestClosed(specs, granted);
  }

  /** The loop over one module's dependencies. */
  method DropIfUnmet(specs: Specs, id: string, out0: set<string>, changed0: bool)
    returns (out: set<string>, changed: bool)
    requires id in out0
    ensures out == if Elements(Requires(specs, id)) <= out0 then out0 else out0 - {id}
    ensures changed <==> changed0 || out != out0
  {
    out, changed := out0, changed0;
    var deps := Requires(specs, id);
    for i := 0 to |deps|
      invariant out == if Elements(deps[..i]) <= out0 then out0 else out0 - {id}
      invariant changed <==> changed0 || out != out0
    {
      assert Elements(deps[..i + 1]) == Elements(deps[..i]) + {deps[i]};
      if deps[i] !in out {
        out := out - {id};
        changed := true;
      }
    }
    assert deps[..|deps|] == deps;
  }
}
