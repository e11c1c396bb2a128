/**
 Selecting in the console, issuing at Central and authorising on the appliance agree.
 */
module Entitlement {
  import opened StringLists
  import opened Wrappers
  import opened Licence
  import opened ModuleGraph
  import opened ModuleRegistry
  import opened ModuleCatalog

  /** The console's catalogue describes the same modules and dependencies as the registry. */
  ghost predicate Mirrors(catalog: Specs, registry: Specs) {
    forall id :: Known(catalog, id) == Known(registry, id) && Requires(catalog, id) == Requires(registry, id)
  }

  /** Every dependency of a registered module is registered. */
  ghost predicate Complete(registry: Specs) {
    forall id, dep | dep in Requires(registry, id) :: Known(registry, dep)
  }

  ghost predicate Grants(d: Document, s: set<string>) {
    d.schemaVersion >= 4 && d.modules.Some? && d.modules.value.Keys == s
  }

  /** Known ids are refused at issue exactly when the appliance would drop some of them. */
  lemma RefusedIffDropped(registry: Specs, s: set<string>, d: Document)
    requires AllKnown(registry, s) && Grants(d, s)
    ensures Closed(registry, s) <==> Supported(registry, KnownGrants(registry, d)) == s
    ensures Supported(registry, KnownGrants(registry, d)) <= s
  {
    assert KnownGrants(registry, d) == s;
    SupportedIsGreatestClosed(registry, s);
  }

  lemma {:induction false} ClicksKeepKnown(specs: Specs, s: set<string>, clicks: seq<Click>)
    requires Complete(specs) && AllKnown(specs, s)
    requires forall c | c in clicks :: Known(specs, c.id)
    ensures AllKnown(specs, Clicks(specs, s, clicks))
    decreases clicks
  {
    if clicks != [] {
      var c := clicks[0];
      assert c in clicks;
      forall dep | dep in Needed(specs, c.id) ensures Known(specs, dep) {
        var p :| IsPath(specs, p) && p[0] == c.id && p[|p| - 1] == dep;
        assert p[|p| - 2 + 1] in Requires(specs, p[|p| - 2]);
      }
      ClicksKeepKnown(specs, Toggled(specs, s, c.id, c.checked), clicks[1..]);
    }
  }

  /**
   A selection reached from a closed one of known modules by any clicks on known modules is issued without a refusal,
   and a v4 document that grants it authorises exactly it.
   */
  lemma SelectionIsWhatIsAuthorized(catalog: Specs, registry: Specs, start: set<string>, clicks: seq<Click>,
                                    d: Document)
    requires Mirrors(catalog, registry) && Complete(registry)
    requires Closed(catalog, start) && AllKnown(catalog, start)
    requires forall c | c in clicks :: Known(catalog, c.id)
    requires Grants(d, Clicks(catalog, start, clicks))
    ensures var s := Clicks(catalog, start, clicks);
            && AllKnown(registry, s) && Closed(registry, s)
            && Supported(registry, KnownGrants(registry, d)) == s
  {
    ClicksStayClosed(catalog, start, clicks);
    ClicksKeepKnown(catalog, start, clicks);
    RefusedIffDropped(registry, Clicks(catalog, start, clicks), d);
  }

  function Ids(specs: Specs): set<string> {
    set s | s in specs :: s.id
  }

  lemma {:induction false} IdsAreKnown(specs: Specs, id: string)
    ensures Known(specs, id) <==> id in Ids(specs)
  {
    if specs != [] {
      IdsAreKnown(specs[1..], id);
      assert specs == [specs[0]] + specs[1..];
    }
  }

  /** The least closed selection that contains known modules consists of known modules. */
  lemma LeastClosedIsKnown(specs: Specs, preset: set<string>, r: set<string>)
    requires Complete(specs) && AllKnown(specs, preset)
    requires forall t: set<string> | preset <= t && Closed(specs, t) :: r <= t
    ensures AllKnown(specs, r)
  {
    forall id ensures Known(specs, id) <==> id in Ids(specs) {
      IdsAreKnown(specs, id);
    }
    assert Closed(specs, Ids(specs)) && preset <= Ids(specs);
  }

  /**
   The three sides put together: start from a site type's preset, click, issue the list shown, and authorise a v4
   document that carries what was issued. The start is the least closed selection with the preset. Nothing is refused,
   and exactly the selection is authorised.
   */
  method SelectIssueAuthorize(catalog: Catalog, registry: Specs, siteType: Option<string>, clicks: seq<Click>,
                              blank: Document)
    returns (selected: seq<string>, issued: Issued, authorized: set<string>, ghost start: set<string>)
    requires Mirrors(catalog.modules, registry) && Complete(registry) && blank.schemaVersion >= 4
    requires AllKnown(registry, Elements(PresetOf(catalog, siteType)))
    requires forall c | c in clicks :: Known(registry, c.id)
    ensures Closed(catalog.modules, start) && Elements(PresetOf(catalog, siteType)) <= start
    ensures forall t: set<string> | Elements(PresetOf(catalog, siteType)) <= t && Closed(catalog.modules, t) ::
              start <= t
    ensures Elements(selected) == Clicks(catalog.modules, start, clicks)
    ensures issued.Granted? && issued.modules.Keys == Elements(selected) && authorized == Elements(selected)
  {
    selected := PresetFor(catalog, siteType);
    start := Elements(selected);
    LeastClosedIsKnown(catalog.modules, Elements(PresetOf(catalog, siteType)), start);
    for i := 0 to |clicks|
      invariant Clicks(catalog.modules, Elements(selected), clicks[i..]) == Clicks(catalog.modules, start, clicks)
    {
      assert clicks[i..][0] == clicks[i] && clicks[i..][1..] == clicks[i + 1..];
      selected := ToggleModule(catalog, selected, clicks[i].id, clicks[i].checked);
    }
    assert clicks[|clicks|..] == [];
    ClicksStayClosed(catalog.modules, start, clicks);
    ClicksKeepKnown(catalog.modules, start, clicks);
    issued := ModulesFromIDs(registry, selected);
    var doc := blank.(modules := Some(issued.modules));
    authorized := AuthorizedModules(registry, doc);
    RefusedIffDropped(registry, Elements(selected), doc);
  }

  /** Unknown grants never disturb the known ones: a licence for a newer build authorises what this build knows. */
  lemma UnknownGrantsAreIgnored(registry: Specs, s: set<string>, unknown: set<string>, d: Document, d': Document)
    requires Grants(d, s) && Grants(d', s + unknown) && forall id | id in unknown :: !Known(registry, id)
    ensures Supported(registry, KnownGrants(registry, d)) == Supported(registry, KnownGrants(registry, d'))
  {
    assert KnownGrants(registry, d) == KnownGrants(registry, d');
  }

  // ----- The shipped registry -----

  lemma NoRequiresNoNeeds(specs: Specs, id: string)
    requires Requires(specs, id) == []
    ensures Needed(specs, id) == {}
  {
    ClosedHoldsNeeded(specs, {}, id);
  }

  lemma {:induction false} FindIsAnEntry(specs: Specs, id: string) returns (i: nat)
    ensures Known(specs, id) ==> i < |specs| && specs[i].id == id && Find(specs, id) == Some(specs[i])
    ensures !Known(specs, id) ==> forall j | 0 <= j < |specs| :: specs[j].id != id
  {
    i := 0;
    if specs != [] && specs[0].id != id {
      i := FindIsAnEntry(specs[1..], id);
      i := i + 1;
      assert forall j | 1 <= j < |specs| :: specs[j] == specs[1..][j - 1];
    }
  }

  /** Every dependency named in the shipped registry is registered. */
  lemma RegistryIsComplete()
    ensures Complete(REGISTRY)
  {
    forall id, dep | dep in Requires(REGISTRY, id) ensures Known(REGISTRY, dep) {
      var i := FindIsAnEntry(REGISTRY, id);
      assert dep in REGISTRY[i].needs;
      assert i == 2 || i == 3;
      assert dep == REGISTRY[0].id || dep == REGISTRY[1].id;
      var j := FindIsAnEntry(REGISTRY, dep);
    }
  }

  lemma OnlyTwoNeedOthers(i: nat)
    requires i < |REGISTRY| && i != 2 && i != 3
    ensures REGISTRY[i].needs == []
  {
  }

  lemma RegisteredWithoutNeeds(id: string, k: nat)
    requires k < |REGISTRY| && k != 2 && k != 3 && id == REGISTRY[k].id
    requires id != REGISTRY[2].id && id != REGISTRY[3].id
    ensures Known(REGISTRY, id) && Needed(REGISTRY, id) == {}
  {
    var i := FindIsAnEntry(REGISTRY, id);
    OnlyTwoNeedOthers(i);
    NoRequiresNoNeeds(REGISTRY, id);
  }

  lemma LegacyModulesStandAlone(id: string)
    requires id in {"hospitality", "sms_otp", "email_otp", "social_login", "white_label", "ha"}
    ensures Known(REGISTRY, id) && Needed(REGISTRY, id) == {}
  {
    var k := if id == "hospitality" then 0 else if id == "sms_otp" then 4 else if id == "email_otp" then 6
             else if id == "social_login" then 7 else if id == "white_label" then 8 else 9;
    RegisteredWithoutNeeds(id, k);
  }

  lemma LegacyKeys(f: Features)
    ensures LegacyModules(f).Keys !! {"paid_access", "card_payment", "room_charge", "whatsapp_otp"}
  {
  }

  lemma StandAloneIsSupported(specs: Specs, s: set<string>)
    requires forall id | id in s :: Known(specs, id) && Needed(specs, id) == {}
    ensures (set id | id in s && Known(specs, id)) == s && Supported(specs, s) == s
  {
  }

  /**
   A pre-v4 document authorises exactly the modules its features stand for, each by its own name, and never a financial
   one.
   */
  lemma LegacyAuthorizesItsFeatures(d: Document)
    requires d.schemaVersion < 4
    ensures var auth := Supported(REGISTRY, KnownGrants(REGISTRY, d));
            && auth == LegacyModules(d.features).Keys
            && auth !! {"paid_access", "card_payment", "room_charge", "whatsapp_otp"}
            && ("hospitality" in auth <==> d.features.pms) && ("sms_otp" in auth <==> d.features.smsOtp)
            && ("email_otp" in auth <==> d.features.emailOtp) && ("social_login" in auth <==> d.features.socialLogin)
            && ("ha" in auth <==> d.features.ha) && ("white_label" in auth <==> d.features.whiteLabel)
  {
    var keys := LegacyModules(d.features).Keys;
    LegacyKeys(d.features);
    forall id | id in keys ensures Known(REGISTRY, id) && Needed(REGISTRY, id) == {} {
      LegacyModulesStandAlone(id);
    }
    StandAloneIsSupported(REGISTRY, keys);
    assert KnownGrants(REGISTRY, d) == keys;
  }

  // ----- The shipped modules by name, from schema 4 on -----

  const STAND_ALONE := {"hospitality", "paid_access", "sms_otp", "whatsapp_otp", "email_otp", "social_login",
                        "white_label", "ha"}

  lemma ShippedStandAlone(id: string)
    requires id in STAND_ALONE
    ensures Known(REGISTRY, id) && Needed(REGISTRY, id) == {}
  {
    if id == "paid_access" {
      RegisteredWithoutNeeds(id, 1);
    } else if id == "whatsapp_otp" {
      RegisteredWithoutNeeds(id, 5);
    } else {
      LegacyModulesStandAlone(id);
    }
  }

  lemma NeedsOfEntry(k: nat)
    requires k == 2 || k == 3
    ensures Known(REGISTRY, REGISTRY[k].id) && Requires(REGISTRY, REGISTRY[k].id) == REGISTRY[k].needs
  {
    assert REGISTRY[0].id[0] == 'h' && REGISTRY[1].id[0] == 'p' && REGISTRY[2].id[0] == 'c' && REGISTRY[3].id[0] == 'r';
    RequiresOfFirst(REGISTRY, REGISTRY[k].id, k);
  }

  /** Modules whose dependencies need nothing themselves need just these. */
  lemma FlatNeeds(specs: Specs, id: string)
    requires forall dep | dep in Requires(specs, id) :: Requires(specs, dep) == []
    ensures Needed(specs, id) == Elements(Requires(specs, id))
  {
    var deps := Elements(Requires(specs, id));
    assert Closed(specs, deps);
    ClosedHoldsNeeded(specs, deps, id);
    forall dep | dep in deps ensures dep in Needed(specs, id) {
      NeededIsTransitive(specs, id, dep);
    }
  }

  lemma NoNeedsNoRequires(specs: Specs, id: string)
    requires Needed(specs, id) == {}
    ensures Requires(specs, id) == []
  {
    if Requires(specs, id) != [] {
      NeededIsTransitive(specs, id, Requires(specs, id)[0]);
    }
  }

  /** A known module that needs exactly these, all known. */
  ghost predicate NeedsExactly(specs: Specs, id: string, needs: set<string>) {
    Known(specs, id) && Needed(specs, id) == needs && forall dep | dep in needs :: Known(specs, dep)
  }

  lemma FlatNeedsExactly(specs: Specs, id: string, needs: set<string>)
    requires Known(specs, id) && Elements(Requires(specs, id)) == needs
    requires forall dep | dep in needs :: Known(specs, dep) && Needed(specs, dep) == {}
    ensures NeedsExactly(specs, id, needs)
  {
    forall dep | dep in Requires(specs, id) ensures Requires(specs, dep) == [] {
      assert dep in Elements(Requires(specs, id));
      NoNeedsNoRequires(specs, dep);
    }
    FlatNeeds(specs, id);
  }

  /** The two shipped modules that need others: card payment and room charge. */
  lemma ShippedNeeds(k: nat)
    requires k == 2 || k == 3
    ensures NeedsExactly(REGISTRY, REGISTRY[k].id, Elements(REGISTRY[k].needs))
  {
    NeedsOfEntry(k);
    forall dep | dep in Elements(REGISTRY[k].needs) ensures Known(REGISTRY, dep) && Needed(REGISTRY, dep) == {} {
      assert dep in STAND_ALONE;
      ShippedStandAlone(dep);
    }
    FlatNeedsExactly(REGISTRY, REGISTRY[k].id, Elements(REGISTRY[k].needs));
  }

  lemma CardPaymentNeeds()
    ensures NeedsExactly(REGISTRY, "card_payment", {"paid_access"})
  {
    ShippedNeeds(2);
    assert Elements(REGISTRY[2].needs) == {"paid_access"};
  }

  lemma RoomChargeNeeds()
    ensures NeedsExactly(REGISTRY, "room_charge", {"hospitality", "paid_access"})
  {
    ShippedNeeds(3);
    assert Elements(REGISTRY[3].needs) == {"hospitality", "paid_access"};
  }

  ghost function GrantedIds(d: Document): set<string> {
    if d.modules.Some? then d.modules.value.Keys else {}
  }

  ghost predicate AuthorizedIffGranted(specs: Specs, d: Document, id: string, needs: set<string>) {
    id in Supported(specs, KnownGrants(specs, d)) <==> id in GrantedIds(d) && needs <= GrantedIds(d)
  }

  /** A known module is authorised exactly if it is granted together with all it needs. */
  lemma AuthorizedWithNeeds(specs: Specs, d: Document, id: string, needs: set<string>)
    requires d.schemaVersion >= 4 && NeedsExactly(specs, id, needs)
    ensures AuthorizedIffGranted(specs, d, id, needs)
  {
    assert forall x :: x in KnownGrants(specs, d) <==> x in GrantedIds(d) && Known(specs, x);
  }

  /** In a document of schema 4 a stand-alone module is authorised exactly if it is granted. */
  lemma StandAloneAuthorized(d: Document, id: string)
    requires d.schemaVersion >= 4 && id in STAND_ALONE
    ensures id in Supported(REGISTRY, KnownGrants(REGISTRY, d)) <==> id in GrantedIds(d)
  {
    ShippedStandAlone(id);
    AuthorizedWithNeeds(REGISTRY, d, id, {});
  }

  /** Card payment is authorised with paid access beside it, room charge with hospitality as well. */
  lemma DependentAuthorized(d: Document)
    requires d.schemaVersion >= 4
    ensures AuthorizedIffGranted(REGISTRY, d, "card_payment", {"paid_access"})
    ensures AuthorizedIffGranted(REGISTRY, d, "room_charge", {"hospitality", "paid_access"})
  {
    CardPaymentNeeds();
    RoomChargeNeeds();
    AuthorizedWithNeeds(REGISTRY, d, "card_payment", {"paid_access"});
    AuthorizedWithNeeds(REGISTRY, d, "room_charge", {"hospitality", "paid_access"});
  }

  /** Nothing is authorised that is not granted and known, so nothing at all without a module list. */
  lemma OnlyGrantsAreAuthorized(d: Document)
    requires d.schemaVersion >= 4
    ensures var auth := Supported(REGISTRY, KnownGrants(REGISTRY, d));
            auth <= GrantedIds(d) && AllKnown(REGISTRY, auth) && (d.modules.None? ==> auth == {})
  {
  }

  /** So the features of a valid document of schema 4 are the modules it authorises, each by its own name. */
  lemma FeaturesAreTheAuthorized(d: Document)
    requires Valid(d) && d.schemaVersion >= 4
    ensures var auth := Supported(REGISTRY, KnownGrants(REGISTRY, d));
            && ("hospitality" in auth <==> d.features.pms) && ("paid_access" in auth <==> d.features.paidWiFi)
            && ("sms_otp" in auth <==> d.features.smsOtp) && ("email_otp" in auth <==> d.features.emailOtp)
            && ("social_login" in auth <==> d.features.socialLogin) && ("ha" in auth <==> d.features.ha)
            && ("white_label" in auth <==> d.features.whiteLabel)
  {
    forall id | id in STAND_ALONE
      ensures id in Supported(REGISTRY, KnownGrants(REGISTRY, d)) <==> id in GrantedIds(d)
    {
      StandAloneAuthorized(d, id);
    }
  }
}
