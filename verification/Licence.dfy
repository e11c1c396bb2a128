/**
 The signed licence document and its evaluation at one instant (license/doc.go, license/verify.go).
 */
module Licence {
  import opened Timeline
  import opened Wrappers

  // ----- Document -----

  datatype Features = Features(pms: bool, paidWiFi: bool, smsOtp: bool, emailOtp: bool, socialLogin: bool, ha: bool,
                               whiteLabel: bool)

  datatype ModuleGrant = ModuleGrant(limits: map<string, int>)

  type Modules = map<string, ModuleGrant>

  datatype DocStatus = DocActive | DocSuspended | DocOther(text: string)

  datatype Document = Document(
    licenseId: string, tenantId: string, siteId: string, status: DocStatus,
    issuedAt: Time, validFrom: Time, validUntil: Time,
    offlineGraceDays: int, gracePeriodDays: int,
    licenseVersion: int, schemaVersion: int,
    features: Features, modules: Option<Modules>)

  const MIN_SCHEMA := 1
  const CURRENT_SCHEMA := 4

  /** The features a v4 document must carry for its modules. */
  function ProjectFeatures(m: Modules): Features {
    Features("hospitality" in m, "paid_access" in m, "sms_otp" in m, "email_otp" in m, "social_login" in m, "ha" in m,
             "white_label" in m)
  }

  /** `Document.Validate` returns no error. */
  predicate Valid(d: Document) {
    && MIN_SCHEMA <= d.schemaVersion <= CURRENT_SCHEMA
    && d.licenseId != "" && d.tenantId != "" && d.siteId != ""
    && d.validUntil > d.issuedAt
    && 0 <= d.offlineGraceDays <= 365
    && d.gracePeriodDays <= 365
    && (d.validFrom == 0 || d.validFrom <= d.validUntil)
    && !d.status.DocOther?
    && (d.schemaVersion >= 4 ==> d.modules.Some? && d.features == ProjectFeatures(d.modules.value))
  }

  function EffectiveGraceDays(d: Document): int {
    if d.schemaVersion >= 3 then
      if d.gracePeriodDays < 0 then 0 else d.gracePeriodDays
    else if d.gracePeriodDays > 0 then d.gracePeriodDays
    else d.offlineGraceDays
  }

  // ----- Evaluation -----

  datatype LicenceState = Active | GracePeriod | Restricted | Expired | Suspended | Revoked

  predicate AllowsNewSessions(s: LicenceState) {
    s.Active? || s.GracePeriod? || s.Restricted?
  }

  datatype Evaluation = Evaluation(state: LicenceState, doc: Document, graceUntil: Time, restrictedUntil: Time,
                                   clockRollback: bool, lastCloudValidation: Time, cloudStale: bool)

  /** `time.Duration(days) * 24 * time.Hour`, in 64-bit arithmetic. */
  function Days64(days: int): (r: int)
    ensures 0 <= days <= 365 ==> r == days * DAY
  {
    Wrap64(Wrap64(Wrap64(days) * 24) * HOUR)
  }

  function GraceUntil(d: Document): Time {
    d.validUntil + Days64(EffectiveGraceDays(d))
  }

  function RestrictedUntil(d: Document): Time {
    if d.schemaVersion >= 3 then GraceUntil(d)
    else d.validUntil + Wrap64(2 * Days64(EffectiveGraceDays(d)))
  }

  function CloudStale(d: Document, now: Time, lastCloudValidation: Time): bool {
    var offline := Days64(d.offlineGraceDays);
    lastCloudValidation != 0 && offline > 0 && Sub(now, lastCloudValidation) > offline
  }

  function StateAt(d: Document, now: Time, revoked: bool): LicenceState {
    if revoked then Revoked
    else if d.status.DocSuspended? then Suspended
    else if d.validFrom != 0 && now < d.validFrom then Expired
    else if now <= d.validUntil then Active
    else if now <= GraceUntil(d) then GracePeriod
    else if now <= RestrictedUntil(d) then Restricted
    else Expired
  }

  function Evaluate(d: Document, now: Time, lastCloudValidation: Time, revoked: bool): Evaluation {
    Evaluation(StateAt(d, now, revoked), d, GraceUntil(d), RestrictedUntil(d), false, lastCloudValidation,
               CloudStale(d, now, lastCloudValidation))
  }

  /** Every product of the grace arithmetic of a valid document stays inside a signed 64-bit Duration. */
  lemma GraceArithmeticIsExact(d: Document)
    requires Valid(d)
    ensures Fits64(EffectiveGraceDays(d) * DAY) && Fits64(2 * EffectiveGraceDays(d) * DAY)
    ensures GraceUntil(d) == d.validUntil + EffectiveGraceDays(d) * DAY
    ensures d.schemaVersion < 3 ==> RestrictedUntil(d) == d.validUntil + 2 * EffectiveGraceDays(d) * DAY
    ensures Days64(d.offlineGraceDays) == d.offlineGraceDays * DAY
    ensures d.validUntil <= GraceUntil(d) <= RestrictedUntil(d)
  {
    var g := EffectiveGraceDays(d);
    assert 0 <= g <= 365;
    assert Days64(g) == g * DAY && Fits64(2 * Days64(g));
  }

  /**
   Which field grants the grace. From schema 3 on only a positive grace_period_days does, and the offline allowance has
   no say; before, the offline allowance stands in when no renewal grace is set.
   */
  lemma RenewalGraceBySchema(d: Document, offline: int)
    requires Valid(d)
    ensures d.gracePeriodDays > 0 ==> GraceUntil(d) == d.validUntil + d.gracePeriodDays * DAY
    ensures d.schemaVersion >= 3 ==> GraceUntil(d) == GraceUntil(d.(offlineGraceDays := offline))
    ensures d.schemaVersion >= 3 ==> (GraceUntil(d) == d.validUntil <==> d.gracePeriodDays <= 0)
    ensures d.schemaVersion < 3 && d.gracePeriodDays <= 0 ==> GraceUntil(d) == d.validUntil + d.offlineGraceDays * DAY
  {
    GraceArithmeticIsExact(d);
  }

  /** Without the bound of `Validate` the same arithmetic wraps: grace can end before the licence does. */
  lemma UnboundedGraceWraps(d: Document)
    requires d.schemaVersion >= 3 && d.gracePeriodDays == 106_752
    ensures !Valid(d) && GraceUntil(d) < d.validUntil
  {
    assert Days64(106_752) == 106_752 * DAY - 0x1_0000_0000_0000_0000;
  }

  /** Position on the timeline Active, GracePeriod, Restricted, Expired. */
  function Stage(s: LicenceState): nat {
    match s
    case Active => 0
    case GracePeriod => 1
    case Restricted => 2
    case _ => 3
  }

  ghost predicate Started(d: Document, now: Time) {
    d.validFrom == 0 || d.validFrom <= now
  }

  /** From valid_from on, an active, unrevoked licence only ever moves forward on its timeline. */
  lemma TimelineMovesForward(d: Document, t1: Time, t2: Time)
    requires Valid(d) && d.status.DocActive? && Started(d, t1) && t1 <= t2
    ensures Stage(StateAt(d, t1, false)) <= Stage(StateAt(d, t2, false))
    ensures StateAt(d, t1, false).Expired? ==> StateAt(d, t2, false).Expired?
  {
    GraceArithmeticIsExact(d);
  }

  /** New sessions are allowed exactly inside [valid_from, restricted_until] of an active, unrevoked licence. */
  lemma SessionsAllowedIff(d: Document, now: Time, revoked: bool)
    requires Valid(d)
    ensures AllowsNewSessions(StateAt(d, now, revoked)) <==>
            !revoked && d.status.DocActive? && Started(d, now) && now <= RestrictedUntil(d)
  {
    GraceArithmeticIsExact(d);
  }

  /** Restricted is reachable exactly for old schemas with some grace: never from schema 3 on. */
  lemma RestrictedIff(d: Document)
    requires Valid(d) && d.status.DocActive?
    ensures (exists now :: StateAt(d, now, false).Restricted?) <==> d.schemaVersion < 3 && EffectiveGraceDays(d) > 0
  {
    GraceArithmeticIsExact(d);
    if d.schemaVersion < 3 && EffectiveGraceDays(d) > 0 {
      assert StateAt(d, RestrictedUntil(d), false).Restricted?;
    }
  }

  /** Silence of the cloud is measured against the offline allowance and only warns: the state does not depend on it. */
  lemma CloudSilenceOnlyWarns(d: Document, now: Time, last: Time, other: Time, revoked: bool)
    requires Valid(d)
    ensures Evaluate(d, now, last, revoked).state == Evaluate(d, now, other, revoked).state
    ensures Evaluate(d, now, last, revoked).cloudStale <==>
            last != 0 && d.offlineGraceDays > 0 && now > last + d.offlineGraceDays * DAY
  {
    GraceArithmeticIsExact(d);
  }

  /**
   The whole timeline of a valid document, with both ends of each period, and what the evaluation says beside it.
   Revocation comes before suspension, and both before the dates.
   */
  lemma EvaluatedStateIff(d: Document, now: Time, last: Time, revoked: bool)
    requires Valid(d)
    ensures var ev, g := Evaluate(d, now, last, revoked), EffectiveGraceDays(d) * DAY;
            var running := !revoked && d.status.DocActive?;
            var end := d.validUntil + if d.schemaVersion >= 3 then g else 2 * g;
            && (ev.state.Revoked? <==> revoked)
            && (ev.state.Suspended? <==> !revoked && d.status.DocSuspended?)
            && (ev.state.Active? <==> running && Started(d, now) && now <= d.validUntil)
            && (ev.state.GracePeriod? <==> running && d.validUntil < now <= d.validUntil + g)
            && (ev.state.Restricted? <==> running && d.validUntil + g < now <= end)
            && (ev.state.Expired? <==> running && (!Started(d, now) || now > end))
            && ev.doc == d && ev.graceUntil == d.validUntil + g && ev.restrictedUntil == end
            && ev.lastCloudValidation == last && !ev.clockRollback
  {
    GraceArithmeticIsExact(d);
  }

  ghost predicate ValidIff(d: Document, ok: bool) {
    Valid(d) <==> ok
  }

  /** From any valid document: which value of each single field keeps it valid. */
  lemma ValidByField(d: Document, s: string, n: int, t: Time, status: DocStatus, f: Features)
    requires Valid(d)
    ensures ValidIff(d.(licenseId := s), s != "") && ValidIff(d.(tenantId := s), s != "")
    ensures ValidIff(d.(siteId := s), s != "") && ValidIff(d.(licenseVersion := n), true)
    ensures ValidIff(d.(status := status), status.DocActive? || status.DocSuspended?)
    ensures ValidIff(d.(issuedAt := t), t < d.validUntil)
    ensures ValidIff(d.(validFrom := t), t == 0 || t <= d.validUntil)
    ensures ValidIff(d.(validUntil := t), d.issuedAt < t && (d.validFrom == 0 || d.validFrom <= t))
    ensures ValidIff(d.(offlineGraceDays := n), 0 <= n <= 365) && ValidIff(d.(gracePeriodDays := n), n <= 365)
    ensures d.schemaVersion < 4 ==>
              && ValidIff(d.(schemaVersion := n, modules := None), 1 <= n <= 3)
              && ValidIff(d.(features := f), true)
    ensures d.schemaVersion == 4 ==>
              && !Valid(d.(modules := None)) && !Valid(d.(schemaVersion := 5))
              && ValidIff(d.(features := f), f == d.features)
              && ValidIff(d.(schemaVersion := n, modules := None), 1 <= n <= 3)
  {
  }

  /** There are such documents, before schema 4 and in it. */
  lemma SomeAreValid(id: string, f: Features, m: Modules)
    requires id != ""
    ensures Valid(Document(id, id, id, DocActive, 1, 0, 2, 0, 0, 0, 1, f, None))
    ensures Valid(Document(id, id, id, DocActive, 1, 0, 2, 0, 0, 0, 4, ProjectFeatures(m), Some(m)))
  {
  }
}
