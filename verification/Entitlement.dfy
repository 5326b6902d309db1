/** Feature decisions of entitlement/entitlement.go. An instant is a whole number of nanoseconds since
    the zero time.Time, so 0 is the instant that IsZero. */
module Entitlement {
  import opened Utf8

  newtype uint64 = x: int | 0 <= x < 0x1_0000_0000_0000_0000

  const MAX_GRANTS := 128
  const MAX_FEATURE_BYTES := 128

  datatype Error = InvalidRequirement | InvalidGrant | InvalidTime

  datatype Result<+T> = Ok(value: T) | Err(error: Error)

  datatype Requirement = Requirement(feature: ByteString, quantity: uint64)

  datatype Grant = Grant(feature: ByteString, quantity: uint64, startsAt: int, endsAt: int, revokedAt: int)

  datatype Reason = Granted | NoGrant | NotStarted | Expired | Revoked | InsufficientQuantity

  datatype Decision = Decision(allowed: bool, reason: Reason, granted: uint64)

  // ---- valid input ----

  predicate IsFeatureChar(c: char) {
    'a' <= c <= 'z' || 'A' <= c <= 'Z' || '0' <= c <= '9' || c == '.' || c == '_' || c == '-'
  }

  predicate ValidFeature(value: ByteString) {
    1 <= |value| <= MAX_FEATURE_BYTES && forall i :: 0 <= i < |value| ==> IsFeatureChar(value[i])
  }

  predicate ValidRequirement(r: Requirement) {
    ValidFeature(r.feature) && r.quantity != 0
  }

  predicate ValidGrant(g: Grant) {
    && ValidFeature(g.feature) && g.quantity != 0
    && (g.startsAt != 0 && g.endsAt != 0 ==> g.startsAt < g.endsAt)
  }

  /** validFeature looks only at the bytes where a rune starts. */
  method CheckFeature(value: ByteString) returns (valid: bool)
    ensures valid <==> ValidFeature(value)
  {
    if |value| == 0 || |value| > MAX_FEATURE_BYTES {
      return false;
    }
    var i := 0;
    while i < |value|
      invariant i <= |value|
      invariant forall j :: 0 <= j < i ==> IsFeatureChar(value[j])
    {
      var c := value[i];
      if (c < 'a' || c > 'z') && (c < 'A' || c > 'Z') && (c < '0' || c > '9') && c != '.' && c != '_' && c != '-' {
        return false;
      }
      i := i + Width(value, i);
    }
    return true;
  }

  method CheckGrant(g: Grant) returns (valid: bool)
    ensures valid <==> ValidGrant(g)
  {
    var feature := CheckFeature(g.feature);
    if !feature || g.quantity == 0 {
      return false;
    }
    return !(g.startsAt != 0 && g.endsAt != 0 && !(g.endsAt > g.startsAt));
  }

  // ---- the specification ----

  predicate IsRevoked(g: Grant, now: int) {
    g.revokedAt != 0 && g.revokedAt <= now
  }

  predicate IsPending(g: Grant, now: int) {
    g.startsAt != 0 && now < g.startsAt
  }

  predicate IsOver(g: Grant, now: int) {
    g.endsAt != 0 && g.endsAt <= now
  }

  /** What a grant contributes at an instant: revocation hides everything, and a grant that has not
      started is not looked at further. */
  datatype Status = ActiveGrant | RevokedGrant | PendingGrant | ExpiredGrant

  function StatusOf(g: Grant, now: int): Status {
    if IsRevoked(g, now) then RevokedGrant
    else if IsPending(g, now) then PendingGrant
    else if IsOver(g, now) then ExpiredGrant
    else ActiveGrant
  }

  predicate Counts(now: int, feature: ByteString, g: Grant) {
    g.feature == feature && StatusOf(g, now) == ActiveGrant
  }

  /** The unbounded sum of the active matching grants. */
  function Total(now: int, feature: ByteString, grants: seq<Grant>): nat {
    if grants == [] then 0
    else (if Counts(now, feature, grants[0]) then grants[0].quantity as nat else 0) + Total(now, feature, grants[1..])
  }

  predicate Has(now: int, feature: ByteString, grants: seq<Grant>, status: Status) {
    exists g | g in grants :: g.feature == feature && StatusOf(g, now) == status
  }

  predicate AllValid(grants: seq<Grant>) {
    forall g | g in grants :: ValidGrant(g)
  }

  function ReasonFor(now: int, r: Requirement, grants: seq<Grant>): Reason {
    if Total(now, r.feature, grants) >= r.quantity as nat then Granted
    else if Has(now, r.feature, grants, ActiveGrant) then InsufficientQuantity
    else if Has(now, r.feature, grants, RevokedGrant) then Revoked
    else if Has(now, r.feature, grants, PendingGrant) then NotStarted
    else if Has(now, r.feature, grants, ExpiredGrant) then Expired
    else NoGrant
  }

  function Decided(now: int, r: Requirement, grants: seq<Grant>): Result<Decision> {
    if now == 0 then Err(InvalidTime)
    else if !ValidRequirement(r) then Err(InvalidRequirement)
    else if |grants| > MAX_GRANTS || !AllValid(grants) then Err(InvalidGrant)
    else
      var total := Total(now, r.feature, grants);
      var reason := ReasonFor(now, r, grants);
      Ok(Decision(reason == Granted, reason, if total >= r.quantity as nat then r.quantity else total as uint64))
  }

  // ---- the loop ----

  lemma {:induction false} TotalAppend(now: int, feature: ByteString, a: seq<Grant>, b: seq<Grant>)
    ensures Total(now, feature, a + b) == Total(now, feature, a) + Total(now, feature, b)
  {
    hide Counts;
    if a == [] {
      assert a + b == b;
    } else {
      TotalAppend(now, feature, a[1..], b);
      assert (a + b)[1..] == a[1..] + b;
    }
  }

  lemma TotalOfNone(now: int, feature: ByteString)
    ensures Total(now, feature, []) == 0
  {
  }

  lemma TotalOne(now: int, feature: ByteString, g: Grant)
    ensures Total(now, feature, [g]) == if Counts(now, feature, g) then g.quantity as nat else 0
  {
    hide Counts;
    assert [g][1..] == [];
  }

  /** Adding a grant at the end. */
  lemma OneMore(now: int, feature: ByteString, grants: seq<Grant>, g: Grant)
    ensures Total(now, feature, grants + [g])
            == Total(now, feature, grants) + if Counts(now, feature, g) then g.quantity as nat else 0
    ensures forall status ::
              Has(now, feature, grants + [g], status) <==>
              Has(now, feature, grants, status) || (g.feature == feature && StatusOf(g, now) == status)
  {
    hide StatusOf, Counts;
    TotalAppend(now, feature, grants, [g]);
    TotalOne(now, feature, g);
    assert g in grants + [g];
  }

  /** The saturating uint64 loop decides as the unbounded specification does. Every grant that matches
      sets one of the flags, so the fallback at the end is never reached. */
  method Decide(now: int, r: Requirement, grants: seq<Grant>) returns (d: Result<Decision>)
    ensures d == Decided(now, r, grants)
  {
    hide Total, ValidGrant, ValidFeature;
    if now == 0 {
      return Err(InvalidTime);
    }
    var feature := CheckFeature(r.feature);
    if !feature || r.quantity == 0 {
      return Err(InvalidRequirement);
    }
    if |grants| > MAX_GRANTS {
      return Err(InvalidGrant);
    }
    TotalOfNone(now, r.feature);
    var granted: uint64 := 0;
    var matched, notStarted, expired, revoked, active := false, false, false, false, false;
    for i := 0 to |grants|
      invariant AllValid(grants[..i])
      invariant granted <= r.quantity
      invariant granted as nat == Min(r.quantity as nat, Total(now, r.feature, grants[..i]))
      invariant matched <==> active || revoked || notStarted || expired
      invariant active <==> Has(now, r.feature, grants[..i], ActiveGrant)
      invariant revoked <==> Has(now, r.feature, grants[..i], RevokedGrant)
      invariant notStarted <==> Has(now, r.feature, grants[..i], PendingGrant)
      invariant expired <==> Has(now, r.feature, grants[..i], ExpiredGrant)
    {
      var grant := grants[i];
      assert grants[..i + 1] == grants[..i] + [grant];
      OneMore(now, r.feature, grants[..i], grant);
      var valid := CheckGrant(grant);
      if !valid {
        assert grant in grants;
        return Err(InvalidGrant);
      }
      if grant.feature != r.feature {
        continue;
      }
      matched := true;
      if grant.revokedAt != 0 && !(grant.revokedAt > now) {
        revoked := true;
        continue;
      }
      if grant.startsAt != 0 && grant.startsAt > now {
        notStarted := true;
        continue;
      }
      if grant.endsAt != 0 && !(grant.endsAt > now) {
        expired := true;
        continue;
      }
      active := true;
      var remaining := r.quantity - granted;
      if grant.quantity >= remaining {
        granted := r.quantity;
      } else {
        granted := granted + grant.quantity;
      }
    }
    assert grants[..|grants|] == grants;
    if granted == r.quantity {
      return Ok(Decision(true, Granted, granted));
    }
    if active {
      return Ok(Decision(false, InsufficientQuantity, granted));
    }
    NoActiveNoTotal(now, r.feature, grants);
    if !matched {
      return Ok(Decision(false, NoGrant, 0));
    }
    if revoked {
      return Ok(Decision(false, Revoked, 0));
    }
    if notStarted {
      return Ok(Decision(false, NotStarted, 0));
    }
    if !expired {
      assert false;
    }
    return Ok(Decision(false, Expired, 0));
  }

  function Min(a: nat, b: nat): nat {
    if a <= b then a else b
  }

  lemma {:induction false} NoActiveNoTotal(now: int, feature: ByteString, grants: seq<Grant>)
    ensures Has(now, feature, grants, ActiveGrant) || Total(now, feature, grants) == 0
  {
    hide StatusOf;
    if grants != [] && !Has(now, feature, grants, ActiveGrant) {
      assert grants[0] in grants;
      assert forall g | g in grants[1..] :: g in grants;
      NoActiveNoTotal(now, feature, grants[1..]);
    }
  }

  // ---- what a decision depends on ----

  /** The result in plain terms: the capped unbounded sum, and allowed exactly when the sum is enough.
      A grant matched exactly when the reason is not NoGrant. */
  lemma DecisionMeans(now: int, r: Requirement, grants: seq<Grant>)
    requires Decided(now, r, grants).Ok?
    ensures var d, total := Decided(now, r, grants).value, Total(now, r.feature, grants);
            && d.granted as nat == Min(r.quantity as nat, total)
            && (d.allowed <==> total >= r.quantity as nat)
            && (d.allowed <==> d.reason == Granted)
            && (d.reason == NoGrant <==> forall g | g in grants :: g.feature != r.feature)
            && (d.granted > 0 <==> d.reason == Granted || d.reason == InsufficientQuantity)
  {
    hide Total, IsRevoked, IsPending, IsOver;
    NoActiveNoTotal(now, r.feature, grants);
    if Has(now, r.feature, grants, ActiveGrant) {
      ActiveCounts(now, r.feature, grants);
    }
    assert forall g | g in grants && g.feature == r.feature :: Has(now, r.feature, grants, StatusOf(g, now));
  }

  lemma {:induction false} ActiveCounts(now: int, feature: ByteString, grants: seq<Grant>)
    requires AllValid(grants) && Has(now, feature, grants, ActiveGrant)
    ensures Total(now, feature, grants) > 0
  {
    hide StatusOf, ValidFeature;
    var g :| g in grants && g.feature == feature && StatusOf(g, now) == ActiveGrant;
    if grants[0] == g {
      assert ValidGrant(g);
    } else {
      assert g in grants[1..];
      ActiveCounts(now, feature, grants[1..]);
    }
  }

  lemma WithoutOne(a: seq<Grant>, left: seq<Grant>, g: Grant, right: seq<Grant>)
    requires a != [] && a[0] == g && multiset(a) == multiset(left + [g] + right)
    ensures multiset(a[1..]) == multiset(left + right)
  {
    assert a == [g] + a[1..];
    assert multiset(left + [g] + right) == multiset(left + right) + multiset{g};
    assert multiset(a) - multiset{g} == multiset(a[1..]);
  }

  lemma TotalWithout(now: int, feature: ByteString, left: seq<Grant>, g: Grant, right: seq<Grant>)
    ensures Total(now, feature, left + [g] + right)
            == (if Counts(now, feature, g) then g.quantity as nat else 0) + Total(now, feature, left + right)
  {
    hide Counts, Total;
    TotalAppend(now, feature, left, right);
    TotalAppend(now, feature, left + [g], right);
    TotalAppend(now, feature, left, [g]);
    TotalOne(now, feature, g);
  }

  lemma {:induction false} TotalOfPermutation(now: int, feature: ByteString, a: seq<Grant>, b: seq<Grant>)
    requires multiset(a) == multiset(b)
    ensures Total(now, feature, a) == Total(now, feature, b)
  {
    hide Counts;
    if a == [] {
      assert |multiset(b)| == 0;
    } else {
      var g := a[0];
      assert g in multiset(b);
      var k :| 0 <= k < |b| && b[k] == g;
      var left, right := b[..k], b[k + 1..];
      assert b == left + [g] + right;
      WithoutOne(a, left, g, right);
      TotalOfPermutation(now, feature, a[1..], left + right);
      TotalWithout(now, feature, left, g, right);
    }
  }

  /** The order of the grants changes nothing, not even which error is reported. */
  lemma OrderIsIrrelevant(now: int, r: Requirement, a: seq<Grant>, b: seq<Grant>)
    requires multiset(a) == multiset(b)
    ensures Decided(now, r, a) == Decided(now, r, b)
  {
    hide Total, StatusOf, ValidGrant, ValidFeature;
    TotalOfPermutation(now, r.feature, a, b);
    assert |a| == |multiset(a)| == |multiset(b)| == |b|;
    assert forall g :: g in a <==> g in multiset(a);
    assert forall g :: g in b <==> g in multiset(b);
  }

  /** One more valid grant, anywhere in the list, never lowers what is granted. */
  lemma MoreGrantsNeverHurt(now: int, r: Requirement, before: seq<Grant>, g: Grant, after: seq<Grant>)
    requires Decided(now, r, before + after).Ok?
    requires ValidGrant(g) && |before| + |after| < MAX_GRANTS
    ensures var less, more := Decided(now, r, before + after), Decided(now, r, before + [g] + after);
            && more.Ok?
            && less.value.granted <= more.value.granted
            && (less.value.allowed ==> more.value.allowed)
  {
    hide Total, ValidGrant, ValidFeature, StatusOf;
    assert multiset(before + [g] + after) == multiset(before + after + [g]);
    OrderIsIrrelevant(now, r, before + [g] + after, before + after + [g]);
    OneMore(now, r.feature, before + after, g);
  }

  // ---- which grants count, by their fields ----

  lemma TotalWithin(now: int, r: Requirement, a: seq<Grant>, g: Grant, b: seq<Grant>)
    requires Decided(now, r, a + [g] + b).Ok?
    ensures Decided(now, r, a + b).Ok? && ValidGrant(g)
    ensures Total(now, r.feature, a + [g] + b)
            == (if Counts(now, r.feature, g) then g.quantity as nat else 0) + Total(now, r.feature, a + b)
  {
    hide Total, Counts, ValidGrant, ValidFeature, ReasonFor;
    assert g in a + [g] + b;
    assert forall h | h in a + b :: h in a + [g] + b;
    TotalWithout(now, r.feature, a, g, b);
  }

  /** A revoked grant, one that has not started and one that has ended add nothing, wherever they are. */
  lemma InactiveAddsNothing(now: int, r: Requirement, a: seq<Grant>, g: Grant, b: seq<Grant>)
    requires Decided(now, r, a + [g] + b).Ok? && g.feature == r.feature
    requires || (g.revokedAt != 0 && g.revokedAt <= now)
             || (g.startsAt != 0 && g.startsAt > now)
             || (g.endsAt != 0 && g.endsAt <= now)
    ensures var more, less := Decided(now, r, a + [g] + b), Decided(now, r, a + b);
            less.Ok? && more.value.granted == less.value.granted && more.value.allowed == less.value.allowed
  {
    hide Total, ValidGrant, ValidFeature;
    TotalWithin(now, r, a, g, b);
  }

  /** Any other grant for the feature adds its quantity, up to what is required. */
  lemma ActiveAdds(now: int, r: Requirement, a: seq<Grant>, g: Grant, b: seq<Grant>)
    requires Decided(now, r, a + [g] + b).Ok? && g.feature == r.feature
    requires g.revokedAt != 0 ==> g.revokedAt > now
    requires g.startsAt != 0 ==> g.startsAt <= now
    requires g.endsAt != 0 ==> g.endsAt > now
    ensures var more, less := Decided(now, r, a + [g] + b), Decided(now, r, a + b);
            && less.Ok?
            && more.value.granted as nat == Min(r.quantity as nat, less.value.granted as nat + g.quantity as nat)
            && (more.value.allowed <==> more.value.granted == r.quantity)
  {
    hide Total, ValidGrant, ValidFeature;
    TotalWithin(now, r, a, g, b);
  }

  /** A grant for another feature changes nothing at all. */
  lemma OtherFeatureIsIgnored(now: int, r: Requirement, a: seq<Grant>, g: Grant, b: seq<Grant>)
    requires Decided(now, r, a + [g] + b).Ok? && g.feature != r.feature
    ensures Decided(now, r, a + [g] + b) == Decided(now, r, a + b)
  {
    hide Total, ValidGrant, ValidFeature, StatusOf;
    TotalWithin(now, r, a, g, b);
    forall status
      ensures Has(now, r.feature, a + [g] + b, status) <==> Has(now, r.feature, a + b, status)
    {
      assert forall h :: h in a + [g] + b <==> h in a + b || h == g;
    }
  }

  /** Without grants nothing is granted, and one active grant alone gives what it has. */
  lemma SoleGrant(now: int, r: Requirement, g: Grant)
    requires now != 0 && ValidRequirement(r)
    ensures Decided(now, r, []) == Ok(Decision(false, NoGrant, 0))
    ensures ValidGrant(g) && g.feature == r.feature
            && (g.revokedAt != 0 ==> g.revokedAt > now) && (g.startsAt != 0 ==> g.startsAt <= now)
            && (g.endsAt != 0 ==> g.endsAt > now) ==>
              var d := Decided(now, r, [g]);
              d.Ok? && d.value.granted == if g.quantity <= r.quantity then g.quantity else r.quantity
  {
    hide ValidGrant, ValidFeature;
    TotalOne(now, r.feature, g);
  }

  /** The reason, by the fields of the grants for the feature: nothing active is explained by a
      revocation first, then by a start to come, then by an end. */
  lemma ReasonByFields(now: int, r: Requirement, grants: seq<Grant>)
    requires Decided(now, r, grants).Ok? && exists g | g in grants :: g.feature == r.feature
    ensures var d := Decided(now, r, grants).value;
            if exists g | g in grants ::
                 && g.feature == r.feature && (g.revokedAt != 0 ==> g.revokedAt > now)
                 && (g.startsAt != 0 ==> g.startsAt <= now) && (g.endsAt != 0 ==> g.endsAt > now)
            then d.reason == (if d.allowed then Granted else InsufficientQuantity)
            else if exists g | g in grants :: g.feature == r.feature && g.revokedAt != 0 && g.revokedAt <= now
            then d.reason == Revoked
            else if exists g | g in grants :: g.feature == r.feature && g.startsAt != 0 && g.startsAt > now
            then d.reason == NotStarted
            else d.reason == Expired
  {
    hide Total, ValidGrant, ValidFeature;
    NoActiveNoTotal(now, r.feature, grants);
  }

  /** No boundary of the grant lies after `t1` and not after `t2`. */
  predicate Quiet(g: Grant, t1: int, t2: int) {
    && (g.startsAt != 0 ==> !(t1 < g.startsAt <= t2))
    && (g.endsAt != 0 ==> !(t1 < g.endsAt <= t2))
    && (g.revokedAt != 0 ==> !(t1 < g.revokedAt <= t2))
  }

  lemma {:induction false} TotalBetween(t1: int, t2: int, feature: ByteString, grants: seq<Grant>)
    requires t1 <= t2
    requires forall g | g in grants && g.feature == feature :: Quiet(g, t1, t2)
    ensures Total(t1, feature, grants) == Total(t2, feature, grants)
  {
    if grants != [] {
      assert grants[0] in grants;
      TotalBetween(t1, t2, feature, grants[1..]);
    }
  }

  /** Decisions change only at a start, an end or a revocation of a matching grant. */
  lemma ConstantBetween(t1: int, t2: int, r: Requirement, grants: seq<Grant>)
    requires t1 <= t2 && t1 != 0 && t2 != 0
    requires forall g | g in grants && g.feature == r.feature :: Quiet(g, t1, t2)
    ensures Decided(t1, r, grants) == Decided(t2, r, grants)
  {
    hide Total, ValidFeature;
    TotalBetween(t1, t2, r.feature, grants);
    assert forall g | g in grants && g.feature == r.feature :: StatusOf(g, t1) == StatusOf(g, t2);
  }
}
