/** The operator's relation registry (controller/src/relations.rs, relation_plan.rs). */
module Relations {
  import opened Machine
  import opened Bytes
  import opened Sorting
  import opened LedgerModel

  const RELATION_REGISTRY_LIMIT: nat := 1_024

  datatype RegistryError =
    | TooManyRelations | DuplicateRelation | DuplicateDestination | ReboundCredential
    | InvalidSubjects | InvalidLimits | InvalidProjection | InvalidDestination

  datatype Scope = Scope(provider: Provider, integration: Text, repository: Text)

  datatype Limits = Limits(
    acquisitionObjects: nat, acquisitionBytes: nat, projectionRecords: nat, projectionBytes: nat)

  datatype Subject = Subject(
    role: Text, scope: Scope, target: Text, objectFormat: nat, credential: Text, source: Text, limits: Limits)
  {
    /** The provider account a credential may act for. */
    function Authority(): (Provider, Text) { (scope.provider, scope.integration) }
  }

  datatype Destination = Destination(role: Text, statusName: Text)

  datatype Relation = Relation(
    identity: Text, contextDigest: Text, projection: Text, left: Subject, right: Subject,
    aggregate: Limits, destinations: seq<Destination>)

  datatype Triggered = Triggered(plan: Relation, role: Text)

  datatype Trigger = Trigger(scope: Scope, objectFormat: nat)

  type StatusKey = (Provider, Text, Text)

  datatype Registry = Registry(
    plans: map<Text, Relation>,
    triggers: map<Trigger, seq<Triggered>>,
    credentials: map<Text, (Provider, Text)>)

  // ----- One plan -----

  predicate ByRole(a: Destination, b: Destination) { LexLeq(a.role, b.role) }

  predicate ByIdentity(a: Relation, b: Relation) { LexLeq(a.identity, b.identity) }

  lemma OrdersAreTotal()
    ensures TotalPreorder(ByRole) && TotalPreorder(ByIdentity)
  {
    hide LexLeq;
    forall a: Destination, b: Destination ensures ByRole(a, b) || ByRole(b, a) { LexTotal(a.role, b.role); }
    forall a: Destination, b: Destination, c: Destination | ByRole(a, b) && ByRole(b, c) ensures ByRole(a, c) {
      LexTransitive(a.role, b.role, c.role);
    }
    forall a: Relation, b: Relation ensures ByIdentity(a, b) || ByIdentity(b, a) { LexTotal(a.identity, b.identity); }
    forall a: Relation, b: Relation, c: Relation | ByIdentity(a, b) && ByIdentity(b, c) ensures ByIdentity(a, c) {
      LexTransitive(a.identity, b.identity, c.identity);
    }
  }

  /** A plan with its subjects and destinations in role order. */
  function Normalized(plan: Relation): Relation
  {
    OrdersAreTotal();
    var destinations := SortBy(plan.destinations, ByRole);
    if LexLeq(plan.left.role, plan.right.role) then plan.(destinations := destinations)
    else plan.(left := plan.right, right := plan.left, destinations := destinations)
  }

  predicate BudgetValid(aggregate: nat, left: nat, right: nat)
  {
    left != 0 && right != 0 && AddU64(left, right).Some? && Max(left, right) <= aggregate <= left + right
  }

  predicate LimitsValid(plan: Relation)
  {
    var all, left, right := plan.aggregate, plan.left.limits, plan.right.limits;
    && BudgetValid(all.acquisitionObjects, left.acquisitionObjects, right.acquisitionObjects)
    && BudgetValid(all.acquisitionBytes, left.acquisitionBytes, right.acquisitionBytes)
    && BudgetValid(all.projectionRecords, left.projectionRecords, right.projectionRecords)
    && BudgetValid(all.projectionBytes, left.projectionBytes, right.projectionBytes)
  }

  predicate DestinationsValid(plan: Relation)
  {
    && 1 <= |plan.destinations| <= 2
    && (|plan.destinations| == 2 ==> plan.destinations[0].role != plan.destinations[1].role)
    && forall d :: d in plan.destinations ==> d.role == plan.left.role || d.role == plan.right.role
  }

  /** `validate_relation`; `selects` is the projection checker's verdict on a source. */
  function Validate(selects: (Text, Text) -> bool, plan: Relation): Result<(), RegistryError>
  {
    if plan.left.role == plan.right.role || plan.left.scope.repository == plan.right.scope.repository then
      Err(InvalidSubjects)
    else if !LimitsValid(plan) then Err(InvalidLimits)
    else if !selects(plan.projection, plan.left.source) || !selects(plan.projection, plan.right.source) then
      Err(InvalidProjection)
    else if !DestinationsValid(plan) then Err(InvalidDestination)
    else Ok(())
  }

  /** One shared ceiling: both shares used, their sum a machine number, and neither exceeds it nor it the sum. */
  ghost predicate Shared(aggregate: nat, left: nat, right: nat)
  {
    0 < left <= aggregate && 0 < right <= aggregate && aggregate <= left + right <= U64_MAX
  }

  /** Which plans are valid, on their fields. */
  lemma ValidatesExactly(selects: (Text, Text) -> bool, plan: Relation)
    ensures Validate(selects, plan).Ok? <==>
      var (all, l, r) := (plan.aggregate, plan.left.limits, plan.right.limits);
      && plan.left.role != plan.right.role && plan.left.scope.repository != plan.right.scope.repository
      && Shared(all.acquisitionObjects, l.acquisitionObjects, r.acquisitionObjects)
      && Shared(all.acquisitionBytes, l.acquisitionBytes, r.acquisitionBytes)
      && Shared(all.projectionRecords, l.projectionRecords, r.projectionRecords)
      && Shared(all.projectionBytes, l.projectionBytes, r.projectionBytes)
      && selects(plan.projection, plan.left.source) && selects(plan.projection, plan.right.source)
      && |plan.destinations| in {1, 2}
      && (forall i :: 0 <= i < |plan.destinations| ==> plan.destinations[i].role in {plan.left.role, plan.right.role})
      && (forall i, j :: 0 <= i < j < |plan.destinations| ==> plan.destinations[i].role != plan.destinations[j].role)
  {
    hide LimitsValid;
    LimitsMean(plan);
    if forall i :: 0 <= i < |plan.destinations| ==> plan.destinations[i].role in {plan.left.role, plan.right.role} {
      forall d | d in plan.destinations ensures d.role == plan.left.role || d.role == plan.right.role {
        var i :| 0 <= i < |plan.destinations| && plan.destinations[i] == d;
      }
    }
  }

  lemma LimitsMean(plan: Relation)
    ensures LimitsValid(plan) <==>
      var (all, l, r) := (plan.aggregate, plan.left.limits, plan.right.limits);
      && Shared(all.acquisitionObjects, l.acquisitionObjects, r.acquisitionObjects)
      && Shared(all.acquisitionBytes, l.acquisitionBytes, r.acquisitionBytes)
      && Shared(all.projectionRecords, l.projectionRecords, r.projectionRecords)
      && Shared(all.projectionBytes, l.projectionBytes, r.projectionBytes)
  {
  }

  /** Normalizing only reorders: the same two subjects and destinations, in role order. */
  lemma NormalizingReorders(plan: Relation)
    ensures
      var n := Normalized(plan);
      && multiset{n.left, n.right} == multiset{plan.left, plan.right} && LexLeq(n.left.role, n.right.role)
      && multiset(n.destinations) == multiset(plan.destinations) && SortedBy(n.destinations, ByRole)
      && n == plan.(left := n.left, right := n.right, destinations := n.destinations)
  {
    hide LexLeq, ByRole;
    OrdersAreTotal();
    LexTotal(plan.left.role, plan.right.role);
  }

  /** Whose repository a destination reports to. */
  function Owner(plan: Relation, d: Destination): Subject
  {
    if plan.left.role == d.role then plan.left else plan.right
  }

  function KeyOf(plan: Relation, d: Destination): StatusKey
  {
    (Owner(plan, d).scope.provider, Owner(plan, d).scope.repository, d.statusName)
  }

  // ----- The whole registry -----

  ghost predicate StrictlyOrdered(plans: seq<Relation>)
  {
    forall i, j :: 0 <= i < j < |plans| ==>
      LexLeq(plans[i].identity, plans[j].identity) && plans[i].identity != plans[j].identity
  }

  ghost predicate SubjectOf(plans: seq<Relation>, s: Subject)
  {
    exists p :: p in plans && (s == p.left || s == p.right)
  }

  /** No credential acts for two authorities. */
  ghost predicate OneAuthorityEach(plans: seq<Relation>)
  {
    forall s, t :: SubjectOf(plans, s) && SubjectOf(plans, t) && s.credential == t.credential ==>
      s.Authority() == t.Authority()
  }

  /** No status of a repository belongs to two relations, or to one relation twice. */
  ghost predicate OneOwnerEach(plans: seq<Relation>)
  {
    forall i, j, a, b | 0 <= i < |plans| && 0 <= j < |plans|
                        && 0 <= a < |plans[i].destinations| && 0 <= b < |plans[j].destinations| ::
      KeyOf(plans[i], plans[i].destinations[a]) == KeyOf(plans[j], plans[j].destinations[b]) ==> i == j && a == b
  }

  /** Every subject's credential is bound to its authority, and to nothing else. */
  ghost predicate Binds(credentials: map<Text, (Provider, Text)>, plans: seq<Relation>)
  {
    && (forall s :: SubjectOf(plans, s) ==> s.credential in credentials && credentials[s.credential] == s.Authority())
    && (forall c :: c in credentials ==> exists s :: SubjectOf(plans, s) && s.credential == c)
  }

  // ----- Triggers: index against plain scan -----

  function TriggerOf(s: Subject): Trigger { Trigger(s.scope, s.objectFormat) }

  function Matching(plan: Relation, trigger: Trigger): seq<Triggered>
  {
    (if TriggerOf(plan.left) == trigger then [Triggered(plan, plan.left.role)] else [])
    + (if TriggerOf(plan.right) == trigger then [Triggered(plan, plan.right.role)] else [])
  }

  /** What asking every plan in turn would find. */
  function ScanFor(plans: seq<Relation>, trigger: Trigger): seq<Triggered>
  {
    if plans == [] then []
    else ScanFor(plans[..|plans| - 1], trigger) + Matching(plans[|plans| - 1], trigger)
  }

  function At(triggers: map<Trigger, seq<Triggered>>, trigger: Trigger): seq<Triggered>
  {
    if trigger in triggers then triggers[trigger] else []
  }

  function Push(triggers: map<Trigger, seq<Triggered>>, plan: Relation, s: Subject): map<Trigger, seq<Triggered>>
  {
    triggers[TriggerOf(s) := At(triggers, TriggerOf(s)) + [Triggered(plan, s.role)]]
  }

  method BuildTriggers(plans: seq<Relation>) returns (triggers: map<Trigger, seq<Triggered>>)
    ensures forall t :: At(triggers, t) == ScanFor(plans, t)
  {
    triggers := map[];
    for i := 0 to |plans|
      invariant forall t :: At(triggers, t) == ScanFor(plans[..i], t)
    {
      var plan := plans[i];
      ghost var before := triggers;
      triggers := Push(triggers, plan, plan.left);
      triggers := Push(triggers, plan, plan.right);
      forall t ensures At(triggers, t) == ScanFor(plans[..i + 1], t) {
        PushedBoth(before, plan, t);
        assert plans[..i + 1][..i] == plans[..i];
      }
    }
    assert plans[..|plans|] == plans;
  }

  lemma PushedBoth(before: map<Trigger, seq<Triggered>>, plan: Relation, t: Trigger)
    ensures At(Push(Push(before, plan, plan.left), plan, plan.right), t) == At(before, t) + Matching(plan, t)
  {
  }

  ghost predicate AscendingPlans(found: seq<Triggered>)
  {
    forall i, j :: 0 <= i < j < |found| ==>
      LexLeq(found[i].plan.identity, found[j].plan.identity) && found[i].plan.identity != found[j].plan.identity
  }

  predicate Relates(plan: Relation, role: Text, trigger: Trigger)
  {
    (TriggerOf(plan.left) == trigger && role == plan.left.role)
    || (TriggerOf(plan.right) == trigger && role == plan.right.role)
  }

  lemma MatchesOnce(plan: Relation, trigger: Trigger)
    requires plan.left.scope.repository != plan.right.scope.repository
    ensures |Matching(plan, trigger)| <= 1
  {
  }

  lemma MatchingMeans(plan: Relation, trigger: Trigger)
    ensures forall t :: t in Matching(plan, trigger) <==> t.plan == plan && Relates(plan, t.role, trigger)
  {
  }

  /** The scan finds exactly the subjects that match. */
  lemma {:induction false} ScanFinds(plans: seq<Relation>, trigger: Trigger)
    ensures forall t :: t in ScanFor(plans, trigger) <==> t.plan in plans && Relates(t.plan, t.role, trigger)
  {
    hide Relates, Matching;
    if plans != [] {
      var init, last := plans[..|plans| - 1], plans[|plans| - 1];
      assert plans == init + [last];
      ScanFinds(init, trigger);
      MatchingMeans(last, trigger);
    }
  }

  /** It lists them by identity, so no relation appears twice. */
  lemma {:induction false} ScanAscends(plans: seq<Relation>, trigger: Trigger)
    requires StrictlyOrdered(plans)
    requires forall p :: p in plans ==> p.left.scope.repository != p.right.scope.repository
    ensures AscendingPlans(ScanFor(plans, trigger))
  {
    hide LexLeq, Relates, Matching;
    if plans != [] {
      var init, last := plans[..|plans| - 1], plans[|plans| - 1];
      assert plans == init + [last];
      ScanAscends(init, trigger);
      ScanFinds(init, trigger);
      MatchesOnce(last, trigger);
      MatchingMeans(last, trigger);
      AscendingAppend(init, last, ScanFor(init, trigger), Matching(last, trigger));
    }
  }

  lemma AscendingAppend(init: seq<Relation>, last: Relation, found: seq<Triggered>, more: seq<Triggered>)
    requires StrictlyOrdered(init + [last]) && AscendingPlans(found)
    requires forall t :: t in found ==> t.plan in init
    requires |more| <= 1 && forall t :: t in more ==> t.plan == last
    ensures AscendingPlans(found + more)
  {
    hide LexLeq;
    var plans := init + [last];
    forall k | 0 <= k < |found|
      ensures LexLeq(found[k].plan.identity, last.identity) && found[k].plan.identity != last.identity
    {
      assert found[k] in found;
      var i :| 0 <= i < |init| && init[i] == found[k].plan;
      assert plans[i] == init[i] && plans[|init|] == last;
    }
  }

  // ----- Building the registry -----

  lemma SubjectsAppend(plans: seq<Relation>, plan: Relation, s: Subject)
    ensures SubjectOf(plans + [plan], s) <==> SubjectOf(plans, s) || s == plan.left || s == plan.right
  {
    assert plan in plans + [plan];
    if SubjectOf(plans, s) {
      var p :| p in plans && (s == p.left || s == p.right);
      assert p in plans + [plan];
    }
  }

  lemma BoundIsConsistent(credentials: map<Text, (Provider, Text)>, plans: seq<Relation>)
    requires Binds(credentials, plans)
    ensures OneAuthorityEach(plans)
  {
    hide SubjectOf;
  }

  /** The credentials of exactly these subjects. */
  ghost predicate BindsAll(credentials: map<Text, (Provider, Text)>, subjects: iset<Subject>)
  {
    && (forall s :: s in subjects ==> s.credential in credentials && credentials[s.credential] == s.Authority())
    && (forall c :: c in credentials ==> exists s :: s in subjects && s.credential == c)
  }

  method BindSubject(credentials: map<Text, (Provider, Text)>, subject: Subject, ghost subjects: iset<Subject>)
    returns (r: Option<map<Text, (Provider, Text)>>)
    requires BindsAll(credentials, subjects)
    ensures r.Some? ==> BindsAll(r.value, subjects + iset{subject})
    ensures r.None? ==>
      exists s :: s in subjects && s.credential == subject.credential && s.Authority() != subject.Authority()
  {
    if subject.credential in credentials && credentials[subject.credential] != subject.Authority() {
      return None;
    }
    r := Some(credentials[subject.credential := subject.Authority()]);
  }

  /** Binds both subjects of a plan, unless one credential is already someone else's. */
  method BindPlan(credentials: map<Text, (Provider, Text)>, plan: Relation, ghost plans: seq<Relation>)
    returns (r: Option<map<Text, (Provider, Text)>>)
    requires Binds(credentials, plans)
    ensures r.Some? <==> OneAuthorityEach(plans + [plan])
    ensures r.Some? ==> Binds(r.value, plans + [plan])
  {
    hide SubjectOf, OneAuthorityEach, BindsAll, Binds;
    ghost var known := iset s | SubjectOf(plans, s);
    BindsItsSubjects(credentials, plans, known);
    forall s ensures SubjectOf(plans + [plan], s) <==> s in known || s == plan.left || s == plan.right {
      SubjectsAppend(plans, plan, s);
    }
    var first := BindSubject(credentials, plan.left, known);
    if first.None? {
      ghost var other :| other in known && other.credential == plan.left.credential
                         && other.Authority() != plan.left.Authority();
      TwoAuthorities(plans + [plan], plan.left, other);
      return None;
    }
    r := BindSubject(first.value, plan.right, known + iset{plan.left});
    if r.None? {
      ghost var other :| other in known + iset{plan.left} && other.credential == plan.right.credential
                         && other.Authority() != plan.right.Authority();
      TwoAuthorities(plans + [plan], plan.right, other);
      return None;
    }
    BindsItsSubjects(r.value, plans + [plan], known + iset{plan.left} + iset{plan.right});
    BoundIsConsistent(r.value, plans + [plan]);
  }

  lemma BindsItsSubjects(credentials: map<Text, (Provider, Text)>, plans: seq<Relation>, subjects: iset<Subject>)
    requires forall s :: s in subjects <==> SubjectOf(plans, s)
    ensures BindsAll(credentials, subjects) <==> Binds(credentials, plans)
  {
    hide SubjectOf;
  }

  lemma TwoAuthorities(plans: seq<Relation>, s: Subject, t: Subject)
    requires SubjectOf(plans, s) && SubjectOf(plans, t)
    requires s.credential == t.credential && s.Authority() != t.Authority()
    ensures !OneAuthorityEach(plans)
  {
    hide SubjectOf;
  }

  ghost predicate Claimed(plans: seq<Relation>, key: StatusKey)
  {
    exists i, a :: 0 <= i < |plans| && 0 <= a < |plans[i].destinations|
      && KeyOf(plans[i], plans[i].destinations[a]) == key
  }

  ghost predicate PlanKey(plan: Relation, count: nat, key: StatusKey)
    requires count <= |plan.destinations|
  {
    exists a :: 0 <= a < count && KeyOf(plan, plan.destinations[a]) == key
  }

  ghost predicate FreshKeys(plans: seq<Relation>, plan: Relation, count: nat)
    requires count <= |plan.destinations|
  {
    && (forall a :: 0 <= a < count ==> !Claimed(plans, KeyOf(plan, plan.destinations[a])))
    && (forall a, b :: 0 <= a < b < count ==> KeyOf(plan, plan.destinations[a]) != KeyOf(plan, plan.destinations[b]))
  }

  /** Claims a plan's destinations, unless one is already owned. */
  method ClaimPlan(seen: set<StatusKey>, plan: Relation, ghost plans: seq<Relation>) returns (r: Option<set<StatusKey>>)
    requires forall key :: key in seen <==> Claimed(plans, key)
    ensures r.Some? <==> FreshKeys(plans, plan, |plan.destinations|)
    ensures r.Some? ==>
      forall key :: key in r.value <==> Claimed(plans, key) || PlanKey(plan, |plan.destinations|, key)
  {
    hide Claimed, KeyOf;
    var claimed := seen;
    for i := 0 to |plan.destinations|
      invariant FreshKeys(plans, plan, i)
      invariant forall key :: key in claimed <==> Claimed(plans, key) || PlanKey(plan, i, key)
    {
      var key := KeyOf(plan, plan.destinations[i]);
      if key in claimed { return None; }
      claimed := claimed + {key};
    }
    r := Some(claimed);
  }

  lemma ClaimedAppend(plans: seq<Relation>, plan: Relation, key: StatusKey)
    ensures Claimed(plans + [plan], key) <==> Claimed(plans, key) || PlanKey(plan, |plan.destinations|, key)
  {
    hide KeyOf;
    var all := plans + [plan];
    assert all[|plans|] == plan && forall i :: 0 <= i < |plans| ==> all[i] == plans[i];
  }

  lemma OwnersAppend(plans: seq<Relation>, plan: Relation)
    ensures OneOwnerEach(plans + [plan]) <==> OneOwnerEach(plans) && FreshKeys(plans, plan, |plan.destinations|)
  {
    hide KeyOf;
    var all := plans + [plan];
    assert all[|plans|] == plan && forall i :: 0 <= i < |plans| ==> all[i] == plans[i];
  }

  /** Both properties only get harder to meet as plans are added. */
  lemma {:induction false} PrefixOwns(plans: seq<Relation>, n: nat)
    requires n <= |plans|
    ensures OneOwnerEach(plans) ==> OneOwnerEach(plans[..n])
    ensures OneAuthorityEach(plans) ==> OneAuthorityEach(plans[..n])
  {
    hide KeyOf;
    forall s | SubjectOf(plans[..n], s) ensures SubjectOf(plans, s) {}
  }

  /** Binds every credential and claims every destination, or finds the first clash. */
  method Allocate(plans: seq<Relation>) returns (r: Result<map<Text, (Provider, Text)>, RegistryError>)
    ensures r.Ok? <==> OneAuthorityEach(plans) && OneOwnerEach(plans)
    ensures r.Ok? ==> Binds(r.value, plans)
    ensures r.Err? ==> r.error in {ReboundCredential, DuplicateDestination}
  {
    hide SubjectOf, KeyOf, OneAuthorityEach, OneOwnerEach, Binds, FreshKeys;
    var credentials: map<Text, (Provider, Text)> := map[];
    var destinations: set<StatusKey> := {};
    NothingAllocated();
    for i := 0 to |plans|
      invariant Binds(credentials, plans[..i]) && OneOwnerEach(plans[..i])
      invariant forall key :: key in destinations <==> Claimed(plans[..i], key)
    {
      assert plans[..i + 1] == plans[..i] + [plans[i]];
      PrefixOwns(plans, i + 1);
      OwnersAppend(plans[..i], plans[i]);
      var bound := BindPlan(credentials, plans[i], plans[..i]);
      if bound.None? { return Err(ReboundCredential); }
      var claimed := ClaimPlan(destinations, plans[i], plans[..i]);
      if claimed.None? { return Err(DuplicateDestination); }
      forall key ensures key in claimed.value <==> Claimed(plans[..i + 1], key) {
        ClaimedAppend(plans[..i], plans[i], key);
      }
      credentials, destinations := bound.value, claimed.value;
    }
    assert plans[..|plans|] == plans;
    BoundIsConsistent(credentials, plans);
    r := Ok(credentials);
  }

  lemma NothingAllocated()
    ensures Binds(map[], []) && OneOwnerEach([]) && forall key :: !Claimed([], key)
  {
  }

  method IdentitiesDiffer(plans: seq<Relation>) returns (ok: bool)
    requires SortedBy(plans, ByIdentity)
    ensures ok <==> StrictlyOrdered(plans)
  {
    hide LexLeq;
    for i := 0 to |plans|
      invariant forall k :: 0 < k < i ==> plans[k - 1].identity != plans[k].identity
    {
      if i > 0 && plans[i - 1].identity == plans[i].identity { return false; }
    }
    forall a, b | 0 <= a < b < |plans|
      ensures ByIdentity(plans[a], plans[b]) && plans[a].identity != plans[b].identity
    {
      assert plans[a + 1 - 1].identity != plans[a + 1].identity;
      if plans[a].identity == plans[b].identity {
        assert ByIdentity(plans[a], plans[a + 1]);
        if a + 1 < b { assert ByIdentity(plans[a + 1], plans[b]); }
        LexAntisymmetric(plans[a].identity, plans[a + 1].identity);
      }
    }
    ok := true;
  }

  method NormalizeAll(selects: (Text, Text) -> bool, plans: seq<Relation>)
    returns (r: Result<seq<Relation>, RegistryError>)
    ensures r.Ok? <==> forall p :: p in plans ==> Validate(selects, Normalized(p)).Ok?
    ensures r.Ok? ==> r.value == AllNormalized(plans)
    ensures r.Err? ==> exists i :: FirstInvalid(selects, plans, i, r.error)
  {
    hide Validate, Normalized;
    var normalized: seq<Relation> := [];
    for i := 0 to |plans|
      invariant normalized == AllNormalized(plans)[..i]
      invariant forall k :: 0 <= k < i ==> Validate(selects, Normalized(plans[k])).Ok?
    {
      var plan := Normalized(plans[i]);
      var valid := Validate(selects, plan);
      if valid.Err? {
        assert plans[i] in plans && FirstInvalid(selects, plans, i, valid.error);
        return Err(valid.error);
      }
      normalized := normalized + [plan];
    }
    r := Ok(normalized);
  }

  ghost predicate FirstInvalid(selects: (Text, Text) -> bool, plans: seq<Relation>, i: int, error: RegistryError)
  {
    && 0 <= i < |plans| && Validate(selects, Normalized(plans[i])) == Err(error)
    && forall k :: 0 <= k < i ==> Validate(selects, Normalized(plans[k])).Ok?
  }

  function AllNormalized(plans: seq<Relation>): (r: seq<Relation>)
    ensures |r| == |plans| && forall i :: 0 <= i < |r| ==> r[i] == Normalized(plans[i])
  {
    seq(|plans|, i requires 0 <= i < |plans| => Normalized(plans[i]))
  }

  /** The registered plans: normalized and in identity order. */
  function Ordered(plans: seq<Relation>): seq<Relation>
  {
    OrdersAreTotal();
    SortBy(AllNormalized(plans), ByIdentity)
  }

  ghost predicate Acceptable(selects: (Text, Text) -> bool, plans: seq<Relation>)
  {
    && |plans| <= RELATION_REGISTRY_LIMIT
    && (forall p :: p in plans ==> Validate(selects, Normalized(p)).Ok?)
    && StrictlyOrdered(Ordered(plans))
    && OneAuthorityEach(Ordered(plans))
    && OneOwnerEach(Ordered(plans))
  }

  /** The frozen registry says exactly what its plans say. */
  ghost predicate Registers(registry: Registry, plans: seq<Relation>)
  {
    && (forall p :: p in plans ==> p.identity in registry.plans && registry.plans[p.identity] == p)
    && (forall id :: id in registry.plans ==> registry.plans[id] in plans && registry.plans[id].identity == id)
    && (forall t :: At(registry.triggers, t) == ScanFor(plans, t))
    && Binds(registry.credentials, plans)
  }

  /** Accepts exactly the acceptable plans, and freezes exactly what they say. */
  method Register(selects: (Text, Text) -> bool, plans: seq<Relation>) returns (r: Result<Registry, RegistryError>)
    ensures r.Ok? <==> Acceptable(selects, plans)
    ensures r.Ok? ==> Registers(r.value, Ordered(plans))
  {
    hide Validate, Normalized, LexLeq, SubjectOf, KeyOf, OneAuthorityEach, OneOwnerEach, Binds, ScanFor, At;
    if |plans| > RELATION_REGISTRY_LIMIT { return Err(TooManyRelations); }
    var normalized := NormalizeAll(selects, plans);
    if normalized.Err? { return Err(normalized.error); }
    OrdersAreTotal();
    var ordered := SortBy(normalized.value, ByIdentity);
    var differ := IdentitiesDiffer(ordered);
    if !differ { return Err(DuplicateRelation); }
    var credentials := Allocate(ordered);
    if credentials.Err? { return Err(credentials.error); }
    var byIdentity := IndexPlans(ordered);
    var triggers := BuildTriggers(ordered);
    r := Ok(Registry(byIdentity, triggers, credentials.value));
  }

  method IndexPlans(plans: seq<Relation>) returns (byIdentity: map<Text, Relation>)
    requires StrictlyOrdered(plans)
    ensures forall p :: p in plans ==> p.identity in byIdentity && byIdentity[p.identity] == p
    ensures forall id :: id in byIdentity ==> byIdentity[id] in plans && byIdentity[id].identity == id
  {
    hide LexLeq;
    byIdentity := map[];
    for i := 0 to |plans|
      invariant forall k :: 0 <= k < i ==> plans[k].identity in byIdentity && byIdentity[plans[k].identity] == plans[k]
      invariant forall id :: id in byIdentity ==> byIdentity[id] in plans && byIdentity[id].identity == id
    {
      byIdentity := byIdentity[plans[i].identity := plans[i]];
    }
  }

  // ----- What an accepted registry promises -----

  /** `relations_for_delivery`; `candidateFormat` is the format of the candidate commit's identifier. */
  function RelationsFor(registry: Registry, delivery: AuthenticatedDelivery, candidateFormat: nat)
    : Result<seq<Triggered>, ()>
  {
    if delivery.identity.provider != delivery.change.provider then Err(())
    else if delivery.providerRun.objectFormat != candidateFormat then Err(())
    else
      Ok(At(registry.triggers,
            Trigger(Scope(delivery.identity.provider, delivery.identity.integration, delivery.change.repository),
                    delivery.providerRun.objectFormat)))
  }

  /**
   * For every accepted registry and delivery the index answers exactly what a scan
   * over all plans would: every relation with a subject in the delivery's scope and
   * object format, each once, strictly by identity.
   */
  lemma LookupIsScan(
    selects: (Text, Text) -> bool, plans: seq<Relation>, registry: Registry, delivery: AuthenticatedDelivery,
    candidateFormat: nat)
    requires Acceptable(selects, plans) && Registers(registry, Ordered(plans))
    requires RelationsFor(registry, delivery, candidateFormat).Ok?
    ensures
      var found := RelationsFor(registry, delivery, candidateFormat).value;
      && AscendingPlans(found)
      && forall t :: t in found <==>
           exists p, s :: p in plans && t.plan == Normalized(p) && Concerns(p, s, delivery) && t.role == s.role
  {
    hide LexLeq, Relates, Concerns, SubjectOf, KeyOf, OneAuthorityEach, OneOwnerEach, Binds, ScanFor, Validate,
      Normalized, Ordered;
    var ordered := Ordered(plans);
    var trigger := Trigger(
      Scope(delivery.identity.provider, delivery.identity.integration, delivery.change.repository),
      delivery.providerRun.objectFormat);
    OrderedHolds(plans);
    forall p | p in ordered ensures p.left.scope.repository != p.right.scope.repository {
      var q :| q in plans && p == Normalized(q);
      RepositoriesDiffer(selects, p);
    }
    ScanFinds(ordered, trigger);
    ScanAscends(ordered, trigger);
    forall t ensures t in ScanFor(ordered, trigger) <==>
      exists p, s :: p in plans && t.plan == Normalized(p) && Concerns(p, s, delivery) && t.role == s.role
    {
      forall p | p in plans && t.plan == Normalized(p)
        ensures Relates(t.plan, t.role, trigger) <==> exists s :: Concerns(p, s, delivery) && t.role == s.role
      {
        RelatesMeans(p, t.role, delivery);
      }
    }
  }

  /** The subject is one of the plan's two, in the repository and object format the delivery is about. */
  ghost predicate Concerns(plan: Relation, s: Subject, delivery: AuthenticatedDelivery)
  {
    && (s == plan.left || s == plan.right)
    && s.scope.provider == delivery.identity.provider && s.scope.integration == delivery.identity.integration
    && s.scope.repository == delivery.change.repository && s.objectFormat == delivery.providerRun.objectFormat
  }

  lemma RelatesMeans(plan: Relation, role: Text, delivery: AuthenticatedDelivery)
    ensures
      var trigger := Trigger(
        Scope(delivery.identity.provider, delivery.identity.integration, delivery.change.repository),
        delivery.providerRun.objectFormat);
      Relates(Normalized(plan), role, trigger) <==> exists s :: Concerns(plan, s, delivery) && role == s.role
  {
    hide LexLeq;
    NormalizingReorders(plan);
  }

  /** A lookup answers unless the delivery contradicts itself about its provider or object format. */
  lemma LookupAnswersIff(registry: Registry, delivery: AuthenticatedDelivery, candidateFormat: nat)
    ensures RelationsFor(registry, delivery, candidateFormat).Ok? <==>
      delivery.identity.provider == delivery.change.provider && delivery.providerRun.objectFormat == candidateFormat
  {
    hide At;
  }

  lemma RepositoriesDiffer(selects: (Text, Text) -> bool, plan: Relation)
    requires Validate(selects, plan).Ok?
    ensures plan.left.scope.repository != plan.right.scope.repository
  {
  }

  lemma OrderedHolds(plans: seq<Relation>)
    ensures forall p :: p in Ordered(plans) <==> exists q :: q in plans && p == Normalized(q)
  {
    hide Normalized;
    OrdersAreTotal();
    var all := AllNormalized(plans);
    assert multiset(Ordered(plans)) == multiset(all);
    forall p ensures p in Ordered(plans) <==> exists q :: q in plans && p == Normalized(q) {
      assert p in Ordered(plans) <==> p in multiset(all);
      if p in all {
        var i :| 0 <= i < |all| && all[i] == p;
        assert plans[i] in plans;
      }
      if q :| q in plans && p == Normalized(q) {
        var i :| 0 <= i < |plans| && plans[i] == q;
        assert all[i] == p;
      }
    }
  }

  /** A credential answers for one authority, and a repository's status for one relation. */
  lemma AcceptedOwnership(
    selects: (Text, Text) -> bool, plans: seq<Relation>, registry: Registry, p: Relation, q: Relation,
    s: Subject, t: Subject, d: Destination, e: Destination)
    requires Acceptable(selects, plans) && Registers(registry, Ordered(plans))
    requires p in Ordered(plans) && q in Ordered(plans)
    requires s in [p.left, p.right] && t in [q.left, q.right] && d in p.destinations && e in q.destinations
    ensures s.credential == t.credential ==> s.Authority() == t.Authority()
    ensures s.credential in registry.credentials && registry.credentials[s.credential] == s.Authority()
    ensures KeyOf(p, d) == KeyOf(q, e) ==> p == q && d == e
  {
    hide LexLeq, KeyOf, ScanFor, Validate, Normalized, Ordered, StrictlyOrdered;
    assert SubjectOf(Ordered(plans), s) && SubjectOf(Ordered(plans), t);
    var i :| 0 <= i < |Ordered(plans)| && Ordered(plans)[i] == p;
    var j :| 0 <= j < |Ordered(plans)| && Ordered(plans)[j] == q;
    var a :| 0 <= a < |p.destinations| && p.destinations[a] == d;
    var b :| 0 <= b < |q.destinations| && q.destinations[b] == e;
  }

  /** The subject whose role the destination names. */
  ghost predicate ReportsFor(plan: Relation, d: Destination, s: Subject)
  {
    d in plan.destinations && (s == plan.left || s == plan.right) && s.role == d.role
  }

  /**
   * In an accepted registry one status name of one repository of one provider belongs
   * to a single destination of a single relation.
   */
  lemma StatusHasOneOwner(
    selects: (Text, Text) -> bool, plans: seq<Relation>, registry: Registry, p: Relation, q: Relation,
    d: Destination, e: Destination, s: Subject, t: Subject)
    requires Acceptable(selects, plans) && Registers(registry, Ordered(plans))
    requires p in Ordered(plans) && q in Ordered(plans) && ReportsFor(p, d, s) && ReportsFor(q, e, t)
    requires s.scope.provider == t.scope.provider && s.scope.repository == t.scope.repository
    requires d.statusName == e.statusName
    ensures p == q && d == e
  {
    hide LexLeq, ScanFor, Validate, Normalized, Ordered, StrictlyOrdered, SubjectOf, Registers, KeyOf, Acceptable;
    RegisteredIsValid(selects, plans, p);
    RegisteredIsValid(selects, plans, q);
    OwnerIs(selects, p, d, s);
    OwnerIs(selects, q, e, t);
    AcceptedOwnership(selects, plans, registry, p, q, s, t, d, e);
  }

  lemma RegisteredIsValid(selects: (Text, Text) -> bool, plans: seq<Relation>, p: Relation)
    requires Acceptable(selects, plans) && p in Ordered(plans)
    ensures Validate(selects, p).Ok?
  {
    hide LexLeq, Validate, Normalized, Ordered, StrictlyOrdered, OneAuthorityEach, OneOwnerEach;
    OrderedHolds(plans);
  }

  lemma OwnerIs(selects: (Text, Text) -> bool, plan: Relation, d: Destination, s: Subject)
    requires Validate(selects, plan).Ok? && ReportsFor(plan, d, s)
    ensures KeyOf(plan, d) == (s.scope.provider, s.scope.repository, d.statusName)
  {
    hide LimitsValid, DestinationsValid;
  }

  // ----- Freezing a transition -----

  datatype OidPair = OidPair(base: Text, candidate: Text)

  datatype SubjectTransition = SubjectTransition(role: Text, commits: OidPair, trees: OidPair)

  predicate FormatsAre(format: Text -> nat, t: SubjectTransition, objectFormat: nat)
  {
    && format(t.commits.base) == objectFormat && format(t.commits.candidate) == objectFormat
    && format(t.trees.base) == objectFormat && format(t.trees.candidate) == objectFormat
  }

  function SubjectWith(plan: Relation, role: Text): Option<Subject>
  {
    if plan.left.role == role then Some(plan.left)
    else if plan.right.role == role then Some(plan.right)
    else None
  }

  /** `relation_transition`: the two subjects in role order, or nothing. */
  function Freeze(
    selects: (Text, Text) -> bool, format: Text -> nat, relation: Triggered, a: SubjectTransition, b: SubjectTransition)
    : Option<(SubjectTransition, SubjectTransition)>
  {
    var (first, second) := if LexLeq(a.role, b.role) then (a, b) else (b, a);
    var plan := relation.plan;
    if Validate(selects, plan).Err? || SubjectWith(plan, relation.role).None? then None
    else if first.role == second.role then None
    else if SubjectWith(plan, first.role).None? || SubjectWith(plan, second.role).None? then None
    else if !FormatsAre(format, first, SubjectWith(plan, first.role).value.objectFormat)
            || !FormatsAre(format, second, SubjectWith(plan, second.role).value.objectFormat) then None
    else Some((first, second))
  }

  /** A transition is frozen exactly when each subject has its snapshot, in its own object format. */
  lemma FreezesExactly(
    selects: (Text, Text) -> bool, format: Text -> nat, relation: Triggered, a: SubjectTransition, b: SubjectTransition)
    ensures Freeze(selects, format, relation, a, b).Some? <==>
      var (plan, l, r) := (relation.plan, relation.plan.left, relation.plan.right);
      && Validate(selects, plan).Ok? && relation.role in {l.role, r.role}
      && (|| (a.role == l.role && b.role == r.role && Formatted(format, a, l) && Formatted(format, b, r))
          || (a.role == r.role && b.role == l.role && Formatted(format, a, r) && Formatted(format, b, l)))
  {
    hide LexLeq, LimitsValid, DestinationsValid;
  }

  /** All four objects of a snapshot are in the subject's format. */
  ghost predicate Formatted(format: Text -> nat, t: SubjectTransition, s: Subject)
  {
    forall oid :: oid in {t.commits.base, t.commits.candidate, t.trees.base, t.trees.candidate} ==>
      format(oid) == s.objectFormat
  }

  /** For a normalized plan each frozen snapshot stands beside its own subject, in that subject's format. */
  lemma FrozenSubjectsAlign(
    selects: (Text, Text) -> bool, format: Text -> nat, relation: Triggered, a: SubjectTransition, b: SubjectTransition)
    requires LexLeq(relation.plan.left.role, relation.plan.right.role)
    requires Freeze(selects, format, relation, a, b).Some?
    ensures
      var (first, second) := Freeze(selects, format, relation, a, b).value;
      && {first, second} == {a, b}
      && first.role == relation.plan.left.role && second.role == relation.plan.right.role
      && FormatsAre(format, first, relation.plan.left.objectFormat)
      && FormatsAre(format, second, relation.plan.right.objectFormat)
      && (relation.role == first.role || relation.role == second.role)
  {
    hide LexLeq, FormatsAre, LimitsValid, DestinationsValid;
    LexTotal(a.role, b.role);
    if LexLeq(relation.plan.right.role, relation.plan.left.role) {
      LexAntisymmetric(relation.plan.left.role, relation.plan.right.role);
      assert false;
    }
  }
}
