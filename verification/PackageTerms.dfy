/** Package arithmetic of the shop's front end, `miniapp/src/lib/plans.ts`: a
    monthly volume, the allowance it adds up to over a term, and the smallest
    volume a customer may type. */
module PackageTerms {
  import opened Options
  import StableSort

  datatype Plan = Plan(planId: string, planType: string, quotaGib: Option<int>, durationDays: int)

  /** The term's allowance for a monthly volume. */
  function TotalGib(monthlyGib: int, days: int): int {
    monthlyGib * days / 30
  }

  /** `Math.ceil(a / b)` */
  function CeilingDivide(a: int, b: int): int
    requires b > 0
  {
    (a + b - 1) / b
  }

  /** Rounding the allowance down and the threshold up are two sides of one
      thing: a volume reaches an allowance exactly when it reaches the
      threshold. */
  lemma ReachesIff(monthlyGib: int, days: int, quota: int)
    requires days > 0
    ensures TotalGib(monthlyGib, days) >= quota <==> monthlyGib >= CeilingDivide(quota * 30, days)
  {
    var need := quota * 30;
    var c := CeilingDivide(need, days);
    CeilingBounds(need, days);
    assert TotalGib(monthlyGib, days) >= quota <==> monthlyGib * days >= need;
    if monthlyGib >= c {
      assert monthlyGib * days >= c * days;
    } else {
      assert monthlyGib * days <= (c - 1) * days;
    }
  }

  lemma CeilingBounds(a: int, b: int)
    requires b > 0
    ensures var c := CeilingDivide(a, b); (c - 1) * b < a <= c * b
  {
  }

  // ---------- the smallest volume ----------

  predicate IsVolumePlan(plan: Plan) {
    plan.planType == "traffic" && plan.quotaGib.Some? && plan.quotaGib.value > 0
  }

  /** The packages sold by volume, of every product in turn. */
  function VolumePlans(products: seq<seq<Plan>>): (plans: seq<Plan>)
    ensures forall plan <- plans :: IsVolumePlan(plan)
  {
    OnlyVolume(Flattened(products));
    StableSort.Only(Flattened(products), IsVolumePlan)
  }

  /** `flatMap` of every product's plans. */
  function Flattened(products: seq<seq<Plan>>): seq<Plan> {
    if products == [] then [] else products[0] + Flattened(products[1..])
  }

  lemma {:induction false} InFlattened(products: seq<seq<Plan>>, plan: Plan)
    ensures plan in Flattened(products) <==> exists i :: 0 <= i < |products| && plan in products[i]
  {
    if products != [] {
      InFlattened(products[1..], plan);
      assert forall i :: 0 < i < |products| ==> products[i] == products[1..][i - 1];
      if i :| 0 <= i < |products| - 1 && plan in products[1..][i] {
        assert plan in products[i + 1];
      }
    }
  }

  /** What is sold by volume is what some product lists as traffic with a quota
      above nothing. */
  lemma SoldByVolumeIff(products: seq<seq<Plan>>, plan: Plan)
    ensures plan in VolumePlans(products) <==>
            && (exists i :: 0 <= i < |products| && plan in products[i])
            && plan.planType == "traffic" && plan.quotaGib.Some? && plan.quotaGib.value >= 1
  {
    InFlattened(products, plan);
    StableSort.InOnly(Flattened(products), IsVolumePlan, plan);
  }

  /** Rising places of a list, and what is there. */
  predicate ArePlacesOf(places: seq<int>, plans: seq<Plan>, sold: seq<Plan>) {
    && |places| == |sold|
    && (forall k :: 0 <= k < |places| ==> 0 <= places[k] < |plans| && plans[places[k]] == sold[k])
    && forall a, b :: 0 <= a < b < |places| ==> places[a] < places[b]
  }

  function OneOn(places: seq<int>): (r: seq<int>)
    ensures |r| == |places| && forall k :: 0 <= k < |r| ==> r[k] == places[k] + 1
  {
    seq(|places|, k requires 0 <= k < |places| => places[k] + 1)
  }

  lemma PlacesOneOn(places: seq<int>, plan: Plan, plans: seq<Plan>, sold: seq<Plan>)
    requires ArePlacesOf(places, plans, sold)
    ensures ArePlacesOf(OneOn(places), [plan] + plans, sold)
    ensures ArePlacesOf([0] + OneOn(places), [plan] + plans, [plan] + sold)
    ensures forall i :: i + 1 in OneOn(places) <==> i in places
  {
    hide OneOn;
    forall i ensures i + 1 in OneOn(places) <==> i in places {
      if i in places {
        var k :| 0 <= k < |places| && places[k] == i;
        assert OneOn(places)[k] == i + 1;
      }
    }
  }

  /** And it stays in the order it is listed in, each plan as often as it is
      listed. */
  lemma {:induction false} SoldInListedOrder(plans: seq<Plan>) returns (places: seq<int>)
    ensures ArePlacesOf(places, plans, StableSort.Only(plans, IsVolumePlan))
    ensures forall i :: 0 <= i < |plans| && IsVolumePlan(plans[i]) ==> i in places
  {
    if plans == [] {
      places := [];
    } else {
      var rest := SoldInListedOrder(plans[1..]);
      PlacesOneOn(rest, plans[0], plans[1..], StableSort.Only(plans[1..], IsVolumePlan));
      assert plans == [plans[0]] + plans[1..];
      places := if IsVolumePlan(plans[0]) then [0] + OneOn(rest) else OneOn(rest);
      hide OneOn, ArePlacesOf, IsVolumePlan;
      forall i | 0 <= i < |plans| && IsVolumePlan(plans[i]) ensures i in places {
        if i > 0 {
          assert plans[1..][i - 1] == plans[i] && i - 1 + 1 in OneOn(rest);
        }
      }
    }
  }

  lemma OnlyVolume(plans: seq<Plan>)
    ensures forall plan <- StableSort.Only(plans, IsVolumePlan) :: IsVolumePlan(plan) && plan in plans
  {
    forall plan | plan in StableSort.Only(plans, IsVolumePlan) ensures IsVolumePlan(plan) && plan in plans {
      StableSort.InOnly(plans, IsVolumePlan, plan);
    }
  }

  /** The volume adds up to the package over the package's own term. */
  predicate Reaches(monthlyGib: int, plan: Plan)
    requires IsVolumePlan(plan)
  {
    TotalGib(monthlyGib, plan.durationDays) >= plan.quotaGib.value
  }

  function Threshold(plan: Plan): int
    requires IsVolumePlan(plan) && plan.durationDays > 0
  {
    CeilingDivide(plan.quotaGib.value * 30, plan.durationDays)
  }

  /** Whether the plan has a say: the monthly term decides where there is one. */
  predicate Decides(plans: seq<Plan>, plan: Plan) {
    plan in plans && ((exists p <- plans :: p.durationDays == 30) ==> plan.durationDays == 30)
  }

  /** The least volume that reaches any of the deciding packages. */
  ghost predicate IsLeastVolume(plans: seq<Plan>, m: int)
    requires forall plan <- plans :: IsVolumePlan(plan)
  {
    && (exists plan <- plans :: Decides(plans, plan) && Reaches(m, plan))
    && forall n: int, plan: Plan :: n < m && plan in plans && Decides(plans, plan) ==> !Reaches(n, plan)
  }

  /** What the map holds after a list of plans: of each term the least
      threshold. */
  ghost predicate HoldsFloors(floors: map<int, int>, plans: seq<Plan>)
    requires forall plan <- plans :: IsVolumePlan(plan) && plan.durationDays > 0
  {
    && (forall plan <- plans :: plan.durationDays in floors && floors[plan.durationDays] <= Threshold(plan))
    && (forall days <- floors :: exists plan <- plans :: plan.durationDays == days && floors[days] == Threshold(plan))
  }

  lemma FloorsStep(before: map<int, int>, plans: seq<Plan>, plan: Plan, after: map<int, int>)
    requires forall p <- plans + [plan] :: IsVolumePlan(p) && p.durationDays > 0
    requires HoldsFloors(before, plans) && plan in plans + [plan]
    requires var days := plan.durationDays;
             var known := if days in before then before[days] else Threshold(plan);
             after == before[days := if known < Threshold(plan) then known else Threshold(plan)]
    ensures HoldsFloors(after, plans + [plan])
  {
  }

  lemma LeastIsLeast(plans: seq<Plan>, floors: map<int, int>, days: int)
    requires forall plan <- plans :: IsVolumePlan(plan) && plan.durationDays > 0
    requires HoldsFloors(floors, plans) && days in floors
    requires days == 30 || (30 !in floors && forall k <- floors :: floors[days] <= floors[k])
    ensures IsLeastVolume(plans, floors[days])
  {
    var m := floors[days];
    var best :| best in plans && best.durationDays == days && m == Threshold(best);
    ReachesIff(m, best.durationDays, best.quotaGib.value);
    assert Decides(plans, best) && Reaches(m, best);
    forall n: int, plan: Plan | n < m && plan in plans && Decides(plans, plan) ensures !Reaches(n, plan) {
      assert floors[plan.durationDays] <= Threshold(plan);
      ReachesIff(n, plan.durationDays, plan.quotaGib.value);
      if days == 30 {
        assert best.durationDays == 30;
      }
    }
  }

  /** `Math.min` over the values of a Map with these keys. */
  method LeastValue(floors: map<int, int>, terms: seq<int>) returns (days: int)
    requires terms != [] && (forall j :: 0 <= j < |terms| ==> terms[j] in floors)
    requires forall k <- floors :: k in terms
    ensures days in floors && forall k <- floors :: floors[days] <= floors[k]
  {
    days := terms[0];
    for i := 1 to |terms|
      invariant days in floors
      invariant forall j :: 0 <= j < i ==> floors[days] <= floors[terms[j]]
    {
      if floors[terms[i]] < floors[days] {
        days := terms[i];
      }
    }
  }

  /** The smallest monthly volume that may be typed: the least that adds up to
      one of the packages of the monthly term, or of any term where there is no
      monthly one; nothing where nothing is sold by volume. */
  method CustomFloor(products: seq<seq<Plan>>) returns (floor: Option<int>)
    requires forall plan <- VolumePlans(products) :: plan.durationDays > 0
    ensures floor.None? <==> VolumePlans(products) == []
    ensures floor.Some? ==> floor.value > 0
    ensures floor.Some? ==> IsLeastVolume(VolumePlans(products), floor.value)
  {
    var plans := VolumePlans(products);
    hide VolumePlans;
    var floors: map<int, int>, terms := map[], [];
    for i := 0 to |plans|
      invariant terms == [] <==> i == 0
      invariant forall j :: 0 <= j < |terms| ==> terms[j] in floors
      invariant forall k <- floors :: k in terms
      invariant HoldsFloors(floors, plans[..i])
    {
      var plan := plans[i];
      assert IsVolumePlan(plan);
      var monthly := CeilingDivide(plan.quotaGib.value * 30, plan.durationDays);
      var known := if plan.durationDays in floors then floors[plan.durationDays] else monthly;
      ghost var before := floors;
      if plan.durationDays !in floors {
        terms := terms + [plan.durationDays];
      }
      floors := floors[plan.durationDays := if known < monthly then known else monthly];
      assert plans[..i + 1] == plans[..i] + [plan] && plan.durationDays in floors;
      FloorsStep(before, plans[..i], plan, floors);
    }
    assert plans[..|plans|] == plans;
    if terms == [] {
      return None;
    }
    if 30 in floors {
      LeastIsLeast(plans, floors, 30);
      return Some(floors[30]);
    }
    var days := LeastValue(floors, terms);
    LeastIsLeast(plans, floors, days);
    return Some(floors[days]);
  }

  // ---------- one package per term ----------

  /** The term's package is the first one listed. */
  ghost predicate IsFirstOfTerm(plans: seq<Plan>, plan: Plan) {
    exists k :: 0 <= k < |plans| && plans[k] == plan && forall j :: 0 <= j < k ==>
        plans[j].durationDays != plan.durationDays
  }

  predicate NotMore(a: int, b: int) {
    a <= b
  }

  /** `sort((a, b) => a - b)` */
  function Ascending(terms: seq<int>): (r: seq<int>)
    ensures forall t :: t in r <==> t in terms
    ensures StableSort.Distinct(terms) ==> forall i, j :: 0 <= i < j < |r| ==> r[i] < r[j]
  {
    AscendingIs(terms);
    StableSort.Sorted(terms, NotMore)
  }

  lemma AscendingIs(terms: seq<int>)
    ensures var r := StableSort.Sorted(terms, NotMore);
            && (forall t :: t in r <==> t in terms)
            && (StableSort.Distinct(terms) ==> forall i, j :: 0 <= i < j < |r| ==> r[i] < r[j])
  {
    hide StableSort.Sorted;
    StableSort.SortedInOrder(terms, NotMore);
    forall t ensures t in StableSort.Sorted(terms, NotMore) <==> t in terms {
      StableSort.InSorted(terms, NotMore, t);
    }
    if StableSort.Distinct(terms) {
      StableSort.SortedDistinct(terms, NotMore);
    }
  }

  /** One anchor for each term that volume is sold in, shortest term first. */
  method AnchorsByTerm(products: seq<seq<Plan>>) returns (anchors: seq<Plan>)
    ensures forall i, j :: 0 <= i < j < |anchors| ==> anchors[i].durationDays < anchors[j].durationDays
    ensures forall plan: Plan :: plan in anchors <==> IsFirstOfTerm(VolumePlans(products), plan)
  {
    var plans := VolumePlans(products);
    hide VolumePlans;
    var byTerm: map<int, Plan>, keys := map[], [];
    for i := 0 to |plans|
      invariant forall days <- byTerm :: byTerm[days].durationDays == days
      invariant forall plan: Plan :: (plan.durationDays in byTerm && byTerm[plan.durationDays] == plan) <==>
                IsFirstOfTerm(plans[..i], plan)
      invariant forall k :: 0 <= k < i ==> plans[k].durationDays in byTerm
      invariant forall t :: t in keys <==> t in byTerm
      invariant StableSort.Distinct(keys)
    {
      var plan := plans[i];
      FirstsOfLonger(plans, i);
      hide IsFirstOfTerm;
      if plan.durationDays !in byTerm {
        keys := keys + [plan.durationDays];
        byTerm := byTerm[plan.durationDays := plan];
      }
    }
    assert plans[..|plans|] == plans;
    hide IsFirstOfTerm;
    var terms := Ascending(keys);
    forall i | 0 <= i < |terms| ensures terms[i] in byTerm && byTerm[terms[i]].durationDays == terms[i] {
      assert terms[i] in terms;
    }
    anchors := Picked(byTerm, terms);
    forall plan: Plan ensures plan in anchors <==> IsFirstOfTerm(plans, plan) {
      InPicked(byTerm, terms, plan);
    }
  }

  /** The keys' values, in the keys' order. */
  function Picked(byTerm: map<int, Plan>, terms: seq<int>): (r: seq<Plan>)
    requires forall i :: 0 <= i < |terms| ==> terms[i] in byTerm
    ensures |r| == |terms| && forall i :: 0 <= i < |r| ==> r[i] == byTerm[terms[i]]
  {
    seq(|terms|, i requires 0 <= i < |terms| => byTerm[terms[i]])
  }

  lemma InPicked(byTerm: map<int, Plan>, terms: seq<int>, plan: Plan)
    requires forall i :: 0 <= i < |terms| ==> terms[i] in byTerm && byTerm[terms[i]].durationDays == terms[i]
    requires forall t <- byTerm :: t in terms
    ensures plan in Picked(byTerm, terms) <==> plan.durationDays in byTerm && byTerm[plan.durationDays] == plan
  {
    var picked := Picked(byTerm, terms);
    hide Picked;
    if plan.durationDays in byTerm && byTerm[plan.durationDays] == plan {
      var i :| 0 <= i < |terms| && terms[i] == plan.durationDays;
      assert picked[i] == plan;
    }
  }

  lemma FirstsOfLonger(plans: seq<Plan>, i: nat)
    requires i < |plans|
    ensures forall plan :: IsFirstOfTerm(plans[..i + 1], plan) <==>
              || IsFirstOfTerm(plans[..i], plan)
              || (plan == plans[i] && forall j :: 0 <= j < i ==> plans[j].durationDays != plan.durationDays)
  {
    var shorter, longer := plans[..i], plans[..i + 1];
    assert forall k :: 0 <= k < i ==> longer[k] == shorter[k] == plans[k];
    forall plan
      ensures IsFirstOfTerm(longer, plan) <==>
                IsFirstOfTerm(shorter, plan) ||
                    (plan == plans[i] && forall j :: 0 <= j < i ==> plans[j].durationDays != plan.durationDays)
    {
      if IsFirstOfTerm(shorter, plan) {
        var k :| 0 <= k < i && shorter[k] == plan && forall j :: 0 <= j < k ==>
            shorter[j].durationDays != plan.durationDays;
        assert longer[k] == plan;
      }
      if plan == plans[i] && forall j :: 0 <= j < i ==> plans[j].durationDays != plan.durationDays {
        assert longer[i] == plan;
      }
    }
  }
}
