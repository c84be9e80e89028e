/** The price of a volume the customer types, read off the packages of the same
    term: `src/geekvpn/domain/catalog/custom_volume.py`. */
module CustomVolume {
  import opened DivMod
  import opened Options
  import opened PackageTerms
  import opened StableSort

  datatype VolumePoint = VolumePoint(quota: int, price: nat)
  datatype Priced = Price(amount: int) | NothingToPriceFrom | TooMuch(most: int) | TooLittle(least: int)

  const MAX_CUSTOM_GIB := 10_000
  const ROUNDING_STEP := 1_000

  function RoundedDown(amount: nat): nat {
    amount / ROUNDING_STEP * ROUNDING_STEP
  }

  // ---------- the packages the price is read off ----------

  predicate IsUsable(p: VolumePoint) {
    p.quota > 0
  }

  predicate NotLarger(a: VolumePoint, b: VolumePoint) {
    a.quota <= b.quota
  }

  function AtMost(quota: int): VolumePoint -> bool {
    (p: VolumePoint) => p.quota <= quota
  }

  function AtLeast(quota: int): VolumePoint -> bool {
    (p: VolumePoint) => p.quota >= quota
  }

  /** The usable packages, smallest first; packages of one volume keep the order
      they were listed in. */
  function Curve(points: seq<VolumePoint>): seq<VolumePoint> {
    Sorted(Only(points, IsUsable), NotLarger)
  }

  function Below(points: seq<VolumePoint>, quota: int): seq<VolumePoint> {
    Only(points, AtMost(quota))
  }

  function Above(points: seq<VolumePoint>, quota: int): seq<VolumePoint> {
    Only(points, AtLeast(quota))
  }

  lemma InCurve(points: seq<VolumePoint>, p: VolumePoint)
    ensures p in Curve(points) <==> p in points && p.quota > 0
  {
    InOnly(points, IsUsable, p);
    InSorted(Only(points, IsUsable), NotLarger, p);
  }

  lemma InBelow(points: seq<VolumePoint>, quota: int, p: VolumePoint)
    ensures p in Below(points, quota) <==> p in points && p.quota <= quota
  {
    InOnly(points, AtMost(quota), p);
  }

  lemma InAbove(points: seq<VolumePoint>, quota: int, p: VolumePoint)
    ensures p in Above(points, quota) <==> p in points && p.quota >= quota
  {
    InOnly(points, AtLeast(quota), p);
  }

  lemma CurveInOrder(points: seq<VolumePoint>)
    ensures IsOrder(NotLarger) && InOrder(Curve(points), NotLarger)
  {
    SortedInOrder(Only(points, IsUsable), NotLarger);
  }

  // ---------- the price ----------

  function Dearest(points: seq<VolumePoint>): (price: nat)
    requires points != []
  {
    if |points| == 1 then points[0].price
    else
      var rest := Dearest(points[1..]);
      if points[0].price > rest then points[0].price else rest
  }

  lemma {:induction false} DearestIsDearest(points: seq<VolumePoint>)
    requires points != []
    ensures exists i :: 0 <= i < |points| && points[i].price == Dearest(points)
    ensures forall i :: 0 <= i < |points| ==> points[i].price <= Dearest(points)
  {
    if |points| == 1 {
      assert points[0].price == Dearest(points);
    } else {
      var rest := points[1..];
      DearestIsDearest(rest);
      var i :| 0 <= i < |rest| && rest[i].price == Dearest(rest);
      assert points[i + 1].price == Dearest(rest) &&
          (points[i + 1].price == Dearest(points) || points[0].price == Dearest(points));
      forall j | 0 < j < |points| ensures points[j].price <= Dearest(points) {
        assert rest[j - 1] == points[j];
      }
    }
  }

  function OnTheLine(lower: VolumePoint, upper: VolumePoint, quota: int): int
    requires lower.quota < upper.quota
  {
    lower.price + (upper.price - lower.price) * (quota - lower.quota) / (upper.quota - lower.quota)
  }

  function BeyondTheLargest(lower: VolumePoint, quota: int): int
    requires lower.quota > 0
  {
    lower.price * quota / lower.quota
  }

  /** Below the next package up, which may be the package itself. */
  function PriceBetween(lower: VolumePoint, upper: VolumePoint, quota: int): int
    requires lower.quota <= upper.quota
  {
    if upper.quota == lower.quota then lower.price
    else
      var amount := OnTheLine(lower, upper, quota);
      RoundedDown(if amount > 0 then amount else 0)
  }

  function PriceBeyond(lower: VolumePoint, quota: int): int
    requires 0 < lower.quota <= quota
  {
    BeyondLargestIsMoney(lower, quota);
    RoundedDown(BeyondTheLargest(lower, quota))
  }

  /** The price before the guard, of a volume that may be sold. */
  function RawPrice(points: seq<VolumePoint>, quota: int): int
    requires Below(Curve(points), quota) != []
  {
    var below, above := Below(Curve(points), quota), Above(Curve(points), quota);
    var lower := below[|below| - 1];
    InBelow(Curve(points), quota, lower);
    InCurve(points, lower);
    if above == [] then PriceBeyond(lower, quota)
    else
      InAbove(Curve(points), quota, above[0]);
      PriceBetween(lower, above[0], quota)
  }

  function PriceForVolume(points: seq<VolumePoint>, quota: int): (r: Priced)
  {
    var usable := Curve(points);
    if usable == [] then NothingToPriceFrom
    else if quota > MAX_CUSTOM_GIB then TooMuch(MAX_CUSTOM_GIB)
    else if quota < usable[0].quota then TooLittle(usable[0].quota)
    else
      InBelow(usable, quota, usable[0]);
      var price := RawPrice(points, quota);
      var cheapestAllowed := Dearest(Below(usable, quota));
      Price(if cheapestAllowed > price then cheapestAllowed else price)
  }

  // ---------- arithmetic of the line ----------

  lemma BeyondLargestIsMoney(lower: VolumePoint, quota: int)
    requires 0 < lower.quota <= quota
    ensures BeyondTheLargest(lower, quota) >= lower.price
  {
    TimesRises(lower.price, lower.quota, quota);
    DivideRises(lower.price * lower.quota, lower.price * quota, lower.quota);
    DivideTimes(lower.price, lower.quota);
  }

  lemma BeyondLargestRises(lower: VolumePoint, quota: int, more: int)
    requires 0 < lower.quota <= quota <= more
    ensures BeyondTheLargest(lower, quota) <= BeyondTheLargest(lower, more)
  {
    TimesRises(lower.price, quota, more);
    DivideRises(lower.price * quota, lower.price * more, lower.quota);
  }

  lemma LineIsBetween(lower: VolumePoint, upper: VolumePoint, quota: int)
    requires lower.quota <= quota <= upper.quota && lower.quota < upper.quota
    ensures var line := OnTheLine(lower, upper, quota);
            if lower.price <= upper.price then lower.price <= line <= upper.price
                else upper.price <= line <= lower.price
  {
    var step, t, span := upper.price - lower.price, quota - lower.quota, upper.quota - lower.quota;
    DivideTimes(step, span);
    assert 0 / span == 0;
    if step >= 0 {
      TimesRises(step, 0, t);
      TimesRises(step, t, span);
      DivideRises(0, step * t, span);
      DivideRises(step * t, step * span, span);
    } else {
      TimesRises(-step, 0, t);
      TimesRises(-step, t, span);
      assert step * t == -(-step * t) && step * span == -(-step * span);
      DivideRises(step * t, 0, span);
      DivideRises(step * span, step * t, span);
    }
  }

  lemma LineRises(lower: VolumePoint, upper: VolumePoint, quota: int, more: int)
    requires lower.quota < upper.quota && quota <= more && lower.price <= upper.price
    ensures OnTheLine(lower, upper, quota) <= OnTheLine(lower, upper, more)
  {
    var step := upper.price - lower.price;
    TimesRises(step, quota - lower.quota, more - lower.quota);
    DivideRises(step * (quota - lower.quota), step * (more - lower.quota), upper.quota - lower.quota);
  }

  // ---------- which two packages ----------

  predicate IsSold(p: VolumePoint, quota: int) {
    0 < p.quota <= quota
  }

  /** The largest package with no more in it; of several, the one listed last. */
  predicate IsNearestBelow(points: seq<VolumePoint>, quota: int, k: int) {
    && 0 <= k < |points|
    && IsSold(points[k], quota)
    && forall j :: 0 <= j < |points| && IsSold(points[j], quota) ==>
         points[j].quota < points[k].quota || (points[j].quota == points[k].quota && j <= k)
  }

  /** The smallest package with no less in it; of several, the one listed first. */
  predicate IsNearestAbove(points: seq<VolumePoint>, quota: int, k: int) {
    && 0 <= k < |points|
    && points[k].quota > 0 && points[k].quota >= quota
    && forall j :: 0 <= j < |points| && points[j].quota > 0 && points[j].quota >= quota ==>
         points[k].quota < points[j].quota || (points[j].quota == points[k].quota && k <= j)
  }

  lemma {:induction false} LastOfPlaced(p: VolumePoint, points: seq<VolumePoint>)
    ensures var r := Placed(p, points, NotLarger);
            && r != []
            && r[|r| - 1] == if forall j :: 0 <= j < |points| ==>
                 points[j].quota < p.quota then p else points[|points| - 1]
  {
    if points != [] && points[0].quota < p.quota {
      var rest := points[1..];
      LastOfPlaced(p, rest);
      assert forall j :: 0 < j < |points| ==> points[j] == rest[j - 1];
    }
  }

  lemma CurveStep(points: seq<VolumePoint>, quota: int)
    requires points != [] && quota > 0
    ensures var p, curve := points[0], Curve(points[1..]);
            && Below(Curve(points), quota) ==
               (if IsSold(p, quota) then Placed(p, Below(curve, quota), NotLarger) else Below(curve, quota))
            && Above(Curve(points), quota) ==
               (if p.quota >= quota then Placed(p, Above(curve, quota), NotLarger) else Above(curve, quota))
  {
    hide Placed;
    var p, rest := points[0], Only(points[1..], IsUsable);
    CurveInOrder(points[1..]);
    OnlyOfPlaced(p, Curve(points[1..]), NotLarger, AtMost(quota));
    OnlyOfPlaced(p, Curve(points[1..]), NotLarger, AtLeast(quota));
    hide InOrder, IsOrder;
    if p.quota > 0 {
      assert Only(points, IsUsable) == [p] + rest && ([p] + rest)[1..] == rest;
    } else {
      assert Only(points, IsUsable) == rest;
    }
  }

  lemma NearestInTheRest(points: seq<VolumePoint>, quota: int, k: int)
    requires k > 0
    ensures IsNearestBelow(points, quota, k) ==> IsNearestBelow(points[1..], quota, k - 1)
    ensures IsNearestAbove(points, quota, k) ==> IsNearestAbove(points[1..], quota, k - 1)
  {
  }

  lemma {:induction false} LastBelowIs(points: seq<VolumePoint>, quota: int, k: int)
    requires IsNearestBelow(points, quota, k)
    ensures var below := Below(Curve(points), quota);
            below != [] && below[|below| - 1] == points[k]
  {
    hide Curve, Below, Above;
    var p, rest := points[0], points[1..];
    var below := Below(Curve(rest), quota);
    CurveStep(points, quota);
    LastOfPlaced(p, below);
    if k > 0 {
      NearestInTheRest(points, quota, k);
      LastBelowIs(rest, quota, k - 1);
    } else {
      forall j | 0 <= j < |below| ensures below[j].quota < p.quota {
        FromTheRest(points, quota, below[j]);
      }
    }
  }

  lemma FromTheRest(points: seq<VolumePoint>, quota: int, x: VolumePoint)
    requires points != []
    ensures IsNearestBelow(points, quota, 0) && x in Below(Curve(points[1..]), quota) ==> x.quota < points[0].quota
    ensures IsNearestAbove(points, quota, 0) && x in Above(Curve(points[1..]), quota) ==> x.quota >= points[0].quota
  {
    hide Curve, Below, Above;
    var rest := points[1..];
    InBelow(Curve(rest), quota, x);
    InAbove(Curve(rest), quota, x);
    InCurve(rest, x);
    if x in rest {
      var i :| 0 <= i < |rest| && rest[i] == x;
      assert points[i + 1] == x;
    }
  }

  lemma {:induction false} FirstAboveIs(points: seq<VolumePoint>, quota: int, k: int)
    requires IsNearestAbove(points, quota, k) && quota > 0
    ensures var above := Above(Curve(points), quota);
            above != [] && above[0] == points[k]
  {
    hide Curve, Below, Above;
    var p, rest := points[0], points[1..];
    var above := Above(Curve(rest), quota);
    CurveStep(points, quota);
    if k > 0 {
      NearestInTheRest(points, quota, k);
      FirstAboveIs(rest, quota, k - 1);
    } else if above != [] {
      FromTheRest(points, quota, above[0]);
    }
  }

  // ---------- what a volume costs ----------

  /** The dearer of a price and every package with no more in it. */
  ghost predicate IsGuarded(points: seq<VolumePoint>, quota: int, price: int, amount: int) {
    && price <= amount
    && (forall p <- points :: IsSold(p, quota) ==> p.price <= amount)
    && (amount == price || exists p <- points :: IsSold(p, quota) && p.price == amount)
  }

  /** A volume has a price exactly when some package has no more in it and it is
      within the cap; otherwise the refusal says which of the rules it broke. */
  lemma PricedIff(points: seq<VolumePoint>, quota: int)
    ensures var r := PriceForVolume(points, quota);
            && (r.NothingToPriceFrom? <==> forall p <- points :: p.quota <= 0)
            && (r.Price? <==> quota <= 10_000 && exists p <- points :: IsSold(p, quota))
            && (r.TooLittle? ==> IsSmallest(points, r.least) && quota < r.least && quota <= 10_000)
            && (r.TooMuch? ==> r.most == 10_000 < quota)
  {
    hide RawPrice;
    var usable := Curve(points);
    CurveInOrder(points);
    if usable != [] {
      InCurve(points, usable[0]);
    }
    forall p | p in points && p.quota > 0 ensures usable != [] && usable[0].quota <= p.quota {
      InCurve(points, p);
    }
  }

  ghost predicate IsSmallest(points: seq<VolumePoint>, quota: int) {
    && (exists p <- points :: p.quota == quota)
    && quota > 0
    && forall p <- points :: p.quota > 0 ==> quota <= p.quota
  }

  lemma GuardOfPrice(points: seq<VolumePoint>, quota: int)
    requires PriceForVolume(points, quota).Price?
    ensures && Below(Curve(points), quota) != []
            && IsGuarded(points, quota, RawPrice(points, quota), PriceForVolume(points, quota).amount)
  {
    hide RawPrice, Curve, Below, Dearest;
    var usable := Curve(points);
    var below := Below(usable, quota);
    InBelow(usable, quota, usable[0]);
    DearestIsDearest(below);
    forall p | p in points && IsSold(p, quota) ensures p.price <= Dearest(below) {
      InCurve(points, p);
      InBelow(usable, quota, p);
    }
    var i :| 0 <= i < |below| && below[i].price == Dearest(below);
    InBelow(usable, quota, below[i]);
    InCurve(points, below[i]);
    assert IsSold(below[i], quota);
  }

  /** Between two packages the price is the straight line between them, rounded
      down to a thousand, unless a package with less in it costs more. */
  lemma OnTheLineBetweenTwo(points: seq<VolumePoint>, quota: int, i: int, k: int)
    requires quota <= MAX_CUSTOM_GIB
    requires IsNearestBelow(points, quota, i) && IsNearestAbove(points, quota, k) && points[i].quota < points[k].quota
    ensures var r, line := PriceForVolume(points, quota), OnTheLine(points[i], points[k], quota);
            && 0 <= line
            && r.Price?
            && IsGuarded(points, quota, RoundedDown(line), r.amount)
  {
    hide PriceForVolume, OnTheLine, Below, Above, Curve;
    assert points[i] in points;
    PricedIff(points, quota);
    GuardOfPrice(points, quota);
    LastBelowIs(points, quota, i);
    FirstAboveIs(points, quota, k);
    LineIsBetween(points[i], points[k], quota);
  }

  /** Past the largest package its own rate goes on. */
  lemma BeyondItsRateGoesOn(points: seq<VolumePoint>, quota: int, i: int)
    requires quota <= MAX_CUSTOM_GIB
    requires IsNearestBelow(points, quota, i) && forall p <- points :: p.quota < quota
    ensures var r, scaled := PriceForVolume(points, quota), BeyondTheLargest(points[i], quota);
            && points[i].price <= scaled
            && r.Price?
            && IsGuarded(points, quota, RoundedDown(scaled), r.amount)
  {
    hide PriceForVolume, BeyondTheLargest, Below, Above, Curve;
    assert points[i] in points;
    PricedIff(points, quota);
    GuardOfPrice(points, quota);
    LastBelowIs(points, quota, i);
    BeyondLargestIsMoney(points[i], quota);
    var above := Above(Curve(points), quota);
    if above != [] {
      InAbove(Curve(points), quota, above[0]);
      InCurve(points, above[0]);
    }
  }

  /** The thousands of toman in the price that the straight line between two
      packages asks for a volume: no more than it asks, and more than it asks less
      a thousand, with no division on the way. */
  predicate IsThousandsOnLine(lower: VolumePoint, upper: VolumePoint, quota: int, price: int)
    requires lower.quota < upper.quota
  {
    var span := upper.quota - lower.quota;
    var asked := lower.price * span + (upper.price - lower.price) * (quota - lower.quota);
    price % 1000 == 0 && price * span <= asked < (price + 1000) * span
  }

  /** The same past the largest package, for what its own rate asks. */
  predicate IsThousandsAtRate(lower: VolumePoint, quota: int, price: int) {
    price % 1000 == 0 && price * lower.quota <= lower.price * quota < (price + 1000) * lower.quota
  }

  /** Rounding down a rounded quotient is rounding down the quotient. */
  lemma RoundedQuotient(a: int, b: int, base: int)
    requires b > 0 && base + a / b >= 0
    ensures var r := RoundedDown(base + a / b);
            r % 1000 == 0 && r * b <= base * b + a < (r + 1000) * b
  {
    var q := base + a / b;
    var r := RoundedDown(q);
    assert r == q / 1000 * 1000 && q == q / 1000 * 1000 + q % 1000;
    assert r % 1000 == 0 by {
      MultipleHasNoRemainder(q / 1000, 1000);
    }
    assert a == b * (a / b) + a % b;
    assert q * b == base * b + b * (a / b);
    TimesRises(b, r, q);
    TimesRises(b, q + 1, r + 1000);
  }

  /** The price of a volume between two packages in numbers: the thousands that the
      line asks for, or the dearest package with no more in it. */
  lemma LineInThousands(points: seq<VolumePoint>, quota: int, i: int, k: int) returns (price: int)
    requires quota <= 10_000
    requires IsNearestBelow(points, quota, i) && IsNearestAbove(points, quota, k) && points[i].quota < points[k].quota
    ensures IsThousandsOnLine(points[i], points[k], quota, price)
    ensures var r := PriceForVolume(points, quota); r.Price? && IsGuarded(points, quota, price, r.amount)
  {
    var lower, upper := points[i], points[k];
    OnTheLineBetweenTwo(points, quota, i, k);
    RoundedQuotient((upper.price - lower.price) * (quota - lower.quota), upper.quota - lower.quota, lower.price);
    price := RoundedDown(OnTheLine(lower, upper, quota));
    hide PriceForVolume, RoundedDown;
  }

  /** And past the largest package: the thousands that its rate asks for. */
  lemma RateInThousands(points: seq<VolumePoint>, quota: int, i: int) returns (price: int)
    requires quota <= 10_000
    requires IsNearestBelow(points, quota, i) && forall p <- points :: p.quota < quota
    ensures IsThousandsAtRate(points[i], quota, price)
    ensures var r := PriceForVolume(points, quota); r.Price? && IsGuarded(points, quota, price, r.amount)
  {
    BeyondItsRateGoesOn(points, quota, i);
    assert points[i] in points;
    RoundedQuotient(points[i].price * quota, points[i].quota, 0);
    price := RoundedDown(BeyondTheLargest(points[i], quota));
    hide PriceForVolume, RoundedDown;
  }

  /** The shop's own example: between 20 at 180,000 and 50 at 400,000 a typed 35
      costs 290,000. */
  lemma ThirtyFive()
    ensures PriceForVolume([VolumePoint(20, 180_000), VolumePoint(50, 400_000)], 35) == Price(290_000)
  {
    hide PriceForVolume, IsThousandsOnLine, IsGuarded;
    var lower, upper := VolumePoint(20, 180_000), VolumePoint(50, 400_000);
    var points := [lower, upper];
    var price := LineInThousands(points, 35, 0, 1);
    assert price == 290_000 by {
      OnlyThousands(price);
    }
    GuardOfTwo(lower, upper, 35, price, PriceForVolume(points, 35).amount);
  }

  lemma OnlyThousands(price: int)
    requires IsThousandsOnLine(VolumePoint(20, 180_000), VolumePoint(50, 400_000), 35, price)
    ensures price == 290_000
  {
  }

  lemma GuardOfTwo(lower: VolumePoint, upper: VolumePoint, quota: int, price: int, amount: int)
    requires IsGuarded([lower, upper], quota, price, amount) && quota < upper.quota && lower.price <= price
    ensures amount == price
  {
  }

  /** A volume that is sold as a package costs what the package costs, exactly
      when no package with no more in it is dearer. */
  lemma OwnPackage(points: seq<VolumePoint>, p: VolumePoint)
    requires p in points && 0 < p.quota <= MAX_CUSTOM_GIB
    ensures var r := PriceForVolume(points, p.quota);
            && r.Price?
            && (exists x <- points :: IsSold(x, p.quota) && x.price == r.amount)
            && (r.amount == p.price <==> forall x <- points :: IsSold(x, p.quota) ==> x.price <= p.price)
  {
    hide PriceForVolume, Below, Above, Curve, RawPrice;
    var quota := p.quota;
    assert IsSold(p, quota);
    PricedIff(points, quota);
    GuardOfPrice(points, quota);
    var x := OwnPackageOnTheCurve(points, p);
    assert IsSold(x, quota);
  }

  /** Where a smaller package is dearer it does not: with 20 at 500,000 and 50 on
      offer at 400,000 a typed 50 costs 500,000. */
  lemma SmallerIsDearer()
    ensures var small, large := VolumePoint(20, 500_000), VolumePoint(50, 400_000);
            PriceForVolume([small, large], 50) == Price(500_000)
  {
    var small, large := VolumePoint(20, 500_000), VolumePoint(50, 400_000);
    var points := [small, large];
    assert points[0] == small && points[1] == large;
    assert IsSold(small, 50) && small in points && large in points;
    OwnPackage(points, large);
    PricedIff(points, 50);
    GuardOfPrice(points, 50);
    hide PriceForVolume, RawPrice;
    var r := PriceForVolume(points, 50);
    var x :| x in points && IsSold(x, 50) && x.price == r.amount;
    assert x == small || x == large;
  }

  lemma OwnPackageOnTheCurve(points: seq<VolumePoint>, p: VolumePoint) returns (x: VolumePoint)
    requires p in points && p.quota > 0 && Below(Curve(points), p.quota) != []
    ensures x in points && x.quota == p.quota && x.price == RawPrice(points, p.quota)
  {
    var curve, quota := Curve(points), p.quota;
    CurveInOrder(points);
    hide Curve;
    InCurve(points, p);
    var below, above := Below(curve, quota), Above(curve, quota);
    x := below[|below| - 1];
    LastIsLargest(curve, quota, p);
    FirstIsSmallest(curve, quota, p);
    hide Below, Above, OnTheLine, BeyondTheLargest;
    InBelow(curve, quota, x);
    InCurve(points, x);
    InAbove(curve, quota, above[0]);
  }

  lemma {:induction false} LastIsLargest(sorted: seq<VolumePoint>, quota: int, p: VolumePoint)
    requires InOrder(sorted, NotLarger) && p in sorted && p.quota <= quota
    ensures var below := Below(sorted, quota); below != [] && p.quota <= below[|below| - 1].quota
  {
    var rest := Below(sorted[1..], quota);
    if rest != [] {
      InBelow(sorted[1..], quota, rest[0]);
      LastIsLargest(sorted[1..], quota, if p in sorted[1..] then p else rest[0]);
    } else if p in sorted[1..] {
      InBelow(sorted[1..], quota, p);
    }
  }

  lemma {:induction false} FirstIsSmallest(sorted: seq<VolumePoint>, quota: int, p: VolumePoint)
    requires InOrder(sorted, NotLarger) && p in sorted && p.quota >= quota
    ensures var above := Above(sorted, quota); above != [] && above[0].quota <= p.quota
  {
    if sorted[0].quota < quota {
      FirstIsSmallest(sorted[1..], quota, p);
    }
  }

  // ---------- asking for more ----------

  lemma {:induction false} SomeNearestBelow(points: seq<VolumePoint>, quota: int) returns (k: int)
    requires exists p <- points :: IsSold(p, quota)
    ensures IsNearestBelow(points, quota, k)
  {
    var p, rest := points[0], points[1..];
    assert forall j :: 0 <= j < |rest| ==> rest[j] == points[j + 1];
    assert forall j :: 0 < j < |points| ==> points[j] == rest[j - 1];
    if exists x <- rest :: IsSold(x, quota) {
      k := SomeNearestBelow(rest, quota);
      k := if IsSold(p, quota) && p.quota > rest[k].quota then 0 else k + 1;
    } else {
      assert forall j :: 0 <= j < |rest| ==> rest[j] in rest;
      k := 0;
    }
  }

  lemma {:induction false} SomeNearestAbove(points: seq<VolumePoint>, quota: int) returns (k: int)
    requires quota > 0 && exists p <- points :: p.quota >= quota
    ensures IsNearestAbove(points, quota, k)
  {
    var p, rest := points[0], points[1..];
    assert forall j :: 0 <= j < |rest| ==> rest[j] == points[j + 1];
    assert forall j :: 0 < j < |points| ==> points[j] == rest[j - 1];
    if exists x <- rest :: x.quota >= quota {
      k := SomeNearestAbove(rest, quota);
      k := if p.quota >= quota && p.quota <= rest[k].quota then 0 else k + 1;
    } else {
      assert forall j :: 0 <= j < |rest| ==> rest[j] in rest;
      k := 0;
    }
  }

  /** Asking for more never costs less. */
  lemma MoreNeverCostsLess(points: seq<VolumePoint>, quota: int, more: int)
    requires quota <= more <= MAX_CUSTOM_GIB && PriceForVolume(points, quota).Price?
    ensures PriceForVolume(points, more).Price?
    ensures PriceForVolume(points, quota).amount <= PriceForVolume(points, more).amount
  {
    hide PriceForVolume, RawPrice;
    PricedIff(points, quota);
    PricedIff(points, more);
    assert exists p <- points :: IsSold(p, more) by {
      var p :| p in points && IsSold(p, quota);
      assert IsSold(p, more);
    }
    GuardOfPrice(points, more);
    var i := SomeNearestBelow(points, quota);
    if forall p <- points :: p.quota < quota {
      BeyondBoth(points, quota, more, i);
    } else {
      var k := SomeNearestAbove(points, quota);
      if points[k].quota == quota {
        OwnPackage(points, points[k]);
        assert forall p :: IsSold(p, quota) ==> IsSold(p, more);
      } else {
        BetweenAndOn(points, quota, more, i, k);
      }
    }
  }

  lemma BeyondBoth(points: seq<VolumePoint>, quota: int, more: int, i: int)
    requires quota <= more <= MAX_CUSTOM_GIB
    requires IsNearestBelow(points, quota, i) && forall p <- points :: p.quota < quota
    ensures var r, s := PriceForVolume(points, quota), PriceForVolume(points, more);
            r.Price? && s.Price? && r.amount <= s.amount
  {
    hide PriceForVolume, BeyondTheLargest;
    assert IsNearestBelow(points, more, i);
    BeyondItsRateGoesOn(points, quota, i);
    BeyondItsRateGoesOn(points, more, i);
    BeyondLargestRises(points[i], quota, more);
  }

  lemma BetweenAndOn(points: seq<VolumePoint>, quota: int, more: int, i: int, k: int)
    requires quota <= more <= MAX_CUSTOM_GIB
    requires IsNearestBelow(points, quota, i) && IsNearestAbove(points, quota, k) && quota < points[k].quota
    requires PriceForVolume(points, more).Price?
    ensures var r := PriceForVolume(points, quota);
            r.Price? && r.amount <= PriceForVolume(points, more).amount
  {
    hide PriceForVolume, OnTheLine, RawPrice;
    var lower, upper := points[i], points[k];
    assert lower in points && upper in points;
    OnTheLineBetweenTwo(points, quota, i, k);
    LineIsBetween(lower, upper, quota);
    GuardOfPrice(points, more);
    assert IsSold(lower, more);
    assert forall p :: IsSold(p, quota) ==> IsSold(p, more);
    if more < upper.quota {
      assert IsNearestBelow(points, more, i) && IsNearestAbove(points, more, k);
      OnTheLineBetweenTwo(points, more, i, k);
      if lower.price <= upper.price {
        LineRises(lower, upper, quota, more);
      }
    } else {
      assert IsSold(upper, more);
    }
  }

  // ---------- the least a customer may type ----------

  /** The minimum a refusal names, in the customer's monthly unit: the quotient
      is rounded down and negated twice. */
  function MinimumTyped(smallest: int, days: int): int
    requires days > 0
  {
    -(-smallest * 30 / days)
  }

  /** The minimum that is named is the exact border: what is priced is what is
      at least that. */
  lemma PricedFromTheMinimum(points: seq<VolumePoint>, smallest: int, monthly: int, days: int)
    requires IsSmallest(points, smallest) && days > 0 && TotalGib(monthly, days) <= MAX_CUSTOM_GIB
    ensures PriceForVolume(points, TotalGib(monthly, days)).Price? <==> monthly >= MinimumTyped(smallest, days)
  {
    hide PriceForVolume;
    var quota := TotalGib(monthly, days);
    PricedIff(points, quota);
    ReachesIff(monthly, days, smallest);
    NegatedTwice(smallest * 30, days);
    assert -smallest * 30 == -(smallest * 30);
    hide TotalGib, CeilingDivide, MinimumTyped;
    var p :| p in points && p.quota == smallest;
    assert quota >= smallest ==> IsSold(p, quota);
  }

  lemma NegatedTwice(a: int, b: int)
    requires b > 0
    ensures -(-a / b) == CeilingDivide(a, b)
  {
    var c, q := CeilingDivide(a, b), -a / b;
    CeilingBounds(a, b);
    hide CeilingDivide;
    assert -a == b * q + -a % b;
    assert b * (q + c) == b * q + c * b && (c - 1) * b == c * b - b;
    if q + c >= 1 {
      TimesRises(b, 1, q + c);
    } else if q + c <= -1 {
      TimesRises(b, q + c, -1);
    }
  }

  ghost predicate HasPoint(points: seq<VolumePoint>, plan: Plan) {
    exists p <- points :: plan.quotaGib == Some(p.quota)
  }

  ghost predicate HasPlan(plans: seq<Plan>, days: int, p: VolumePoint) {
    exists plan <- plans :: plan.durationDays == days && plan.quotaGib == Some(p.quota)
  }

  /** The points are those of the packages of the term. */
  ghost predicate AreOfTerm(plans: seq<Plan>, days: int, points: seq<VolumePoint>) {
    && (forall plan <- plans :: plan.durationDays == days ==> HasPoint(points, plan))
    && (forall p <- points :: HasPlan(plans, days, p))
  }

  lemma PointOf(points: seq<VolumePoint>, plan: Plan) returns (p: VolumePoint)
    requires HasPoint(points, plan)
    ensures p in points && plan.quotaGib == Some(p.quota)
  {
    p :| p in points && plan.quotaGib == Some(p.quota);
  }

  lemma PlanOf(plans: seq<Plan>, days: int, p: VolumePoint) returns (plan: Plan)
    requires HasPlan(plans, days, p)
    ensures plan in plans && plan.durationDays == days && plan.quotaGib == Some(p.quota)
  {
    plan :| plan in plans && plan.durationDays == days && plan.quotaGib == Some(p.quota);
  }

  /** In a term a monthly volume is priced exactly when it adds up to one of the
      term's packages. */
  lemma PricedIffReached(plans: seq<Plan>, days: int, points: seq<VolumePoint>, monthly: int)
    requires forall plan <- plans :: IsVolumePlan(plan)
    requires AreOfTerm(plans, days, points) && TotalGib(monthly, days) <= MAX_CUSTOM_GIB
    ensures PriceForVolume(points, TotalGib(monthly, days)).Price? <==>
            exists plan <- plans :: plan.durationDays == days && Reaches(monthly, plan)
  {
    hide PriceForVolume, TotalGib;
    var quota := TotalGib(monthly, days);
    PricedIff(points, quota);
    hide HasPoint, HasPlan;
    if plan :| plan in plans && plan.durationDays == days && Reaches(monthly, plan) {
      var p := PointOf(points, plan);
      assert IsSold(p, quota);
    }
    if p :| p in points && IsSold(p, quota) {
      var plan := PlanOf(plans, days, p);
      assert Reaches(monthly, plan);
    }
  }

  /** So whatever is typed, the smallest volume that the shop allows included, is
      priced in a term exactly when it is at least the threshold of one of the
      term's packages. */
  lemma TypedIsPriced(plans: seq<Plan>, days: int, points: seq<VolumePoint>, monthly: int)
    requires forall plan <- plans :: IsVolumePlan(plan)
    requires AreOfTerm(plans, days, points) && days > 0 && TotalGib(monthly, days) <= MAX_CUSTOM_GIB
    ensures PriceForVolume(points, TotalGib(monthly, days)).Price? <==>
            exists plan <- plans :: plan.durationDays == days && monthly >= Threshold(plan)
  {
    PricedIffReached(plans, days, points, monthly);
    hide PriceForVolume, AreOfTerm, TotalGib, CeilingDivide;
    forall plan | plan in plans && plan.durationDays == days
      ensures Reaches(monthly, plan) <==> monthly >= Threshold(plan)
    {
      ReachesIff(monthly, days, plan.quotaGib.value);
    }
  }

  /** In the monthly term the smallest volume that may be typed is the least that
      is priced. */
  lemma MonthlyTermFromTheFloor(plans: seq<Plan>, floor: int, points: seq<VolumePoint>, monthly: int)
    requires forall plan <- plans :: IsVolumePlan(plan)
    requires IsLeastVolume(plans, floor) && AreOfTerm(plans, 30, points)
    requires points != [] && monthly <= MAX_CUSTOM_GIB
    ensures PriceForVolume(points, TotalGib(monthly, 30)).Price? <==> monthly >= floor
  {
    hide PriceForVolume;
    PricedIffReached(plans, 30, points, monthly);
    assert points[0] in points;
    var some := PlanOf(plans, 30, points[0]);
    hide AreOfTerm;
    var first :| first in plans && Decides(plans, first) && Reaches(floor, first);
    assert first.durationDays == 30;
    if plan :| plan in plans && plan.durationDays == 30 && Reaches(monthly, plan) {
      assert Decides(plans, plan);
    }
  }

  /** Where there is no monthly term no term prices less. */
  lemma NoTermBelowTheFloor(plans: seq<Plan>, floor: int, days: int, points: seq<VolumePoint>, monthly: int)
    requires forall plan <- plans :: IsVolumePlan(plan) && plan.durationDays != 30
    requires IsLeastVolume(plans, floor) && AreOfTerm(plans, days, points)
    requires monthly < floor && TotalGib(monthly, days) <= MAX_CUSTOM_GIB
    ensures !PriceForVolume(points, TotalGib(monthly, days)).Price?
  {
    hide PriceForVolume;
    forall plan | plan in plans ensures !Reaches(monthly, plan) {
      assert Decides(plans, plan);
    }
    PricedIffReached(plans, days, points, monthly);
    hide AreOfTerm;
  }

  /** Some term prices the typed floor, whichever terms there are. */
  lemma SomeTermPricesTheFloor(plans: seq<Plan>, floor: int) returns (days: int)
    requires forall plan <- plans :: IsVolumePlan(plan)
    requires IsLeastVolume(plans, floor)
    ensures exists plan <- plans :: plan.durationDays == days
    ensures forall points :: AreOfTerm(plans, days, points) && TotalGib(floor, days) <= MAX_CUSTOM_GIB ==>
              PriceForVolume(points, TotalGib(floor, days)).Price?
  {
    hide PriceForVolume, TotalGib, AreOfTerm;
    var first :| first in plans && Decides(plans, first) && Reaches(floor, first);
    days := first.durationDays;
    forall points | AreOfTerm(plans, days, points) && TotalGib(floor, days) <= MAX_CUSTOM_GIB
      ensures PriceForVolume(points, TotalGib(floor, days)).Price?
    {
      PricedIffReached(plans, days, points, floor);
    }
  }

  /** A term whose smallest package is dearer in volume refuses the typed floor:
      20 a month is the floor here, and 60 over three months is too little. */
  lemma LongerTermMayRefuse()
    ensures var plans := [Plan("a", "traffic", Some(20), 30), Plan("b", "traffic", Some(100), 90)];
            var points := [VolumePoint(100, 500_000)];
            && IsLeastVolume(plans, 20) && AreOfTerm(plans, 90, points)
            && PriceForVolume(points, TotalGib(20, 90)) == TooLittle(100)
  {
    var month, quarter := Plan("a", "traffic", Some(20), 30), Plan("b", "traffic", Some(100), 90);
    var plans := [month, quarter];
    var p := VolumePoint(100, 500_000);
    assert plans[0] == month && plans[1] == quarter && [p][0] == p;
    assert Decides(plans, month) && Reaches(20, month);
    forall n: int, plan: Plan | n < 20 && plan in plans && Decides(plans, plan) ensures !Reaches(n, plan) {
      assert plan == month;
    }
    assert quarter in plans && p in [p];
    assert HasPoint([p], quarter) && HasPlan(plans, 90, p);
    assert [p][1..] == [];
    assert Only([p], IsUsable) == [p];
    SortedAlready([p], NotLarger);
  }
}
