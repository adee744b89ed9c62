/**
 * Rays and their intersections with spheres: the point at a distance along a
 * ray, the sphere test (none or two intersections), gathering the
 * intersections of every object of a world into one list sorted by distance,
 * picking the hit, and the shading inputs computed at an intersection.
 *
 * The ray's passage into a sphere's own coordinates (the inverse of the
 * sphere's transformation), `sqrt` and the surface normal are supplied as
 * functions; everything else is exact arithmetic over the reals.
 */
module Rays {
  import opened Options
  import opened Tuples
  import opened Worlds

  datatype Ray = Ray(origin: Tuple, direction: Tuple)

  /**
   * An intersection at distance `t` along a ray. `sphere` is the index of the
   * sphere in the world's `objects` (the source holds a reference to it).
   */
  datatype Intersection = Intersection(t: real, sphere: nat)

  /** What shading needs at an intersection. */
  datatype Computation = Computation(t: real, sphere: nat, point: Tuple, eyev: Tuple, normalv: Tuple, inside: bool)

  // ---------------------------------------------------------------- position

  /** `Ray::position`: the point reached after travelling `t` along the ray. */
  function Position(r: Ray, t: real): Tuple
  {
    Add(r.origin, Scale(r.direction, t))
  }

  /** At distance 0 the ray is at its origin; from a point along a vector it stays a point. */
  lemma PositionAtZero(r: Ray, t: real)
    ensures Position(r, 0.0) == r.origin
    ensures IsPoint(r.origin) && IsVector(r.direction) ==> IsPoint(Position(r, t))
  {
  }

  /** Moving from distance `s` to distance `t` covers `t - s` times the direction. */
  lemma PositionDifference(r: Ray, s: real, t: real)
    ensures Sub(Position(r, t), Position(r, s)) == Scale(r.direction, t - s)
  {
  }

  /**
   * The Rust implementation's position test, for every distance: from (2, 3, 4) along the
   * x axis, the point at distance t is (2 + t, 3, 4).
   */
  lemma PositionAlongX(t: real)
    ensures Position(Ray(Tuple(2.0, 3.0, 4.0, 1.0), Tuple(1.0, 0.0, 0.0, 0.0)), t) == Point(2.0 + t, 3.0, 4.0)
  {
  }

  // ---------------------------------------------------------------- the sphere test

  /** `f64::sqrt` on the values it is applied to: the non-negative square root. */
  ghost predicate IsSqrt(sqrt: real -> real)
  {
    forall d: real :: 0.0 <= d ==> 0.0 <= sqrt(d) && sqrt(d) * sqrt(d) == d
  }

  /** The vector from the centre of the unit sphere to the ray's origin. */
  function SphereToRay(local: Ray): Tuple
  {
    Sub(local.origin, Origin)
  }

  /** The coefficients a, b, c of the quadratic a t^2 + b t + c whose roots are the intersections. */
  function CoefA(local: Ray): real
  {
    Dot(local.direction, local.direction)
  }

  function CoefB(local: Ray): real
  {
    2.0 * Dot(local.direction, SphereToRay(local))
  }

  function CoefC(local: Ray): real
  {
    Dot(SphereToRay(local), SphereToRay(local)) - 1.0
  }

  function Discriminant(local: Ray): real
  {
    CoefB(local) * CoefB(local) - 4.0 * CoefA(local) * CoefC(local)
  }

  /** The point at distance `t` along the ray lies on the unit sphere centred at the origin. */
  ghost predicate OnUnitSphere(local: Ray, t: real)
  {
    var q := Sub(Position(local, t), Origin);
    Dot(q, q) == 1.0
  }

  /**
   * The intersections pushed for a quadratic with leading coefficient `a`,
   * linear coefficient `b` and discriminant `d`: nothing when `d` is
   * negative, otherwise the root with `-sqrt(d)` and then the one with
   * `+sqrt(d)`, both tagged with the sphere.
   */
  function Roots(a: real, b: real, d: real, sphere: nat, sqrt: real -> real): seq<Intersection>
    requires a != 0.0
  {
    if 0.0 <= d then
      [ Intersection((-b - sqrt(d)) / (2.0 * a), sphere),
        Intersection((-b + sqrt(d)) / (2.0 * a), sphere) ]
    else
      []
  }

  /**
   * `Ray::intersects`, given the ray already taken into the sphere's own
   * coordinates and the index of the sphere: none or two intersections, all
   * tagged with the sphere.
   */
  function Intersects(local: Ray, sphere: nat, sqrt: real -> real): (xs: seq<Intersection>)
    requires CoefA(local) != 0.0
    ensures |xs| == 0 || |xs| == 2
    ensures |xs| == 0 <==> Discriminant(local) < 0.0
    ensures forall i :: 0 <= i < |xs| ==> xs[i].sphere == sphere
  {
    Roots(CoefA(local), CoefB(local), Discriminant(local), sphere, sqrt)
  }

  /** The point at distance t is on the sphere exactly when a t^2 + b t + c = 0. */
  lemma OnUnitSphereIsRoot(local: Ray, t: real)
    ensures OnUnitSphere(local, t) <==> CoefA(local) * t * t + CoefB(local) * t + CoefC(local) == 0.0
  {
    OnUnitSphereExpanded(local, t);
    Rearranged(CoefA(local), CoefB(local), CoefC(local), t);
  }

  /** |o + t d - centre|^2 = 1 written out as a quadratic in t. */
  lemma OnUnitSphereExpanded(local: Ray, t: real)
    ensures OnUnitSphere(local, t) <==>
            t * t * CoefA(local) + t * CoefB(local) + Dot(SphereToRay(local), SphereToRay(local)) == 1.0
  {
    var s, d := SphereToRay(local), local.direction;
    var q := Sub(Position(local, t), Origin);
    FromCentre(local, t);
    DotExpand(s, d, t);
    Substituted(Dot(q, q), Dot(d, d), Dot(d, s), Dot(s, s), CoefA(local), CoefB(local), t);
  }

  /** Seen from the centre of the unit sphere, the point at distance t is s + t d. */
  lemma FromCentre(local: Ray, t: real)
    ensures Sub(Position(local, t), Origin) == Add(SphereToRay(local), Scale(local.direction, t))
  {
  }

  lemma Substituted(e: real, dd: real, ds: real, ss: real, a: real, b: real, t: real)
    requires e == t * t * dd + 2.0 * t * ds + ss && a == dd && b == 2.0 * ds
    ensures e == t * t * a + t * b + ss
  {
    assert t * t * dd == t * t * a && 2.0 * t * ds == t * b;
  }

  lemma Rearranged(a: real, b: real, c: real, t: real)
    ensures t * t * a + t * b + (c + 1.0) == 1.0 <==> a * t * t + b * t + c == 0.0
  {
    assert t * t * a == a * t * t && t * b == b * t;
  }

  /**
   * With a != 0 and r^2 the discriminant, t is a root exactly when
   * 2 a t + b is r or -r.
   */
  lemma QuadraticRoots(a: real, b: real, c: real, r: real, t: real)
    requires a != 0.0 && r * r == b * b - 4.0 * a * c
    ensures a * t * t + b * t + c == 0.0 <==> (2.0 * a * t + b == r || 2.0 * a * t + b == -r)
  {
    var u := 2.0 * a * t + b;
    assert 4.0 * a * (a * t * t + b * t + c) == (u - r) * (u + r);
    if a * t * t + b * t + c == 0.0 {
      assert (u - r) * (u + r) == 0.0;
      if u - r != 0.0 {
        assert u + r == 0.0;
      }
    }
  }

  /** A root with 2 a t + b = v is t = (v - b) / (2 a). */
  lemma SolveLinear(a: real, b: real, v: real, t: real)
    requires a != 0.0
    ensures 2.0 * a * t + b == v <==> t == (v - b) / (2.0 * a)
  {
  }

  /** The roots pushed are exactly the solutions of a t^2 + b t + c = 0. */
  lemma RootsExactly(a: real, b: real, c: real, sphere: nat, sqrt: real -> real, t: real)
    requires a != 0.0 && IsSqrt(sqrt)
    ensures var xs := Roots(a, b, b * b - 4.0 * a * c, sphere, sqrt);
            a * t * t + b * t + c == 0.0 <==> (|xs| == 2 && (xs[0].t == t || xs[1].t == t))
  {
    var d := b * b - 4.0 * a * c;
    if 0.0 <= d {
      var r := sqrt(d);
      assert r * r == d;
      QuadraticRoots(a, b, c, r, t);
      SolveLinear(a, b, -r, t);
      SolveLinear(a, b, r, t);
      assert -r - b == -b - r && r - b == -b + r;
    } else {
      NoRoot(a, b, c, t);
    }
  }

  /** A negative discriminant leaves no real root. */
  lemma NoRoot(a: real, b: real, c: real, t: real)
    requires a != 0.0 && b * b - 4.0 * a * c < 0.0
    ensures a * t * t + b * t + c != 0.0
  {
    var u := 2.0 * a * t + b;
    assert 4.0 * a * (a * t * t + b * t + c) == u * u - (b * b - 4.0 * a * c);
    assert 0.0 <= u * u;
  }

  /**
   * No intersection is missed and none is made up: the returned distances are
   * exactly the distances at which the ray meets the unit sphere.
   */
  lemma IntersectsExactly(local: Ray, sphere: nat, sqrt: real -> real, t: real)
    requires CoefA(local) != 0.0 && IsSqrt(sqrt)
    ensures var xs := Intersects(local, sphere, sqrt);
            OnUnitSphere(local, t) <==> (|xs| == 2 && (xs[0].t == t || xs[1].t == t))
  {
    var a, b, c := CoefA(local), CoefB(local), CoefC(local);
    assert Discriminant(local) == b * b - 4.0 * a * c;
    assert Intersects(local, sphere, sqrt) == Roots(a, b, b * b - 4.0 * a * c, sphere, sqrt);
    OnUnitSphereIsRoot(local, t);
    RootsExactly(a, b, c, sphere, sqrt, t);
  }

  /** With a > 0 the root with -sqrt comes first. */
  lemma RootsOrdered(a: real, b: real, d: real, sphere: nat, sqrt: real -> real)
    requires 0.0 < a && IsSqrt(sqrt)
    ensures var xs := Roots(a, b, d, sphere, sqrt);
            |xs| == 2 ==> xs[0].t <= xs[1].t
  {
    if 0.0 <= d {
      var r := sqrt(d);
      assert 0.0 <= r;
      assert (-b - r) / (2.0 * a) <= (-b + r) / (2.0 * a);
    }
  }

  /** The two intersections come nearest first. */
  lemma IntersectsOrdered(local: Ray, sphere: nat, sqrt: real -> real)
    requires CoefA(local) != 0.0 && IsSqrt(sqrt)
    ensures var xs := Intersects(local, sphere, sqrt);
            |xs| == 2 ==> xs[0].t <= xs[1].t
  {
    DotSelfNonNegative(local.direction);
    RootsOrdered(CoefA(local), CoefB(local), Discriminant(local), sphere, sqrt);
  }

  /** The Rust implementation's sphere tests, for the unit sphere: a tangent ray meets it twice at the same distance. */
  lemma IntersectsTangent(sqrt: real -> real)
    requires IsSqrt(sqrt)
    ensures Intersects(Ray(Tuple(0.0, 1.0, -5.0, 1.0), Tuple(0.0, 0.0, 1.0, 0.0)), 0, sqrt) == [Intersection(5.0, 0), Intersection(5.0, 0)]
  {
    TangentCoefficients();
    SqrtOf(sqrt, 0.0, 0.0);
  }

  /** The coefficients of the quadratic for the ray of IntersectsTangent. */
  lemma TangentCoefficients()
    ensures var local := Ray(Tuple(0.0, 1.0, -5.0, 1.0), Tuple(0.0, 0.0, 1.0, 0.0));
            CoefA(local) == 1.0 && CoefB(local) == -10.0 && Discriminant(local) == 0.0
  {
    var local := Ray(Tuple(0.0, 1.0, -5.0, 1.0), Tuple(0.0, 0.0, 1.0, 0.0));
    assert SphereToRay(local) == Tuple(0.0, 1.0, -5.0, 0.0);
    assert CoefA(local) == 1.0;
    assert CoefB(local) == -10.0;
    assert CoefC(local) == 25.0;
  }

  /** A ray passing above the unit sphere misses it. */
  lemma IntersectsMiss(sqrt: real -> real)
    ensures Intersects(Ray(Tuple(0.0, 2.0, -5.0, 1.0), Tuple(0.0, 0.0, 1.0, 0.0)), 0, sqrt) == []
  {
    var local := Ray(Tuple(0.0, 2.0, -5.0, 1.0), Tuple(0.0, 0.0, 1.0, 0.0));
    assert SphereToRay(local) == Tuple(0.0, 2.0, -5.0, 0.0);
    assert CoefA(local) == 1.0;
    assert CoefB(local) == -10.0;
    assert CoefC(local) == 28.0;
    assert Discriminant(local) == -12.0;
  }

  /**
   * A ray along the z axis from (0, 0, oz) crosses the unit sphere at z = -1
   * and z = 1, that is at distances -oz - 1 and 1 - oz, in that order.
   */
  lemma IntersectsAlongZ(oz: real, sphere: nat, sqrt: real -> real)
    requires IsSqrt(sqrt)
    ensures Intersects(Ray(Tuple(0.0, 0.0, oz, 1.0), Tuple(0.0, 0.0, 1.0, 0.0)), sphere, sqrt)
         == [Intersection(-oz - 1.0, sphere), Intersection(1.0 - oz, sphere)]
  {
    var local := Ray(Tuple(0.0, 0.0, oz, 1.0), Tuple(0.0, 0.0, 1.0, 0.0));
    var s := SphereToRay(local);
    assert s == Tuple(0.0, 0.0, oz, 0.0);
    assert CoefA(local) == 1.0;
    assert CoefB(local) == 2.0 * oz;
    assert CoefC(local) == oz * oz - 1.0;
    assert Discriminant(local) == 4.0;
    SqrtOf(sqrt, 4.0, 2.0);
  }

  /** From inside the sphere one intersection is behind the origin. */
  lemma IntersectsInside(sqrt: real -> real)
    requires IsSqrt(sqrt)
    ensures Intersects(Ray(Tuple(0.0, 0.0, 0.0, 1.0), Tuple(0.0, 0.0, 1.0, 0.0)), 0, sqrt) == [Intersection(-1.0, 0), Intersection(1.0, 0)]
  {
    IntersectsAlongZ(0.0, 0, sqrt);
  }

  /** With the sphere behind the ray both intersections are behind, and both name the sphere. */
  lemma IntersectsBehind(sqrt: real -> real)
    requires IsSqrt(sqrt)
    ensures Intersects(Ray(Tuple(0.0, 0.0, 5.0, 1.0), Tuple(0.0, 0.0, 1.0, 0.0)), 7, sqrt) == [Intersection(-6.0, 7), Intersection(-4.0, 7)]
  {
    IntersectsAlongZ(5.0, 7, sqrt);
  }

  /** The square root of a perfect square. */
  lemma SqrtOf(sqrt: real -> real, d: real, r: real)
    requires IsSqrt(sqrt) && 0.0 <= r && d == r * r
    ensures sqrt(d) == r
  {
    var s := sqrt(d);
    assert 0.0 <= s && s * s == r * r;
    assert (s - r) * (s + r) == 0.0;
    assert s - r == 0.0 || s + r == 0.0;
  }

  // ---------------------------------------------------------------- hit

  /**
   * Index `k` is the hit among the first `n` intersections: its distance is
   * non-negative, no other non-negative distance is smaller, and every earlier
   * non-negative distance is strictly larger.
   */
  ghost predicate HitAmong(xs: seq<Intersection>, n: nat, k: int)
    requires n <= |xs|
  {
    && 0 <= k < n && 0.0 <= xs[k].t
    && (forall j :: 0 <= j < n && 0.0 <= xs[j].t ==> xs[k].t <= xs[j].t)
    && (forall j :: 0 <= j < k && 0.0 <= xs[j].t ==> xs[k].t < xs[j].t)
  }

  ghost predicate IsHit(xs: seq<Intersection>, k: int)
  {
    HitAmong(xs, |xs|, k)
  }

  /**
   * `hit`: the index of the intersection with the lowest non-negative
   * distance, the earliest one among equals; nothing when every distance is
   * negative or the list is empty.
   */
  method Hit(xs: seq<Intersection>) returns (h: Option<nat>)
    ensures h.None? <==> forall j :: 0 <= j < |xs| ==> xs[j].t < 0.0
    ensures h.Some? ==> IsHit(xs, h.value)
  {
    if |xs| == 0 {
      return None;
    }
    var minT: Option<nat> := None;
    for i := 0 to |xs|
      invariant minT.None? <==> forall j :: 0 <= j < i ==> xs[j].t < 0.0
      invariant minT.Some? ==> HitAmong(xs, i, minT.value)
    {
      if xs[i].t >= 0.0 {
        if minT.None? {
          minT := Some(i);
        } else if xs[i].t < xs[minT.value].t {
          minT := Some(i);
        }
      }
    }
    return minT;
  }

  /** The hit is well defined: at most one index satisfies it. */
  lemma HitUnique(xs: seq<Intersection>, k: nat, m: nat)
    requires IsHit(xs, k) && IsHit(xs, m)
    ensures k == m
  {
  }

  /** In a list sorted by distance, the hit is the first non-negative entry. */
  lemma HitOfSorted(xs: seq<Intersection>, k: nat)
    requires Sorted(xs)
    requires k < |xs| && 0.0 <= xs[k].t
    requires forall j :: 0 <= j < k ==> xs[j].t < 0.0
    ensures IsHit(xs, k)
  {
  }

  /** The Rust implementation's hit tests, answered by index where the Rust code answers by reference. */
  method HitExamples() returns (none: Option<nat>, first: Option<nat>, second: Option<nat>, fourth: Option<nat>)
    ensures none == None && first == Some(0) && second == Some(1) && fourth == Some(3)
  {
    none := Hit([Intersection(-2.0, 0), Intersection(-1.0, 0)]);
    var both := [Intersection(1.0, 0), Intersection(2.0, 0)];
    first := Hit(both);
    assert both[0].t == 1.0;
    HitUnique(both, first.value, 0);
    var mixed := [Intersection(-1.0, 0), Intersection(2.0, 0)];
    second := Hit(mixed);
    assert mixed[1].t == 2.0;
    HitUnique(mixed, second.value, 1);
    var four := [Intersection(5.0, 0), Intersection(7.0, 0), Intersection(-3.0, 0), Intersection(2.0, 0)];
    fourth := Hit(four);
    assert four[3].t == 2.0;
    HitUnique(four, fourth.value, 3);
  }

  // ---------------------------------------------------------------- sorting by distance

  predicate Sorted(xs: seq<Intersection>)
  {
    forall i, j :: 0 <= i < j < |xs| ==> xs[i].t <= xs[j].t
  }

  /** The entries at distance exactly `v`, in list order. */
  function AtDistance(xs: seq<Intersection>, v: real): seq<Intersection>
  {
    if xs == [] then []
    else (if xs[0].t == v then [xs[0]] else []) + AtDistance(xs[1..], v)
  }

  /** Puts `x` in front of the first entry that is not nearer than it. */
  function Insert(x: Intersection, s: seq<Intersection>): seq<Intersection>
  {
    if s == [] || x.t <= s[0].t then [x] + s else [s[0]] + Insert(x, s[1..])
  }

  /**
   * `sort_by(|a, b| a.t.total_cmp(&b.t))`, the standard library's stable
   * sort, as an insertion sort: each entry ends up before the later entries
   * at the same distance.
   */
  function SortByT(xs: seq<Intersection>): seq<Intersection>
  {
    if xs == [] then [] else Insert(xs[0], SortByT(xs[1..]))
  }

  lemma {:induction false} InsertSorted(x: Intersection, s: seq<Intersection>)
    requires Sorted(s)
    ensures Sorted(Insert(x, s))
    ensures |Insert(x, s)| == |s| + 1
    ensures Insert(x, s)[0] == x || Insert(x, s)[0] == s[0]
    decreases |s|
  {
    if s != [] && s[0].t < x.t {
      InsertSorted(x, s[1..]);
    }
  }

  lemma {:induction false} InsertPermutes(x: Intersection, s: seq<Intersection>)
    ensures multiset(Insert(x, s)) == multiset{x} + multiset(s)
    decreases |s|
  {
    if s != [] && s[0].t < x.t {
      InsertPermutes(x, s[1..]);
      assert s == [s[0]] + s[1..];
    }
  }

  lemma AtDistanceCons(y: Intersection, s: seq<Intersection>, v: real)
    ensures AtDistance([y] + s, v) == (if y.t == v then [y] else []) + AtDistance(s, v)
  {
    assert ([y] + s)[1..] == s;
  }

  /** Inserting adds `x` in front of the entries of its own distance and leaves the others' order. */
  lemma {:induction false} InsertAtDistance(x: Intersection, s: seq<Intersection>, v: real)
    ensures AtDistance(Insert(x, s), v) == (if x.t == v then [x] else []) + AtDistance(s, v)
    decreases |s|
  {
    if s == [] || x.t <= s[0].t {
      AtDistanceCons(x, s, v);
    } else {
      var rest := Insert(x, s[1..]);
      InsertAtDistance(x, s[1..], v);
      AtDistanceCons(s[0], rest, v);
      AtDistanceCons(s[0], s[1..], v);
      assert [s[0]] + s[1..] == s;
      if x.t == v {
        assert s[0].t != v;
      }
    }
  }

  /** The sort gives a sorted rearrangement of its input. */
  lemma {:induction false} SortByTSorted(xs: seq<Intersection>)
    ensures Sorted(SortByT(xs))
    ensures multiset(SortByT(xs)) == multiset(xs)
    decreases |xs|
  {
    if xs != [] {
      SortByTSorted(xs[1..]);
      InsertSorted(xs[0], SortByT(xs[1..]));
      InsertPermutes(xs[0], SortByT(xs[1..]));
      assert xs == [xs[0]] + xs[1..];
    }
  }

  /** The sort is stable: the entries at each distance keep their relative order. */
  lemma {:induction false} SortByTStable(xs: seq<Intersection>, v: real)
    ensures AtDistance(SortByT(xs), v) == AtDistance(xs, v)
    decreases |xs|
  {
    if xs != [] {
      SortByTStable(xs[1..], v);
      InsertAtDistance(xs[0], SortByT(xs[1..]), v);
    }
  }

  // ---------------------------------------------------------------- every object of a world

  /** Every object's ray, taken into its own coordinates, has a non-zero direction. */
  ghost predicate Traceable(ray: Ray, objects: seq<Sphere>, toObject: (Ray, Sphere) -> Ray)
  {
    forall i :: 0 <= i < |objects| ==> CoefA(toObject(ray, objects[i])) != 0.0
  }

  /** The intersections of the first `n` objects, object after object, unsorted. */
  function Gathered(ray: Ray, objects: seq<Sphere>, n: nat, toObject: (Ray, Sphere) -> Ray, sqrt: real -> real): seq<Intersection>
    requires n <= |objects| && Traceable(ray, objects, toObject)
  {
    if n == 0 then []
    else Gathered(ray, objects, n - 1, toObject, sqrt) + Intersects(toObject(ray, objects[n - 1]), n - 1, sqrt)
  }

  /** Each object contributes nothing or a pair, and each entry names one of the objects. */
  lemma {:induction false} GatheredShape(ray: Ray, objects: seq<Sphere>, n: nat, toObject: (Ray, Sphere) -> Ray, sqrt: real -> real)
    requires n <= |objects| && Traceable(ray, objects, toObject)
    ensures |Gathered(ray, objects, n, toObject, sqrt)| % 2 == 0
    ensures forall i :: 0 <= i < |Gathered(ray, objects, n, toObject, sqrt)| ==>
              Gathered(ray, objects, n, toObject, sqrt)[i].sphere < n
  {
    if n > 0 {
      GatheredShape(ray, objects, n - 1, toObject, sqrt);
      var prev: seq<Intersection> := Gathered(ray, objects, n - 1, toObject, sqrt);
      var last: seq<Intersection> := Intersects(toObject(ray, objects[n - 1]), n - 1, sqrt);
      var all: seq<Intersection> := prev + last;
      assert Gathered(ray, objects, n, toObject, sqrt) == all;
      EvenPlusPair(|prev|, |last|);
      forall i: int | 0 <= i < |all|
        ensures all[i].sphere < n
      {
        if i < |prev| {
          assert all[i] == prev[i];
        } else {
          assert all[i] == last[i - |prev|];
        }
      }
    }
  }

  lemma EvenPlusPair(m: nat, k: nat)
    requires m % 2 == 0 && (k == 0 || k == 2)
    ensures (m + k) % 2 == 0
  {
  }

  /**
   * Objects added later do not change what the earlier ones contribute: a
   * world with one more object gathers its intersections last.
   */
  lemma {:induction false} GatheredAppend(ray: Ray, objects: seq<Sphere>, s: Sphere, n: nat, toObject: (Ray, Sphere) -> Ray, sqrt: real -> real)
    requires n <= |objects| && Traceable(ray, objects, toObject) && CoefA(toObject(ray, s)) != 0.0
    ensures Traceable(ray, objects + [s], toObject)
    ensures Gathered(ray, objects + [s], n, toObject, sqrt) == Gathered(ray, objects, n, toObject, sqrt)
    ensures n == |objects| ==>
              Gathered(ray, objects + [s], n + 1, toObject, sqrt) ==
              Gathered(ray, objects, n, toObject, sqrt) + Intersects(toObject(ray, s), n, sqrt)
    decreases n
  {
    assert forall i :: 0 <= i < |objects| ==> (objects + [s])[i] == objects[i];
    assert (objects + [s])[|objects|] == s;
    if n > 0 {
      GatheredAppend(ray, objects, s, n - 1, toObject, sqrt);
    }
  }

  /**
   * `Ray::intersections_in_world`: the intersections of every object, in the
   * world's order, then sorted by distance with a stable sort.
   */
  method IntersectionsInWorld(ray: Ray, world: World, toObject: (Ray, Sphere) -> Ray, sqrt: real -> real)
    returns (xs: seq<Intersection>)
    requires Traceable(ray, world.objects, toObject)
    ensures xs == SortByT(Gathered(ray, world.objects, |world.objects|, toObject, sqrt))
    ensures Sorted(xs)
    ensures multiset(xs) == multiset(Gathered(ray, world.objects, |world.objects|, toObject, sqrt))
    ensures forall v :: AtDistance(xs, v) == AtDistance(Gathered(ray, world.objects, |world.objects|, toObject, sqrt), v)
  {
    xs := [];
    for i := 0 to |world.objects|
      invariant xs == Gathered(ray, world.objects, i, toObject, sqrt)
    {
      xs := xs + Intersects(toObject(ray, world.objects[i]), i, sqrt);
    }
    SortByTSorted(xs);
    forall v {
      SortByTStable(xs, v);
    }
    xs := SortByT(xs);
  }

  // ---------------------------------------------------------------- shading inputs

  /**
   * `Ray::prepare_computation`: the point of the intersection, the vector
   * back towards the eye, and the surface normal turned towards the eye,
   * with `inside` recording whether it had to be turned.
   */
  function PrepareComputation(r: Ray, hit: Intersection, normalAt: (nat, Tuple) -> Tuple): (c: Computation)
    ensures c.t == hit.t && c.sphere == hit.sphere
    ensures c.point == Position(r, hit.t)
    ensures c.eyev == Neg(r.direction)
    ensures c.inside <==> Dot(normalAt(hit.sphere, c.point), c.eyev) < 0.0
    ensures c.normalv == (if c.inside then Neg(normalAt(hit.sphere, c.point)) else normalAt(hit.sphere, c.point))
    ensures 0.0 <= Dot(c.normalv, c.eyev)
  {
    var position := Position(r, hit.t);
    var eyev := Neg(r.direction);
    var normalv := normalAt(hit.sphere, position);
    if Dot(normalv, eyev) < 0.0 then
      DotOfNeg(normalv, eyev);
      Computation(hit.t, hit.sphere, position, eyev, Neg(normalv), true)
    else
      Computation(hit.t, hit.sphere, position, eyev, normalv, false)
  }

  /** The unit sphere's normal: the point minus the centre. */
  function UnitNormal(sphere: nat, p: Tuple): Tuple
  {
    Sub(p, Origin)
  }

  /** The Rust implementation's first test: hit from outside, the normal already faces the eye. */
  lemma PrepareComputationOutside()
    ensures var c := PrepareComputation(Ray(Tuple(0.0, 0.0, -5.0, 1.0), Tuple(0.0, 0.0, 1.0, 0.0)), Intersection(4.0, 0), UnitNormal);
            && c.point == Tuple(0.0, 0.0, -1.0, 1.0) && c.eyev == Tuple(0.0, 0.0, -1.0, 0.0)
            && c.normalv == Tuple(0.0, 0.0, -1.0, 0.0) && !c.inside
  {
    var r := Ray(Tuple(0.0, 0.0, -5.0, 1.0), Tuple(0.0, 0.0, 1.0, 0.0));
    assert Position(r, 4.0) == Tuple(0.0, 0.0, -1.0, 1.0);
    assert Neg(r.direction) == Tuple(0.0, 0.0, -1.0, 0.0);
    assert UnitNormal(0, Position(r, 4.0)) == Tuple(0.0, 0.0, -1.0, 0.0);
    assert Dot(Tuple(0.0, 0.0, -1.0, 0.0), Tuple(0.0, 0.0, -1.0, 0.0)) == 1.0;
  }

  /** The Rust implementation's second test: hit from inside, the normal is turned round. */
  lemma PrepareComputationInside()
    ensures var c := PrepareComputation(Ray(Tuple(0.0, 0.0, 0.0, 1.0), Tuple(0.0, 0.0, 1.0, 0.0)), Intersection(1.0, 0), UnitNormal);
            && c.point == Tuple(0.0, 0.0, 1.0, 1.0) && c.eyev == Tuple(0.0, 0.0, -1.0, 0.0)
            && c.normalv == Tuple(0.0, 0.0, -1.0, 0.0) && c.inside
  {
    var r := Ray(Tuple(0.0, 0.0, 0.0, 1.0), Tuple(0.0, 0.0, 1.0, 0.0));
    assert Position(r, 1.0) == Tuple(0.0, 0.0, 1.0, 1.0);
    assert Neg(r.direction) == Tuple(0.0, 0.0, -1.0, 0.0);
    assert UnitNormal(0, Position(r, 1.0)) == Tuple(0.0, 0.0, 1.0, 0.0);
    assert Dot(Tuple(0.0, 0.0, 1.0, 0.0), Tuple(0.0, 0.0, -1.0, 0.0)) == -1.0;
    assert Neg(Tuple(0.0, 0.0, 1.0, 0.0)) == Tuple(0.0, 0.0, -1.0, 0.0);
  }
}
