/**
 * Homogeneous coordinates: `w` is 1 for a point and 0 for a vector.
 * The classification is from src/tuple.rs; the arithmetic the rays
 * need (sum, difference, negation, scaling, dot product) is componentwise.
 */
module Tuples {

  datatype Tuple = Tuple(x: real, y: real, z: real, w: real)

  function Point(x: real, y: real, z: real): Tuple
  {
    Tuple(x, y, z, 1.0)
  }

  function Vector(x: real, y: real, z: real): Tuple
  {
    Tuple(x, y, z, 0.0)
  }

  /** The point (0, 0, 0). */
  const Origin: Tuple := Tuple(0.0, 0.0, 0.0, 1.0)

  /** `is_point`. */
  predicate IsPoint(t: Tuple)
  {
    t.w == 1.0
  }

  /** `is_vector`. */
  predicate IsVector(t: Tuple)
  {
    t.w == 0.0
  }

  /** A tuple with w = 1 is a point and not a vector. */
  lemma WOneIsPoint(t: Tuple)
    requires t.w == 1.0
    ensures IsPoint(t) && !IsVector(t)
  {
  }

  /** A tuple with w = 0 is a vector and not a point. */
  lemma WZeroIsVector(t: Tuple)
    requires t.w == 0.0
    ensures IsVector(t) && !IsPoint(t)
  {
  }

  /** The two classifications exclude each other; any other w is neither. */
  lemma NeverBoth(t: Tuple)
    ensures !(IsPoint(t) && IsVector(t))
    ensures t.w != 0.0 && t.w != 1.0 ==> !IsPoint(t) && !IsVector(t)
  {
  }

  /** The classification depends on w alone, never on x, y or z. */
  lemma ClassifiedByWAlone(a: Tuple, b: Tuple)
    requires a.w == b.w
    ensures IsPoint(a) == IsPoint(b) && IsVector(a) == IsVector(b)
  {
  }

  function Add(a: Tuple, b: Tuple): Tuple
  {
    Tuple(a.x + b.x, a.y + b.y, a.z + b.z, a.w + b.w)
  }

  function Sub(a: Tuple, b: Tuple): Tuple
  {
    Tuple(a.x - b.x, a.y - b.y, a.z - b.z, a.w - b.w)
  }

  function Neg(a: Tuple): Tuple
  {
    Tuple(-a.x, -a.y, -a.z, -a.w)
  }

  function Scale(a: Tuple, k: real): Tuple
  {
    Tuple(a.x * k, a.y * k, a.z * k, a.w * k)
  }

  function Dot(a: Tuple, b: Tuple): real
  {
    a.x * b.x + a.y * b.y + a.z * b.z + a.w * b.w
  }

  /** The kinds combine as homogeneous coordinates promise. */
  lemma KindsOfSums(p: Tuple, q: Tuple, v: Tuple, u: Tuple, k: real)
    requires IsPoint(p) && IsPoint(q) && IsVector(v) && IsVector(u)
    ensures IsPoint(Add(p, v)) && IsVector(Sub(p, q)) && IsVector(Add(v, u)) && IsVector(Scale(v, k))
  {
  }

  lemma DotOfNeg(a: Tuple, b: Tuple)
    ensures Dot(Neg(a), b) == -Dot(a, b)
  {
  }

  lemma DotSelfNonNegative(a: Tuple)
    ensures 0.0 <= Dot(a, a)
  {
    assert 0.0 <= a.x * a.x && 0.0 <= a.y * a.y && 0.0 <= a.z * a.z && 0.0 <= a.w * a.w;
  }

  /** |s + t d|^2 expands into the quadratic in t that the sphere test solves. */
  lemma DotExpand(s: Tuple, d: Tuple, t: real)
    ensures Dot(Add(s, Scale(d, t)), Add(s, Scale(d, t))) ==
            t * t * Dot(d, d) + 2.0 * t * Dot(d, s) + Dot(s, s)
  {
  }
}
