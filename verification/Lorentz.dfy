/**
 * The four-vectors of Runner6.cpp (ROOT's TLorentzVector) as far as the
 * selection uses them: a default-constructed vector is zero, `+=` and `+`
 * add componentwise.  The invariant mass `M()` is not defined here; the
 * selection takes it as a parameter.  Components are exact reals, not doubles.
 */
module Lorentz {

  datatype Vec4 = Vec4(px: real, py: real, pz: real, e: real)

  /** A default-constructed TLorentzVector. */
  const Zero: Vec4 := Vec4(0.0, 0.0, 0.0, 0.0)

  function Add(a: Vec4, b: Vec4): Vec4
  {
    Vec4(a.px + b.px, a.py + b.py, a.pz + b.pz, a.e + b.e)
  }

  /** The first k vectors added up in order, starting from zero. */
  function SumFirst(v: seq<Vec4>, k: nat): Vec4
    requires k <= |v|
  {
    if k == 0 then Zero else Add(SumFirst(v, k - 1), v[k - 1])
  }

  /** All the vectors added up in order, starting from zero. */
  function SumAll(v: seq<Vec4>): Vec4
  {
    SumFirst(v, |v|)
  }

  /** Adding x to one of two summands adds it to their sum. */
  lemma AddRegroup(a: Vec4, b: Vec4, x: Vec4)
    ensures Add(Add(a, x), b) == Add(Add(a, b), x)
    ensures Add(a, Add(b, x)) == Add(Add(a, b), x)
  {
  }
}
