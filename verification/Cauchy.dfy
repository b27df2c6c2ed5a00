/** Cauchy matrices and why any k rows of the codec's distribution matrices can
    be inverted. */
module Cauchy {
  import opened GaloisField
  import opened Lists
  import opened LinearAlgebra

  /** The row of reciprocals 1 / (z + b[j]). */
  function CauchyRow(F: Field, z: byte, b: seq<byte>): (row: Vector)
    ensures |row| == |b|
    ensures forall j :: 0 <= j < |b| ==> row[j] == Reciprocal(F, F.add(z, b[j]))
  {
    seq(|b|, j requires 0 <= j < |b| => Reciprocal(F, F.add(z, b[j])))
  }

  ghost predicate Apart(a: seq<byte>, b: seq<byte>) {
    forall i, j :: 0 <= i < |a| && 0 <= j < |b| ==> a[i] != b[j]
  }

  // ------------------------------------------------- eliminating one column

  /** What is left of column j's unknown once the pole B and the point A have
      been eliminated: x[j] * (b[j] + B) / (A + b[j]). */
  function Eliminated(F: Field, x: Vector, b: seq<byte>, A: byte, B: byte): (y: Vector)
    requires |x| == |b|
    ensures |y| == |x|
    ensures forall j :: 0 <= j < |x| ==>
      y[j] == F.multiply(F.multiply(x[j], F.add(b[j], B)), Reciprocal(F, F.add(A, b[j])))
  {
    seq(|x|, j requires 0 <= j < |x| =>
      F.multiply(F.multiply(x[j], F.add(b[j], B)), Reciprocal(F, F.add(A, b[j]))))
  }

  /** With p = 1/u and q = 1/v:  (u+v) * p*(x*w*q)  ==  (u+w) * p*x  +  (v+w) * q*x. */
  lemma PartialFractions(F: Field, u: byte, v: byte, w: byte, p: byte, q: byte, x: byte)
    requires F.Lawful() && F.multiply(u, p) == 1 && F.multiply(v, q) == 1
    ensures F.multiply(F.add(u, v), F.multiply(p, F.multiply(F.multiply(x, w), q)))
         == F.add(F.multiply(F.add(u, w), F.multiply(p, x)), F.multiply(F.add(v, w), F.multiply(q, x)))
  {
    var y := F.multiply(x, w);
    var yq, py := F.multiply(y, q), F.multiply(p, y);
    assert F.multiply(F.add(u, v), F.multiply(p, yq)) == F.add(yq, py) by {
      Distributes(F, F.multiply(p, yq), u, v);
      Associates(F, u, p, yq);
      Units(F, yq);
      Associates(F, p, y, q);
      Commutes(F, v, F.multiply(py, q));
      Associates(F, py, q, v);
      Commutes(F, q, v);
      Units(F, py);
    }
    CancelledPole(F, u, w, p, x);
    CancelledPole(F, v, w, q, x);
    Commutes(F, q, y);
    AddShuffles(F, x, py, x, yq);
    Units(F, x);
    Units(F, F.add(py, yq));
    Commutes(F, py, yq);
  }

  lemma CancelledPole(F: Field, u: byte, w: byte, p: byte, x: byte)
    requires F.Lawful() && F.multiply(u, p) == 1
    ensures F.multiply(F.add(u, w), F.multiply(p, x)) == F.add(x, F.multiply(p, F.multiply(x, w)))
  {
    Distributes(F, F.multiply(p, x), u, w);
    Associates(F, u, p, x);
    Units(F, x);
    Associates(F, p, x, w);
    Commutes(F, w, F.multiply(p, x));
  }

  lemma PoleDifferences(F: Field, a: byte, b: byte, c: byte)
    requires F.Lawful()
    ensures F.add(F.add(a, b), F.add(c, b)) == F.add(a, c)
    ensures F.add(F.add(a, b), F.add(b, c)) == F.add(a, c)
  {
    AddShuffles(F, a, b, c, b);
    Units(F, b);
    Units(F, F.add(a, c));
    Commutes(F, b, c);
  }

  /** (z+A) * sum of eliminated terms at z
        ==  (z+B) * sum at z  +  (A+B) * sum at A,  over the columns other than B's. */
  lemma {:induction false} EliminationIdentity(F: Field, x: Vector, b: seq<byte>, z: byte, A: byte, B: byte)
    requires F.Lawful() && |x| == |b| && z !in b && A !in b
    ensures F.multiply(F.add(z, A), Dot(F, CauchyRow(F, z, b), Eliminated(F, x, b, A, B)))
         == F.add(F.multiply(F.add(z, B), Dot(F, CauchyRow(F, z, b), x)),
                  F.multiply(F.add(A, B), Dot(F, CauchyRow(F, A, b), x)))
  {
    Units(F, F.add(z, A));
    Units(F, F.add(z, B));
    Units(F, F.add(A, B));
    Units(F, 0);
    if |x| > 0 {
      var n := |x| - 1;
      EliminationIdentity(F, x[..n], b[..n], z, A, B);
      SplitLast(F, x, b, z);
      SplitLast(F, x, b, A);
      SplitLast(F, Eliminated(F, x, b, A, B), b, z);
      assert Eliminated(F, x, b, A, B)[..n] == Eliminated(F, x[..n], b[..n], A, B);
      var u, v := F.add(z, b[n]), F.add(A, b[n]);
      var p, q := Reciprocal(F, u), Reciprocal(F, v);
      AddCancels(F, z, b[n], 0);
      AddCancels(F, A, b[n], 0);
      ReciprocalLaw(F, u);
      ReciprocalLaw(F, v);
      PartialFractions(F, u, v, F.add(b[n], B), p, q, x[n]);
      PoleDifferences(F, z, b[n], A);
      PoleDifferences(F, z, b[n], B);
      PoleDifferences(F, A, b[n], B);
      var s, t, e := Dot(F, CauchyRow(F, z, b[..n]), x[..n]), Dot(F, CauchyRow(F, A, b[..n]), x[..n]),
        Dot(F, CauchyRow(F, z, b[..n]), Eliminated(F, x[..n], b[..n], A, B));
      SumOfProducts(F, F.add(z, A), e, F.multiply(p, F.multiply(F.multiply(x[n], F.add(b[n], B)), q)),
                    F.add(z, B), s, F.multiply(p, x[n]), F.add(A, B), t, F.multiply(q, x[n]));
    }
  }

  lemma SplitLast(F: Field, x: Vector, b: seq<byte>, z: byte)
    requires |x| == |b| > 0
    ensures var n := |x| - 1;
      Dot(F, CauchyRow(F, z, b), x)
      == F.add(Dot(F, CauchyRow(F, z, b[..n]), x[..n]), F.multiply(Reciprocal(F, F.add(z, b[n])), x[n]))
  {
    var n := |x| - 1;
    assert CauchyRow(F, z, b)[..n] == CauchyRow(F, z, b[..n]);
  }

  lemma SumOfProducts(F: Field, c: byte, e: byte, e': byte, d: byte, s: byte, s': byte, f: byte, t: byte, t': byte)
    requires F.Lawful()
    requires F.multiply(c, e) == F.add(F.multiply(d, s), F.multiply(f, t))
    requires F.multiply(c, e') == F.add(F.multiply(d, s'), F.multiply(f, t'))
    ensures F.multiply(c, F.add(e, e'))
         == F.add(F.multiply(d, F.add(s, s')), F.multiply(f, F.add(t, t')))
  {
    Distributes(F, c, e, e');
    Distributes(F, d, s, s');
    Distributes(F, f, t, t');
    AddShuffles(F, F.multiply(d, s), F.multiply(f, t), F.multiply(d, s'), F.multiply(f, t'));
  }

  /** Eliminating the last column at the point A leaves a smaller Cauchy sum
      that still vanishes at z. */
  lemma EliminationVanishes(F: Field, x: Vector, b: seq<byte>, z: byte, A: byte)
    requires F.Lawful() && |x| == |b| > 0 && z !in b && A !in b && z != A
    requires Dot(F, CauchyRow(F, z, b), x) == 0 && Dot(F, CauchyRow(F, A, b), x) == 0
    ensures var n := |x| - 1;
      Dot(F, CauchyRow(F, z, b[..n]), Eliminated(F, x[..n], b[..n], A, b[n])) == 0
  {
    var n := |x| - 1;
    var B := b[n];
    EliminationIdentity(F, x[..n], b[..n], z, A, B);
    RemainderIsLastUnknown(F, x, b, z);
    RemainderIsLastUnknown(F, x, b, A);
    Units(F, x[n]);
    NoZeroDivisors(F, F.add(z, A), Dot(F, CauchyRow(F, z, b[..n]), Eliminated(F, x[..n], b[..n], A, B)));
    AddCancels(F, z, A, 0);
  }

  lemma RemainderIsLastUnknown(F: Field, x: Vector, b: seq<byte>, z: byte)
    requires F.Lawful() && |x| == |b| > 0 && z !in b && Dot(F, CauchyRow(F, z, b), x) == 0
    ensures var n := |x| - 1;
      F.multiply(F.add(z, b[n]), Dot(F, CauchyRow(F, z, b[..n]), x[..n])) == x[n]
  {
    var n := |x| - 1;
    SplitLast(F, x, b, z);
    var u, d := F.add(z, b[n]), Dot(F, CauchyRow(F, z, b[..n]), x[..n]);
    var p := Reciprocal(F, u);
    AddCancels(F, z, b[n], 0);
    AddCancels(F, d, F.multiply(p, x[n]), 0);
    ReciprocalLaw(F, u);
    Associates(F, u, p, x[n]);
    Units(F, x[n]);
  }

  /** A Cauchy sum with distinct poles that vanishes at as many distinct points
      as it has poles is zero term by term. */
  lemma {:induction false} CauchyKernelIsZero(F: Field, a: seq<byte>, b: seq<byte>, x: Vector)
    requires F.Lawful() && |x| == |b| <= |a|
    requires NoRepeats(a) && NoRepeats(b) && Apart(a, b)
    requires forall i :: 0 <= i < |a| ==> Dot(F, CauchyRow(F, a[i], b), x) == 0
    ensures x == Zeros(|b|)
    decreases |b|
  {
    hide Dot, CauchyRow;
    if |b| > 0 {
      var n := |b| - 1;
      var A, B, b' := a[n], b[n], b[..n];
      var y := Eliminated(F, x[..n], b', A, B);
      forall i | 0 <= i < n ensures Dot(F, CauchyRow(F, a[..n][i], b'), y) == 0 {
        EliminationVanishes(F, x, b, a[i], A);
      }
      CauchyKernelIsZero(F, a[..n], b', y);
      forall j | 0 <= j < n ensures x[j] == 0 {
        assert y[j] == 0;
        EliminatedZero(F, x[j], b[j], A, B);
      }
      LastUnknownZero(F, x, b, A);
    }
  }

  lemma EliminatedZero(F: Field, x: byte, b: byte, A: byte, B: byte)
    requires F.Lawful() && A != b && b != B
    requires F.multiply(F.multiply(x, F.add(b, B)), Reciprocal(F, F.add(A, b))) == 0
    ensures x == 0
  {
    AddCancels(F, b, B, 0);
    AddCancels(F, A, b, 0);
    ReciprocalLaw(F, F.add(A, b));
    NoZeroDivisors(F, F.multiply(x, F.add(b, B)), Reciprocal(F, F.add(A, b)));
    NoZeroDivisors(F, x, F.add(b, B));
  }

  lemma LastUnknownZero(F: Field, x: Vector, b: seq<byte>, A: byte)
    requires F.Lawful() && |x| == |b| > 0 && A !in b
    requires forall j :: 0 <= j < |b| - 1 ==> x[j] == 0
    requires Dot(F, CauchyRow(F, A, b), x) == 0
    ensures x == Zeros(|b|)
  {
    var n := |b| - 1;
    var row := CauchyRow(F, A, b);
    DotSingle(F, row, x, n);
    AddCancels(F, A, b[n], 0);
    ReciprocalLaw(F, F.add(A, b[n]));
    NoZeroDivisors(F, row[n], x[n]);
  }
}
