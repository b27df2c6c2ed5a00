/** Vectors and matrices over the field, and what a row operation does to the
    solutions of a linear system. */
module LinearAlgebra {
  import opened GaloisField

  type Vector = seq<byte>
  type Matrix = seq<seq<byte>>

  ghost predicate Shaped(M: Matrix, rows: nat, columns: nat) {
    |M| == rows && forall r :: 0 <= r < rows ==> |M[r]| == columns
  }

  /** Accumulates from the left, as the coding loops do. */
  function Dot(F: Field, u: Vector, x: Vector): (d: byte)
    requires |u| == |x|
  {
    if |u| == 0 then 0
    else
      var n := |u| - 1;
      F.add(Dot(F, u[..n], x[..n]), F.multiply(u[n], x[n]))
  }

  function Apply(F: Field, M: Matrix, x: Vector): (y: Vector)
    requires Shaped(M, |M|, |x|)
    ensures |y| == |M|
    ensures forall r :: 0 <= r < |M| ==> y[r] == Dot(F, M[r], x)
  {
    seq(|M|, r requires 0 <= r < |M| => Dot(F, M[r], x))
  }

  function Zeros(n: nat): (z: Vector)
    ensures |z| == n && forall i :: 0 <= i < n ==> z[i] == 0
  {
    seq(n, i => 0)
  }

  function UnitVector(n: nat, p: nat): (e: Vector)
    requires p < n
    ensures |e| == n && e[p] == 1 && forall i :: 0 <= i < n && i != p ==> e[i] == 0
  {
    Zeros(n)[p := 1]
  }

  function Identity(n: nat): (I: Matrix)
    ensures Shaped(I, n, n)
    ensures forall r :: 0 <= r < n ==> I[r] == UnitVector(n, r)
  {
    seq(n, r requires 0 <= r < n => UnitVector(n, r))
  }

  // ---------------------------------------------------------------- products

  function Scaled(F: Field, u: Vector, c: byte): (v: Vector)
    ensures |v| == |u|
    ensures forall i :: 0 <= i < |u| ==> v[i] == F.multiply(u[i], c)
  {
    seq(|u|, i requires 0 <= i < |u| => F.multiply(u[i], c))
  }

  /** u + c * w */
  function AddedMultiple(F: Field, u: Vector, w: Vector, c: byte): (v: Vector)
    requires |u| == |w|
    ensures |v| == |u|
    ensures forall i :: 0 <= i < |u| ==> v[i] == F.add(u[i], F.multiply(w[i], c))
  {
    seq(|u|, i requires 0 <= i < |u| => F.add(u[i], F.multiply(w[i], c)))
  }

  lemma {:induction false} DotScaled(F: Field, u: Vector, c: byte, x: Vector)
    requires F.Lawful() && |u| == |x|
    ensures Dot(F, Scaled(F, u, c), x) == F.multiply(Dot(F, u, x), c)
  {
    Units(F, c);
    if |u| > 0 {
      var n := |u| - 1;
      DotScaled(F, u[..n], c, x[..n]);
      assert Scaled(F, u, c)[..n] == Scaled(F, u[..n], c);
      Associates(F, u[n], c, x[n]);
      Commutes(F, c, x[n]);
      Associates(F, u[n], x[n], c);
      Distributes(F, c, Dot(F, u[..n], x[..n]), F.multiply(u[n], x[n]));
    }
  }

  lemma {:induction false} DotAddedMultiple(F: Field, u: Vector, w: Vector, c: byte, x: Vector)
    requires F.Lawful() && |u| == |w| == |x|
    ensures Dot(F, AddedMultiple(F, u, w, c), x) == F.add(Dot(F, u, x), F.multiply(Dot(F, w, x), c))
  {
    Units(F, c);
    Units(F, 0);
    if |u| > 0 {
      var n := |u| - 1;
      var wx := F.multiply(w[n], x[n]);
      DotAddedMultiple(F, u[..n], w[..n], c, x[..n]);
      assert AddedMultiple(F, u, w, c)[..n] == AddedMultiple(F, u[..n], w[..n], c);
      Distributes(F, x[n], u[n], F.multiply(w[n], c));
      Associates(F, w[n], c, x[n]);
      Commutes(F, c, x[n]);
      Associates(F, w[n], x[n], c);
      Distributes(F, c, Dot(F, w[..n], x[..n]), wx);
      AddShuffles(F, Dot(F, u[..n], x[..n]), F.multiply(Dot(F, w[..n], x[..n]), c),
                  F.multiply(u[n], x[n]), F.multiply(wx, c));
    }
  }

  /** A product with at most one nonzero term. */
  lemma {:induction false} DotSingle(F: Field, u: Vector, x: Vector, p: nat)
    requires F.Lawful() && |u| == |x| && p < |u|
    requires forall i :: 0 <= i < |u| && i != p ==> u[i] == 0 || x[i] == 0
    ensures Dot(F, u, x) == F.multiply(u[p], x[p])
  {
    var n := |u| - 1;
    NoZeroDivisors(F, u[n], x[n]);
    Units(F, F.multiply(u[p], x[p]));
    if p < n {
      DotSingle(F, u[..n], x[..n], p);
    } else {
      DotVanishes(F, u[..n], x[..n]);
    }
  }

  lemma {:induction false} DotVanishes(F: Field, u: Vector, x: Vector)
    requires F.Lawful() && |u| == |x|
    requires forall i :: 0 <= i < |u| ==> u[i] == 0 || x[i] == 0
    ensures Dot(F, u, x) == 0
  {
    if |u| > 0 {
      var n := |u| - 1;
      DotVanishes(F, u[..n], x[..n]);
      NoZeroDivisors(F, u[n], x[n]);
      Units(F, 0);
    }
  }

  lemma {:induction false} DotUpdated(F: Field, u: Vector, x: Vector, p: nat, v: byte)
    requires F.Lawful() && |u| == |x| && p < |u| && x[p] == 0
    ensures Dot(F, u, x[p := v]) == F.add(Dot(F, u, x), F.multiply(u[p], v))
  {
    var n := |u| - 1;
    var d := Dot(F, u[..n], x[..n]);
    if p == n {
      Units(F, u[n]);
      Units(F, d);
      assert x[p := v][..n] == x[..n];
    } else {
      DotUpdated(F, u[..n], x[..n], p, v);
      assert x[p := v][..n] == x[..n][p := v];
      var t, s := F.multiply(u[p], v), F.multiply(u[n], x[n]);
      Associates(F, d, t, s);
      Commutes(F, t, s);
      Associates(F, d, s, t);
    }
  }

  lemma DotUnit(F: Field, n: nat, p: nat, x: Vector)
    requires F.Lawful() && p < n == |x|
    ensures Dot(F, UnitVector(n, p), x) == x[p]
    ensures Dot(F, x, UnitVector(n, p)) == x[p]
  {
    DotSingle(F, UnitVector(n, p), x, p);
    DotSingle(F, x, UnitVector(n, p), p);
    Units(F, x[p]);
  }

  lemma ApplyIdentity(F: Field, x: Vector)
    requires F.Lawful()
    ensures Apply(F, Identity(|x|), x) == x
  {
    forall r | 0 <= r < |x| ensures Dot(F, Identity(|x|)[r], x) == x[r] {
      DotUnit(F, |x|, r, x);
    }
  }

  // ------------------------------------------------- inverses and singularity

  ghost predicate Undoes(F: Field, k: nat, N: Matrix, M: Matrix)
    requires Shaped(M, k, k) && Shaped(N, k, k)
  {
    forall x: Vector {:trigger Apply(F, N, Apply(F, M, x))} ::
      |x| == k ==> Apply(F, N, Apply(F, M, x)) == x
  }

  /** Each of M and N undoes the other on every vector of length k. */
  ghost predicate Inverses(F: Field, k: nat, M: Matrix, N: Matrix)
    requires Shaped(M, k, k) && Shaped(N, k, k)
  {
    && Undoes(F, k, N, M)
    && Undoes(F, k, M, N)
  }

  /** Only the zero vector is mapped to zero. */
  ghost predicate NonSingular(F: Field, k: nat, M: Matrix)
    requires Shaped(M, k, k)
  {
    forall x: Vector :: |x| == k && Apply(F, M, x) == Zeros(k) ==> x == Zeros(k)
  }

  function Column(M: Matrix, rows: nat, columns: nat, c: nat): (v: Vector)
    requires Shaped(M, rows, columns) && c < columns
    ensures |v| == rows
    ensures forall r :: 0 <= r < rows ==> v[r] == M[r][c]
  {
    seq(rows, r requires 0 <= r < rows => M[r][c])
  }

  /** A matrix that undoes M multiplies with it to the identity, entry by entry. */
  lemma UndoingMultipliesToIdentity(F: Field, k: nat, N: Matrix, M: Matrix, r: nat, c: nat)
    requires F.Lawful() && Shaped(M, k, k) && Shaped(N, k, k) && Undoes(F, k, N, M)
    requires r < k && c < k
    ensures Dot(F, N[r], Column(M, k, k, c)) == if r == c then 1 else 0
  {
    var e := UnitVector(k, c);
    ApplyUnit(F, k, M, c);
    assert Apply(F, N, Apply(F, M, e)) == e;
  }

  lemma ApplyUnit(F: Field, k: nat, M: Matrix, c: nat)
    requires F.Lawful() && Shaped(M, k, k) && c < k
    ensures Apply(F, M, UnitVector(k, c)) == Column(M, k, k, c)
  {
    forall r | 0 <= r < k ensures Dot(F, M[r], UnitVector(k, c)) == M[r][c] {
      DotUnit(F, k, c, M[r]);
    }
  }

  /** The product of two square matrices. */
  function Product(F: Field, k: nat, N: Matrix, M: Matrix): (p: Matrix)
    requires Shaped(M, k, k) && Shaped(N, k, k)
    ensures Shaped(p, k, k)
  {
    seq(k, r requires 0 <= r < k => seq(k, c requires 0 <= c < k => Dot(F, N[r], Column(M, k, k, c))))
  }

  lemma InversesMultiplyToIdentity(F: Field, k: nat, M: Matrix, N: Matrix)
    requires F.Lawful() && Shaped(M, k, k) && Shaped(N, k, k) && Inverses(F, k, M, N)
    ensures Product(F, k, N, M) == Identity(k) == Product(F, k, M, N)
  {
    hide Undoes;
    forall r, c | 0 <= r < k && 0 <= c < k
      ensures Product(F, k, N, M)[r][c] == Identity(k)[r][c] == Product(F, k, M, N)[r][c]
    {
      UndoingMultipliesToIdentity(F, k, N, M, r, c);
      UndoingMultipliesToIdentity(F, k, M, N, r, c);
    }
    SameEntries(k, Product(F, k, N, M), Identity(k));
    SameEntries(k, Product(F, k, M, N), Identity(k));
  }

  lemma SameEntries(k: nat, M: Matrix, N: Matrix)
    requires Shaped(M, k, k) && Shaped(N, k, k)
    requires forall r, c :: 0 <= r < k && 0 <= c < k ==> M[r][c] == N[r][c]
    ensures M == N
  {
    forall r | 0 <= r < k
      ensures M[r] == N[r]
    {
    }
  }

  lemma InvertibleIsNonSingular(F: Field, k: nat, M: Matrix, N: Matrix)
    requires F.Lawful() && Shaped(M, k, k) && Shaped(N, k, k) && Inverses(F, k, M, N)
    ensures NonSingular(F, k, M)
  {
    forall x: Vector | |x| == k && Apply(F, M, x) == Zeros(k) ensures x == Zeros(k) {
      assert Apply(F, N, Apply(F, M, x)) == x;
      forall r | 0 <= r < k ensures Dot(F, N[r], Zeros(k)) == 0 {
        DotVanishes(F, N[r], Zeros(k));
      }
    }
  }

  // ---------------------------------------------------------- row operations

  function SwappedRows(M: Matrix, i: nat, j: nat): (N: Matrix)
    requires i < |M| && j < |M|
  {
    M[i := M[j]][j := M[i]]
  }

  function ScaledRow(F: Field, M: Matrix, i: nat, c: byte): (N: Matrix)
    requires i < |M|
  {
    M[i := Scaled(F, M[i], c)]
  }

  /** Row j gains c times row i. */
  function AddedRow(F: Field, M: Matrix, i: nat, j: nat, c: byte): (N: Matrix)
    requires i < |M| && j < |M| && |M[i]| == |M[j]|
  {
    M[j := AddedMultiple(F, M[j], M[i], c)]
  }

  /** The systems `A x = y` and `S x = V y` have the same solutions.  Elimination
      keeps this while it turns S into the identity. */
  ghost predicate Tracks(F: Field, k: nat, A: Matrix, S: Matrix, V: Matrix)
    requires Shaped(A, k, k) && Shaped(S, k, k) && Shaped(V, k, k)
  {
    forall x: Vector, y: Vector :: |x| == k && |y| == k ==>
      (Maps(F, A, x, y) <==> Meet(F, S, x, V, y))
  }

  ghost predicate Maps(F: Field, A: Matrix, x: Vector, y: Vector)
    requires Shaped(A, |A|, |x|)
  {
    Apply(F, A, x) == y
  }

  ghost predicate Meet(F: Field, S: Matrix, x: Vector, V: Matrix, y: Vector)
    requires Shaped(S, |S|, |x|) && Shaped(V, |V|, |y|)
  {
    Apply(F, S, x) == Apply(F, V, y)
  }

  lemma TracksInitially(F: Field, k: nat, A: Matrix)
    requires F.Lawful() && Shaped(A, k, k)
    ensures Tracks(F, k, A, A, Identity(k))
  {
    forall x: Vector, y: Vector | |x| == k && |y| == k
      ensures Maps(F, A, x, y) <==> Meet(F, A, x, Identity(k), y)
    {
      ApplyIdentity(F, y);
    }
  }

  lemma TracksSwap(F: Field, k: nat, A: Matrix, S: Matrix, V: Matrix, i: nat, j: nat)
    requires F.Lawful() && Shaped(A, k, k) && Shaped(S, k, k) && Shaped(V, k, k)
    requires Tracks(F, k, A, S, V) && i < k && j < k
    ensures Tracks(F, k, A, SwappedRows(S, i, j), SwappedRows(V, i, j))
  {
    var S', V' := SwappedRows(S, i, j), SwappedRows(V, i, j);
    forall x: Vector, y: Vector | |x| == k && |y| == k
      ensures Meet(F, S', x, V', y) <==> Meet(F, S, x, V, y)
    {
      var p, q := Apply(F, S, x), Apply(F, V, y);
      var p', q' := Apply(F, S', x), Apply(F, V', y);
      assert p' == p[i := p[j]][j := p[i]] && q' == q[i := q[j]][j := q[i]];
      if p' == q' {
        assert p == p'[i := p'[j]][j := p'[i]] && q == q'[i := q'[j]][j := q'[i]];
      }
    }
  }

  lemma TracksScale(F: Field, k: nat, A: Matrix, S: Matrix, V: Matrix, i: nat, c: byte)
    requires F.Lawful() && Shaped(A, k, k) && Shaped(S, k, k) && Shaped(V, k, k)
    requires Tracks(F, k, A, S, V) && i < k && c != 0
    ensures Tracks(F, k, A, ScaledRow(F, S, i, c), ScaledRow(F, V, i, c))
  {
    var S', V' := ScaledRow(F, S, i, c), ScaledRow(F, V, i, c);
    forall x: Vector, y: Vector | |x| == k && |y| == k
      ensures Meet(F, S', x, V', y) <==> Meet(F, S, x, V, y)
    {
      var p, q := Apply(F, S, x), Apply(F, V, y);
      DotScaled(F, S[i], c, x);
      DotScaled(F, V[i], c, y);
      Commutes(F, p[i], c);
      Commutes(F, q[i], c);
      MultiplyCancels(F, c, p[i], q[i]);
      OneEntryChanged(p, q, Apply(F, S', x), Apply(F, V', y), i);
    }
  }

  lemma TracksAdd(F: Field, k: nat, A: Matrix, S: Matrix, V: Matrix, i: nat, j: nat, c: byte)
    requires F.Lawful() && Shaped(A, k, k) && Shaped(S, k, k) && Shaped(V, k, k)
    requires Tracks(F, k, A, S, V) && i < k && j < k && i != j
    ensures Tracks(F, k, A, AddedRow(F, S, i, j, c), AddedRow(F, V, i, j, c))
  {
    var S', V' := AddedRow(F, S, i, j, c), AddedRow(F, V, i, j, c);
    forall x: Vector, y: Vector | |x| == k && |y| == k
      ensures Meet(F, S', x, V', y) <==> Meet(F, S, x, V, y)
    {
      var p, q := Apply(F, S, x), Apply(F, V, y);
      var p', q' := Apply(F, S', x), Apply(F, V', y);
      DotAddedMultiple(F, S[j], S[i], c, x);
      DotAddedMultiple(F, V[j], V[i], c, y);
      assert p' == p[j := p'[j]] && q' == q[j := q'[j]];
      if p[i] == q[i] {
        AddCancels(F, p[j], q[j], F.multiply(p[i], c));
        OneEntryChanged(p, q, p', q', j);
      } else {
        assert p'[i] == p[i] && q'[i] == q[i];
      }
    }
  }

  lemma OneEntryChanged(p: Vector, q: Vector, p': Vector, q': Vector, i: nat)
    requires |p| == |q| == |p'| == |q'| && i < |p|
    requires forall r :: 0 <= r < |p| && r != i ==> p'[r] == p[r] && q'[r] == q[r]
    requires p'[i] == q'[i] <==> p[i] == q[i]
    ensures p' == q' <==> p == q
  {
    if p' == q' {
      forall r | 0 <= r < |p| ensures p[r] == q[r] {
        assert p'[r] == q'[r];
      }
    }
    if p == q {
      forall r | 0 <= r < |p| ensures p'[r] == q'[r] {
        assert p[r] == q[r];
      }
    }
  }

  // ------------------------------------------------------ elimination outcomes

  /** Column c of S holds 1 on the diagonal and 0 below it. */
  ghost predicate EchelonColumn(k: nat, S: Matrix, c: nat)
    requires Shaped(S, k, k) && c < k
  {
    S[c][c] == 1 && forall r :: c < r < k ==> S[r][c] == 0
  }

  ghost predicate Echelon(k: nat, S: Matrix, columns: nat)
    requires Shaped(S, k, k) && columns <= k
  {
    forall c :: 0 <= c < columns ==> EchelonColumn(k, S, c)
  }

  lemma SolvedTracksGivesInverse(F: Field, k: nat, A: Matrix, V: Matrix)
    requires F.Lawful() && Shaped(A, k, k) && Shaped(V, k, k)
    requires Tracks(F, k, A, Identity(k), V)
    ensures Inverses(F, k, A, V) && NonSingular(F, k, A)
  {
    forall x: Vector | |x| == k ensures Apply(F, V, Apply(F, A, x)) == x {
      ApplyIdentity(F, x);
      assert Maps(F, A, x, Apply(F, A, x));
    }
    forall y: Vector | |y| == k ensures Apply(F, A, Apply(F, V, y)) == y {
      var x := Apply(F, V, y);
      ApplyIdentity(F, x);
      assert Meet(F, Identity(k), x, V, y) && Maps(F, A, x, y);
    }
    InvertibleIsNonSingular(F, k, A, V);
  }

  /** No pivot in column i: the first i columns solve for a kernel vector. */
  lemma StuckTracksGivesSingular(F: Field, k: nat, A: Matrix, S: Matrix, V: Matrix, i: nat)
    requires F.Lawful() && Shaped(A, k, k) && Shaped(S, k, k) && Shaped(V, k, k)
    requires Tracks(F, k, A, S, V) && i < k && Echelon(k, S, i)
    requires forall r :: i <= r < k ==> S[r][i] == 0
    ensures !NonSingular(F, k, A)
  {
    var x := KernelVector(F, k, S, i, 0);
    assert Apply(F, S, x) == Zeros(k);
    forall r | 0 <= r < k ensures Dot(F, V[r], Zeros(k)) == 0 {
      DotVanishes(F, V[r], Zeros(k));
    }
    assert Apply(F, V, Zeros(k)) == Zeros(k);
    assert Meet(F, S, x, V, Zeros(k)) && Maps(F, A, x, Zeros(k));
    assert x[i] != Zeros(k)[i];
  }

  lemma {:induction false} KernelVector(F: Field, k: nat, S: Matrix, i: nat, r: nat) returns (x: Vector)
    requires F.Lawful() && Shaped(S, k, k) && r <= i < k && Echelon(k, S, i)
    requires forall q :: i <= q < k ==> S[q][i] == 0
    ensures |x| == k && x[i] == 1
    ensures forall c :: 0 <= c < k && (c < r || c > i) ==> x[c] == 0
    ensures forall q :: r <= q < k ==> Dot(F, S[q], x) == 0
    decreases i - r
  {
    if r == i {
      x := UnitVector(k, i);
      forall q | i <= q < k ensures Dot(F, S[q], x) == 0 {
        DotUnit(F, k, i, S[q]);
      }
    } else {
      var x' := KernelVector(F, k, S, i, r + 1);
      var d := Dot(F, S[r], x');
      x := x'[r := d];
      assert EchelonColumn(k, S, r);
      forall q | r <= q < k ensures Dot(F, S[q], x) == 0 {
        DotUpdated(F, S[q], x', r, d);
        Units(F, d);
        Units(F, 0);
      }
    }
  }
}
