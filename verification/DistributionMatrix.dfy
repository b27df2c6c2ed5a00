/** The two distribution matrices of the codec, and the property its decoders
    rely on: any k distinct rows form an invertible matrix. */
module DistributionMatrix {
  import opened GaloisField
  import opened Lists
  import opened LinearAlgebra
  import opened Cauchy

  /** The poles base, base + 1, ... of a Cauchy block with k columns. */
  function Poles(base: nat, k: nat): (b: seq<byte>)
    requires base + k <= 256
    ensures |b| == k && forall j :: 0 <= j < k ==> b[j] == (base + j) as byte
  {
    seq(k, j requires 0 <= j < k => (base + j) as byte)
  }

  /** n * k Cauchy matrix, used by the information dispersal of CRSSS. */
  function DispersalMatrix(F: Field, n: nat, k: nat): (D: Matrix)
    requires n + k <= 256
    ensures Shaped(D, n, k)
    ensures forall i :: 0 <= i < n ==> D[i] == CauchyRow(F, i as byte, Poles(n, k))
  {
    seq(n, i requires 0 <= i < n => CauchyRow(F, i as byte, Poles(n, k)))
  }

  /** k rows of the identity above an m * k Cauchy block, n == k + m. */
  function SystematicMatrix(F: Field, n: nat, k: nat): (D: Matrix)
    requires k <= n <= 256
    ensures Shaped(D, n, k)
    ensures forall i :: 0 <= i < k ==> D[i] == UnitVector(k, i)
    ensures forall i :: k <= i < n ==> D[i] == CauchyRow(F, (i - k) as byte, Poles(n - k, k))
  {
    Identity(k) + seq(n - k, i requires 0 <= i < n - k => CauchyRow(F, i as byte, Poles(n - k, k)))
  }

  ghost predicate ShareIds(ids: seq<nat>, n: nat, k: nat) {
    |ids| == k && NoRepeats(ids) && forall i :: 0 <= i < k ==> ids[i] < n
  }

  function SelectedRows(D: Matrix, ids: seq<nat>, k: nat): (A: Matrix)
    requires forall i :: 0 <= i < |ids| ==> ids[i] < |D| && |D[ids[i]]| == k
    ensures Shaped(A, |ids|, k)
    ensures forall i :: 0 <= i < |ids| ==> A[i] == D[ids[i]]
  {
    seq(|ids|, i requires 0 <= i < |ids| => D[ids[i]])
  }

  lemma AnyRowsOfDispersalMatrixInvertible(F: Field, n: nat, k: nat, ids: seq<nat>)
    requires F.Lawful() && n + k <= 256 && ShareIds(ids, n, k)
    ensures NonSingular(F, k, SelectedRows(DispersalMatrix(F, n, k), ids, k))
  {
    var A := SelectedRows(DispersalMatrix(F, n, k), ids, k);
    var a := seq(k, i requires 0 <= i < k => ids[i] as byte);
    forall x: Vector | |x| == k && Apply(F, A, x) == Zeros(k) ensures x == Zeros(k) {
      forall i | 0 <= i < k ensures Dot(F, CauchyRow(F, a[i], Poles(n, k)), x) == 0 {
        assert Apply(F, A, x)[i] == 0;
      }
      CauchyKernelIsZero(F, a, Poles(n, k), x);
    }
  }

  // -------------------------------------------- identity rows and Cauchy rows

  /** The columns below k whose identity row is not among the selected ids. */
  function Uncovered(ids: seq<nat>, k: nat): (cols: seq<nat>)
    ensures forall p :: 0 <= p < |cols| ==> cols[p] < k && cols[p] !in ids
  {
    if k == 0 then []
    else Uncovered(ids, k - 1) + if k - 1 in ids then [] else [k - 1]
  }

  lemma {:induction false} UncoveredDistinct(ids: seq<nat>, k: nat)
    ensures NoRepeats(Uncovered(ids, k))
  {
    if k > 0 {
      UncoveredDistinct(ids, k - 1);
    }
  }

  /** The selected ids that name a Cauchy row. */
  function ParityIds(ids: seq<nat>, k: nat): (parity: seq<nat>)
    ensures forall p :: 0 <= p < |parity| ==> parity[p] >= k && parity[p] in ids
  {
    if ids == [] then []
    else
      var n := |ids| - 1;
      ParityIds(ids[..n], k) + if ids[n] >= k then [ids[n]] else []
  }

  lemma {:induction false} ParityIdsDistinct(ids: seq<nat>, k: nat)
    requires NoRepeats(ids)
    ensures NoRepeats(ParityIds(ids, k))
  {
    if ids != [] {
      ParityIdsDistinct(ids[..|ids| - 1], k);
    }
  }

  lemma {:induction false} CoveringOneMore(ids: seq<nat>, d: nat, k: nat)
    requires d !in ids
    ensures |Uncovered(ids + [d], k)| == |Uncovered(ids, k)| - if d < k then 1 else 0
  {
    if k > 0 {
      CoveringOneMore(ids, d, k - 1);
      assert k - 1 in ids + [d] <==> k - 1 in ids || k - 1 == d;
    }
  }

  lemma {:induction false} NothingCovered(k: nat)
    ensures |Uncovered([], k)| == k
  {
    if k > 0 {
      NothingCovered(k - 1);
    }
  }

  /** As many unknowns remain as Cauchy rows were selected. */
  lemma {:induction false} UncoveredCount(ids: seq<nat>, k: nat)
    requires NoRepeats(ids)
    ensures |Uncovered(ids, k)| + |ids| == k + |ParityIds(ids, k)|
  {
    if ids == [] {
      NothingCovered(k);
    } else {
      var n := |ids| - 1;
      UncoveredCount(ids[..n], k);
      CoveringOneMore(ids[..n], ids[n], k);
      assert ids == ids[..n] + [ids[n]];
    }
  }

  function Picked(v: Vector, cols: seq<nat>): (w: Vector)
    requires forall p :: 0 <= p < |cols| ==> cols[p] < |v|
    ensures |w| == |cols| && forall p :: 0 <= p < |cols| ==> w[p] == v[cols[p]]
  {
    seq(|cols|, p requires 0 <= p < |cols| => v[cols[p]])
  }

  lemma {:induction false} DotOverUncovered(F: Field, ids: seq<nat>, u: Vector, x: Vector, k: nat)
    requires F.Lawful() && |u| == |x| == k
    requires forall c :: 0 <= c < k && c in ids ==> x[c] == 0
    ensures Dot(F, u, x) == Dot(F, Picked(u, Uncovered(ids, k)), Picked(x, Uncovered(ids, k)))
  {
    if k > 0 {
      var n := k - 1;
      var cols := Uncovered(ids, n);
      DotOverUncovered(F, ids, u[..n], x[..n], n);
      assert Picked(u[..n], cols) == Picked(u, cols);
      assert Picked(x[..n], cols) == Picked(x, cols);
      if n in ids {
        Units(F, u[n]);
        Units(F, Dot(F, u[..n], x[..n]));
        assert Uncovered(ids, k) == cols;
      } else {
        assert Uncovered(ids, k) == cols + [n];
        PickedExtended(u, cols, n);
        PickedExtended(x, cols, n);
        DotExtended(F, Picked(u, cols), u[n], Picked(x, cols), x[n]);
      }
    }
  }

  lemma PickedExtended(v: Vector, cols: seq<nat>, n: nat)
    requires n < |v| && forall p :: 0 <= p < |cols| ==> cols[p] < |v|
    ensures Picked(v, cols + [n]) == Picked(v, cols) + [v[n]]
  {
  }

  lemma DotExtended(F: Field, u: Vector, u': byte, x: Vector, x': byte)
    requires |u| == |x|
    ensures Dot(F, u + [u'], x + [x']) == F.add(Dot(F, u, x), F.multiply(u', x'))
  {
    assert (u + [u'])[..|u|] == u && (x + [x'])[..|x|] == x;
  }

  lemma AnyRowsOfSystematicMatrixInvertible(F: Field, n: nat, k: nat, ids: seq<nat>)
    requires F.Lawful() && k <= n <= 256 && ShareIds(ids, n, k)
    ensures NonSingular(F, k, SelectedRows(SystematicMatrix(F, n, k), ids, k))
  {
    var A := SelectedRows(SystematicMatrix(F, n, k), ids, k);
    forall x: Vector | |x| == k && Apply(F, A, x) == Zeros(k) ensures x == Zeros(k) {
      SystematicKernelIsZero(F, n, k, ids, x);
    }
  }

  lemma SelectedRowsVanish(F: Field, n: nat, k: nat, ids: seq<nat>, x: Vector)
    requires k <= n <= 256 && ShareIds(ids, n, k) && |x| == k
    requires Apply(F, SelectedRows(SystematicMatrix(F, n, k), ids, k), x) == Zeros(k)
    ensures forall id :: id in ids ==> Dot(F, SystematicMatrix(F, n, k)[id], x) == 0
  {
    hide Dot;
    forall id | id in ids ensures Dot(F, SystematicMatrix(F, n, k)[id], x) == 0 {
      var i :| 0 <= i < k && ids[i] == id;
      assert Apply(F, SelectedRows(SystematicMatrix(F, n, k), ids, k), x)[i] == 0;
    }
  }

  lemma SystematicKernelIsZero(F: Field, n: nat, k: nat, ids: seq<nat>, x: Vector)
    requires F.Lawful() && k <= n <= 256 && ShareIds(ids, n, k) && |x| == k
    requires Apply(F, SelectedRows(SystematicMatrix(F, n, k), ids, k), x) == Zeros(k)
    ensures x == Zeros(k)
  {
    hide Dot, Apply, SelectedRows;
    SelectedRowsVanish(F, n, k, ids, x);
    forall c | 0 <= c < k && c in ids ensures x[c] == 0 {
      DotUnit(F, k, c, x);
    }
    var cols := Uncovered(ids, k);
    CauchyRowsFixUncovered(F, n, k, ids, x);
    forall c | 0 <= c < k ensures x[c] == 0 {
      if c !in ids {
        UncoveredFinds(ids, k, c);
        var p :| 0 <= p < |cols| && cols[p] == c;
        assert Picked(x, cols)[p] == 0;
      }
    }
  }

  /** The Cauchy rows alone force the unknowns that no identity row covers. */
  lemma CauchyRowsFixUncovered(F: Field, n: nat, k: nat, ids: seq<nat>, x: Vector)
    requires F.Lawful() && k <= n <= 256 && ShareIds(ids, n, k) && |x| == k
    requires forall id :: id in ids ==> Dot(F, SystematicMatrix(F, n, k)[id], x) == 0
    requires forall c :: 0 <= c < k && c in ids ==> x[c] == 0
    ensures Picked(x, Uncovered(ids, k)) == Zeros(|Uncovered(ids, k)|)
  {
    var cols, b := Uncovered(ids, k), Poles(n - k, k);
    var a := Points(ids, n, k);
    UncoveredCount(ids, k);
    PointsAndPoles(ids, n, k);
    forall i | 0 <= i < |a| ensures Dot(F, CauchyRow(F, a[i], Picked(b, cols)), Picked(x, cols)) == 0 {
      assert SystematicMatrix(F, n, k)[ParityIds(ids, k)[i]] == CauchyRow(F, a[i], b);
      CauchyRowOverUncovered(F, b, ids, x, a[i], k);
    }
    CauchyKernelIsZero(F, a, Picked(b, cols), Picked(x, cols));
  }

  /** The evaluation points of the selected Cauchy rows. */
  function Points(ids: seq<nat>, n: nat, k: nat): (a: seq<byte>)
    requires k <= n <= 256 && forall i :: 0 <= i < |ids| ==> ids[i] < n
    ensures |a| == |ParityIds(ids, k)|
    ensures forall i :: 0 <= i < |a| ==> a[i] as int == ParityIds(ids, k)[i] - k
  {
    seq(|ParityIds(ids, k)|, i requires 0 <= i < |ParityIds(ids, k)| => (ParityIds(ids, k)[i] - k) as byte)
  }

  lemma PointsAndPoles(ids: seq<nat>, n: nat, k: nat)
    requires k <= n <= 256 && ShareIds(ids, n, k)
    ensures NoRepeats(Points(ids, n, k))
    ensures NoRepeats(Picked(Poles(n - k, k), Uncovered(ids, k)))
    ensures Apart(Points(ids, n, k), Picked(Poles(n - k, k), Uncovered(ids, k)))
  {
    ParityIdsDistinct(ids, k);
    UncoveredDistinct(ids, k);
  }

  lemma CauchyRowOverUncovered(F: Field, b: seq<byte>, ids: seq<nat>, x: Vector, z: byte, k: nat)
    requires F.Lawful() && |x| == |b| == k
    requires forall c :: 0 <= c < k && c in ids ==> x[c] == 0
    ensures Dot(F, CauchyRow(F, z, b), x)
         == Dot(F, CauchyRow(F, z, Picked(b, Uncovered(ids, k))), Picked(x, Uncovered(ids, k)))
  {
    var row := CauchyRow(F, z, b);
    assert Picked(row, Uncovered(ids, k)) == CauchyRow(F, z, Picked(b, Uncovered(ids, k))) by {
      PickedCauchyRow(F, z, b, Uncovered(ids, k));
    }
    DotOverUncovered(F, ids, row, x, k);
  }

  lemma PickedCauchyRow(F: Field, z: byte, b: seq<byte>, cols: seq<nat>)
    requires forall p :: 0 <= p < |cols| ==> cols[p] < |b|
    ensures Picked(CauchyRow(F, z, b), cols) == CauchyRow(F, z, Picked(b, cols))
  {
  }

  lemma {:induction false} UncoveredFinds(ids: seq<nat>, k: nat, c: nat)
    requires c < k && c !in ids
    ensures c in Uncovered(ids, k)
  {
    if c < k - 1 {
      UncoveredFinds(ids, k - 1, c);
    }
  }
}
