/** Gauss-Jordan elimination in place over the field, as the decoders run it on
    `squareMatrix_` and `inverseMatrix_`. */
module MatrixInversion {
  import opened GaloisField
  import opened LinearAlgebra

  ghost function Rows(a: array2<byte>): (M: Matrix)
    reads a
    ensures Shaped(M, a.Length0, a.Length1)
    ensures forall r, c :: 0 <= r < a.Length0 && 0 <= c < a.Length1 ==> M[r][c] == a[r, c]
  {
    seq(a.Length0, r requires 0 <= r < a.Length0 reads a =>
      seq(a.Length1, c requires 0 <= c < a.Length1 reads a => a[r, c]))
  }

  ghost predicate IsSquare(a: array2<byte>, k: nat) {
    a.Length0 == k && a.Length1 == k
  }

  method MatrixOf(a: array2<byte>) returns (M: Matrix)
    ensures M == Rows(a)
  {
    M := seq(a.Length0, r requires 0 <= r < a.Length0 reads a =>
      seq(a.Length1, c requires 0 <= c < a.Length1 reads a => a[r, c]));
    forall r | 0 <= r < a.Length0 ensures M[r] == Rows(a)[r] {}
  }

  // --------------------------------------------------------- row operations

  method StoreIdentity(a: array2<byte>, k: nat)
    requires IsSquare(a, k)
    modifies a
    ensures Rows(a) == Identity(k)
  {
    for i := 0 to k
      invariant forall r, c :: 0 <= r < i && 0 <= c < k ==> a[r, c] == if r == c then 1 else 0
    {
      for j := 0 to k
        invariant forall r, c :: 0 <= r < i && 0 <= c < k ==> a[r, c] == if r == c then 1 else 0
        invariant forall c :: 0 <= c < j ==> a[i, c] == if i == c then 1 else 0
      {
        a[i, j] := if i == j then 1 else 0;
      }
    }
    forall r | 0 <= r < k ensures Rows(a)[r] == Identity(k)[r] {}
  }

  method SwapRows(a: array2<byte>, k: nat, i: nat, j: nat)
    requires IsSquare(a, k) && i < k && j < k && i != j
    modifies a
    ensures Rows(a) == SwappedRows(old(Rows(a)), i, j)
  {
    for h := 0 to k
      invariant forall c :: 0 <= c < h ==> a[i, c] == old(a[j, c]) && a[j, c] == old(a[i, c])
      invariant forall c :: h <= c < k ==> a[i, c] == old(a[i, c]) && a[j, c] == old(a[j, c])
      invariant forall r, c :: 0 <= r < k && r != i && r != j && 0 <= c < k ==> a[r, c] == old(a[r, c])
    {
      var tmp := a[i, h];
      a[i, h] := a[j, h];
      a[j, h] := tmp;
    }
    forall r | 0 <= r < k ensures Rows(a)[r] == SwappedRows(old(Rows(a)), i, j)[r] {}
  }

  method ScaleRow(F: Field, a: array2<byte>, k: nat, i: nat, factor: byte)
    requires IsSquare(a, k) && i < k
    modifies a
    ensures Rows(a) == ScaledRow(F, old(Rows(a)), i, factor)
  {
    for j := 0 to k
      invariant forall c :: 0 <= c < j ==> a[i, c] == F.multiply(old(a[i, c]), factor)
      invariant forall c :: j <= c < k ==> a[i, c] == old(a[i, c])
      invariant forall r, c :: 0 <= r < k && r != i && 0 <= c < k ==> a[r, c] == old(a[r, c])
    {
      a[i, j] := F.multiply(a[i, j], factor);
    }
    forall r | 0 <= r < k ensures Rows(a)[r] == ScaledRow(F, old(Rows(a)), i, factor)[r] {}
  }

  /** Adds `factor` times row i to row j; a factor of one is not multiplied in. */
  method AddRow(F: Field, a: array2<byte>, k: nat, i: nat, j: nat, factor: byte)
    requires F.Lawful() && IsSquare(a, k) && i < k && j < k && i != j
    modifies a
    ensures Rows(a) == AddedRow(F, old(Rows(a)), i, j, factor)
  {
    for l := 0 to k
      invariant forall c :: 0 <= c < l ==> a[j, c] == F.add(old(a[j, c]), F.multiply(old(a[i, c]), factor))
      invariant forall c :: l <= c < k ==> a[j, c] == old(a[j, c])
      invariant forall r, c :: 0 <= r < k && r != j && 0 <= c < k ==> a[r, c] == old(a[r, c])
    {
      if factor == 1 {
        Units(F, a[i, l]);
        a[j, l] := F.add(a[j, l], a[i, l]);
      } else {
        a[j, l] := F.add(a[j, l], F.multiply(a[i, l], factor));
      }
    }
    forall r | 0 <= r < k ensures Rows(a)[r] == AddedRow(F, old(Rows(a)), i, j, factor)[r] {}
  }

  // ------------------------------------------- what they do to the triangle

  lemma EchelonSwap(k: nat, S: Matrix, i: nat, j: nat)
    requires Shaped(S, k, k) && i < k && i <= j < k && Echelon(k, S, i)
    ensures Echelon(k, SwappedRows(S, i, j), i)
  {
    forall c | 0 <= c < i ensures EchelonColumn(k, SwappedRows(S, i, j), c) {
      assert EchelonColumn(k, S, c);
    }
  }

  lemma EchelonScale(F: Field, k: nat, S: Matrix, i: nat, c: byte)
    requires F.Lawful() && Shaped(S, k, k) && i < k && Echelon(k, S, i)
    ensures Echelon(k, ScaledRow(F, S, i, c), i)
  {
    Units(F, c);
    forall p | 0 <= p < i ensures EchelonColumn(k, ScaledRow(F, S, i, c), p) {
      assert EchelonColumn(k, S, p);
    }
  }

  lemma EchelonAdd(F: Field, k: nat, S: Matrix, i: nat, j: nat, c: byte)
    requires F.Lawful() && Shaped(S, k, k) && i < j < k && Echelon(k, S, i)
    ensures Echelon(k, AddedRow(F, S, i, j, c), i)
  {
    Units(F, c);
    Units(F, 0);
    forall p | 0 <= p < i ensures EchelonColumn(k, AddedRow(F, S, i, j, c), p) {
      assert EchelonColumn(k, S, p);
    }
  }

  lemma AddClearsEntry(F: Field, k: nat, S: Matrix, i: nat, j: nat)
    requires F.Lawful() && Shaped(S, k, k) && i < k && j < k && i != j && S[i][i] == 1
    ensures AddedRow(F, S, i, j, S[j][i])[j][i] == 0
  {
    Units(F, S[j][i]);
  }

  /** Once row i is a unit row, adding a multiple of it changes one entry only. */
  lemma AddUnitRow(F: Field, k: nat, S: Matrix, i: nat, j: nat)
    requires F.Lawful() && Shaped(S, k, k) && i < k && j < k && i != j && S[i] == UnitVector(k, i)
    ensures AddedRow(F, S, i, j, S[j][i]) == S[j := S[j][i := 0]]
  {
    var c := S[j][i];
    Units(F, c);
    forall l | 0 <= l < k ensures F.add(S[j][l], F.multiply(S[i][l], c)) == S[j][i := 0][l] {
      Units(F, S[j][l]);
    }
    assert AddedMultiple(F, S[j], S[i], c) == S[j][i := 0];
  }

  // ------------------------------------------------------------ elimination

  /** Puts a one on the diagonal of column i, or finds that no row below can. */
  method Pivot(F: Field, k: nat, sq: array2<byte>, inv: array2<byte>, i: nat, ghost A: Matrix) returns (found: bool)
    requires F.Lawful() && IsSquare(sq, k) && IsSquare(inv, k) && sq != inv && i < k && Shaped(A, k, k)
    requires Tracks(F, k, A, Rows(sq), Rows(inv)) && Echelon(k, Rows(sq), i)
    modifies sq, inv
    ensures !found ==> !NonSingular(F, k, A)
    ensures found ==> Rows(sq)[i][i] == 1 && Tracks(F, k, A, Rows(sq), Rows(inv)) && Echelon(k, Rows(sq), i)
  {
    if sq[i, i] == 0 {
      var j := i + 1;
      while j < k && sq[j, i] == 0
        invariant i < j <= k && forall r :: i <= r < j ==> sq[r, i] == 0
      {
        j := j + 1;
      }
      if j == k {
        StuckTracksGivesSingular(F, k, A, Rows(sq), Rows(inv), i);
        return false;
      }
      TracksSwap(F, k, A, Rows(sq), Rows(inv), i, j);
      EchelonSwap(k, Rows(sq), i, j);
      SwapRows(sq, k, i, j);
      SwapRows(inv, k, i, j);
      assert Rows(sq)[i][i] != 0;
    }
    var tmp := sq[i, i];
    if tmp != 1 {
      var factor := F.divide(1, tmp);
      ReciprocalLaw(F, tmp);
      TracksScale(F, k, A, Rows(sq), Rows(inv), i, factor);
      EchelonScale(F, k, Rows(sq), i, factor);
      ScaleRow(F, sq, k, i, factor);
      ScaleRow(F, inv, k, i, factor);
      assert Rows(sq)[i][i] == 1;
    }
    return true;
  }

  /** Column i of S holds zeros in the rows from `low` up to, not including, `high`. */
  ghost predicate ColumnClear(k: nat, S: Matrix, i: nat, low: nat, high: nat)
    requires Shaped(S, k, k) && i < k && high <= k
  {
    forall r :: low <= r < high ==> S[r][i] == 0
  }

  lemma ClearBelowStep(F: Field, k: nat, A: Matrix, S: Matrix, V: Matrix, i: nat, j: nat)
    requires F.Lawful() && Shaped(A, k, k) && Shaped(S, k, k) && Shaped(V, k, k) && i < j < k && S[i][i] == 1
    requires Tracks(F, k, A, S, V) && Echelon(k, S, i) && ColumnClear(k, S, i, i + 1, j)
    ensures var S' := AddedRow(F, S, i, j, S[j][i]);
      && Tracks(F, k, A, S', AddedRow(F, V, i, j, S[j][i]))
      && S'[i][i] == 1 && Echelon(k, S', i) && ColumnClear(k, S', i, i + 1, j + 1)
  {
    TracksAdd(F, k, A, S, V, i, j, S[j][i]);
    EchelonAdd(F, k, S, i, j, S[j][i]);
    AddClearsEntry(F, k, S, i, j);
  }

  /** Elimination below the diagonal of column i, done for the rows up to j. */
  ghost predicate Triangulating(F: Field, k: nat, A: Matrix, S: Matrix, V: Matrix, i: nat, j: nat)
    requires Shaped(A, k, k) && Shaped(S, k, k) && Shaped(V, k, k) && i < j <= k
  {
    && Tracks(F, k, A, S, V)
    && S[i][i] == 1
    && Echelon(k, S, i)
    && ColumnClear(k, S, i, i + 1, j)
  }

  method ClearEntryBelow(F: Field, k: nat, sq: array2<byte>, inv: array2<byte>, i: nat, j: nat, ghost A: Matrix)
    requires F.Lawful() && IsSquare(sq, k) && IsSquare(inv, k) && sq != inv && i < j < k && Shaped(A, k, k)
    requires Triangulating(F, k, A, Rows(sq), Rows(inv), i, j)
    modifies sq, inv
    ensures Triangulating(F, k, A, Rows(sq), Rows(inv), i, j + 1)
  {
    hide Tracks, Echelon, Field.Lawful;
    var factor := sq[j, i];
    if factor != 0 {
      ClearBelowStep(F, k, A, Rows(sq), Rows(inv), i, j);
      AddRow(F, sq, k, i, j, factor);
      AddRow(F, inv, k, i, j, factor);
    }
  }

  method ClearBelow(F: Field, k: nat, sq: array2<byte>, inv: array2<byte>, i: nat, ghost A: Matrix)
    requires F.Lawful() && IsSquare(sq, k) && IsSquare(inv, k) && sq != inv && i < k && Shaped(A, k, k)
    requires Rows(sq)[i][i] == 1 && Tracks(F, k, A, Rows(sq), Rows(inv)) && Echelon(k, Rows(sq), i)
    modifies sq, inv
    ensures Tracks(F, k, A, Rows(sq), Rows(inv)) && Echelon(k, Rows(sq), i + 1)
  {
    for j := i + 1 to k
      invariant Triangulating(F, k, A, Rows(sq), Rows(inv), i, j)
    {
      ClearEntryBelow(F, k, sq, inv, i, j, A);
    }
    EchelonExtends(k, Rows(sq), i);
  }

  lemma EchelonExtends(k: nat, S: Matrix, i: nat)
    requires Shaped(S, k, k) && i < k && Echelon(k, S, i) && S[i][i] == 1 && ColumnClear(k, S, i, i + 1, k)
    ensures Echelon(k, S, i + 1)
  {
    assert EchelonColumn(k, S, i);
  }

  /** Rows of the triangle whose columns beyond `from` are already identity columns. */
  ghost predicate SolvedBeyond(k: nat, S: Matrix, from: int)
    requires Shaped(S, k, k)
  {
    forall r, c :: 0 <= r < c < k && from < c ==> S[r][c] == 0
  }

  lemma UnitRow(k: nat, S: Matrix, i: nat)
    requires Shaped(S, k, k) && i < k && Echelon(k, S, k) && SolvedBeyond(k, S, i)
    ensures S[i] == UnitVector(k, i)
  {
    forall c | 0 <= c < k ensures S[i][c] == UnitVector(k, i)[c] {
      assert EchelonColumn(k, S, c);
    }
  }

  lemma EchelonZeroAbove(k: nat, S: Matrix, i: nat, j: nat)
    requires Shaped(S, k, k) && j < i < k && Echelon(k, S, k)
    ensures Echelon(k, S[j := S[j][i := 0]], k)
  {
    var S' := S[j := S[j][i := 0]];
    forall c | 0 <= c < k ensures EchelonColumn(k, S', c) {
      assert EchelonColumn(k, S, c);
    }
  }

  /** Clearing one entry above the diagonal is the row operation it stands for,
      because the row that would be added is a unit row. */
  lemma ClearAboveStep(F: Field, k: nat, A: Matrix, S: Matrix, V: Matrix, i: nat, j: nat)
    requires F.Lawful() && Shaped(A, k, k) && Shaped(S, k, k) && Shaped(V, k, k) && j < i < k
    requires Tracks(F, k, A, S, V) && Echelon(k, S, k) && SolvedBeyond(k, S, i) && ColumnClear(k, S, i, 0, j)
    ensures var S' := S[j := S[j][i := 0]];
      && Tracks(F, k, A, S', AddedRow(F, V, i, j, S[j][i]))
      && Echelon(k, S', k) && SolvedBeyond(k, S', i) && ColumnClear(k, S', i, 0, j + 1)
  {
    UnitRow(k, S, i);
    TracksAdd(F, k, A, S, V, i, j, S[j][i]);
    AddUnitRow(F, k, S, i, j);
    EchelonZeroAbove(k, S, i, j);
  }

  method ZeroEntry(a: array2<byte>, k: nat, j: nat, i: nat)
    requires IsSquare(a, k) && i < k && j < k
    modifies a
    ensures Rows(a) == old(Rows(a))[j := old(Rows(a))[j][i := 0]]
  {
    a[j, i] := 0;
    forall r | 0 <= r < k ensures Rows(a)[r] == old(Rows(a))[j := old(Rows(a))[j][i := 0]][r] {}
  }

  /** Elimination above the diagonal of column i, done for the rows below j. */
  ghost predicate Reducing(F: Field, k: nat, A: Matrix, S: Matrix, V: Matrix, i: nat, j: nat)
    requires Shaped(A, k, k) && Shaped(S, k, k) && Shaped(V, k, k) && j <= i < k
  {
    && Tracks(F, k, A, S, V)
    && Echelon(k, S, k)
    && SolvedBeyond(k, S, i)
    && ColumnClear(k, S, i, 0, j)
  }

  method ClearEntryAbove(F: Field, k: nat, sq: array2<byte>, inv: array2<byte>, i: nat, j: nat, ghost A: Matrix)
    requires F.Lawful() && IsSquare(sq, k) && IsSquare(inv, k) && sq != inv && j < i < k && Shaped(A, k, k)
    requires Reducing(F, k, A, Rows(sq), Rows(inv), i, j)
    modifies sq, inv
    ensures Reducing(F, k, A, Rows(sq), Rows(inv), i, j + 1)
  {
    hide Tracks, Echelon, SolvedBeyond, Field.Lawful;
    var factor := sq[j, i];
    if factor != 0 {
      ClearAboveStep(F, k, A, Rows(sq), Rows(inv), i, j);
      AddRow(F, inv, k, i, j, factor);
      ZeroEntry(sq, k, j, i);
    }
  }

  method ClearAbove(F: Field, k: nat, sq: array2<byte>, inv: array2<byte>, i: nat, ghost A: Matrix)
    requires F.Lawful() && IsSquare(sq, k) && IsSquare(inv, k) && sq != inv && i < k && Shaped(A, k, k)
    requires Tracks(F, k, A, Rows(sq), Rows(inv)) && Echelon(k, Rows(sq), k) && SolvedBeyond(k, Rows(sq), i)
    modifies sq, inv
    ensures Tracks(F, k, A, Rows(sq), Rows(inv)) && Echelon(k, Rows(sq), k) && SolvedBeyond(k, Rows(sq), i - 1)
  {
    for j := 0 to i
      invariant Reducing(F, k, A, Rows(sq), Rows(inv), i, j)
    {
      ClearEntryAbove(F, k, sq, inv, i, j, A);
    }
    SolvedExtends(k, Rows(sq), i);
  }

  lemma SolvedExtends(k: nat, S: Matrix, i: nat)
    requires Shaped(S, k, k) && i < k && SolvedBeyond(k, S, i) && ColumnClear(k, S, i, 0, i)
    ensures SolvedBeyond(k, S, i - 1)
  {
  }

  method SquareMatrixInverting(F: Field, k: nat, sq: array2<byte>, inv: array2<byte>) returns (invertible: bool)
    requires F.Lawful() && IsSquare(sq, k) && IsSquare(inv, k) && sq != inv
    modifies sq, inv
    ensures invertible <==> NonSingular(F, k, old(Rows(sq)))
    ensures invertible ==> Inverses(F, k, old(Rows(sq)), Rows(inv)) && Rows(sq) == Identity(k)
    ensures invertible ==> Product(F, k, Rows(inv), old(Rows(sq))) == Identity(k) == Product(F, k, old(Rows(sq)), Rows(inv))
  {
    ghost var A := Rows(sq);
    StoreIdentity(inv, k);
    TracksInitially(F, k, A);
    for i := 0 to k
      invariant Tracks(F, k, A, Rows(sq), Rows(inv)) && Echelon(k, Rows(sq), i)
    {
      var found := Pivot(F, k, sq, inv, i, A);
      if !found {
        return false;
      }
      ClearBelow(F, k, sq, inv, i, A);
    }
    var i := k;
    while i > 0
      invariant 0 <= i <= k
      invariant Tracks(F, k, A, Rows(sq), Rows(inv)) && Echelon(k, Rows(sq), k) && SolvedBeyond(k, Rows(sq), i - 1)
    {
      i := i - 1;
      ClearAbove(F, k, sq, inv, i, A);
    }
    forall r | 0 <= r < k ensures Rows(sq)[r] == Identity(k)[r] {
      UnitRow(k, Rows(sq), r);
    }
    assert Rows(sq) == Identity(k);
    SolvedTracksGivesInverse(F, k, A, Rows(inv));
    InversesMultiplyToIdentity(F, k, A, Rows(inv));
    return true;
  }
}
