/** Spreading k data blocks over n shares with a distribution matrix, and getting
    the blocks back from any k shares. */
module ErasureCoding {
  import opened GaloisField
  import opened LinearAlgebra
  import opened CodecSizes

  type Bytes = seq<byte>

  /** The i-th block of `size` bytes of a buffer. */
  function Block(s: Bytes, i: nat, size: nat): (b: Bytes)
    requires (i + 1) * size <= |s|
    ensures |b| == size
  {
    assert i * size <= (i + 1) * size && (i + 1) * size - i * size == size;
    s[i * size..(i + 1) * size]
  }

  lemma BlockIs(s: Bytes, i: nat, size: nat)
    requires (i + 1) * size <= |s|
    ensures 0 <= i * size <= i * size + size <= |s| && Block(s, i, size) == s[i * size..i * size + size]
  {
    assert (i + 1) * size == i * size + size;
  }

  lemma BlockFits(i: nat, count: nat, size: nat)
    requires i < count
    ensures i * size <= (i + 1) * size == i * size + size <= count * size
  {
    MulMonotone(i + 1, count, size);
  }

  /** Byte p of each of the first k blocks. */
  function Lane(s: Bytes, k: nat, size: nat, p: nat): (x: Vector)
    requires k * size <= |s| && p < size
    ensures |x| == k
    ensures forall j {:trigger x[j]} :: 0 <= j < k ==> (j + 1) * size <= |s| && x[j] == Block(s, j, size)[p]
  {
    seq(k, j requires 0 <= j < k => BlockFits(j, k, size); Block(s, j, size)[p])
  }

  /** The share that `row` of the distribution matrix makes of k data blocks. */
  function Share(F: Field, row: Vector, data: Bytes, size: nat): (share: Bytes)
    requires |row| * size <= |data|
    ensures |share| == size
    ensures forall p :: 0 <= p < size ==> share[p] == Dot(F, row, Lane(data, |row|, size, p))
  {
    seq(size, p requires 0 <= p < size => Dot(F, row, Lane(data, |row|, size, p)))
  }

  /** Block i of `shares` is the share that row i of M makes of `data`. */
  ghost predicate HoldsShares(F: Field, M: Matrix, k: nat, data: Bytes, size: nat, shares: Bytes)
    requires Shaped(M, |M|, k) && k * size <= |data| && |M| * size <= |shares|
  {
    forall i {:trigger M[i]} :: 0 <= i < |M| ==>
      (i + 1) * size <= |shares| && Block(shares, i, size) == Share(F, M[i], data, size)
  }

  lemma ByteInBlock(s: Bytes, count: nat, size: nat, q: nat) returns (i: nat, p: nat)
    requires |s| == count * size && q < |s|
    ensures i < count && p < size && (i + 1) * size <= |s|
    ensures q == i * size + p && Block(s, i, size)[p] == s[q]
  {
    assert size > 0;
    i, p := q / size, q % size;
    assert q == i * size + p;
    if i >= count {
      MulMonotone(count, i, size);
    }
    BlockFits(i, count, size);
  }

  lemma SameBlocksSameBytes(s: Bytes, t: Bytes, count: nat, size: nat)
    requires |s| == |t| == count * size
    requires forall i {:trigger Block(s, i, size)} :: 0 <= i < count ==>
      (i + 1) * size <= |s| && Block(s, i, size) == Block(t, i, size)
    ensures s == t
  {
    forall q | 0 <= q < |s| ensures s[q] == t[q] {
      var i, p := ByteInBlock(s, count, size, q);
      assert Block(t, i, size)[p] == t[q];
    }
  }

  lemma SameLanesSameBytes(s: Bytes, t: Bytes, k: nat, size: nat)
    requires |s| == |t| == k * size
    requires forall p {:trigger Lane(s, k, size, p)} :: 0 <= p < size ==> Lane(s, k, size, p) == Lane(t, k, size, p)
    ensures s == t
  {
    forall i {:trigger Block(s, i, size)} | 0 <= i < k
      ensures (i + 1) * size <= |s| && Block(s, i, size) == Block(t, i, size)
    {
      BlockFits(i, k, size);
      forall p | 0 <= p < size ensures Block(s, i, size)[p] == Block(t, i, size)[p] {
        assert Lane(s, k, size, p)[i] == Lane(t, k, size, p)[i];
      }
    }
    SameBlocksSameBytes(s, t, k, size);
  }

  /** The data determines its shares. */
  lemma SharesUnique(F: Field, M: Matrix, k: nat, data: Bytes, size: nat, s: Bytes, t: Bytes)
    requires Shaped(M, |M|, k) && k * size <= |data| && |s| == |t| == |M| * size
    requires HoldsShares(F, M, k, data, size, s) && HoldsShares(F, M, k, data, size, t)
    ensures s == t
  {
    hide Share;
    forall i {:trigger Block(s, i, size)} | 0 <= i < |M|
      ensures (i + 1) * size <= |s| && Block(s, i, size) == Block(t, i, size)
    {
      BlockFits(i, |M|, size);
      assert M[i] == M[i];
    }
    SameBlocksSameBytes(s, t, |M|, size);
  }

  /** Lane by lane, A applied to the data gives the shares. */
  ghost predicate LanesMap(F: Field, A: Matrix, k: nat, data: Bytes, size: nat, shares: Bytes)
    requires Shaped(A, k, k) && |data| == |shares| == k * size
  {
    forall p {:trigger Lane(shares, k, size, p)} :: 0 <= p < size ==>
      Lane(shares, k, size, p) == Apply(F, A, Lane(data, k, size, p))
  }

  lemma SharesMapLanes(F: Field, A: Matrix, k: nat, data: Bytes, size: nat, shares: Bytes)
    requires Shaped(A, k, k) && |data| == |shares| == k * size && HoldsShares(F, A, k, data, size, shares)
    ensures LanesMap(F, A, k, data, size, shares)
  {
    forall p {:trigger Lane(shares, k, size, p)} | 0 <= p < size
      ensures Lane(shares, k, size, p) == Apply(F, A, Lane(data, k, size, p))
    {
      ShareBytes(F, A, k, data, size, shares, p);
    }
  }

  lemma ShareBytes(F: Field, A: Matrix, k: nat, data: Bytes, size: nat, shares: Bytes, p: nat)
    requires Shaped(A, k, k) && |data| == |shares| == k * size && HoldsShares(F, A, k, data, size, shares) && p < size
    ensures Lane(shares, k, size, p) == Apply(F, A, Lane(data, k, size, p))
  {
    var x, y := Lane(shares, k, size, p), Lane(data, k, size, p);
    forall i | 0 <= i < k ensures x[i] == Dot(F, A[i], y) {
      assert Block(shares, i, size) == Share(F, A[i], data, size);
    }
  }

  lemma MappedLanesAreShares(F: Field, A: Matrix, k: nat, data: Bytes, size: nat, shares: Bytes)
    requires Shaped(A, k, k) && |data| == |shares| == k * size && LanesMap(F, A, k, data, size, shares)
    ensures HoldsShares(F, A, k, data, size, shares)
  {
    forall i | 0 <= i < k
      ensures (i + 1) * size <= |shares| && Block(shares, i, size) == Share(F, A[i], data, size)
    {
      BlockFits(i, k, size);
      forall p | 0 <= p < size ensures Block(shares, i, size)[p] == Share(F, A[i], data, size)[p] {
        assert Lane(shares, k, size, p)[i] == Apply(F, A, Lane(data, k, size, p))[i];
      }
    }
  }

  lemma LanesMapBack(F: Field, A: Matrix, V: Matrix, k: nat, data: Bytes, size: nat, shares: Bytes)
    requires Shaped(A, k, k) && Shaped(V, k, k) && Undoes(F, k, V, A)
    requires |data| == |shares| == k * size && LanesMap(F, A, k, data, size, shares)
    ensures LanesMap(F, V, k, shares, size, data)
  {
    forall p {:trigger Lane(data, k, size, p)} | 0 <= p < size
      ensures Lane(data, k, size, p) == Apply(F, V, Lane(shares, k, size, p))
    {
      assert Lane(shares, k, size, p) == Apply(F, A, Lane(data, k, size, p));
    }
  }

  /** Applying the inverse matrix to the shares gives data that has those shares,
      and it is the only such data. */
  lemma LinearDecoding(F: Field, A: Matrix, V: Matrix, k: nat, shares: Bytes, size: nat, data: Bytes)
    requires F.Lawful() && Shaped(A, k, k) && Shaped(V, k, k) && Inverses(F, k, A, V)
    requires |shares| == |data| == k * size && HoldsShares(F, V, k, shares, size, data)
    ensures HoldsShares(F, A, k, data, size, shares)
    ensures forall other: Bytes :: |other| == k * size && HoldsShares(F, A, k, other, size, shares) ==> other == data
  {
    SharesMapLanes(F, V, k, shares, size, data);
    LanesMapBack(F, V, A, k, shares, size, data);
    MappedLanesAreShares(F, A, k, data, size, shares);
    forall other: Bytes | |other| == k * size && HoldsShares(F, A, k, other, size, shares) ensures other == data {
      SharesMapLanes(F, A, k, other, size, shares);
      LanesMapBack(F, A, V, k, other, size, shares);
      SameLanesSameBytes(other, data, k, size);
    }
  }
}
