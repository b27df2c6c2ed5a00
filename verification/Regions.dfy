/** In-place operations on regions of byte buffers. */
module Regions {
  import opened GaloisField
  import opened LinearAlgebra
  import opened CodecSizes
  import opened ErasureCoding

  /** Everything outside the `size` bytes at `at` is as it was. */
  ghost predicate OnlyRegionChanged(before: Bytes, after: Bytes, at: nat, size: nat)
    requires at + size <= |before|
  {
    |after| == |before| && after[..at] == before[..at] && after[at + size..] == before[at + size..]
  }

  method CopyRegion(src: Bytes, dst: array<byte>, at: nat)
    requires at + |src| <= dst.Length
    modifies dst
    ensures OnlyRegionChanged(old(dst[..]), dst[..], at, |src|) && dst[at..at + |src|] == src
  {
    for p := 0 to |src|
      invariant dst[at..at + p] == src[..p]
      invariant dst[..at] == old(dst[..at]) && dst[at + |src|..] == old(dst[at + |src|..])
    {
      dst[at + p] := src[p];
    }
  }

  method ZeroRegion(dst: array<byte>, at: nat, size: nat)
    requires at + size <= dst.Length
    modifies dst
    ensures OnlyRegionChanged(old(dst[..]), dst[..], at, size) && dst[at..at + size] == Zeros(size)
  {
    for p := 0 to size
      invariant forall q :: at <= q < at + p ==> dst[q] == 0
      invariant dst[..at] == old(dst[..at]) && dst[at + size..] == old(dst[at + size..])
    {
      dst[at + p] := 0;
    }
  }

  function Blended(F: Field, coef: byte, src: Bytes, into: Bytes, accumulate: bool): (b: Bytes)
    requires |src| == |into|
    ensures |b| == |src|
    ensures forall p :: 0 <= p < |src| ==>
      b[p] == if accumulate then F.add(into[p], F.multiply(coef, src[p])) else F.multiply(coef, src[p])
  {
    seq(|src|, p requires 0 <= p < |src| =>
      if accumulate then F.add(into[p], F.multiply(coef, src[p])) else F.multiply(coef, src[p]))
  }

  /** Multiplies the region at `from` of `src` by a coefficient and stores it at
      `at` in `dst`, or adds it to what is there. */
  method MultiplyRegion(F: Field, src: array<byte>, from: nat, dst: array<byte>, at: nat,
                        coef: byte, size: nat, accumulate: bool)
    requires src != dst && from + size <= src.Length && at + size <= dst.Length
    modifies dst
    ensures OnlyRegionChanged(old(dst[..]), dst[..], at, size)
    ensures dst[at..at + size]
         == Blended(F, coef, src[from..from + size], old(dst[at..at + size]), accumulate)
  {
    ghost var want := Blended(F, coef, src[from..from + size], dst[at..at + size], accumulate);
    for p := 0 to size
      invariant dst[at..at + p] == want[..p]
      invariant dst[at + p..] == old(dst[at + p..])
      invariant dst[..at] == old(dst[..at])
    {
      var product := F.multiply(coef, src[from + p]);
      assert dst[at + p] == dst[at + p..][0] == old(dst[at + p..])[0];
      dst[at + p] := if accumulate then F.add(dst[at + p], product) else product;
      assert dst[at + p + 1..] == dst[at + p..][1..];
    }
  }

  /** Combines the k blocks of `src` with one row of coefficients into the region
      at `at` of `dst`: the first term overwrites, the others accumulate. */
  method CombineBlocks(F: Field, row: Vector, src: array<byte>, size: nat, dst: array<byte>, at: nat)
    requires F.Lawful() && src != dst && |row| > 0 && |row| * size <= src.Length && at + size <= dst.Length
    modifies dst
    ensures OnlyRegionChanged(old(dst[..]), dst[..], at, size)
    ensures dst[at..at + size] == Share(F, row, src[..], size)
  {
    var k := |row|;
    for j := 0 to k
      invariant j * size <= k * size
      invariant OnlyRegionChanged(old(dst[..]), dst[..], at, size)
      invariant j > 0 ==> dst[at..at + size] == Share(F, row[..j], src[..], size)
    {
      BlockFits(j, k, size);
      ghost var before := dst[at..at + size];
      MultiplyRegion(F, src, j * size, dst, at, row[j], size, j != 0);
      ShareStep(F, row, src[..], size, j, before, dst[at..at + size]);
    }
    assert row[..k] == row;
  }

  lemma ShareStep(F: Field, row: Vector, data: Bytes, size: nat, j: nat, before: Bytes, after: Bytes)
    requires F.Lawful() && j < |row| && |row| * size <= |data| && |before| == size
    requires j * size <= (j + 1) * size <= |row| * size
    requires j > 0 ==> before == Share(F, row[..j], data, size)
    requires after == Blended(F, row[j], data[j * size..j * size + size], before, j != 0)
    ensures after == Share(F, row[..j + 1], data, size)
  {
    forall p | 0 <= p < size ensures after[p] == Share(F, row[..j + 1], data, size)[p] {
      var x, u := Lane(data, j + 1, size, p), row[..j + 1];
      assert x[..j] == Lane(data, j, size, p) && u[..j] == row[..j];
      assert x[j] == data[j * size..j * size + size][p];
      assert Dot(F, u, x) == F.add(Dot(F, row[..j], Lane(data, j, size, p)), F.multiply(row[j], x[j]));
      if j == 0 {
        Units(F, F.multiply(u[j], x[j]));
      } else {
        assert before[p] == Dot(F, row[..j], Lane(data, j, size, p));
      }
    }
  }

  // ------------------------------------------------------------- all shares

  lemma OtherBlocksKept(before: Bytes, after: Bytes, i: nat, other: nat, size: nat)
    requires (i + 1) * size <= |before| && (other + 1) * size <= |before| && i != other
    requires i * size + size == (i + 1) * size
    requires OnlyRegionChanged(before, after, i * size, size)
    ensures Block(after, other, size) == Block(before, other, size)
  {
    hide Block, OnlyRegionChanged;
    SameLength(before, after, i * size, size);
    if other < i {
      MulMonotone(other + 1, i, size);
    } else {
      MulMonotone(i + 1, other, size);
    }
    BlockIs(before, other, size);
    BlockIs(after, other, size);
    KeptOutside(before, after, i * size, size, other * size, other * size + size);
  }

  lemma SameLength(before: Bytes, after: Bytes, at: nat, size: nat)
    requires at + size <= |before| && OnlyRegionChanged(before, after, at, size)
    ensures |after| == |before|
  {
  }

  lemma KeptOutside(before: Bytes, after: Bytes, at: nat, size: nat, low: nat, high: nat)
    requires at + size <= |before| && OnlyRegionChanged(before, after, at, size)
    requires low <= high <= |before| == |after| && (high <= at || at + size <= low)
    ensures after[low..high] == before[low..high]
  {
    forall j | low <= j < high
      ensures after[j] == before[j]
    {
      if high <= at {
        assert after[..at][j] == before[..at][j];
      } else {
        assert after[at + size..][j - at - size] == before[at + size..][j - at - size];
      }
    }
  }

  ghost predicate BlocksAreShares(F: Field, M: Matrix, k: nat, data: Bytes, size: nat, shares: Bytes, low: nat, high: nat)
    requires Shaped(M, |M|, k) && k * size <= |data| && |M| * size <= |shares| && high <= |M|
  {
    forall i {:trigger M[i]} :: low <= i < high ==>
      (i + 1) * size <= |shares| && Block(shares, i, size) == Share(F, M[i], data, size)
  }

  /** Stores in block i of `dst`, for each i from `first`, the share row i makes of `src`. */
  method CombineAll(F: Field, M: Matrix, k: nat, src: array<byte>, size: nat, dst: array<byte>, first: nat)
    requires F.Lawful() && src != dst && k > 0 && Shaped(M, |M|, k) && first <= |M|
    requires k * size <= src.Length && |M| * size <= dst.Length
    requires BlocksAreShares(F, M, k, src[..], size, dst[..], 0, first)
    modifies dst
    ensures HoldsShares(F, M, k, src[..], size, dst[..])
  {
    for i := first to |M|
      invariant BlocksAreShares(F, M, k, src[..], size, dst[..], 0, i)
    {
      CombineShare(F, M, k, src, size, dst, i);
    }
  }

  method CombineShare(F: Field, M: Matrix, k: nat, src: array<byte>, size: nat, dst: array<byte>, i: nat)
    requires F.Lawful() && src != dst && k > 0 && Shaped(M, |M|, k) && i < |M|
    requires k * size <= src.Length && |M| * size <= dst.Length
    requires BlocksAreShares(F, M, k, src[..], size, dst[..], 0, i)
    modifies dst
    ensures BlocksAreShares(F, M, k, src[..], size, dst[..], 0, i + 1)
  {
    BlockFits(i, |M|, size);
    var at := i * size;
    ghost var before := dst[..];
    CombineBlocks(F, M[i], src, size, dst, at);
    assert dst[..][at..at + size] == dst[at..at + size];
    OneMoreShare(F, M, k, src[..], size, before, dst[..], i);
  }

  lemma OneMoreShare(F: Field, M: Matrix, k: nat, data: Bytes, size: nat, before: Bytes, after: Bytes, i: nat)
    requires Shaped(M, |M|, k) && k * size <= |data| && |M| * size <= |before| && i < |M|
    requires i * size + size == (i + 1) * size <= |M| * size
    requires BlocksAreShares(F, M, k, data, size, before, 0, i)
    requires OnlyRegionChanged(before, after, i * size, size)
    requires after[i * size..i * size + size] == Share(F, M[i], data, size)
    ensures BlocksAreShares(F, M, k, data, size, after, 0, i + 1)
  {
    forall other {:trigger M[other]} | 0 <= other <= i
      ensures (other + 1) * size <= |after| && Block(after, other, size) == Share(F, M[other], data, size)
    {
      BlockFits(other, |M|, size);
      if other < i {
        OtherBlocksKept(before, after, i, other, size);
      }
    }
  }

  // ------------------------------------------------- buffers longer than needed

  lemma SharePrefix(F: Field, row: Vector, data: Bytes, size: nat)
    requires |row| * size <= |data|
    ensures Share(F, row, data, size) == Share(F, row, data[..|row| * size], size)
  {
    var k := |row|;
    forall p | 0 <= p < size ensures Lane(data, k, size, p) == Lane(data[..k * size], k, size, p) {
      LanePrefix(data, k, size, p);
    }
  }

  lemma LanePrefix(data: Bytes, k: nat, size: nat, p: nat)
    requires k * size <= |data| && p < size
    ensures Lane(data, k, size, p) == Lane(data[..k * size], k, size, p)
  {
    var x, y := Lane(data, k, size, p), Lane(data[..k * size], k, size, p);
    forall j | 0 <= j < k ensures x[j] == y[j] {
      BlockFits(j, k, size);
    }
  }

  /** Shares of a prefix, found in a prefix. */
  lemma HoldsSharesPrefix(F: Field, M: Matrix, k: nat, data: Bytes, size: nat, shares: Bytes)
    requires Shaped(M, |M|, k) && k * size <= |data| && |M| * size <= |shares|
    requires HoldsShares(F, M, k, data, size, shares)
    ensures HoldsShares(F, M, k, data[..k * size], size, shares[..|M| * size])
  {
    forall i {:trigger M[i]} | 0 <= i < |M|
      ensures (i + 1) * size <= |M| * size
      ensures Block(shares[..|M| * size], i, size) == Share(F, M[i], data[..k * size], size)
    {
      BlockFits(i, |M|, size);
      SharePrefix(F, M[i], data, size);
      assert Block(shares[..|M| * size], i, size) == Block(shares, i, size);
    }
  }

  lemma BlendOneIsAddition(F: Field, src: Bytes, into: Bytes)
    requires F.Lawful() && |src| == |into|
    ensures forall p :: 0 <= p < |src| ==> Blended(F, 1, src, into, true)[p] == F.add(into[p], src[p])
  {
    forall p | 0 <= p < |src| ensures Blended(F, 1, src, into, true)[p] == F.add(into[p], src[p]) {
      Units(F, src[p]);
    }
  }
}
