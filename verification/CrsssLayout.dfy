/** Filling and reading the CRSSS data blocks one word at a time. */
module CrsssLayout {
  import opened ErasureCoding
  import opened Regions
  import opened Packaging

  /** Where word q of block o starts. */
  function CellStart(stride: nat, w: nat, o: nat, q: nat): (at: nat) {
    o * stride + q * w
  }

  lemma CellAt(s: Bytes, outer: nat, stride: nat, inner: nat, w: nat, o: nat, q: nat)
    requires |s| == outer * stride && stride == inner * w && o < outer && q < inner
    ensures CellStart(stride, w, o, q) + w <= |s|
    ensures Cell(s, outer, stride, inner, w, o, q) == s[CellStart(stride, w, o, q)..CellStart(stride, w, o, q) + w]
  {
    hide Block;
    BlockFits(o, outer, stride);
    BlockFits(q, inner, w);
    BlockIs(s, o, stride);
    BlockIs(Block(s, o, stride), q, w);
    SliceOfSlice(s, o * stride, o * stride + stride, q * w, q * w + w);
  }

  lemma SliceOfSlice(s: Bytes, a: nat, b: nat, c: nat, d: nat)
    requires a <= b <= |s| && c <= d <= b - a
    ensures s[a..b][c..d] == s[a + c..a + d]
  {
    var t := s[a..b];
    forall i | 0 <= i < d - c ensures t[c..d][i] == s[a + c..a + d][i] {
      assert t[c..d][i] == t[c + i];
    }
  }

  lemma CellsApart(stride: nat, inner: nat, w: nat, o: nat, q: nat, o': nat, q': nat)
    requires stride == inner * w && q < inner && q' < inner && (o != o' || q != q')
    ensures CellStart(stride, w, o, q) + w <= CellStart(stride, w, o', q')
         || CellStart(stride, w, o', q') + w <= CellStart(stride, w, o, q)
  {
    BlockFits(q, inner, w);
    BlockFits(q', inner, w);
    if o < o' {
      BlockFits(o, o', stride);
    } else if o' < o {
      BlockFits(o', o, stride);
    } else if q < q' {
      BlockFits(q, q', w);
    } else {
      BlockFits(q', q, w);
    }
  }

  lemma RegionElsewhere(before: Bytes, after: Bytes, at: nat, size: nat, at': nat, size': nat)
    requires at + size <= |before| && OnlyRegionChanged(before, after, at, size)
    requires at' + size' <= |before| && (at + size <= at' || at' + size' <= at)
    ensures after[at'..at' + size'] == before[at'..at' + size']
  {
    if at + size <= at' {
      SliceOfSlice(before, at + size, |before|, at' - at - size, at' - at - size + size');
      SliceOfSlice(after, at + size, |after|, at' - at - size, at' - at - size + size');
    } else {
      SliceOfSlice(before, 0, at, at', at' + size');
      SliceOfSlice(after, 0, at, at', at' + size');
    }
  }

  /** One word of a buffer was overwritten with `word`. */
  ghost predicate WordWritten(before: Bytes, after: Bytes, at: nat, word: Bytes) {
    at + |word| <= |before| && OnlyRegionChanged(before, after, at, |word|) && after[at..at + |word|] == word
  }

  /** Writing one word sets that word and leaves every other as it was. */
  lemma CellWritten(before: Bytes, after: Bytes, outer: nat, stride: nat, inner: nat, word: Bytes,
                    o: nat, q: nat, o': nat, q': nat)
    requires |before| == |after| == outer * stride && stride == inner * |word|
    requires o < outer && q < inner && o' < outer && q' < inner
    requires WordWritten(before, after, CellStart(stride, |word|, o, q), word)
    ensures Cell(after, outer, stride, inner, |word|, o', q')
         == if o == o' && q == q' then word else Cell(before, outer, stride, inner, |word|, o', q')
  {
    var w := |word|;
    CellAt(before, outer, stride, inner, w, o', q');
    CellAt(after, outer, stride, inner, w, o', q');
    if o != o' || q != q' {
      CellsApart(stride, inner, w, o, q, o', q');
      RegionElsewhere(before, after, CellStart(stride, w, o, q), w, CellStart(stride, w, o', q'), w);
    }
  }

  /** A write inside a prefix is a write to the prefix. */
  lemma WrittenInPrefix(before: Bytes, after: Bytes, at: nat, word: Bytes, limit: nat)
    requires at + |word| <= limit <= |before| && WordWritten(before, after, at, word)
    ensures WordWritten(before[..limit], after[..limit], at, word)
  {
    var next := at + |word|;
    assert before[..limit][..at] == before[..at] && after[..limit][..at] == after[..at];
    SliceOfSlice(before, next, |before|, 0, limit - next);
    SliceOfSlice(after, next, |after|, 0, limit - next);
    assert before[..limit][next..] == before[next..limit] && after[..limit][next..] == after[next..limit];
    assert after[..limit][at..next] == after[at..next];
  }

  // ---------------------------------------------------------------- filling

  ghost function ExpectedWord(c: Crypto, L: Layout, secret: Bytes, i: nat, j: nat): (word: Bytes)
    requires c.Valid() && L.w == c.hashSize && L.Valid() && |secret| == L.groups * L.groupSize && i < L.groups
    ensures |word| == L.w
  {
    if j < L.words then SecretWord(L, secret, i, j) else GroupHash(c, Group(L, secret, i), j - L.words)
  }

  /** All words of the groups before i, and those of group i before block j, are in place. */
  ghost predicate Filled(c: Crypto, L: Layout, secret: Bytes, package: Bytes, i: nat, j: nat)
    requires c.Valid() && L.w == c.hashSize && L.Holds(secret, package)
  {
    forall i', j' :: 0 <= i' < L.groups && 0 <= j' < L.k && (i' < i || (i' == i && j' < j)) ==>
      PackageWord(L, package, i', j') == ExpectedWord(c, L, secret, i', j')
  }

  lemma FillStep(c: Crypto, L: Layout, secret: Bytes, before: Bytes, after: Bytes, i: nat, j: nat)
    requires c.Valid() && L.w == c.hashSize && i < L.groups && j < L.k
    requires L.Holds(secret, before) && L.Holds(secret, after) && Filled(c, L, secret, before, i, j)
    requires WordWritten(before, after, CellStart(L.blockSize, L.w, j, i), ExpectedWord(c, L, secret, i, j))
    ensures Filled(c, L, secret, after, i, j + 1)
  {
    forall i', j' | 0 <= i' < L.groups && 0 <= j' < L.k && (i' < i || (i' == i && j' < j + 1))
      ensures PackageWord(L, after, i', j') == ExpectedWord(c, L, secret, i', j')
    {
      CellWritten(before, after, L.k, L.blockSize, L.groups, ExpectedWord(c, L, secret, i, j), j, i, j', i');
      if i' != i || j' != j {
        assert PackageWord(L, before, i', j') == ExpectedWord(c, L, secret, i', j');
      }
    }
  }

  lemma FilledCompletely(c: Crypto, L: Layout, secret: Bytes, package: Bytes)
    requires c.Valid() && L.w == c.hashSize && L.Holds(secret, package)
    requires Filled(c, L, secret, package, L.groups, 0)
    ensures WordsSpread(L, secret, package) && HashesMatch(c, L, secret, package)
  {
    forall i, j | 0 <= i < L.groups && 0 <= j < L.k
      ensures PackageWord(L, package, i, j) == ExpectedWord(c, L, secret, i, j)
    {
    }
  }

  // ---------------------------------------------------------------- reading

  /** The words of the groups before i, and those of group i before j, have been read. */
  ghost predicate ReadBack(L: Layout, secret: Bytes, package: Bytes, i: nat, j: nat)
    requires L.Holds(secret, package)
  {
    forall i', j' :: 0 <= i' < L.groups && 0 <= j' < L.words && (i' < i || (i' == i && j' < j)) ==>
      SecretWord(L, secret, i', j') == PackageWord(L, package, i', j')
  }

  lemma ReadStep(L: Layout, before: Bytes, after: Bytes, package: Bytes, i: nat, j: nat)
    requires L.Holds(before, package) && L.Holds(after, package) && i < L.groups && j < L.words
    requires ReadBack(L, before, package, i, j)
    requires WordWritten(before, after, CellStart(L.groupSize, L.w, i, j), PackageWord(L, package, i, j))
    ensures ReadBack(L, after, package, i, j + 1)
  {
    forall i', j' | 0 <= i' < L.groups && 0 <= j' < L.words && (i' < i || (i' == i && j' < j + 1))
      ensures SecretWord(L, after, i', j') == PackageWord(L, package, i', j')
    {
      CellWritten(before, after, L.groups, L.groupSize, L.words, PackageWord(L, package, i, j), i, j, i', j');
      if i' != i || j' != j {
        assert SecretWord(L, before, i', j') == PackageWord(L, package, i', j');
      }
    }
  }

  /** The hashes of the groups before i have been found to match. */
  ghost predicate HashesChecked(c: Crypto, L: Layout, secret: Bytes, package: Bytes, i: nat)
    requires c.Valid() && L.w == c.hashSize && L.Holds(secret, package)
  {
    forall i', j' :: 0 <= i' < L.groups && i' < i && L.words <= j' < L.k ==>
      PackageWord(L, package, i', j') == GroupHash(c, Group(L, secret, i'), j' - L.words)
  }

  /** Groups read from the same words are the same. */
  lemma ReadGroupsAgree(L: Layout, s: Bytes, t: Bytes, package: Bytes, i: nat, i': nat)
    requires L.Holds(s, package) && L.Holds(t, package)
    requires ReadBack(L, s, package, i, 0) && ReadBack(L, t, package, i, 0)
    requires i' < i <= L.groups
    ensures Group(L, s, i') == Group(L, t, i')
  {
    BlockFits(i', L.groups, L.groupSize);
    forall j | 0 <= j < L.words
      ensures Cell(s, L.groups, L.groupSize, L.words, L.w, i', j) == Cell(t, L.groups, L.groupSize, L.words, L.w, i', j)
    {
      assert SecretWord(L, s, i', j) == PackageWord(L, package, i', j);
      assert SecretWord(L, t, i', j) == PackageWord(L, package, i', j);
    }
    SameWordsSameBlock(s, t, L.groups, L.groupSize, L.words, L.w, i');
  }

  /** One wrong hash refutes every secret the words could be read as. */
  lemma WrongHashRefutes(c: Crypto, L: Layout, secret: Bytes, package: Bytes, i: nat, j: nat, other: Bytes)
    requires c.Valid() && L.w == c.hashSize && L.words <= j < L.k && i < L.groups
    requires L.Holds(secret, package) && L.Holds(other, package)
    requires ReadBack(L, secret, package, i + 1, 0)
    requires PackageWord(L, package, i, j) != GroupHash(c, Group(L, secret, i), j - L.words)
    requires WordsSpread(L, other, package)
    ensures !HashesMatch(c, L, other, package)
  {
    assert ReadBack(L, other, package, i + 1, 0);
    ReadGroupsAgree(L, secret, other, package, i + 1, i);
    assert PackageWord(L, package, i, j) != GroupHash(c, Group(L, other, i), j - L.words);
  }

  /** One more group checked. */
  lemma CheckedStep(c: Crypto, L: Layout, before: Bytes, after: Bytes, package: Bytes, i: nat)
    requires c.Valid() && L.w == c.hashSize && i < L.groups
    requires L.Holds(before, package) && L.Holds(after, package)
    requires ReadBack(L, before, package, i, 0) && ReadBack(L, after, package, i + 1, 0)
    requires HashesChecked(c, L, before, package, i)
    requires forall j :: L.words <= j < L.k ==>
      PackageWord(L, package, i, j) == GroupHash(c, Group(L, after, i), j - L.words)
    ensures HashesChecked(c, L, after, package, i + 1)
  {
    assert ReadBack(L, after, package, i, 0);
    forall i', j | 0 <= i' < i + 1 && L.words <= j < L.k
      ensures PackageWord(L, package, i', j) == GroupHash(c, Group(L, after, i'), j - L.words)
    {
      if i' < i {
        ReadGroupsAgree(L, before, after, package, i, i');
      }
    }
  }
}
