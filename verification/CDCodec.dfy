/** The codec object: its buffers, and the encoders and decoders that work in
    place on them. */
module CDCodec {
  import opened GaloisField
  import opened Lists
  import opened LinearAlgebra
  import opened DistributionMatrix
  import opened MatrixInversion
  import opened CodecSizes
  import opened ErasureCoding
  import opened Regions
  import opened Packaging
  import opened CrsssLayout
  import opened CodecSpec

  /** One more masked word in place. */
  lemma MaskStep(F: Field, mask: Bytes, word: Bytes, s: Bytes, before: Bytes, after: Bytes, at: nat)
    requires |mask| == at && at + |word| <= |s| <= |before|
    requires before[..at] == Xor(F, mask, s[..at])
    requires OnlyRegionChanged(before, after, at, |word|)
    requires after[at..at + |word|] == Xor(F, word, s[at..at + |word|])
    ensures after[..at + |word|] == Xor(F, mask + word, s[..at + |word|])
    ensures after[|s|..] == before[|s|..]
  {
    hide Xor;
    var t, t' := s[..at], s[at..at + |word|];
    RegionAppends(before, after, at, |word|, |s|);
    XorAppends(F, mask, word, t, t');
    assert after[..at + |word|] == Xor(F, mask, t) + Xor(F, word, t');
    assert s[..at + |word|] == t + t';
  }

  lemma RegionAppends(before: Bytes, after: Bytes, at: nat, size: nat, limit: nat)
    requires at + size <= limit <= |before| && OnlyRegionChanged(before, after, at, size)
    ensures after[..at + size] == before[..at] + after[at..at + size]
    ensures after[limit..] == before[limit..]
  {
    assert after[limit..] == after[at + size..][limit - at - size..];
    assert before[limit..] == before[at + size..][limit - at - size..];
  }

  lemma XorAppends(F: Field, u: Bytes, u': Bytes, s: Bytes, s': Bytes)
    requires |u| == |s| && |u'| == |s'|
    ensures Xor(F, u + u', s + s') == Xor(F, u, s) + Xor(F, u', s')
  {
  }

  class CDCodec {
    const P: Params
    const distribution: Matrix
    const alignedSecretBuffer: array<byte>
    const erasureCodingData: array<byte>
    const key: array<byte>
    const squareMatrix: array2<byte>
    const inverseMatrix: array2<byte>

    /** The object, apart from the sizes of its two large buffers. */
    ghost predicate Built() {
      && P.Valid()
      && distribution == P.Distribution()
      && key.Length == P.W()
      && IsSquare(squareMatrix, P.K()) && IsSquare(inverseMatrix, P.K())
      && alignedSecretBuffer != erasureCodingData && alignedSecretBuffer != key && erasureCodingData != key
      && squareMatrix != inverseMatrix
    }

    ghost predicate Valid() {
      && Built()
      && alignedSecretBuffer.Length == P.BufferSize()
      && erasureCodingData.Length == P.CodingSize()
    }

    /** What masking needs of the object. */
    ghost predicate CipherReady() {
      P.F.Lawful() && P.crypto.Valid() && P.crypto.keySize == P.crypto.hashSize && key.Length == P.W()
    }

    constructor (P: Params)
      requires P.Valid()
      ensures Valid() && this.P == P
      ensures fresh(alignedSecretBuffer) && fresh(erasureCodingData) && fresh(key)
      ensures fresh(squareMatrix) && fresh(inverseMatrix)
    {
      this.P := P;
      distribution := P.Distribution();
      alignedSecretBuffer := new byte[P.BufferSize()];
      erasureCodingData := new byte[P.CodingSize()];
      key := new byte[P.W()];
      squareMatrix := new byte[P.K(), P.K()];
      inverseMatrix := new byte[P.K(), P.K()];
    }

    // ------------------------------------------------------- crypto calls

    method GenerateHash(data: Bytes, dst: array<byte>, at: nat) returns (ok: bool)
      requires P.crypto.Valid() && at + P.crypto.hashSize <= dst.Length
      modifies dst
      ensures ok && OnlyRegionChanged(old(dst[..]), dst[..], at, P.crypto.hashSize)
      ensures dst[at..at + P.crypto.hashSize] == P.crypto.hash(data)
    {
      var digest := P.crypto.hash(data);
      CopyRegion(digest, dst, at);
      return |digest| == P.crypto.hashSize;
    }

    method EncryptWithKey(data: Bytes, secretKey: Bytes, dst: array<byte>, at: nat) returns (ok: bool)
      requires P.crypto.Valid() && P.crypto.blockSize > 0 && at + |data| <= dst.Length
      modifies dst
      ensures ok <==> |data| % P.crypto.blockSize == 0
      ensures ok ==> OnlyRegionChanged(old(dst[..]), dst[..], at, |data|)
      ensures ok ==> dst[at..at + |data|] == P.crypto.cipher(data, secretKey)
    {
      if |data| % P.crypto.blockSize != 0 {
        return false;
      }
      CopyRegion(P.crypto.cipher(data, secretKey), dst, at);
      return true;
    }

    /** Adds `size` bytes of `src` to the region at `at` of `dst`. */
    method AddRegion(src: array<byte>, from: nat, dst: array<byte>, at: nat, size: nat)
      requires P.F.Lawful() && src != dst && from + size <= src.Length && at + size <= dst.Length
      modifies dst
      ensures OnlyRegionChanged(old(dst[..]), dst[..], at, size)
      ensures dst[at..at + size] == Xor(P.F, old(dst[at..at + size]), src[from..from + size])
    {
      BlendOneIsAddition(P.F, src[from..from + size], dst[at..at + size]);
      MultiplyRegion(P.F, src, from, dst, at, 1, size, true);
    }

    // --------------------------------------------------------- masking

    /** One mask word at byte `at`: the encrypted index i, with that word of `src` added to it. */
    method MaskWord(src: array<byte>, dst: array<byte>, size: nat, i: nat, at: nat) returns (ok: bool)
      requires CipherReady() && src != dst && key != dst
      requires at + P.W() <= size && size <= src.Length && size <= dst.Length
      modifies dst
      ensures ok && OnlyRegionChanged(old(dst[..]), dst[..], at, P.W())
      ensures dst[..][at..at + P.W()]
           == Xor(P.F, P.crypto.cipher(IndexWord(i, P.W()), key[..]), src[..size][at..at + P.W()])
    {
      var w := P.W();
      WholeBlocks(P.crypto, w);
      ok := EncryptWithKey(IndexWord(i, w), key[..], dst, at);
      AddRegion(src, at, dst, at, w);
      assert dst[..][at..at + w] == dst[at..at + w] && src[..size][at..at + w] == src[at..at + w];
    }

    method MaskWords(src: array<byte>, dst: array<byte>, words: nat, size: nat) returns (ok: bool)
      requires CipherReady() && src != dst && key != dst
      requires size == words * P.W() && size <= src.Length && size <= dst.Length
      modifies dst
      ensures ok && dst[..][size..] == old(dst[..])[size..]
      ensures dst[..][..size] == Xor(P.F, IndexMask(P.crypto, key[..], P.W(), words), src[..size])
    {
      hide Xor, IndexWord;
      var w := P.W();
      ghost var mask: Bytes := [];
      var at := 0;
      for i := 0 to words
        invariant at == i * w && mask == IndexMask(P.crypto, key[..], w, i) && |mask| == at
        invariant dst[..][size..] == old(dst[..])[size..]
        invariant at <= size && dst[..][..at] == Xor(P.F, mask, src[..size][..at])
      {
        BlockFits(i, words, w);
        ghost var before := dst[..];
        ok := MaskWord(src, dst, size, i, at);
        if !ok {
          return false;
        }
        ghost var word := P.crypto.cipher(IndexWord(i, w), key[..]);
        MaskStep(P.F, mask, word, src[..size], before, dst[..], at);
        mask := mask + word;
        at := at + w;
      }
      assert src[..size][..size] == src[..size];
      return true;
    }

    /** Stores in `dst` the mask of the current key with `src` added to it. */
    method ApplyMask(src: array<byte>, dst: array<byte>, size: nat) returns (ok: bool)
      requires CipherReady() && src != dst && key != dst
      requires size % P.W() == 0 && size <= src.Length && size <= dst.Length
      modifies dst
      ensures ok && dst[..][size..] == old(dst[..])[size..]
      ensures dst[..][..size] == Xor(P.F, Mask(P.scheme, P.crypto, key[..], P.W(), size), src[..size])
    {
      WholeWords(size, P.W());
      if P.scheme.CaontRs? {
        ok := MaskAll(src, dst, size);
      } else {
        ok := MaskWords(src, dst, size / P.W(), size);
      }
    }

    /** The constant block, encrypted in one call. */
    method MaskAll(src: array<byte>, dst: array<byte>, size: nat) returns (ok: bool)
      requires CipherReady() && src != dst && key != dst
      requires size % P.W() == 0 && size <= src.Length && size <= dst.Length
      modifies dst
      ensures ok && dst[..][size..] == old(dst[..])[size..]
      ensures dst[..][..size] == Xor(P.F, P.crypto.cipher(SizeConstant(size), key[..]), src[..size])
    {
      WholeBlocks(P.crypto, size);
      ok := EncryptWithKey(SizeConstant(size), key[..], dst, 0);
      if !ok {
        return false;
      }
      AddRegion(src, 0, dst, 0, size);
      assert dst[..][..size] == dst[0..0 + size] && src[..size] == src[0..0 + size];
    }

    // ------------------------------------------------ AONT-RS and CAONT-RS encoding

    /** The key a package of `secret` is masked with. */
    ghost function PackageKey(secret: Bytes, randomKey: Bytes): (packageKey: Bytes) {
      if P.scheme.AontRs? then randomKey else P.crypto.hash(secret)
    }

    /** Makes the package of the first `size` bytes of `secret` in `erasureCodingData`. */
    method SealPackage(secret: array<byte>, size: nat, randomKey: Bytes) returns (ok: bool)
      requires CipherReady() && erasureCodingData != key && secret != erasureCodingData && secret != key
      requires size % P.W() == 0 && size <= secret.Length && size + P.W() <= erasureCodingData.Length
      requires |randomKey| == P.W()
      modifies erasureCodingData, key
      ensures ok
      ensures erasureCodingData[..][..size + P.W()]
           == Sealed(P.F, P.scheme, P.crypto, P.W(), secret[..size], PackageKey(secret[..size], randomKey))
    {
      var w := P.W();
      if P.scheme.AontRs? {
        CopyRegion(randomKey, key, 0);
      } else {
        ok := GenerateHash(secret[..size], key, 0);
        if !ok {
          return false;
        }
      }
      assert key[..] == key[0..0 + w];
      ok := ApplyMask(secret, erasureCodingData, size);
      if !ok {
        return false;
      }
      ok := AppendTail(size);
    }

    /** Appends to the masked secret its hash with the key added to it. */
    method AppendTail(size: nat) returns (ok: bool)
      requires CipherReady() && erasureCodingData != key && size + P.W() <= erasureCodingData.Length
      modifies erasureCodingData
      ensures ok
      ensures var body := old(erasureCodingData[..][..size]);
        erasureCodingData[..][..size + P.W()] == body + Xor(P.F, P.crypto.hash(body), key[..])
    {
      var w := P.W();
      ghost var body := erasureCodingData[..][..size];
      assert erasureCodingData[..size] == body;
      ok := GenerateHash(erasureCodingData[..size], erasureCodingData, size);
      if !ok {
        return false;
      }
      AddRegion(key, 0, erasureCodingData, size, w);
      assert key[0..0 + w] == key[..];
      assert erasureCodingData[..][..size] == body;
      assert erasureCodingData[..][..size + w] == body + erasureCodingData[size..size + w];
    }

    /** Writes the n shares of the package: the first k blocks are the package. */
    method ShareOut(S: nat, shareBuffer: array<byte>)
      requires P.Valid() && !P.scheme.Crsss? && distribution == P.Distribution()
      requires shareBuffer != erasureCodingData && P.K() * S <= erasureCodingData.Length
      requires P.K() * S <= P.n * S <= shareBuffer.Length
      modifies shareBuffer
      ensures HoldsShares(P.F, distribution, P.K(), erasureCodingData[..][..P.K() * S], S, shareBuffer[..][..P.n * S])
    {
      var k := P.K();
      CopyRegion(erasureCodingData[..k * S], shareBuffer, 0);
      SystematicBlocks(P.F, P.n, k, erasureCodingData[..], S, shareBuffer[..]);
      CombineAll(P.F, distribution, k, erasureCodingData, S, shareBuffer, k);
      HoldsSharesPrefix(P.F, distribution, k, erasureCodingData[..], S, shareBuffer[..]);
    }

    // --------------------------------------------------------- linear decoding

    method LoadSquareMatrix(ids: seq<nat>)
      requires Built() && |ids| == P.K() && forall i :: 0 <= i < |ids| ==> ids[i] < P.n
      modifies squareMatrix
      ensures Rows(squareMatrix) == SelectedRows(distribution, ids, P.K())
    {
      var k := P.K();
      for i := 0 to k
        invariant forall r, c :: 0 <= r < i && 0 <= c < k ==> squareMatrix[r, c] == distribution[ids[r]][c]
      {
        for j := 0 to k
          invariant forall r, c :: 0 <= r < i && 0 <= c < k ==> squareMatrix[r, c] == distribution[ids[r]][c]
          invariant forall c :: 0 <= c < j ==> squareMatrix[i, c] == distribution[ids[i]][c]
        {
          squareMatrix[i, j] := distribution[ids[i]][j];
        }
      }
      forall r | 0 <= r < k ensures Rows(squareMatrix)[r] == SelectedRows(distribution, ids, k)[r] {}
    }

    /** Inverts the rows of the given shares; this works exactly for distinct ids. */
    method InvertRows(ids: seq<nat>) returns (ok: bool)
      requires Built() && |ids| == P.K() && forall i :: 0 <= i < |ids| ==> ids[i] < P.n
      modifies squareMatrix, inverseMatrix
      ensures ok <==> NoRepeats(ids)
      ensures ok ==> Inverses(P.F, P.K(), SelectedRows(distribution, ids, P.K()), Rows(inverseMatrix))
    {
      LoadSquareMatrix(ids);
      ok := SquareMatrixInverting(P.F, P.K(), squareMatrix, inverseMatrix);
      if NoRepeats(ids) {
        AnyRowsInvertible(P, ids);
      } else {
        RepeatedRowsNotInvertible(P, ids, Rows(inverseMatrix));
      }
    }

    /** Restores the package of k shares in `erasureCodingData`. */
    method RecoverPackage(shareBuffer: array<byte>, ids: seq<nat>, S: nat) returns (ok: bool)
      requires Built() && |ids| == P.K() && forall i :: 0 <= i < |ids| ==> ids[i] < P.n
      requires shareBuffer != erasureCodingData
      requires P.K() * S <= shareBuffer.Length && P.K() * S <= erasureCodingData.Length
      modifies squareMatrix, inverseMatrix, erasureCodingData
      ensures ok <==> NoRepeats(ids)
      ensures ok ==> HoldsShares(P.F, SelectedRows(distribution, ids, P.K()), P.K(),
                                 erasureCodingData[..][..P.K() * S], S, shareBuffer[..][..P.K() * S])
    {
      ok := InvertRows(ids);
      if !ok {
        return false;
      }
      var k := P.K();
      var inverse := MatrixOf(inverseMatrix);
      CombineAll(P.F, inverse, k, shareBuffer, S, erasureCodingData, 0);
      HoldsSharesPrefix(P.F, inverse, k, shareBuffer[..], S, erasureCodingData[..]);
      LinearDecoding(P.F, SelectedRows(distribution, ids, k), inverse, k,
                     shareBuffer[..][..k * S], S, erasureCodingData[..][..k * S]);
    }

    // ------------------------------------------------ AONT-RS and CAONT-RS decoding

    /** Opens the package in `erasureCodingData` into `key` and `target`. */
    method OpenPackage(size: nat, target: array<byte>) returns (ok: bool)
      requires CipherReady() && erasureCodingData != key && target != erasureCodingData && target != key
      requires size % P.W() == 0 && size <= target.Length && size + P.W() <= erasureCodingData.Length
      modifies key, target
      ensures ok
      ensures var package := erasureCodingData[..][..size + P.W()];
        && key[..] == OpenedKey(P.F, P.crypto, P.W(), package)
        && target[..][..size] == OpenedSecret(P.F, P.scheme, P.crypto, P.W(), package)
    {
      var w := P.W();
      ghost var package := erasureCodingData[..][..size + w];
      ok := GenerateHash(erasureCodingData[..size], key, 0);
      if !ok {
        return false;
      }
      assert key[0..0 + w] == key[..];
      AddRegion(erasureCodingData, size, key, 0, w);
      assert key[0..0 + w] == key[..];
      assert package[..size] == erasureCodingData[..size];
      assert package[size..] == erasureCodingData[size..size + w];
      ok := ApplyMask(erasureCodingData, target, size);
    }

    /** Compares the hash of the opened secret with the key it was opened with. */
    method CheckIntegrity(size: nat, plain: array<byte>) returns (ok: bool)
      requires CipherReady() && erasureCodingData != key && plain != erasureCodingData
      requires size <= plain.Length && P.W() <= erasureCodingData.Length
      modifies erasureCodingData
      ensures ok <==> P.crypto.hash(plain[..][..size]) == key[..]
    {
      var w := P.W();
      assert plain[..size] == plain[..][..size];
      ok := GenerateHash(plain[..size], erasureCodingData, 0);
      if !ok {
        return false;
      }
      assert erasureCodingData[..w] == erasureCodingData[0..0 + w];
      return erasureCodingData[..w] == key[..];
    }

    // ----------------------------------------------------------- CRSSS encoding

    /** A layout the buffers have room for. */
    ghost predicate Fits(L: Layout, secretSize: nat, total: nat) {
      && L.Valid() && P.crypto.Valid() && L.w == P.crypto.hashSize && L.k == L.words + P.r
      && secretSize == L.groups * L.groupSize && secretSize <= alignedSecretBuffer.Length
      && total == L.k * L.blockSize && total <= erasureCodingData.Length
      && alignedSecretBuffer != erasureCodingData
    }

    /** Stores one word of the package. */
    method StoreWord(L: Layout, word: Bytes, i: nat, j: nat, total: nat, ghost secret: Bytes)
      requires Fits(L, |secret|, total) && i < L.groups && j < L.k
      requires word == ExpectedWord(P.crypto, L, secret, i, j)
      requires Filled(P.crypto, L, secret, erasureCodingData[..][..total], i, j)
      modifies erasureCodingData
      ensures Filled(P.crypto, L, secret, erasureCodingData[..][..total], i, j + 1)
    {
      var at := CellStart(L.blockSize, L.w, j, i);
      ghost var before := erasureCodingData[..];
      CellAt(before[..total], L.k, L.blockSize, L.groups, L.w, j, i);
      CopyRegion(word, erasureCodingData, at);
      assert erasureCodingData[..][at..at + |word|] == word;
      WrittenInPrefix(before, erasureCodingData[..], at, word, total);
      FillStep(P.crypto, L, secret, before[..total], erasureCodingData[..][..total], i, j);
    }

    method SecretWordAt(L: Layout, i: nat, j: nat, ghost secret: Bytes) returns (word: Bytes)
      requires L.Valid() && |secret| == L.groups * L.groupSize && i < L.groups && j < L.words
      requires |secret| <= alignedSecretBuffer.Length && alignedSecretBuffer[..][..|secret|] == secret
      ensures word == SecretWord(L, secret, i, j)
    {
      var at := CellStart(L.groupSize, L.w, i, j);
      CellAt(secret, L.groups, L.groupSize, L.words, L.w, i, j);
      word := alignedSecretBuffer[at..at + L.w];
      SliceOfSlice(alignedSecretBuffer[..], 0, |secret|, at, at + L.w);
    }

    method SecretGroupAt(L: Layout, i: nat, ghost secret: Bytes) returns (group: Bytes)
      requires L.Valid() && |secret| == L.groups * L.groupSize && i < L.groups
      requires |secret| <= alignedSecretBuffer.Length && alignedSecretBuffer[..][..|secret|] == secret
      ensures group == Group(L, secret, i)
    {
      BlockFits(i, L.groups, L.groupSize);
      var at := i * L.groupSize;
      group := alignedSecretBuffer[at..at + L.groupSize];
      SliceOfSlice(alignedSecretBuffer[..], 0, |secret|, at, at + L.groupSize);
    }

    /** Appends the words of group i and their hashes to the data blocks. */
    method FillGroup(L: Layout, i: nat, total: nat, ghost secret: Bytes)
      requires Fits(L, |secret|, total) && i < L.groups && alignedSecretBuffer[..][..|secret|] == secret
      requires Filled(P.crypto, L, secret, erasureCodingData[..][..total], i, 0)
      modifies erasureCodingData
      ensures Filled(P.crypto, L, secret, erasureCodingData[..][..total], i, L.k)
    {
      for j := 0 to L.words
        invariant Filled(P.crypto, L, secret, erasureCodingData[..][..total], i, j)
      {
        var word := SecretWordAt(L, i, j, secret);
        StoreWord(L, word, i, j, total, secret);
      }
      for j := 0 to P.r
        invariant Filled(P.crypto, L, secret, erasureCodingData[..][..total], i, L.words + j)
      {
        var group := SecretGroupAt(L, i, secret);
        StoreWord(L, P.crypto.hash(group + [(j % 256) as byte]), i, L.words + j, total, secret);
      }
    }

    /** Fills the k data blocks from the aligned secret. */
    method FillGroups(L: Layout, total: nat, ghost secret: Bytes)
      requires Fits(L, |secret|, total) && alignedSecretBuffer[..][..|secret|] == secret
      modifies erasureCodingData
      ensures WordsSpread(L, secret, erasureCodingData[..][..total])
      ensures HashesMatch(P.crypto, L, secret, erasureCodingData[..][..total])
    {
      for i := 0 to L.groups
        invariant Filled(P.crypto, L, secret, erasureCodingData[..][..total], i, 0)
      {
        FillGroup(L, i, total, secret);
      }
      FilledCompletely(P.crypto, L, secret, erasureCodingData[..][..total]);
    }

    // ----------------------------------------------------------- CRSSS decoding

    /** Reads one word of the package back into the secret. */
    method ReadWord(L: Layout, i: nat, j: nat, secretSize: nat, ghost package: Bytes)
      requires Fits(L, secretSize, |package|) && i < L.groups && j < L.words
      requires erasureCodingData[..][..|package|] == package
      requires ReadBack(L, alignedSecretBuffer[..][..secretSize], package, i, j)
      modifies alignedSecretBuffer
      ensures ReadBack(L, alignedSecretBuffer[..][..secretSize], package, i, j + 1)
    {
      var at := CellStart(L.groupSize, L.w, i, j);
      ghost var before := alignedSecretBuffer[..];
      CellAt(before[..secretSize], L.groups, L.groupSize, L.words, L.w, i, j);
      var word := PackageWordAt(L, i, j, package);
      CopyRegion(word, alignedSecretBuffer, at);
      assert alignedSecretBuffer[..][at..at + |word|] == word;
      WrittenInPrefix(before, alignedSecretBuffer[..], at, word, secretSize);
      ReadStep(L, before[..secretSize], alignedSecretBuffer[..][..secretSize], package, i, j);
    }

    method PackageWordAt(L: Layout, i: nat, j: nat, ghost package: Bytes) returns (word: Bytes)
      requires L.Valid() && |package| == L.k * L.blockSize && i < L.groups && j < L.k
      requires |package| <= erasureCodingData.Length && erasureCodingData[..][..|package|] == package
      ensures word == PackageWord(L, package, i, j)
    {
      var from := CellStart(L.blockSize, L.w, j, i);
      CellAt(package, L.k, L.blockSize, L.groups, L.w, j, i);
      word := erasureCodingData[from..from + L.w];
      SliceOfSlice(erasureCodingData[..], 0, |package|, from, from + L.w);
    }

    method ReadGroup(L: Layout, i: nat, secretSize: nat, ghost package: Bytes)
      requires Fits(L, secretSize, |package|) && i < L.groups
      requires erasureCodingData[..][..|package|] == package
      requires ReadBack(L, alignedSecretBuffer[..][..secretSize], package, i, 0)
      modifies alignedSecretBuffer
      ensures ReadBack(L, alignedSecretBuffer[..][..secretSize], package, i + 1, 0)
    {
      for j := 0 to L.words
        invariant ReadBack(L, alignedSecretBuffer[..][..secretSize], package, i, j)
      {
        ReadWord(L, i, j, secretSize, package);
      }
    }

    /** Compares the stored hashes of group i with fresh ones. */
    method CheckGroup(L: Layout, i: nat, ghost secret: Bytes, ghost package: Bytes) returns (ok: bool, ghost wrong: nat)
      requires Fits(L, |secret|, |package|) && i < L.groups
      requires erasureCodingData[..][..|package|] == package && alignedSecretBuffer[..][..|secret|] == secret
      ensures ok ==> forall j :: L.words <= j < L.k ==>
        PackageWord(L, package, i, j) == GroupHash(P.crypto, Group(L, secret, i), j - L.words)
      ensures !ok ==> L.words <= wrong < L.k
      ensures !ok ==>
        PackageWord(L, package, i, wrong) != GroupHash(P.crypto, Group(L, secret, i), wrong - L.words)
    {
      wrong := 0;
      var group := SecretGroupAt(L, i, secret);
      for j := 0 to P.r
        invariant forall j' :: L.words <= j' < L.words + j ==>
          PackageWord(L, package, i, j') == GroupHash(P.crypto, group, j' - L.words)
      {
        var stored := PackageWordAt(L, i, L.words + j, package);
        if stored != P.crypto.hash(group + [(j % 256) as byte]) {
          return false, L.words + j;
        }
      }
      return true, 0;
    }

    /** Reads the secret out of the data blocks, checking each group's hashes. */
    method ReadGroups(L: Layout, secretSize: nat, ghost package: Bytes) returns (ok: bool)
      requires Fits(L, secretSize, |package|) && erasureCodingData[..][..|package|] == package
      modifies alignedSecretBuffer
      ensures ok ==> WordsSpread(L, alignedSecretBuffer[..][..secretSize], package)
      ensures ok ==> HashesMatch(P.crypto, L, alignedSecretBuffer[..][..secretSize], package)
      ensures !ok ==> forall other: Bytes :: |other| == secretSize && WordsSpread(L, other, package) ==>
        !HashesMatch(P.crypto, L, other, package)
    {
      for i := 0 to L.groups
        invariant ReadBack(L, alignedSecretBuffer[..][..secretSize], package, i, 0)
        invariant HashesChecked(P.crypto, L, alignedSecretBuffer[..][..secretSize], package, i)
      {
        ghost var before := alignedSecretBuffer[..][..secretSize];
        ReadGroup(L, i, secretSize, package);
        ghost var secret := alignedSecretBuffer[..][..secretSize];
        ghost var wrong;
        ok, wrong := CheckGroup(L, i, secret, package);
        if !ok {
          forall other: Bytes | |other| == secretSize && WordsSpread(L, other, package)
            ensures !HashesMatch(P.crypto, L, other, package)
          {
            WrongHashRefutes(P.crypto, L, secret, package, i, wrong, other);
          }
          return false;
        }
        CheckedStep(P.crypto, L, before, secret, package, i);
      }
      return true;
    }

    // ------------------------------------------------------- the four encoders

    /** The buffers handed in by a caller are not the codec's own. */
    ghost predicate Apart(buffer: array<byte>) {
      buffer != alignedSecretBuffer && buffer != erasureCodingData && buffer != key
    }

    /** Puts the secret and its padding into `target`, where the secret may already be. */
    method Align(secretBuffer: array<byte>, secretSize: nat, target: array<byte>, size: nat)
      requires secretSize <= size <= target.Length && secretSize <= secretBuffer.Length
      modifies target
      ensures target[..][..size] == Padded(old(secretBuffer[..][..secretSize]), size)
      ensures target == secretBuffer ==> secretBuffer[..][..secretSize] == old(secretBuffer[..][..secretSize])
    {
      ghost var secret := secretBuffer[..][..secretSize];
      assert secretBuffer[..secretSize] == secret;
      if target != secretBuffer {
        CopyRegion(secretBuffer[..secretSize], target, 0);
        assert target[..][..secretSize] == target[0..0 + secretSize];
      }
      assert target[..][..secretSize] == secret;
      if size != secretSize {
        ZeroRegion(target, secretSize, size - secretSize);
      }
      assert target[..][..size] == target[..][..secretSize] + target[..][secretSize..size];
    }

    method CrsssEncoding(secretBuffer: array<byte>, secretSize: nat, shareBuffer: array<byte>,
                         ghost S: nat, ghost total: nat)
      returns (ok: bool, shareSize: nat, ghost package: Bytes)
      requires Valid() && P.scheme.Crsss? && secretSize <= secretBuffer.Length
      requires Apart(secretBuffer) && Apart(shareBuffer) && secretBuffer != shareBuffer
      requires total == P.n * S <= shareBuffer.Length && S == P.ShareSizeOf(secretSize)
      modifies alignedSecretBuffer, erasureCodingData, shareBuffer
      ensures ok <==> P.AlignedSize(secretSize) <= P.BufferSize()
      ensures ok ==> shareSize == S
      ensures ok ==> P.Encodes(old(secretBuffer[..][..secretSize]), package, shareBuffer[..][..total])
    {
      hide HoldsShares, WordsSpread, HashesMatch, IsSquare, Params.AlignedSize, Params.ShareSizeOf, Params.CodingSize,
           Params.BufferSize, Params.Encodes, Params.GroupBytes, GroupShareSize, GroupCount;
      package := [];
      var w, k, g := P.W(), P.K(), P.GroupBytes();
      var size := P.AlignedSize(secretSize);
      if alignedSecretBuffer.Length < size {
        return false, 0, [];
      }
      shareSize := GroupShareSize(size, w, g);
      var L := Layout(w, P.Words(), GroupCount(size, g), k, g, shareSize);
      CrsssLayoutFits(P, secretSize, L);
      if erasureCodingData.Length < shareSize * k {
        return false, shareSize, [];
      }
      Align(secretBuffer, secretSize, alignedSecretBuffer, size);
      package := FillAndShare(L, k * shareSize, alignedSecretBuffer[..][..size], shareBuffer, total);
      CrsssEncodes(P, old(secretBuffer[..][..secretSize]), L, package, shareBuffer[..][..total]);
      return true, shareSize, package;
    }

    /** Fills the groups of the package and combines its blocks into the shares. */
    method FillAndShare(L: Layout, packageSize: nat, ghost secret: Bytes, shareBuffer: array<byte>, ghost total: nat)
      returns (ghost package: Bytes)
      requires Fits(L, |secret|, packageSize) && alignedSecretBuffer[..][..|secret|] == secret
      requires P.F.Lawful() && L.k > 0 && Shaped(distribution, |distribution|, L.k)
      requires packageSize == L.k * L.blockSize <= erasureCodingData.Length
      requires total == |distribution| * L.blockSize <= shareBuffer.Length
      requires Apart(shareBuffer) && alignedSecretBuffer != erasureCodingData
      modifies erasureCodingData, shareBuffer
      ensures |package| == packageSize && WordsSpread(L, secret, package) && HashesMatch(P.crypto, L, secret, package)
      ensures HoldsShares(P.F, distribution, L.k, package, L.blockSize, shareBuffer[..][..total])
    {
      hide HoldsShares, WordsSpread, HashesMatch;
      FillGroups(L, packageSize, secret);
      package := erasureCodingData[..][..packageSize];
      CombineAll(P.F, distribution, L.k, erasureCodingData, L.blockSize, shareBuffer, 0);
      HoldsSharesPrefix(P.F, distribution, L.k, erasureCodingData[..], L.blockSize, shareBuffer[..]);
    }

    /** AONT-RS, old CAONT-RS and CAONT-RS, on an aligned secret of `size` bytes. */
    method PackageEncoding(secret: array<byte>, size: nat, S: nat, shareBuffer: array<byte>, randomKey: Bytes)
      returns (ok: bool, ghost package: Bytes)
      requires P.Valid() && !P.scheme.Crsss? && distribution == P.Distribution() && CipherReady()
      requires erasureCodingData != key && Apart(shareBuffer)
      requires secret != erasureCodingData && secret != key && secret != shareBuffer
      requires size % P.W() == 0 && size <= secret.Length && |randomKey| == P.W()
      requires P.K() * S == size + P.W() <= erasureCodingData.Length
      requires P.K() * S <= P.n * S <= shareBuffer.Length
      modifies erasureCodingData, key, shareBuffer
      ensures ok
      ensures package == Sealed(P.F, P.scheme, P.crypto, P.W(), old(secret[..][..size]),
                                PackageKey(old(secret[..][..size]), randomKey))
      ensures HoldsShares(P.F, distribution, P.K(), package, S, shareBuffer[..][..P.n * S])
    {
      assert secret[..size] == secret[..][..size];
      ok := SealPackage(secret, size, randomKey);
      package := erasureCodingData[..][..size + P.W()];
      ShareOut(S, shareBuffer);
    }

    /** The encoders other than CRSSS: align, then package and share out. */
    method AlignAndEncode(secretBuffer: array<byte>, secretBufferSize: nat, secretSize: nat, size: nat, S: nat,
                          shareBuffer: array<byte>, randomKey: Bytes)
      returns (ok: bool, ghost package: Bytes)
      requires P.Valid() && !P.scheme.Crsss? && distribution == P.Distribution() && CipherReady()
      requires secretSize <= secretBufferSize <= secretBuffer.Length && |randomKey| == P.W()
      requires Apart(secretBuffer) && Apart(shareBuffer) && secretBuffer != shareBuffer
      requires erasureCodingData != key && alignedSecretBuffer != erasureCodingData && alignedSecretBuffer != key
      requires size % P.W() == 0 && secretSize <= size <= alignedSecretBuffer.Length
      requires P.K() * S == size + P.W() <= erasureCodingData.Length
      requires P.K() * S <= P.n * S <= shareBuffer.Length
      modifies secretBuffer, alignedSecretBuffer, erasureCodingData, key, shareBuffer
      ensures ok && secretBuffer[..][..secretSize] == old(secretBuffer[..][..secretSize])
      ensures var aligned := Padded(old(secretBuffer[..][..secretSize]), size);
        package == Sealed(P.F, P.scheme, P.crypto, P.W(), aligned, PackageKey(aligned, randomKey))
      ensures HoldsShares(P.F, distribution, P.K(), package, S, shareBuffer[..][..P.n * S])
    {
      var target := if secretBufferSize >= size then secretBuffer else alignedSecretBuffer;
      Align(secretBuffer, secretSize, target, size);
      ok, package := PackageEncoding(target, size, S, shareBuffer, randomKey);
    }

    lemma CallerBuffer(buffer: array<byte>)
      requires Valid() && Apart(buffer)
      ensures P.Valid() && buffer != alignedSecretBuffer && buffer != erasureCodingData && buffer != key
    {
    }

    /** The AONT family, from the size check on. */
    method SealAndEncode(secretBuffer: array<byte>, secretBufferSize: nat, secretSize: nat,
                         shareBuffer: array<byte>, randomKey: Bytes, ghost S: nat, ghost total: nat)
      returns (ok: bool, shareSize: nat, ghost package: Bytes)
      requires Valid() && !P.scheme.Crsss? && secretSize <= secretBufferSize <= secretBuffer.Length && |randomKey| == P.W()
      requires Apart(secretBuffer) && Apart(shareBuffer) && secretBuffer != shareBuffer
      requires total == P.n * S <= shareBuffer.Length && S == P.ShareSizeOf(secretSize)
      modifies secretBuffer, alignedSecretBuffer, erasureCodingData, key, shareBuffer
      ensures ok <==> P.AlignedSize(secretSize) <= P.BufferSize()
      ensures secretBuffer[..][..secretSize] == old(secretBuffer[..][..secretSize])
      ensures ok ==> shareSize == S
      ensures ok ==> P.Encodes(old(secretBuffer[..][..secretSize]), package, shareBuffer[..][..total])
      ensures ok && P.scheme.AontRs? ==> package == P.SealedWith(old(secretBuffer[..][..secretSize]), randomKey)
    {
      package := [];
      var size := P.AlignedSize(secretSize);
      if alignedSecretBuffer.Length < size {
        return false, 0, [];
      }
      PackageSizes(P, secretSize);
      shareSize := P.ShareSizeOf(secretSize);
      ghost var secret := secretBuffer[..][..secretSize];
      ok, package := AlignAndEncode(secretBuffer, secretBufferSize, secretSize, size, shareSize, shareBuffer, randomKey);
      SealedEncodes(P, secret, package, shareBuffer[..][..total], PackageKey(Padded(secret, size), randomKey));
    }

    method EncodingEx(secretBuffer: array<byte>, secretBufferSize: nat, secretSize: nat,
                      shareBuffer: array<byte>, randomKey: Bytes)
      returns (ok: bool, shareSize: nat, ghost package: Bytes)
      requires Valid() && secretSize <= secretBufferSize <= secretBuffer.Length && |randomKey| == P.W()
      requires Apart(secretBuffer) && Apart(shareBuffer) && secretBuffer != shareBuffer
      requires P.SharesSize(secretSize) <= shareBuffer.Length
      modifies secretBuffer, alignedSecretBuffer, erasureCodingData, key, shareBuffer
      ensures ok <==> P.AlignedSize(secretSize) <= P.BufferSize()
      ensures secretBuffer[..][..secretSize] == old(secretBuffer[..][..secretSize])
      ensures ok ==> shareSize == P.ShareSizeOf(secretSize)
      ensures ok ==> P.Encodes(old(secretBuffer[..][..secretSize]), package, shareBuffer[..][..P.SharesSize(secretSize)])
      ensures ok && P.scheme.AontRs? ==> package == P.SealedWith(old(secretBuffer[..][..secretSize]), randomKey)
    {
      hide *;
      CallerBuffer(secretBuffer);
      ghost var S := P.ShareSizeOf(secretSize);
      ghost var total := P.SharesSize(secretSize);
      if P.scheme.Crsss? {
        ok, shareSize, package := CrsssEncoding(secretBuffer, secretSize, shareBuffer, S, total);
      } else {
        ok, shareSize, package :=
          SealAndEncode(secretBuffer, secretBufferSize, secretSize, shareBuffer, randomKey, S, total);
      }
    }

    // ------------------------------------------------------- the four decoders

    /** The part of CRSSS decoding after the size checks. */
    method OpenGroups(shareBuffer: array<byte>, ids: seq<nat>, S: nat, groups: nat, size: nat,
                      secretSize: nat, secretBuffer: array<byte>,
                      ghost shares: Bytes)
      returns (ok: bool, ghost package: Bytes, ghost aligned: Bytes)
      requires Built() && P.scheme.Crsss? && |ids| == P.K() && forall i :: 0 <= i < |ids| ==> ids[i] < P.n
      requires Apart(shareBuffer) && Apart(secretBuffer) && shareBuffer != secretBuffer
      requires S % P.W() == 0 && groups == S / P.W() && S == groups * P.W() && size == groups * P.GroupBytes()
      requires |shares| == P.K() * S <= shareBuffer.Length && shareBuffer[..][..|shares|] == shares
      requires P.K() * S <= erasureCodingData.Length
      requires secretSize <= size <= alignedSecretBuffer.Length && secretSize <= secretBuffer.Length
      modifies squareMatrix, inverseMatrix, erasureCodingData, alignedSecretBuffer, secretBuffer
      ensures ok ==> NoRepeats(ids)
      ensures ok ==> P.Decodes(ids, S, shares, package, aligned)
      ensures ok ==> P.Accepts(S, package, aligned) && secretSize <= |aligned|
      ensures ok ==> secretBuffer[..][..secretSize] == aligned[..secretSize]
      ensures !ok && NoRepeats(ids) ==> P.NoneAccepted(ids, S, shares)
    {
      package, aligned := [], [];
      var k := P.K();
      ok := RecoverPackage(shareBuffer, ids, S);
      if !ok {
        return false, [], [];
      }
      package := erasureCodingData[..][..k * S];
      var L := Layout(P.W(), P.Words(), groups, k, P.GroupBytes(), S);
      ok := ReadGroups(L, size, package);
      aligned := alignedSecretBuffer[..][..size];
      if !ok {
        RefusedGroups(P, ids, S, shares, package, size);
        return false, [], [];
      }
      CopyRegion(alignedSecretBuffer[..secretSize], secretBuffer, 0);
      assert secretBuffer[..][..secretSize] == secretBuffer[0..0 + secretSize];
    }

    /** The part of the other decoders after the size checks; AONT-RS skips the
        integrity check. */
    method OpenShares(shareBuffer: array<byte>, ids: seq<nat>, S: nat, size: nat, secretSize: nat, secretBuffer: array<byte>,
                      ghost shares: Bytes)
      returns (ok: bool, ghost package: Bytes, ghost aligned: Bytes)
      requires Built() && !P.scheme.Crsss? && |ids| == P.K() && forall i :: 0 <= i < |ids| ==> ids[i] < P.n
      requires Apart(shareBuffer) && Apart(secretBuffer) && shareBuffer != secretBuffer
      requires S % P.W() == 0 && size % P.W() == 0 && P.K() * S == size + P.W()
      requires |shares| == P.K() * S <= shareBuffer.Length && shareBuffer[..][..|shares|] == shares
      requires P.K() * S <= erasureCodingData.Length
      requires secretSize <= size <= alignedSecretBuffer.Length && secretSize <= secretBuffer.Length
      modifies squareMatrix, inverseMatrix, erasureCodingData, key, alignedSecretBuffer, secretBuffer
      ensures ok ==> NoRepeats(ids)
      ensures ok ==> P.Decodes(ids, S, shares, package, aligned)
      ensures ok ==> P.Accepts(S, package, aligned) && secretSize <= |aligned|
      ensures ok ==> secretBuffer[..][..secretSize] == aligned[..secretSize]
      ensures !ok && NoRepeats(ids) ==> P.NoneAccepted(ids, S, shares)
    {
      hide HoldsShares, OpenedSecret, OpenedKey, NoRepeats, SelectedRows, IsSquare;
      package, aligned := [], [];
      var k := P.K();
      ok := RecoverPackage(shareBuffer, ids, S);
      if !ok {
        return false, [], [];
      }
      package := erasureCodingData[..][..k * S];
      var target := if P.scheme.CaontRs? && size == secretSize then secretBuffer else alignedSecretBuffer;
      ok := OpenPackage(size, target);
      aligned := target[..][..size];
      if !P.scheme.AontRs? {
        ok := CheckIntegrity(size, target);
        if !ok {
          RefusedPackage(P, ids, S, shares, package);
          return false, [], [];
        }
      }
      if target != secretBuffer {
        CopyRegion(target[..secretSize], secretBuffer, 0);
        assert secretBuffer[..][..secretSize] == secretBuffer[0..0 + secretSize];
      }
    }

    method CrsssDecoding(shareBuffer: array<byte>, ids: seq<nat>, S: nat, secretSize: nat, secretBuffer: array<byte>,
                      ghost shares: Bytes)
      returns (ok: bool, ghost package: Bytes, ghost aligned: Bytes)
      requires Valid() && P.scheme.Crsss? && |ids| == P.K() && forall i :: 0 <= i < |ids| ==> ids[i] < P.n
      requires Apart(shareBuffer) && Apart(secretBuffer) && shareBuffer != secretBuffer
      requires |shares| == P.K() * S <= shareBuffer.Length && shareBuffer[..][..|shares|] == shares
      requires secretSize <= secretBuffer.Length
      modifies squareMatrix, inverseMatrix, erasureCodingData, alignedSecretBuffer, secretBuffer
      ensures ok ==> P.SizesAccepted(S, secretSize) && NoRepeats(ids)
      ensures ok ==> P.Decodes(ids, S, shares, package, aligned)
      ensures ok ==> P.Accepts(S, package, aligned) && secretSize <= |aligned|
      ensures ok ==> secretBuffer[..][..secretSize] == aligned[..secretSize]
      ensures !ok && P.SizesAccepted(S, secretSize) && NoRepeats(ids) ==>
        P.NoneAccepted(ids, S, shares)
    {
      hide HoldsShares, SelectedRows, NoRepeats, IsSquare, Params.Decodes, Params.Accepts, Params.NoneAccepted;
      package, aligned := [], [];
      if S % P.W() != 0 || erasureCodingData.Length < S * P.K() {
        return false, [], [];
      }
      var groups := S / P.W();
      var size := P.GroupBytes() * groups;
      if alignedSecretBuffer.Length < size || secretSize > size {
        return false, [], [];
      }
      WholeWords(S, P.W());
      ok, package, aligned := OpenGroups(shareBuffer, ids, S, groups, size, secretSize, secretBuffer, shares);
    }

    method PackageDecoding(shareBuffer: array<byte>, ids: seq<nat>, S: nat, secretSize: nat, secretBuffer: array<byte>,
                      ghost shares: Bytes)
      returns (ok: bool, ghost package: Bytes, ghost aligned: Bytes)
      requires Valid() && !P.scheme.Crsss? && |ids| == P.K() && forall i :: 0 <= i < |ids| ==> ids[i] < P.n
      requires Apart(shareBuffer) && Apart(secretBuffer) && shareBuffer != secretBuffer
      requires |shares| == P.K() * S <= shareBuffer.Length && shareBuffer[..][..|shares|] == shares
      requires secretSize <= secretBuffer.Length
      modifies squareMatrix, inverseMatrix, erasureCodingData, key, alignedSecretBuffer, secretBuffer
      ensures ok ==> P.SizesAccepted(S, secretSize) && NoRepeats(ids)
      ensures ok ==> P.Decodes(ids, S, shares, package, aligned)
      ensures ok ==> P.Accepts(S, package, aligned) && secretSize <= |aligned|
      ensures ok ==> secretBuffer[..][..secretSize] == aligned[..secretSize]
      ensures !ok && P.SizesAccepted(S, secretSize) && NoRepeats(ids) ==>
        P.NoneAccepted(ids, S, shares)
    {
      package, aligned := [], [];
      if S % P.W() != 0 || erasureCodingData.Length < S * P.K() {
        return false, [], [];
      }
      var size := S * P.K() - P.W();
      if alignedSecretBuffer.Length < size || secretSize > size {
        return false, [], [];
      }
      DecodedSizes(S, P.W(), P.K());
      ok, package, aligned := OpenShares(shareBuffer, ids, S, size, secretSize, secretBuffer, shares);
    }

    method DecodingEx(shareBuffer: array<byte>, ids: seq<nat>, S: nat, secretSize: nat, secretBuffer: array<byte>,
                      ghost shares: Bytes)
      returns (ok: bool, ghost package: Bytes, ghost aligned: Bytes)
      requires Valid() && |ids| == P.K() && forall i :: 0 <= i < |ids| ==> ids[i] < P.n
      requires Apart(shareBuffer) && Apart(secretBuffer) && shareBuffer != secretBuffer
      requires |shares| == P.K() * S <= shareBuffer.Length && shareBuffer[..][..|shares|] == shares
      requires secretSize <= secretBuffer.Length
      modifies squareMatrix, inverseMatrix, erasureCodingData, key, alignedSecretBuffer, secretBuffer
      ensures ok ==> P.SizesAccepted(S, secretSize) && NoRepeats(ids)
      ensures ok ==> P.Decodes(ids, S, shares, package, aligned)
      ensures ok ==> P.Accepts(S, package, aligned) && secretSize <= |aligned|
      ensures ok ==> secretBuffer[..][..secretSize] == aligned[..secretSize]
      ensures !ok && P.SizesAccepted(S, secretSize) && NoRepeats(ids) ==>
        P.NoneAccepted(ids, S, shares)
    {
      if P.scheme.Crsss? {
        ok, package, aligned := CrsssDecoding(shareBuffer, ids, S, secretSize, secretBuffer, shares);
      } else {
        ok, package, aligned := PackageDecoding(shareBuffer, ids, S, secretSize, secretBuffer, shares);
      }
    }
  }

  /** Blocks copied from the data are the shares of the identity rows. */
  lemma SystematicBlocks(F: Field, n: nat, k: nat, data: Bytes, size: nat, shares: Bytes)
    requires F.Lawful() && k <= n <= 256 && k * size <= |data| && k * size <= n * size <= |shares|
    requires shares[..k * size] == data[..k * size]
    ensures BlocksAreShares(F, SystematicMatrix(F, n, k), k, data, size, shares, 0, k)
  {
    forall i {:trigger SystematicMatrix(F, n, k)[i]} | 0 <= i < k
      ensures (i + 1) * size <= |shares|
           && Block(shares, i, size) == Share(F, SystematicMatrix(F, n, k)[i], data, size)
    {
      BlockFits(i, k, size);
      SystematicBlock(F, k, data, size, shares, i);
    }
  }

  lemma SystematicBlock(F: Field, k: nat, data: Bytes, size: nat, shares: Bytes, i: nat)
    requires F.Lawful() && k * size <= |data| && k * size <= |shares| && shares[..k * size] == data[..k * size]
    requires i < k && (i + 1) * size <= k * size
    ensures Block(shares, i, size) == Share(F, UnitVector(k, i), data, size)
  {
    SamePrefixSameBlock(shares, data, i, k * size, size);
    UnitShare(F, k, i, data, size);
  }

  lemma SamePrefixSameBlock(s: Bytes, t: Bytes, i: nat, limit: nat, size: nat)
    requires (i + 1) * size <= limit <= |s| && limit <= |t| && s[..limit] == t[..limit]
    ensures Block(s, i, size) == Block(t, i, size)
  {
    var at, next := i * size, (i + 1) * size;
    assert s[at..next] == s[..limit][at..next] == t[..limit][at..next] == t[at..next];
  }

  lemma UnitShare(F: Field, k: nat, i: nat, data: Bytes, size: nat)
    requires F.Lawful() && i < k && (i + 1) * size <= k * size <= |data|
    ensures Share(F, UnitVector(k, i), data, size) == Block(data, i, size)
  {
    forall p | 0 <= p < size ensures Share(F, UnitVector(k, i), data, size)[p] == Block(data, i, size)[p] {
      DotUnit(F, k, i, Lane(data, k, size, p));
    }
  }

  lemma CrsssSizes(P: Params, secretSize: nat)
    requires P.Valid() && P.scheme.Crsss? && P.AlignedSize(secretSize) <= P.BufferSize()
    ensures var size, g, S := P.AlignedSize(secretSize), P.GroupBytes(), P.ShareSizeOf(secretSize);
      && secretSize <= size && size == size / g * g
      && S == P.W() * (size / g) == size / g * P.W() && S % P.W() == 0 && S / P.W() == size / g
      && S * P.K() == P.K() * S <= P.CodingSize()
  {
    var size, g := P.AlignedSize(secretSize), P.GroupBytes();
    GroupAlignedSizeIsLeast(secretSize, g);
    GroupsFitCodingData(size, P.W(), g, P.K());
    Multiple(size / g, P.W());
  }

  lemma CrsssLayoutFits(P: Params, secretSize: nat, L: Layout)
    requires P.Valid() && P.scheme.Crsss? && P.AlignedSize(secretSize) <= P.BufferSize()
    requires var size, g := P.AlignedSize(secretSize), P.GroupBytes();
      L == Layout(P.W(), P.Words(), GroupCount(size, g), P.K(), g, GroupShareSize(size, P.W(), g))
    ensures var size, S := P.AlignedSize(secretSize), P.ShareSizeOf(secretSize);
      && L == P.Groups(S) && L.Valid() && L.blockSize == S && S % P.W() == 0
      && secretSize <= size == L.groups * L.groupSize
      && 0 <= S * P.K() == P.K() * S <= P.CodingSize()
  {
    CrsssSizes(P, secretSize);
    MulMonotone(0, P.K(), P.ShareSizeOf(secretSize));
  }

  lemma CrsssEncodes(P: Params, secret: Bytes, L: Layout, package: Bytes, shares: Bytes)
    requires P.Valid() && P.scheme.Crsss?
    requires var S, size := P.ShareSizeOf(|secret|), P.AlignedSize(|secret|);
      && L == P.Groups(S) && S % P.W() == 0 && |secret| <= size && |package| == P.K() * S && |shares| == P.n * S
      && L.Holds(Padded(secret, size), package) && WordsSpread(L, Padded(secret, size), package)
      && HashesMatch(P.crypto, L, Padded(secret, size), package)
      && HoldsShares(P.F, P.Distribution(), P.K(), package, S, shares)
    ensures P.Encodes(secret, package, shares)
  {
  }

  lemma PackageSizes(P: Params, secretSize: nat)
    requires P.Valid() && !P.scheme.Crsss? && P.AlignedSize(secretSize) <= P.BufferSize()
    ensures var size, S := P.AlignedSize(secretSize), P.ShareSizeOf(secretSize);
      && secretSize <= size && size % P.W() == 0 && S % P.W() == 0
      && S * P.K() == P.K() * S == size + P.W() <= P.CodingSize()
      && P.K() * S <= P.n * S
  {
    var size := P.AlignedSize(secretSize);
    AlignedSizeIsLeast(secretSize, P.W(), P.K());
    SharesHoldPackage(size, P.W(), P.K());
    PackageFitsCodingData(size, P.W(), P.K());
    MulMonotone(P.K(), P.n, P.ShareSizeOf(secretSize));
  }

  lemma SealedEncodes(P: Params, secret: Bytes, package: Bytes, shares: Bytes, packageKey: Bytes)
    requires P.Valid() && !P.scheme.Crsss? && P.AlignedSize(|secret|) <= P.BufferSize()
    requires |secret| <= P.AlignedSize(|secret|) && |packageKey| == P.W()
    requires P.scheme.AontRs? || packageKey == P.crypto.hash(Padded(secret, P.AlignedSize(|secret|)))
    requires P.AlignedSize(|secret|) % P.W() == 0
    requires package == Sealed(P.F, P.scheme, P.crypto, P.W(), Padded(secret, P.AlignedSize(|secret|)), packageKey)
    requires |shares| == P.n * P.ShareSizeOf(|secret|) && |package| == P.K() * P.ShareSizeOf(|secret|)
    requires HoldsShares(P.F, P.Distribution(), P.K(), package, P.ShareSizeOf(|secret|), shares)
    ensures P.Encodes(secret, package, shares)
  {
    PackageSizes(P, |secret|);
  }

  lemma DecodedSizes(S: nat, w: nat, k: nat)
    requires w > 0 && S % w == 0
    ensures S * k == k * S && (S * k - w) % w == 0
  {
    WholeWords(S, w);
    var q := S / w;
    assert S * k - w == (q * k - 1) * w;
    Multiple(q * k - 1, w);
  }

  lemma RefusedGroups(P: Params, ids: seq<nat>, S: nat, shares: Bytes, package: Bytes, size: nat)
    requires P.Valid() && P.scheme.Crsss? && ShareIds(ids, P.n, P.K()) && S % P.W() == 0
    requires |shares| == |package| == P.K() * S && S == S / P.W() * P.W() && size == S / P.W() * P.GroupBytes()
    requires HoldsShares(P.F, SelectedRows(P.Distribution(), ids, P.K()), P.K(), package, S, shares)
    requires forall other: Bytes :: |other| == size && WordsSpread(P.Groups(S), other, package) ==>
      !HashesMatch(P.crypto, P.Groups(S), other, package)
    ensures P.NoneAccepted(ids, S, shares)
  {
    forall p: Bytes, a: Bytes | P.Decodes(ids, S, shares, p, a) ensures !P.Accepts(S, p, a) {
      SharesFixPackage(P, ids, S, shares, package, p);
      assert WordsSpread(P.Groups(S), a, package);
    }
  }

  lemma RefusedPackage(P: Params, ids: seq<nat>, S: nat, shares: Bytes, package: Bytes)
    requires P.Valid() && !P.scheme.Crsss? && ShareIds(ids, P.n, P.K())
    requires |shares| == |package| == P.K() * S && |package| >= P.W() && (|package| - P.W()) % P.W() == 0
    requires HoldsShares(P.F, SelectedRows(P.Distribution(), ids, P.K()), P.K(), package, S, shares)
    requires !P.scheme.AontRs?
    requires P.crypto.hash(OpenedSecret(P.F, P.scheme, P.crypto, P.W(), package))
          != OpenedKey(P.F, P.crypto, P.W(), package)
    ensures P.NoneAccepted(ids, S, shares)
  {
    forall p: Bytes, a: Bytes | P.Decodes(ids, S, shares, p, a) ensures !P.Accepts(S, p, a) {
      SharesFixPackage(P, ids, S, shares, package, p);
    }
  }
}
