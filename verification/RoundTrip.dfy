/** Encoding a secret and decoding any k of its shares, as the library's own test
    program does with its shares reordered. */
module RoundTrip {
  import opened GaloisField
  import opened Lists
  import opened LinearAlgebra
  import opened DistributionMatrix
  import opened CodecSizes
  import opened ErasureCoding
  import opened Regions
  import opened CodecSpec
  import opened CDCodec

  /** One share, read out of the buffer of all shares. */
  method ShareAt(shareBuffer: array<byte>, id: nat, S: nat, ghost F: Field, ghost D: Matrix, ghost k: nat, ghost package: Bytes)
    returns (share: Bytes)
    requires Shaped(D, |D|, k) && id < |D| && |package| == k * S && shareBuffer.Length == |D| * S
    requires HoldsShares(F, D, k, package, S, shareBuffer[..])
    ensures share == Share(F, D[id], package, S)
  {
    BlockFits(id, |D|, S);
    var at := id * S;
    share := shareBuffer[at..at + S];
    assert share == Block(shareBuffer[..], id, S);
  }

  method StoreShare(chosen: array<byte>, i: nat, S: nat, share: Bytes, ghost F: Field, ghost A: Matrix, ghost k: nat, ghost package: Bytes)
    requires Shaped(A, |A|, k) && i < |A| && k * S <= |package| && chosen.Length == |A| * S
    requires share == Share(F, A[i], package, S) && BlocksAreShares(F, A, k, package, S, chosen[..], 0, i)
    modifies chosen
    ensures BlocksAreShares(F, A, k, package, S, chosen[..], 0, i + 1)
  {
    BlockFits(i, |A|, S);
    var at := i * S;
    ghost var before := chosen[..];
    CopyRegion(share, chosen, at);
    assert chosen[..][at..at + S] == share;
    OneMoreShare(F, A, k, package, S, before, chosen[..], i);
  }

  /** Collects the chosen shares, in the order of their ids. */
  method SelectShares(shareBuffer: array<byte>, ids: seq<nat>, S: nat,
                      ghost F: Field, ghost D: Matrix, ghost k: nat, ghost package: Bytes)
    returns (chosen: array<byte>)
    requires Shaped(D, |D|, k) && |ids| == k && forall i :: 0 <= i < |ids| ==> ids[i] < |D|
    requires |package| == k * S && shareBuffer.Length == |D| * S
    requires HoldsShares(F, D, k, package, S, shareBuffer[..])
    ensures fresh(chosen) && chosen.Length == k * S
    ensures HoldsShares(F, SelectedRows(D, ids, k), k, package, S, chosen[..])
  {
    hide Share, HoldsShares, BlocksAreShares, SelectedRows;
    MulMonotone(0, |ids|, S);
    chosen := new byte[|ids| * S];
    ghost var A := SelectedRows(D, ids, k);
    RowsSelected(D, ids, k);
    NoBlocksYet(F, A, k, package, S, chosen[..]);
    for i := 0 to |ids|
      invariant BlocksAreShares(F, A, k, package, S, chosen[..], 0, i)
    {
      var share := ShareAt(shareBuffer, ids[i], S, F, D, k, package);
      StoreShare(chosen, i, S, share, F, A, k, package);
    }
    AllBlocks(F, A, k, package, S, chosen[..]);
  }

  lemma RowsSelected(D: Matrix, ids: seq<nat>, k: nat)
    requires Shaped(D, |D|, k) && forall i :: 0 <= i < |ids| ==> ids[i] < |D|
    ensures var A := SelectedRows(D, ids, k);
      |A| == |ids| && Shaped(A, |A|, k) && forall i :: 0 <= i < |ids| ==> A[i] == D[ids[i]]
  {
  }

  lemma NoBlocksYet(F: Field, A: Matrix, k: nat, package: Bytes, S: nat, shares: Bytes)
    requires Shaped(A, |A|, k) && k * S <= |package| && |A| * S <= |shares|
    ensures BlocksAreShares(F, A, k, package, S, shares, 0, 0)
  {
  }

  lemma AllBlocks(F: Field, A: Matrix, k: nat, package: Bytes, S: nat, shares: Bytes)
    requires Shaped(A, |A|, k) && k * S <= |package| && |A| * S <= |shares|
    requires BlocksAreShares(F, A, k, package, S, shares, 0, |A|)
    ensures HoldsShares(F, A, k, package, S, shares)
  {
    hide Share;
  }

  method EncodeAndSelect(codec: CDCodec, secret: array<byte>, ids: seq<nat>, randomKey: Bytes)
    returns (S: nat, chosen: array<byte>, ghost package: Bytes, ghost aligned: Bytes)
    requires codec.Valid() && codec.Apart(secret) && secret.Length <= MAX_SECRET_SIZE
    requires ShareIds(ids, codec.P.n, codec.P.K()) && |randomKey| == codec.P.W()
    modifies secret, codec.alignedSecretBuffer, codec.erasureCodingData, codec.key
    ensures fresh(chosen) && chosen.Length == codec.P.K() * S && codec.P.SizesAccepted(S, secret.Length)
    ensures secret.Length <= |aligned| && aligned[..secret.Length] == old(secret[..])
    ensures |package| == codec.P.K() * S && codec.P.Packs(S, aligned, package)
    ensures HoldsShares(codec.P.F, SelectedRows(codec.P.Distribution(), ids, codec.P.K()), codec.P.K(),
                        package, S, chosen[..])
  {
    var P := codec.P;
    var size := secret.Length;
    assert secret[..][..size] == secret[..];
    SecretsUpToMaximumEncode(P, size);
    EncodedSizesAccepted(P, size);
    var shareBuffer := new byte[P.SharesSize(size)];
    ghost var plain := secret[..];
    var encoded;
    encoded, S, package := codec.EncodingEx(secret, size, size, shareBuffer, randomKey);
    aligned := Padded(plain, P.AlignedSize(size));
    assert shareBuffer[..][..P.SharesSize(size)] == shareBuffer[..];
    chosen := SelectShares(shareBuffer, ids, S, P.F, P.Distribution(), P.K(), package);
  }

  /** Every secret up to the maximum size comes back from any k distinct shares,
      in any order, under all four schemes and every random key. */
  method EncodeThenDecode(codec: CDCodec, secret: array<byte>, ids: seq<nat>, randomKey: Bytes)
    returns (ok: bool, recovered: array<byte>)
    requires codec.Valid() && codec.Apart(secret) && secret.Length <= MAX_SECRET_SIZE
    requires ShareIds(ids, codec.P.n, codec.P.K()) && |randomKey| == codec.P.W()
    modifies secret, codec.alignedSecretBuffer, codec.erasureCodingData, codec.key
    modifies codec.squareMatrix, codec.inverseMatrix
    ensures ok && fresh(recovered) && recovered[..] == old(secret[..])
  {
    var S, chosen, package, aligned := EncodeAndSelect(codec, secret, ids, randomKey);
    recovered := new byte[secret.Length];
    ghost var shares := chosen[..];
    assert chosen[..][..|shares|] == shares;
    ghost var package', aligned';
    ok, package', aligned' := codec.DecodingEx(chosen, ids, S, secret.Length, recovered, shares);
    SharesDecode(codec.P, ids, S, aligned, package, shares, ok, package', aligned');
    assert recovered[..][..secret.Length] == recovered[..];
  }

  /** Whatever k buffers a decoder accepts, encoding the aligned secret it found
      makes them again; AONT-RS, whose key is random, is excepted. */
  method DecodeThenEncode(codec: CDCodec, shares: array<byte>, ids: seq<nat>, S: nat, wholeSize: nat, randomKey: Bytes)
    returns (ok: bool, again: array<byte>)
    requires codec.Valid() && codec.Apart(shares) && !codec.P.scheme.AontRs?
    requires ShareIds(ids, codec.P.n, codec.P.K()) && |randomKey| == codec.P.W()
    requires shares.Length == codec.P.K() * S && wholeSize == codec.P.WholeSize(S)
    modifies codec.alignedSecretBuffer, codec.erasureCodingData, codec.key, codec.squareMatrix, codec.inverseMatrix
    ensures ok ==> fresh(again) && again[..] == shares[..] == old(shares[..])
    ensures !ok && codec.P.SizesAccepted(S, wholeSize) ==> codec.P.NoneAccepted(ids, S, shares[..])
  {
    CodecFacts(codec, shares);
    hide *;
    var P := codec.P;
    ghost var given := shares[..];
    var recovered := new byte[wholeSize];
    assert shares[..][..|given|] == given;
    NewBuffer(codec, recovered);
    DistinctIds(ids, P.n, P.K());
    ghost var package, aligned;
    ok, package, aligned := codec.DecodingEx(shares, ids, S, wholeSize, recovered, given);
    again := recovered;
    if !ok {
      return;
    }
    Reproduces(P, ids, S, given, package, aligned, wholeSize);
    assert recovered[..] == recovered[..][..wholeSize] == aligned[..wholeSize] == aligned;
    var shareBuffer := new byte[P.SharesSize(wholeSize)];
    NewBuffer(codec, shareBuffer);
    var encoded, S', package' := codec.EncodingEx(recovered, wholeSize, wholeSize, shareBuffer, randomKey);
    assert shareBuffer[..][..P.SharesSize(wholeSize)] == shareBuffer[..];
    EncodedAgain(P, ids, S, given, package, aligned, package', shareBuffer[..]);
    again := SelectShares(shareBuffer, ids, S, P.F, P.Distribution(), P.K(), package');
    SharesUnique(P.F, SelectedRows(P.Distribution(), ids, P.K()), P.K(), package, S, again[..], given);
  }

  lemma CodecFacts(codec: CDCodec, buffer: array<byte>)
    requires codec.Valid() && codec.Apart(buffer)
    ensures buffer != codec.alignedSecretBuffer && buffer != codec.erasureCodingData && buffer != codec.key
    ensures codec.P.Valid() && codec.P.m <= codec.P.n
    ensures if codec.P.scheme.Crsss? then codec.P.n + (codec.P.n - codec.P.m) <= 256 else codec.P.n <= 256
  {
  }

  lemma NewBuffer(codec: CDCodec, buffer: array<byte>)
    requires buffer != codec.alignedSecretBuffer && buffer != codec.erasureCodingData && buffer != codec.key
    ensures codec.Apart(buffer)
  {
  }

  lemma DistinctIds(ids: seq<nat>, n: nat, k: nat)
    requires ShareIds(ids, n, k)
    ensures NoRepeats(ids) && |ids| == k && forall i :: 0 <= i < k ==> ids[i] < n
  {
  }

  /** The encoder takes what the decoder found, at the same sizes. */
  lemma Reproduces(P: Params, ids: seq<nat>, S: nat, shares: Bytes, package: Bytes, aligned: Bytes, wholeSize: nat)
    requires P.Valid() && ShareIds(ids, P.n, P.K()) && wholeSize == P.WholeSize(S) && P.SizesAccepted(S, wholeSize)
    requires P.Decodes(ids, S, shares, package, aligned) && P.Accepts(S, package, aligned)
    ensures |aligned| == wholeSize && P.AlignedSize(wholeSize) == wholeSize <= P.BufferSize() && P.ShareSizeOf(wholeSize) == S
  {
    AcceptedDecodingReproducesShares(P, ids, S, shares, package, aligned);
  }

  lemma EncodedAgain(P: Params, ids: seq<nat>, S: nat, shares: Bytes, package: Bytes, aligned: Bytes, again: Bytes, all: Bytes)
    requires P.Valid() && ShareIds(ids, P.n, P.K()) && !P.scheme.AontRs?
    requires P.Decodes(ids, S, shares, package, aligned) && P.Accepts(S, package, aligned)
    requires P.Encodes(aligned, again, all) && P.ShareSizeOf(|aligned|) == S
    ensures again == package && |package| == |shares| == P.K() * S && |all| == P.n * S
    ensures Shaped(P.Distribution(), P.n, P.K()) && |ids| == P.K() && |P.Distribution()| == P.n
    ensures |SelectedRows(P.Distribution(), ids, P.K())| == P.K()
    ensures HoldsShares(P.F, P.Distribution(), P.K(), package, S, all)
    ensures HoldsShares(P.F, SelectedRows(P.Distribution(), ids, P.K()), P.K(), package, S, shares)
  {
    AcceptedDecodingReproducesShares(P, ids, S, shares, package, aligned);
  }

  /** Whatever a decoder answers about shares of a packed secret, it answers that
      they decode, and to that secret. */
  lemma SharesDecode(P: Params, ids: seq<nat>, S: nat, aligned: Bytes, package: Bytes, shares: Bytes,
                     ok: bool, package': Bytes, aligned': Bytes)
    requires P.Valid() && ShareIds(ids, P.n, P.K()) && P.Packs(S, aligned, package)
    requires |shares| == |package| == P.K() * S
    requires HoldsShares(P.F, SelectedRows(P.Distribution(), ids, P.K()), P.K(), package, S, shares)
    requires ok ==> P.Decodes(ids, S, shares, package', aligned')
    requires !ok ==> P.NoneAccepted(ids, S, shares)
    ensures ok && aligned' == aligned
  {
    PackedCanBeOpened(P, S, aligned, package);
    assert P.Decodes(ids, S, shares, package, aligned);
    if ok {
      DecodingUndoesEncoding(P, ids, S, aligned, package, shares, package', aligned');
    }
  }
}
