/** The codec as a whole, on values: its parameters, what an encoding and an
    accepted decoding are, and how the two relate. */
module CodecSpec {
  import opened GaloisField
  import opened Lists
  import opened LinearAlgebra
  import opened DistributionMatrix
  import opened CodecSizes
  import opened ErasureCoding
  import opened Packaging

  /** A secret followed by the zero bytes that align it. */
  function Padded(secret: Bytes, size: nat): (aligned: Bytes)
    requires |secret| <= size
    ensures |aligned| == size && aligned[..|secret|] == secret
  {
    secret + Zeros(size - |secret|)
  }

  datatype Params = Params(scheme: Scheme, n: nat, m: nat, r: nat, F: Field, crypto: Crypto) {

    /** What the constructor insists on, and that every matrix index is a byte. */
    ghost predicate Valid() {
      && 0 < m < n && n - m > 1
      && F.Lawful() && crypto.Valid()
      && (if scheme.Crsss? then 0 < r < n - m && n + (n - m) <= 256
          else r == n - m - 1 && crypto.hashSize == crypto.keySize && n <= 256)
    }

    /** How many shares restore the secret. */
    function K(): (k: nat)
      requires m <= n
    {
      n - m
    }

    /** Bytes per secret word. */
    function W(): (w: nat)
      requires crypto.hashSize >= 0
    {
      crypto.hashSize
    }

    /** Secret words per hash group, CRSSS only. */
    function Words(): (words: nat)
      requires m <= n && r <= n - m
    {
      n - m - r
    }

    /** Bytes per hash group, CRSSS only. */
    function GroupBytes(): (g: nat)
      requires Valid() && scheme.Crsss?
      ensures g > 0
    {
      MulMonotone(1, Words(), W());
      Words() * W()
    }

    function AlignedSize(s: nat): (a: nat)
      requires Valid()
    {
      if scheme.Crsss? then GroupAlignedSize(s, GroupBytes())
      else AlignedSecretSize(s, W(), K())
    }

    /** The size of each share of a secret of s bytes. */
    function ShareSizeOf(s: nat): (size: nat)
      requires Valid()
    {
      if scheme.Crsss? then GroupShareSize(AlignedSize(s), W(), GroupBytes())
      else ShareSize(AlignedSize(s), W(), K())
    }

    /** The size of all n shares together. */
    function SharesSize(s: nat): (size: nat)
      requires Valid()
      ensures size == n * ShareSizeOf(s)
    {
      MulMonotone(0, n, ShareSizeOf(s));
      n * ShareSizeOf(s)
    }

    function BufferSize(): (size: nat)
      requires Valid()
    {
      if scheme.Crsss? then GroupBufferSize(GroupBytes()) else AlignedBufferSize(W(), K())
    }

    function CodingSize(): (size: nat)
      requires Valid()
    {
      if scheme.Crsss? then GroupCodingDataSize(W(), GroupBytes(), K()) else CodingDataSize(W(), K())
    }

    function Distribution(): (D: Matrix)
      requires m <= n && (if scheme.Crsss? then n + (n - m) <= 256 else n <= 256)
      ensures Shaped(D, n, K())
    {
      if scheme.Crsss? then DispersalMatrix(F, n, K()) else SystematicMatrix(F, n, K())
    }

    // ------------------------------------------------------------ packages

    /** How CRSSS lays out shares of S bytes. */
    ghost function Groups(S: nat): (L: Layout)
      requires Valid() && scheme.Crsss?
    {
      Layout(W(), Words(), S / W(), K(), GroupBytes(), S)
    }

    /** The sizes of an aligned secret and of its k data blocks of S bytes fit together. */
    ghost predicate Fitting(S: nat, aligned: Bytes, package: Bytes)
      requires Valid()
    {
      && S % W() == 0
      && |package| == K() * S
      && (if scheme.Crsss? then Groups(S).Holds(aligned, package)
          else |aligned| + W() == |package| && |aligned| % W() == 0)
    }

    /** `package` is what the scheme makes of the aligned secret. */
    ghost predicate Packs(S: nat, aligned: Bytes, package: Bytes)
      requires Valid()
    {
      && Fitting(S, aligned, package)
      && match scheme
         case Crsss =>
           && WordsSpread(Groups(S), aligned, package)
           && HashesMatch(crypto, Groups(S), aligned, package)
         case AontRs =>
           exists key: Bytes :: |key| == W() && package == Sealed(F, scheme, crypto, W(), aligned, key)
         case OldCaontRs | CaontRs =>
           package == Sealed(F, scheme, crypto, W(), aligned, crypto.hash(aligned))
    }

    /** `aligned` is what the decoder reads out of `package`. */
    ghost predicate Opens(S: nat, package: Bytes, aligned: Bytes)
      requires Valid()
    {
      && Fitting(S, aligned, package)
      && (if scheme.Crsss? then WordsSpread(Groups(S), aligned, package)
          else aligned == OpenedSecret(F, scheme, crypto, W(), package))
    }

    /** `package` is made of the padded secret, and `shares` are its n shares. */
    ghost predicate Encodes(secret: Bytes, package: Bytes, shares: Bytes)
      requires Valid()
    {
      var S, size := ShareSizeOf(|secret|), AlignedSize(|secret|);
      && |secret| <= size && Packs(S, Padded(secret, size), package)
      && |shares| == n * S && HoldsShares(F, Distribution(), K(), package, S, shares)
    }

    /** The package of a secret under a given key, AONT-RS only. */
    ghost function SealedWith(secret: Bytes, key: Bytes): (package: Bytes)
      requires Valid() && !scheme.Crsss? && |key| == W()
    {
      AlignedSizeIsLeast(|secret|, W(), K());
      SharesHoldPackage(AlignedSize(|secret|), W(), K());
      Sealed(F, scheme, crypto, W(), Padded(secret, AlignedSize(|secret|)), key)
    }

    /** The decoder's integrity check; AONT-RS has none. */
    ghost predicate Accepts(S: nat, package: Bytes, aligned: Bytes)
      requires Valid()
    {
      && Fitting(S, aligned, package)
      && match scheme
         case Crsss => HashesMatch(crypto, Groups(S), aligned, package)
         case AontRs => true
         case OldCaontRs | CaontRs => crypto.hash(aligned) == OpenedKey(F, crypto, W(), package)
    }

    /** The size checks a decoder makes on its arguments. */
    ghost predicate SizesAccepted(S: nat, secretSize: nat)
      requires Valid()
    {
      && S % W() == 0
      && S * K() <= CodingSize()
      && secretSize <= WholeSize(S) <= BufferSize()
    }

    /** How long an aligned secret shares of S bytes are decoded to; negative if they are too short for one. */
    function WholeSize(S: nat): (size: int)
      requires Valid()
    {
      if scheme.Crsss? then GroupBytes() * (S / W()) else S * K() - W()
    }

    /** k shares with the given ids come from `package`, which reads as `aligned`. */
    ghost predicate Decodes(ids: seq<nat>, S: nat, shares: Bytes, package: Bytes, aligned: Bytes)
      requires Valid() && |ids| == K() && forall i :: 0 <= i < |ids| ==> ids[i] < n
    {
      && |package| == |shares| == K() * S
      && HoldsShares(F, SelectedRows(Distribution(), ids, K()), K(), package, S, shares)
      && Opens(S, package, aligned)
    }

    /** Whatever the shares could be decoded to fails the integrity check. */
    ghost predicate NoneAccepted(ids: seq<nat>, S: nat, shares: Bytes)
      requires Valid() && |ids| == K() && forall i :: 0 <= i < |ids| ==> ids[i] < n
    {
      forall package: Bytes, aligned: Bytes :: Decodes(ids, S, shares, package, aligned) ==>
        !Accepts(S, package, aligned)
    }
  }

  // ---------------------------------------------------------------- theorems

  lemma AnyRowsInvertible(P: Params, ids: seq<nat>)
    requires P.Valid() && ShareIds(ids, P.n, P.K())
    ensures NonSingular(P.F, P.K(), SelectedRows(P.Distribution(), ids, P.K()))
  {
    if P.scheme.Crsss? {
      AnyRowsOfDispersalMatrixInvertible(P.F, P.n, P.K(), ids);
    } else {
      AnyRowsOfSystematicMatrixInvertible(P.F, P.n, P.K(), ids);
    }
  }

  /** Two equal rows cannot both be matched: such a selection is never inverted. */
  lemma RepeatedRowsNotInvertible(P: Params, ids: seq<nat>, V: Matrix)
    requires P.Valid() && |ids| == P.K() && forall i :: 0 <= i < |ids| ==> ids[i] < P.n
    requires !NoRepeats(ids) && Shaped(V, P.K(), P.K())
    ensures !Inverses(P.F, P.K(), SelectedRows(P.Distribution(), ids, P.K()), V)
  {
    var k, A := P.K(), SelectedRows(P.Distribution(), ids, P.K());
    var i, j :| 0 <= i < j < k && ids[i] == ids[j];
    var y := UnitVector(k, i);
    var x := Apply(P.F, V, y);
    assert Apply(P.F, A, x)[i] == Apply(P.F, A, x)[j];
    assert y[i] != y[j];
  }

  /** What an all-or-nothing package consists of: every word masked by the cipher
      of its own index (every byte by that of its position, under CAONT-RS), and
      the key, which is the secret's hash unless it is random, behind the hash of that. */
  lemma PackedIsMasked(P: Params, S: nat, aligned: Bytes, package: Bytes) returns (key: Bytes)
    requires P.Valid() && !P.scheme.Crsss? && P.Packs(S, aligned, package)
    ensures |key| == P.W() && (!P.scheme.AontRs? ==> key == P.crypto.hash(aligned))
    ensures |package| == |aligned| + P.W()
    ensures package[|aligned|..] == Xor(P.F, P.crypto.hash(package[..|aligned|]), key)
    ensures P.scheme.CaontRs? ==> BytesMasked(P.F, P.crypto, aligned, key, package)
    ensures !P.scheme.CaontRs? ==>
      forall i: nat {:trigger WordMasked(P.F, P.crypto, P.W(), aligned, key, package, i)} :: i < |aligned| / P.W() ==>
        i * P.W() + P.W() <= |aligned| && WordMasked(P.F, P.crypto, P.W(), aligned, key, package, i)
  {
    hide WordMasked, BytesMasked, Xor, Sealed;
    if P.scheme.AontRs? {
      key :| |key| == P.W() && package == Sealed(P.F, P.scheme, P.crypto, P.W(), aligned, key);
    } else {
      key := P.crypto.hash(aligned);
    }
    SealedTail(P.F, P.scheme, P.crypto, P.W(), aligned, key);
    if P.scheme.CaontRs? {
      SealedBytes(P.F, P.crypto, P.W(), aligned, key);
    } else {
      forall i: nat | i < |aligned| / P.W()
        ensures i * P.W() + P.W() <= |aligned| && WordMasked(P.F, P.crypto, P.W(), aligned, key, package, i)
      {
        SealedWord(P.F, P.scheme, P.crypto, P.W(), aligned, key, i);
      }
    }
  }

  /** What a CRSSS package consists of: each word of each group, unchanged, in the
      block of its place in the group, then r hashes of the group with different
      bytes after it, one to a block. */
  lemma PackedIsSpread(P: Params, S: nat, aligned: Bytes, package: Bytes, i: nat, j: nat, t: nat)
    requires P.Valid() && P.scheme.Crsss? && P.Packs(S, aligned, package) && i < S / P.W() && t < P.W()
    ensures j < P.Words() ==>
      && 0 <= i * P.GroupBytes() + j * P.W() + t < |aligned| && 0 <= j * S + i * P.W() + t < |package|
      && package[j * S + i * P.W() + t] == aligned[i * P.GroupBytes() + j * P.W() + t]
    ensures j < P.r ==>
      && 0 <= i * P.GroupBytes() <= i * P.GroupBytes() + P.GroupBytes() <= |aligned|
      && 0 <= (P.Words() + j) * S + i * P.W() <= (P.Words() + j) * S + i * P.W() + P.W() <= |package|
      && package[(P.Words() + j) * S + i * P.W()..(P.Words() + j) * S + i * P.W() + P.W()]
         == P.crypto.hash(aligned[i * P.GroupBytes()..i * P.GroupBytes() + P.GroupBytes()] + [j as byte])
  {
    hide WordsSpread, HashesMatch;
    if j < P.Words() {
      SpreadBytes(P.Groups(S), aligned, package, i, j, t);
    }
    if j < P.r {
      HashBytes(P.crypto, P.Groups(S), aligned, package, i, j);
    }
  }

  /** What is packed is opened and accepted, and it is the only thing opened. */
  lemma PackedOpens(P: Params, S: nat, aligned: Bytes, package: Bytes, aligned': Bytes)
    requires P.Valid() && P.Packs(S, aligned, package) && P.Opens(S, package, aligned')
    ensures aligned' == aligned && P.Accepts(S, package, aligned)
  {
    match P.scheme
    case Crsss =>
      SpreadSecretUnique(P.Groups(S), aligned, aligned', package);
    case AontRs =>
      var key: Bytes :| |key| == P.W() && package == Sealed(P.F, P.scheme, P.crypto, P.W(), aligned, key);
      OpenSealed(P.F, P.scheme, P.crypto, P.W(), aligned, key);
    case _ =>
      OpenSealed(P.F, P.scheme, P.crypto, P.W(), aligned, P.crypto.hash(aligned));
  }

  /** A packed secret can be opened. */
  lemma PackedCanBeOpened(P: Params, S: nat, aligned: Bytes, package: Bytes)
    requires P.Valid() && P.Packs(S, aligned, package)
    ensures P.Opens(S, package, aligned) && P.Accepts(S, package, aligned)
  {
    match P.scheme
    case Crsss =>
    case AontRs =>
      var key: Bytes :| |key| == P.W() && package == Sealed(P.F, P.scheme, P.crypto, P.W(), aligned, key);
      OpenSealed(P.F, P.scheme, P.crypto, P.W(), aligned, key);
    case _ =>
      OpenSealed(P.F, P.scheme, P.crypto, P.W(), aligned, P.crypto.hash(aligned));
  }

  /** What is opened and accepted packs again to the same package. */
  lemma AcceptedPacks(P: Params, S: nat, package: Bytes, aligned: Bytes)
    requires P.Valid() && P.Opens(S, package, aligned) && P.Accepts(S, package, aligned)
    ensures P.Packs(S, aligned, package)
  {
    if !P.scheme.Crsss? {
      SealOpened(P.F, P.scheme, P.crypto, P.W(), package);
      assert |OpenedKey(P.F, P.crypto, P.W(), package)| == P.W();
    }
  }

  lemma SecretsUpToMaximumEncode(P: Params, secretSize: nat)
    requires P.Valid() && secretSize <= MAX_SECRET_SIZE
    ensures P.AlignedSize(secretSize) <= P.BufferSize()
  {
    if P.scheme.Crsss? {
      GroupAlignedSizeIsLeast(secretSize, P.GroupBytes());
    } else {
      SecretsUpToMaximumFit(secretSize, P.W(), P.K());
    }
  }

  /** A share size that encoding chose passes every check of the decoder. */
  lemma EncodedSizesAccepted(P: Params, secretSize: nat)
    requires P.Valid() && P.AlignedSize(secretSize) <= P.BufferSize()
    ensures P.SizesAccepted(P.ShareSizeOf(secretSize), secretSize)
  {
    var w, k, a, S := P.W(), P.K(), P.AlignedSize(secretSize), P.ShareSizeOf(secretSize);
    if P.scheme.Crsss? {
      var g := P.GroupBytes();
      GroupAlignedSizeIsLeast(secretSize, g);
      GroupsFitCodingData(a, w, g, k);
      Multiple(a / g, w);
      assert S == (a / g) * w;
      assert a == a / g * g == g * (a / g);
    } else {
      AlignedSizeIsLeast(secretSize, w, k);
      SharesHoldPackage(a, w, k);
      PackageFitsCodingData(a, w, k);
    }
  }

  /** Decoding any k distinct shares of an encoding, in any order, passes the size
      and integrity checks and yields the aligned secret. */
  lemma DecodingUndoesEncoding(P: Params, ids: seq<nat>, S: nat, aligned: Bytes, package: Bytes,
                               shares: Bytes, package': Bytes, aligned': Bytes)
    requires P.Valid() && ShareIds(ids, P.n, P.K())
    requires P.Packs(S, aligned, package)
    requires |shares| == P.K() * S
    requires HoldsShares(P.F, SelectedRows(P.Distribution(), ids, P.K()), P.K(), package, S, shares)
    requires P.Decodes(ids, S, shares, package', aligned')
    ensures package' == package && aligned' == aligned && P.Accepts(S, package', aligned')
  {
    SharesFixPackage(P, ids, S, shares, package, package');
    PackedOpens(P, S, aligned, package, aligned');
  }

  /** k distinct shares have at most one package. */
  lemma SharesFixPackage(P: Params, ids: seq<nat>, S: nat, shares: Bytes, p: Bytes, q: Bytes)
    requires P.Valid() && ShareIds(ids, P.n, P.K()) && |shares| == |p| == |q| == P.K() * S
    requires HoldsShares(P.F, SelectedRows(P.Distribution(), ids, P.K()), P.K(), p, S, shares)
    requires HoldsShares(P.F, SelectedRows(P.Distribution(), ids, P.K()), P.K(), q, S, shares)
    ensures p == q
  {
    var k, A := P.K(), SelectedRows(P.Distribution(), ids, P.K());
    AnyRowsInvertible(P, ids);
    SharesMapLanes(P.F, A, k, p, S, shares);
    SharesMapLanes(P.F, A, k, q, S, shares);
    forall b {:trigger Lane(p, k, S, b)} | 0 <= b < S ensures Lane(p, k, S, b) == Lane(q, k, S, b) {
      assert Lane(shares, k, S, b) == Apply(P.F, A, Lane(p, k, S, b)) == Apply(P.F, A, Lane(q, k, S, b));
      NonSingularIsInjective(P.F, k, A, Lane(p, k, S, b), Lane(q, k, S, b));
    }
    SameLanesSameBytes(p, q, k, S);
  }

  lemma NonSingularIsInjective(F: Field, k: nat, A: Matrix, x: Vector, y: Vector)
    requires F.Lawful() && Shaped(A, k, k) && NonSingular(F, k, A) && |x| == |y| == k
    requires Apply(F, A, x) == Apply(F, A, y)
    ensures x == y
  {
    var d := AddedMultiple(F, x, y, 1);
    forall i | 0 <= i < k ensures Dot(F, A[i], d) == 0 {
      DotSymmetric(F, A[i], d);
      DotAddedMultiple(F, x, y, 1, A[i]);
      DotSymmetric(F, A[i], x);
      DotSymmetric(F, A[i], y);
      assert Apply(F, A, x)[i] == Apply(F, A, y)[i];
      Units(F, Dot(F, A[i], y));
    }
    assert Apply(F, A, d) == Zeros(k);
    forall i | 0 <= i < k ensures x[i] == y[i] {
      assert d[i] == 0;
      Units(F, y[i]);
      AddCancels(F, x[i], y[i], 0);
    }
  }

  lemma {:induction false} DotSymmetric(F: Field, u: Vector, x: Vector)
    requires F.Lawful() && |u| == |x|
    ensures Dot(F, u, x) == Dot(F, x, u)
  {
    if |u| > 0 {
      var n := |u| - 1;
      DotSymmetric(F, u[..n], x[..n]);
      Commutes(F, u[n], x[n]);
    }
  }

  /** The sizes a decoder finds fitting are the ones the encoder picks for a secret as long as the aligned one. */
  lemma FittingSizes(P: Params, S: nat, aligned: Bytes, package: Bytes)
    requires P.Valid() && P.Fitting(S, aligned, package)
    ensures P.AlignedSize(|aligned|) == |aligned| == P.WholeSize(S) && P.ShareSizeOf(|aligned|) == S
  {
    if P.scheme.Crsss? {
      GroupSizesFit(S, |aligned|, P.W(), P.GroupBytes());
    } else {
      PackageSizesFit(S, |aligned|, P.W(), P.K());
    }
  }

  lemma GroupSizesFit(S: nat, a: nat, w: nat, g: nat)
    requires w > 0 && g > 0 && S % w == 0 && a == S / w * g
    ensures GroupAlignedSize(a, g) == a && GroupShareSize(a, w, g) == S
  {
    Multiple(S / w, g);
    WholeWords(S, w);
    assert w * (S / w) == S / w * w;
  }

  lemma PackageSizesFit(S: nat, a: nat, w: nat, k: nat)
    requires w > 0 && k > 0 && S % w == 0 && a + w == k * S
    ensures AlignedSecretSize(a, w, k) == a && ShareSize(a, w, k) == S
  {
    var q := S / w;
    WholeWords(S, w);
    assert k * (q * w) == q * (w * k);
    Multiple(q, w * k);
    assert Aligned(a, w, k);
    AlignedSizeIsLeast(a, w, k);
    SharesHoldPackage(a, w, k);
    assert ShareSize(a, w, k) * k == S * k;
    Multiple(S, k);
    Multiple(ShareSize(a, w, k), k);
  }

  /** An accepted decoding is consistent: encoding the aligned secret it yields
      makes the same package again, whose shares under the same ids are the very
      shares decoded.  AONT-RS, whose key is random, is excepted. */
  lemma AcceptedDecodingReproducesShares(P: Params, ids: seq<nat>, S: nat, shares: Bytes, package: Bytes, aligned: Bytes)
    requires P.Valid() && ShareIds(ids, P.n, P.K())
    requires P.Decodes(ids, S, shares, package, aligned) && P.Accepts(S, package, aligned)
    ensures P.Packs(S, aligned, package)
    ensures P.AlignedSize(|aligned|) == |aligned| == P.WholeSize(S) && P.ShareSizeOf(|aligned|) == S
    ensures forall again: Bytes, all: Bytes :: !P.scheme.AontRs? && P.Encodes(aligned, again, all) ==>
      again == package
      && HoldsShares(P.F, SelectedRows(P.Distribution(), ids, P.K()), P.K(), again, S, shares)
  {
    AcceptedPacks(P, S, package, aligned);
    FittingSizes(P, S, aligned, package);
    assert Padded(aligned, |aligned|) == aligned;
    forall again: Bytes, all: Bytes | !P.scheme.AontRs? && P.Encodes(aligned, again, all) ensures again == package {
      if P.scheme.Crsss? {
        SpreadPackageUnique(P.crypto, P.Groups(S), aligned, package, again);
      }
    }
  }
}
