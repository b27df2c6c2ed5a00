/** What the four schemes put into the k data blocks: an all-or-nothing package
    of the secret, or the secret's words beside hashes of each group of words. */
module Packaging {
  import opened GaloisField
  import opened LinearAlgebra
  import opened ErasureCoding

  /** The hash and cipher the codec calls.  Both are fixed functions of their
      inputs; only the lengths of their results are known. */
  datatype Crypto = Crypto(hashSize: int, keySize: int, blockSize: int,
                           hash: Bytes -> Bytes, cipher: (Bytes, Bytes) -> Bytes) {
    ghost predicate Valid() {
      && (|| (hashSize == keySize == 32 && blockSize == 16)
          || (hashSize == keySize == 16 && blockSize == 16)
          || (hashSize == 32 && keySize == -1 && blockSize == -1)
          || (hashSize == 20 && keySize == -1 && blockSize == -1))
      && (forall data: Bytes :: |hash(data)| == hashSize)
      && (forall data: Bytes, key: Bytes :: |cipher(data, key)| == |data|)
    }
  }

  datatype Scheme = Crsss | AontRs | OldCaontRs | CaontRs

  // ------------------------------------------------------------ masking

  function Xor(F: Field, u: Bytes, v: Bytes): (x: Bytes)
    requires |u| == |v|
    ensures |x| == |u|
    ensures forall i :: 0 <= i < |u| ==> x[i] == F.add(u[i], v[i])
  {
    seq(|u|, i requires 0 <= i < |u| => F.add(u[i], v[i]))
  }

  lemma XorTwice(F: Field, mask: Bytes, s: Bytes)
    requires F.Lawful() && |mask| == |s|
    ensures Xor(F, mask, Xor(F, mask, s)) == s
  {
    forall i | 0 <= i < |s| ensures F.add(mask[i], F.add(mask[i], s[i])) == s[i] {
      AddTwice(F, s[i], mask[i]);
    }
  }

  /** The word that holds an index, least significant byte first. */
  function IndexWord(i: nat, w: nat): (word: Bytes)
    requires w >= 4
    ensures |word| == w
  {
    [(i % 256) as byte, (i / 0x100 % 256) as byte, (i / 0x10000 % 256) as byte, (i / 0x1000000 % 256) as byte]
      + Zeros(w - 4)
  }

  /** The encrypted indices 0, 1, ..., words - 1. */
  function IndexMask(c: Crypto, key: Bytes, w: nat, words: nat): (mask: Bytes)
    requires c.Valid() && w >= 4
    ensures |mask| == words * w
  {
    if words == 0 then []
    else
      assert words * w == (words - 1) * w + w;
      IndexMask(c, key, w, words - 1) + c.cipher(IndexWord(words - 1, w), key)
  }

  /** The constant block 0, 1, ..., 255, 0, 1, ... */
  function SizeConstant(size: nat): (block: Bytes)
    ensures |block| == size && forall i :: 0 <= i < size ==> block[i] == (i % 256) as byte
  {
    seq(size, i requires 0 <= i < size => (i % 256) as byte)
  }

  lemma WholeBlocks(c: Crypto, size: nat)
    requires c.Valid() && c.keySize == c.hashSize && size % c.hashSize == 0
    ensures c.blockSize == 16 && size % c.blockSize == 0
  {
  }

  lemma WholeWords(size: nat, w: nat)
    requires w > 0 && size % w == 0
    ensures size / w * w == size
  {
  }

  function Mask(scheme: Scheme, c: Crypto, key: Bytes, w: nat, size: nat): (mask: Bytes)
    requires c.Valid() && w >= 4 && size % w == 0
    ensures |mask| == size
  {
    WholeWords(size, w);
    if scheme.CaontRs? then c.cipher(SizeConstant(size), key) else IndexMask(c, key, w, size / w)
  }

  /** The package of an aligned secret: the masked secret, then one word hiding
      the key behind the hash of all the rest. */
  function Sealed(F: Field, scheme: Scheme, c: Crypto, w: nat, secret: Bytes, key: Bytes): (package: Bytes)
    requires c.Valid() && w == c.hashSize == |key| && |secret| % w == 0
    ensures |package| == |secret| + w
  {
    var body := Xor(F, Mask(scheme, c, key, w, |secret|), secret);
    body + Xor(F, c.hash(body), key)
  }

  function OpenedKey(F: Field, c: Crypto, w: nat, package: Bytes): (key: Bytes)
    requires c.Valid() && w == c.hashSize && |package| >= w
    ensures |key| == w
  {
    var a := |package| - w;
    Xor(F, c.hash(package[..a]), package[a..])
  }

  function OpenedSecret(F: Field, scheme: Scheme, c: Crypto, w: nat, package: Bytes): (secret: Bytes)
    requires c.Valid() && w == c.hashSize && |package| >= w && (|package| - w) % w == 0
    ensures |secret| == |package| - w
  {
    var a := |package| - w;
    Xor(F, Mask(scheme, c, OpenedKey(F, c, w, package), w, a), package[..a])
  }

  /** Opening undoes sealing, whatever the key. */
  lemma OpenSealed(F: Field, scheme: Scheme, c: Crypto, w: nat, secret: Bytes, key: Bytes)
    requires F.Lawful() && c.Valid() && w == c.hashSize == |key| && |secret| % w == 0
    ensures var package := Sealed(F, scheme, c, w, secret, key);
      OpenedKey(F, c, w, package) == key && OpenedSecret(F, scheme, c, w, package) == secret
  {
    hide Xor, Mask;
    var mask := Mask(scheme, c, key, w, |secret|);
    var body := Xor(F, mask, secret);
    var package := Sealed(F, scheme, c, w, secret, key);
    assert package[..|secret|] == body && package[|secret|..] == Xor(F, c.hash(body), key);
    XorTwice(F, c.hash(body), key);
    XorTwice(F, mask, secret);
  }

  /** Sealing undoes opening: every package is the package of what it opens to. */
  lemma SealOpened(F: Field, scheme: Scheme, c: Crypto, w: nat, package: Bytes)
    requires F.Lawful() && c.Valid() && w == c.hashSize && |package| >= w && (|package| - w) % w == 0
    ensures Sealed(F, scheme, c, w, OpenedSecret(F, scheme, c, w, package), OpenedKey(F, c, w, package)) == package
  {
    hide Xor, Mask;
    var a := |package| - w;
    var key := OpenedKey(F, c, w, package);
    var mask := Mask(scheme, c, key, w, a);
    XorTwice(F, mask, package[..a]);
    XorTwice(F, c.hash(package[..a]), package[a..]);
    assert package == package[..a] + package[a..];
  }

  // ------------------------------------------------- what a package consists of

  /** The word is the number i, least significant byte first, in 32 bits, and zeros. */
  ghost predicate IsIndex(word: Bytes, w: nat, i: nat) {
    |word| == w && w >= 4
    && word[0] as int + 0x100 * word[1] as int + 0x1_0000 * word[2] as int + 0x100_0000 * word[3] as int
       == i % 0x1_0000_0000
    && forall j :: 4 <= j < w ==> word[j] == 0
  }

  lemma IndexWordIsIndex(i: nat, w: nat)
    requires w >= 4
    ensures IsIndex(IndexWord(i, w), w, i)
  {
    FourDigits(i, i / 0x100, i / 0x1_0000, i / 0x100_0000);
  }

  lemma FourDigits(i: nat, a: nat, b: nat, c: nat)
    requires a == i / 0x100 && b == i / 0x1_0000 && c == i / 0x100_0000
    ensures i % 0x100 + 0x100 * (a % 0x100) + 0x1_0000 * (b % 0x100) + 0x100_0000 * (c % 0x100) == i % 0x1_0000_0000
  {
    assert b == a / 0x100 && c == b / 0x100;
    assert i / 0x1_0000_0000 == c / 0x100;
  }

  /** The mask of word i is the cipher of a word that no other index below 2^32 has. */
  lemma IndexesDiffer(a: Bytes, b: Bytes, w: nat, i: nat, j: nat)
    requires IsIndex(a, w, i) && IsIndex(b, w, j) && i < 0x1_0000_0000 && j < 0x1_0000_0000
    ensures a == b <==> i == j
  {
    if i == j {
      FourBytes(a, b, w);
    }
  }

  lemma FourBytes(a: Bytes, b: Bytes, w: nat)
    requires |a| == |b| == w >= 4 && forall j :: 4 <= j < w ==> a[j] == 0 && b[j] == 0
    requires a[0] as int + 0x100 * a[1] as int + 0x1_0000 * a[2] as int + 0x100_0000 * a[3] as int
          == b[0] as int + 0x100 * b[1] as int + 0x1_0000 * b[2] as int + 0x100_0000 * b[3] as int
    ensures a == b
  {
    SameDigits(a[0], a[1], a[2], a[3], b[0], b[1], b[2], b[3]);
    forall j | 0 <= j < w
      ensures a[j] == b[j]
    {
    }
  }

  lemma SameDigits(a: byte, b: byte, c: byte, d: byte, p: byte, q: byte, r: byte, s: byte)
    requires a as int + 0x100 * b as int + 0x1_0000 * c as int + 0x100_0000 * d as int
          == p as int + 0x100 * q as int + 0x1_0000 * r as int + 0x100_0000 * s as int
    ensures a == p && b == q && c == r && d == s
  {
    SameDigit(a as int, p as int, b as int + 0x100 * c as int + 0x1_0000 * d as int,
              q as int + 0x100 * r as int + 0x1_0000 * s as int);
    SameDigit(b as int, q as int, c as int + 0x100 * d as int, r as int + 0x100 * s as int);
    SameDigit(c as int, r as int, d as int, s as int);
  }

  lemma SameDigit(a: int, b: int, high: int, higher: int)
    requires 0 <= a < 0x100 && 0 <= b < 0x100 && a + 0x100 * high == b + 0x100 * higher
    ensures a == b && high == higher
  {
  }

  lemma {:induction false} MaskBlock(c: Crypto, key: Bytes, w: nat, words: nat, i: nat)
    requires c.Valid() && w >= 4 && i < words
    ensures 0 <= i * w <= i * w + w <= words * w
    ensures IndexMask(c, key, w, words)[i * w..i * w + w] == c.cipher(IndexWord(i, w), key)
    decreases words
  {
    hide IndexWord;
    BlockFits(i, words, w);
    var n := words - 1;
    assert words * w == n * w + w;
    var front := IndexMask(c, key, w, n);
    if i < n {
      MaskBlock(c, key, w, n, i);
      assert (front + c.cipher(IndexWord(n, w), key))[i * w..i * w + w] == front[i * w..i * w + w];
    }
  }

  /** Word i of the package is word i of the secret, plus the cipher of the number i. */
  ghost predicate WordMasked(F: Field, c: Crypto, w: nat, secret: Bytes, key: Bytes, package: Bytes, i: nat)
    requires c.Valid() && |secret| <= |package| && i * w + w <= |secret|
  {
    exists word :: IsIndex(word, w, i)
      && package[i * w..i * w + w] == Xor(F, c.cipher(word, key), secret[i * w..i * w + w])
  }

  lemma SealedWord(F: Field, scheme: Scheme, c: Crypto, w: nat, secret: Bytes, key: Bytes, i: nat)
    requires c.Valid() && w == c.hashSize == |key| && |secret| % w == 0 && i < |secret| / w && !scheme.CaontRs?
    ensures i * w + w <= |secret| && WordMasked(F, c, w, secret, key, Sealed(F, scheme, c, w, secret, key), i)
  {
    hide IndexWord, IndexMask, Xor;
    var words := |secret| / w;
    WholeWords(|secret|, w);
    MaskBlock(c, key, w, words, i);
    IndexWordIsIndex(i, w);
    var mask := IndexMask(c, key, w, words);
    XorSlice(F, mask, secret, i * w, i * w + w);
    var package := Sealed(F, scheme, c, w, secret, key);
    assert package[i * w..i * w + w] == Xor(F, mask, secret)[i * w..i * w + w];
  }

  lemma XorSlice(F: Field, u: Bytes, v: Bytes, low: nat, high: nat)
    requires |u| == |v| && low <= high <= |u|
    ensures Xor(F, u, v)[low..high] == Xor(F, u[low..high], v[low..high])
  {
  }

  /** Under CAONT-RS the mask is the cipher of the bytes 0, 1, ..., 255, 0, 1, ... */
  ghost predicate BytesMasked(F: Field, c: Crypto, secret: Bytes, key: Bytes, package: Bytes)
    requires c.Valid() && |secret| <= |package|
  {
    exists block: Bytes :: |block| == |secret| && (forall p :: 0 <= p < |block| ==> block[p] as int == p % 256)
      && package[..|secret|] == Xor(F, c.cipher(block, key), secret)
  }

  lemma SealedBytes(F: Field, c: Crypto, w: nat, secret: Bytes, key: Bytes)
    requires c.Valid() && w == c.hashSize == |key| && |secret| % w == 0
    ensures BytesMasked(F, c, secret, key, Sealed(F, CaontRs, c, w, secret, key))
  {
    hide Xor;
    var block := SizeConstant(|secret|);
    var package := Sealed(F, CaontRs, c, w, secret, key);
    assert package[..|secret|] == Xor(F, c.cipher(block, key), secret);
  }

  /** The last word is the key behind the hash of all the rest. */
  lemma SealedTail(F: Field, scheme: Scheme, c: Crypto, w: nat, secret: Bytes, key: Bytes)
    requires c.Valid() && w == c.hashSize == |key| && |secret| % w == 0
    ensures var package := Sealed(F, scheme, c, w, secret, key);
      package[|secret|..] == Xor(F, c.hash(package[..|secret|]), key)
  {
    hide Xor, Mask;
    var body := Xor(F, Mask(scheme, c, key, w, |secret|), secret);
    assert (body + Xor(F, c.hash(body), key))[..|secret|] == body;
  }

  // --------------------------------------------------- words and group hashes

  /** `groups` groups of `words` secret words of w bytes, spread over the first of
      k data blocks; a group is `groupSize` and a block `blockSize` bytes long. */
  datatype Layout = Layout(w: nat, words: nat, groups: nat, k: nat, groupSize: nat, blockSize: nat) {
    ghost predicate Valid() {
      words <= k && groupSize == words * w && blockSize == groups * w
    }

    /** The sizes of a secret and of its package. */
    ghost predicate Holds(secret: Bytes, package: Bytes) {
      Valid() && |secret| == groups * groupSize && |package| == k * blockSize
    }
  }

  /** Word q of block o of a buffer cut into `outer` blocks of `inner` words. */
  function Cell(s: Bytes, outer: nat, stride: nat, inner: nat, w: nat, o: nat, q: nat): (word: Bytes)
    requires |s| == outer * stride && stride == inner * w && o < outer && q < inner
    ensures |word| == w
  {
    BlockFits(o, outer, stride);
    BlockFits(q, inner, w);
    Block(Block(s, o, stride), q, w)
  }

  /** Word i of data block j. */
  function PackageWord(L: Layout, package: Bytes, i: nat, j: nat): (word: Bytes)
    requires L.Valid() && |package| == L.k * L.blockSize && i < L.groups && j < L.k
    ensures |word| == L.w
  {
    Cell(package, L.k, L.blockSize, L.groups, L.w, j, i)
  }

  /** Word j of group i of the secret. */
  function SecretWord(L: Layout, secret: Bytes, i: nat, j: nat): (word: Bytes)
    requires L.Valid() && |secret| == L.groups * L.groupSize && i < L.groups && j < L.words
    ensures |word| == L.w
  {
    Cell(secret, L.groups, L.groupSize, L.words, L.w, i, j)
  }

  function Group(L: Layout, secret: Bytes, i: nat): (group: Bytes)
    requires L.Valid() && |secret| == L.groups * L.groupSize && i < L.groups
    ensures |group| == L.groupSize
  {
    BlockFits(i, L.groups, L.groupSize);
    Block(secret, i, L.groupSize)
  }

  /** The j-th hash of a group: the group followed by the byte j as a seed. */
  function GroupHash(c: Crypto, group: Bytes, j: nat): (h: Bytes)
    requires c.Valid()
    ensures |h| == c.hashSize
  {
    c.hash(group + [(j % 256) as byte])
  }

  /** Word j of group i of the secret is word i of data block j. */
  ghost predicate WordsSpread(L: Layout, secret: Bytes, package: Bytes)
    requires L.Holds(secret, package)
  {
    forall i, j :: 0 <= i < L.groups && 0 <= j < L.words ==>
      PackageWord(L, package, i, j) == SecretWord(L, secret, i, j)
  }

  /** The other data blocks hold the hashes of the groups. */
  ghost predicate HashesMatch(c: Crypto, L: Layout, secret: Bytes, package: Bytes)
    requires c.Valid() && L.w == c.hashSize && L.Holds(secret, package)
  {
    forall i, j :: 0 <= i < L.groups && L.words <= j < L.k ==>
      PackageWord(L, package, i, j) == GroupHash(c, Group(L, secret, i), j - L.words)
  }

  /** Equal words make equal blocks. */
  lemma SameWordsSameBlock(s: Bytes, t: Bytes, outer: nat, stride: nat, inner: nat, w: nat, o: nat)
    requires |s| == |t| == outer * stride && stride == inner * w && o < outer && (o + 1) * stride <= |s|
    requires forall q :: 0 <= q < inner ==> Cell(s, outer, stride, inner, w, o, q) == Cell(t, outer, stride, inner, w, o, q)
    ensures Block(s, o, stride) == Block(t, o, stride)
  {
    hide Cell, Block;
    var g, h := Block(s, o, stride), Block(t, o, stride);
    forall q {:trigger Block(g, q, w)} | 0 <= q < inner
      ensures (q + 1) * w <= |g| && Block(g, q, w) == Block(h, q, w)
    {
      CellIsBlock(s, outer, stride, inner, w, o, q);
      CellIsBlock(t, outer, stride, inner, w, o, q);
    }
    SameBlocksSameBytes(g, h, inner, w);
  }

  lemma CellIsBlock(s: Bytes, outer: nat, stride: nat, inner: nat, w: nat, o: nat, q: nat)
    requires |s| == outer * stride && stride == inner * w && o < outer && q < inner && (o + 1) * stride <= |s|
    ensures (q + 1) * w <= stride
    ensures Cell(s, outer, stride, inner, w, o, q) == Block(Block(s, o, stride), q, w)
  {
    BlockFits(q, inner, w);
  }

  /** The words of the package fix the secret. */
  lemma SpreadSecretUnique(L: Layout, s: Bytes, t: Bytes, package: Bytes)
    requires L.Holds(s, package) && L.Holds(t, package)
    requires WordsSpread(L, s, package) && WordsSpread(L, t, package)
    ensures s == t
  {
    forall i {:trigger Block(s, i, L.groupSize)} | 0 <= i < L.groups
      ensures (i + 1) * L.groupSize <= |s| && Block(s, i, L.groupSize) == Block(t, i, L.groupSize)
    {
      BlockFits(i, L.groups, L.groupSize);
      forall j | 0 <= j < L.words
        ensures Cell(s, L.groups, L.groupSize, L.words, L.w, i, j) == Cell(t, L.groups, L.groupSize, L.words, L.w, i, j)
      {
        assert PackageWord(L, package, i, j) == SecretWord(L, s, i, j);
        assert PackageWord(L, package, i, j) == SecretWord(L, t, i, j);
      }
      SameWordsSameBlock(s, t, L.groups, L.groupSize, L.words, L.w, i);
    }
    SameBlocksSameBytes(s, t, L.groups, L.groupSize);
  }

  /** The secret and its hashes fix the package. */
  lemma SpreadPackageUnique(c: Crypto, L: Layout, s: Bytes, p: Bytes, q: Bytes)
    requires c.Valid() && L.w == c.hashSize && L.Holds(s, p) && L.Holds(s, q)
    requires WordsSpread(L, s, p) && HashesMatch(c, L, s, p)
    requires WordsSpread(L, s, q) && HashesMatch(c, L, s, q)
    ensures p == q
  {
    hide WordsSpread, HashesMatch, Block;
    forall j {:trigger Block(p, j, L.blockSize)} | 0 <= j < L.k
      ensures (j + 1) * L.blockSize <= |p| && Block(p, j, L.blockSize) == Block(q, j, L.blockSize)
    {
      BlockFits(j, L.k, L.blockSize);
      PackageBlockUnique(c, L, s, p, q, j);
    }
    SameBlocksSameBytes(p, q, L.k, L.blockSize);
  }

  lemma PackageBlockUnique(c: Crypto, L: Layout, s: Bytes, p: Bytes, q: Bytes, j: nat)
    requires c.Valid() && L.w == c.hashSize && L.Holds(s, p) && L.Holds(s, q)
    requires WordsSpread(L, s, p) && HashesMatch(c, L, s, p)
    requires WordsSpread(L, s, q) && HashesMatch(c, L, s, q)
    requires j < L.k && (j + 1) * L.blockSize <= L.k * L.blockSize
    ensures Block(p, j, L.blockSize) == Block(q, j, L.blockSize)
  {
    forall i | 0 <= i < L.groups
      ensures Cell(p, L.k, L.blockSize, L.groups, L.w, j, i) == Cell(q, L.k, L.blockSize, L.groups, L.w, j, i)
    {
      assert PackageWord(L, p, i, j) == PackageWord(L, q, i, j);
    }
    SameWordsSameBlock(p, q, L.k, L.blockSize, L.groups, L.w, j);
  }

  /** Where each byte of a CRSSS secret goes. */
  lemma SpreadBytes(L: Layout, secret: Bytes, package: Bytes, i: nat, j: nat, t: nat)
    requires L.Holds(secret, package) && WordsSpread(L, secret, package) && i < L.groups && j < L.words && t < L.w
    ensures 0 <= i * L.groupSize + j * L.w + t < |secret| && 0 <= j * L.blockSize + i * L.w + t < |package|
    ensures package[j * L.blockSize + i * L.w + t] == secret[i * L.groupSize + j * L.w + t]
  {
    hide Cell;
    CellByte(package, L.k, L.blockSize, L.groups, L.w, j, i, t);
    CellByte(secret, L.groups, L.groupSize, L.words, L.w, i, j, t);
    assert PackageWord(L, package, i, j) == SecretWord(L, secret, i, j);
  }

  lemma CellByte(s: Bytes, outer: nat, stride: nat, inner: nat, w: nat, o: nat, q: nat, t: nat)
    requires |s| == outer * stride && stride == inner * w && o < outer && q < inner && t < w
    ensures 0 <= o * stride + q * w + t < |s| && Cell(s, outer, stride, inner, w, o, q)[t] == s[o * stride + q * w + t]
  {
    hide Block;
    BlockFits(o, outer, stride);
    BlockFits(q, inner, w);
    BlockIs(s, o, stride);
    BlockIs(Block(s, o, stride), q, w);
    assert s[o * stride..o * stride + stride][q * w..q * w + w][t] == s[o * stride..o * stride + stride][q * w + t];
  }

  /** And where its hashes are: of the group followed by the number of the hash. */
  lemma HashBytes(c: Crypto, L: Layout, secret: Bytes, package: Bytes, i: nat, j: nat)
    requires c.Valid() && L.w == c.hashSize && L.Holds(secret, package) && HashesMatch(c, L, secret, package)
    requires i < L.groups && j < 256 && L.words + j < L.k
    ensures 0 <= i * L.groupSize <= i * L.groupSize + L.groupSize <= |secret|
    ensures 0 <= (L.words + j) * L.blockSize + i * L.w <= (L.words + j) * L.blockSize + i * L.w + L.w <= |package|
    ensures package[(L.words + j) * L.blockSize + i * L.w..(L.words + j) * L.blockSize + i * L.w + L.w]
         == c.hash(secret[i * L.groupSize..i * L.groupSize + L.groupSize] + [j as byte])
  {
    hide Cell, Block;
    BlockFits(i, L.groups, L.groupSize);
    BlockIs(secret, i, L.groupSize);
    CellSlice(package, L.k, L.blockSize, L.groups, L.w, L.words + j, i);
    assert PackageWord(L, package, i, L.words + j) == GroupHash(c, Group(L, secret, i), j);
  }

  lemma CellSlice(s: Bytes, outer: nat, stride: nat, inner: nat, w: nat, o: nat, q: nat)
    requires |s| == outer * stride && stride == inner * w && o < outer && q < inner
    ensures 0 <= o * stride + q * w <= o * stride + q * w + w <= |s|
    ensures Cell(s, outer, stride, inner, w, o, q) == s[o * stride + q * w..o * stride + q * w + w]
  {
    hide Cell;
    BlockFits(o, outer, stride);
    BlockFits(q, inner, w);
    forall t | 0 <= t < w
      ensures Cell(s, outer, stride, inner, w, o, q)[t] == s[o * stride + q * w + t]
    {
      CellByte(s, outer, stride, inner, w, o, q, t);
    }
  }
}
