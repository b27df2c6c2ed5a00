/** Size arithmetic of the codec: padding a secret, share sizes, and the sizes of
    the internal buffers. */
module CodecSizes {

  const MAX_SECRET_SIZE: nat := 0x800000

  // ------------------------------------------------------ division lemmas

  lemma MulMonotone(a: nat, b: nat, c: nat)
    requires a <= b
    ensures a * c <= b * c
  {
  }

  lemma Multiple(q: int, d: nat)
    requires d > 0
    ensures (q * d) / d == q && (q * d) % d == 0
  {
    Quotient(q * d, d, q, 0);
  }

  lemma Quotient(x: int, d: nat, q: int, rest: nat)
    requires d > 0 && x == q * d + rest && rest < d
    ensures x / d == q && x % d == rest
  {
    var q', r' := x / d, x % d;
    var gap := q - q';
    assert gap * d == q * d - q' * d == r' - rest;
    assert -gap * d == -(gap * d);
    if gap > 0 {
      MulMonotone(1, gap, d);
    } else if gap < 0 {
      MulMonotone(1, -gap, d);
    }
  }

  function RoundedUp(x: nat, d: nat): (r: nat)
    requires d > 0
  {
    ((x + d - 1) / d) * d
  }

  lemma RoundedUpIsLeastMultiple(x: nat, d: nat)
    requires d > 0
    ensures x <= RoundedUp(x, d) < x + d && RoundedUp(x, d) % d == 0
    ensures forall y: nat :: x <= y && y % d == 0 ==> RoundedUp(x, d) <= y
  {
    var q, rest := (x + d - 1) / d, (x + d - 1) % d;
    assert x + d - 1 == q * d + rest;
    Multiple(q, d);
    assert (q - 1) * d == q * d - d;
    forall y: nat | x <= y && y % d == 0 ensures RoundedUp(x, d) <= y {
      var p := y / d;
      assert y == p * d;
      if p < q {
        MulMonotone(p, q - 1, d);
      } else {
        MulMonotone(q, p, d);
      }
    }
  }

  // --------------------------------------------- AONT-RS and CAONT-RS sizes

  /** The padded size of a secret of s bytes that is followed by one word of w
      bytes and cut into k shares. */
  function AlignedSecretSize(s: nat, w: nat, k: nat): (a: nat)
    requires w > 0 && k > 0
  {
    RoundedUpIsLeastMultiple(s + w, w * k);
    RoundedUp(s + w, w * k) - w
  }

  function ShareSize(a: nat, w: nat, k: nat): (size: nat)
    requires w > 0 && k > 0
  {
    w * ((a / w + 1) / k)
  }

  ghost predicate Aligned(a: nat, w: nat, k: nat)
    requires w > 0 && k > 0
  {
    (a + w) % (w * k) == 0
  }

  lemma AlignedSizeIsLeast(s: nat, w: nat, k: nat)
    requires w > 0 && k > 0
    ensures var a := AlignedSecretSize(s, w, k);
      && s <= a < s + w * k && Aligned(a, w, k)
      && (forall b: nat :: s <= b && Aligned(b, w, k) ==> a <= b)
  {
    RoundedUpIsLeastMultiple(s + w, w * k);
  }

  lemma AlignedSizeIsIdempotent(s: nat, w: nat, k: nat)
    requires w > 0 && k > 0
    ensures AlignedSecretSize(AlignedSecretSize(s, w, k), w, k) == AlignedSecretSize(s, w, k)
  {
    AlignedSizeIsLeast(s, w, k);
    AlignedSizeIsLeast(AlignedSecretSize(s, w, k), w, k);
  }

  /** An aligned size is a whole number of words, and its shares hold it and the
      extra word exactly. */
  lemma SharesHoldPackage(a: nat, w: nat, k: nat)
    requires w > 0 && k > 0 && Aligned(a, w, k)
    ensures ShareSize(a, w, k) * k == a + w
    ensures ShareSize(a, w, k) % w == 0
    ensures a % w == 0 && a / w * w == a
  {
    var q := (a + w) / (w * k);
    assert a + w == q * (w * k);
    assert q * (w * k) == (q * k) * w;
    assert a == (q * k - 1) * w;
    Multiple(q * k - 1, w);
    Multiple(q, k);
    assert ShareSize(a, w, k) == w * q;
    assert w * q * k == q * (w * k);
    Multiple(q, w);
  }

  function AlignedBufferSize(w: nat, k: nat): nat {
    MAX_SECRET_SIZE + w * k
  }

  function CodingDataSize(w: nat, k: nat): nat
    requires w > 0 && k > 0
  {
    (w * ((AlignedBufferSize(w, k) / w + 1) / k)) * k
  }

  lemma SecretsUpToMaximumFit(s: nat, w: nat, k: nat)
    requires w > 0 && k > 0 && s <= MAX_SECRET_SIZE
    ensures AlignedSecretSize(s, w, k) <= AlignedBufferSize(w, k)
  {
    AlignedSizeIsLeast(s, w, k);
  }

  /** The one size check the encoder makes also bounds what it writes into the
      coding buffer, whose size it never looks at. */
  lemma PackageFitsCodingData(a: nat, w: nat, k: nat)
    requires w > 0 && k > 0 && Aligned(a, w, k) && a <= AlignedBufferSize(w, k)
    ensures a + w <= CodingDataSize(w, k)
  {
    SharesHoldPackage(a, w, k);
    var b := AlignedBufferSize(w, k);
    assert a / w <= b / w by { DivMonotone(a, b, w); }
    DivMonotone(a / w + 1, b / w + 1, k);
    MulMonotone((a / w + 1) / k, (b / w + 1) / k, w);
    MulMonotone(ShareSize(a, w, k), ShareSize(b, w, k), k);
  }

  lemma DivMonotone(a: nat, b: nat, d: nat)
    requires a <= b && d > 0
    ensures a / d <= b / d
  {
    assert (b / d + 1) * d == (b / d) * d + d;
    if b / d < a / d {
      MulMonotone(b / d + 1, a / d, d);
    }
  }

  // ------------------------------------------------------------ CRSSS sizes

  /** Rounding up to whole groups of g bytes, as CRSSS writes it. */
  function GroupAlignedSize(s: nat, g: nat): (a: nat)
    requires g > 0
  {
    if s % g == 0 then s else g * (s / g + 1)
  }

  lemma GroupAlignedSizeIsLeast(s: nat, g: nat)
    requires g > 0
    ensures var a := GroupAlignedSize(s, g);
      && s <= a < s + g && a % g == 0
      && a / g * g == a
      && (forall b: nat :: s <= b && b % g == 0 ==> a <= b)
  {
    RoundedUpIsLeastMultiple(s, g);
    var q := s / g;
    assert s == q * g + s % g;
    Multiple(q + 1, g);
    if s % g != 0 {
      assert g * (q + 1) == q * g + g;
      Quotient(s + g - 1, g, q + 1, s % g - 1);
    }
  }

  function GroupCount(a: nat, g: nat): (groups: nat)
    requires g > 0
  {
    a / g
  }

  /** One word of w bytes for each group of g bytes. */
  function GroupShareSize(a: nat, w: nat, g: nat): (size: nat)
    requires g > 0
  {
    w * (a / g)
  }

  function GroupBufferSize(g: nat): nat {
    MAX_SECRET_SIZE + g
  }

  function GroupCodingDataSize(w: nat, g: nat, k: nat): nat
    requires g > 0
  {
    GroupShareSize(GroupBufferSize(g), w, g) * k
  }

  lemma GroupsFitCodingData(a: nat, w: nat, g: nat, k: nat)
    requires g > 0 && a <= GroupBufferSize(g)
    ensures GroupShareSize(a, w, g) * k <= GroupCodingDataSize(w, g, k)
  {
    DivMonotone(a, GroupBufferSize(g), g);
    MulMonotone(a / g, GroupBufferSize(g) / g, w);
    MulMonotone(GroupShareSize(a, w, g), GroupShareSize(GroupBufferSize(g), w, g), k);
  }
}
