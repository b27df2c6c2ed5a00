/** The representations of a file system id, and what becomes of an id when its representation changes. */
module FsidTypes {
  import opened FsIndex

  const HALF := 0x1_0000_0000
  const WORD := 0x1_0000_0000_0000_0000

  // ------------------------------------------------------------ bits of 64-bit words

  function Or(a: nat, b: nat): nat {
    if a == 0 then b else (if a % 2 + b % 2 > 0 then 1 else 0) + 2 * Or(a / 2, b / 2)
  }

  function Xor(a: nat, b: nat): nat {
    if a == 0 then b else (a % 2 + b % 2) % 2 + 2 * Xor(a / 2, b / 2)
  }

  /** Shifted left by 32 bits; what passes the top is lost. */
  function Up(a: nat): nat {
    a % HALF * HALF
  }

  function Down(a: nat): nat {
    a % WORD / HALF
  }

  /** What the logical `a && MASK_32` of the code comes to. */
  function Truth(a: nat): nat {
    if a % WORD == 0 then 0 else 1
  }

  function Pow2(n: nat): (p: nat)
    ensures p > 0
  {
    if n == 0 then 1 else 2 * Pow2(n - 1)
  }

  /** Words with no bit in common are joined by adding them. */
  lemma {:induction false} OrJoins(x: nat, y: nat, n: nat)
    requires y < Pow2(n)
    ensures Or(x * Pow2(n), y) == x * Pow2(n) + y
    decreases n
  {
    hide Or;
    if n == 0 {
      OrNothing(x);
    } else {
      var p := x * Pow2(n - 1);
      assert x * Pow2(n) == 2 * p;
      OrJoins(x, y / 2, n - 1);
      OrDouble(p, y);
    }
  }

  lemma OrDouble(p: nat, y: nat)
    ensures Or(2 * p, y) == y % 2 + 2 * Or(p, y / 2)
  {
    assert 2 * p / 2 == p && 2 * p % 2 == 0;
  }

  lemma {:induction false} OrNothing(a: nat)
    ensures Or(a, 0) == a
    decreases a
  {
    if a > 0 {
      OrNothing(a / 2);
    }
  }

  /** Bit i of a word. */
  function Bit(a: nat, i: nat): (b: nat)
    ensures b < 2
  {
    if i == 0 then a % 2 else Bit(a / 2, i - 1)
  }

  lemma {:induction false} XorBits(a: nat, b: nat, i: nat)
    ensures Bit(Xor(a, b), i) == 1 <==> Bit(a, i) != Bit(b, i)
    decreases i
  {
    if a == 0 {
      NoBits(i);
    } else {
      XorParts(a, b);
      if i > 0 {
        XorBits(a / 2, b / 2, i - 1);
      }
    }
  }

  lemma XorParts(a: nat, b: nat)
    requires a > 0
    ensures Xor(a, b) % 2 == (a % 2 + b % 2) % 2 && Xor(a, b) / 2 == Xor(a / 2, b / 2)
  {
    var p, x := (a % 2 + b % 2) % 2, Xor(a / 2, b / 2);
    assert Xor(a, b) == p + 2 * x;
  }

  lemma {:induction false} NoBits(i: nat)
    ensures Bit(0, i) == 0
  {
    if i > 0 {
      NoBits(i - 1);
    }
  }

  lemma {:induction false} XorTwice(a: nat, b: nat)
    ensures Xor(a, Xor(a, b)) == b
    decreases a
  {
    hide Xor;
    if a == 0 {
      XorNothing(b);
    } else {
      var w := Xor(a, b);
      XorTwice(a / 2, b / 2);
      XorParts(a, b);
      XorParts(a, w);
    }
  }

  lemma {:induction false} XorCommutes(a: nat, b: nat)
    ensures Xor(a, b) == Xor(b, a)
    decreases a
  {
    hide Xor;
    XorNothing(a);
    XorNothing(b);
    if a == 0 {
      XorZero(b);
    } else if b == 0 {
      XorZero(a);
    } else {
      XorParts(a, b);
      XorParts(b, a);
      XorCommutes(a / 2, b / 2);
    }
  }

  lemma {:induction false} XorZero(a: nat)
    ensures Xor(a, 0) == a
    decreases a
  {
    hide Xor;
    if a == 0 {
      XorNothing(0);
    } else {
      XorParts(a, 0);
      XorZero(a / 2);
    }
  }

  lemma XorCancels(a: nat, b: nat, c: nat)
    ensures Xor(a, c) == Xor(b, c) <==> a == b
  {
    hide Xor;
    XorCommutes(a, c);
    XorCommutes(b, c);
    XorTwice(c, a);
    XorTwice(c, b);
  }

  lemma XorNothing(b: nat)
    ensures Xor(0, b) == b
  {
  }

  lemma XorOne(b: nat)
    ensures Xor(1, b) == if b % 2 == 0 then b + 1 else b - 1
  {
    XorNothing(b / 2);
  }

  lemma Pow2Of32()
    ensures Pow2(32) == HALF
  {
    assert Pow2(8) == 0x100;
    assert Pow2(16) == 0x1_0000;
    assert Pow2(24) == 0x100_0000;
  }

  // ------------------------------------------------------------ changing the representation

  /** Which representations of an id can be turned into which. */
  predicate Convertible(from: FsidType, to: FsidType) {
    match to
    case OneUint64 => from.TwoUint64? || from.TwoUint32?
    case Major64 => true
    case TwoUint64 => true
    case Device => true
    case TwoUint32 => from.TwoUint64? || from.OneUint64?
    case NoType => false
  }

  /** A change of name only: the key stays, and the index with it. */
  predicate Relabels(from: FsidType, to: FsidType) {
    to.TwoUint64? && !from.Major64?
  }

  /** Two 32-bit halves. From the representations that have them, the case for device numbers falls through to here. */
  function Halved(fs: Fs): (nat, nat)
    requires fs.fsidType.TwoUint64? || fs.fsidType.OneUint64?
  {
    if fs.fsidType.TwoUint64? then (Xor(Truth(fs.major), Down(fs.major)), Xor(Truth(fs.minor), Down(fs.minor)))
    else (Down(fs.major), Truth(fs.major))
  }

  /** The id in the new representation. */
  function NewIds(fs: Fs, to: FsidType): (nat, nat)
    requires Convertible(fs.fsidType, to)
  {
    match to
    case OneUint64 =>
      if fs.fsidType.TwoUint64? then (Xor(fs.major, Or(Up(fs.minor), Down(fs.minor))), 0) else (Or(Up(fs.major), fs.minor), 0)
    case TwoUint32 => Halved(fs)
    case Device => if fs.fsidType.TwoUint64? || fs.fsidType.OneUint64? then Halved(fs) else (fs.devMajor, fs.devMinor)
    case _ => (fs.major, fs.minor)
  }

  function Converted(fs: Fs, to: FsidType): Fs
    requires Convertible(fs.fsidType, to)
  {
    var ids := NewIds(fs, to);
    fs.(fsidType := to, major := ids.0, minor := ids.1)
  }

  /** The two halves side by side. */
  lemma JoinedHalves(fs: Fs)
    requires fs.fsidType.TwoUint32? && fs.major < HALF && fs.minor < HALF
    ensures NewIds(fs, OneUint64) == (fs.major * HALF + fs.minor, 0)
  {
    Pow2Of32();
    OrJoins(fs.major, fs.minor, 32);
  }

  /** Two 64-bit words are squashed into one, the major with the halves of the minor exchanged; given either, the other
      comes back. */
  lemma SquashedWords(fs: Fs)
    requires fs.fsidType.TwoUint64? && fs.minor < WORD
    ensures var word := NewIds(fs, OneUint64).0; Xor(fs.major, word) == fs.minor % HALF * HALF + fs.minor / HALF
  {
    hide Xor, Or;
    Pow2Of32();
    OrJoins(fs.minor % HALF, fs.minor / HALF, 32);
    XorTwice(fs.major, fs.minor % HALF * HALF + fs.minor / HALF);
  }

  /** The halves of two 64-bit words: the upper half of each, its last bit flipped unless the word is zero. */
  lemma HalvedWords(fs: Fs)
    requires fs.fsidType.TwoUint64? && fs.major < WORD && fs.minor < WORD
    ensures Halved(fs) == (UpperFlipped(fs.major), UpperFlipped(fs.minor))
  {
    hide Xor;
    HalvedWord(fs.major);
    HalvedWord(fs.minor);
  }

  lemma HalvedWord(a: nat)
    requires a < WORD
    ensures Xor(Truth(a), Down(a)) == UpperFlipped(a)
  {
    hide Xor;
    XorNothing(Down(a));
    XorOne(Down(a));
  }

  /** The comment in the code wants the exclusive-or of the two halves. That is what comes out exactly when the lower half
      is 1, or the whole word is 0. */
  lemma ShrinkIsXor(a: nat)
    requires a < WORD
    ensures Xor(Truth(a), Down(a)) == Xor(a % HALF, a / HALF) <==> a % HALF == 1 || a == 0
  {
    hide Xor;
    XorCancels(Truth(a), a % HALF, a / HALF);
  }

  /** The word 17 shrinks to 1. */
  lemma ShrinkLosesLowerHalf(fs: Fs)
    requires fs.fsidType.TwoUint64? && fs.major == 17
    ensures NewIds(fs, TwoUint32).0 == 1 && Xor(fs.major % HALF, fs.major / HALF) == 17
  {
    hide Xor;
    XorOne(0);
    XorCommutes(17, 0);
    XorNothing(17);
  }

  function UpperFlipped(a: nat): nat {
    var upper := a / HALF;
    if a == 0 then 0 else if upper % 2 == 0 then upper + 1 else upper - 1
  }

  lemma SplitHalves(x: nat, y: nat)
    requires x < HALF && y < HALF
    ensures Down(x * HALF + y) == x && Truth(x * HALF + y) == if x == 0 && y == 0 then 0 else 1
  {
  }

  /**
   * Two 32-bit halves joined into one 64-bit word and split again. The code tests the word where it means to mask it,
   * so the minor half comes back exactly when it was 1, or both halves were 0.
   */
  lemma SplitUndoesJoin(fs: Fs)
    requires fs.fsidType.TwoUint32? && fs.major < HALF && fs.minor < HALF
    ensures Converted(Converted(fs, OneUint64), TwoUint32) == fs <==> fs.minor == 1 || (fs.major == 0 && fs.minor == 0)
    ensures Converted(Converted(fs, OneUint64), TwoUint32).major == fs.major
  {
    JoinedHalves(fs);
    SplitHalves(fs.major, fs.minor);
  }

  /** An id whose minor half is lost on the way. */
  lemma SplitLosesMinor(fs: Fs)
    requires fs.fsidType.TwoUint32? && fs.major == 8 && fs.minor == 17
    ensures Converted(Converted(fs, OneUint64), TwoUint32).minor == 1
  {
    JoinedHalves(fs);
    SplitHalves(fs.major, fs.minor);
  }

  /** The halves of the id happen to be the device number. */
  predicate HalvesAreDevice(fs: Fs) {
    match fs.fsidType
    case OneUint64 => fs.devMajor == Down(fs.major) && fs.devMinor == Truth(fs.major)
    case TwoUint64 =>
      fs.devMajor == Xor(Truth(fs.major), Down(fs.major)) && fs.devMinor == Xor(Truth(fs.minor), Down(fs.minor))
    case _ => false
  }

  /**
   * A file system to be known by its device number is known by it exactly when its id has no halves, or they happen to
   * be that number: the case for device numbers falls through and overwrites them.
   */
  lemma DeviceNumberTaken(fs: Fs)
    ensures Converted(fs, Device).major == fs.devMajor && Converted(fs, Device).minor == fs.devMinor
       <==> (!fs.fsidType.OneUint64? && !fs.fsidType.TwoUint64?) || HalvesAreDevice(fs)
  {
    hide Xor, Down, Truth;
  }

  /** Device 8, 17 is lost, even where the id is made of the same two numbers. */
  lemma DeviceNumberLost(fs: Fs)
    requires fs.fsidType.OneUint64? && fs.major == 8 * HALF + 17 && fs.devMajor == 8 && fs.devMinor == 17
    ensures Converted(fs, Device).major == 8 && Converted(fs, Device).minor == 1
  {
    SplitHalves(8, 17);
  }

  /** Joined halves stay apart: different pairs give different words. */
  lemma JoinInjective(a: Fs, b: Fs)
    requires a.fsidType.TwoUint32? && a.major < HALF && a.minor < HALF
    requires b.fsidType.TwoUint32? && b.major < HALF && b.minor < HALF
    ensures NewIds(a, OneUint64) == NewIds(b, OneUint64) <==> a.major == b.major && a.minor == b.minor
  {
    JoinedHalves(a);
    JoinedHalves(b);
    SplitHalves(a.major, a.minor);
    SplitHalves(b.major, b.minor);
  }
}
