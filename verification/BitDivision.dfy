/**
 * Polynomials over GF(2) as bit strings, most significant coefficient first, and a shift register that
 * divides by x^n + g for a generator g of n coefficients.
 */
module BitDivision {

  type Bits = seq<bool>

  function Zeros(n: nat): (z: Bits)
    ensures |z| == n && forall i :: 0 <= i < n ==> !z[i]
  {
    seq(n, _ => false)
  }

  function Xor(a: Bits, b: Bits): (r: Bits)
    requires |a| == |b|
    ensures |r| == |a| && forall i :: 0 <= i < |a| ==> r[i] == (a[i] != b[i])
  {
    seq(|a|, i requires 0 <= i < |a| == |b| => a[i] != b[i])
  }

  /** g when the flag is up, the zero string otherwise. */
  function Select(flag: bool, g: Bits): (r: Bits)
    ensures |r| == |g|
  {
    if flag then g else Zeros(|g|)
  }

  /** One step of the register: the next bit of the message is added to the bit shifted out. */
  function Step(g: Bits, s: Bits, b: bool): (r: Bits)
    requires |s| == |g| > 0
    ensures |r| == |g|
  {
    Xor(s[1..] + [false], Select(s[0] != b, g))
  }

  function Run(g: Bits, s: Bits, m: Bits): (r: Bits)
    requires |s| == |g| > 0
    ensures |r| == |g|
    decreases |m|
  {
    if m == [] then s else Run(g, Step(g, s, m[0]), m[1..])
  }

  // -------------------------------------------------------------- laws of a run

  lemma {:induction false} RunConcat(g: Bits, s: Bits, m: Bits, n: Bits)
    requires |s| == |g| > 0
    ensures Run(g, s, m + n) == Run(g, Run(g, s, m), n)
    decreases |m|
  {
    if m == [] {
      assert m + n == n;
    } else {
      assert (m + n)[0] == m[0] && (m + n)[1..] == m[1..] + n;
      RunConcat(g, Step(g, s, m[0]), m[1..], n);
    }
  }

  lemma RunSnoc(g: Bits, s: Bits, m: Bits, b: bool)
    requires |s| == |g| > 0
    ensures Run(g, s, m + [b]) == Step(g, Run(g, s, m), b)
  {
    RunConcat(g, s, m, [b]);
    assert [b][1..] == [];
  }

  lemma StepXor(g: Bits, s: Bits, t: Bits, b: bool, c: bool)
    requires |s| == |t| == |g| > 0
    ensures Step(g, Xor(s, t), b != c) == Xor(Step(g, s, b), Step(g, t, c))
  {
  }

  /** The register is linear in its start and its message. */
  lemma {:induction false} RunXor(g: Bits, s: Bits, t: Bits, m: Bits, n: Bits)
    requires |s| == |t| == |g| > 0 && |m| == |n|
    ensures Run(g, Xor(s, t), Xor(m, n)) == Xor(Run(g, s, m), Run(g, t, n))
    decreases |m|
  {
    if m == [] {
    } else {
      StepXor(g, s, t, m[0], n[0]);
      assert Xor(m, n)[1..] == Xor(m[1..], n[1..]);
      RunXor(g, Step(g, s, m[0]), Step(g, t, n[0]), m[1..], n[1..]);
    }
  }

  lemma {:induction false} RunZeros(g: Bits, n: nat)
    requires |g| > 0
    ensures Run(g, Zeros(|g|), Zeros(n)) == Zeros(|g|)
    decreases n
  {
    if n > 0 {
      assert Zeros(n)[1..] == Zeros(n - 1);
      assert Step(g, Zeros(|g|), false) == Zeros(|g|);
      RunZeros(g, n - 1);
    }
  }

  lemma ShiftOne(g: Bits, x: Bits, k: nat)
    requires |x| + k == |g| && k > 0
    ensures Step(g, Zeros(k) + x, false) == Zeros(k - 1) + (x + [false])
  {
    assert (Zeros(k) + x)[1..] == Zeros(k - 1) + x;
  }

  /** Zeros in front are shifted out unchanged. */
  lemma {:induction false} RunShifts(g: Bits, x: Bits, k: nat)
    requires |x| + k == |g| > 0
    ensures Run(g, Zeros(k) + x, Zeros(k)) == x + Zeros(k)
    decreases k
  {
    if k == 0 {
      assert Zeros(0) + x == x == x + Zeros(0);
    } else {
      ShiftOne(g, x, k);
      assert Zeros(k)[1..] == Zeros(k - 1);
      RunShifts(g, x + [false], k - 1);
      assert (x + [false]) + Zeros(k - 1) == x + Zeros(k);
    }
  }

  /** A message no longer than the register can be added to the register at the start. */
  lemma {:induction false} RunInjects(g: Bits, s: Bits, m: Bits)
    requires |s| == |g| > 0 && |m| <= |g|
    ensures Run(g, s, m) == Run(g, Xor(s, m + Zeros(|g| - |m|)), Zeros(|m|))
  {
    var z := Zeros(|m|);
    var t := m + Zeros(|g| - |m|);
    RunCancels(g, m);
    RunXor(g, Xor(s, t), t, z, m);
    assert Xor(Xor(s, t), t) == s && Xor(z, m) == m;
    assert Xor(Run(g, Xor(s, t), z), Zeros(|g|)) == Run(g, Xor(s, t), z);
  }

  /** A register meeting its own content becomes zero. */
  lemma {:induction false} RunCancels(g: Bits, m: Bits)
    requires |m| <= |g| && |g| > 0
    ensures Run(g, m + Zeros(|g| - |m|), m) == Zeros(|g|)
    decreases |m|
  {
    var s := m + Zeros(|g| - |m|);
    if m == [] {
      assert s == Zeros(|g|);
    } else {
      assert Step(g, s, m[0]) == m[1..] + Zeros(|g| - |m[1..]|);
      RunCancels(g, m[1..]);
    }
  }

  /** A run starting from hi, with no more to come than hi, sees only the sum of hi and the message. */
  lemma RunMerges(g: Bits, hi: Bits, m: Bits)
    requires |hi| == |m| <= |g| && |g| > 0
    ensures Run(g, hi + Zeros(|g| - |hi|), m) == Run(g, Zeros(|g|), Xor(hi, m))
  {
    hide Run;
    var s := hi + Zeros(|g| - |hi|);
    RunCancels(g, hi);
    RunXor(g, s, Zeros(|g|), hi, Xor(hi, m));
    XorNothing(s);
    assert Xor(hi, Xor(hi, m)) == m;
    NothingXor(Run(g, Zeros(|g|), Xor(hi, m)));
  }

  lemma XorNothing(x: Bits)
    ensures Xor(x, Zeros(|x|)) == x
  {
  }

  lemma NothingXor(x: Bits)
    ensures Xor(Zeros(|x|), x) == x
  {
  }

  lemma Halves(hi: Bits, lo: Bits)
    ensures Xor(Zeros(|hi|) + lo, hi + Zeros(|lo|)) == hi + lo
  {
  }

  /** A run over as many bits as hi holds: lo moves up, and the rest depends on hi and the message together. */
  lemma RunHalf(g: Bits, hi: Bits, lo: Bits, m: Bits)
    requires |hi| + |lo| == |g| > 0 && |hi| == |m|
    ensures Run(g, hi + lo, m) == Xor(lo + Zeros(|hi|), Run(g, Zeros(|g|), Xor(hi, m)))
  {
    Halves(hi, lo);
    NothingXor(m);
    RunXor(g, Zeros(|hi|) + lo, hi + Zeros(|lo|), Zeros(|hi|), m);
    RunShifts(g, lo, |hi|);
    RunMerges(g, hi, m);
  }

  /** With an odd generator, zeros never bring a non-zero register to zero. */
  lemma {:induction false} ZerosKeepNonZero(g: Bits, s: Bits, n: nat)
    requires |s| == |g| > 0 && g[|g| - 1] && s != Zeros(|g|)
    ensures Run(g, s, Zeros(n)) != Zeros(|g|)
    decreases n
  {
    if n > 0 {
      var t := Step(g, s, false);
      if s[0] {
        assert t[|g| - 1];
      } else {
        var i :| 0 <= i < |g| && s[i];
        assert t[i - 1];
      }
      assert Zeros(n)[1..] == Zeros(n - 1);
      ZerosKeepNonZero(g, t, n - 1);
    }
  }

  // -------------------------------------------------------------- error detection

  ghost predicate AgreeOutside(a: Bits, b: Bits, at: nat, width: nat) {
    |a| == |b| && forall i :: 0 <= i < |a| && !(at <= i < at + width) ==> a[i] == b[i]
  }

  lemma SuffixWindow(p: Bits, u: Bits, v: Bits)
    requires |u| == |v|
    ensures AgreeOutside(p + u, p + v, |p|, |u|)
  {
  }

  /** An error confined to a window no wider than the register always changes the result. */
  lemma BurstChangesRun(g: Bits, s: Bits, a: Bits, b: Bits, at: nat)
    requires |s| == |g| > 0 && g[|g| - 1]
    requires AgreeOutside(a, b, at, |g|) && a != b
    ensures Run(g, s, a) != Run(g, s, b)
  {
    var window, tail := ErrorWindow(a, b, at, |g|);
    WindowRunsNonZero(g, window);
    ZerosKeepNonZero(g, Run(g, Zeros(|g|), window), tail);
    ErrorRuns(g, at, window, tail);
    DifferenceRuns(g, s, a, b);
  }

  lemma ErrorWindow(a: Bits, b: Bits, at: nat, width: nat) returns (window: Bits, tail: nat)
    requires AgreeOutside(a, b, at, width) && a != b
    ensures |window| <= width && true in window
    ensures Xor(a, b) == Zeros(at) + window + Zeros(tail)
  {
    var i :| 0 <= i < |a| && a[i] != b[i];
    var end := if at + width <= |a| then at + width else |a|;
    var e := Xor(a, b);
    window, tail := e[at..end], |a| - end;
    assert window[i - at] == e[i];
  }

  lemma ErrorRuns(g: Bits, at: nat, window: Bits, tail: nat)
    requires |g| > 0
    ensures Run(g, Zeros(|g|), Zeros(at) + window + Zeros(tail)) == Run(g, Run(g, Zeros(|g|), window), Zeros(tail))
  {
    RunConcat(g, Zeros(|g|), Zeros(at) + window, Zeros(tail));
    RunConcat(g, Zeros(|g|), Zeros(at), window);
    RunZeros(g, at);
  }

  /** Two messages leave the same register exactly when their difference leaves zero. */
  lemma DifferenceRuns(g: Bits, s: Bits, a: Bits, b: Bits)
    requires |s| == |g| > 0 && |a| == |b|
    ensures Run(g, s, a) == Run(g, s, b) <==> Run(g, Zeros(|g|), Xor(a, b)) == Zeros(|g|)
  {
    hide Run;
    RunXor(g, s, s, a, b);
    assert Xor(s, s) == Zeros(|g|);
    XorZero(Run(g, s, a), Run(g, s, b));
  }

  lemma XorZero(x: Bits, y: Bits)
    requires |x| == |y|
    ensures x == y <==> Xor(x, y) == Zeros(|x|)
  {
    if Xor(x, y) == Zeros(|x|) {
      forall i | 0 <= i < |x|
        ensures x[i] == y[i]
      {
        assert !Xor(x, y)[i];
      }
    }
  }

  lemma WindowRunsNonZero(g: Bits, window: Bits)
    requires |window| <= |g| && |g| > 0 && g[|g| - 1] && true in window
    ensures Run(g, Zeros(|g|), window) != Zeros(|g|)
  {
    hide Run;
    RunInjects(g, Zeros(|g|), window);
    var i :| 0 <= i < |window| && window[i];
    var t := Xor(Zeros(|g|), window + Zeros(|g| - |window|));
    assert t[i];
    ZerosKeepNonZero(g, t, |window|);
  }

  /** One more bit of width is too much: the generator itself, as an error, goes unseen. */
  lemma GeneratorRunsToZero(g: Bits)
    requires |g| > 0
    ensures Run(g, Zeros(|g|), [true] + g) == Zeros(|g|)
  {
    assert Step(g, Zeros(|g|), true) == g;
    assert ([true] + g)[1..] == g;
    RunCancels(g, g);
    assert g + Zeros(0) == g;
  }

  // -------------------------------------------------------------- the remainder

  /** The product of a quotient with the whole divisor x^n + g. */
  function Times(g: Bits, q: Bits): (r: Bits)
    ensures |r| == |q| + |g|
  {
    if q == [] then Zeros(|g|) else
      var n := |q| - 1;
      Xor(Times(g, q[..n]) + [false], Zeros(n) + Select(q[n], [true] + g))
  }

  /** What a register started at s divides when it reads m: s in front of the message, aligned, and m times x^n. */
  function Dividend(s: Bits, m: Bits): (r: Bits)
    ensures |r| == |s| + |m|
  {
    Xor(s + Zeros(|m|), m + Zeros(|s|))
  }

  ghost predicate IsRemainder(g: Bits, s: Bits, m: Bits, q: Bits, r: Bits)
    requires |s| == |g|
  {
    |q| == |m| && |r| == |g| && Dividend(s, m) == Xor(Times(g, q), Zeros(|m|) + r)
  }

  /** The register holds the remainder of the division, for some quotient. */
  lemma {:induction false} RunDivides(g: Bits, s: Bits, m: Bits) returns (q: Bits)
    requires |s| == |g| > 0
    ensures IsRemainder(g, s, m, q, Run(g, s, m))
    decreases |m|
  {
    if m == [] {
      q := [];
    } else {
      var n := |m| - 1;
      var front, b := m[..n], m[n];
      assert m == front + [b];
      q := RunDivides(g, s, front);
      RunSnoc(g, s, front, b);
      var r := Run(g, s, front);
      DividendSnoc(g, s, front, b, q, r);
      q := q + [r[0] != b];
    }
  }

  lemma DividendSnoc(g: Bits, s: Bits, m: Bits, b: bool, q: Bits, r: Bits)
    requires |s| == |g| > 0 && IsRemainder(g, s, m, q, r)
    ensures IsRemainder(g, s, m + [b], q + [r[0] != b], Step(g, r, b))
  {
    var n, d, next := |m|, r[0] != b, Step(g, r, b);
    var v, w := Select(d, [true] + g), [false] + next;
    DividendGrows(s, m, b);
    StepReduces(g, r, b);
    TailsMeet(Times(g, q), r, [b] + Zeros(|s|), v, w, n);
    TimesSnoc(g, q, d);
    ZerosJoin(n, next);
  }

  lemma ZerosJoin(n: nat, x: Bits)
    ensures Zeros(n) + ([false] + x) == Zeros(n + 1) + x
  {
  }

  lemma TimesSnoc(g: Bits, q: Bits, d: bool)
    ensures Times(g, q + [d]) == Xor(Times(g, q) + [false], Zeros(|q|) + Select(d, [true] + g))
  {
    assert (q + [d])[..|q|] == q;
  }

  lemma DividendGrows(s: Bits, m: Bits, b: bool)
    ensures Dividend(s, m + [b]) == Xor(Dividend(s, m) + [false], Zeros(|m|) + ([b] + Zeros(|s|)))
  {
  }

  /** One step subtracts the divisor when the leading bit is up. */
  lemma StepReduces(g: Bits, r: Bits, b: bool)
    requires |r| == |g| > 0
    ensures Xor(r + [false], [b] + Zeros(|r|)) == Xor(Select(r[0] != b, [true] + g), [false] + Step(g, r, b))
  {
    var d := r[0] != b;
    var x, y := Xor(r + [false], [b] + Zeros(|r|)), Xor(Select(d, [true] + g), [false] + Step(g, r, b));
    forall i | 0 <= i <= |r|
      ensures x[i] == y[i]
    {
      if i > 0 {
        assert Step(g, r, b)[i - 1] == ((r[1..] + [false])[i - 1] != Select(d, g)[i - 1]);
      }
    }
  }

  lemma TailsMeet(t: Bits, r: Bits, u: Bits, v: Bits, w: Bits, n: nat)
    requires |t| == n + |r| && |u| == |v| == |w| == |r| + 1
    requires Xor(r + [false], u) == Xor(v, w)
    ensures Xor(Xor(t, Zeros(n) + r) + [false], Zeros(n) + u) == Xor(Xor(t + [false], Zeros(n) + v), Zeros(n) + w)
  {
    forall j | 0 <= j <= |r|
      ensures (r + [false])[j] == ((u[j] != v[j]) != w[j])
    {
      assert Xor(r + [false], u)[j] == Xor(v, w)[j];
    }
  }

  lemma {:induction false} TimesZero(g: Bits, n: nat)
    ensures Times(g, Zeros(n)) == Zeros(n + |g|)
    decreases n
  {
    if n > 0 {
      assert Zeros(n)[..n - 1] == Zeros(n - 1);
      TimesZero(g, n - 1);
    }
  }

  lemma {:induction false} TimesXor(g: Bits, p: Bits, q: Bits)
    requires |p| == |q|
    ensures Times(g, Xor(p, q)) == Xor(Times(g, p), Times(g, q))
    decreases |p|
  {
    if p != [] {
      var n := |p| - 1;
      assert Xor(p, q)[..n] == Xor(p[..n], q[..n]);
      TimesXor(g, p[..n], q[..n]);
      TermsXor(g, Times(g, p[..n]), Times(g, q[..n]), p[n], q[n], n);
    }
  }

  lemma TermsXor(g: Bits, s: Bits, t: Bits, b: bool, c: bool, n: nat)
    requires |s| == |t| == n + |g|
    ensures Xor(Xor(s, t) + [false], Zeros(n) + Select(b != c, [true] + g))
         == Xor(Xor(s + [false], Zeros(n) + Select(b, [true] + g)), Xor(t + [false], Zeros(n) + Select(c, [true] + g)))
  {
  }

  /** A multiple of the divisor of degree below n has the quotient zero. */
  lemma {:induction false} SmallMultipleIsZero(g: Bits, q: Bits)
    requires forall i :: 0 <= i < |q| ==> !Times(g, q)[i]
    ensures q == Zeros(|q|)
    decreases |q|
  {
    if q != [] {
      var n := |q| - 1;
      forall i | 0 <= i < n
        ensures !Times(g, q[..n])[i]
      {
        assert Times(g, q)[i] == Times(g, q[..n])[i];
      }
      SmallMultipleIsZero(g, q[..n]);
      TimesZero(g, n);
      assert q == Zeros(n) + [q[n]];
      assert Times(g, q)[n] == q[n];
    }
  }

  /** The final register is the remainder of the division, and the only one. */
  lemma RunIsTheRemainder(g: Bits, s: Bits, m: Bits, r: Bits)
    requires |s| == |g| > 0
    ensures r == Run(g, s, m) <==> exists q :: IsRemainder(g, s, m, q, r)
  {
    var p := RunDivides(g, s, m);
    forall q | IsRemainder(g, s, m, q, r)
      ensures r == Run(g, s, m)
    {
      RemainderUnique(g, s, m, p, Run(g, s, m), q, r);
    }
  }

  lemma RemainderUnique(g: Bits, s: Bits, m: Bits, p: Bits, u: Bits, q: Bits, v: Bits)
    requires |s| == |g| > 0 && IsRemainder(g, s, m, p, u) && IsRemainder(g, s, m, q, v)
    ensures p == q && u == v
  {
    var n := |m|;
    var d := Xor(p, q);
    TimesXor(g, p, q);
    var a, b := Xor(Times(g, p), Zeros(n) + u), Xor(Times(g, q), Zeros(n) + v);
    assert a == b;
    forall i | 0 <= i < n
      ensures !Times(g, d)[i]
    {
      assert a[i] == b[i];
    }
    SmallMultipleIsZero(g, d);
    forall i | 0 <= i < n
      ensures p[i] == q[i]
    {
      assert !d[i];
    }
    assert p == q;
    forall i | 0 <= i < |g|
      ensures u[i] == v[i]
    {
      assert a[n + i] == b[n + i];
      assert (Zeros(n) + u)[n + i] == u[i] && (Zeros(n) + v)[n + i] == v[i];
    }
  }

  // ------------------------------------------------------------ which errors go unseen

  lemma DifferenceDivides(g: Bits, s: Bits, a: Bits, b: Bits)
    requires |s| == |g| > 0 && |a| == |b|
    ensures Run(g, s, a) == Run(g, s, b) <==> exists q :: |q| == |a| && Times(g, q) == Xor(a, b) + Zeros(|g|)
  {
    hide Run, Times;
    var d := Xor(a, b);
    DifferenceRuns(g, s, a, b);
    RunIsTheRemainder(g, Zeros(|g|), d, Zeros(|g|));
    forall q | |q| == |d|
      ensures IsRemainder(g, Zeros(|g|), d, q, Zeros(|g|)) <==> Times(g, q) == d + Zeros(|g|)
    {
      NothingXor(d + Zeros(|g|));
      XorNothing(Times(g, q));
      assert Zeros(|g|) + Zeros(|d|) == Zeros(|d| + |g|) == Zeros(|d|) + Zeros(|g|);
    }
  }

  /** The lowest bit of a multiple is that of the factor, if the divisor has a constant term. */
  lemma LowestBit(g: Bits, q: Bits)
    requires |g| > 0 && g[|g| - 1] && q != []
    ensures Times(g, q)[|q| + |g| - 1] == q[|q| - 1]
  {
  }

  lemma ZeroTerm(g: Bits, q: Bits)
    requires q != [] && !q[|q| - 1]
    ensures Times(g, q) == Times(g, q[..|q| - 1]) + [false]
  {
    var n := |q| - 1;
    var r := Times(g, q[..n]) + [false];
    assert Zeros(n) + Select(false, [true] + g) == Zeros(|r|);
    XorNothing(r);
  }

  lemma MoreZeros(d: Bits, k: nat)
    requires k > 0
    ensures d + Zeros(k) == (d + Zeros(k - 1)) + [false]
  {
  }

  lemma SameButLast(x: Bits, y: Bits, b: bool)
    requires x + [b] == y + [b]
    ensures x == y
  {
    assert x == (x + [b])[..|x|] && y == (y + [b])[..|y|];
  }

  /** A multiple that ends in zeros is the multiple of a factor without them. */
  lemma {:induction false} StripZeros(g: Bits, q: Bits, d: Bits, k: nat)
    requires |g| > 0 && g[|g| - 1] && k <= |q| && Times(g, q) == d + Zeros(k)
    ensures Times(g, q[..|q| - k]) == d
    decreases k
  {
    hide Times;
    if k == 0 {
      assert q[..|q|] == q;
    } else {
      var n := |q| - 1;
      LowestBit(g, q);
      MoreZeros(d, k);
      ZeroTerm(g, q);
      SameButLast(Times(g, q[..n]), d + Zeros(k - 1), false);
      StripZeros(g, q[..n], d, k - 1);
      assert q[..n][..n - (k - 1)] == q[..|q| - k];
    }
  }

  lemma {:induction false} AppendZeros(g: Bits, q: Bits, k: nat)
    ensures Times(g, q + Zeros(k)) == Times(g, q) + Zeros(k)
    decreases k
  {
    hide Times;
    if k == 0 {
      assert q + Zeros(k) == q && Times(g, q) + Zeros(k) == Times(g, q);
    } else {
      AppendZeros(g, q, k - 1);
      MoreZeros(q, k);
      MoreZeros(Times(g, q), k);
      var longer := q + Zeros(k);
      assert longer[..|longer| - 1] == q + Zeros(k - 1);
      ZeroTerm(g, longer);
    }
  }

  /** Two messages leave the same register exactly when they are equal or differ by a multiple of the polynomial. */
  lemma MultiplesGoUnseen(g: Bits, s: Bits, a: Bits, b: Bits)
    requires |s| == |g| > 0 && |a| == |b| && g[|g| - 1]
    ensures Run(g, s, a) == Run(g, s, b) <==> a == b || exists q :: |q| + |g| == |a| && Times(g, q) == Xor(a, b)
  {
    hide Run, Times;
    var d := Xor(a, b);
    DifferenceDivides(g, s, a, b);
    XorZero(a, b);
    if Run(g, s, a) == Run(g, s, b) {
      var q :| |q| == |a| && Times(g, q) == d + Zeros(|g|);
      if |a| < |g| {
        assert d + Zeros(|g|) == (d + Zeros(|g| - |a|)) + Zeros(|a|);
        StripZeros(g, q, d + Zeros(|g| - |a|), |a|);
        TimesNothing(g);
        assert q[..0] == [];
        assert d == (d + Zeros(|g| - |a|))[..|a|] == Zeros(|g|)[..|a|] == Zeros(|a|);
      } else {
        StripZeros(g, q, d, |g|);
        assert |q[..|q| - |g|]| + |g| == |a|;
      }
    } else {
      forall q | |q| + |g| == |a|
        ensures Times(g, q) != d
      {
        AppendZeros(g, q, |g|);
        assert |q + Zeros(|g|)| == |a|;
      }
    }
  }

  lemma TimesNothing(g: Bits)
    ensures Times(g, []) == Zeros(|g|)
  {
  }
}
