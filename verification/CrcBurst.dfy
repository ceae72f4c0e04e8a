/** Which differences between two messages a register can never miss. */
module CrcBurst {
  import opened Bits
  import opened CrcRegister

  /** Two messages of one length whose differences all lie within k consecutive bits. */
  ghost predicate DifferInWindow(m: Bits, m': Bits, s: nat, k: nat) {
    s + k <= |m| == |m'| && m != m' && m[..s] == m'[..s] && m[s + k..] == m'[s + k..]
  }

  /** Every burst no longer than the register is detected, whatever the register held. */
  ghost predicate DetectsBursts(p: Bits)
    requires p != []
  {
    forall r: Bits, m: Bits, m': Bits, s: nat, k: nat :: Detects(p, r, m, m', s, k)
  }

  ghost predicate Detects(p: Bits, r: Bits, m: Bits, m': Bits, s: nat, k: nat)
    requires p != []
  {
    |r| == |p| && k <= |p| && DifferInWindow(m, m', s, k) ==> Feed(p, r, m) != Feed(p, r, m')
  }

  /** With a constant term in the divisor a step can be undone. */
  lemma StepInjective(p: Bits, r: Bits, s: Bits, b: bool)
    requires |p| == |r| == |s| > 0 && p[0]
    requires Step(p, r, b) == Step(p, s, b)
    ensures r == s
  {
    var n := |p|;
    assert Step(p, r, b)[0] == (r[n - 1] != b) && Step(p, s, b)[0] == (s[n - 1] != b);
    forall i | 0 <= i < n - 1 ensures r[i] == s[i] {
      assert Step(p, r, b)[i + 1] == Step(p, s, b)[i + 1];
    }
  }

  lemma {:induction false} FeedInjective(p: Bits, r: Bits, s: Bits, m: Bits)
    requires |p| == |r| == |s| > 0 && p[0]
    requires Feed(p, r, m) == Feed(p, s, m)
    ensures r == s
    decreases |m|
  {
    if m != [] {
      FeedInjective(p, Step(p, r, m[0]), Step(p, s, m[0]), m[1..]);
      StepInjective(p, r, s, m[0]);
    }
  }

  /** Equal registers after two blocks of at most n bits: the blocks are equal. */
  lemma BlockInjective(p: Bits, r: Bits, b: Bits, b': Bits)
    requires |b| == |b'| <= |p| == |r| && p != [] && p[0]
    requires Feed(p, r, b) == Feed(p, r, b')
    ensures b == b'
  {
    var z, t, t' := Zeros(|b|), Xor(r, AtTop(|r|, b)), Xor(r, AtTop(|r|, b'));
    AlignedBlock(p, r, b, t, z);
    AlignedBlock(p, r, b', t', z);
    FeedInjective(p, t, t', z);
    SameAtTop(r, b, b');
  }

  lemma SameAtTop(r: Bits, b: Bits, b': Bits)
    requires |b| == |b'| <= |r| && Xor(r, AtTop(|r|, b)) == Xor(r, AtTop(|r|, b'))
    ensures b == b'
  {
    var t, t' := Xor(r, AtTop(|r|, b)), Xor(r, AtTop(|r|, b'));
    forall j | 0 <= j < |b| ensures b[j] == b'[j] {
      assert t[|r| - 1 - j] == t'[|r| - 1 - j];
    }
  }

  /** The bits b placed at the top of a register of n bits, the first one topmost. */
  function AtTop(n: nat, b: Bits): (a: Bits)
    requires |b| <= n
    ensures |a| == n && forall i :: 0 <= i < n ==> a[i] == (n - 1 - i < |b| && b[n - 1 - i])
  {
    seq(n, i requires 0 <= i < n => n - 1 - i < |b| && b[n - 1 - i])
  }

  /** Feeding k <= n bits is feeding k zeros to the register with the bits already at its top. */
  lemma AlignedBlock(p: Bits, r: Bits, b: Bits, a: Bits, z: Bits)
    requires |b| <= |p| == |r| && p != [] && a == Xor(r, AtTop(|r|, b)) && z == Zeros(|b|)
    ensures Feed(p, r, b) == Feed(p, a, z)
  {
    AtTopMoves(r, b);
    SameFeed(p, r, b, a, z);
  }

  lemma SameFeed(p: Bits, r: Bits, m: Bits, r': Bits, m': Bits)
    requires |p| == |r| == |r'| > 0 && |m| == |m'|
    requires ShiftLeft(r, |m|) == ShiftLeft(r', |m|)
    requires Xor(m, Top(r, |m|)) == Xor(m', Top(r', |m|))
    ensures Feed(p, r, m) == Feed(p, r', m')
  {
    FeedSplit(p, r, m);
    FeedSplit(p, r', m');
  }

  lemma AtTopMoves(r: Bits, b: Bits)
    requires |b| <= |r|
    ensures var a := Xor(r, AtTop(|r|, b));
      ShiftLeft(a, |b|) == ShiftLeft(r, |b|)
      && Xor(Zeros(|b|), Top(a, |b|)) == Xor(b, Top(r, |b|))
  {
    var n, k, a := |r|, |b|, Xor(r, AtTop(|r|, b));
    forall i | 0 <= i < n ensures ShiftLeft(a, k)[i] == ShiftLeft(r, k)[i] {
    }
    forall j | 0 <= j < k ensures Top(a, k)[j] == (Top(r, k)[j] != b[j]) {
      assert a[n - 1 - j] == (r[n - 1 - j] != b[j]);
    }
  }

  lemma BurstDetected(p: Bits, r: Bits, m: Bits, m': Bits, s: nat, k: nat)
    requires |p| == |r| > 0 && k <= |p| && p[0]
    requires DifferInWindow(m, m', s, k)
    ensures Feed(p, r, m) != Feed(p, r, m')
  {
    SplitWindow(p, r, m, s, k);
    SplitWindow(p, r, m', s, k);
    if Feed(p, r, m) == Feed(p, r, m') {
      var r0 := Feed(p, r, m[..s]);
      FeedInjective(p, Feed(p, r0, m[s..s + k]), Feed(p, r0, m'[s..s + k]), m[s + k..]);
      BlockInjective(p, r0, m[s..s + k], m'[s..s + k]);
      SameParts(m, m', s, k);
    }
  }

  lemma SameParts(m: Bits, m': Bits, s: nat, k: nat)
    requires s + k <= |m| == |m'|
    requires m[..s] == m'[..s] && m[s..s + k] == m'[s..s + k] && m[s + k..] == m'[s + k..]
    ensures m == m'
  {
    assert m == m[..s] + m[s..s + k] + m[s + k..];
    assert m' == m'[..s] + m'[s..s + k] + m'[s + k..];
  }

  lemma SplitWindow(p: Bits, r: Bits, m: Bits, s: nat, k: nat)
    requires |p| == |r| > 0 && s + k <= |m|
    ensures Feed(p, r, m) == Feed(p, Feed(p, Feed(p, r, m[..s]), m[s..s + k]), m[s + k..])
  {
    assert m == m[..s] + (m[s..s + k] + m[s + k..]);
    FeedConcat(p, r, m[..s], m[s..s + k] + m[s + k..]);
    FeedConcat(p, Feed(p, r, m[..s]), m[s..s + k], m[s + k..]);
  }

  /** Without a constant term some block of n bits, not all zero, is divided away. */
  lemma BurstMissed(p: Bits, z: Bits) returns (m: Bits)
    requires p != [] && !p[0] && z == Zeros(|p|)
    ensures |m| == |p| && m != z && Feed(p, z, m) == z
  {
    var n := |p|;
    var r := seq(n, i requires 0 <= i < n => i == n - 1 || p[i + 1]);
    m := Reverse(r);
    assert m[0];
    assert Step(p, r, false) == z;
    BlockOf(p, r, m, z, Zeros(n - 1));
  }

  /** A register that one step clears, fed as a message, leaves a clear register. */
  lemma BlockOf(p: Bits, r: Bits, m: Bits, z: Bits, z': Bits)
    requires |p| == |r| > 0 && m == Reverse(r) && z == Zeros(|p|) && z' == Zeros(|p| - 1)
    requires Step(p, r, false) == z
    ensures Feed(p, z, m) == z
  {
    FeedWhole(p, r, z);
    XorZeros(m);
    assert z[1..] == z';
    assert Feed(p, r, z) == Feed(p, z, z');
    FeedZeros(p, |p| - 1);
  }

  /** Bursts up to the register's width are caught exactly by the divisors with a
      constant term. */
  lemma DetectsBurstsIff(p: Bits)
    requires p != []
    ensures DetectsBursts(p) <==> p[0]
  {
    if p[0] {
      forall r: Bits, m: Bits, m': Bits, s: nat, k: nat ensures Detects(p, r, m, m', s, k) {
        if |r| == |p| && k <= |p| && DifferInWindow(m, m', s, k) {
          BurstDetected(p, r, m, m', s, k);
        }
      }
    } else {
      var z := Zeros(|p|);
      var m := BurstMissed(p, z);
      FeedZeros(p, |p|);
      NotDetected(p, m, z);
    }
  }

  lemma NotDetected(p: Bits, m: Bits, z: Bits)
    requires p != [] && |m| == |p| && z == Zeros(|p|) && m != z
    requires Feed(p, z, m) == z && Feed(p, z, z) == z
    ensures !DetectsBursts(p)
  {
    assert DifferInWindow(m, z, 0, |p|);
    assert !Detects(p, z, m, z, 0, |p|);
  }
}
