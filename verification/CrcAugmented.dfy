/** The register in the order of feeding that `augmented_crc` uses: message bits come
    in at the bottom, and are divided only once they reach the top. */
module CrcAugmented {
  import opened Bits
  import opened CrcRegister
  import opened CrcPolynomial

  function AugStep(p: Bits, r: Bits, b: bool): (s: Bits)
    requires |p| == |r| > 0
    ensures |s| == |r|
  {
    var shifted := [b] + r[..|r| - 1];
    if r[|r| - 1] then Xor(shifted, p) else shifted
  }

  function AugFeed(p: Bits, r: Bits, m: Bits): (s: Bits)
    requires |p| == |r| > 0
    ensures |s| == |r|
    decreases |m|
  {
    if m == [] then r else AugFeed(p, AugStep(p, r, m[0]), m[1..])
  }

  /** r * x^k + m, the message as it stands below the initial remainder. */
  function AugDividend(r: Bits, m: Bits): (a: Bits)
    ensures |a| == |r| + |m|
  {
    Reverse(m) + r
  }

  function AugQuotient(p: Bits, r: Bits, m: Bits): (q: Bits)
    requires |p| == |r| > 0
    ensures |q| == |m|
    decreases |m|
  {
    if m == [] then [] else AugQuotient(p, AugStep(p, r, m[0]), m[1..]) + [r[|r| - 1]]
  }

  lemma {:induction false} AugFeedDivides(p: Bits, r: Bits, m: Bits)
    requires |p| == |r| > 0
    ensures DivMod(p, AugDividend(r, m), AugQuotient(p, r, m), AugFeed(p, r, m))
    decreases |m|
  {
    if m == [] {
      AugDivideNothing(p, r);
    } else {
      AugFeedDivides(p, AugStep(p, r, m[0]), m[1..]);
      AugDividendStep(p, r, m);
      PushQuotient(p, AugDividend(r, m), r[|r| - 1],
                   AugQuotient(p, AugStep(p, r, m[0]), m[1..]), AugFeed(p, r, m));
    }
  }

  lemma AugDivideNothing(p: Bits, r: Bits)
    requires |p| == |r|
    ensures DivMod(p, AugDividend(r, []), [], r)
  {
    MulNothing([], Divisor(p), r);
    assert AugDividend(r, []) == r;
  }

  lemma AugDividendStep(p: Bits, r: Bits, m: Bits)
    requires |p| == |r| > 0 && m != []
    ensures var k, n, c := |m| - 1, |r|, r[|r| - 1];
      var a := AugDividend(r, m);
      a[n + k] == c
      && Xor(a, Shifted(k, c, Divisor(p)))[..n + k] == AugDividend(AugStep(p, r, m[0]), m[1..])
  {
    var k, n, c := |m| - 1, |r|, r[|r| - 1];
    var a, s := AugDividend(r, m), Shifted(k, c, Divisor(p));
    var e := AugDividend(AugStep(p, r, m[0]), m[1..]);
    forall i | 0 <= i < n + k ensures Xor(a, s)[i] == e[i] {
    }
  }

  /** The augmented register holds r * x^|m| + m modulo x^n + p. */
  lemma AugFeedIsTheRemainder(p: Bits, r: Bits, m: Bits, s: Bits)
    requires |p| == |r| > 0
    ensures IsRemainder(p, AugDividend(r, m), s) <==> s == AugFeed(p, r, m)
  {
    AugFeedDivides(p, r, m);
    UniqueAmong(p, AugDividend(r, m), AugQuotient(p, r, m), AugFeed(p, r, m), s);
  }

  /** The bits m at the bottom of a register of n bits, the last one lowest. */
  function AtBottom(n: nat, m: Bits): (a: Bits)
    requires |m| <= n
    ensures |a| == n && forall i :: 0 <= i < n ==> a[i] == (i < |m| && m[|m| - 1 - i])
  {
    seq(n, i requires 0 <= i < n => i < |m| && m[|m| - 1 - i])
  }

  /** Up to n bits that come in at the bottom stay clear of the division. */
  lemma {:induction false} AugFeedBlock(p: Bits, r: Bits, m: Bits, z: Bits)
    requires |m| <= |p| == |r| && p != [] && z == Zeros(|m|)
    ensures AugFeed(p, r, m) == Xor(Feed(p, r, z), AtBottom(|p|, m))
    decreases |m|
  {
    if m == [] {
      EmptyBlock(r);
    } else {
      AugFeedBlock(p, AugStep(p, r, m[0]), m[1..], z[1..]);
      BlockStep(p, r, m, z[1..]);
    }
  }

  lemma BlockStep(p: Bits, r: Bits, m: Bits, z: Bits)
    requires 0 < |m| <= |p| == |r| && z == Zeros(|m| - 1)
    ensures Xor(Feed(p, AugStep(p, r, m[0]), z), AtBottom(|p|, m[1..]))
         == Xor(Feed(p, Step(p, r, false), z), AtBottom(|p|, m))
  {
    var n, k, s := |p|, |m|, Step(p, r, false);
    AugStepSplit(p, r, m[0]);
    FeedSum(p, s, if m[0] then OneBit(n, 0) else Zeros(n), z);
    LowBitRises(p, m[0], k - 1);
    BlockGrows(Feed(p, s, z), m);
  }

  lemma EmptyBlock(r: Bits)
    ensures Xor(r, AtBottom(|r|, [])) == r
  {
  }

  lemma AugStepSplit(p: Bits, r: Bits, b: bool)
    requires |p| == |r| > 0
    ensures AugStep(p, r, b) == Xor(Step(p, r, false), if b then OneBit(|p|, 0) else Zeros(|p|))
  {
    var s, low := Step(p, r, false), if b then OneBit(|p|, 0) else Zeros(|p|);
    var shifted, up := [b] + r[..|r| - 1], ShiftLeft(r, 1);
    forall i | 0 <= i < |p| ensures AugStep(p, r, b)[i] == Xor(s, low)[i] {
      assert shifted[i] == (up[i] != low[i]);
    }
  }

  lemma FeedZeroFirst(p: Bits, r: Bits, k: nat)
    requires |p| == |r| > 0 && k > 0
    ensures Feed(p, r, Zeros(k)) == Feed(p, Step(p, r, false), Zeros(k - 1))
  {
    assert Zeros(k)[1..] == Zeros(k - 1);
  }

  lemma LowBitRises(p: Bits, c: bool, k: nat)
    requires k < |p|
    ensures Feed(p, if c then OneBit(|p|, 0) else Zeros(|p|), Zeros(k))
         == if c then OneBit(|p|, k) else Zeros(|p|)
  {
    var r := if c then OneBit(|p|, 0) else Zeros(|p|);
    FeedSplit(p, r, Zeros(k));
    RisenBit(|p|, c, k);
    FeedZeros(p, k);
    XorZeros(if c then OneBit(|p|, k) else Zeros(|p|));
  }

  lemma RisenBit(n: nat, c: bool, k: nat)
    requires k < n
    ensures var r := if c then OneBit(n, 0) else Zeros(n);
      ShiftLeft(r, k) == (if c then OneBit(n, k) else Zeros(n))
      && Xor(Zeros(k), Top(r, k)) == Zeros(k)
  {
  }

  lemma BlockGrows(f: Bits, m: Bits)
    requires 0 < |m| <= |f|
    ensures var n, k := |f|, |m|;
      Xor(Xor(f, if m[0] then OneBit(n, k - 1) else Zeros(n)), AtBottom(n, m[1..]))
      == Xor(f, AtBottom(n, m))
  {
    var n, k := |f|, |m|;
    var t, low := if m[0] then OneBit(n, k - 1) else Zeros(n), AtBottom(n, m[1..]);
    forall i | 0 <= i < n ensures (t[i] != low[i]) == AtBottom(n, m)[i] {
      if i < k - 1 {
        assert m[1..][k - 2 - i] == m[k - 1 - i];
      }
    }
  }

  lemma {:induction false} AugFeedConcat(p: Bits, r: Bits, m: Bits, m': Bits)
    requires |p| == |r| > 0
    ensures AugFeed(p, r, m + m') == AugFeed(p, AugFeed(p, r, m), m')
    decreases |m|
  {
    if m == [] {
      assert m + m' == m';
    } else {
      assert (m + m')[1..] == m[1..] + m';
      AugFeedConcat(p, AugStep(p, r, m[0]), m[1..], m');
    }
  }

  /** Bits that the augmented register has taken in are divided once n more bits push
      them through; the plain register is ahead by exactly those n steps. */
  lemma {:induction false} AugmentedLags(p: Bits, r: Bits, m: Bits)
    requires |p| == |r| > 0
    ensures Feed(p, Feed(p, r, Zeros(|p|)), m) == Feed(p, AugFeed(p, r, m), Zeros(|p|))
    decreases |m|
  {
    if m != [] {
      LagStep(p, r, m[0]);
      AugmentedLags(p, AugStep(p, r, m[0]), m[1..]);
    }
  }

  lemma LagStep(p: Bits, r: Bits, b: bool)
    requires |p| == |r| > 0
    ensures Step(p, Feed(p, r, Zeros(|p|)), b) == Feed(p, AugStep(p, r, b), Zeros(|p|))
  {
    var n := |p|;
    var low := if b then OneBit(n, 0) else Zeros(n);
    AugStepSplit(p, r, b);
    FeedSum(p, Step(p, r, false), low, Zeros(n));
    LowBitDivided(p, b);
    ZerosCommute(p, r, n);
    XorZeros(Feed(p, r, Zeros(n)));
    StepLinear(p, Feed(p, r, Zeros(n)), Zeros(n), false, b);
  }

  lemma LowBitDivided(p: Bits, b: bool)
    requires p != []
    ensures Feed(p, if b then OneBit(|p|, 0) else Zeros(|p|), Zeros(|p|)) == Step(p, Zeros(|p|), b)
  {
    var n := |p|;
    LowBitLast(p, if b then OneBit(n, 0) else Zeros(n), b, Zeros(n), Zeros(n - 1));
  }

  lemma LowBitLast(p: Bits, low: Bits, b: bool, z: Bits, z': Bits)
    requires p != [] && low == (if b then OneBit(|p|, 0) else Zeros(|p|))
    requires z == Zeros(|p|) && z' == Zeros(|p| - 1)
    ensures Feed(p, low, z) == Step(p, z, b)
  {
    FeedWhole(p, low, z);
    XorZeros(Reverse(low));
    LowReversed(low, b, z');
    FeedConcat(p, z, z', [b]);
    FeedZeros(p, |p| - 1);
    FeedOne(p, z, b);
  }

  lemma LowReversed(low: Bits, b: bool, z: Bits)
    requires low != [] && low == (if b then OneBit(|low|, 0) else Zeros(|low|)) && z == Zeros(|low| - 1)
    ensures Reverse(low) == z + [b]
  {
  }

  lemma FeedOne(p: Bits, r: Bits, b: bool)
    requires |p| == |r| > 0
    ensures Feed(p, r, [b]) == Step(p, r, b)
  {
    assert [b][1..] == [];
    assert Feed(p, Step(p, r, b), []) == Step(p, r, b);
  }

  lemma {:induction false} ZerosCommute(p: Bits, r: Bits, k: nat)
    requires |p| == |r| > 0
    ensures Feed(p, Step(p, r, false), Zeros(k)) == Step(p, Feed(p, r, Zeros(k)), false)
    decreases k
  {
    if k > 0 {
      FeedZeroFirst(p, Step(p, r, false), k);
      FeedZeroFirst(p, r, k);
      ZerosCommute(p, Step(p, r, false), k - 1);
    }
  }

  /** Pushing a message through with n bits c behind it gives what the plain register gives,
      with c added. */
  lemma AugmentedWithBlock(p: Bits, r: Bits, m: Bits, c: Bits)
    requires |p| == |r| == |c| > 0
    ensures AugFeed(p, r, m + c) == Xor(Feed(p, Feed(p, r, Zeros(|p|)), m), Reverse(c))
  {
    AugFeedConcat(p, r, m, c);
    AugFeedBlock(p, AugFeed(p, r, m), c, Zeros(|p|));
    assert AtBottom(|p|, c) == Reverse(c);
    AugmentedLags(p, r, m);
  }
}
