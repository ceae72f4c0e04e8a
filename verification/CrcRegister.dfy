/** The shift register that divides over GF(2), at its exact width n, and the
    algebra that every faster form of it rests on. */
module CrcRegister {
  import opened Bits

  /** One message bit b enters at the top of register r; p is the divisor without
      its leading coefficient x^n. */
  function Step(p: Bits, r: Bits, b: bool): (s: Bits)
    requires |p| == |r| > 0
    ensures |s| == |r|
  {
    var shifted := ShiftLeft(r, 1);
    if r[|r| - 1] != b then Xor(shifted, p) else shifted
  }

  function Feed(p: Bits, r: Bits, m: Bits): (s: Bits)
    requires |p| == |r| > 0
    ensures |s| == |r|
    decreases |m|
  {
    if m == [] then r else Feed(p, Step(p, r, m[0]), m[1..])
  }

  /** The k bits that leave register r first, in that order, with zeros after the
      register is exhausted. */
  function Top(r: Bits, k: nat): (t: Bits)
    ensures |t| == k && forall j :: 0 <= j < k ==> t[j] == (j < |r| && r[|r| - 1 - j])
  {
    seq(k, j requires 0 <= j < k => j < |r| && r[|r| - 1 - j])
  }

  lemma {:induction false} FeedConcat(p: Bits, r: Bits, m: Bits, m': Bits)
    requires |p| == |r| > 0
    ensures Feed(p, r, m + m') == Feed(p, Feed(p, r, m), m')
    decreases |m|
  {
    if m == [] {
      assert m + m' == m';
    } else {
      assert (m + m')[1..] == m[1..] + m';
      FeedConcat(p, Step(p, r, m[0]), m[1..], m');
    }
  }

  lemma StepLinear(p: Bits, r: Bits, s: Bits, b: bool, c: bool)
    requires |p| == |r| == |s| > 0
    ensures Step(p, Xor(r, s), b != c) == Xor(Step(p, r, b), Step(p, s, c))
  {
    ShiftLeftXor(r, s);
    var n, a, a' := |p|, ShiftLeft(r, 1), ShiftLeft(s, 1);
    if r[n - 1] != b && s[n - 1] != c {
      assert Xor(a, a') == Xor(Xor(a, p), Xor(a', p));
    } else if r[n - 1] != b || s[n - 1] != c {
      XorSwap(a, p, a');
      XorSwap(a, a', p);
    }
  }

  lemma ShiftLeftXor(r: Bits, s: Bits)
    requires |r| == |s| > 0
    ensures ShiftLeft(Xor(r, s), 1) == Xor(ShiftLeft(r, 1), ShiftLeft(s, 1))
  {
  }

  /** Feeding is linear over GF(2) in register and message together. */
  lemma {:induction false} FeedLinear(p: Bits, r: Bits, s: Bits, m: Bits, m': Bits)
    requires |p| == |r| == |s| > 0 && |m| == |m'|
    ensures Feed(p, Xor(r, s), Xor(m, m')) == Xor(Feed(p, r, m), Feed(p, s, m'))
    decreases |m|
  {
    if m != [] {
      var x := Xor(m, m');
      XorParts(m, m', x);
      StepLinear(p, r, s, m[0], m'[0]);
      FeedLinear(p, Step(p, r, m[0]), Step(p, s, m'[0]), m[1..], m'[1..]);
      assert Feed(p, Xor(r, s), x) == Feed(p, Step(p, Xor(r, s), x[0]), x[1..]);
    }
  }

  lemma XorParts(m: Bits, m': Bits, x: Bits)
    requires |m| == |m'| > 0 && x == Xor(m, m')
    ensures x[0] == (m[0] != m'[0]) && x[1..] == Xor(m[1..], m'[1..])
  {
  }

  lemma {:induction false} FeedZeros(p: Bits, k: nat)
    requires |p| > 0
    ensures Feed(p, Zeros(|p|), Zeros(k)) == Zeros(|p|)
    decreases k
  {
    if k > 0 {
      assert Step(p, Zeros(|p|), false) == Zeros(|p|);
      assert Zeros(k)[1..] == Zeros(k - 1);
      FeedZeros(p, k - 1);
    }
  }

  /** A block of any length k can be divided in one go: the register moves up by k,
      and what left it is combined with the block and divided on its own.  With k = 8
      this is one table step, for registers narrower and wider than a byte alike. */
  lemma {:induction false} FeedSplit(p: Bits, r: Bits, m: Bits)
    requires |p| == |r| > 0
    ensures Feed(p, r, m) == Xor(ShiftLeft(r, |m|), Feed(p, Zeros(|p|), Xor(m, Top(r, |m|))))
    decreases |m|
  {
    if m == [] {
      assert Xor(ShiftLeft(r, 0), Zeros(|p|)) == r;
    } else {
      var k, r1, d := |m|, ShiftLeft(r, 1), r[|r| - 1] != m[0];
      var u := Step(p, Zeros(|p|), d);
      var t, t' := Xor(m, Top(r, k)), Xor(m[1..], Top(r1, k - 1));
      calc {
        Feed(p, r, m);
        { StepSplit(p, r, m[0]); }
        Feed(p, Xor(r1, u), m[1..]);
        { FeedSum(p, r1, u, m[1..]); }
        Xor(Feed(p, r1, m[1..]), Feed(p, u, Zeros(k - 1)));
        { FeedSplit(p, r1, m[1..]); }
        Xor(Xor(ShiftLeft(r1, k - 1), Feed(p, Zeros(|p|), t')), Feed(p, u, Zeros(k - 1)));
        { XorSwap(ShiftLeft(r1, k - 1), Feed(p, Zeros(|p|), t'), Feed(p, u, Zeros(k - 1))); }
        Xor(ShiftLeft(r1, k - 1), Xor(Feed(p, u, Zeros(k - 1)), Feed(p, Zeros(|p|), t')));
        { FeedDiff(p, u, t'); }
        Xor(ShiftLeft(r1, k - 1), Feed(p, u, t'));
        { TopStep(r, m); }
        Xor(ShiftLeft(r1, k - 1), Feed(p, Zeros(|p|), t));
        { ShiftLeftTwice(r, k); }
        Xor(ShiftLeft(r, k), Feed(p, Zeros(|p|), t));
      }
    }
  }

  lemma ShiftLeftTwice(r: Bits, k: nat)
    requires k > 0
    ensures ShiftLeft(ShiftLeft(r, 1), k - 1) == ShiftLeft(r, k)
  {
  }

  lemma TopStep(r: Bits, m: Bits)
    requires r != [] && m != []
    ensures var t := Xor(m, Top(r, |m|));
      t[0] == (r[|r| - 1] != m[0]) && t[1..] == Xor(m[1..], Top(ShiftLeft(r, 1), |m| - 1))
  {
  }

  lemma TopWhole(r: Bits)
    ensures Top(r, |r|) == Reverse(r) && ShiftLeft(r, |r|) == Zeros(|r|)
  {
  }

  lemma StepSplit(p: Bits, r: Bits, b: bool)
    requires |p| == |r| > 0
    ensures Step(p, r, b) == Xor(ShiftLeft(r, 1), Step(p, Zeros(|p|), r[|r| - 1] != b))
  {
    assert ShiftLeft(Zeros(|p|), 1) == Zeros(|p|);
  }

  /** The part of the register and the message can be divided apart. */
  lemma FeedSum(p: Bits, r: Bits, s: Bits, m: Bits)
    requires |p| == |r| == |s| > 0
    ensures Feed(p, Xor(r, s), m) == Xor(Feed(p, r, m), Feed(p, s, Zeros(|m|)))
  {
    FeedLinear(p, r, s, m, Zeros(|m|));
    XorZeros(m);
  }

  lemma FeedDiff(p: Bits, r: Bits, m: Bits)
    requires |p| == |r| > 0
    ensures Feed(p, r, m) == Xor(Feed(p, r, Zeros(|m|)), Feed(p, Zeros(|p|), m))
  {
    FeedLinear(p, r, Zeros(|p|), Zeros(|m|), m);
    XorZeros(r);
    XorZeros(m);
  }

  /** Once as many bits as the register holds have gone through, only the difference
      between those bits and the register's own contents matters. */
  lemma FeedWhole(p: Bits, r: Bits, m: Bits)
    requires |p| == |r| == |m| > 0
    ensures Feed(p, r, m) == Feed(p, Zeros(|p|), Xor(m, Reverse(r)))
  {
    FeedSplit(p, r, m);
    TopWhole(r);
    XorZeros(Feed(p, Zeros(|p|), Xor(m, Reverse(r))));
  }
}
