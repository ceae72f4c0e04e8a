/** Polynomials over GF(2), as coefficient vectors, and the division that the shift
    register carries out. */
module CrcPolynomial {
  import opened Bits
  import opened CrcRegister

  /** x^n + p, the polynomial whose leading coefficient `truncated_polynominal` leaves out. */
  function Divisor(p: Bits): (d: Bits)
    ensures |d| == |p| + 1
  {
    p + [true]
  }

  /** The vector c times x^k, or zero. */
  function Shifted(k: nat, c: bool, d: Bits): (r: Bits)
    ensures |r| == k + |d|
  {
    Zeros(k) + if c then d else Zeros(|d|)
  }

  /** The product of q and a nonempty d, schoolbook fashion. */
  function Mul(q: Bits, d: Bits): (r: Bits)
    requires d != []
    ensures |r| == |q| + |d| - 1
  {
    if q == [] then Zeros(|d| - 1) else
      var k := |q| - 1;
      Xor(Mul(q[..k], d) + [false], Shifted(k, q[k], d))
  }

  /** r is a remainder of a by the divisor x^n + p: of degree below n, and it differs
      from a by a multiple of the divisor. */
  ghost predicate IsRemainder(p: Bits, a: Bits, r: Bits) {
    |r| == |p| <= |a| && exists q: Bits :: DivMod(p, a, q, r)
  }

  predicate DivMod(p: Bits, a: Bits, q: Bits, r: Bits)
    requires |r| == |p| <= |a|
  {
    |q| == |a| - |p| && a == Xor(Mul(q, Divisor(p)), r + Zeros(|a| - |p|))
  }

  /** Division has one remainder only. */
  lemma {:induction false} RemainderUnique(p: Bits, a: Bits, q: Bits, r: Bits, q': Bits, r': Bits)
    requires |r| == |r'| == |p| <= |a|
    requires DivMod(p, a, q, r) && DivMod(p, a, q', r')
    ensures q == q' && r == r'
    decreases |q|
  {
    var d, k := Divisor(p), |q|;
    if k == 0 {
      MulNothing(q, d, r);
      MulNothing(q', d, r');
    } else {
      DropTop(p, a, q, r);
      DropTop(p, a, q', r');
      var a0 := Xor(a, Shifted(k - 1, q[k - 1], d))[..|a| - 1];
      RemainderUnique(p, a0, q[..k - 1], r, q'[..k - 1], r');
      SameBits(q, q');
    }
  }

  lemma SameBits(q: Bits, q': Bits)
    requires |q| == |q'| > 0 && q[|q| - 1] == q'[|q| - 1] && q[..|q| - 1] == q'[..|q| - 1]
    ensures q == q'
  {
    assert q == q[..|q| - 1] + [q[|q| - 1]];
    assert q' == q'[..|q| - 1] + [q'[|q| - 1]];
  }

  lemma MulNothing(q: Bits, d: Bits, r: Bits)
    requires q == [] && |d| == |r| + 1
    ensures Xor(Mul(q, d), r + Zeros(0)) == r
  {
    assert r + Zeros(0) == r;
    XorZeros(r);
  }

  /** The highest coefficient of the dividend is the highest one of the quotient, and
      taking that multiple of the divisor away leaves a dividend one shorter. */
  lemma DropTop(p: Bits, a: Bits, q: Bits, r: Bits)
    requires |r| == |p| < |a| && |q| == |a| - |p|
    ensures DivMod(p, a, q, r) <==>
            var k := |q| - 1;
            var a' := Xor(a, Shifted(k, q[k], Divisor(p)));
            a[|a| - 1] == q[k] && DivMod(p, a'[..|a| - 1], q[..k], r)
  {
    var d, k, n := Divisor(p), |q| - 1, |a| - 1;
    var low, s := Mul(q[..k], d), Shifted(k, q[k], d);
    var rz, rz' := r + Zeros(|q|), r + Zeros(k);
    PushTop(low, s, rz, rz', a);
  }

  lemma PushTop(low: Bits, s: Bits, rz: Bits, rz': Bits, a: Bits)
    requires |low| + 1 == |s| == |a| && |rz'| == |low| && rz == rz' + [false]
    ensures a == Xor(Xor(low + [false], s), rz) <==>
            a[|low|] == s[|low|] && Xor(a, s)[..|low|] == Xor(low, rz')
  {
    var n := |low|;
    var b := Xor(Xor(low + [false], s), rz);
    assert forall i :: 0 <= i < n ==> b[i] == ((low[i] != s[i]) != rz'[i]);
    assert b[n] == s[n];
    if a[n] == s[n] && Xor(a, s)[..n] == Xor(low, rz') {
      forall i | 0 <= i < n ensures a[i] == b[i] {
        assert Xor(a, s)[..n][i] == Xor(low, rz')[i];
      }
      assert a == b;
    }
  }

  lemma PushQuotient(p: Bits, a: Bits, c: bool, q: Bits, r: Bits)
    requires |r| == |p| && |q| + |p| + 1 == |a| && a[|a| - 1] == c
    requires DivMod(p, Xor(a, Shifted(|q|, c, Divisor(p)))[..|a| - 1], q, r)
    ensures DivMod(p, a, q + [c], r)
  {
    AppendOne(q, c);
    DropTop(p, a, q + [c], r);
  }

  /** The dividend of a register r that takes in the bits m at its top:
      r * x^k + m * x^n, where m[0] is m's highest coefficient. */
  function Dividend(r: Bits, m: Bits): (a: Bits)
    ensures |a| == |r| + |m|
  {
    Xor(Zeros(|m|) + r, Zeros(|r|) + Reverse(m))
  }

  /** The quotient bits that a run of the register decides on, one a message bit. */
  function Quotient(p: Bits, r: Bits, m: Bits): (q: Bits)
    requires |p| == |r| > 0
    ensures |q| == |m|
    decreases |m|
  {
    if m == [] then [] else Quotient(p, Step(p, r, m[0]), m[1..]) + [r[|r| - 1] != m[0]]
  }

  /** The register computes the remainder of r * x^|m| + m * x^n. */
  lemma {:induction false} FeedDivides(p: Bits, r: Bits, m: Bits)
    requires |p| == |r| > 0
    ensures DivMod(p, Dividend(r, m), Quotient(p, r, m), Feed(p, r, m))
    decreases |m|
  {
    if m == [] {
      DivideNothing(p, r);
    } else {
      FeedDivides(p, Step(p, r, m[0]), m[1..]);
      DividendStep(p, r, m);
      PushQuotient(p, Dividend(r, m), r[|r| - 1] != m[0],
                   Quotient(p, Step(p, r, m[0]), m[1..]), Feed(p, r, m));
    }
  }

  lemma DivideNothing(p: Bits, r: Bits)
    requires |p| == |r|
    ensures DivMod(p, Dividend(r, []), [], r)
  {
    MulNothing([], Divisor(p), r);
    assert Dividend(r, []) == r;
  }

  lemma DividendStep(p: Bits, r: Bits, m: Bits)
    requires |p| == |r| > 0 && m != []
    ensures var k, n, c := |m| - 1, |r|, r[|r| - 1] != m[0];
      var a := Dividend(r, m);
      a[n + k] == c
      && Xor(a, Shifted(k, c, Divisor(p)))[..n + k] == Dividend(Step(p, r, m[0]), m[1..])
  {
    var k, n, c := |m| - 1, |r|, r[|r| - 1] != m[0];
    var a, s, e := Dividend(r, m), Shifted(k, c, Divisor(p)), Dividend(Step(p, r, m[0]), m[1..]);
    var up := ShiftLeft(r, 1);
    forall i | 0 <= i < n + k ensures Xor(a, s)[i] == e[i] {
      if i >= k {
        assert Step(p, r, m[0])[i - k] == (up[i - k] != (c && p[i - k]));
      }
    }
  }

  /** After the bits m the register holds r * x^|m| + m * x^n modulo x^n + p, and
      nothing else does. */
  lemma FeedIsTheRemainder(p: Bits, r: Bits, m: Bits, s: Bits)
    requires |p| == |r| > 0
    ensures IsRemainder(p, Dividend(r, m), s) <==> s == Feed(p, r, m)
  {
    FeedDivides(p, r, m);
    UniqueAmong(p, Dividend(r, m), Quotient(p, r, m), Feed(p, r, m), s);
  }

  lemma UniqueAmong(p: Bits, a: Bits, q: Bits, r: Bits, s: Bits)
    requires |r| == |p| <= |a| && DivMod(p, a, q, r)
    ensures IsRemainder(p, a, s) <==> s == r
  {
    if IsRemainder(p, a, s) {
      var q' :| DivMod(p, a, q', s);
      RemainderUnique(p, a, q, r, q', s);
    }
  }
}
