/** The two CRC computers on whole machine words of `width` bits, of which only the low
    `bits` are the CRC: what the shifts leave above them is never cleared. */
module CrcWord {
  import opened Bits
  import opened CrcRegister

  type Word = Bits

  datatype Params = Params(bits: nat, width: nat, poly: Word, init: Word, final: Word,
                           reflectIn: bool, reflectRem: bool)
  {
    predicate Valid() {
      1 <= bits <= width && 8 <= width && |poly| == |init| == |final| == width
    }
  }

  function Masked(n: nat, w: Word): (r: Word)
    ensures |r| == |w| && forall i :: 0 <= i < |w| ==> r[i] == (i < n && w[i])
  {
    seq(|w|, i requires 0 <= i < |w| => i < n && w[i])
  }

  /** The low n bits of w mirrored in place, with zeros above them. */
  function Reflected(n: nat, w: Word): (r: Word)
    requires n <= |w|
    ensures |r| == |w| && forall i :: 0 <= i < |w| ==> r[i] == (i < n && w[n - 1 - i])
  {
    seq(|w|, i requires 0 <= i < |w| => i < n && w[n - 1 - i])
  }

  function ReflectedIf(n: nat, doReflect: bool, w: Word): (r: Word)
    requires n <= |w|
    ensures |r| == |w|
  {
    if doReflect then Reflected(n, w) else w
  }

  // ----- the bit-at-a-time computer

  function BitStep(n: nat, p: Word, w: Word, b: bool): (r: Word)
    requires 1 <= n <= |w| == |p|
    ensures |r| == |w|
  {
    var compared := if b then Xor(w, OneBit(|w|, n - 1)) else w;
    var shifted := ShiftLeft(compared, 1);
    if compared[n - 1] then Xor(shifted, p) else shifted
  }

  function BitFeed(n: nat, p: Word, w: Word, m: Bits): (r: Word)
    requires 1 <= n <= |w| == |p|
    ensures |r| == |w|
    decreases |m|
  {
    if m == [] then w else BitFeed(n, p, BitStep(n, p, w, m[0]), m[1..])
  }

  /** The bits of one byte in the order in which they are consumed. */
  function ByteBits(b: Byte, reflectIn: bool): (m: Bits)
    ensures |m| == 8
  {
    if reflectIn then b else Reverse(b)
  }

  function MessageBits(msg: seq<Byte>, reflectIn: bool): (m: Bits)
    ensures |m| == 8 * |msg|
  {
    if msg == [] then [] else ByteBits(msg[0], reflectIn) + MessageBits(msg[1..], reflectIn)
  }

  function BasicRun(c: Params, w: Word, msg: seq<Byte>): (r: Word)
    requires c.Valid() && |w| == c.width
    ensures |r| == c.width
  {
    BitFeed(c.bits, c.poly, w, MessageBits(msg, c.reflectIn))
  }

  function BasicChecksum(c: Params, w: Word): (r: Word)
    requires c.Valid() && |w| == c.width
    ensures |r| == c.width
  {
    Masked(c.bits, Xor(ReflectedIf(c.bits, c.reflectRem, w), c.final))
  }

  // ----- the byte-at-a-time computer

  function TableEntry(c: Params, v: Byte): (r: Word)
    requires c.Valid()
    ensures |r| == c.width
  {
    ReflectedIf(c.bits, c.reflectIn,
                BitFeed(c.bits, c.poly, Zeros(c.width), ByteBits(v, c.reflectIn)))
  }

  /** The highest bits of the register, moved to the top of a byte. */
  function AlignMsb(n: nat, w: Word): (b: Byte)
    requires 1 <= n <= |w| && 8 <= |w|
  {
    if n > 8 then ShiftRight(w, n - 8)[..8] else ShiftLeft(w, 8 - n)[..8]
  }

  function TableIndex(c: Params, w: Word, x: Byte): (b: Byte)
    requires c.Valid() && |w| == c.width
  {
    Xor(x, if c.reflectIn then w[..8] else AlignMsb(c.bits, w))
  }

  function ShiftedOut(c: Params, w: Word): (r: Word)
    requires c.Valid() && |w| == c.width
    ensures |r| == c.width
  {
    if c.reflectIn then ShiftRight(w, 8) else ShiftLeft(w, 8)
  }

  function OptimalByte(c: Params, w: Word, x: Byte): (r: Word)
    requires c.Valid() && |w| == c.width
    ensures |r| == c.width
  {
    var entry := TableEntry(c, TableIndex(c, w, x));
    Xor(ShiftedOut(c, w), entry)
  }

  function OptimalRun(c: Params, w: Word, msg: seq<Byte>): (r: Word)
    requires c.Valid() && |w| == c.width
    ensures |r| == c.width
    decreases |msg|
  {
    if msg == [] then w else OptimalRun(c, OptimalByte(c, w, msg[0]), msg[1..])
  }

  function OptimalInterim(c: Params, w: Word): (r: Word)
    requires c.Valid() && |w| == c.width
    ensures |r| == c.width
  {
    Masked(c.bits, ReflectedIf(c.bits, c.reflectIn, w))
  }

  function OptimalChecksum(c: Params, w: Word): (r: Word)
    requires c.Valid() && |w| == c.width
    ensures |r| == c.width
  {
    Masked(c.bits, Xor(ReflectedIf(c.bits, c.reflectRem != c.reflectIn, w), c.final))
  }

  // ----- what the words stand for

  /** The divisor, in the exact width of the CRC. */
  function Poly(c: Params): (p: Bits)
    requires c.Valid()
    ensures |p| == c.bits
  {
    c.poly[..c.bits]
  }

  /** The checksum of a register of exact width. */
  function Finished(c: Params, r: Bits): (s: Bits)
    requires c.Valid() && |r| == c.bits
    ensures |s| == c.bits
  {
    Xor(if c.reflectRem then Reverse(r) else r, c.final[..c.bits])
  }

  /** The word of the byte-at-a-time computer stands for register r: mirrored, and then
      clean above the register, exactly when the input is reflected. */
  ghost predicate Represents(c: Params, w: Word, r: Bits) {
    c.Valid() && |w| == c.width && |r| == c.bits
    && if c.reflectIn then w == Reflected(c.bits, Resize(r, c.width)) else w[..c.bits] == r
  }

  /** Nothing above bit n - 1 of the word or of the polynomial ever reaches the low n bits. */
  lemma BitStepLow(n: nat, p: Word, w: Word, b: bool)
    requires 1 <= n <= |w| == |p|
    ensures BitStep(n, p, w, b)[..n] == Step(p[..n], w[..n], b)
  {
    var compared := if b then Xor(w, OneBit(|w|, n - 1)) else w;
    assert compared[n - 1] == (w[n - 1] != b);
    LowShifted(n, w, compared);
    LowXor(n, ShiftLeft(compared, 1), p);
  }

  lemma LowShifted(n: nat, w: Word, w': Word)
    requires 1 <= n <= |w| == |w'| && forall i :: 0 <= i < n - 1 ==> w'[i] == w[i]
    ensures ShiftLeft(w', 1)[..n] == ShiftLeft(w[..n], 1)
  {
    forall i | 0 <= i < n ensures ShiftLeft(w', 1)[i] == ShiftLeft(w[..n], 1)[i] {
      assert i > 0 ==> w'[i - 1] == w[i - 1];
    }
  }

  lemma LowXor(n: nat, w: Word, v: Word)
    requires n <= |w| == |v|
    ensures Xor(w, v)[..n] == Xor(w[..n], v[..n])
  {
  }

  lemma {:induction false} BitFeedLow(n: nat, p: Word, w: Word, m: Bits)
    requires 1 <= n <= |w| == |p|
    ensures BitFeed(n, p, w, m)[..n] == Feed(p[..n], w[..n], m)
    decreases |m|
  {
    if m != [] {
      BitStepLow(n, p, w, m[0]);
      BitFeedLow(n, p, BitStep(n, p, w, m[0]), m[1..]);
    }
  }

  /** One table step does what eight single-bit steps do. */
  lemma TableStep(c: Params, w: Word, r: Bits, x: Byte)
    requires Represents(c, w, r)
    ensures Represents(c, OptimalByte(c, w, x), Feed(Poly(c), r, ByteBits(x, c.reflectIn)))
  {
    var v := TableIndex(c, w, x);
    var t := Feed(Poly(c), Zeros(c.bits), ByteBits(v, c.reflectIn));
    FeedSplit(Poly(c), r, ByteBits(x, c.reflectIn));
    IndexIsDifference(c, w, r, x);
    assert Feed(Poly(c), r, ByteBits(x, c.reflectIn)) == Xor(ShiftLeft(r, 8), t);
    EntryIsRemainder(c, v);
    ShiftedParts(c, w, r, TableEntry(c, v), t);
  }

  lemma EntryIsRemainder(c: Params, v: Byte)
    requires c.Valid()
    ensures Represents(c, TableEntry(c, v), Feed(Poly(c), Zeros(c.bits), ByteBits(v, c.reflectIn)))
  {
    BitFeedLow(c.bits, c.poly, Zeros(c.width), ByteBits(v, c.reflectIn));
    assert Zeros(c.width)[..c.bits] == Zeros(c.bits);
    LowReflected(c.bits, BitFeed(c.bits, c.poly, Zeros(c.width), ByteBits(v, c.reflectIn)));
  }

  lemma LowReflected(n: nat, w: Word)
    requires n <= |w|
    ensures Reflected(n, w) == Reflected(n, Resize(w[..n], |w|))
  {
  }

  /** The table index is the byte compared with the bits about to leave the register. */
  lemma IndexIsDifference(c: Params, w: Word, r: Bits, x: Byte)
    requires Represents(c, w, r)
    ensures ByteBits(TableIndex(c, w, x), c.reflectIn) == Xor(ByteBits(x, c.reflectIn), Top(r, 8))
  {
    var n := c.bits;
    if c.reflectIn {
      forall j | 0 <= j < 8 ensures w[j] == Top(r, 8)[j] {
      }
    } else {
      forall j | 0 <= j < 8 ensures AlignMsb(n, w)[7 - j] == Top(r, 8)[j] {
        if j < n {
          assert r[n - 1 - j] == w[n - 1 - j];
        }
      }
    }
  }

  lemma ShiftedParts(c: Params, w: Word, r: Bits, e: Word, t: Bits)
    requires Represents(c, w, r) && Represents(c, e, t)
    ensures Represents(c, Xor(ShiftedOut(c, w), e), Xor(ShiftLeft(r, 8), t))
  {
    if c.reflectIn {
      MirroredShift(c.bits, c.width, r);
      MirroredSum(c.bits, c.width, ShiftLeft(r, 8), t);
    } else {
      LowShift(c.bits, w);
      LowXor(c.bits, ShiftLeft(w, 8), e);
    }
  }

  lemma {:induction false} OptimalRunRepresents(c: Params, w: Word, r: Bits, msg: seq<Byte>)
    requires Represents(c, w, r)
    ensures Represents(c, OptimalRun(c, w, msg), Feed(Poly(c), r, MessageBits(msg, c.reflectIn)))
    decreases |msg|
  {
    if msg != [] {
      var b := ByteBits(msg[0], c.reflectIn);
      TableStep(c, w, r, msg[0]);
      OptimalRunRepresents(c, OptimalByte(c, w, msg[0]), Feed(Poly(c), r, b), msg[1..]);
      FeedConcat(Poly(c), r, b, MessageBits(msg[1..], c.reflectIn));
    }
  }

  /** Loading any word, as the constructor and `reset` do, loads its low bits. */
  lemma LoadRepresents(c: Params, w: Word)
    requires c.Valid() && |w| == c.width
    ensures Represents(c, ReflectedIf(c.bits, c.reflectIn, w), w[..c.bits])
  {
    LowReflected(c.bits, w);
  }

  /** What the byte-at-a-time computer shows is the register's contents and its checksum. */
  lemma OptimalShows(c: Params, w: Word, r: Bits)
    requires Represents(c, w, r)
    ensures OptimalInterim(c, w) == Resize(r, c.width)
    ensures OptimalChecksum(c, w) == Resize(Finished(c, r), c.width)
  {
    var x := ReflectedIf(c.bits, c.reflectRem != c.reflectIn, w);
    if c.reflectIn {
      LowMirrored(c.bits, w, r);
    } else {
      LowReverse(c.bits, w);
    }
    MaskedLow(c.bits, ReflectedIf(c.bits, c.reflectIn, w));
    MaskedSum(c.bits, x, c.final);
  }

  /** A mirrored word, as it stands and mirrored back. */
  lemma LowMirrored(n: nat, w: Word, r: Bits)
    requires |r| == n <= |w| && w == Reflected(n, Resize(r, |w|))
    ensures w[..n] == Reverse(r) && Reflected(n, w)[..n] == r
  {
    forall i | 0 <= i < n ensures Reflected(n, w)[i] == r[i] && w[i] == Reverse(r)[i] {
      assert w[n - 1 - i] == r[i];
    }
  }

  lemma LowReverse(n: nat, w: Word)
    requires n <= |w|
    ensures Reflected(n, w)[..n] == Reverse(w[..n])
  {
  }

  lemma MaskedLow(n: nat, w: Word)
    requires n <= |w|
    ensures Masked(n, w) == Resize(w[..n], |w|)
  {
  }

  lemma MaskedSum(n: nat, x: Word, f: Word)
    requires n <= |x| == |f|
    ensures Masked(n, Xor(x, f)) == Resize(Xor(x[..n], f[..n]), |x|)
  {
    MaskedLow(n, Xor(x, f));
    LowXor(n, x, f);
  }

  /** The checksum in whole words: the register is mirrored exactly if the remainder is to be
      reflected, then the final value is added, and nothing stays above the CRC. */
  lemma FinishedWord(c: Params, r: Bits)
    requires c.Valid() && |r| == c.bits
    ensures var w := Resize(r, c.width);
      Resize(Finished(c, r), c.width)
      == Masked(c.bits, Xor(if c.reflectRem then Reflected(c.bits, w) else w, c.final))
  {
    var w := Resize(r, c.width);
    assert w[..c.bits] == r;
    LowReverse(c.bits, w);
    MaskedSum(c.bits, if c.reflectRem then Reflected(c.bits, w) else w, c.final);
  }

  lemma BasicShows(c: Params, w: Word)
    requires c.Valid() && |w| == c.width
    ensures BasicChecksum(c, w) == Resize(Finished(c, w[..c.bits]), c.width)
  {
    LowReverse(c.bits, w);
    MaskedSum(c.bits, ReflectedIf(c.bits, c.reflectRem, w), c.final);
  }

  lemma MirroredShift(n: nat, width: nat, r: Bits)
    requires |r| == n <= width
    ensures ShiftRight(Reflected(n, Resize(r, width)), 8) == Reflected(n, Resize(ShiftLeft(r, 8), width))
  {
    var w := Reflected(n, Resize(r, width));
    var s, u := ShiftRight(w, 8), Reflected(n, Resize(ShiftLeft(r, 8), width));
    forall i | 0 <= i < width ensures s[i] == u[i] {
      if i + 8 < n {
        assert w[i + 8] == r[n - 1 - (i + 8)];
      }
    }
  }

  lemma MirroredSum(n: nat, width: nat, a: Bits, b: Bits)
    requires |a| == |b| == n <= width
    ensures Xor(Reflected(n, Resize(a, width)), Reflected(n, Resize(b, width)))
         == Reflected(n, Resize(Xor(a, b), width))
  {
  }

  lemma LowShift(n: nat, w: Word)
    requires n <= |w|
    ensures ShiftLeft(w, 8)[..n] == ShiftLeft(w[..n], 8)
  {
  }
}
