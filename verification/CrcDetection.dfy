/** Which errors in a message the checksums of either computer tell. */
module CrcDetection {
  import opened Bits
  import opened CrcRegister
  import opened CrcWord
  import opened CrcBurst
  import opened CrcTheorems

  lemma FinishedInjective(c: Params, r: Bits, s: Bits)
    requires c.Valid() && |r| == |s| == c.bits
    requires ToNat(Finished(c, r)) == ToNat(Finished(c, s))
    ensures r == s
  {
    FromNatToNat(Finished(c, r));
    FromNatToNat(Finished(c, s));
    XorInjective(if c.reflectRem then Reverse(r) else r, if c.reflectRem then Reverse(s) else s,
                 c.final[..c.bits]);
    ReverseTwice(r);
    ReverseTwice(s);
  }

  lemma XorInjective(a: Bits, b: Bits, f: Bits)
    requires |a| == |b| == |f| && Xor(a, f) == Xor(b, f)
    ensures a == b
  {
    forall i | 0 <= i < |a| ensures a[i] == b[i] {
      assert Xor(a, f)[i] == Xor(b, f)[i];
    }
  }

  /** With an odd polynomial, messages that differ by a burst no longer than the CRC
      have different checksums. */
  lemma ChecksumsTellBurstsApart(a: Computer, r: Bits, m: seq<Byte>, m': seq<Byte>, s: nat, k: nat)
    requires a.Holds(r) && Poly(a.c)[0] && k <= a.c.bits
    requires DifferInWindow(MessageBits(m, a.c.reflectIn), MessageBits(m', a.c.reflectIn), s, k)
    ensures ToNat(a.Process(m).Checksum()) != ToNat(a.Process(m').Checksum())
  {
    var p, b, b' := Poly(a.c), MessageBits(m, a.c.reflectIn), MessageBits(m', a.c.reflectIn);
    ProcessHolds(a, r, m);
    ProcessHolds(a, r, m');
    Shows(a.Process(m), Feed(p, r, b));
    Shows(a.Process(m'), Feed(p, r, b'));
    BurstDetected(p, r, b, b', s, k);
    if ToNat(a.Process(m).Checksum()) == ToNat(a.Process(m').Checksum()) {
      FinishedInjective(a.c, Feed(p, r, b), Feed(p, r, b'));
    }
  }

  /** Whole bytes whose bits are consumed in the order m. */
  lemma InBytes(m: Bits, k: nat, reflectIn: bool) returns (bytes: seq<Byte>)
    requires |m| == 8 * k
    ensures MessageBits(bytes, reflectIn) == m
  {
    if reflectIn {
      bytes := LowFirst(m);
      BitsOfLowFirst(m);
    } else {
      bytes := HighFirst(Reverse(m));
      BitsOfHighFirst(Reverse(m));
      ReverseTwice(m);
    }
  }

  /** A block that leaves no trace from a clear register leaves none wherever it stands. */
  lemma NoTrace(p: Bits, r: Bits, front: Bits, m: Bits, z: Bits, b: Bits, b': Bits)
    requires |p| == |r| == |m| > 0 && z == Zeros(|p|) && Feed(p, z, m) == z
    requires b == front + m && b' == front + z
    ensures Feed(p, r, b) == Feed(p, r, b')
  {
    FeedConcat(p, r, front, m);
    FeedConcat(p, r, front, z);
    NoTraceFrom(p, Feed(p, r, front), m, z);
  }

  lemma NoTraceFrom(p: Bits, r: Bits, m: Bits, z: Bits)
    requires |p| == |r| == |m| > 0 && z == Zeros(|p|) && Feed(p, z, m) == z
    ensures Feed(p, r, m) == Feed(p, r, z)
  {
    FeedDiff(p, r, m);
    var f := Feed(p, r, z);
    XorZeros(f);
    assert Feed(p, r, m) == Xor(f, z);
  }

  /** With an even polynomial two messages of whole bytes, different within a burst no
      longer than the CRC, get the same checksum, whatever state the computer is in. */
  lemma ChecksumsConfuse(a: Computer, r: Bits) returns (m: seq<Byte>, m': seq<Byte>, s: nat)
    requires a.Holds(r) && !Poly(a.c)[0]
    ensures DifferInWindow(MessageBits(m, a.c.reflectIn), MessageBits(m', a.c.reflectIn), s, a.c.bits)
    ensures a.Process(m).Checksum() == a.Process(m').Checksum()
  {
    m, m', s := ConfusedBytes(Poly(a.c), r, a.c.reflectIn);
    SameChecksum(a, r, m, m');
  }

  lemma ConfusedBytes(p: Bits, r: Bits, reflectIn: bool) returns (m: seq<Byte>, m': seq<Byte>, s: nat)
    requires |p| == |r| > 0 && !p[0]
    ensures DifferInWindow(MessageBits(m, reflectIn), MessageBits(m', reflectIn), s, |p|)
    ensures Feed(p, r, MessageBits(m, reflectIn)) == Feed(p, r, MessageBits(m', reflectIn))
  {
    var k;
    s, k := ToWholeBytes(|p|);
    var b, b' := ConfusedBits(p, r, s);
    m := InBytes(b, k, reflectIn);
    m' := InBytes(b', k, reflectIn);
  }

  lemma ConfusedBits(p: Bits, r: Bits, s: nat) returns (b: Bits, b': Bits)
    requires |p| == |r| > 0 && !p[0]
    ensures |b| == |b'| == s + |p|
    ensures DifferInWindow(b, b', s, |p|) && Feed(p, r, b) == Feed(p, r, b')
  {
    var z := Zeros(|p|);
    var block := BurstMissed(p, z);
    var front := Zeros(s);
    b, b' := front + block, front + z;
    WindowBehind(front, block, z, b, b', s, |p|);
    NoTrace(p, r, front, block, z, b, b');
  }

  lemma ToWholeBytes(n: nat) returns (s: nat, k: nat)
    ensures s + n == 8 * k
  {
    var q, m := n / 8, n % 8;
    assert n == 8 * q + m;
    s, k := if m == 0 then 0 else 8 - m, if m == 0 then q else q + 1;
  }

  lemma WindowBehind(front: Bits, b: Bits, b': Bits, m: Bits, m': Bits, s: nat, k: nat)
    requires |b| == |b'| == k && b != b' && |front| == s && m == front + b && m' == front + b'
    ensures DifferInWindow(m, m', s, k)
  {
    assert m[s..] == b && m'[s..] == b';
    assert m[..s] == front == m'[..s];
    assert m[s + k..] == [] == m'[s + k..];
  }

  lemma SameChecksum(a: Computer, r: Bits, m: seq<Byte>, m': seq<Byte>)
    requires a.Holds(r)
    requires Feed(Poly(a.c), r, MessageBits(m, a.c.reflectIn)) == Feed(Poly(a.c), r, MessageBits(m', a.c.reflectIn))
    ensures a.Process(m).Checksum() == a.Process(m').Checksum()
  {
    var s := Feed(Poly(a.c), r, MessageBits(m, a.c.reflectIn));
    ProcessHolds(a, r, m);
    ProcessHolds(a, r, m');
    Shows(a.Process(m), s);
    Shows(a.Process(m'), s);
  }

  /** In every state the checksums of messages that differ by a burst no longer than the
      CRC are different. */
  ghost predicate TellsBurstsApart(c: Params) {
    forall a: Computer, r: Bits, m: seq<Byte>, m': seq<Byte>, s: nat, k: nat ::
      a.c == c && a.Holds(r) ==> Tells(a, m, m', s, k)
  }

  ghost predicate Tells(a: Computer, m: seq<Byte>, m': seq<Byte>, s: nat, k: nat)
    requires a.Valid()
  {
    k <= a.c.bits && DifferInWindow(MessageBits(m, a.c.reflectIn), MessageBits(m', a.c.reflectIn), s, k) ==>
      ToNat(a.Process(m).Checksum()) != ToNat(a.Process(m').Checksum())
  }

  /** The exact condition, on messages and checksums: the lowest bit of the polynomial. */
  lemma TellsBurstsApartIff(c: Params)
    requires c.Valid()
    ensures TellsBurstsApart(c) <==> Poly(c)[0]
  {
    if Poly(c)[0] {
      forall a: Computer, r: Bits, m: seq<Byte>, m': seq<Byte>, s: nat, k: nat | a.c == c && a.Holds(r)
        ensures Tells(a, m, m', s, k)
      {
        OddTells(a, r, m, m', s, k);
      }
    } else {
      EvenDoesNot(c);
    }
  }

  lemma OddTells(a: Computer, r: Bits, m: seq<Byte>, m': seq<Byte>, s: nat, k: nat)
    requires a.Holds(r) && Poly(a.c)[0]
    ensures Tells(a, m, m', s, k)
  {
    if k <= a.c.bits && DifferInWindow(MessageBits(m, a.c.reflectIn), MessageBits(m', a.c.reflectIn), s, k) {
      ChecksumsTellBurstsApart(a, r, m, m', s, k);
    }
  }

  lemma EvenDoesNot(c: Params)
    requires c.Valid() && !Poly(c)[0]
    ensures !TellsBurstsApart(c)
  {
    var a, r := BasicFrom(c), c.init[..c.bits];
    assert a.Holds(r);
    var m, m', s := ChecksumsConfuse(a, r);
    assert !Tells(a, m, m', s, c.bits);
  }

  // ----- the named CRCs

  datatype NamedCrc = Crc16 | Ccitt | Xmodem | Crc32 {
    /** c holds the parameters of this CRC, in words of any width. */
    predicate Has(c: Params) {
      c.Valid() && c.bits == (if Crc32? then 32 else 16) && c.reflectIn == c.reflectRem == !Ccitt?
      && ToNat(c.poly) == (match this
                           case Crc16 => 0x8005
                           case Ccitt => 0x1021
                           case Xmodem => 0x8408
                           case Crc32 => 0x04C11DB7)
      && ToNat(c.init) == (match this case Ccitt => 0xFFFF case Crc32 => 0xFFFFFFFF case _ => 0)
      && ToNat(c.final) == (if Crc32? then 0xFFFFFFFF else 0)
    }
  }

  /** Of the four named CRCs all but the XMODEM one, whose polynomial is even, catch every
      burst of up to their width. */
  lemma NamedCrcsAndBursts(name: NamedCrc, c: Params)
    ensures name.Has(c) ==> (TellsBurstsApart(c) <==> !name.Xmodem?)
  {
    if name.Has(c) {
      assert Poly(c)[0] <==> ToNat(c.poly) % 2 == 1;
      TellsBurstsApartIff(c);
    }
  }
}
