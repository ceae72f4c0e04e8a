/** `augmented_crc`, the table-driven division of a message that already carries room for
    its remainder. */
module AugmentedCrc {
  import opened Bits
  import opened CrcRegister
  import opened CrcPolynomial
  import opened CrcAugmented
  import opened CrcWord
  import opened CrcComputers
  import CrcTheorems

  /** The parameters `augmented_crc` has: nothing reflected, and at least a byte wide. */
  predicate Augmentable(c: Params) {
    c.Valid() && c.bits >= 8 && !c.reflectIn
  }

  /** The register moved up by a byte, with x in its place and the table entry e added. */
  function Refilled(w: Word, x: Byte, e: Word): (r: Word)
    requires |w| == |e|
    ensures |r| == |w|
  {
    Xor(Or(ShiftLeft(w, 8), Resize(x, |w|)), e)
  }

  /** The byte that is about to leave the register. */
  function TopByte(c: Params, w: Word): (b: Byte)
    requires Augmentable(c) && |w| == c.width
    ensures forall j :: 0 <= j < 8 ==> b[j] == w[c.bits - 8 + j]
  {
    ShiftRight(w, c.bits - 8)[..8]
  }

  function AugmentedByte(c: Params, w: Word, x: Byte): (r: Word)
    requires Augmentable(c) && |w| == c.width
    ensures |r| == c.width
  {
    Refilled(w, x, TableEntry(c, TopByte(c, w)))
  }

  function AugmentedRun(c: Params, w: Word, msg: seq<Byte>): (r: Word)
    requires Augmentable(c) && |w| == c.width
    ensures |r| == c.width
    decreases |msg|
  {
    if msg == [] then w else AugmentedRun(c, AugmentedByte(c, w, msg[0]), msg[1..])
  }

  lemma TopByteIndex(c: Params, w: Word)
    requires Augmentable(c) && |w| == c.width
    ensures Reverse(TopByte(c, w)) == Xor(Zeros(8), Top(w[..c.bits], 8))
  {
    var b, t := TopByte(c, w), Top(w[..c.bits], 8);
    forall j | 0 <= j < 8 ensures Reverse(b)[j] == Xor(Zeros(8), t)[j] {
      assert b[7 - j] == w[c.bits - 8 + (7 - j)];
    }
  }

  /** One table step takes in eight bits at the bottom. */
  lemma AugmentedByteLow(c: Params, w: Word, x: Byte)
    requires Augmentable(c) && |w| == c.width
    ensures AugmentedByte(c, w, x)[..c.bits] == AugFeed(Poly(c), w[..c.bits], ByteBits(x, false))
  {
    ByteShiftedIn(c, w, x);
    TakesInByte(c, w, Reverse(x));
  }

  /** The register moved up by a byte, the remainder e added, and the byte x put in. */
  function Moved(r: Bits, e: Bits, x: Bits): (s: Bits)
    requires |x| <= |r| == |e|
    ensures |s| == |r|
  {
    Xor(Xor(ShiftLeft(r, 8), e), AtBottom(|r|, x))
  }

  lemma ByteShiftedIn(c: Params, w: Word, x: Byte)
    requires Augmentable(c) && |w| == c.width
    ensures AugmentedByte(c, w, x)[..c.bits]
         == Moved(w[..c.bits], TableEntry(c, TopByte(c, w))[..c.bits], Reverse(x))
  {
    ByteMoves(c.bits, w, x, TableEntry(c, TopByte(c, w)));
  }

  lemma TakesInByte(c: Params, w: Word, x: Byte)
    requires Augmentable(c) && |w| == c.width
    ensures AugFeed(Poly(c), w[..c.bits], x) == Moved(w[..c.bits], TableEntry(c, TopByte(c, w))[..c.bits], x)
  {
    EntryOfTop(c, w);
    DividesByte(Poly(c), w[..c.bits], x, Zeros(8), TableEntry(c, TopByte(c, w))[..c.bits]);
  }

  /** The entry is the remainder of the byte that leaves. */
  lemma EntryOfTop(c: Params, w: Word)
    requires Augmentable(c) && |w| == c.width
    ensures TableEntry(c, TopByte(c, w))[..c.bits]
         == Feed(Poly(c), Zeros(c.bits), Xor(Zeros(8), Top(w[..c.bits], 8)))
  {
    EntryIsRemainder(c, TopByte(c, w));
    TopByteIndex(c, w);
  }

  lemma DividesByte(p: Bits, r: Bits, x: Byte, z: Bits, e: Bits)
    requires |p| == |r| >= 8 && z == Zeros(8) && e == Feed(p, Zeros(|p|), Xor(z, Top(r, 8)))
    ensures AugFeed(p, r, x) == Moved(r, e, x)
  {
    AugFeedBlock(p, r, x, z);
    FeedSplit(p, r, z);
  }

  lemma ByteMoves(n: nat, w: Word, x: Byte, e: Word)
    requires 8 <= n <= |w| == |e|
    ensures Refilled(w, x, e)[..n] == Moved(w[..n], e[..n], Reverse(x))
  {
    var a, b := Or(ShiftLeft(w, 8), Resize(x, |w|)), AtBottom(n, Reverse(x));
    forall i | 0 <= i < n ensures a[i] == (ShiftLeft(w[..n], 8)[i] != b[i]) {
      if i < 8 {
        assert b[i] == Reverse(x)[7 - i];
      }
    }
  }

  lemma {:induction false} AugmentedRunLow(c: Params, w: Word, msg: seq<Byte>)
    requires Augmentable(c) && |w| == c.width
    ensures AugmentedRun(c, w, msg)[..c.bits]
         == AugFeed(Poly(c), w[..c.bits], MessageBits(msg, false))
    decreases |msg|
  {
    if msg != [] {
      AugmentedByteLow(c, w, msg[0]);
      AugmentedRunLow(c, AugmentedByte(c, w, msg[0]), msg[1..]);
      AugFeedConcat(Poly(c), w[..c.bits], ByteBits(msg[0], false), MessageBits(msg[1..], false));
    }
  }

  lemma RunUnfolds(c: Params, w: Word, msg: seq<Byte>, p: nat)
    requires Augmentable(c) && |w| == c.width && p < |msg|
    ensures AugmentedRun(c, w, msg[p..]) == AugmentedRun(c, AugmentedByte(c, w, msg[p]), msg[p + 1..])
  {
    var rest := msg[p..];
    assert rest[0] == msg[p] && rest[1..] == msg[p + 1..];
  }

  method Compute(table: CrcTable, bytes: seq<Byte>, initialRemainder: Word) returns (r: Word)
    requires table.Valid() && Augmentable(table.c) && |initialRemainder| == table.c.width
    modifies table`didInit, table.table
    ensures table.Valid() && table.didInit
    ensures r == Masked(table.c.bits, AugmentedRun(table.c, initialRemainder, bytes))
    ensures var c := table.c;
      r == Resize(AugFeed(Poly(c), initialRemainder[..c.bits], MessageBits(bytes, false)), c.width)
  {
    var c := table.c;
    AugmentedShows(c, initialRemainder, bytes);
    var rem := initialRemainder;
    table.InitTable();
    ghost var goal := AugmentedRun(c, rem, bytes);
    var p := 0;
    while p < |bytes|
      invariant p <= |bytes| && |rem| == c.width
      invariant AugmentedRun(c, rem, bytes[p..]) == goal
      modifies {}
    {
      RunUnfolds(c, rem, bytes, p);
      rem := TakeByte(table, rem, bytes[p]);
      p := p + 1;
    }
    r := Masked(c.bits, rem);
  }

  /** The body of the loop. */
  method TakeByte(table: CrcTable, w: Word, x: Byte) returns (rem: Word)
    requires table.Valid() && table.didInit && Augmentable(table.c) && |w| == table.c.width
    ensures rem == AugmentedByte(table.c, w, x)
  {
    var byteIndex := TopByte(table.c, w);
    var entry := table.At(byteIndex);
    rem := Refilled(w, x, entry);
  }

  /** The result as a register of exact width. */
  lemma AugmentedShows(c: Params, w: Word, msg: seq<Byte>)
    requires Augmentable(c) && |w| == c.width
    ensures Masked(c.bits, AugmentedRun(c, w, msg))
         == Resize(AugFeed(Poly(c), w[..c.bits], MessageBits(msg, false)), c.width)
  {
    AugmentedRunLow(c, w, msg);
    MaskedLow(c.bits, AugmentedRun(c, w, msg));
  }

  /** The result is (r * x^(8n) + message) modulo the divisor, and nothing else is. */
  lemma AugmentedIsTheRemainder(c: Params, w: Word, msg: seq<Byte>, s: Bits)
    requires Augmentable(c) && |w| == c.width && |s| == c.bits
    ensures IsRemainder(Poly(c), AugDividend(w[..c.bits], MessageBits(msg, false)), s)
       <==> AugmentedRun(c, w, msg)[..c.bits] == s
  {
    AugmentedRunLow(c, w, msg);
    AugFeedIsTheRemainder(Poly(c), w[..c.bits], MessageBits(msg, false), s);
  }

  /** The parameters of the plain CRC: nothing reflected, nothing to start from or to add. */
  function Plain(c: Params): (d: Params)
    requires Augmentable(c)
    ensures d.Valid() && d.bits == c.bits && d.width == c.width && Poly(d) == Poly(c)
  {
    c.(init := Zeros(c.width), final := Zeros(c.width), reflectRem := false)
  }

  /** The register of a plain CRC computer after the message. */
  function PlainRegister(c: Params, msg: seq<Byte>): (s: Bits)
    requires Augmentable(c)
    ensures |s| == c.bits
  {
    Feed(Poly(c), Zeros(c.bits), MessageBits(msg, false))
  }

  /** The checksum that a computer with these parameters shows for the message. */
  function PlainChecksum(c: Params, msg: seq<Byte>): (crc: Word)
    requires Augmentable(c)
    ensures |crc| == c.width
  {
    CrcTheorems.BasicFrom(Plain(c)).Process(msg).Checksum()
  }

  lemma PlainShows(c: Params, msg: seq<Byte>)
    requires Augmentable(c)
    ensures PlainChecksum(c, msg) == Resize(PlainRegister(c, msg), c.width)
    ensures PlainChecksum(c, msg)[..c.bits] == PlainRegister(c, msg)
  {
    var d, s := Plain(c), PlainRegister(c, msg);
    LowOfZeros(c.bits, c.width);
    CrcTheorems.ProcessHolds(CrcTheorems.BasicFrom(d), Zeros(c.bits), msg);
    CrcTheorems.Shows(CrcTheorems.BasicFrom(d).Process(msg), s);
    XorZeros(s);
    LowOfResized(s, c.width);
  }

  lemma LowOfZeros(n: nat, width: nat)
    requires n <= width
    ensures Zeros(width)[..n] == Zeros(n)
  {
  }

  lemma LowOfResized(s: Bits, width: nat)
    requires |s| <= width
    ensures Resize(s, width)[..|s|] == s
  {
  }

  /** With as many zero bytes appended as the CRC has, the result from zero is the checksum
      of a plain CRC computer; with that checksum appended, highest byte first, it is zero. */
  lemma AugmentedMeetsPlain(c: Params, msg: seq<Byte>)
    requires Augmentable(c) && c.bits % 8 == 0
    ensures var crc := PlainChecksum(c, msg);
      var room := CrcTheorems.HighFirst(Zeros(c.bits));
      Masked(c.bits, AugmentedRun(c, Zeros(c.width), msg + room)) == crc
      && Masked(c.bits, AugmentedRun(c, Zeros(c.width), msg + CrcTheorems.HighFirst(crc[..c.bits])))
         == Zeros(c.width)
  {
    var z, s := Zeros(c.bits), PlainRegister(c, msg);
    PlainShows(c, msg);
    WithTrailer(c, msg, z);
    WithTrailer(c, msg, s);
    XorZeros(s);
    XorSelf(s);
    ResizedZeros(c.bits, c.width);
  }

  lemma ResizedZeros(n: nat, width: nat)
    ensures Resize(Zeros(n), width) == Zeros(width)
  {
  }

  /** With any n / 8 bytes appended, the value of those is added to the plain CRC. */
  lemma WithTrailer(c: Params, msg: seq<Byte>, t: Bits)
    requires Augmentable(c) && c.bits % 8 == 0 && |t| == c.bits
    ensures Masked(c.bits, AugmentedRun(c, Zeros(c.width), msg + CrcTheorems.HighFirst(t)))
         == Resize(Xor(PlainRegister(c, msg), t), c.width)
  {
    var n, z := c.bits, Zeros(c.bits);
    AugmentedShows(c, Zeros(c.width), msg + CrcTheorems.HighFirst(t));
    LowOfZeros(n, c.width);
    CrcTheorems.MessageBitsConcat(msg, CrcTheorems.HighFirst(t), false);
    CrcTheorems.BitsOfHighFirst(t);
    AugmentedWithBlock(Poly(c), z, MessageBits(msg, false), Reverse(t));
    FeedZeros(Poly(c), n);
    ReverseTwice(t);
  }

  /** The bytes appended for the zeros are n / 8 zero bytes. */
  lemma {:induction false} RoomIsZeroBytes(n: nat)
    requires n % 8 == 0
    ensures |CrcTheorems.HighFirst(Zeros(n))| == n / 8
    ensures forall i :: 0 <= i < n / 8 ==> CrcTheorems.HighFirst(Zeros(n))[i] == Zeros(8)
  {
    if n > 0 {
      assert Zeros(n)[8..] == Zeros(n - 8) && Zeros(n)[..8] == Zeros(8);
      RoomIsZeroBytes(n - 8);
    }
  }
}
