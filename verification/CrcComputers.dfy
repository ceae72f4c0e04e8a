/** The CRC computers as objects that update their remainder in place. */
module CrcComputers {
  import opened Bits
  import opened Powers
  import opened CrcRegister
  import opened CrcWord

  /** The mirror image while only the lowest i bits of x have been placed. */
  function ReflectedPart(n: nat, i: nat, x: Word): (r: Word)
    requires i <= n <= |x|
    ensures |r| == |x| && forall j :: 0 <= j < |x| ==> r[j] == (n - i <= j < n && x[n - 1 - j])
  {
    seq(|x|, j requires 0 <= j < |x| => n - i <= j < n && x[n - 1 - j])
  }

  lemma ReflectStep(n: nat, i: nat, x: Word)
    requires i < n <= |x|
    ensures ShiftRight(x, i)[0] == x[i]
    ensures ShiftRight(ShiftRight(x, i), 1) == ShiftRight(x, i + 1)
    ensures ReflectedPart(n, i + 1, x) == ReflectedPart(n, i, x)[n - 1 - i := x[i]]
    ensures !ReflectedPart(n, i, x)[n - 1 - i]
  {
  }

  lemma ReflectEnds(n: nat, x: Word)
    requires n <= |x|
    ensures ReflectedPart(n, 0, x) == Zeros(|x|) && ShiftRight(x, 0) == x
    ensures ReflectedPart(n, n, x) == Reflected(n, x)
  {
  }

  /** `reflector::reflect`: the low n bits of x, collected from the lowest up. */
  method Reflect(n: nat, x: Word) returns (reflection: Word)
    requires n <= |x|
    ensures reflection == Reflected(n, x)
  {
    ReflectEnds(n, x);
    reflection := Zeros(|x|);
    var rest := x;
    for i := 0 to n
      invariant rest == ShiftRight(x, i) && reflection == ReflectedPart(n, i, x)
    {
      ReflectStep(n, i, x);
      if rest[0] {
        reflection := reflection[n - 1 - i := true];
      }
      rest := ShiftRight(rest, 1);
    }
  }

  class CrcBasic {
    const bits: nat
    const width: nat
    var rem: Word
    var poly: Word
    var init: Word
    var final: Word
    var reflectIn: bool
    var reflectRem: bool

    function Config(): Params
      reads this
    {
      Params(bits, width, poly, init, final, reflectIn, reflectRem)
    }

    predicate Valid()
      reads this
    {
      Config().Valid() && |rem| == width
    }

    /** The register proper, in its exact width. */
    function Register(): Bits
      requires Valid()
      reads this
    {
      rem[..bits]
    }

    constructor (bits: nat, width: nat, poly: Word, init: Word, final: Word,
                 reflectIn: bool, reflectRem: bool)
      requires Params(bits, width, poly, init, final, reflectIn, reflectRem).Valid()
      ensures Valid() && rem == init
      ensures Config() == Params(bits, width, poly, init, final, reflectIn, reflectRem)
    {
      this.bits, this.width, this.rem := bits, width, init;
      this.poly, this.init, this.final := poly, init, final;
      this.reflectIn, this.reflectRem := reflectIn, reflectRem;
    }

    method GetInterimRemainder() returns (r: Word)
      requires Valid()
      ensures r == Resize(Register(), width)
    {
      MaskedLow(bits, rem);
      r := Masked(bits, rem);
    }

    method ResetTo(newRem: Word)
      requires Valid() && |newRem| == width
      modifies `rem
      ensures Valid() && rem == newRem
    {
      rem := newRem;
    }

    method Reset()
      requires Valid()
      modifies `rem
      ensures Valid() && rem == init
    {
      ResetTo(init);
    }

    method ProcessBit(bit: bool)
      requires Valid()
      modifies `rem
      ensures Valid() && rem == BitStep(bits, poly, old(rem), bit)
      ensures Register() == Step(poly[..bits], old(Register()), bit)
    {
      BitStepLow(bits, poly, rem, bit);
      rem := Xor(rem, if bit then OneBit(width, bits - 1) else Zeros(width));
      XorZeros(old(rem));
      var doPolyDiv := rem[bits - 1];
      rem := ShiftLeft(rem, 1);
      if doPolyDiv {
        rem := Xor(rem, poly);
      }
    }

    /** Feeds the low `count` bits of a byte, the highest of them first. */
    method ProcessBits(byte: Byte, count: nat)
      requires Valid() && count <= 8
      modifies `rem
      ensures Valid() && rem == BitFeed(bits, poly, old(rem), LowBits(byte, count))
    {
      ghost var rest := LowBits(byte, count);
      ghost var goal := BitFeed(bits, poly, rem, rest);
      var b: Byte := ShiftLeft(byte, 8 - count);
      var i := count;
      MovedToTop(byte, count);
      while i > 0
        invariant i <= count && Valid()
        invariant |rest| == i && AtTopOf(b, rest) && BitFeed(bits, poly, rem, rest) == goal
      {
        TopBitOut(b, rest);
        ProcessBit(b[7]);
        i, rest := i - 1, rest[1..];
        b := ShiftLeft(b, 1);
      }
    }

    method ProcessByte(byte: Byte)
      requires Valid()
      modifies `rem
      ensures Valid() && rem == BitFeed(bits, poly, old(rem), ByteBits(byte, reflectIn))
    {
      var b: Byte := byte;
      if reflectIn {
        b := Reflect(8, byte);
        assert Reverse(b[..8]) == byte;
      } else {
        assert b[..8] == b;
      }
      ProcessBits(b, 8);
    }

    method ProcessBlock(bytes: seq<Byte>)
      requires Valid()
      modifies `rem
      ensures Valid() && rem == BasicRun(Config(), old(rem), bytes)
      ensures Register() == Feed(Poly(Config()), old(Register()), MessageBits(bytes, reflectIn))
    {
      BitFeedLow(bits, poly, rem, MessageBits(bytes, reflectIn));
      var p := 0;
      while p < |bytes|
        invariant p <= |bytes| && Valid()
        invariant BasicRun(Config(), rem, bytes[p..]) == BasicRun(Config(), old(rem), bytes)
      {
        BitFeedConcat(bits, poly, rem, ByteBits(bytes[p], reflectIn),
                      MessageBits(bytes[p + 1..], reflectIn));
        assert bytes[p..][1..] == bytes[p + 1..];
        ProcessByte(bytes[p]);
        p := p + 1;
      }
    }

    method Checksum() returns (r: Word)
      requires Valid()
      ensures r == BasicChecksum(Config(), rem)
      ensures r == Resize(Finished(Config(), Register()), width)
      ensures var w := Resize(Register(), width);
        r == Masked(bits, Xor(if reflectRem then Reflected(bits, w) else w, final))
    {
      FinishedWord(Config(), Register());
      BasicShows(Config(), rem);
      var out := rem;
      if reflectRem {
        out := Reflect(bits, rem);
      }
      r := Masked(bits, Xor(out, final));
    }
  }

  /** The low bits of a byte, the highest of them first. */
  function LowBits(byte: Byte, count: nat): (m: Bits)
    requires count <= 8
    ensures |m| == count
  {
    Reverse(byte[..count])
  }

  /** A byte may be handed over in two parts, the high one first. */
  lemma BitsInTwoCalls(n: nat, p: Word, w: Word, byte: Byte, k: nat)
    requires 1 <= n <= |w| == |p| && k <= 8
    ensures BitFeed(n, p, BitFeed(n, p, w, LowBits(ShiftRight(byte, k), 8 - k)), LowBits(byte, k))
         == BitFeed(n, p, w, ByteBits(byte, false))
  {
    var high, low := LowBits(ShiftRight(byte, k), 8 - k), LowBits(byte, k);
    BitFeedConcat(n, p, w, high, low);
    PartsOfByte(byte, k, high + low);
  }

  lemma PartsOfByte(byte: Byte, k: nat, all: Bits)
    requires k <= 8 && all == LowBits(ShiftRight(byte, k), 8 - k) + LowBits(byte, k)
    ensures all == Reverse(byte)
  {
  }

  /** The bits to be consumed stand at the top of b, the first one highest. */
  ghost predicate AtTopOf(b: Byte, rest: Bits) {
    |rest| <= 8 && forall j :: 0 <= j < |rest| ==> rest[j] == b[7 - j]
  }

  lemma MovedToTop(byte: Byte, count: nat)
    requires count <= 8
    ensures AtTopOf(ShiftLeft(byte, 8 - count), Reverse(byte[..count]))
  {
  }

  lemma TopBitOut(b: Byte, rest: Bits)
    requires AtTopOf(b, rest) && rest != []
    ensures rest[0] == b[7] && AtTopOf(ShiftLeft(b, 1), rest[1..])
  {
  }

  lemma LastFirst(byte: Byte, i: nat, rest: Bits)
    requires 0 < i <= 8 && rest == Reverse(byte[..i])
    ensures rest[0] == byte[i - 1] && rest[1..] == Reverse(byte[..i - 1])
  {
  }

  lemma {:induction false} BitFeedConcat(n: nat, p: Word, w: Word, m: Bits, m': Bits)
    requires 1 <= n <= |w| == |p|
    ensures BitFeed(n, p, w, m + m') == BitFeed(n, p, BitFeed(n, p, w, m), m')
    decreases |m|
  {
    if m == [] {
      assert m + m' == m';
    } else {
      assert (m + m')[1..] == m[1..] + m';
      BitFeedConcat(n, p, BitStep(n, p, w, m[0]), m[1..], m');
    }
  }

  // ----- the table

  /** The dividend whose remainder is stored under index v. */
  function DividendOf(c: Params, v: Byte): Byte {
    if c.reflectIn then Reverse(v) else v
  }

  ghost predicate EntryAt(c: Params, entries: seq<Word>, v: Byte)
    requires c.Valid() && |entries| == 256
  {
    ByteValue(v);
    entries[ToNat(v)] == TableEntry(c, v)
  }

  /** The remainders of all dividends below d are in their places. */
  ghost predicate FilledBelow(c: Params, entries: seq<Word>, d: nat) {
    c.Valid() && |entries| == 256
    && forall v: Byte :: ToNat(DividendOf(c, v)) < d ==> EntryAt(c, entries, v)
  }

  lemma ByteValue(v: Byte)
    ensures ToNat(v) < 256
  {
    FromNatToNat(v);
    assert Pow2(8) == 256;
  }

  /** An unsigned char of this value. */
  function ByteOf(v: nat): (b: Byte)
    requires v < 256
    ensures ToNat(b) == v
  {
    assert Pow2(8) == 256;
    ToNatFromNat(8, v);
    FromNat(8, v)
  }

  lemma SameByte(u: Byte, v: Byte)
    ensures ToNat(u) == ToNat(v) <==> u == v
  {
    FromNatToNat(u);
    FromNatToNat(v);
  }

  lemma SameDividend(c: Params, u: Byte, v: Byte)
    ensures ToNat(DividendOf(c, u)) == ToNat(DividendOf(c, v)) <==> u == v
  {
    SameByte(DividendOf(c, u), DividendOf(c, v));
    ReverseTwice(u);
    ReverseTwice(v);
  }

  lemma StoreEntry(c: Params, entries: seq<Word>, v: Byte, d: nat, k: nat)
    requires d == ToNat(DividendOf(c, v)) && k == ToNat(v) && FilledBelow(c, entries, d)
    ensures k < 256 && FilledBelow(c, entries[k := TableEntry(c, v)], d + 1)
  {
    ByteValue(v);
    forall u: Byte | ToNat(DividendOf(c, u)) < d + 1
      ensures EntryAt(c, entries[k := TableEntry(c, v)], u)
    {
      KeepEntry(c, entries, v, d, k, u);
    }
  }

  lemma KeepEntry(c: Params, entries: seq<Word>, v: Byte, d: nat, k: nat, u: Byte)
    requires d == ToNat(DividendOf(c, v)) && k == ToNat(v) < 256 && FilledBelow(c, entries, d)
    requires ToNat(DividendOf(c, u)) < d + 1
    ensures EntryAt(c, entries[k := TableEntry(c, v)], u)
  {
    ByteValue(u);
    SameByte(u, v);
    SameDividend(c, u, v);
    if u != v {
      assert EntryAt(c, entries, u);
    }
  }

  /** An unsigned char wraps to zero after 255, and only then. */
  lemma Increment(d: nat)
    requires d < 256
    ensures (d + 1) % 256 == if d == 255 then 0 else d + 1
  {
  }

  lemma NothingFilled(c: Params, entries: seq<Word>)
    requires c.Valid() && |entries| == 256
    ensures FilledBelow(c, entries, 0)
  {
  }

  lemma AllFilled(c: Params, entries: seq<Word>, v: Byte)
    requires FilledBelow(c, entries, 256)
    ensures ToNat(v) < 256 && entries[ToNat(v)] == TableEntry(c, v)
  {
    ByteValue(v);
    ByteValue(DividendOf(c, v));
    assert EntryAt(c, entries, v);
  }

  /** The table of the 256 remainders, filled on first use. */
  class CrcTable {
    const c: Params
    const table: array<Word>
    var didInit: bool

    ghost predicate Valid()
      reads this, table
    {
      c.Valid() && table.Length == 256 && (didInit ==> FilledBelow(c, table[..], 256))
    }

    constructor (c: Params)
      requires c.Valid()
      ensures Valid() && this.c == c && !didInit && fresh(table)
    {
      this.c := c;
      table := new Word[256](_ => []);
      didInit := false;
    }

    /** `table_[v]` */
    method At(v: Byte) returns (entry: Word)
      requires Valid() && didInit
      ensures entry == TableEntry(c, v)
    {
      AllFilled(c, table[..], v);
      entry := table[ToNat(v)];
    }

    /** The inner loop of `init_table`: divides one byte. */
    method Divide(dividend: Byte) returns (remainder: Word)
      requires c.Valid()
      ensures remainder == BitFeed(c.bits, c.poly, Zeros(c.width), Reverse(dividend))
    {
      remainder := Zeros(c.width);
      ghost var rest := Reverse(dividend);
      ghost var goal := BitFeed(c.bits, c.poly, remainder, rest);
      var mask := 8;
      assert dividend[..8] == dividend;
      while mask > 0
        invariant mask <= 8 && |remainder| == c.width && rest == Reverse(dividend[..mask])
        invariant BitFeed(c.bits, c.poly, remainder, rest) == goal
      {
        LastFirst(dividend, mask, rest);
        mask, rest := mask - 1, rest[1..];
        ghost var before := remainder;
        if dividend[mask] {
          remainder := Xor(remainder, OneBit(c.width, c.bits - 1));
        }
        if remainder[c.bits - 1] {
          remainder := ShiftLeft(remainder, 1);
          remainder := Xor(remainder, c.poly);
        } else {
          remainder := ShiftLeft(remainder, 1);
        }
        assert remainder == BitStep(c.bits, c.poly, before, dividend[mask]);
      }
    }

    method InitTable()
      requires Valid()
      modifies `didInit, table
      ensures Valid() && didInit
      ensures old(didInit) ==> table[..] == old(table[..])
    {
      if didInit {
        return;
      }
      var dividend := 0;
      ghost var entries := table[..];
      NothingFilled(c, entries);
      while true
        invariant 0 <= dividend < 256
        invariant table[..] == entries && FilledBelow(c, entries, dividend)
        decreases 256 - dividend
      {
        Store(dividend);
        entries := table[..];
        Increment(dividend);
        ghost var next := dividend + 1;
        dividend := (dividend + 1) % 256;
        if dividend == 0 {
          assert next == 256;
          break;
        }
        assert dividend == next;
      }
      didInit := true;
    }

    /** The body of the outer loop of `init_table`. */
    method Store(dividend: nat)
      requires table.Length == 256 && dividend < 256 && FilledBelow(c, table[..], dividend)
      modifies table
      ensures FilledBelow(c, table[..], dividend + 1)
    {
      var d := ByteOf(dividend);
      var index, entry := NewEntry(d);
      var k := ToNat(index);
      StoreEntry(c, table[..], index, dividend, k);
      ghost var stored := table[..][k := entry];
      table[k] := entry;
      assert table[..] == stored;
    }

    /** Where the remainder of a dividend goes, and how it is stored there. */
    method NewEntry(d: Byte) returns (index: Byte, entry: Word)
      requires c.Valid()
      ensures DividendOf(c, index) == d && entry == TableEntry(c, index)
    {
      var remainder := Divide(d);
      index, entry := d, remainder;
      if c.reflectIn {
        index := Reflect(8, d);
        entry := Reflect(c.bits, remainder);
      }
      Mirrored(c, d, index);
    }
  }

  lemma Mirrored(c: Params, d: Byte, v: Byte)
    requires c.Valid() && v == if c.reflectIn then Reflected(8, d) else d
    ensures DividendOf(c, v) == d
    ensures TableEntry(c, v)
         == ReflectedIf(c.bits, c.reflectIn, BitFeed(c.bits, c.poly, Zeros(c.width), Reverse(d)))
  {
    if c.reflectIn {
      assert v == Reverse(d);
      ReverseTwice(d);
    }
  }

  /** A computer with the parameters c fixed, working on the table it shares. */
  class CrcOptimal {
    const c: Params
    const table: CrcTable
    var rem: Word

    ghost predicate Valid()
      reads this, table, table.table
    {
      c.Valid() && |rem| == c.width && table.c == c && table.Valid() && table.didInit
    }

    constructor (table: CrcTable, initRem: Word)
      requires table.Valid() && |initRem| == table.c.width
      modifies table`didInit, table.table
      ensures Valid() && this.table == table && c == table.c
      ensures rem == ReflectedIf(c.bits, c.reflectIn, initRem)
      ensures old(table.didInit) ==> table.table[..] == old(table.table[..])
    {
      c, this.table := table.c, table;
      rem := [];
      new;
      rem := ReflectIf(c.bits, c.reflectIn, initRem);
      table.InitTable();
    }

    method GetInterimRemainder() returns (r: Word)
      requires Valid()
      ensures r == OptimalInterim(c, rem)
      ensures forall s: Bits :: Represents(c, rem, s) ==> r == Resize(s, c.width)
    {
      forall s: Bits | Represents(c, rem, s) ensures OptimalInterim(c, rem) == Resize(s, c.width) {
        OptimalShows(c, rem, s);
      }
      r := ReflectIf(c.bits, c.reflectIn, rem);
      r := Masked(c.bits, r);
    }

    method ResetTo(newRem: Word)
      requires Valid() && |newRem| == c.width
      modifies `rem
      ensures Valid() && rem == ReflectedIf(c.bits, c.reflectIn, newRem)
    {
      rem := ReflectIf(c.bits, c.reflectIn, newRem);
    }

    method ProcessByte(byte: Byte)
      requires Valid()
      modifies `rem
      ensures Valid() && rem == OptimalByte(c, old(rem), byte)
    {
      ProcessBlock([byte]);
    }

    /** If the register stood at r before, it has taken in all of the message after. */
    method ProcessBlock(bytes: seq<Byte>)
      requires Valid()
      modifies `rem
      ensures Valid() && rem == OptimalRun(c, old(rem), bytes)
      ensures forall r: Bits :: Represents(c, old(rem), r) ==>
                Represents(c, rem, Feed(Poly(c), r, MessageBits(bytes, c.reflectIn)))
    {
      forall r: Bits | Represents(c, rem, r)
        ensures Represents(c, OptimalRun(c, rem, bytes),
                           Feed(Poly(c), r, MessageBits(bytes, c.reflectIn)))
      {
        OptimalRunRepresents(c, rem, r, bytes);
      }
      var p := 0;
      while p < |bytes|
        invariant p <= |bytes| && Valid()
        invariant OptimalRun(c, rem, bytes[p..]) == OptimalRun(c, old(rem), bytes)
      {
        var byteIndex := TableIndex(c, rem, bytes[p]);
        rem := ShiftedOut(c, rem);
        var entry := table.At(byteIndex);
        rem := Xor(rem, entry);
        assert bytes[p..][1..] == bytes[p + 1..];
        p := p + 1;
      }
    }

    method Checksum() returns (r: Word)
      requires Valid()
      ensures r == OptimalChecksum(c, rem)
      ensures forall s: Bits :: Represents(c, rem, s) ==> r == Resize(Finished(c, s), c.width)
      ensures forall s: Bits :: Represents(c, rem, s) ==>
        var w := Resize(s, c.width);
        r == Masked(c.bits, Xor(if c.reflectRem then Reflected(c.bits, w) else w, c.final))
    {
      forall s: Bits | Represents(c, rem, s)
        ensures OptimalChecksum(c, rem) == Resize(Finished(c, s), c.width)
      {
        OptimalShows(c, rem, s);
      }
      forall s: Bits | Represents(c, rem, s)
        ensures var w := Resize(s, c.width);
          OptimalChecksum(c, rem) == Masked(c.bits, Xor(if c.reflectRem then Reflected(c.bits, w) else w, c.final))
      {
        OptimalShows(c, rem, s);
        FinishedWord(c, s);
      }
      r := ReflectIf(c.bits, c.reflectRem != c.reflectIn, rem);
      r := Masked(c.bits, Xor(r, c.final));
    }
  }

  method ReflectIf(n: nat, doReflect: bool, x: Word) returns (r: Word)
    requires n <= |x|
    ensures r == ReflectedIf(n, doReflect, x)
  {
    if doReflect {
      r := Reflect(n, x);
    } else {
      r := x;
    }
  }

  /** The free function `crc`: the checksum of the message from the initial remainder. */
  method Crc(table: CrcTable, bytes: seq<Byte>) returns (r: Word)
    requires table.Valid()
    modifies table`didInit, table.table
    ensures table.Valid() && table.didInit
    ensures var c := table.c;
      r == Resize(Finished(c, Feed(Poly(c), c.init[..c.bits], MessageBits(bytes, c.reflectIn))), c.width)
    ensures var c := table.c;
      var w := Resize(Feed(Poly(c), c.init[..c.bits], MessageBits(bytes, c.reflectIn)), c.width);
      r == Masked(c.bits, Xor(if c.reflectRem then Reflected(c.bits, w) else w, c.final))
  {
    var c := table.c;
    var computer := new CrcOptimal(table, c.init);
    LoadRepresents(c, c.init);
    computer.ProcessBlock(bytes);
    assert Represents(c, computer.rem, Feed(Poly(c), c.init[..c.bits], MessageBits(bytes, c.reflectIn)));
    FinishedWord(c, Feed(Poly(c), c.init[..c.bits], MessageBits(bytes, c.reflectIn)));
    r := computer.Checksum();
  }
}
