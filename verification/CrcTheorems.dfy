/** What holds of the CRC computers over whole runs, whichever way they are driven. */
module CrcTheorems {
  import opened Bits
  import opened CrcRegister
  import opened CrcWord
  import opened CrcPolynomial

  /** A call on a computer.  The word given to `reset` is converted to the computer's own width. */
  datatype Call = OneByte(b: Byte) | Block(bytes: seq<Byte>) | ResetTo(w: Word) | Reset

  datatype Computer =
    | Basic(c: Params, rem: Word)
    | Optimal(c: Params, rem: Word)
  {
    predicate Valid() {
      c.Valid() && |rem| == c.width
    }

    /** The computer is at register contents r. */
    ghost predicate Holds(r: Bits) {
      Valid() && match this
        case Basic(c, rem) => rem[..c.bits] == r
        case Optimal(c, rem) => Represents(c, rem, r)
    }

    function Process(bytes: seq<Byte>): (a: Computer)
      requires Valid()
      ensures a.Valid() && a.c == c
    {
      match this
      case Basic(c, rem) => Basic(c, BasicRun(c, rem, bytes))
      case Optimal(c, rem) => Optimal(c, OptimalRun(c, rem, bytes))
    }

    function Load(w: Word): (a: Computer)
      requires Valid() && |w| == c.width
      ensures a.Valid() && a.c == c
    {
      match this
      case Basic(c, rem) => Basic(c, w)
      case Optimal(c, rem) => Optimal(c, ReflectedIf(c.bits, c.reflectIn, w))
    }

    function Do(call: Call): (a: Computer)
      requires Valid()
      ensures a.Valid() && a.c == c
    {
      match call
      case OneByte(b) => Process([b])
      case Block(bytes) => Process(bytes)
      case ResetTo(w) => Load(Resize(w, c.width))
      case Reset => Load(c.init)
    }

    function Run(calls: seq<Call>): (a: Computer)
      requires Valid()
      ensures a.Valid() && a.c == c
      decreases |calls|
    {
      if calls == [] then this else Do(calls[0]).Run(calls[1..])
    }

    function Interim(): Word
      requires Valid()
    {
      match this
      case Basic(c, rem) => Masked(c.bits, rem)
      case Optimal(c, rem) => OptimalInterim(c, rem)
    }

    function Checksum(): Word
      requires Valid()
    {
      match this
      case Basic(c, rem) => BasicChecksum(c, rem)
      case Optimal(c, rem) => OptimalChecksum(c, rem)
    }
  }

  function BasicFrom(c: Params): Computer
    requires c.Valid()
  {
    Basic(c, c.init)
  }

  function OptimalFrom(c: Params): Computer
    requires c.Valid()
  {
    Optimal(c, ReflectedIf(c.bits, c.reflectIn, c.init))
  }

  /** The parameters agree as far as they mean anything: the widths of the words that
      hold them, and the bits beyond the CRC, may differ. */
  ghost predicate SameCrc(c: Params, c': Params) {
    c.Valid() && c'.Valid() && c.bits == c'.bits
    && c.poly[..c.bits] == c'.poly[..c.bits]
    && c.init[..c.bits] == c'.init[..c.bits]
    && c.final[..c.bits] == c'.final[..c.bits]
    && c.reflectIn == c'.reflectIn && c.reflectRem == c'.reflectRem
  }

  /** The message bytes that a call hands over. */
  function BytesOf(call: Call): seq<Byte> {
    match call
    case OneByte(b) => [b]
    case Block(bytes) => bytes
    case _ => []
  }

  // ----- the exact-width register behind any computer

  function RegisterDo(c: Params, r: Bits, call: Call): (s: Bits)
    requires c.Valid() && |r| == c.bits
    ensures |s| == c.bits
  {
    match call
    case ResetTo(w) => Resize(w, c.bits)
    case Reset => c.init[..c.bits]
    case _ => Feed(Poly(c), r, MessageBits(BytesOf(call), c.reflectIn))
  }

  function RegisterRun(c: Params, r: Bits, calls: seq<Call>): (s: Bits)
    requires c.Valid() && |r| == c.bits
    ensures |s| == c.bits
    decreases |calls|
  {
    if calls == [] then r else RegisterRun(c, RegisterDo(c, r, calls[0]), calls[1..])
  }

  lemma ProcessHolds(a: Computer, r: Bits, bytes: seq<Byte>)
    requires a.Holds(r)
    ensures a.Process(bytes).Holds(Feed(Poly(a.c), r, MessageBits(bytes, a.c.reflectIn)))
  {
    if a.Basic? {
      BitFeedLow(a.c.bits, a.c.poly, a.rem, MessageBits(bytes, a.c.reflectIn));
    } else {
      OptimalRunRepresents(a.c, a.rem, r, bytes);
    }
  }

  lemma LoadHolds(a: Computer, w: Word)
    requires a.Valid() && |w| == a.c.width
    ensures a.Load(w).Holds(w[..a.c.bits])
  {
    LoadRepresents(a.c, w);
  }

  lemma DoHolds(a: Computer, r: Bits, call: Call)
    requires a.Holds(r)
    ensures a.Do(call).Holds(RegisterDo(a.c, r, call))
  {
    match call
    case OneByte(b) => ProcessHolds(a, r, [b]);
    case Block(bytes) => ProcessHolds(a, r, bytes);
    case ResetTo(w) =>
      LoadHolds(a, Resize(w, a.c.width));
      assert Resize(w, a.c.width)[..a.c.bits] == Resize(w, a.c.bits);
    case Reset => LoadHolds(a, a.c.init);
  }

  /** Both computers simulate the exact-width register, over every sequence of calls. */
  lemma {:induction false} RunHolds(a: Computer, r: Bits, calls: seq<Call>)
    requires a.Holds(r)
    ensures a.Run(calls).Holds(RegisterRun(a.c, r, calls))
    decreases |calls|
  {
    if calls != [] {
      DoHolds(a, r, calls[0]);
      RunHolds(a.Do(calls[0]), RegisterDo(a.c, r, calls[0]), calls[1..]);
    }
  }

  lemma {:induction false} ValueOfResize(r: Bits, n: nat)
    requires |r| <= n
    ensures ToNat(Resize(r, n)) == ToNat(r)
    decreases n
  {
    if n > 0 {
      if r == [] {
        assert Resize(r, n)[1..] == Resize(r, n - 1);
        ValueOfResize(r, n - 1);
      } else {
        assert Resize(r, n)[1..] == Resize(r[1..], n - 1);
        ValueOfResize(r[1..], n - 1);
      }
    }
  }

  /** What a computer shows is, as a number, a function of its register alone. */
  lemma Shows(a: Computer, r: Bits)
    requires a.Holds(r)
    ensures a.Interim() == Resize(r, a.c.width)
    ensures a.Checksum() == Resize(Finished(a.c, r), a.c.width)
    ensures ToNat(a.Interim()) == ToNat(r)
    ensures ToNat(a.Checksum()) == ToNat(Finished(a.c, r))
  {
    if a.Basic? {
      MaskedLow(a.c.bits, a.rem);
      BasicShows(a.c, a.rem);
    } else {
      OptimalShows(a.c, a.rem, r);
    }
    ValueOfResize(r, a.c.width);
    ValueOfResize(Finished(a.c, r), a.c.width);
  }

  /** Reset without a value makes any computer as good as new; with a value it shows that value,
      without stray bits, as its interim remainder. */
  lemma ResetStartsAnew(a: Computer, w: Word)
    requires a.Valid()
    ensures a.Do(Reset) == if a.Basic? then BasicFrom(a.c) else OptimalFrom(a.c)
    ensures a.Do(ResetTo(w)).Interim() == Resize(Resize(w, a.c.bits), a.c.width)
  {
    var v := Resize(w, a.c.width);
    LoadHolds(a, v);
    assert v[..a.c.bits] == Resize(w, a.c.bits);
    Shows(a.Do(ResetTo(w)), Resize(w, a.c.bits));
  }

  // ----- agreement

  lemma {:induction false} SameRegister(c: Params, c': Params, r: Bits, calls: seq<Call>)
    requires SameCrc(c, c') && |r| == c.bits
    ensures RegisterRun(c, r, calls) == RegisterRun(c', r, calls)
    decreases |calls|
  {
    if calls != [] {
      SameRegister(c, c', RegisterDo(c, r, calls[0]), calls[1..]);
    }
  }

  /** Two computers at the same register show the same numbers after any calls. */
  lemma AgreeFrom(a: Computer, b: Computer, r: Bits, calls: seq<Call>)
    requires SameCrc(a.c, b.c) && a.Holds(r) && b.Holds(r)
    ensures ToNat(a.Run(calls).Interim()) == ToNat(b.Run(calls).Interim())
    ensures ToNat(a.Run(calls).Checksum()) == ToNat(b.Run(calls).Checksum())
  {
    RunHolds(a, r, calls);
    RunHolds(b, r, calls);
    SameRegister(a.c, b.c, r, calls);
    var s := RegisterRun(a.c, r, calls);
    Shows(a.Run(calls), s);
    Shows(b.Run(calls), s);
  }

  /** The table-driven computer shows what the bit-at-a-time one shows, for every width,
      polynomial, initial value, final xor and pair of flags, after every sequence of calls. */
  lemma OptimalAgreesWithBasic(c: Params, c': Params, calls: seq<Call>)
    requires SameCrc(c, c')
    ensures ToNat(OptimalFrom(c).Run(calls).Interim()) == ToNat(BasicFrom(c').Run(calls).Interim())
    ensures ToNat(OptimalFrom(c).Run(calls).Checksum()) == ToNat(BasicFrom(c').Run(calls).Checksum())
  {
    LoadHolds(OptimalFrom(c), c.init);
    AgreeFrom(OptimalFrom(c), BasicFrom(c'), c.init[..c.bits], calls);
  }

  // ----- division

  /** The interim remainder of either computer is the remainder of the polynomial division
      of its register's contents and the message, and is the only such polynomial. */
  lemma InterimIsTheRemainder(a: Computer, r: Bits, bytes: seq<Byte>, s: Bits)
    requires a.Holds(r) && |s| == a.c.bits
    ensures IsRemainder(Poly(a.c), Dividend(r, MessageBits(bytes, a.c.reflectIn)), s)
       <==> a.Process(bytes).Interim() == Resize(s, a.c.width)
  {
    var m := MessageBits(bytes, a.c.reflectIn);
    ProcessHolds(a, r, bytes);
    Shows(a.Process(bytes), Feed(Poly(a.c), r, m));
    FeedIsTheRemainder(Poly(a.c), r, m, s);
    ResizeInjective(s, Feed(Poly(a.c), r, m), a.c.width);
  }

  lemma ResizeInjective(r: Bits, s: Bits, n: nat)
    requires |r| == |s| <= n
    ensures Resize(r, n) == Resize(s, n) <==> r == s
  {
    if Resize(r, n) == Resize(s, n) {
      forall i | 0 <= i < |r| ensures r[i] == s[i] {
        assert Resize(r, n)[i] == Resize(s, n)[i];
      }
    }
  }

  /** The checksum a computer shows is its interim remainder, mirrored exactly if the remainder
      is to be reflected, with the final value added: whether the input is reflected does not
      matter any more. */
  lemma ChecksumOfInterim(a: Computer, r: Bits)
    requires a.Holds(r)
    ensures var c, w := a.c, a.Interim();
      a.Checksum() == Masked(c.bits, Xor(if c.reflectRem then Reflected(c.bits, w) else w, c.final))
  {
    Shows(a, r);
    FinishedWord(a.c, r);
  }

  /** Message bit 8k + j is bit j of byte k, counted from its lowest bit if the input is
      reflected and from its highest if not. */
  lemma {:induction false} MessageBitAt(msg: seq<Byte>, reflectIn: bool, k: nat, j: nat)
    requires k < |msg| && j < 8
    ensures MessageBits(msg, reflectIn)[8 * k + j] == msg[k][if reflectIn then j else 7 - j]
  {
    var first, rest := ByteBits(msg[0], reflectIn), MessageBits(msg[1..], reflectIn);
    if k == 0 {
      BitBefore(first, rest, j);
    } else {
      MessageBitAt(msg[1..], reflectIn, k - 1, j);
      BitBehind(first, rest, 8 * (k - 1) + j);
    }
  }

  lemma BitBefore(first: Bits, rest: Bits, i: nat)
    requires i < |first|
    ensures (first + rest)[i] == first[i]
  {
  }

  lemma BitBehind(first: Bits, rest: Bits, i: nat)
    requires |first| == 8 && i < |rest|
    ensures (first + rest)[8 + i] == rest[i]
  {
  }

  /** Either computer, from the start: if s is the remainder of the initial value and the message
      under the polynomial, the checksum is s as a word, mirrored if asked for, with the
      final value added. */
  lemma ChecksumOfRemainder(c: Params, msg: seq<Byte>, s: Bits)
    requires c.Valid() && |s| == c.bits
    requires IsRemainder(Poly(c), Dividend(c.init[..c.bits], MessageBits(msg, c.reflectIn)), s)
    ensures var w := Resize(s, c.width);
      var sum := Masked(c.bits, Xor(if c.reflectRem then Reflected(c.bits, w) else w, c.final));
      BasicFrom(c).Process(msg).Checksum() == sum == OptimalFrom(c).Process(msg).Checksum()
  {
    var r := c.init[..c.bits];
    LoadHolds(OptimalFrom(c), c.init);
    RemainderChecked(BasicFrom(c), r, msg, s);
    RemainderChecked(OptimalFrom(c), r, msg, s);
  }

  lemma RemainderChecked(a: Computer, r: Bits, msg: seq<Byte>, s: Bits)
    requires a.Holds(r) && |s| == a.c.bits
    requires IsRemainder(Poly(a.c), Dividend(r, MessageBits(msg, a.c.reflectIn)), s)
    ensures var c, w := a.c, Resize(s, a.c.width);
      a.Process(msg).Checksum() == Masked(c.bits, Xor(if c.reflectRem then Reflected(c.bits, w) else w, c.final))
  {
    InterimIsTheRemainder(a, r, msg, s);
    ProcessHolds(a, r, msg);
    ChecksumOfInterim(a.Process(msg), Feed(Poly(a.c), r, MessageBits(msg, a.c.reflectIn)));
  }

  // ----- resumption

  function AllBytes(calls: seq<Call>): seq<Byte> {
    if calls == [] then [] else BytesOf(calls[0]) + AllBytes(calls[1..])
  }

  ghost predicate NoReset(calls: seq<Call>) {
    forall i :: 0 <= i < |calls| ==> calls[i].OneByte? || calls[i].Block?
  }

  lemma {:induction false} MessageBitsConcat(m: seq<Byte>, m': seq<Byte>, reflectIn: bool)
    ensures MessageBits(m + m', reflectIn) == MessageBits(m, reflectIn) + MessageBits(m', reflectIn)
  {
    if m == [] {
      assert m + m' == m';
    } else {
      assert (m + m')[1..] == m[1..] + m';
      MessageBitsConcat(m[1..], m', reflectIn);
    }
  }

  /** However a message is cut up over calls, the register sees one message. */
  lemma {:induction false} SplitIrrelevant(c: Params, r: Bits, calls: seq<Call>)
    requires c.Valid() && |r| == c.bits && NoReset(calls)
    ensures RegisterRun(c, r, calls) == Feed(Poly(c), r, MessageBits(AllBytes(calls), c.reflectIn))
    decreases |calls|
  {
    if calls != [] {
      var first, rest := BytesOf(calls[0]), AllBytes(calls[1..]);
      MessageBitsConcat(first, rest, c.reflectIn);
      FeedConcat(Poly(c), r, MessageBits(first, c.reflectIn), MessageBits(rest, c.reflectIn));
      SplitIrrelevant(c, RegisterDo(c, r, calls[0]), calls[1..]);
    }
  }

  /** Any split of a message over calls gives the one-shot checksum. */
  lemma SplitGivesOneShot(a: Computer, r: Bits, calls: seq<Call>)
    requires a.Holds(r) && NoReset(calls)
    ensures a.Run(calls).Interim() == a.Process(AllBytes(calls)).Interim()
    ensures a.Run(calls).Checksum() == a.Process(AllBytes(calls)).Checksum()
  {
    RunHolds(a, r, calls);
    SplitIrrelevant(a.c, r, calls);
    ProcessHolds(a, r, AllBytes(calls));
    Shows(a.Run(calls), RegisterRun(a.c, r, calls));
    Shows(a.Process(AllBytes(calls)), RegisterRun(a.c, r, calls));
  }

  lemma {:induction false} RunConcat(a: Computer, calls: seq<Call>, more: seq<Call>)
    requires a.Valid()
    ensures a.Run(calls + more) == a.Run(calls).Run(more)
    decreases |calls|
  {
    if calls == [] {
      assert calls + more == more;
    } else {
      assert (calls + more)[1..] == calls[1..] + more;
      RunConcat(a.Do(calls[0]), calls[1..], more);
    }
  }

  /** A second computer, of either kind and in any state, reset to the interim remainder
      of the first goes on exactly as the first would have. */
  lemma Resumes(a: Computer, b: Computer, r: Bits, s: Bits, calls: seq<Call>, more: seq<Call>)
    requires SameCrc(a.c, b.c) && a.Holds(r) && b.Holds(s)
    ensures var resumed := b.Do(ResetTo(a.Run(calls).Interim())).Run(more);
      ToNat(resumed.Interim()) == ToNat(a.Run(calls + more).Interim())
      && ToNat(resumed.Checksum()) == ToNat(a.Run(calls + more).Checksum())
  {
    var r1 := RegisterRun(a.c, r, calls);
    RunHolds(a, r, calls);
    Shows(a.Run(calls), r1);
    var call := ResetTo(a.Run(calls).Interim());
    DoHolds(b, s, call);
    ResizeTwice(r1, a.c.width);
    RunConcat(a, calls, more);
    AgreeFrom(a.Run(calls), b.Do(call), r1, more);
  }

  lemma ResizeTwice(r: Bits, n: nat)
    requires |r| <= n
    ensures Resize(Resize(r, n), |r|) == r
  {
  }

  // ----- the checksum as part of the message

  /** The bytes of a value, lowest first. */
  function LowFirst(s: Bits): seq<Byte>
    requires |s| % 8 == 0
  {
    if s == [] then [] else [s[..8]] + LowFirst(s[8..])
  }

  /** The bytes of a value, highest first. */
  function HighFirst(s: Bits): seq<Byte>
    requires |s| % 8 == 0
  {
    if s == [] then [] else HighFirst(s[8..]) + [s[..8]]
  }

  lemma {:induction false} BitsOfLowFirst(s: Bits)
    requires |s| % 8 == 0
    ensures MessageBits(LowFirst(s), true) == s
  {
    if s != [] {
      BitsOfLowFirst(s[8..]);
      assert LowFirst(s)[1..] == LowFirst(s[8..]);
    }
  }

  lemma {:induction false} BitsOfHighFirst(s: Bits)
    requires |s| % 8 == 0
    ensures MessageBits(HighFirst(s), false) == Reverse(s)
  {
    if s != [] {
      var b: Byte := s[..8];
      BitsOfHighFirst(s[8..]);
      MessageBitsConcat(HighFirst(s[8..]), [b], false);
      assert [b][1..] == [];
      assert MessageBits([b], false) == Reverse(b);
      ReverseConcat(s[..8], s[8..]);
      assert s == s[..8] + s[8..];
    }
  }

  /** The checksum as it is sent after its message. */
  function Trailer(c: Params, sum: Bits): seq<Byte>
    requires c.Valid() && |sum| % 8 == 0
  {
    if c.reflectIn then LowFirst(sum) else HighFirst(sum)
  }

  /** The register that every message with its own checksum appended ends in. */
  function Residue(c: Params): (r: Bits)
    requires c.Valid()
    ensures |r| == c.bits
  {
    var f := c.final[..c.bits];
    Feed(Poly(c), Zeros(c.bits), if c.reflectIn then f else Reverse(f))
  }

  /** A message followed by its own checksum always leaves the same register and hence
      the same checksum: neither the message nor the initial remainder enters into it. */
  lemma ResidueConstant(a: Computer, r: Bits)
    requires a.Holds(r) && a.c.bits % 8 == 0 && a.c.reflectIn == a.c.reflectRem
    ensures var b := a.Process(Trailer(a.c, Finished(a.c, r)));
      b.Holds(Residue(a.c)) && ToNat(b.Checksum()) == ToNat(Finished(a.c, Residue(a.c)))
  {
    var c, sum := a.c, Finished(a.c, r);
    var m := MessageBits(Trailer(c, sum), c.reflectIn);
    if c.reflectIn {
      BitsOfLowFirst(sum);
    } else {
      BitsOfHighFirst(sum);
    }
    ProcessHolds(a, r, Trailer(c, sum));
    FeedWhole(Poly(c), r, m);
    FinalRemains(c, r);
    Shows(a.Process(Trailer(c, sum)), Residue(c));
  }

  lemma FinalRemains(c: Params, r: Bits)
    requires c.Valid() && |r| == c.bits && c.reflectIn == c.reflectRem
    ensures var f, sum := c.final[..c.bits], Finished(c, r);
      Xor(if c.reflectIn then sum else Reverse(sum), Reverse(r))
      == if c.reflectIn then f else Reverse(f)
  {
    var f := c.final[..c.bits];
    if c.reflectIn {
      XorCancels(Reverse(r), f);
    } else {
      ReverseXor(r, f);
      XorCancels(Reverse(r), Reverse(f));
    }
  }
}
