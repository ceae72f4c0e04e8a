/** The computers as objects, driven through any sequence of calls. */
module CrcRuns {
  import opened Bits
  import opened CrcRegister
  import opened CrcWord
  import opened CrcComputers
  import opened CrcTheorems

  function BasicState(computer: CrcBasic): (a: Computer)
    reads computer
  {
    Basic(computer.Config(), computer.rem)
  }

  function OptimalState(computer: CrcOptimal): (a: Computer)
    reads computer
  {
    Optimal(computer.c, computer.rem)
  }

  lemma BitsOfOne(b: Byte, reflectIn: bool)
    ensures MessageBits([b], reflectIn) == ByteBits(b, reflectIn)
  {
    assert [b][1..] == [];
    assert MessageBits([], reflectIn) == [];
  }

  lemma RunMore(a: Computer, calls: seq<Call>, k: nat)
    requires a.Valid() && k < |calls|
    ensures a.Run(calls[k..]) == a.Do(calls[k]).Run(calls[k + 1..])
  {
    var rest := calls[k..];
    assert rest[0] == calls[k] && rest[1..] == calls[k + 1..];
  }

  method DoBasic(computer: CrcBasic, call: Call)
    requires computer.Valid()
    modifies computer`rem
    ensures computer.Valid() && BasicState(computer) == old(BasicState(computer)).Do(call)
  {
    match call
    case OneByte(b) =>
      BitsOfOne(b, computer.reflectIn);
      computer.ProcessByte(b);
    case Block(bytes) =>
      computer.ProcessBlock(bytes);
    case ResetTo(w) =>
      computer.ResetTo(Resize(w, computer.width));
    case Reset =>
      computer.Reset();
  }

  method DoOptimal(computer: CrcOptimal, call: Call)
    requires computer.Valid()
    modifies computer`rem
    ensures computer.Valid() && OptimalState(computer) == old(OptimalState(computer)).Do(call)
  {
    match call
    case OneByte(b) =>
      OneByteRun(computer.c, computer.rem, b);
      computer.ProcessByte(b);
    case Block(bytes) =>
      computer.ProcessBlock(bytes);
    case ResetTo(w) =>
      computer.ResetTo(Resize(w, computer.c.width));
    case Reset =>
      computer.ResetTo(computer.c.init);
  }

  lemma OneByteRun(c: Params, w: Word, b: Byte)
    requires c.Valid() && |w| == c.width
    ensures OptimalRun(c, w, [b]) == OptimalByte(c, w, b)
  {
    assert [b][1..] == [];
    assert OptimalRun(c, OptimalByte(c, w, b), []) == OptimalByte(c, w, b);
  }

  /** After any calls the object is in the state that the theorems about runs speak of. */
  method DriveBasic(computer: CrcBasic, calls: seq<Call>)
    requires computer.Valid()
    modifies computer`rem
    ensures computer.Valid() && BasicState(computer) == old(BasicState(computer)).Run(calls)
  {
    ghost var goal := BasicState(computer).Run(calls);
    assert calls[0..] == calls;
    for k := 0 to |calls|
      invariant computer.Valid() && BasicState(computer).Run(calls[k..]) == goal
    {
      RunMore(BasicState(computer), calls, k);
      DoBasic(computer, calls[k]);
    }
  }

  method DriveOptimal(computer: CrcOptimal, calls: seq<Call>)
    requires computer.Valid()
    modifies computer`rem
    ensures computer.Valid() && OptimalState(computer) == old(OptimalState(computer)).Run(calls)
  {
    ghost var goal := OptimalState(computer).Run(calls);
    assert calls[0..] == calls;
    for k := 0 to |calls|
      invariant computer.Valid() && OptimalState(computer).Run(calls[k..]) == goal
    {
      RunMore(OptimalState(computer), calls, k);
      DoOptimal(computer, calls[k]);
    }
  }

  method RunBasic(c: Params, calls: seq<Call>) returns (interim: Word, checksum: Word)
    requires c.Valid()
    ensures var a := BasicFrom(c).Run(calls); interim == a.Interim() && checksum == a.Checksum()
  {
    var computer := new CrcBasic(c.bits, c.width, c.poly, c.init, c.final, c.reflectIn, c.reflectRem);
    assert BasicState(computer) == BasicFrom(c);
    DriveBasic(computer, calls);
    interim, checksum := ShowBasic(computer);
  }

  method RunOptimal(table: CrcTable, calls: seq<Call>) returns (interim: Word, checksum: Word)
    requires table.Valid()
    modifies table`didInit, table.table
    ensures table.Valid() && table.didInit
    ensures var a := OptimalFrom(table.c).Run(calls); interim == a.Interim() && checksum == a.Checksum()
  {
    var computer := new CrcOptimal(table, table.c.init);
    assert OptimalState(computer) == OptimalFrom(table.c);
    DriveOptimal(computer, calls);
    interim := computer.GetInterimRemainder();
    checksum := computer.Checksum();
  }

  /** Two new objects, one of either kind, show the same numbers after the same calls. */
  method RunBoth(table: CrcTable, c: Params, calls: seq<Call>)
    returns (interim: Word, checksum: Word, interim': Word, checksum': Word)
    requires table.Valid() && SameCrc(table.c, c)
    modifies table`didInit, table.table
    ensures table.Valid() && table.didInit
    ensures ToNat(interim) == ToNat(interim') && ToNat(checksum) == ToNat(checksum')
    ensures var a := BasicFrom(c).Run(calls); interim' == a.Interim() && checksum' == a.Checksum()
  {
    OptimalAgreesWithBasic(table.c, c, calls);
    interim, checksum := RunOptimal(table, calls);
    interim', checksum' := RunBasic(c, calls);
  }

  method ShowBasic(computer: CrcBasic) returns (interim: Word, checksum: Word)
    requires computer.Valid()
    ensures interim == BasicState(computer).Interim() && checksum == BasicState(computer).Checksum()
  {
    MaskedLow(computer.bits, computer.rem);
    interim := computer.GetInterimRemainder();
    checksum := computer.Checksum();
  }
}
