# Three machines and what they promise

This project models three pieces of code and proves what they are for:

- the CRC computers of Boost (`boost-trunk/boost/crc.hpp`): a bit-at-a-time shift register, a
  byte-at-a-time table machine that may run on a mirrored register, and a table machine for
  messages that carry room for their remainder;
- the integer printer of Boost's `lexical_cast` (`boost-trunk/boost/lexical_cast.hpp`), which
  writes digits and thousands separators backwards into a fixed buffer;
- the text machinery of the SQLite shell (`sqlite/shell.c`): the loop that gathers statements,
  the tokenizer of dot commands, SQL and CSV quoting, list output and `.import`, `.tables`.

## How it is built

**CRC.** A register, a machine word and an `unsigned char` are bit vectors, position i being
bit i (`Bits.dfy`). Nothing is tied to one width: the CRC has any number `bits` of bits and
lives in words of any `width` at least as large. The argument has three layers.

1. `CrcRegister.dfy` is the shift register in its exact width. `FeedSplit` is the lemma that
   everything rests on: a block of any length can be divided in one go, by moving the register
   up and dividing what left it, combined with the block, on its own. One induction, which uses
   that feeding is linear over GF(2), covers registers narrower than a byte, as wide and wider.
   `CrcPolynomial.dfy` shows that the register holds the one remainder of a polynomial
   division, `CrcBurst.dfy` which errors it can never miss, `CrcAugmented.dfy` how the feeding
   order of `augmented_crc` relates to it.
2. `CrcWord.dfy` is the code on whole words, where the shifts leave bits above the CRC that are
   never cleared, and shows that these never reach the CRC, that a table step does what eight
   bit steps do, and that the mirrored word stands for the unmirrored register.
3. `CrcComputers.dfy` and `AugmentedCrc.dfy` are the objects: classes that update their
   remainder in place and share a table filled on first use. Their methods are tied to the word
   functions; `CrcTheorems.dfy` proves what holds over every sequence of calls,
   `CrcDetection.dfy` which errors the checksums tell, and `CrcRuns.dfy` drives the objects
   through such sequences.

**Integers.** `LexicalCast.dfy` has the loop of `lcast_put_unsigned` on an array, tied to a
function that follows its grouping state. The text is then judged by functions that know
nothing of that state: the lengths of the runs between separators, and the value in base ten.
The locale's grouping rule is that of section 22.2.3.1.2 of ISO/IEC 14882:1998.

**Shell.** Strings are sequences of characters; buffers that the shell writes into are arrays
that hold NUL-terminated text (`CText.dfy`). Output is the text that would be written. Every
printer has a reader beside it: the tokenizer itself for dot commands, a reader of quoted text
for SQL, one of destinations for the table name, one by the quoting rules of section 2 of
RFC 4180 for CSV, and `local_getline` with the splitter of `.import` for list mode. What a printer
leaves open is said besides: when text stands unquoted or unescaped, and what stands where in the
listing of `.tables`. Blank and terminator lines are judged by a grammar of their own
(`ShellBlanks.dfy`), and runs of `process_input` by the lines and the answers of the library
(`ShellRuns.dfy`). `sqlite3_complete`, the outcome of a statement, of a dot command and of an
inserted row, and whether errors are to end the run are parameters: any functions, all but the
first of the line number as well.

## Findings

- Bursts: `TellsBurstsApartIff` shows that the checksums of byte messages tell all bursts of up to
  the CRC's width apart exactly if the polynomial has a constant term; without one,
  `ChecksumsConfuse` gives two messages with the same checksum. The polynomial of `crc_xmodem_type` has none (0x8408 is
  the mirror image of 0x1021), so `NamedCrcsAndBursts` singles it out.
- `process_input` keeps a branch for a first line without any character other than white space.
  Such a line has been skipped before; `ShellInput.Shell.Append` shows that the branch is never taken.
- The comments on the buffer size in `lexical_cast.hpp` agree with the code.
  `UnsignedSizeAttained` and `SignedSizeAttained` show for every width that some value of the
  type takes all of it, so the size cannot be lowered.

## Model

| member | source | states |
|---|---|---|
| CrcRegister.FeedLinear | boost-trunk/boost/crc.hpp:727-751 | Dividing the sum of two messages from the sum of two registers gives the sum of the remainders |
| CrcRegister.FeedSplit | boost-trunk/boost/crc.hpp:947-966 | A block of any length changes the register by one shift and one remainder that depends only on the block combined with the bits about to leave: the table step for all widths |
| CrcRegister.FeedWhole | boost-trunk/boost/crc.hpp:727-770 | After as many bits as the register holds, only the difference between them and the old contents matters |
| CrcPolynomial.RemainderUnique | boost-trunk/boost/crc.hpp:727-751 | Quotient and remainder of a division by x^Bits + poly over GF(2) are unique |
| CrcPolynomial.FeedDivides | boost-trunk/boost/crc.hpp:727-770 | The decisions taken bit by bit are the quotient, and the register the remainder, of r * x^k + M * x^Bits |
| CrcPolynomial.FeedIsTheRemainder | boost-trunk/boost/crc.hpp:727-770 | A vector is the remainder of r * x^k + M * x^Bits exactly if it is what the register holds |
| CrcBurst.BurstDetected | boost-trunk/boost/crc.hpp:727-751 | With a constant term in the polynomial, messages that differ only within a window no longer than the CRC leave different registers |
| CrcBurst.BurstMissed | boost-trunk/boost/crc.hpp:727-751 | Without one there is a burst of the CRC's length that leaves no trace |
| CrcBurst.DetectsBurstsIff | boost-trunk/boost/crc.hpp:727-751 | All bursts up to the CRC's length are caught exactly if the lowest bit of the polynomial is set |
| CrcAugmented.AugFeedIsTheRemainder | boost-trunk/boost/crc.hpp:1045-1076 | Feeding at the bottom gives the remainder of r * x^k + M, and nothing else is that remainder |
| CrcAugmented.AugmentedLags | boost-trunk/boost/crc.hpp:1045-1076 | The bottom-fed register is exactly Bits zero steps behind the top-fed one, over any message |
| CrcAugmented.AugmentedWithBlock | boost-trunk/boost/crc.hpp:1045-1076 | Pushing a message through with any Bits more bits gives the top-fed result with those bits added |
| CrcWord.BitStepLow | boost-trunk/boost/crc.hpp:727-751 | The low bits of a word after process_bit depend only on the low bits of word and polynomial, and are those of the exact-width step |
| CrcWord.BitFeedLow | boost-trunk/boost/crc.hpp:727-770 | The same over any run: what the shifts leave above the CRC never comes back into it |
| CrcWord.TableStep | boost-trunk/boost/crc.hpp:955-965 | Index, shift and xor of a table entry do to the represented register what eight single-bit steps do, mirrored or not, for Bits below, at and above 8 |
| CrcWord.EntryIsRemainder | boost-trunk/boost/crc.hpp:490-536 | A table entry stands for the remainder of its index, mirrored with nothing above it if the input is reflected |
| CrcWord.IndexIsDifference | boost-trunk/boost/crc.hpp:540-622 | The table index, read in feeding order, is the byte combined with the eight bits about to leave the register |
| CrcWord.OptimalRunRepresents | boost-trunk/boost/crc.hpp:947-966 | After any message the word of the table machine stands for the bitwise register after that message |
| CrcWord.LoadRepresents | boost-trunk/boost/crc.hpp:836-843 | Loading any word, stray high bits included, loads its low bits |
| CrcWord.OptimalShows | boost-trunk/boost/crc.hpp:905-996 | Interim remainder and checksum of the table machine are those of the represented register, zero-extended |
| CrcWord.FinishedWord | boost-trunk/boost/crc.hpp:814-823 | The checksum of a register is the register as a word, mirrored exactly if ReflectRem is set, with the final value added and nothing above the CRC |
| CrcWord.BasicShows | boost-trunk/boost/crc.hpp:814-823 | The checksum of the bitwise machine is the possibly mirrored register combined with the final value, with nothing above it |
| CrcComputers.Reflect | boost-trunk/boost/crc.hpp:307-326 | The loop mirrors the low Bits bits and leaves nothing above them |
| CrcComputers.CrcBasic.ProcessBit | boost-trunk/boost/crc.hpp:727-751 | The remainder takes one exact-width division step |
| CrcComputers.CrcBasic.ProcessBits | boost-trunk/boost/crc.hpp:753-770 | The low bit_count bits of the byte are consumed, the highest of them first |
| CrcComputers.BitsInTwoCalls | boost-trunk/boost/crc.hpp:753-770 | A byte handed over in two parts, the high one first, is the whole byte |
| CrcComputers.CrcBasic.ProcessByte | boost-trunk/boost/crc.hpp:772-782 | The byte is consumed from its highest bit, or from its lowest if input is reflected |
| CrcComputers.CrcBasic.ProcessBlock | boost-trunk/boost/crc.hpp:784-797 | The register has taken in the whole message, in word and in exact width |
| CrcComputers.CrcBasic.GetInterimRemainder | boost-trunk/boost/crc.hpp:696-704 | The register without stray bits |
| CrcComputers.CrcBasic.Checksum | boost-trunk/boost/crc.hpp:814-823 | The register, mirrored exactly if reflectRem is set, with the final value added, without stray bits |
| CrcComputers.CrcTable.Divide | boost-trunk/boost/crc.hpp:508-531 | The mask loop computes the remainder of one dividend byte |
| CrcComputers.CrcTable.InitTable | boost-trunk/boost/crc.hpp:490-536 | All 256 entries are in their places, mirrored positions included; a second call changes nothing |
| CrcComputers.CrcOptimal.constructor | boost-trunk/boost/crc.hpp:832-843 | Loads the initial remainder and leaves a filled table alone |
| CrcComputers.CrcOptimal.ProcessBlock | boost-trunk/boost/crc.hpp:947-966 | Whatever register the word stood for has taken in the whole message |
| CrcComputers.CrcOptimal.GetInterimRemainder | boost-trunk/boost/crc.hpp:905-917 | Whatever register the word stands for, mirrored or not, shown without stray bits |
| CrcComputers.CrcOptimal.Checksum | boost-trunk/boost/crc.hpp:985-996 | Whatever register the word stands for, mirrored exactly if reflectRem is set whatever reflectIn says, with the final value added, without stray bits |
| CrcComputers.Crc | boost-trunk/boost/crc.hpp:1024-1040 | The same of the exact-width register after the message, from the initial remainder |
| CrcTheorems.RunHolds | boost-trunk/boost/crc.hpp:696-996 | Either computer simulates the exact-width register over every sequence of calls, resets included |
| CrcTheorems.OptimalAgreesWithBasic | boost-trunk/boost/crc.hpp:836-996 | After every sequence of calls the table-driven computer shows the same interim remainder and checksum as the bitwise one, for all widths, polynomials, initial and final values, flags and word sizes |
| CrcTheorems.InterimIsTheRemainder | boost-trunk/boost/crc.hpp:905-917 | The interim remainder of either computer is the remainder of the polynomial division, and no other value is |
| CrcTheorems.ChecksumOfInterim | boost-trunk/boost/crc.hpp:814-823 | Either computer shows as checksum its interim remainder, mirrored exactly if ReflectRem is set, with the final value added |
| CrcTheorems.ChecksumOfRemainder | boost-trunk/boost/crc.hpp:784-996 | From the start: if s is the polynomial remainder of initial value and message, either checksum is s, mirrored exactly if ReflectRem is set, with the final value added |
| CrcTheorems.MessageBitAt | boost-trunk/boost/crc.hpp:772-797 | Which bit of which byte is consumed when, for either setting of ReflectIn |
| CrcTheorems.ResetStartsAnew | boost-trunk/boost/crc.hpp:706-725 | Reset makes either computer as good as new, and with a value it shows that value without stray bits |
| CrcTheorems.SplitGivesOneShot | boost-trunk/boost/crc.hpp:772-812 | However a message is cut up over process_byte and process_block calls, the result is that of one call |
| CrcTheorems.Resumes | boost-trunk/boost/crc.hpp:919-932 | A computer of either kind reset to the interim remainder of another goes on exactly as that one would have |
| CrcTheorems.ResidueConstant | boost-trunk/boost/crc.hpp:947-996 | A message followed by its own checksum bytes leaves a checksum in which neither message nor initial remainder enters |
| CrcDetection.ChecksumsTellBurstsApart | boost-trunk/boost/crc.hpp:784-823 | With an odd polynomial, messages that differ by a burst no longer than the CRC have different checksums |
| CrcDetection.ChecksumsConfuse | boost-trunk/boost/crc.hpp:784-823 | With an even one, two byte messages that differ by a burst no longer than the CRC have the same checksum, whatever state the computer is in |
| CrcDetection.TellsBurstsApartIff | boost-trunk/boost/crc.hpp:784-823 | Checksums of byte messages tell all such bursts apart exactly if the lowest bit of the polynomial is set |
| CrcDetection.NamedCrcsAndBursts | boost-trunk/boost/crc.hpp:93-98 | Of the four named CRCs all but the XMODEM one tell all such bursts apart |
| CrcRuns.DriveBasic | boost-trunk/boost/crc.hpp:696-823 | A bitwise computer, driven through any calls, is in the state the theorems on runs speak of |
| CrcRuns.DriveOptimal | boost-trunk/boost/crc.hpp:836-996 | So is a table-driven one |
| CrcRuns.RunBoth | boost-trunk/boost/crc.hpp:696-996 | Two new objects, one of either kind, show the same interim remainder and checksum after the same calls |
| AugmentedCrc.AugmentedByteLow | boost-trunk/boost/crc.hpp:1066-1072 | A table step takes eight bits in at the bottom |
| AugmentedCrc.Compute | boost-trunk/boost/crc.hpp:1045-1076 | The result is the bottom-fed register of exact width after the message, without stray bits |
| AugmentedCrc.AugmentedRunLow | boost-trunk/boost/crc.hpp:1066-1072 | What the shifts leave above the CRC never comes back into it, over any message |
| AugmentedCrc.AugmentedIsTheRemainder | boost-trunk/boost/crc.hpp:1045-1076 | augmented_crc(M, r) is (r * x^(8n) + M) mod P, and nothing else is |
| AugmentedCrc.AugmentedMeetsPlain | boost-trunk/boost/crc.hpp:1045-1076 | From zero, on M and Bits/8 zero bytes it is the checksum that a plain, unreflected computer shows for M; on M and that checksum, highest byte first, it is zero |
| LexicalCast.LimitedSource.LcastPutUnsigned | boost-trunk/boost/lexical_cast.hpp:514-571 | The text of n ends at finish, and nothing else in the buffer changes |
| LexicalCast.LimitedSource.PutUnsigned | boost-trunk/boost/lexical_cast.hpp:914-933 | With a buffer of the source length the text of any value of the type fits |
| LexicalCast.LimitedSource.PutSigned | boost-trunk/boost/lexical_cast.hpp:847-887 | The same with a minus sign for negative values, the most negative one included |
| LexicalCast.StripPut | boost-trunk/boost/lexical_cast.hpp:536-568 | Without its separators the text is the decimal digits |
| LexicalCast.PutFillsUp | boost-trunk/boost/lexical_cast.hpp:536-568 | Every group is filled before the next begins, and none is empty on the left |
| LexicalCast.GroupsFollow | boost-trunk/boost/lexical_cast.hpp:527-556 | From the right every group but the last has the size its entry in the grouping string gives, past the end of the string the last entry, and nothing is cut off from a group whose entry is not positive |
| LexicalCast.PrintedLength | boost-trunk/boost/lexical_cast.hpp:335-358 | At most 2 * digits10 + 1 characters, for every value and grouping |
| LexicalCast.BoundIsTight | boost-trunk/boost/lexical_cast.hpp:335-358 | 10^digits10 with groups of one digit takes 2 * digits10 + 1 characters |
| LexicalCast.UnsignedSizeAttained | boost-trunk/boost/lexical_cast.hpp:345-358 | Every unsigned type has a value that takes all of lcast_src_length_integral characters |
| LexicalCast.SignedSizeAttained | boost-trunk/boost/lexical_cast.hpp:345-358 | So has every signed type, with the sign |
| LexicalCast.FitsUnsigned | boost-trunk/boost/lexical_cast.hpp:345-358 | The unsigned text fits into lcast_src_length_integral characters for every width |
| LexicalCast.FitsSigned | boost-trunk/boost/lexical_cast.hpp:345-358 | So does the signed text with its sign |
| LexicalCast.PrintedReadsBack | boost-trunk/boost/lexical_cast.hpp:514-571 | The text reads back as the value, and has no superfluous leading zero |
| LexicalCast.ToUnsignedIsAbs | boost-trunk/boost/lexical_cast.hpp:497-504 | The modular negation is the absolute value, at the most negative value too |
| LexicalCast.SignedReadsBack | boost-trunk/boost/lexical_cast.hpp:847-887 | The signed text reads back as the value |
| ShellMeta.OutputCString | sqlite/shell.c:518-541 | The printed form of a string |
| ShellMeta.ResolveEscaped | sqlite/shell.c:1403-1430 | Dequoting undoes quoting, whatever characters count as printable |
| ShellMeta.PlainPrintsAsItself | sqlite/shell.c:518-541 | A string is printed as it is exactly if all its characters are printable and none is a backslash, tab, LF or CR |
| ShellMeta.EscapeLength | sqlite/shell.c:521-537 | A character takes one place, two if it has a short escape, four if it is printed in octal |
| ShellMeta.OnlyPrintables | sqlite/shell.c:518-541 | If the characters of the escapes are printable, nothing else is printed |
| ShellMeta.BackslashMeans | sqlite/shell.c:1407-1427 | Up to three octal digits behind a backslash stand for their value in base eight, cut to a byte; a character that is neither a digit nor n, t or r for itself |
| ShellMeta.ResolveBackslashes | sqlite/shell.c:1403-1430 | Dequoting in place leaves the dequoted C string and touches nothing outside the old one; the write index never passes the read index |
| ShellMeta.ParseLine | sqlite/shell.c:1464-1481 | The positions found are those of the arguments, each a C string in the line's own buffer, up to fifty |
| ShellMeta.LineIsCut | sqlite/shell.c:1464-1481 | Any line is cut into the tokens it was written as, bare or between quotes, with or without a closing quote, up to the room there is; only between single quotes do backslashes stand for themselves |
| ShellMeta.ArgsReadBack | sqlite/shell.c:1464-1481 | Any list of arguments free of double quotes is recovered from its print |
| ShellMeta.CommandReadsBack | sqlite/shell.c:1464-1481 | So it is behind a command |
| ShellQuoting.OutputQuotedString | sqlite/shell.c:488-513 | The printer that works in runs doubles every quote |
| ShellQuoting.QuotedReadsBack | sqlite/shell.c:488-513 | Quoted text ends where it was meant to end and reads back as it was, whatever it contains and whatever follows but a quote |
| ShellQuoting.AppendText | sqlite/shell.c:884-919 | The text is appended, quoted on demand, and its buffer is filled to the last byte |
| ShellQuoting.AppendedReadsBack | sqlite/shell.c:884-919 | With a quote character, what is added reads back as it was; without one it is the text itself |
| ShellQuoting.SetTableName | sqlite/shell.c:843-874 | The name is quoted exactly if it needs to be, and its buffer is filled to the last byte |
| ShellQuoting.BareNameIff | sqlite/shell.c:853-859 | A name is left as it is exactly if it reads as an identifier from end to end |
| ShellQuoting.TableNameReadsBack | sqlite/shell.c:843-874 | Read as a quoted text or an identifier, the destination ends where it was meant to and gives back the name |
| ShellQuoting.InsertNamesTheTable | sqlite/shell.c:800 | So it does in the line that insert mode prints |
| ShellQuoting.BuildDumpSelect | sqlite/shell.c:1244-1249 | The start of the query that dumps a table |
| ShellQuoting.DumpNamesTheTable | sqlite/shell.c:1244-1249 | Its string literal ends before the text that follows, and holds a quoted identifier that reads back as the table's name |
| ShellCsv.OutputCsv | sqlite/shell.c:606-635 | A field is quoted exactly if it is empty or holds a character that asks for it |
| ShellCsv.BareFieldIff | sqlite/shell.c:581-635 | A field stands bare exactly if it is not empty and made of visible ASCII characters other than quotes and the separator; nothing is printed as nothing |
| ShellCsv.OutputRow | sqlite/shell.c:791-796 | A row of fields |
| ShellCsv.FieldReadsBack | sqlite/shell.c:606-635 | A field is read back whatever it holds, by the rules of section 2 of RFC 4180 |
| ShellCsv.RowReadsBack | sqlite/shell.c:791-796 | So is a row, and reading stops at its end |
| ShellCsv.TableReadsBack | sqlite/shell.c:783-797 | So is a whole table |
| ShellImport.Input.LocalGetline | sqlite/shell.c:321-361 | Returns the next line without its LF or CR LF in a buffer of its own size and leaves the rest of the file, however the chunks fall |
| ShellImport.LineForms | sqlite/shell.c:351-357 | A CR is taken off a line only together with the LF behind it |
| ShellImport.SplitLine | sqlite/shell.c:1729-1752 | A line is accepted exactly if it has as many fields as the table has columns; azCol then points to each field |
| ShellImport.FieldsJoin | sqlite/shell.c:1733-1743 | The fields joined by the separator are the line up to its first CR or LF |
| ShellImport.FieldsFree | sqlite/shell.c:1733-1743 | No field contains the separator |
| ShellImport.FieldsCutAtFirst | sqlite/shell.c:1733-1743 | Every cut is at the first separator met from the left, and the last field ends at the end of the line |
| ShellImport.OutputListRow | sqlite/shell.c:731-741 | A row in list mode |
| ShellImport.RowSplits | sqlite/shell.c:725-743 | A row joined with a one-character separator splits into its fields |
| ShellImport.TableReadsBack | sqlite/shell.c:725-743 | The lines of a table printed in list mode have its rows as their fields |
| ShellImport.Import | sqlite/shell.c:1728-1769 | The rows inserted are those before the first line with a wrong number of fields, or that the library refuses; all of them exactly if there is no such line |
| ShellImport.ListTableImported | sqlite/shell.c:1728-1769 | A table printed in list mode is imported whole exactly if the library takes each of its rows |
| ShellInput.StepInOrder | sqlite/shell.c:2410-2485 | Every turn of the loop keeps the events and the pending text a gapless sequence of lines, startline being the first of the pending ones |
| ShellInput.StepFaithful | sqlite/shell.c:2410-2485 | Every turn treats its line as it asks for: skipped if blank, run if it starts with a dot, else put into the text, which is executed as soon as it is ripe and no sooner |
| ShellInput.StepCounted | sqlite/shell.c:2424-2481 | The error count is the number of failed commands and statements |
| ShellInput.InputAccounted | sqlite/shell.c:2396-2495 | All three over every run, from the start, and every line is read unless an exit or an error ends the run |
| ShellInput.EachLineOnce | sqlite/shell.c:2396-2495 | In such a sequence each line lies in one event and in one only |
| ShellBlanks.BlankGrammar | sqlite/shell.c:2335-2354 | A text is blank exactly if it is made of white space, C comments that end at their first end mark, and line comments |
| ShellBlanks.OpenComment | sqlite/shell.c:2338-2341 | A C comment that does not end is not blank |
| ShellBlanks.TerminatorGrammar | sqlite/shell.c:2361-2371 | A terminator is white space, a slash or "go" in any case, and blanks |
| ShellRuns.SkippedIsBlank | sqlite/shell.c:2419 | What is skipped is blank by that grammar |
| ShellRuns.PlacedAt | sqlite/shell.c:2430-2432 | A line becomes a semicolon exactly if it is a terminator and begins the statement or would complete it; else it is taken as it is |
| ShellRuns.TextHasLines | sqlite/shell.c:2434-2457 | The lines of a statement can be read off its text |
| ShellRuns.ExecutedWhenComplete | sqlite/shell.c:2458-2459 | An executed text begins with a line that is neither blank nor a dot command; its last line has a semicolon and the library calls it complete, and of no shorter part was that so |
| ShellRuns.TerminatorExecutes | sqlite/shell.c:2430-2481 | A terminator behind a statement that lacks only its semicolon executes it |
| ShellRuns.InputOrderly | sqlite/shell.c:2407-2495 | Over every run the errors counted are the commands and statements that failed, only the last event ends a run, and lines stay unread only after an exit or an error that ends the run |
| ShellInput.ScanAllWhitespace | sqlite/shell.c:2335-2354 | The pointer loop decides whether a text is blank |
| ShellInput.IsCommandTerminator | sqlite/shell.c:2361-2371 | A slash or "go" on a line of its own |
| ShellInput.Shell.IsComplete | sqlite/shell.c:2377-2385 | Asks about the text with a semicolon and restores the buffer |
| ShellInput.Shell.Append | sqlite/shell.c:2434-2457 | The line is placed behind the text, the buffer has room for two more characters and a NUL, startline is set by the first line |
| ShellInput.Shell.Turn | sqlite/shell.c:2410-2485 | One turn of the loop is one step of the machine |
| ShellInput.Shell.ProcessInput | sqlite/shell.c:2396-2495 | The loop is a run of the machine; what is left pending is reported unless blank |
| ShellTables.PrintTables | sqlite/shell.c:2150-2167 | The listing, line by line |
| ShellTables.LineIsCells | sqlite/shell.c:2159-2163 | The text of a line is that of the entries with its indices, one behind the other |
| ShellTables.EachEntryOnce | sqlite/shell.c:2161-2163 | Entry j is among the indices of line (j-1) mod rows, at column (j-1) div rows, and nowhere else |
| ShellTables.LineShows | sqlite/shell.c:2162-2165 | In line i, from character c * (w + 2) on, stands the name with number i + c * rows, with blanks up to the width w of the longest name and two blanks before it |
| ShellTables.ListingShows | sqlite/shell.c:2161-2167 | So it does in line i of the whole listing |
| ShellTables.LayoutIsTight | sqlite/shell.c:2158-2160 | There is no room for another column, and no line too many |
| ShellTables.RowWidth | sqlite/shell.c:2158-2163 | Every line has an entry, and none has more than there are columns |
| ShellTables.LinesFit | sqlite/shell.c:2152-2165 | No line is wider than 78 characters or the longest name; a name wider than 78 stands alone |

## Left out

- The SQLite library: preparing, stepping and binding statements, and the transaction around `.import`;
  whether a row is inserted, and how many columns a table has, are parameters.
- Files, terminals, prompts, signals, echo, timers and the other dot commands of the shell.
- Allocation failure, and strings of 2^30 bytes or more.
- Lines and fields with NUL characters in them: C strings have none.
- The message that goes with a failed statement; the model keeps that it failed, and where it started.
- `output_hex_blob`, HTML, Tcl, column and insert modes, and headers of result tables.
- CSV with separators of more than one byte, which `output_csv` compares with the start of the field.
- Table names and column names of a dumped table are quoted alike; the model follows the table name.
- ShellMeta.ResolveBackslashes: a token that ends in a single backslash is excluded, because the code reads on behind its NUL.
- CText.IsSpace: white space is that of the C locale; printable characters are a parameter.
- CrcComputers.CrcBasic.ProcessBits: takes at most eight bits, as the shift by `CHAR_BIT - bit_count` does.
- AugmentedCrc.Compute: needs a CRC of at least eight bits, as the shift by `Bits - CHAR_BIT` does.
- `crc_table_t::table_` is a static member; here it is an object that computers with the same parameters share.
- LexicalCast.LimitedSource.PutSigned: the separator is no digit, and for reading back no minus sign; `CHAR_MAX` is 127.
- Wide characters, floating point, and the stream-based paths of `lexical_cast`.
- The rest of Boost that the directory holds: it has no algorithm that runs, or only easy ones.
