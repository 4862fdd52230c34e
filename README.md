# Buri monitor core in Dafny

This project models the command core of the Buri 6502 machine monitor
(`src/start.c`). After a line is typed, the monitor looks at its first word.
`help` prints a fixed line. `dump <start> [<len>]` prints a hex listing of
memory: sixteen bytes to a row, each row headed by its four-digit address.
The core consists of the hex formatter and parser (`put_hex_4/8/16`,
`parse_hex_4/16`), the string comparison `streq`, the `dump` command and the
dispatcher `process_cli`.

Modules, one per concern:

- `MachineTypes` (`types.dfy`) defines `u8` and `u16` as bounded integers.
  Memory is a total map from 16-bit addresses to bytes.
- `CStrings` (`cstrings.dfy`) defines null-terminated strings inside a
  buffer, and `streq` as a loop.
- `HexCodec` (`hex.dfy`) holds the formatter as functions and `parse_hex_16`
  as a loop. Its specification is the 16-bit fold `ParsedWord`.
- `MemoryDump` (`dump.dfy`) holds `dump`: the argument parsing in `Dump`,
  and its loop in `DumpRange`. Its specification is
  `DumpText`, the text produced byte by byte. Lemmas relate that text to the
  row-by-row layout.
- `Monitor` (`monitor.dfy`) holds `process_cli`.

Output is modelled as a character sequence. Every operation that prints
takes the text emitted so far (`out`) and returns `out` followed by what it
prints.

Two consequences of the code are worth stating. `len` is a `u16`, so
`end == start` (src/start.c:99-100) only when `len` is 0, and the loop then
prints nothing (`DumpLength`). No dump covers all 64 KB; the largest is 0xFFFF
bytes. `help` prints "You need somebody" (src/start.c:121), followed by the
line terminator that putln adds.

## Model

| member | source | states |
|---|---|---|
| HexCodec.PutHex8 | src/start.c:52-55 | put_hex_8 prints exactly two characters. Which digits they are, and their value, is stated in PutHex8Digits |
| HexCodec.PutHex16 | src/start.c:57-60 | put_hex_16 prints exactly four characters. Which digits they are, and their value, is stated in PutHex16Digits |
| HexCodec.PutHex4Digit | src/start.c:48-50 | a nibble prints as one upper-case hex digit. It is decimal exactly when the nibble is below 10, and parse_hex_4 reads it back as the nibble |
| HexCodec.PutHex8Digits | src/start.c:52-55 | put_hex_8 prints two upper-case digits, high nibble first, whose positional value is the byte |
| HexCodec.PutHex16Digits | src/start.c:57-60 | put_hex_16 prints four upper-case digits, most significant first, whose positional value is the word |
| HexCodec.ParseHex4 | src/start.c:62-67 | the parsed value is non-zero exactly when the character is a hex digit of either case other than '0'. Every other character reads as 0 |
| HexCodec.ParseHex4IgnoresCase | src/start.c:64-65 | 'a'-'f' parse to the same value, 10 or more, as 'A'-'F' |
| HexCodec.PutHex4OfParse | src/start.c:48-50 | put_hex_4 undoes parse_hex_4 on the upper-case digits it emits |
| HexCodec.ParseHex16 | src/start.c:69-77 | the loop's result is the 16-bit shift-in fold of the digit values of the string before its terminator |
| HexCodec.ShiftOrBits | src/start.c:73-74 | on `bv16`, shifting left by 4 and then OR-ing in a digit below 16 equals multiplying by 16 and adding the digit, both wrapping modulo 2^16 |
| HexCodec.ShiftOr | src/start.c:73-74 | on integers, `(out * 16) mod 2^16 + digit`, the form the loop computes, equals `(out * 16 + digit) mod 2^16` |
| HexCodec.ParsedWordIsValueMod | src/start.c:69-77 | the fold is the base-16 value of the whole string, reduced modulo 2^16 |
| HexCodec.DigitsAppend | src/start.c:69-77 | digits in front of a string add their value times 16 to the power of the string's length |
| HexCodec.LastFourDigits | src/start.c:69-77 | only the last four characters of the string matter. Leading characters are shifted out of the u16 |
| HexCodec.ParsedFour | src/start.c:69-77 | four characters parse to their positional value without wrap-around |
| HexCodec.WordRoundTrip | src/start.c:57-77 | parse_hex_16 of the text printed by put_hex_16 is the original word |
| HexCodec.CanonicalRoundTrip | src/start.c:57-77 | four upper-case hex digits are parsed then printed back unchanged |
| HexCodec.ParsedWordExamples | src/start.c:69-77 | "" and "x?" parse to 0, "1a2B" parses to 0x1A2B, and "10000" parses to 0 |
| CStrings.StrEq | src/start.c:80-90 | returns 1 when the two strings agree up to and including the first terminator, and 0 otherwise. That is exactly C-string equality |
| CStrings.SameUpToTerminatorIsEquality | src/start.c:82-87 | agreeing character by character up to the terminator is the same as equal C strings, in both directions |
| CStrings.SameUpToTerminatorSymmetric | src/start.c:80-90 | the comparison does not depend on argument order |
| CStrings.ProperPrefixNotSame | src/start.c:86-87 | the final terminator check rejects a string that is a proper prefix of the other, in either order |
| MemoryDump.Dump | src/start.c:92-117 | appends exactly `DumpText` of the start and length parsed from the first two arguments, with the length 0x100 when the second argument is empty |
| MemoryDump.DumpRange | src/start.c:99-116 | the listing loop appends exactly `DumpText(mem, start, len)`: it stops after `len` bytes, even when the addresses wrap past FFFF |
| MemoryDump.DefaultDump | src/start.c:97-117 | with an empty length argument the dump is 0x100 bytes: sixteen full rows of 41 characters, opening with the start address and two spaces |
| MemoryDump.DumpHeader | src/start.c:100-107 | every non-empty dump opens with the four-digit start address and two spaces |
| MemoryDump.CellSeparatorByColumn | src/start.c:112-116 | the separator after a byte depends only on its column. LF then CR follows column 15, a space follows column 7, nothing follows the others |
| MemoryDump.DumpTextSplit | src/start.c:100-117 | a dump longer than 16 bytes is its first row followed by a dump from 16 addresses further on, mod 2^16 |
| MemoryDump.DumpTextFirstRow | src/start.c:100-117 | the first 1 to 16 bytes form one row: address, two spaces, byte columns |
| MemoryDump.DumpAsRows | src/start.c:100-117 | the byte-by-byte output equals the row-by-row layout: full rows of 16, then a final partial row |
| MemoryDump.RowBytesLength | src/start.c:110-116 | a row of m bytes has 2m digit characters, plus 1 after the eighth byte and 2 after the sixteenth |
| MemoryDump.DumpRowsLength | src/start.c:100-117 | the rows of an n-byte dump total 41 * (n / 16) plus the length of the final partial row |
| MemoryDump.DumpLength | src/start.c:100-117 | the dump's length is 41 per full row plus the partial row, and the output is empty exactly when the length is 0 |
| MemoryDump.RowByteAt | src/start.c:101-110 | column j of a row shows the byte at the row address plus j, mod 2^16 |
| MemoryDump.RowColumn | src/start.c:101-110 | after the six-character header, column j of a row shows the byte at the row address plus j |
| MemoryDump.DumpReadsOnlyVisited | src/start.c:101-102 | the listing depends only on the n bytes the loop visits |
| MemoryDump.WrapAroundRow | src/start.c:100-110 | sixteen bytes from FFF8 form one row headed "FFF8". Past the address wrap, its ninth column shows the byte at 0000 |
| MemoryDump.AddressInjective | src/start.c:100-101 | positions less than 2^16 apart visit distinct addresses, so the loop ends exactly after len bytes |
| Monitor.ProcessCli | src/start.c:119-125 | for the command "help", appends "You need somebody" and the line terminator. For "dump", appends the dump of the arguments. For any other command, appends nothing |

## Left out

- `start` (src/start.c:15-40) is the hardware initialisation and the read-eval loop. `print_banner` (src/start.c:42-46) prints the greeting. Both only drive I/O and are not modelled.
- The line assembler `cli_start`/`cli_new_char` is not part of this model. Its result enters as the parameters `buf` (the command buffer, first word at offset 0) and `offsets` (the argument offsets into it).
- The console drivers behind `putc`/`putln` are not part of this model. Output is the returned character sequence, and putln's line terminator is the parameter `lineEnd`.
- Raw memory reads through a `u8*` are modelled as the read-only function `Memory` from address to byte. Memory-mapped I/O side effects of a read are not modelled.
- ParseHex16: requires the string to be shorter than 256 characters. The C index is a `u8`, so on a longer string without a terminator in its first 256 characters it would wrap and never stop.
- Dump: requires the first two argument offsets, the only ones it reads, to point at terminated strings shorter than 256 characters, for the same reason. It does not model what the C does with dangling offsets.
- ProcessCli: requires valid arguments only when the command is "dump", the only command that reads them.
- The `& 0xf`, `& 0x7`, `>> 4`, `>> 8` and `& 0xff` of the C are written as `% 16`, `% 8`, `/ 16`, `/ 256` and `% 256`. These agree on unsigned values.
- ShiftOr: parse_hex_16's `out <<= 4; out |= digit` is computed on integers as `(out * 16) % 2^16 + digit`, with the OR written as `+`. The shift leaves the low nibble 0 and the digit is below 16, so they agree; ShiftOrBits proves this on `bv16`. The correspondence between `bv16` values and integers modulo 2^16 is taken as the meaning of `u16` and is not itself proved.
- The two `putc(' ')` calls after a row address are one append of two spaces.
- PutHex4: carries no `ensures` of its own. Its digit class and value are proved in PutHex4Digit, because a contract on it would be instantiated at every printed digit in the dump proofs and roughly double their cost.
- PutHex8: its own contract states only the length. The digits and their value are in PutHex8Digits, for the same reason.
- PutHex16: its own contract states only the length. The digits and their value are in PutHex16Digits, for the same reason.
