# Memoria core, modelled in Dafny

Memoria is a Windows memory-manipulation library. It reads and patches
the memory of the process it runs in. This project models the parts of
it that have logic one can state and prove:

- **Address arithmetic** (`AddressMath`): pointer offsets with 64-bit
  wrap-around, half-open bounds tests, the 32-bit distance test and
  power-of-two alignment. It also covers decoding and encoding the rel32
  operand of near `CALL`/`JMP`. Per the Intel 64 and IA-32 Architectures
  Software Developer's Manual, Vol. 2A, "CALL—Call Procedure" and
  "JMP—Jump", opcodes E8/E9, the target is the next instruction plus a
  signed 32-bit displacement.
- **Page protection** (`PageProtection`): the `Make*`/`Remove*` transition
  tables over the `PAGE_*` constants and `CreateVirtualFlags`.
- **The freestanding memory and string library**:
  - `MemoryBlocks`: `MemCompare`, `MemCopy`, `MemMove` and `MemFill` on one
    byte array, so source and destination can overlap.
  - `Strings`: length, search and the four comparison families.
  - `StringCopy`: plain, counted and checked ("safe") copy and
    concatenation.
  - `NumberText`: the integer formatters.

  The `A` (char) and `W` (wchar_t) variants share one definition over
  16-bit code units (`Unit`).
- **Safe-mode readers** (`CoreRead`): little-endian reads of 8 to 64 bits.
  When safe mode is on they check the address first. The module also has
  the string readers and the copy-out helpers.
- **PE section-table lookups** (`PeImage`): `EnumSections` and the
  section searches by data directory, by characteristics, by name and by
  entry point. It also covers section bounds, image base, OS version and
  image size. They follow the Microsoft PE/COFF Specification, sections
  "MS-DOS Stub (Image Only)", "Signature (Image Only)", "Optional Header
  Data Directories (Image Only)" and "Section Table (Section Headers)".
- **Blocks and modules** (`MemoryModule`): `CMemoryBlock` becomes the
  class `MemoryBlock`, with its address, size and patch list. The
  `HookRef*` bookkeeping appends to that list. `CMemoryModule` becomes the
  class `Module`, with its constructors, section lookups, signature
  searches and `CreateFrom*` factories.

Process memory (`Memory`) is a map from address to byte and a map from
address to protection. `IsMemoryValid` and `IsMemoryExecutable` are
predicates over it.

Several Windows calls become parts of a `Process` value:
- `GetModuleHandleA` becomes a name table plus the main executable's
  handle;
- the loaded images become a map from handle to `Image`;
- `VirtualQuery`'s answer and `VirtualProtect`'s success are parameters.

The cross-reference finder and the patch constructors are the fields of a
`Patcher` value. The signature parser and scanner are function
parameters. Their internals are not part of this model.

Addresses are naturals below 2^64. `Wrap64` appears wherever the source
uses unsigned or pointer arithmetic. `Int32` is the truncating cast to
`int32_t`, and `SignedChar` is MSVC's signed `char`.

## Model

| member | source | states |
|---|---|---|
| AddressMath.PtrOffset | Memoria/src/Nucleus/memoria_core_misc.cpp:53-61 | the address offset by a signed amount modulo 2^64, or, when dereferencing, the 8-byte little-endian word stored there |
| AddressMath.PtrAdvance | Memoria/src/Nucleus/memoria_core_misc.cpp:63-71 | the address moved forward modulo 2^64, or the word stored there when dereferencing |
| AddressMath.PtrRewind | Memoria/src/Nucleus/memoria_core_misc.cpp:73-81 | the address moved back modulo 2^64, or the word stored there when dereferencing |
| AddressMath.AdvanceRewind | Memoria/src/Nucleus/memoria_core_misc.cpp:53-81 | advancing then rewinding by the same amount, in either order, returns the original address; advance and rewind are PtrOffset with +n and -n |
| AddressMath.IsInBounds | Memoria/src/Nucleus/memoria_core_misc.cpp:83-101 | true exactly when lower <= addr < upper; one definition serves both overloads |
| AddressMath.IsIn32BitRange | Memoria/src/Nucleus/memoria_core_misc.cpp:103-119 | true exactly when addr1 and the wrapped addr2 + offset are at most 0xFFFFFFFF apart, in either direction |
| AddressMath.In32BitRangeWiderThanRel32 | Memoria/src/Nucleus/memoria_core_misc.cpp:103-109 | the test accepts a distance of 2^31, which an int32 displacement cannot encode |
| AddressMath.Align | Memoria/src/Nucleus/memoria_core_misc.cpp:457-485 | alignment 0 leaves the value unchanged |
| AddressMath.AlignPowerOfTwo | Memoria/src/Nucleus/memoria_core_misc.cpp:457-485 | for a = 2^k: 0 when value + a - 1 overflows; otherwise a multiple of a with value <= result < value + a, which is the least multiple of a at or above value |
| AddressMath.AlignOverflow | Memoria/src/Nucleus/memoria_core_misc.cpp:464-467 | whenever value > SIZE_MAX - (a - 1), the result is 0 (nullptr in the pointer overload) |
| AddressMath.ClearLowBits | Memoria/src/Nucleus/memoria_core_misc.cpp:464-469 | and-ing x with 2^n - 2^k clears exactly the k low bits: the result is x - x mod 2^k |
| AddressMath.RelToAbs | Memoria/src/Nucleus/memoria_core_misc.cpp:43-46 | addr + offset + the signed 32-bit value stored at addr, modulo 2^64 |
| AddressMath.RelToAbsEx | Memoria/src/Nucleus/memoria_core_misc.cpp:38-41 | RelToAbs applied at addr + preOffset with postOffset |
| AddressMath.NearBranchTarget | Memoria/src/Nucleus/memoria_core_misc.cpp:38-41 | for an E8/E9 at X holding displacement d, RelToAbsEx(X, 1, 4) is X + 5 + d |
| AddressMath.CalcRel | Memoria/src/Nucleus/memoria_core_misc.cpp:48-51 | the result is an int32 congruent to target - address - immSize modulo 2^32 |
| AddressMath.CalcRelExact | Memoria/src/Nucleus/memoria_core_misc.cpp:48-51 | when target - address - immSize fits in int32, CalcRel is that distance exactly |
| AddressMath.CalcRelRoundTrip | Memoria/src/Nucleus/memoria_core_misc.cpp:43-51 | storing CalcRel(t, a, imm) at a and decoding with RelToAbs(a, imm) gives t whenever the distance fits in int32, and always agrees with t in the low 32 bits |
| AddressMath.RelToAbsAfterStore | Memoria/src/Nucleus/memoria_core_misc.cpp:43-46 | after a displacement d is stored at a, RelToAbs(a, imm) decodes a + imm + d |
| Memory.IsMemoryValid | Memoria/src/Nucleus/memoria_core_misc.cpp:121-135 | the null address is never valid; a valid address has a recorded protection |
| Memory.IsMemoryExecutable | Memoria/src/Nucleus/memoria_core_misc.cpp:137-157 | executable memory is valid memory, and its protection is none of 0, NOACCESS, READONLY and READWRITE |
| Memory.ExecutableIsValid | Memoria/src/Nucleus/memoria_core_misc.cpp:121-157 | executable memory is valid memory, and the null address is never valid |
| PageProtection.CreateVirtualFlags | Memoria/src/Nucleus/memoria_core_misc.cpp:395-431 | the protection grants exactly the requested execute and read rights, and write only together with read; writable without readable gives EXECUTE or NOACCESS |
| PageProtection.RightsRoundTrip | Memoria/src/Nucleus/memoria_core_misc.cpp:395-431 | every one of the six basic protections is CreateVirtualFlags of its own rights |
| PageProtection.Transition | Memoria/src/Nucleus/memoria_core_misc.cpp:159-330 | the shared shape of the six helpers: reprotection is requested exactly when the query succeeded and the table changes the protection; the result is true exactly when it was requested and VirtualProtect succeeded |
| PageProtection.MakeWritable | Memoria/src/Nucleus/memoria_core_misc.cpp:159-189 | EXECUTE and EXECUTE_READ become EXECUTE_READWRITE; READONLY and NOACCESS become READWRITE; anything else, or a failed query, gives false with no reprotection |
| PageProtection.MakeReadable | Memoria/src/Nucleus/memoria_core_misc.cpp:191-215 | EXECUTE becomes EXECUTE_READ and NOACCESS becomes READONLY; anything else gives false |
| PageProtection.MakeExecutable | Memoria/src/Nucleus/memoria_core_misc.cpp:217-244 | READONLY, READWRITE and NOACCESS become EXECUTE_READ, EXECUTE_READWRITE and EXECUTE; anything else gives false |
| PageProtection.RemoveWritable | Memoria/src/Nucleus/memoria_core_misc.cpp:246-269 | READWRITE becomes READONLY and EXECUTE_READWRITE becomes EXECUTE_READ; anything else gives false |
| PageProtection.RemoveReadable | Memoria/src/Nucleus/memoria_core_misc.cpp:271-301 | READONLY and READWRITE become NOACCESS; EXECUTE_READ and EXECUTE_READWRITE become EXECUTE; anything else gives false |
| PageProtection.RemoveExecutable | Memoria/src/Nucleus/memoria_core_misc.cpp:303-330 | EXECUTE, EXECUTE_READ and EXECUTE_READWRITE become NOACCESS, READONLY and READWRITE; anything else gives false |
| PageProtection.TablesAsRights | Memoria/src/Nucleus/memoria_core_misc.cpp:159-330 | each table, read as access rights, adds or removes its one right. Adding write also adds read. Removing read also removes write |
| PageProtection.ExecutableInverse | Memoria/src/Nucleus/memoria_core_misc.cpp:217-244 | RemoveExecutable undoes MakeExecutable on READONLY, READWRITE and NOACCESS, and the reverse holds on the three executable protections |
| PageProtection.ReadableInverse | Memoria/src/Nucleus/memoria_core_misc.cpp:191-215 | RemoveReadable undoes MakeReadable on EXECUTE and NOACCESS; on READWRITE the pair does not round-trip |
| PageProtection.WritableInverse | Memoria/src/Nucleus/memoria_core_misc.cpp:159-189 | RemoveWritable undoes MakeWritable on EXECUTE_READ and READONLY but not on EXECUTE or NOACCESS, because those gain read as well |
| MemoryBlocks.BlockDiffProperties | Memoria/src/memoria_utils_string.cpp:40-52 | the byte difference is 0 exactly when the first n bytes are equal, and swapping the blocks negates it |
| MemoryBlocks.MemCompare | Memoria/src/memoria_utils_string.cpp:40-52 | the loop returns the difference of the first differing bytes, 0 if none differ |
| MemoryBlocks.MemCopy | Memoria/src/memoria_utils_string.cpp:54-65 | the forward byte copy writes only dest[0..n); without forward overlap it holds the original source; with forward overlap each byte repeats the source byte one period back |
| MemoryBlocks.MemMove | Memoria/src/memoria_utils_string.cpp:67-88 | dest[0..n) equals the original src[0..n) even when the ranges overlap; nothing else changes |
| MemoryBlocks.MemFill | Memoria/src/memoria_utils_string.cpp:90-101 | dest[0..n) holds the value truncated to a byte; nothing else changes |
| Strings.CLen | Memoria/src/memoria_utils_string.cpp:836-848 | the index of the first NUL |
| Strings.NLen | Memoria/src/memoria_utils_string.cpp:115-128 | the number of non-NUL units before the first NUL or the bound, whichever comes first |
| Strings.NLenOfTerminated | Memoria/src/memoria_utils_string.cpp:115-128 | for a terminated string the bounded length is min(bound, string length) |
| Strings.StrLen | Memoria/src/memoria_utils_string.cpp:836-848 | the loop finds the first NUL; all units before it are non-NUL |
| Strings.SignedChar | Memoria/src/memoria_utils_string.cpp:9-38 | a byte read as a signed char lies in [-128, 128) and is the byte or the byte - 256 |
| Strings.FindChar | Memoria/src/memoria_utils_string.cpp:9-23 | the first position whose signed char equals ch, or the terminator when ch is 0; none exactly when ch is non-zero and absent |
| Strings.FindLastChar | Memoria/src/memoria_utils_string.cpp:25-38 | the last position before the terminator whose signed char equals ch; none exactly when no such position exists |
| Strings.Fold | Memoria/src/memoria_utils_string.cpp:155-217 | ASCII 'A'..'Z' map to lower case and every other unit is unchanged, so only NUL folds to NUL |
| Strings.StopWhereUptoDiffers | Memoria/src/memoria_utils_string.cpp:130-217 | the comparison loops stop at a common end exactly when the (folded) strings up to the bound are equal |
| Strings.StrDiffZero | Memoria/src/memoria_utils_string.cpp:130-138 | StrComp gives 0 exactly when the strings are equal |
| Strings.StrDiffAntisymmetric | Memoria/src/memoria_utils_string.cpp:130-138 | swapping the arguments negates the comparison |
| Strings.StrComp | Memoria/src/memoria_utils_string.cpp:130-138 | the loop computes the unit difference at the first mismatch or shared end |
| Strings.StrLDiffZero | Memoria/src/memoria_utils_string.cpp:140-153 | the bounded comparison gives 0 exactly when the strings agree up to count units |
| Strings.StrLComp | Memoria/src/memoria_utils_string.cpp:140-153 | the loop computes the bounded difference |
| Strings.StrIDiffZero | Memoria/src/memoria_utils_string.cpp:155-169 | the case-insensitive comparison gives 0 exactly when the strings are equal after folding 'A'..'Z' |
| Strings.StrIComp | Memoria/src/memoria_utils_string.cpp:155-169 | the loop computes the difference of the folded units at the first mismatch |
| Strings.StrLIDiffZero | Memoria/src/memoria_utils_string.cpp:171-217 | the bounded case-insensitive comparison gives 0 exactly when the folded strings agree up to count units |
| Strings.StrLIComp | Memoria/src/memoria_utils_string.cpp:171-217 | the loop computes the bounded folded difference |
| StringCopy.StrCopy | Memoria/src/memoria_utils_string.cpp:103-113 | dest starts with the source string and its NUL; the rest of dest is unchanged |
| StringCopy.StrCopyResult | Memoria/src/memoria_utils_string.cpp:103-113 | after StrCopy, dest reads as the source string |
| StringCopy.StrNCopy | Memoria/src/memoria_utils_string.cpp:115-128 | dest starts with min(maxLen, strlen(src)) source units and a NUL |
| StringCopy.StrNCopyResult | Memoria/src/memoria_utils_string.cpp:115-128 | after StrNCopy, dest reads as the source cut to min(maxLen, strlen(src)) |
| StringCopy.CopySafeAsWritten | Memoria/src/memoria_utils_string.cpp:246-261 | the safe copy as written, writing from the start of dest |
| StringCopy.CopySafeWritesIntoEmptyBuffer | Memoria/src/memoria_utils_string.cpp:246-261 | with destSize 0 and an empty source, the code as written stores a NUL in a zero-sized buffer |
| StringCopy.CopySafe | Memoria/src/memoria_utils_string.cpp:246-261 | writes at most destSize units; returns 0 exactly when the source is shorter than destSize, with a terminated copy; otherwise returns 1 after copying destSize - 1 units and no NUL |
| StringCopy.CopySafeAgrees | Memoria/src/memoria_utils_string.cpp:246-261 | for every destSize >= 1 the corrected copy and the code as written agree |
| StringCopy.StrCopySafe | Memoria/src/memoria_utils_string.cpp:246-278 | the loop returns the corrected CopySafe's code and writes exactly what it specifies; for destSize 0 it writes nothing and returns 1 (see Findings) |
| StringCopy.StrCopySafeResult | Memoria/src/memoria_utils_string.cpp:246-278 | on code 0 the source fits and dest reads as the source string |
| StringCopy.NCopySafe | Memoria/src/memoria_utils_string.cpp:280-295 | writes at most destSize units; returns 1 exactly when destSize is 0 |
| StringCopy.StrNCopySafe | Memoria/src/memoria_utils_string.cpp:280-312 | the loop returns NCopySafe's code and writes what it specifies |
| StringCopy.StrNCopySafeResult | Memoria/src/memoria_utils_string.cpp:280-312 | for destSize >= 1, dest reads as the source cut to min(maxLen, destSize - 1, strlen(src)), and it fits in destSize |
| StringCopy.StrCat | Memoria/src/memoria_utils_string.cpp:314-342 | the source string and a NUL are written at dest's old terminator; nothing else changes |
| StringCopy.StrCatResult | Memoria/src/memoria_utils_string.cpp:314-342 | after StrCat, dest reads as the old dest followed by the source |
| StringCopy.StrNCat | Memoria/src/memoria_utils_string.cpp:344-378 | at most count source units and a NUL are written at dest's old terminator |
| StringCopy.StrNCatResult | Memoria/src/memoria_utils_string.cpp:344-378 | after StrNCat, dest reads as the old dest followed by the source cut to count |
| StringCopy.CatSafeAsWritten | Memoria/src/memoria_utils_string.cpp:380-402 | the checked concatenation as written returns 1 exactly when dest has no NUL within destSize, and then writes nothing; otherwise it writes, at dest's terminator, the source cut to the room left (destSize - strlen(dest) - 1, capped by count) and a NUL |
| StringCopy.CatSafeTruncationUnreported | Memoria/src/memoria_utils_string.cpp:397 | appending "ab" to an empty 2-unit buffer is cut to "a" and the code as written returns 0; the corrected function returns 1 |
| StringCopy.CatSafe | Memoria/src/memoria_utils_string.cpp:380-474 | corrected: returns 1 exactly when dest has no NUL within destSize or the source (up to count) is longer than the room left; writes what the code as written writes, within destSize |
| StringCopy.CutShort | Memoria/src/memoria_utils_string.cpp:388-401 | the copy loop stopped on a non-NUL source unit before count exactly when the source up to count is longer than the room |
| StringCopy.CatSafeAgrees | Memoria/src/memoria_utils_string.cpp:380-474 | the corrected and as-written versions write the same units; they differ only in reporting 1 where the code as written reports 0 |
| StringCopy.CatSafeResult | Memoria/src/memoria_utils_string.cpp:380-474 | on code 0, dest reads as the old dest followed by the whole source up to count, terminated within destSize |
| StringCopy.BoundedLength | Memoria/src/memoria_utils_string.cpp:382-385 | the first loop of the checked concatenation computes the bounded length of dest |
| StringCopy.CatSafeLoop | Memoria/src/memoria_utils_string.cpp:380-474 | the loops shared by the checked concatenations write what CatSafe specifies and return the corrected CatSafe's code, 1 for a cut-short source (see Findings) |
| StringCopy.StrCatSafe | Memoria/src/memoria_utils_string.cpp:380-426 | as CatSafeLoop, with no count limit: the corrected code |
| StringCopy.StrNCatSafe | Memoria/src/memoria_utils_string.cpp:428-474 | as CatSafeLoop, with count limiting the source: the corrected code |
| NumberText.DigitRoundTrip | Memoria/src/memoria_utils_string.cpp:519-680 | every digit character reads back as its digit |
| NumberText.WordOfCharConst | Memoria/src/memoria_utils_string.cpp:571-575 | a four-character constant stored as a little-endian 32-bit word lays out its characters last-first |
| NumberText.PutWord | Memoria/src/memoria_utils_string.cpp:571-575 | storing a four-character constant writes its characters in reverse order and nothing else |
| NumberText.HexDigits | Memoria/src/memoria_utils_string.cpp:568-592 | the table built from the constants holds the 16 hex digits in order, then a NUL |
| NumberText.LastDigit | Memoria/src/memoria_utils_string.cpp:519-680 | the digit text ends in the remainder's digit, and the rest is the text of the quotient |
| NumberText.DigitsValue | Memoria/src/memoria_utils_string.cpp:519-680 | the digit text reads back as the number |
| NumberText.DigitsCanonical | Memoria/src/memoria_utils_string.cpp:519-680 | the text is made only of digits and has no leading zero except "0" for zero |
| NumberText.DigitsUnique | Memoria/src/memoria_utils_string.cpp:519-680 | every canonical digit string is the text of its own value, so the text is the shortest |
| NumberText.DigitsLength | Memoria/src/memoria_utils_string.cpp:519-680 | a number below base^k takes at most k digits |
| NumberText.PowerBounds | Memoria/src/memoria_utils_string.cpp:519-680 | 10 decimal digits cover 32 bits and 20 cover 64; 8 hex digits cover 32 bits and 16 cover 64 |
| NumberText.TextEnds | Memoria/src/memoria_utils_string.cpp:519-547 | the signed text is the digit text, preceded by '-' when negative |
| NumberText.SignedTextValue | Memoria/src/memoria_utils_string.cpp:519-547 | the signed decimal text reads back as the value |
| NumberText.ReversedDigits | Memoria/src/memoria_utils_string.cpp:519-680 | the divide loop leaves the digit text reversed in temp and counts its digits |
| NumberText.CopyBack | Memoria/src/memoria_utils_string.cpp:519-680 | the reversal loop writes the text and a NUL at the start of the buffer and returns its length |
| NumberText.Format | Memoria/src/memoria_utils_string.cpp:519-680 | both loops together write the number's text and a NUL and return its length |
| NumberText.IntToStr | Memoria/src/memoria_utils_string.cpp:519-547 | writes the shortest signed decimal text of a 32-bit value, NUL-terminated, and returns its length |
| NumberText.UIntToStr | Memoria/src/memoria_utils_string.cpp:549-566 | writes the shortest decimal text of a 32-bit value and returns its length |
| NumberText.UIntToHex | Memoria/src/memoria_utils_string.cpp:568-592 | writes the shortest lower-case hex text of a 32-bit value and returns its length |
| NumberText.Int64ToStr | Memoria/src/memoria_utils_string.cpp:594-621 | writes the shortest signed decimal text of a 64-bit value and returns its length |
| NumberText.UInt64ToStr | Memoria/src/memoria_utils_string.cpp:623-639 | writes the shortest decimal text of a 64-bit value and returns its length |
| NumberText.UInt64ToHex | Memoria/src/memoria_utils_string.cpp:641-680 | writes the shortest hex text in the requested case and returns its length |
| Words.DecodeEncode | Memoria/src/memoria_core_read.cpp:11-128 | decoding the little-endian bytes of a value gives the value back |
| Words.EncodeDecode | Memoria/src/memoria_core_read.cpp:11-128 | encoding a decoded byte string gives the bytes back |
| Words.SignedRoundTrip | Memoria/src/memoria_core_read.cpp:68-128 | the signed and unsigned views of an n-byte value convert into each other without loss |
| CoreRead.ReadUnsigned | Memoria/src/memoria_core_read.cpp:11-66 | refused exactly when safe mode is on and the start address is not valid memory; otherwise the value below 256^n whose n little-endian bytes are the bytes read |
| CoreRead.ReadSigned | Memoria/src/memoria_core_read.cpp:68-128 | refused under the same condition; otherwise the value in [-2^(8n-1), 2^(8n-1)) whose two's-complement n bytes are the bytes read |
| CoreRead.ReadU8 | Memoria/src/memoria_core_read.cpp:11-20 | refused exactly when the safe-mode test fails; otherwise a value below 2^8 whose 1 little-endian bytes are the bytes at addr + offset |
| CoreRead.ReadU16 | Memoria/src/memoria_core_read.cpp:22-30 | refused exactly when the safe-mode test fails; otherwise a value below 2^16 whose 2 little-endian bytes are the bytes at addr + offset |
| CoreRead.ReadU24 | Memoria/src/memoria_core_read.cpp:32-45 | refused exactly when the safe-mode test fails; otherwise b0 + b1*2^8 + b2*2^16, below 2^24 |
| CoreRead.ReadU32 | Memoria/src/memoria_core_read.cpp:47-55 | refused exactly when the safe-mode test fails; otherwise a value below 2^32 whose 4 little-endian bytes are the bytes at addr + offset |
| CoreRead.ReadU64 | Memoria/src/memoria_core_read.cpp:57-66 | refused exactly when the safe-mode test fails; otherwise a value below 2^64 whose 8 little-endian bytes are the bytes at addr + offset |
| CoreRead.ReadI8 | Memoria/src/memoria_core_read.cpp:68-77 | refused exactly when the safe-mode test fails; otherwise a value in [-2^7, 2^7) whose two's-complement 1 bytes, little-endian, are the bytes at addr + offset |
| CoreRead.ReadI16 | Memoria/src/memoria_core_read.cpp:79-88 | refused exactly when the safe-mode test fails; otherwise a value in [-2^15, 2^15) whose two's-complement 2 bytes, little-endian, are the bytes at addr + offset |
| CoreRead.ReadI24 | Memoria/src/memoria_core_read.cpp:90-106 | refused exactly when the safe-mode test fails |
| CoreRead.ReadI24Signed | Memoria/src/memoria_core_read.cpp:90-106 | the 24-bit signed read is the unsigned one when bit 23 is clear, and that minus 2^24 otherwise; it lies in [-2^23, 2^23) |
| CoreRead.ReadI32 | Memoria/src/memoria_core_read.cpp:108-117 | refused exactly when the safe-mode test fails; otherwise a value in [-2^31, 2^31) whose two's-complement 4 bytes, little-endian, are the bytes at addr + offset |
| CoreRead.ReadI64 | Memoria/src/memoria_core_read.cpp:119-128 | refused exactly when the safe-mode test fails; otherwise a value in [-2^63, 2^63) whose two's-complement 8 bytes, little-endian, are the bytes at addr + offset |
| CoreRead.ReadUnsignedAfterStore | Memoria/src/memoria_core_read.cpp:11-66 | reading back a value just stored little-endian returns it |
| CoreRead.ReadSignedAfterStore | Memoria/src/memoria_core_read.cpp:68-128 | reading back a signed value just stored in two's complement returns it |
| CoreRead.CheckCoversFirstByteOnly | Memoria/src/memoria_core_read.cpp:24 | a 2-byte read whose first byte is valid passes the safe-mode test although its second byte is unmapped |
| CoreRead.UnsafeReadsSucceed | Memoria/src/memoria_core_read.cpp:11-128 | with safe mode off every read of mapped memory returns a value |
| CoreRead.ReadAStr | Memoria/src/memoria_core_read.cpp:152-166 | true exactly when out is non-null, max_size > 0 and the safe-mode test passes; on false nothing is written; on true out receives the safe bounded copy of the string at addr + offset |
| CoreRead.ReadWStr | Memoria/src/memoria_core_read.cpp:168-182 | as ReadAStr over 16-bit units |
| CoreRead.ReadStrResult | Memoria/src/memoria_core_read.cpp:152-182 | after a successful read, out holds the string cut to max_size - 1 units, NUL-terminated |
| CoreRead.GetMemoryBlock | Memoria/src/memoria_core_read.cpp:184-191 | true exactly when source and dest are non-null; then dest[0..size) holds the source bytes and the rest is unchanged; on false dest is unchanged |
| CoreRead.GetMemoryData | Memoria/src/memoria_core_read.cpp:203-211 | exactly size bytes: the source's bytes, or zeros for a null source |
| PeImage.FirstSpec | Memoria/src/Nucleus/memoria_core_windows.cpp:40-159 | the shared linear search returns the first matching index, and nothing exactly when no index matches |
| PeImage.FindFirst | Memoria/src/Nucleus/memoria_core_windows.cpp:54-66 | the section loop computes that first match |
| PeImage.EnumCountSpec | Memoria/src/Nucleus/memoria_core_windows.cpp:15-38 | the callback is called on sections in table order, at most NumberOfSections times; every call before the last was accepted and the run stops right after the first refusal |
| PeImage.EnumSections | Memoria/src/Nucleus/memoria_core_windows.cpp:15-38 | no calls without a callback or an image; otherwise the calls are exactly that prefix of the section table |
| PeImage.SectionByIndexSpec | Memoria/src/Nucleus/memoria_core_windows.cpp:40-67 | nothing for a directory index >= 16; otherwise the first section whose VirtualAddress equals the directory's, and nothing exactly when none does |
| PeImage.GetSectionByIndex | Memoria/src/Nucleus/memoria_core_windows.cpp:40-67 | the loop computes SectionByIndex |
| PeImage.FlagsMatchModes | Memoria/src/Nucleus/memoria_core_windows.cpp:84-102 | an exact match on non-zero flags is also a shared-bit match, and flags 0 never share a bit |
| PeImage.SectionByFlagsSpec | Memoria/src/Nucleus/memoria_core_windows.cpp:69-103 | the first section whose characteristics match (equal in exact mode, sharing a bit otherwise), and nothing exactly when none does |
| PeImage.GetSectionByFlags | Memoria/src/Nucleus/memoria_core_windows.cpp:69-103 | the loop computes SectionByFlags, and exact mode is the default |
| PeImage.HeaderBytes | Memoria/src/Nucleus/memoria_core_windows.cpp:110-131 | a 40-byte header image whose first 8 bytes are the name, followed by VirtualSize |
| PeImage.NameMatchPrefix | Memoria/src/Nucleus/memoria_core_windows.cpp:110-131 | a section matches exactly when the strlen(name) bytes at its header equal the name |
| PeImage.ShortNameMatch | Memoria/src/Nucleus/memoria_core_windows.cpp:110-131 | for names of at most 8 characters, matching is a prefix test on the section's Name |
| PeImage.LongNameReadsVirtualSize | Memoria/src/Nucleus/memoria_core_windows.cpp:110-131 | a 9-character name is compared into VirtualSize: it matches a section with a full 8-byte Name exactly when its ninth character equals VirtualSize's low byte |
| PeImage.SectionByNameSpec | Memoria/src/Nucleus/memoria_core_windows.cpp:105-132 | nothing for an empty name; otherwise the first section that matches by prefix, and nothing exactly when none does |
| PeImage.GetSectionByName | Memoria/src/Nucleus/memoria_core_windows.cpp:105-132 | the loop computes SectionByName, nothing for a null name |
| PeImage.BoundsSpan | Memoria/src/Nucleus/memoria_core_windows.cpp:169-172 | the bounds start at base + VirtualAddress and the second element is the last byte, VirtualSize bytes later |
| PeImage.GetSectionBounds | Memoria/src/Nucleus/memoria_core_windows.cpp:161-173 | (0, 0) when the handle resolves to nothing; otherwise the section's bounds under that base |
| PeImage.GetSectionBoundsOf | Memoria/src/Nucleus/memoria_core_windows.cpp:175-186 | the same, with the base of the module that owns the section |
| PeImage.EntrySectionSpec | Memoria/src/Nucleus/memoria_core_windows.cpp:134-159 | the first section with start <= entry < last byte, nothing exactly when none; an entry point at a section's last byte never selects it |
| PeImage.GetEntrySection | Memoria/src/Nucleus/memoria_core_windows.cpp:134-159 | the loop computes EntrySection |
| PeImage.GetImageBase | Memoria/src/Nucleus/memoria_core_windows.cpp:188-207 | 0 unless the image has the MZ and PE signatures; otherwise its ImageBase |
| PeImage.GetImageBaseByName | Memoria/src/Nucleus/memoria_core_windows.cpp:209-222 | 0 when the name resolves to no module; otherwise GetImageBase of that module |
| PeImage.GetModuleVersion | Memoria/src/Nucleus/memoria_core_windows.cpp:224-245 | (0, 0) unless both signatures are present; otherwise the major and minor OS version |
| PeImage.GetModuleVersionByName | Memoria/src/Nucleus/memoria_core_windows.cpp:247-260 | (0, 0) when the name resolves to no module; otherwise GetModuleVersion of that module |
| PeImage.BaseAndVersionAgree | Memoria/src/Nucleus/memoria_core_windows.cpp:188-245 | a non-zero image base or version implies a resolved, signed image |
| PeImage.GetModuleSize | Memoria/src/Nucleus/memoria_core_windows.cpp:262-271 | SizeOfImage of the resolved image |
| MemoryModule.LastByte | Memoria/src/Nucleus/memoria_ext_module.cpp:37-40 | base for size 0; otherwise, for a block below 2^64, the address size - 1 bytes above base |
| MemoryModule.MemoryBlock.GetLastByte | Memoria/src/Nucleus/memoria_ext_module.cpp:37-40 | the block's base when its size is 0; otherwise, when the block stays below 2^64, the address of its size-th byte |
| MemoryModule.LastByteSpan | Memoria/src/Nucleus/memoria_ext_module.cpp:37-40 | base for size 0; otherwise the last byte of a block of size bytes, which wraps below base when the block passes 2^64 |
| MemoryModule.InstalledSpec | Memoria/src/Nucleus/memoria_ext_module.cpp:78-93 | only non-null patches are kept, in reference order; all are kept exactly when every patch succeeds |
| MemoryModule.HookCountIncludesFailedPatches | Memoria/src/Nucleus/memoria_ext_module.cpp:87-93 | a reference whose patch fails adds nothing to the patch list but still counts |
| MemoryModule.MemoryBlock.constructor | Memoria/src/Nucleus/memoria_ext_module.cpp:14-20 | the block has the given address and size and no patches |
| MemoryModule.MemoryBlock.HookRefAddr | Memoria/src/Nucleus/memoria_ext_module.cpp:74-94 | scans [base, last byte] with absolute and relative matching and no early stop; appends the successful patches in order and returns the number of references |
| MemoryModule.MemoryBlock.HookRefCall | Memoria/src/Nucleus/memoria_ext_module.cpp:96-99 | HookRefAddr with opcode 0xE8 |
| MemoryModule.MemoryBlock.HookRefJump | Memoria/src/Nucleus/memoria_ext_module.cpp:101-104 | HookRefAddr with opcode 0xE9 |
| MemoryModule.MemoryBlock.Sig | Memoria/src/Nucleus/memoria_ext_module.cpp:106-113 | exactly one callback, on the search over [base, last byte] |
| MemoryModule.MemoryBlock.SigText | Memoria/src/Nucleus/memoria_ext_module.cpp:115-119 | exactly one callback, on the search for the parsed text |
| MemoryModule.MemoryBlock.SigBare | Memoria/src/Nucleus/memoria_ext_module.cpp:121-127 | exactly one callback, over the block's range with no match |
| MemoryModule.CreateBlockFromAddress | Memoria/src/Nucleus/memoria_ext_module.cpp:68-71 | a fresh block with the given address and size and no patches |
| MemoryModule.DirectoryIndexBijective | Memoria/src/Nucleus/memoria_ext_module.cpp:129-192 | Export..CLR map to directories 0..14 and Reserved to 15, one to one; only an unknown kind has no directory |
| MemoryModule.SectionInfoSpec | Memoria/src/Nucleus/memoria_ext_module.cpp:129-192 | (0, 0) for an unknown kind or no image, or when no section sits at the directory's address; a non-empty result is (handle + VirtualAddress, VirtualSize) of such a section |
| MemoryModule.UnloadedModuleSeesMainExecutable | Memoria/src/Nucleus/memoria_ext_module.cpp:129-192 | a module with a null handle finds the main executable's section, at its relative address |
| MemoryModule.EmptySectionRangeInverted | Memoria/src/Nucleus/memoria_ext_module.cpp:213-225 | a section of size 0 yields a search range whose end lies before its start |
| MemoryModule.Module.Unloaded | Memoria/src/Nucleus/memoria_ext_module.cpp:42 | a module with null address, size 0 and no patches |
| MemoryModule.Module.ByName | Memoria/src/Nucleus/memoria_ext_module.cpp:42-53 | unloaded for an empty or unknown name; otherwise the module's handle with the given size |
| MemoryModule.Module.ByHandle | Memoria/src/Nucleus/memoria_ext_module.cpp:55-61 | the given handle and size, with no patches |
| MemoryModule.Module.IsLoaded | Memoria/src/Nucleus/memoria_ext_module.cpp:63-66 | the module is loaded exactly when its handle is non-null: never for Unloaded, for ByName exactly when the name is non-empty and resolves, for ByHandle exactly when the handle is non-null |
| MemoryModule.Module.GetSectionInfo | Memoria/src/Nucleus/memoria_ext_module.cpp:129-192 | the switch computes SectionInfo for the module's handle |
| MemoryModule.Module.GetSection | Memoria/src/Nucleus/memoria_ext_module.cpp:194-201 | null when the section is absent; otherwise a fresh block over exactly that section |
| MemoryModule.Module.GetEntrySection | Memoria/src/Nucleus/memoria_ext_module.cpp:203-211 | null when no section holds the entry point; otherwise a fresh block over that section |
| MemoryModule.Module.SigSec | Memoria/src/Nucleus/memoria_ext_module.cpp:213-231 | false with no callback when the section is absent; otherwise true with exactly one callback on the search over the section's range |
| MemoryModule.Module.SigSecBare | Memoria/src/Nucleus/memoria_ext_module.cpp:233-243 | false with no callback when the section is absent; otherwise true with one callback over the section's range |
| MemoryModule.LibraryModuleAsWritten | Memoria/src/Nucleus/memoria_ext_module.cpp:245-261 | the factory as written, which rebuilds the module through the name constructor |
| MemoryModule.EmptyLibraryNameGivesUnloadedModule | Memoria/src/Nucleus/memoria_ext_module.cpp:247-260 | for the empty name the code as written resolves the main executable but returns an unloaded module; the corrected factory returns the main executable |
| MemoryModule.LibraryModuleSpec | Memoria/src/Nucleus/memoria_ext_module.cpp:245-261 | a module exactly when the handle resolves; it is loaded at that handle, with the given size or SizeOfImage when 0; it agrees with the code as written on every non-empty name |
| MemoryModule.CreateFromLibrary | Memoria/src/Nucleus/memoria_ext_module.cpp:245-261 | null when the name resolves to nothing; otherwise a fresh module with the corrected factory's fields, so the empty name gives the loaded main executable (see Findings) |
| MemoryModule.CreateFromHandle | Memoria/src/Nucleus/memoria_ext_module.cpp:263-275 | the main executable for a null handle; null when nothing resolves; otherwise a loaded module at the handle, with the given size or SizeOfImage when 0 |
| MemoryModule.CreateFromAddress | Memoria/src/Nucleus/memoria_ext_module.cpp:277-280 | a module at the given address and size, with no validation |
| MemoryModule.CreateFromMain | Memoria/src/Nucleus/memoria_ext_module.cpp:282-285 | the main executable with its SizeOfImage, or null when there is none |

## Left out

- Windows calls are not modelled; their results are parameters or parts of `Process`/`Memory`. This covers `VirtualQuery`, `VirtualProtect`, `VirtualAlloc`, `VirtualFree`, `GetModuleHandle*` and `GetModuleFileNameA`.
- `IsMemoryValid` and `IsMemoryExecutable` are predicates over the modelled page protections, not calls into `VirtualQuery`.
- `AllocNear`/`AllocFar` and the `AllocatedChunks` list are left out, because their outcome depends entirely on `VirtualAlloc`.
- `BeginThread` is left out, because it is concurrency.
- `GetModuleHandleDirect`/`GetProcAddressDirect` are left out. They walk live loader structures and hash names with an `FNV1a` that is not part of this model.
- `GetInterfaceAddress` is left out as a foreign call. Its test at memoria_core_misc.cpp line 744 is always true.
- `BeautifyPointer` is left out; it is `snprintf` formatting over OS lookups.
- Floating point is left out: `DoubleToStr`, `LongDoubleToStr`, `IsNan`, `IsInf`, `ReadFloat` and `ReadDouble`.
- The assertion dialog (memoria_utils_assert.cpp) and the amalgamation header are left out; they have no logic to state.
- The `string_view` overloads declared in memoria_core_windows.hpp (lines 45, 93 and 111, the last being `GetModuleVersion(name)`) differ from the `const char*` definitions. The model follows the definitions.
- The signature parser and scanner are not modelled beyond their use. `FindReferences`, the patch objects (apply, revert) and `CSigHandle` are not part of this model either: they are abstract collaborators (`Patcher` fields and function parameters).
- `GetMemorySpan` (memoria_core_read.cpp lines 193-201) only wraps a pointer and size in a span; it is not modelled.
- `GetName`, `GetBase` and `GetSize` are plain field reads and are not modelled as members.
- The global last error is not modelled as a global. Each reader returns `Invalid` exactly when it would set `ME_INVALID_MEMORY`.
- Sources of the string routines are sequences, a read-only snapshot. Aliasing between a string source and its destination array is therefore not modelled; `MemCopy`/`MemMove` do model overlap within one array.
- The integer formatters and the unbounded string copies require a destination large enough for the result, because the source writes without a bound.
- `IntToStr` requires the value not to be INT_MIN. The source negates it, which overflows.
- NumberText.Int64ToStr: requires the value not to be LLONG_MIN, for the same reason: the negation at memoria_utils_string.cpp lines 599-602 overflows.
- Multi-byte reads require the range not to cross 2^64, because such a range is never mapped.
- PeImage.GetModuleSize: requires the handle to resolve to a loaded image, as the source reads the header without a null check.
- `MemoryModule.MemoryBlock.HookRefAddr` returns the number of references found, as the code does, not the number of sites patched.
- The debug `assert` in the handle constructor is not a precondition; release builds accept any handle.
- `GetSectionBounds(section)` takes the base of the module that owns the section. The model passes that base in as `owner`, and `GetEntrySection`/`EntryIn` take the resolved handle as that owner, where the source asks the loader for the owning module of each section header (memoria_core_windows.cpp lines 150 and 179).
- `GetEntrySection` is modelled as written: its half-open test against the last byte misses an entry point on a section's final byte (`EntrySectionSpec`).

- StringCopy.StrCopySafe: implements the corrected copy of the first Findings row. For destSize 0 it writes nothing and returns 1, where the code as written stores a NUL when the source is empty.
- StringCopy.CatSafeLoop: implements the corrected concatenation of the second Findings row. It returns 1 for a cut-short source, where the code as written returns 0; the units written are the same.
- StringCopy.StrCatSafe: implements the corrected code, as CatSafeLoop does.
- StringCopy.StrNCatSafe: implements the corrected code, as CatSafeLoop does.
- MemoryModule.CreateFromLibrary: implements the corrected factory of the third Findings row. For the empty name it returns the loaded main executable, where the code as written returns an unloaded module.

## Findings

| source | as written | input that shows it | evidently intended | confidence | as-written member | corrected member |
|---|---|---|---|---|---|---|
| Memoria/src/memoria_utils_string.cpp:246-261 | with a destination size of 0, the loop does not run and the NUL store at `lpDest[i]` still happens when the source is empty | destSize 0, source "" | a zero-sized destination receives nothing and the call returns 1 | not executed | StringCopy.CopySafeWritesIntoEmptyBuffer | StringCopy.CopySafe |
| Memoria/src/memoria_utils_string.cpp:397 | after the copy loop `destLen + i` is always below the destination size, so the truncation test never fires and a cut-short source returns 0 (same at 421, 445 and 469) | empty destination of 2 units, source "ab": "a" is written and 0 returned | return 1 when the source did not fit | not executed | StringCopy.CatSafeTruncationUnreported | StringCopy.CatSafe |
| Memoria/src/Nucleus/memoria_ext_module.cpp:245-261 | for an empty name the factory resolves the main executable, then builds the module through the name constructor, which returns early on an empty name | `CreateFromLibrary("")` with a main executable present | a module loaded at the main executable's handle | not executed | MemoryModule.EmptyLibraryNameGivesUnloadedModule | MemoryModule.LibraryModuleSpec |
