# Model of an x86 assembler and of the symbol and register layer of a C compiler

The project models the algorithmic core of an assembler (`sdk/as`) and parts of a C
compiler (`sdk/cc`), one group of modules for each source file:

- **Floating-point constants** (`Limbs`, `FloatMultiply`, `FloatShift`, `FloatRound`,
  `FloatDigits`, `FloatParse`, `FloatPowers`, `FloatConvert`, `FloatPack`, `FloatConst`,
  `FloatNearest`, `FloatNumeral`).
  A decimal constant is scanned into digits, doubled into bits, multiplied by a power of
  five by repeated squaring, shifted, rounded and packed into an IEEE format. The model
  bounds the error of the conversion, and says for every mantissa and exponent exactly when
  the bytes decode to the correctly rounded value, and when they are the nearest value to
  the constant as written, figures, period and exponent. `Powers` and `RealPowers` hold the arithmetic, `Base` what
  several modules share.
- **Instruction encoding** (`Operands`, `EffectiveAddress`, `AddressSize`, `ByteCode`, `CodeSize`,
  `CodeGen`, `Instruction`, `CodeLength`, `Machine`, `CodeMeaning`, `RexMeaning`, `Assemble`).
  Two passes interpret one bytecode: calcsize predicts a length, gencode emits bytes. The
  model says exactly when they agree. `Machine` is what the processor makes of bytes, from
  its manual; `CodeMeaning` and `RexMeaning` show that the bytes emitted, wherever the linker
  puts the segments, lead jumps to their targets, hold the immediates, form the operand's
  address, test the condition named and select the registers named.
- **Containers**: `RedBlackTree` (left-leaning tree with floor search), `HashTable`
  (double hashing with growth), `Saa` (blocked byte array with two cursors), `RadixArray`
  (sparse array; file `Raa.dfy`). Each in-place structure is tied to a mathematical object.
- **Codecs**: `Quote` (string quoting, and unquoting in place), `QuoteEscapes` (what every
  escape stands for), `StrFunc` (UTF-8 to UTF-16
  and UTF-32).
- **Expressions**: `ReadNumber` (numeric constants with exact overflow detection),
  `ExprVectors` (relocatable expression vectors).
- **C compiler**: `AsmConstraints` (register assignment for inline assembly), `Symbols`
  (scoped symbol chains).

Code that changes arrays, fields or pointers in place is a method with loops over arrays or
class fields; its contract ties the new state to a specification function of the old one,
and the lemmas are about these functions.

## Findings

Properties that the code has only in part are stated with their exact condition:

- `ieee_shr` drops the bits it shifts out, so a tie can be misjudged afterwards
  (`FloatConst.PackedIsNearest`; `FloatConst.LostTieExists` gives a mantissa for every
  format, no claim is made that some decimal constant converts to it). An exponent equal to
  expmax passes the range test of the normal path (`FloatConst.TopExponentWrong`). A shift
  by zero clears the first limb (`FloatShift.ShiftRightIsDivision`), which concerns the
  function alone: to_float never shifts by zero. The directed rounding modes add the half
  bit where they should add a unit (`FloatRound.RoundDirected`).
- calcsize counts an operand-size prefix for each code that asks for one and four bytes for
  a wide immediate, gencode emits one prefix and two bytes; and calcsize counts one REX or
  VEX prefix where gencode emits one for every code at which flags are pending.
  `CodeLength.LengthsAgree` is the exact condition, `CodeLength.MaskedWidthDisagrees` an
  instance. These are strings of the bytecode language: in `sdk/as/insnsb.c` no template has
  two 0320 or 0321 codes, none has both 0323 and 0324, none has 0324 behind a code that
  emits REX or in a VEX template, and none has 0313 beside a VEX code.
- The short jump in front of a longer one clears it only where the longer one has the size
  of the mode (`CodeMeaning.OverJumpLands`).
- Prefixes that are refused with an error are counted (`Assemble.PrefixesAgree`).
- The 32-bit string converter has no upper limit (`StrFunc.WideAcceptsMore`).
- as_skip_string runs one place past the end of an unterminated backquoted string
  (`Quote.SkipAgrees`).
- An inline-assembly input tied to another tied input is left without a register
  (`AsmConstraints.TiesHold` in `AsmConstraints.AllocationSafe`; `AsmConstraints.TieOfTie`
  shows it for three operands).
- A far segment that is kept in a sum can come before the scalar part, where the
  classification no longer finds it (`ExprVectors.SumExact`, `ExprVectors.ScalarLost`).
- Tearing down the global symbols leaves a freed symbol in the table where a global was
  appended behind another of the same identifier (`Symbols.ClearedWhenLast`).

The comments at `sdk/as/assemble.c:100` and `:101` give F2 as the byte of REP and F3 as that of
REPNE; the code, like the processor, has it the other way round, and this is what is modelled.

A documented limit: a number marked twice with the same radix is refused
(`ReadNumber.EqualMarksRefused`; the comment at `sdk/as/aslib.c:354` announces it).

## Model

| member | source | states |
|---|---|---|
| FloatMultiply.FloatMultiply | sdk/as/float.c:72-115 | after the call the target holds the top half of the exact double-length product, shifted one bit when its top bit is clear, and the result is 0 or -1 accordingly; both arguments may be the same array, and no 64-bit accumulator overflows |
| FloatMultiply.MultiplyRows | sdk/as/float.c:83-92 | the accumulator holds the exact product before the carries are moved, each word bounded by the number of rows added to it |
| FloatMultiply.PropagateCarries | sdk/as/float.c:94-97 | moving carries towards the front leaves the number alone and every word but the first below 2^32 |
| FloatMultiply.FirstLimbFits | sdk/as/float.c:94-97 | the first word is below 2^32 too, so the accumulator is an ordinary limb number |
| FloatMultiply.ShiftLeftOne | sdk/as/float.c:108-113 | a one-bit left shift across limbs loses nothing when the top bit is clear |
| FloatMultiply.NormalisedProduct | sdk/as/float.c:72-115 | for normalised factors one bit of shift is always enough: the result is normalised again and low by less than one unit in the last place, the exponent correction making up for the shift |
| FloatParse.ReadExponent | sdk/as/float.c:122-160 | accepts exactly a sign and digits with underscores, and returns the exponent as FloatNumeral.ExponentReads has it |
| FloatNumeral.ExponentReads | sdk/as/float.c:122-160 | for every e: its decimal figures with no sign, a plus or a minus, leading zeros and underscores anywhere behind the sign are read as e, and as 5000 or -5000 where e is larger in size |
| FloatNumeral.DigitsRead | sdk/as/float.c:182-221 | the figures of n with a period before the last f of them, leading zeros and underscores anywhere, are a valid significand of value n with f fraction digits |
| FloatNumeral.NumeralReads | sdk/as/float.c:167-240 | such a significand, e or E and such an exponent stand for n * 10^(e - f); without an exponent, for n * 10^-f |
| FloatNumeral.TakenAsDecimal | sdk/as/float.c:698-766 | to_float takes such a text as decimal as it stands, and without the prefix behind 0d, 0D, 0t and 0T |
| FloatNumeral.NotTaken | sdk/as/float.c:698-766 | packed decimals, special tokens and the prefixes of the other radixes are not taken as decimal |
| FloatNumeral.EnoughDigits | sdk/as/float.c:198-207 | up to 52 significant digits nothing of the constant is dropped |
| FloatParse.ScanSignificand | sdk/as/float.c:182-221 | accepts exactly the well-formed significands; the digit buffer holds the first 52 significant digits and the power of ten is that of 0.ddd |
| FloatParse.InvalidPrefix | sdk/as/float.c:182-221 | a prefix that is rejected cannot be completed to a numeral, so stopping early is right |
| FloatParse.KeptDigits | sdk/as/float.c:198-207 | the digits beyond the buffer are dropped by truncation |
| FloatDigits.DigitsToBits | sdk/as/float.c:249-290 | for every digit string the doubling loop ends, with the decimal fraction in [mant, mant + 1) units of the last place at the exponent counted, the remainder accounted for exactly and the top bit set unless the fraction is zero |
| FloatDigits.DigitStep | sdk/as/float.c:257-290 | one doubling keeps: bits so far plus remaining digits are exactly the fraction times the power of two reached |
| FloatDigits.DoubleStepped | sdk/as/float.c:257-290 | the measure for termination: a doubling without carry makes the remainder strictly grow below its bound |
| FloatDigits.TrimZeros | sdk/as/float.c:259-264 | dropping trailing zero digits keeps the fraction and empties the buffer only at zero |
| FloatPowers.MultiplyValue | sdk/as/float.c:72-115 | read as real numbers, one multiplication is below the exact product by at most the share 2^-(32n-1), never above it |
| FloatPowers.MultiplyByPower | sdk/as/float.c:328-350 | the repeated squaring yields mantissa times base to the power tenpwr, with at most tenpwr truncations in all: the k-th squaring carries 2^k - 1 of them |
| FloatPowers.TakePower | sdk/as/float.c:331-334 | multiplying by the current power keeps the loop state, adding its truncations and one |
| FloatPowers.SquarePower | sdk/as/float.c:336-337 | squaring the current power doubles its exponent and truncations and adds one |
| FloatConvert.KeptValueNear | sdk/as/float.c:182-231 | the number kept is the constant itself up to 52 significant digits, and below it by less than one unit of the last digit kept otherwise |
| FloatConvert.SetFifth | sdk/as/float.c:304-310 | the stored 0.2 is normalised and too large by exactly a factor 1 + 2^-(32n+2), because its last limb is rounded up |
| FloatConvert.IeeeFlconvert | sdk/as/float.c:167-360 | fails exactly on malformed constants; otherwise the mantissa is normalised (zero only for zero) and X * (1 - 2^-191)^(abs(t)+1) <= mant * 2^e <= X * excess^abs(t), where X is the kept number, t its power of ten and excess is 1 for t >= 0 |
| FloatConvert.NonNegativePowerBelow | sdk/as/float.c:304-350 | for a power of ten that is not negative the conversion never overshoots the constant as written |
| FloatRound.IeeeRound | sdk/as/float.c:420-458 | in every rounding mode the mantissa becomes Rounded of the old number, carries rippling through all limbs, and the result tells when the carry runs out of the top |
| FloatRound.AbsUp | sdk/as/float.c:410-418 | adds one half-bit weight to the cleared number, modulo the size of the mantissa |
| FloatRound.AbsDown | sdk/as/float.c:402-408 | clears everything below the half bit |
| FloatRound.DecisionMeaning | sdk/as/float.c:427-456 | the tests on single limbs and the sticky or decide the comparison of the whole remainder with half a unit, and the parity of the quotient |
| FloatRound.RoundNear | sdk/as/float.c:427-443 | under NEAR the top bits are the round-half-even quotient (section 4.3.1 of IEEE 754-2008), wrapping to zero when the carry passes the top |
| FloatRound.RoundTowardZero | sdk/as/float.c:444-446 | under ZERO the top bits are the truncated quotient |
| FloatRound.RoundDirected | sdk/as/float.c:447-456 | away from zero the top bits are right if and only if nothing is lost or the half bit is set: the code adds the half bit instead of a unit |
| FloatShift.IeeeShr | sdk/as/float.c:557-581 | for every shift that stays inside the array, one of whole limbs beyond the mantissa included, the mantissa becomes the old number divided by 2^i, save that a shift by zero also clears the first limb |
| FloatShift.ShiftRightIsDivision | sdk/as/float.c:557-581 | the shift is division by 2^i if and only if i > 0 or the first limb was zero |
| FloatPack.PackNormal | sdk/as/float.c:823-842 | the normal path leaves the exponent field and the round-half-even significand of the shifted mantissa, renormalised after a carry, or reports that the carry passed the largest exponent |
| FloatPack.PackDenormal | sdk/as/float.c:798-821 | the denormal path leaves the rounded significand under a zero field, or the smallest normal number when rounding reaches the integer bit |
| FloatPack.PackSpecial | sdk/as/float.c:844-857 | infinity and quiet NaN: a field of ones, the integer bit where it is explicit, and the quiet bit |
| FloatPack.QuietBit | sdk/as/float.c:844-857 | a quiet NaN has the first bit of its fraction set (section 6.2.1 of IEEE 754-2008), infinity has not, and both have the integer bit where there is one |
| FloatPack.CarryTest | sdk/as/float.c:828-828 | the bit tested for scaling up is set exactly when rounding carried into it |
| FloatPack.EmitBytes | sdk/as/float.c:862-863 | the bytes, least significant first, are the top bytes of the mantissa |
| FloatConst.PackFloat | sdk/as/float.c:774-866 | for every normalised mantissa and every exponent whose shift stays inside the array the bytes decode (section 3.4 of IEEE 754-2008) to the datum Packed |
| FloatConst.PackedIsNearest | sdk/as/float.c:774-842 | for every format, every mantissa and every exponent without bound, normal, denormal, underflowing or overflowing: the datum packed is the correctly rounded value if and only if no tie was decided after the first shift lost lower bits and, at the one exponent too many that the range test admits, the significand is a power of two |
| FloatConst.ExactShiftIsNearest | sdk/as/float.c:823-842 | when the low exponent-plus-integer bits of the mantissa are zero the normal path is correctly rounded, infinity included |
| FloatConst.LostTieExists | sdk/as/float.c:825-826 | every format has a mantissa whose tie is misjudged because ieee_shr drops the sticky bits |
| FloatConst.TopExponentWrong | sdk/as/float.c:774-775 | in every format the exponent equal to expmax passes the range test and gives a NaN where the nearest value is infinity |
| FloatConst.ToFloat | sdk/as/float.c:676-866 | a whole decimal constant, with or without a 0d or 0t prefix: NaN exactly for malformed text, signed zero for zero, else the bytes decode to Packed of a mantissa and exponent within the conversion error of IeeeFlconvert; it stops exactly where the source would read outside its array; FloatNumeral.NumeralReads says which number the text stands for |
| FloatPack.SourceFormats | sdk/as/float.c:609-614 | the six formats of the source are formats of the model |
| FloatNearest.NearestIsRounding | sdk/as/float.c:823-842 | the correctly rounded mantissa is the rounding, ties to even, of the real number it stands for |
| FloatNearest.CodeMonotone | sdk/as/float.c:823-842 | rounding to a format keeps the order of real numbers, across binades and the denormal range |
| FloatNearest.ConstantEnclosed | sdk/as/float.c:167-360 | the constant as written and the converted mantissa lie in one interval given by the kept digits and the number of truncations |
| FloatNearest.ConstantIsNearest | sdk/as/float.c:676-866 | where the two ends of that interval round to the same value and the packing is exact, the datum packed is the nearest value of the format to the constant as written |
| FloatNearest.OutcomeIsNearest | sdk/as/float.c:676-866 | the same for the outcome of to_float: zero is exact, every other constant is correctly rounded under that condition |
| FloatNumeral.WrittenIsNearest | sdk/as/float.c:676-866 | the text that writes n with f fraction digits and the exponent e is never malformed; where the conversion leaves one value, the bytes hold the nearest value of the format to n * 10^(e - f), and zero only for n = 0 |
| EffectiveAddress.ProcessEa | sdk/as/assemble.c:2168-2487 | reassigning base, index and scale step by step gives EaOf, the encoding that EffectiveAddress.AcceptedEncodes and RexMeaning decode, and the operand type left behind is the adjusted one |
| EffectiveAddress.ReorganisedSum | sdk/as/assemble.c:2289-2317 | the swaps, the hint and the splits of scales 2, 3, 5 and 9 keep base + scale * index for every content of the registers |
| EffectiveAddress.FullDecodes | sdk/as/assemble.c:2254-2395 | decoding ModRM, SIB and REX.X/B of a 32- or 64-bit operand (section 2.1.5 of the Intel SDM, Volume 2A) gives back base, index, scale and the number of displacement bytes, through the ESP/EBP and R12/R13 cases |
| EffectiveAddress.RegisterEncodes | sdk/as/assemble.c:2174-2193 | a register operand is encoded so that the processor decodes its number; which byte register that is says RexMeaning.OperandRegisterSelected |
| EffectiveAddress.AcceptedEncodes | sdk/as/assemble.c:2168-2487 | every operand that is accepted, in every mode and address size, decodes at the size it is encoded for to the same registers and the same sum, and the reported size is 1 + SIB + displacement; on 16-bit registers that size is 16 bits whatever process_ea is told |
| EffectiveAddress.AddressIsExact | sdk/as/assemble.c:2168-2487 | the address formed by the processor equals the operand, for all register contents, if and only if the displacement bytes hold the offset modulo the address size |
| EffectiveAddress.ChosenDisplacementFits | sdk/as/assemble.c:2322-2393 | without a forced byte the displacement chosen always fits, except that a 64-bit address cannot hold an offset outside 32 bits |
| EffectiveAddress.DisplacementChosen | sdk/as/assemble.c:2322-2393 | an offset that is relocatable, unknown or asked for as a word has all its displacement bytes unless a byte is forced; any other has the fewest bytes that hold it, save that BP, EBP and R13 need one |
| EffectiveAddress.AdjustedIsHarmless | sdk/as/assemble.c:2199-2204 | storing the adjusted type in the operand changes neither a second encoding nor what the passes test |
| AddressSize.AddAsp | sdk/as/assemble.c:2489-2579 | the address size, the prefix and the error are those of the sizes that the mode, an explicit prefix and all memory operands have in common; simple offsets of another size are stripped |
| AddressSize.CommonAre | sdk/as/assemble.c:2489-2552 | an address size is possible if and only if the mode has it, an explicit prefix leaves it and every memory operand, by its registers or the size of its plain offset, can be used with it |
| AddressSize.ChosenIs | sdk/as/assemble.c:2554-2565 | the size of the mode is chosen where it is possible, else the other one, and neither exactly where both are impossible |
| AddressSize.StaysSimple | sdk/as/assemble.c:2567-2578 | a plain offset stays one if its size, 16 or 32 bits by default, is the address size |
| Assemble.SizePrefixIs | sdk/as/assemble.c:2489-2565 | the prefix left in the slot makes the processor use the address size that was chosen |
| AddressSize.SizeIsAgreed | sdk/as/assemble.c:2489-2579 | where a size is found, every memory operand that process_ea accepts is encoded at just that size, operands on 16-bit registers included, and there are none of these in 64-bit mode |
| Instruction.Insn.CalcSize | sdk/as/assemble.c:753-1150 | the loop over the bytecode and the checks after it leave exactly the length, REX and VEX fields of the specification run, and fail exactly where it does |
| Instruction.Insn.CalcRules | sdk/as/assemble.c:1081-1149 | the checks after the loop (high registers, VEX, LOCK, REX outside 64-bit mode) accept, size and rewrite the flags as specified |
| Instruction.Insn.GenCode | sdk/as/assemble.c:1160-1869 | the emitting loop leaves exactly the output, offset and fields of the specification run, whose bytes mean what CodeMeaning.GeneratedSays says, and panics exactly where it does |
| Instruction.Insn.GenBody | sdk/as/assemble.c:1160-1869 | every code emits its specified bytes at the current offset and updates the flags as specified; CodeMeaning.BodySays is what these bytes mean |
| Instruction.Insn.EmitRex | sdk/as/assemble.c:1152-1158 | the REX byte is emitted once and its flags are consumed |
| CodeGen.RexDecodes | sdk/as/assemble.c:1152-1158 | the REX byte decodes to the W, R, X and B it was made from |
| CodeGen.VexDecodes | sdk/as/assemble.c:1513-1530 | the two- and the three-byte VEX prefix decode to the same fields they were made from, and the short form is taken only where it can stand for them |
| CodeMeaning.RoleIsKind | sdk/as/assemble.c:5-122 | both passes treat every code, from 0 to 377 octal and beyond, in the role that the table at the head of the file gives it by its digits |
| CodeMeaning.ArgumentsByRole | sdk/as/assemble.c:5-122 | the number of template bytes a code takes is that of its role |
| CodeMeaning.OperandNumbers | sdk/as/assemble.c:1177-1199 | a code names two operands by its digits, and 05, 06 and 07 in front of it add four to the first, the second or both |
| CodeMeaning.FieldsCarried | sdk/as/assemble.c:1569-1657 | between the codes only these change the fields: a REX prefix emitted and 0313 clear the flags, 0324 adds W, 0334 drops R, and 0320 and 0321 fill the operand-size slot |
| CodeMeaning.VexTaken | sdk/as/assemble.c:70-86 | a VEX code sets the two template bytes and the register number of its operand, zero for 0270, and no other code does |
| CodeMeaning.LittleEndianReads | sdk/as/assemble.c:242-264 | the bytes of a number, read least significant first, are the number modulo 256^n |
| CodeMeaning.JumpSays | sdk/as/assemble.c:1303-1371 | for every target and every placement of the segments by the linker: the displacement in memory, sign-extended, plus the end of the instruction is the target modulo 256^n, and exactly if the distance fits, in the same segment as in another |
| CodeMeaning.ImmediateSays | sdk/as/assemble.c:1266-1325 | an immediate in memory is the number of the operand plus the address of its segment, modulo 256^n |
| CodeMeaning.ShortIs | sdk/as/assemble.c:723-751 | an operand is given one byte if and only if it is a known plain number and some byte, sign-extended to the operand size, gives it back |
| CodeMeaning.ShortSays | sdk/as/assemble.c:1383-1421 | that byte, sign-extended, is the operand; the opcode has its s bit set exactly then (CodeMeaning.SBitSays) |
| CodeMeaning.SBitSays | sdk/as/assemble.c:1398-1429 | the s bit is set exactly for the short form and the other bits of the opcode stay |
| CodeMeaning.AddressSays | sdk/as/assemble.c:1761-1858 | in memory the bytes are ModRM, SIB and the displacement, which holds the offset plus its segment or, where relative, leads from the end of the instruction to the target |
| CodeMeaning.LinkedAddressIsExact | sdk/as/assemble.c:1761-1858 | for every content of the registers and every placement of the segments: the address the processor forms from the bytes is the operand's if and only if the displacement can hold offset and segment together |
| CodeMeaning.ConditionSays | sdk/as/assemble.c:1634-1638 | for all flags of the processor: the condition in the byte emitted tests what the name of the condition says, and its negation where the template inverts it |
| CodeMeaning.PushPopSays | sdk/as/assemble.c:1681-1721 | the opcodes made for segment registers are PUSH and POP of that register by its number in the processor |
| CodeMeaning.SizePrefixSays | sdk/as/assemble.c:1569-1621 | the prefix of the codes for address and operand size makes the size asked for out of the mode's |
| CodeMeaning.VexTemplate | sdk/as/assemble.c:75-86 | of the last template byte ww gives W (0, 1, ignored, or the flag of the instruction), the low bit of ll gives L, and pp stays |
| CodeMeaning.VexOutsideLong | sdk/as/assemble.c:1081-1122 | outside 64-bit mode an accepted VEX instruction names no register above 7 and its second byte starts with two ones, by which the processor tells it from LDS and LES |
| CodeMeaning.BodySays | sdk/as/assemble.c:1160-1869 | the bytes of every single code, in memory, say what its role is: literal bytes, register in the opcode, immediate, jump target, selector, short form, VEX fields, address, size prefix, condition, PUSH and POP |
| CodeMeaning.GeneratedSays | sdk/as/assemble.c:1160-1869 | so it is for a whole run of gencode, code after code, with the REX prefix in front of the code that emits it, wherever the linker puts the segments |
| CodeMeaning.OverJumpLands | sdk/as/assemble.c:1755-1759 | the template of a conditional jump over a longer jump: the inverted condition is tested, the longer jump leads to the target, and the jump in front leads behind it if and only if the operand names no other size than the mode's |
| RexMeaning.FlagsMean | sdk/as/assemble.c:1896-1909 | what each flag of a register means: high byte register, REX needed from number 4 up, 64 bits, number above 7 |
| RexMeaning.ByteRegisterSelected | sdk/as/assemble.c:1896-1909 | for every byte register among the operands of an accepted instruction the processor, decoding by number and presence of a prefix (section 2.2.1.2 of the Intel SDM, Volume 2A), selects that register; high registers never stand with a REX prefix, SPL to DIL always do |
| RexMeaning.PlusRegisterSelected | sdk/as/assemble.c:1201-1206 | the same for the register in an opcode byte |
| RexMeaning.FieldRegisterSelected | sdk/as/assemble.c:1050-1070 | the same for the register in the reg field of ModRM |
| RexMeaning.OperandRegisterSelected | sdk/as/assemble.c:2174-2193 | the same for the register in the r/m field |
| RexMeaning.AddressEncodes | sdk/as/assemble.c:1772-1796 | the address bytes are those of the operand the code names, with the register or the digit it names in the spare field |
| RexMeaning.WideRegister | sdk/as/assemble.c:1081-1149 | a 64-bit register sets W unless the template masks it |
| RexMeaning.WideClaims | sdk/as/assemble.c:1896-1909 | it does so in all three places |
| RexMeaning.WidthAsked | sdk/as/assemble.c:753-1149 | so does an operand size of 64 bits asked for by a prefix or by 0324 |
| CodeLength.CodeAgrees | sdk/as/assemble.c:753-1869 | for every code, operand set and state: gencode does not panic, advances by what it outputs, and that is what calcsize counted plus the prefix bytes it emits minus the bytes lost |
| CodeLength.RexEmissions | sdk/as/assemble.c:1152-1158 | in 64-bit mode the REX prefixes emitted are as many as there are emitting codes at which flags are pending: flags left by calcsize or raised by 0324, with no emitting code and no 0313 since |
| CodeLength.VexEmissions | sdk/as/assemble.c:1513-1530 | a VEX instruction has a prefix at each VEX code, of three bytes if it is long or stands behind a 0324, and no REX or LOCK |
| CodeLength.ExtrasAreEmissions | sdk/as/assemble.c:1081-1158 | the prefix bytes of the whole run are given by the places of the codes, in every mode |
| CodeLength.PrefixAsCounted | sdk/as/assemble.c:1081-1158 | the prefixes emitted have the length calcsize counted if and only if exactly one REX prefix is emitted where flags are left and none where not, respectively one VEX prefix of the counted kind |
| CodeLength.OrderIsExact | sdk/as/assemble.c:1152-1158 | for templates without 0313 that is the case if and only if some code emits REX where flags are left, and no 0324 stands after an emitting code and before another, nor before one where no flags are left |
| CodeLength.TemplateOrder | sdk/as/assemble.c:1081-1158 | the two conditions together, for REX and VEX templates without 0313 |
| CodeLength.LockOnce | sdk/as/assemble.c:1131-1147 | outside 64-bit mode a REX.R becomes exactly one LOCK prefix |
| CodeLength.LossesCount | sdk/as/assemble.c:753-1150 | all operand-size codes but the first are counted and not emitted, and two bytes of every wide immediate |
| CodeLength.EmittedAccount | sdk/as/assemble.c:753-1869 | exact account for every well-formed bytecode: bytes emitted and offset advanced are the returned length, minus the prefix counted, plus the prefixes emitted, minus the losses |
| CodeLength.EmittedLength | sdk/as/assemble.c:753-1869 | for every sized bytecode gencode emits the returned length, with the prefix counted replaced by the prefixes emitted, without the bytes counted too many |
| CodeLength.LengthsAgree | sdk/as/assemble.c:753-1869 | calcsize and gencode agree byte for byte if and only if the prefixes emitted make up for the prefix counted and the bytes counted too many; for templates in order if and only if there is at most one operand-size prefix (none where the instruction has its own) and no wide immediate; without those if and only if the template is in order. Assumed are operands of the kinds the codes ask for and no VEX code beside 0313 |
| CodeLength.MaskedWidthDisagrees | sdk/as/assemble.c:753-1869 | an instance: a template that masks W and then forces it before its only emitting code is emitted one byte longer than sized |
| Assemble.InsnSize | sdk/as/assemble.c:608-721 | the size predicted for an instruction: calcsize plus one byte for each counted prefix |
| Assemble.Assemble | sdk/as/assemble.c:450-606 | assembling emits the prefixes and then the code, and fails exactly where the size does |
| Assemble.PrefixesAgree | sdk/as/assemble.c:450-552 | one byte is counted for every refused prefix too; apart from that prefixes counted and prefixes emitted agree |
| Assemble.AssembledSize | sdk/as/assemble.c:450-721 | over the whole instruction, prefixes given by the programmer included, the bytes assembled are the bytes predicted, with the emitted REX and VEX prefixes for the counted one, less the operand-size prefixes and wide immediates counted too many and one for every refused prefix |
| Assemble.PrefixDecodes | sdk/as/assemble.c:450-552 | every prefix byte decodes to the prefix asked for, and one that names a size is left out exactly where the mode has that size without it |
| Assemble.ForcedPrefixes | sdk/as/assemble.c:100-105 | 0336, 0337 and 0341 put REPE, REPNE and WAIT into a free slot and change nothing else |
| Assemble.PrefixOrder | sdk/as/assemble.c:450-552 | the prefixes come in the order WAIT, LOCK or REP, segment, operand size, address size |
| Assemble.AssembledSays | sdk/as/assemble.c:450-606 | a whole instruction in memory: the bytes of its prefixes, then what its codes say |
| Assemble.EndIsCounted | sdk/as/assemble.c:450-606 | the end from which jumps and relative addresses are counted is the end of the bytes if and only if the two passes agree on the length |
| RedBlackTree.Insert | sdk/as/rbtree.c:56-77 | the recursive in-place insertion leaves exactly the tree Inserted, with every old node once and the new one |
| RedBlackTree.RotateLeft | sdk/as/rbtree.c:32-39 | the pointers form the rotated tree |
| RedBlackTree.RotateRight | sdk/as/rbtree.c:41-48 | the pointers form the rotated tree |
| RedBlackTree.ColorFlip | sdk/as/rbtree.c:50-54 | the colours of a node and both children are inverted, nothing else |
| RedBlackTree.InsertedNodes | sdk/as/rbtree.c:56-77 | the nodes afterwards are the old ones and the new one, each once |
| RedBlackTree.InsertedOrder | sdk/as/rbtree.c:56-77 | in order, the new node stands after all nodes whose key is not greater and nothing else moves |
| RedBlackTree.InsertedColours | sdk/as/rbtree.c:56-77 | equal black counts, no red node below a red one and right-red only beside left-red are kept below the root |
| RedBlackTree.LogarithmicDepth | sdk/as/rbtree.c:56-77 | a tree with these colours has depth at most twice the logarithm of its size |
| RedBlackTree.EveryRun | sdk/as/rbtree.c:56-77 | after every sequence of insertions: sorted keys, exactly the bag inserted, the colour invariants and logarithmic depth |
| RedBlackTree.RedRoot | sdk/as/rbtree.c:56-77 | the root is never forced black: two insertions can leave a red root with a red child |
| RedBlackTree.Search | sdk/as/rbtree.c:12-26 | the node returned has the greatest key that is not above the query; none only if there is no such key |
| HashTable.Injective | sdk/as/hashtbl.c:18-23 | a probe sequence does not come back to a slot within size steps, the step being odd and the size a power of two |
| HashTable.VisitsAll | sdk/as/hashtbl.c:18-23 | every probe sequence visits every slot |
| HashTable.MeetsFree | sdk/as/hashtbl.c:50-72 | as long as a slot is free the probe loop meets one within as many steps as slots are used |
| HashTable.Absent | sdk/as/hashtbl.c:57-71 | a free slot on the way proves that the key is nowhere in the table |
| HashTable.Inserts | sdk/as/hashtbl.c:105-117 | filling the first free slot of the probe sequence adds one binding and keeps every other reachable |
| HashTable.Table.constructor | sdk/as/hashtbl.c:30-36 | the new table is empty, of the given size, which is a power of two |
| HashTable.Table.Find | sdk/as/hashtbl.c:50-72 | succeeds exactly on present keys, with their slot; otherwise it hands back the hash and the slot where the key belongs |
| HashTable.Table.Add | sdk/as/hashtbl.c:105-150 | after a failed find the map gains just that binding, also when the table grows, and the slot returned is the new key's in the new table |
| HashTable.Table.Expand | sdk/as/hashtbl.c:119-147 | rehashing into a table of twice the size keeps the map, terminates, restores load <= size / 2 and tracks the slot just filled |
| HashTable.Table.Iterate | sdk/as/hashtbl.c:157-183 | one call moves to the next used slot |
| HashTable.VisitsUsed | sdk/as/hashtbl.c:157-183 | iterating visits every used slot exactly once |
| Quote.AsQuote | sdk/as/quote.c:14-149 | the string made is Quoted of the input, in an array of exactly the predicted length |
| Quote.EmitUtf8 | sdk/as/quote.c:151-183 | writes the UTF-8 form, up to six bytes, and nothing else |
| Quote.Turn | sdk/as/quote.c:230-355 | one turn of the five-state machine keeps: output written plus what the unread input still stands for is the meaning of the string, and the output never passes the input cursor |
| Quote.EmittedRoom | sdk/as/quote.c:151-183 | a hexadecimal escape is never shorter than its UTF-8 form, so rewriting in place is safe |
| Quote.AsUnquote | sdk/as/quote.c:194-386 | in place, the buffer holds the bytes the string stands for (QuoteEscapes for its escapes), the length and end position are returned, and nothing from the end on is touched |
| QuoteEscapes.HexStands | sdk/as/quote.c:273-354 | the figures of v, in either case and with leading zeros, behind \x, \X (up to two), \u (four) and \U (eight), stand for the byte v, or for octets that decode to v (RFC 2279, section 2), in the shortest form; none for 2^31 and above |
| QuoteEscapes.OctalStands | sdk/as/quote.c:288-320 | up to three octal figures of v stand for the byte v modulo 256 |
| QuoteEscapes.NoFigures | sdk/as/quote.c:321-354 | without figures such an escape stands for its letter |
| QuoteEscapes.LetterStands | sdk/as/quote.c:251-287 | the one-letter escapes stand for the control characters of C, and e for escape |
| QuoteEscapes.OtherStands | sdk/as/quote.c:301-303 | any other character stands for itself behind a backslash |
| QuoteEscapes.Utf8Stands | sdk/as/quote.c:151-183 | for every v below 2^31, surrogates included: the octets written decode to v, and fewer octets would not hold it |
| QuoteEscapes.Utf8Converts | sdk/as/quote.c:151-183 | the string converters read those octets back as v up to their limit, and refuse exactly the surrogates |
| Quote.AsSkipString | sdk/as/quote.c:392-440 | the two-state scan ends where SkipEnd says |
| Quote.SkipAgrees | sdk/as/quote.c:194-440 | for every terminated quoted string both functions stop at the same closing quote; for an unterminated backquoted one the scan ends one place further |
| Quote.QuotingBack | sdk/as/quote.c:80-142 | every single byte, control bytes before octal digits included, is read back from its quoted form |
| Quote.RoundTrip | sdk/as/quote.c:14-386 | for every byte string: unquoting the quoted string gives the same bytes and length with the end on the closing quote |
| QuoteEscapes.QuotedForm | sdk/as/quote.c:14-80 | single quotes are used if and only if the string is printable and has none, else double quotes on the same terms, else backquotes |
| QuoteEscapes.QuotingForm | sdk/as/quote.c:80-142 | inside backquotes a printable byte other than backquote and backslash stands for itself; any other has its letter if there is one, else as few octal figures as the next byte allows |
| StrFunc.Utf8To16le | sdk/as/strfunc.c:13-77 | measures and writes the UTF-16 form of a well-formed string and fails on every other; without a buffer only the length is computed |
| StrFunc.Utf8To32le | sdk/as/strfunc.c:82-140 | the same for the 32-bit form, up to 31 bits |
| StrFunc.StringTransform | sdk/as/strfunc.c:149-167 | measuring and writing agree; the result is fresh and ends with a zero |
| StrFunc.AcceptsExactly | sdk/as/strfunc.c:13-140 | accepted are exactly the strings that encode characters up to the limit (section 3 of RFC 3629), shortest form and no surrogates, each read as what it encodes |
| StrFunc.ConvertersAgree | sdk/as/strfunc.c:13-140 | the 16-bit converter accepts what the 32-bit one accepts if all characters are at most 10FFFF, and both read the same |
| StrFunc.UnitsBack | sdk/as/strfunc.c:13-34 | surrogate pairs decode to the character they were made from (section 2.2 of RFC 2781) |
| StrFunc.SurrogatesAreUnits | sdk/as/strfunc.c:13-34 | the values refused as surrogates are exactly the code units of which pairs are made |
| StrFunc.OutputsAgree | sdk/as/strfunc.c:13-140 | the two outputs hold the same characters |
| StrFunc.WideAcceptsMore | sdk/as/strfunc.c:82-140 | the 32-bit converter accepts a character above 10FFFF |
| Saa.SAA.constructor | sdk/as/saa.c:9-29 | a new array is empty, its blocks a whole number of elements |
| Saa.SAA.WBytes | sdk/as/saa.c:85-112 | writes the bytes, or zeros, over the flat array at the write cursor, across blocks |
| Saa.SAA.RBytes | sdk/as/saa.c:139-166 | hands out the bytes of the flat array at the read cursor, never across a block or the end |
| Saa.SAA.RnBytes | sdk/as/saa.c:168-184 | reads exactly the next bytes of the flat array |
| Saa.SAA.FRead | sdk/as/saa.c:187-203 | positions the read cursor and reads |
| Saa.SAA.FWrite | sdk/as/saa.c:206-228 | positions the write cursor and writes |
| Saa.SAA.Seek | sdk/as/saa.c:187-228 | shift and mask give the same block and offset as division |
| Saa.SAA.WStruct | sdk/as/saa.c:62-83 | the place for one element is inside one block and becomes part of the flat array |
| Saa.SAA.RStruct | sdk/as/saa.c:119-137 | the place returned holds the next element of the flat array; none where less than an element is left |
| Saa.SAA.Extend | sdk/as/saa.c:43-60 | one more block, the flat array unchanged |
| Saa.PerformAll | sdk/as/saa.c:43-228 | any interleaving of sequential and positioned writes and reads does what it does on one flat file with two cursors |
| Saa.WLeb128u | sdk/as/saa.c:317-334 | appends the unsigned LEB128 form |
| Saa.WLeb128s | sdk/as/saa.c:337-365 | appends the signed LEB128 form |
| Saa.Leb128uBack | sdk/as/saa.c:317-334 | decoding the unsigned form gives the number back |
| Saa.Leb128sBack | sdk/as/saa.c:337-365 | decoding the signed form gives the number back, the last byte carrying the sign |
| RadixArray.Raa.constructor | sdk/as/raa.c:9-25 | a new node of any number of layers holds zeros |
| RadixArray.Read | sdk/as/raa.c:41-52 | the number at a position, zero beyond the capacity, in missing children and for negative positions |
| RadixArray.Write | sdk/as/raa.c:54-90 | afterwards the position holds the value and every other position what it held, whatever layers and children had to be made |
| RadixArray.AddLayer | sdk/as/raa.c:59-73 | a new root above the old one keeps every position |
| AsmConstraints.ResolveReferences | sdk/cc/asm386.c:1008-1029 | succeeds exactly when inputs refer to earlier operands, none twice, and all letters are known; references and back references match |
| AsmConstraints.SortOperands | sdk/cc/asm386.c:1031-1043 | the exchange sort gives every operand once, in order of priority |
| AsmConstraints.AllocOperand | sdk/cc/asm386.c:1058-1191 | one turn grants the registers, fields and tie of the first letter that fits (AsmConstraints.GrantsFirst), and fails exactly when none does |
| AsmConstraints.GrantsGood | sdk/cc/asm386.c:1073-1184 | whatever letter fits, the grant takes free registers only, its own among them, and its own is in the register table of a letter of the constraint |
| AsmConstraints.GrantsFirst | sdk/cc/asm386.c:1073-1184 | something is granted if and only if a letter of the constraint fits, behind marks the operand may have and letters that do not fit; then it is what the first such letter gives: the lowest register of its table that is free in the roles asked, the pair for A, no register for constants and memory, a register for a pointer that is itself in memory |
| AsmConstraints.RegistersServe | sdk/cc/asm386.c:1065-1089 | after a whole allocation outputs hold their register for writing, inputs for reading, tied and read-write ones for both, pointers for reading; an output is also held for reading only if it is tied or marked + or &; a pair makes a long long, also of the operand tied to it |
| AsmConstraints.FewerFirst | sdk/cc/asm386.c:930-977 | a letter comes the earlier the fewer registers it offers: the pair, one, four, eight, none |
| AsmConstraints.PriorityIsLargest | sdk/cc/asm386.c:930-977 | the priority of a constraint is the largest among its letters, none if one is unknown |
| AsmConstraints.ModifiersSkipped | sdk/cc/asm386.c:979-982 | exactly the leading characters among =, &, + and % are skipped |
| AsmConstraints.NumberFound | sdk/cc/asm.c:697-708 | a reference by number, written in decimal, finds that operand if there is one |
| AsmConstraints.NameFound | sdk/cc/asm.c:709-725 | a reference by name finds the first operand of that name |
| AsmConstraints.ReloadWhenNeeded | sdk/cc/asm386.c:1193-1206 | a reload register is sought exactly if some output in a register belongs to a pointer in memory, and it is the lowest that no output uses |
| AsmConstraints.AllocOneKeeps | sdk/cc/asm386.c:1058-1191 | one turn keeps the account of registers: taken are those taken at the start and those claimed, claims clash in no role |
| AsmConstraints.AllocationSafe | sdk/cc/asm386.c:1045-1191 | every order of allocation that succeeds: no operand holds esp, ebp or a clobbered register, edx of a pair included; operands sharing a register do so in disjoint roles; tied inputs have their output's register |
| AsmConstraints.TieOfTie | sdk/cc/asm386.c:1008-1191 | for the constraints =r, 0 and 1 with nothing clobbered the first two operands get eax and the third no register |
| AsmConstraints.AsmComputeConstraints | sdk/cc/asm386.c:989-1223 | the whole computation fails exactly where a reference, a constraint or the reload register fails; otherwise the operands are those of the allocation in priority order, safe in the sense above, and the reload register is ordinary, not clobbered and holds no output |
| ReadNumber.OverflowTest | sdk/as/aslib.c:359-384 | the comparison with 2^63 / (radix / 2) and the last digit is exact: it holds if and only if the next product does not fit in 64 bits |
| ReadNumber.ReadDigits | sdk/as/aslib.c:373-389 | rejects exactly non-digits of the radix; the value is exact modulo 2^64 and the warning is set exactly when the number reaches 2^64 |
| ReadNumber.Readnum | sdk/as/aslib.c:294-397 | error exactly for text that is no number in its radix, else the signed 64-bit value and the exact warning |
| ReadNumber.FormReads | sdk/as/aslib.c:329-357 | a number with a prefix, a dollar sign, a suffix or none, any digits and underscores, is read in the radix meant although b and d are also hexadecimal digits |
| ReadNumber.EveryValueReads | sdk/as/aslib.c:294-397 | every 64-bit value written in any of the forms is read back with no warning |
| ReadNumber.EverySpellingReads | sdk/as/aslib.c:294-397 | so is every 64-bit value in every form with figures of either case, leading zeros and underscores, blanks in front and other text behind |
| ReadNumber.MarkIs | sdk/as/aslib.c:267-288 | the letters that mark a radix are b, y, o, q, d, t, h and x in either case, and no others |
| ReadNumber.EqualMarksRefused | sdk/as/aslib.c:347-357 | a prefix or dollar sign and a suffix of the same radix cancel: the text is taken for decimal and refused, as the comment at lines 354-355 announces |
| ReadNumber.EqualMarks | sdk/as/aslib.c:339-357 | texts with a 0-prefix or a dollar sign and a suffix of its radix are such texts |
| ExprVectors.AddVectors | sdk/as/eval.c:93-132 | for any two vectors the loops compute the merge Sum |
| ExprVectors.SumExact | sdk/as/eval.c:93-132 | every kind has the wrapped sum of its two multiples, save behind an unknown term that stops the merge and for far segments that are not kept; the sum is sorted if and only if no kept far segment of the first vector is met before the second vector's near end |
| ExprVectors.ScalarLost | sdk/as/eval.c:122-129 | a far segment alone plus a number stands for the right number but comes out of order, so it no longer counts as simple and its scalar part is read as zero; the other way round both are kept |
| ExprVectors.MergedEval | sdk/as/eval.c:93-132 | without unknown or far parts the sum stands for the sum modulo 2^64, whatever the registers and segments stand for |
| ExprVectors.MergedEvalAny | sdk/as/eval.c:93-132 | the same for vectors in any order that have no unknown part, far segments included where they are kept |
| ExprVectors.ScalarMult | sdk/as/eval.c:146-159 | in place, every near term is scaled, the far part is cut off, and the hinted base loses its standing exactly when it is scaled |
| ExprVectors.ScaledEval | sdk/as/eval.c:146-159 | a scaled vector stands for the multiple of its near part modulo 2^64 |
| ExprVectors.Expr4 | sdk/as/eval.c:491-513 | for any operands: they are added and subtracted from left to right, subtraction by scaling with -1 in place |
| ExprVectors.FoldedEval | sdk/as/eval.c:491-513 | operands without unknown or far parts give such a vector again, and it stands for the signed sum modulo 2^64 |
| ExprVectors.IsSimple | sdk/as/exprlib.c:13-26 | for any vector: the scan of the significant terms described by Simple |
| ExprVectors.SimpleIs | sdk/as/exprlib.c:13-26 | of a sorted vector this is true exactly for a number, or a non-zero number with far segments |
| ExprVectors.IsReallySimple | sdk/as/exprlib.c:32-45 | for any vector: at most one significant term, and that a number |
| ExprVectors.ReallySimpleIs | sdk/as/exprlib.c:32-45 | of a sorted vector this is true exactly when every significant term is a number |
| ExprVectors.IsUnknown | sdk/as/exprlib.c:85-89 | for any vector: the first kind that is not below the unknown one is the unknown one |
| ExprVectors.UnknownIs | sdk/as/exprlib.c:85-89 | of a sorted vector this is true exactly when it has an unknown term |
| ExprVectors.IsReloc | sdk/as/exprlib.c:51-80 | for any vector: the scan of the significant terms described by Reloc |
| ExprVectors.RelocIs | sdk/as/exprlib.c:51-80 | of a sorted vector this is true exactly for a number, at most one segment base taken once, and perhaps a WRT part |
| ExprVectors.RelocValue | sdk/as/exprlib.c:105-114 | for any vector: the first significant term if it is a number, else zero |
| ExprVectors.ValueIs | sdk/as/exprlib.c:105-114 | of a sorted vector this is the multiple of the scalar kind, zero where a register comes first |
| ExprVectors.RelocSeg | sdk/as/exprlib.c:120-132 | for any vector: the first significant term that is no WRT part, behind an optional number |
| ExprVectors.SegIs | sdk/as/exprlib.c:120-132 | of a sorted relocatable vector this is the segment whose multiple is one, or none where there is none |
| ExprVectors.RelocWrt | sdk/as/exprlib.c:138-145 | for any vector: the first term that is not below the WRT kind, if it is a WRT part |
| ExprVectors.WrtIs | sdk/as/exprlib.c:138-145 | of a sorted vector this is its WRT part, or none |
| ExprVectors.RelocRebuilds | sdk/as/exprlib.c:51-132 | a relocatable vector without WRT is rebuilt from its value and its segment: nothing else is in it |
| Symbols.SymbolTable.Push | sdk/cc/symbol.c:211-237 | the symbol is on top of the local stack, or of the global one outside functions, and first in its chain |
| Symbols.SymbolTable.Pop | sdk/cc/symbol.c:240-263 | everything above the given symbol goes and every chain loses just those |
| Symbols.SymbolTable.PopGlobals | sdk/cc/symbol.c:240-263 | popping all global symbols leaves each slot with what stood behind the first of its global symbols |
| Symbols.ClearedWhenLast | sdk/cc/symbol.c:240-284 | so a slot is cleared if and only if that symbol ends its chain; otherwise the global appended behind it stays in the table |
| Symbols.SymbolTable.Find | sdk/cc/symbol.c:266-270 | the innermost local symbol of the identifier, else the first global one, else none |
| Symbols.SymbolTable.Append | sdk/cc/symbol.c:272-284 | the global goes to the end of its chain, behind all local symbols, and no lookup that succeeds changes |
| Symbols.SymbolTable.ExternalGlobalSym | sdk/cc/symbol.c:287-298 | returns the visible symbol, declaring a global only where there is none |
| Symbols.RunKeeps | sdk/cc/symbol.c:211-284 | through any run inside a scope the outer symbols stay at the bottom and each chain gains exactly the globals appended |
| Symbols.ScopeRestored | sdk/cc/symbol.c:211-284 | leaving a scope after any run inside it restores every lookup; where there was none, the first global appended meanwhile is visible |

## Left out

Floating-point constants:

- The number of limbs is the length of the array; 6 is never used, so the results hold for every precision.
- Bit operations with power-of-two masks are written as division and remainder; the or of the bits rounded away is only ever compared with zero.
- Hexadecimal, octal and binary constants, packed BCD, the special tokens and the denormals-are-zero option; FloatConst.DecimalText tells which texts are decimal.
- Warnings and the texts of errors; the 32-bit width of exponents, which the cap on written exponents keeps small.
- FloatConst.ToFloat: for a denormal shift of more than the whole mantissa that is not one of whole limbs the source reads outside its array; the method then stops and says so instead of giving bytes.
- FloatConst.PackFloat: has the same limit on the denormal shift as its precondition, and so have FloatPack.PackDenormal and FloatShift.IeeeShr.
- FloatNearest.ConstantIsNearest: a written exponent counts with the cap of 5000 that the source puts on its size.

Instruction encoding:

- The instruction templates, the register tables and operand matching are data or table lookups; bytecode is any sequence that is terminated, and registers carry the numbers and flags that the encoder reads.
- The DREX codes count as unknown codes; TIMES repetition, INCBIN and data directives are not instructions here.
- The output driver is a sequence of chunks; relocations are chunks with their kind, target and size, and every error or panic is a failure without its text.
- An operand number past the last operand reads a blank operand.
- CodeMeaning.JumpSays: a WRT on a target in the segment being assembled is ignored, as in the source; elsewhere WRT only selects the address that stands for the segment, which the layout gives for every pair.
- CodeMeaning.GeneratedSays: space reserved with a negative size is excluded, because it moves the offset and emits nothing.
- CodeMeaning.ConditionSays: for template bytes that end in 0 or 1. CodeMeaning.BodySays says what a register adds to an opcode byte that ends in three zero bits, and a short form to one with a clear s bit. All those in `sdk/as/insnsb.c` are of this kind.
- RexMeaning.PlusRegisterSelected: as RexMeaning.FieldRegisterSelected and RexMeaning.OperandRegisterSelected it assumes that no other code of the template claims the same extension bit.
- EffectiveAddress.ProcessEa: keeps the source's comparison of a hint with a register number as it stands.
- EffectiveAddress.AcceptedEncodes: operands on 16-bit registers in 64-bit mode are excluded, because the processor has no 16-bit addresses there; AddressSize.SizeIsAgreed shows that add_asp never lets one through.
- CodeLength.EmittedLength: templates with both a VEX code and 0313 are excluded; CodeLength.EmittedAccount holds for them too.

Containers and codecs:

- hash_findi is the same loop as hash_find with the case folded; the hash function is abstract, and freeing a table is not modelled.
- Quote.AsUnquote: for an empty string the source leaves the end pointer alone; the method returns position zero.
- Quote: a number of 2^31 or more in an escape is negative as an int32_t and stands for no bytes.
- Saa.SAA.WStruct: the bytes of a fresh element are whatever its block held.
- saa_writeaddr, the fixed-width writes, writing to a file, and negative numbers in saa_wleb128u.
- RadixArray.Write: the loop that walks down to the leaf is a recursion here.
- RadixArray.Read: capacities are unbounded integers. In the source they fit 32 bits for at most one layer above the leaves, which RadixArray.Write keeps for positions below 2^30; only for such trees are negative positions covered.

Expressions and the C compiler:

- ExprVectors: signed overflow is taken to wrap around; vectors are sequences save in ExprVectors.ScalarMult and ExprVectors.Expr4, so sharing of one vector by two expressions is not captured.
- ExprVectors.FoldedEval: for operands without unknown and far parts; ExprVectors.SumExact and ExprVectors.MergedEvalAny cover one addition for the others.
- ExprVectors.SumExact: for sorted vectors, as the evaluator builds them from its operands; ExprVectors.MergedEvalAny holds in any order.
- The other operator levels of the evaluator, which work on simple numbers, and the scanner.
- AsmConstraints: the numbers of tokens are abstract, an operand number that does not fit an int is not cut off, and the flag for a long long operand starts out with any value where the source leaves it unset.
- Printing, code generation for the allocated operands and the clobber list syntax.
- Symbols: types, registers and values of symbols are left out, and so are the free list and labels.
- ReadNumber: characters are those of the C locale, and readstrnum is not modelled.

Everything else in the repository: command line, listing, preprocessor, object formats, the
C parser and the programs outside `sdk`.
