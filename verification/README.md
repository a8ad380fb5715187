# Ink stroke modeler: verified models of its core

This project models, in Dafny, the parts of the InkStrokeModeler package whose correctness is hard to
see from their code, and proves what they are for.

- **CRC32C** (`crc_*.dfy`, `crc32c.dfy`). The portable engine with its tables is modelled as it is
  written: rows filled by doubling and summing, four interleaved swaths, zero bytes appended by one
  multiplication per base-16 digit of the length, and removed by running the bit-reversed register with
  an alternate polynomial. It is proved equal to the bitwise register of RFC 3720, section 12.1, whose
  check values it gives (`ChecksumOfDigits`, `ChecksumOfZeroes`), and on that rest the laws of the
  interface: extension, concatenation, removal of prefixes and suffixes, inverse zero-extension, and
  detection of every change within four consecutive bytes or 32 consecutive bits and of every change of
  an odd number of bits (`crc_detection.dfy`).
- **`call_once`** (`call_once.dfy`). Any number of calls, each an automaton of atomic steps on one
  control word, under every schedule with arbitrary spurious wake-ups. Safety, no lost wake-up, and
  total correctness with an explicit bound on the length of schedules.
- **Flag registry** (`string_order.dfy`, `flag_registry.dfy`). A map that is turned once into a sorted
  vector, against the plain list of registrations.
- **Marshalling** (`marshalling.dfy`). Integers by way of the library's overflow-avoiding digit loops,
  booleans, severities, vectors and optionals: exactly which texts are accepted, and exactly which
  values survive a round trip.
- **Command-line parser** (`flag_arguments.dfy`, `flag_expansion.dfy`, `flag_machine.dfy`,
  `flag_results.dfy`, `flag_sources.dfy`, `flag_termination.dfy`, `flag_parser.dfy`). The loop over a
  stack of part-read argument lists is proved to carry out the recursive in-place expansion of the
  command line. `Expand` is that expansion, with `depth` bounding how deeply lists may bring in further
  lists. A parse ends exactly if no file or variable is met again inside its own expansion, which
  `Foreseen` tells beforehand, and what it leaves behind is told from the trace of the expansion and from
  argv alone.
- **Misspelling hints** (`edit_distance.dfy`, `misspelling_hints.dfy`). The banded table against edit
  scripts, and the hints against the definition of the closest candidates.
- **Stroke path** (`stroke_path.dfy`). The Swift helper as a state machine whose steps may throw
  part-way.

Code that changes state is modelled by classes, arrays and loops, proved against functions on values;
the properties over whole runs are lemmas about those functions. `dafny verify dfyconfig.toml` checks
the whole project.

## How the outside enters

- Files, environment variables, registered flags and which texts a flag accepts are the constant
  `World` of a parse. The `World` stands for the registry after finalization; values set and generators
  left pending before the parse are arbitrary inputs.
- A failed internal check ends the parse with `CheckFailed`. Error texts are left away.
- Outcomes of the foreign stroke modeler are parameters: the samples returned, or that it threw.
- Whether loads must be aligned, how far a buffer is from an aligned address, and whether the hardware
  instructions exist are parameters of the CRC functions.
- Whether a build leaves out debug checks is part of the state of `call_once`.
- `ParseAbseilFlagsOnly` requires that no source is met again inside its own expansion, since its loop
  has no end otherwise; `LoopEndsIffNothingMetAgain` says that this is exactly when it ends, and
  `RankedParsesEnd` when that is certain.

## Where the code differs from what is said about it

- `parse.cc:89-90` says that only flags with a distance below three are suggested. The search starts from
  the cutoff plus one, so a distance of four may be suggested as well (`FourEditsAway`). The stated limit
  is kept exactly if some candidate is that close or nothing is suggested (`StatedLimit`).
- `parse.cc:384` means to avoid infinite recursion. It rules out naming the environment generators in the
  environment; files and variables that lead round to each other are followed for ever (`CycleIsEndless`).
  The recursion is finite exactly if no source is met again (`LoopEndsIffNothingMetAgain`).
- `reflection.cc:167` calls duplicate definitions fatal. After finalization only flags registered since
  then are compared (`DuplicateExits`), so the same two definitions pass if the registry is finalized
  between them (`LateDuplicateMissed`).

## Model

| member | source | states |
|---|---|---|
| CrcRegister.AdvanceByXor | absl/crc/internal/crc.cc:126-133 | the register after n bits is linear in the register before: the law behind every table of sums |
| CrcRegister.MultiplyAdvanceRight | absl/crc/internal/crc.cc:82-98 | multiplying modulo the generator commutes with advancing either factor by any number of bits |
| CrcRegister.MultiplyIdentity | absl/crc/internal/crc.cc:137-147 | the register with only its top bit set is the unit of that multiplication, for every generator |
| CrcBytes.ExtendXor | absl/crc/internal/crc.cc:126-133 | changing the register before a buffer by d changes the register after it by d advanced over the buffer, whatever the bytes |
| CrcBytes.ExtendZeroes | absl/crc/crc32c.h:117-125 | running an actual buffer of n zero bytes through the register equals advancing it by 8n bits |
| CrcBytes.RetreatAdvanceBy | absl/crc/internal/crc.cc:218-234 | stepping back n zero bits undoes stepping forward n, for every register and every generator whose top bit is set |
| CrcBytes.AdvanceByInjective | absl/crc/internal/crc.cc:223-225 | no information is lost over any number of zero bits: different registers stay different |
| CrcBytes.ExtendWord | absl/crc/internal/crc.cc:280-285 | four bytes run one at a time equal one little-endian word added to the register and advanced by 32 bits |
| CrcTables.BitsSplit | absl/crc/internal/crc.cc:126-133 | every byte between two powers of two is the sum of the lower one and an entry made before |
| CrcWide.ProductIsCarryLess | absl/crc/internal/crc.cc:372-385 | the four two-bit lookups in the table of multiples add up to the carry-less product of a byte and a register |
| CrcWide.MultiplyByte | absl/crc/internal/crc.cc:379-389 | one byte of the 64-bit accumulator loop folds exactly eight steps of bitwise multiplication, and nothing overflows |
| CrcSwath.StrideStep | absl/crc/internal/crc.cc:287-305 | four interleaved registers, each stepped on its own word with twelve zero bytes, still combine to the register after the stride |
| CrcSwath.WordStep | absl/crc/internal/crc.cc:321-331 | stepping one register and rotating the four keeps what they combine to in step with one more word |
| CrcSwath.LookUpWord | absl/crc/internal/crc.cc:287-296 | four lookups by the bytes of a register give the register advanced by the 128 bits of a stride |
| CrcEngine.ReverseAdvanceBy | absl/crc/internal/crc.cc:232-248 | advancing the bit-reversed register by the alternate polynomial is exactly the inverse of advancing by the generator, for any number of bits |
| CrcEngine.PolyMultiply | absl/crc/internal/crc.cc:82-98 | the in-place bit loop computes the product modulo the generator |
| CrcEngine.FillWordTable | absl/crc/internal/crc.cc:101-135 | after the doubling and summing loops row j holds every byte advanced by 8j bits more than row 0, and other rows are untouched |
| CrcEngine.FillZeroesTable | absl/crc/internal/crc.cc:137-162 | the 240 entries are the registers after a * 16^b zero bytes, for every digit a and place b of a 64-bit length |
| CrcEngine.MultiplyByEntry | absl/crc/internal/crc.cc:370-391 | the table-driven product of a register and a table entry is the product modulo the generator |
| CrcEngine.ExtendByZeroesImpl | absl/crc/internal/crc.cc:357-395 | one multiplication per base-16 digit gives the register after that many zero bytes, for every 64-bit length and either polynomial |
| CrcEngine.Crc32.InitTables | absl/crc/internal/crc.cc:181-254 | all five tables hold what the lookups rely on, the 12-zero-byte table and the reversed ones included |
| CrcEngine.Crc32.ExtendSwaths | absl/crc/internal/crc.cc:278-347 | the strides, the word steps and the final combination leave the register a byte-by-byte run would |
| CrcEngine.Crc32.ExtendBytes | absl/crc/internal/crc.cc:256-355 | alignment bytes, swaths and tail together equal the bitwise definition on every buffer |
| CrcEngine.Crc32.ExtendByZeroes | absl/crc/internal/crc.cc:397-399 | the register after a length of zero bytes |
| CrcEngine.Crc32.UnextendByZeroes | absl/crc/internal/crc.cc:401-407 | the register before a length of zero bytes |
| Crc32c.ExtendCrc32cInternal | absl/crc/crc32c.cc:48-53 | continues a checksum by a buffer, inverting on entry and exit |
| Crc32c.ExtendCrc32cInline | absl/crc/internal/crc32c_inline.h:31-66 | one, two, four and then eight bytes at a time cover exactly the buffer; without hardware the checksum is left alone and false returned |
| Crc32c.ExtendCrc32c | absl/crc/crc32c.h:97-108 | the short path and the fallback return the same checksum for every buffer |
| Crc32c.ComputeCrc32c | absl/crc/crc32c.h:110-115 | the checksum of the buffer |
| Crc32c.ChecksumOfDigits | absl/crc/crc32c.h:110-115 | the check value of CRC32C: the nine ASCII digits 123456789 give 0xe3069283 |
| Crc32c.ChecksumOfZeroes | absl/crc/internal/crc.cc:73-73 | 32 zero bytes give 0x8a9136aa, as RFC 3720 has it |
| Crc32c.ExtendCrc32cByZeroes | absl/crc/crc32c.cc:57-61 | equals extending by an actual buffer of that many zero bytes |
| Crc32c.UnextendCrc32cByZeroes | absl/crc/crc32c.cc:40-44 | steps the inverted register back over the zero bytes |
| Crc32c.ConcatCrc32c | absl/crc/crc32c.cc:63-67 | the joined checksum, computed without the inversions the extending functions make |
| Crc32c.RemoveCrc32cPrefix | absl/crc/crc32c.cc:69-71 | the same join, of a prefix and the whole |
| Crc32c.RemoveCrc32cSuffix | absl/crc/crc32c.cc:86-92 | the difference of the two checksums, stepped back over the suffix |
| Crc32c.ExtendedIsChecksum | absl/crc/crc32c.h:89-108 | extending the checksum of A by B is the checksum of A followed by B |
| Crc32c.ConcatIsChecksum | absl/crc/crc32c.h:144-154 | joining the checksums of A and B gives the checksum of A followed by B, for all byte strings |
| Crc32c.PrefixRemoved | absl/crc/crc32c.h:156-168 | removing the prefix A from the checksum of A followed by B gives the checksum of B |
| Crc32c.SuffixRemoved | absl/crc/crc32c.h:169-180 | removing the suffix B from the checksum of A followed by B gives the checksum of A |
| Crc32c.ZeroesUndone | absl/crc/crc32c.cc:40-61 | extending and unextending by zeroes are mutual inverses on every 32-bit value, for every length |
| Crc32c.JoinedIsChecksum | absl/crc/crc32c.h:144-154 | joining the checksums of any division of a buffer into pieces gives the checksum of the buffer |
| Crc32c.DifferenceOfChecksums | absl/crc/crc32c.cc:48-53 | the difference of two registers after buffers of equal length is the register after their difference |
| Crc32c.BurstDetected | absl/crc/crc32c.h:97-115 | two buffers that differ only within four consecutive bytes have equal checksums exactly if they are equal, for every prefix and suffix |
| CrcDetection.ChecksumParity | absl/crc/crc32c.h:97-115 | a checksum has the parity of its data |
| CrcDetection.OddChangeDetected | absl/crc/crc32c.h:97-115 | two buffers of one length that differ in an odd number of bits have different checksums |
| CrcDetection.BitBurstDetected | absl/crc/crc32c.h:97-115 | two buffers that differ only within 32 consecutive bits, starting any number of bits into a byte, have equal checksums exactly if they are equal |
| CallOnce.FindRow | absl/base/internal/spinlock_wait.cc:46-47 | the first row of the transition table for the value read, or none |
| CallOnce.StepInvariant | absl/base/call_once.h:168-190 | every atomic step of any call keeps the ownership of fn and what each call may assume of the word, and moves the word only Init, Running, optionally Waiter, Done |
| CallOnce.Safety | absl/base/call_once.h:168-190 | under every schedule fn starts at most once, a returned call returned after fn finished, and the waiting path never hands out Init |
| CallOnce.WordForward | absl/base/call_once.h:141-149 | over any continuation of a run the word never moves back, never returns to Init and never leaves Done |
| CallOnce.NoLostWakeup | absl/base/call_once.h:184-189 | a sleeping call faces a runner that has yet to exchange, or one that has exchanged and is about to wake |
| CallOnce.NoDeadlock | absl/base/call_once.h:168-190 | as long as a call has not returned, some call can take a step of its own |
| CallOnce.StepPays | absl/base/internal/spinlock_wait.cc:39-57 | every own step of every call uses up part of a bound on what is left, so no loop spins for ever |
| CallOnce.SchedulesEnd | absl/base/internal/spinlock_wait.cc:39-57 | no schedule of n calls is longer than 28n + 3 steps, plus four for each spurious wake-up |
| CallOnce.EveryCallReturns | absl/base/call_once.h:198-222 | a schedule that cannot go on has returned every call, with fn run exactly once |
| CallOnce.OwnStepsAfterDone | absl/base/call_once.h:212-222 | once the word is Done a call needs at most seven more steps of its own, and no other call's step adds any |
| CallOnce.WordsSeen | absl/base/call_once.h:141-149 | the word only ever holds 0, 0x65C2937B, 0x05A308D2 or 221, and without debug checks no call makes one |
| CallOnce.WaitTurns | absl/base/call_once.h:168-171 | what a turn of the wait loop does for each value it may have read |
| CallOnce.LoneCall | absl/base/call_once.h:180-190 | a call without competition takes five steps, six with debug checks, runs fn once, leaves 221, and neither waits nor wakes |
| CallOnce.LateCallReturns | absl/base/call_once.h:212-222 | a call that comes after fn has finished takes one step and changes nothing else |
| StringOrder.LowerBound | absl/flags/reflection.cc:103-105 | halving finds the partition point of a sorted vector |
| StringOrder.BinarySearch | absl/flags/parse.cc:651-652 | a name is found exactly if it is in the sorted vector |
| StringOrder.LessMeans | absl/flags/reflection.cc:205-211 | the order of names: a proper beginning is less, and otherwise the first differing character decides |
| FlagReflection.SortedUnique | absl/flags/reflection.cc:205-211 | a strictly sorted arrangement of given flags is unique, so the order the map yields them in does not matter |
| FlagReflection.RunValid | absl/flags/reflection.cc:114-214 | after any run of registrations and finalizations that has not exited the vector is strictly sorted and the map is keyed by name |
| FlagReflection.FindsFirstRegistered | absl/flags/reflection.cc:99-112 | after any such run a lookup returns the first flag ever registered under the name, before, across and after finalization |
| FlagReflection.MapHoldsRecent | absl/flags/reflection.cc:128-132 | the map answers for what was registered since the first finalization |
| FlagReflection.VisitsInserted | absl/flags/reflection.cc:179-188 | the flags visited are, with multiplicity, exactly those whose insertion succeeded |
| FlagReflection.DuplicateExits | absl/flags/reflection.cc:114-169 | a registration exits exactly if the flag does not come from the file it names, or its name was registered since the first finalization and not both flags are retired and of one type |
| FlagReflection.SecondDefinition | absl/flags/reflection.cc:134-168 | of two definitions of one name the second exits, whether retired or normal, unless both are retired and of one type, and then the first stays |
| FlagReflection.LateDuplicateMissed | absl/flags/reflection.cc:134-168 | any two definitions of one name that exit together are let pass with a finalization between them, and lookups keep finding the first |
| FlagReflection.FlagRegistry.FindFlag | absl/flags/reflection.cc:99-112 | binary search with fallback to the map returns what the abstract lookup does |
| FlagReflection.FlagRegistry.FindCommandLineFlag | absl/flags/reflection.cc:346-351 | the same, and null for the empty name |
| FlagReflection.FlagRegistry.RegisterFlag | absl/flags/reflection.cc:114-170 | the whole new registry, or exit |
| FlagReflection.FlagRegistry.FinalizeRegistry | absl/flags/reflection.cc:197-214 | the map becomes the sorted vector; a second time nothing changes |
| FlagReflection.FlagRegistry.ForEachFlag | absl/flags/reflection.cc:179-188 | visits the vector and what is left in the map |
| Marshalling.StripPads | absl/strings/ascii.h:267-270 | white space around a text is removed and nothing else |
| Marshalling.CaseIgnored | absl/strings/match.cc:31-37 | two characters compare equal exactly if they are the same or the two cases of one letter |
| Marshalling.DigitsAre | absl/strings/numbers.cc:679-694 | the digits of bases up to 36 are 0 to 9 and the letters in either case, in that order, and nothing else |
| Marshalling.MagnitudeWeighs | absl/strings/numbers.cc:983-1017 | digits are weighed by powers of the base from the front as they are from the back |
| Marshalling.SafeParsePositiveInt | absl/strings/numbers.cc:983-1017 | digits are accepted exactly if their number is at most the greatest value; on refusal where and why it stopped, with the value left behind |
| Marshalling.SafeParseNegativeInt | absl/strings/numbers.cc:1020-1061 | the same downwards, with C++ division, so that the least value itself is reached without overflow |
| Marshalling.SafeStrToInt | absl/strings/numbers.cc:1065-1088 | accepts exactly the texts that denote a value of the width, unsigned widths none with a minus sign |
| Marshalling.ConversionExact | absl/strings/numbers.cc:696-778 | for every base asked for, found out or invalid: accepted are exactly the numerals, with the prefixes that base goes with, whose value fits, unsigned ones without a minus sign |
| Marshalling.ParseFlagImpl | absl/flags/marshalling.cc:80-86 | the same after stripping and base detection |
| Marshalling.ParseFlag16 | absl/flags/marshalling.cc:88-105 | by way of 32 bits and a cast, the 16-bit parsers accept exactly the texts whose value fits, with that value |
| Marshalling.IntegersExact | absl/flags/marshalling.cc:69-130 | a text is read as v for a width exactly if it is space, sign, optional 0x, digits, space with value v, v fits, and an unsigned width is given no minus sign |
| Marshalling.HexDigitReads | absl/strings/numbers.cc:679-694 | 0xa to 0xf read as 10 to 15 behind either prefix and in either case, as 0x0 to 0x9 do |
| Marshalling.DecimalPlain | absl/flags/marshalling.cc:195-203 | a printed integer has decimal digits only and no leading zero |
| Marshalling.IntegerRoundTrip | absl/flags/marshalling.cc:195-203 | every value of every width is read back from its decimal print |
| Marshalling.ParseBool | absl/flags/marshalling.cc:47-64 | a text in one of the two word lists is read as the list says, any other refused; no text is in both |
| Marshalling.BooleanWords | absl/flags/marshalling.cc:47-64 | the true words are 1, t, true, y and yes, the false ones 0, f, false, n and no, in any case and with any space around |
| Marshalling.BoolRoundTrip | absl/flags/marshalling.cc:195-195 | a boolean prints as true or false, which is one of its words and none of the other's |
| Marshalling.SeverityRoundTrip | absl/flags/marshalling.cc:243-288 | every 32-bit severity, standard or not, is read back from its print, in debug and release builds |
| Marshalling.StandardSeverity | absl/base/log_severity.h:101-120 | the four standard names are read back as their severities |
| Marshalling.SeverityNamesRead | absl/flags/marshalling.cc:243-283 | the four names in any case, alone or behind a k, are 0 to 3; the debug-fatal words 3, or 2 in a release build |
| Marshalling.SeverityPrints | absl/flags/marshalling.cc:285-288 | 0 to 3 print as INFO, WARNING, ERROR and FATAL, any other severity as its number |
| Marshalling.SeverityExact | absl/flags/marshalling.cc:243-283 | a text is read as severity v exactly if it is a debug-fatal word and v what the build says, or a standard name in any case or a 32-bit integer of value v, behind one k or K or as it stands |
| Marshalling.StringsPrintAsGiven | absl/flags/marshalling.cc:180-190 | a vector parsed from any text prints as that text |
| Marshalling.StringsRoundTrip | absl/flags/marshalling.cc:237-239 | a vector survives printing and parsing exactly if no element has a comma and it is not the one empty string |
| Marshalling.OptionalRoundTrip | absl/flags/marshalling.h:244-256 | an optional survives exactly if it is null, or its value survives and prints as something |
| Marshalling.OptionalIntegerRoundTrip | absl/flags/marshalling.h:287-290 | an optional integer always survives |
| Marshalling.OptionalStringsRoundTrip | absl/flags/marshalling.h:287-290 | an optional vector survives exactly if it is null, or neither empty nor the one empty string and free of commas |
| FlagArguments.SpelledOut | absl/flags/parse.cc:284-306 | an argument that spells out name and value splits at the first equals sign, and an empty value is told from a missing one |
| FlagArguments.ItemAt | absl/flags/parse.cc:556-574 | a value used up is the next argument of the same list, and is the value assigned |
| FlagArguments.BooleanForms | absl/flags/parse.cc:520-555 | --foo, --nofoo and --foo=value assign 1, 0 and the value; --foo= and --nofoo=anything are refused; none uses up the next argument |
| FlagArguments.NamedAloneReads | absl/flags/parse.cc:538-546 | --foo assigns a text that is read as true and --nofoo one that is read as false |
| FlagArguments.ValueForms | absl/flags/parse.cc:528-574 | --foo=value and --foo value assign the same; --foo at the end of a list, --nofoo and --nofoo=anything are refused |
| FlagArguments.DashForms | absl/flags/parse.cc:805-835 | positional are exactly the arguments without a dash and the dash alone; --, and a dash or two followed by an equals sign, end the flags |
| FlagArguments.SingleDash | absl/flags/parse.cc:284-290 | -foo is what --foo is |
| FlagArguments.UnknownForms | absl/flags/parse.cc:843-854 | a name no flag goes by is one of the eight usage flags or unrecognized, with a value or without |
| FlagArguments.UsageNames | absl/flags/internal/usage.cc:485-538 | the usage flags are help, its five longer forms, version and only_check_args |
| FlagArguments.LineReads | absl/flags/parse.cc:207-236 | a line of a flag file after its leading space: blank or a comment, a flag, or refused |
| FlagArguments.FileJoin | absl/flags/parse.cc:204-237 | lines are read one by one and in order |
| FlagArguments.FilesInOrder | absl/flags/parse.cc:353-367 | files are loaded one by one and in order |
| FlagArguments.FilesReadable | absl/flags/parse.cc:353-367 | loading files succeeds exactly if each is there and none of their lines is refused |
| FlagArguments.FileOfOneFlag | absl/flags/parse.cc:193-240 | a file of one flag becomes a list of that flag behind the stand-in for the program name; an absent file fails |
| FlagArguments.FileReadable | absl/flags/parse.cc:193-240 | a flag file can be read exactly if each line is blank, a comment or a flag other than the bare -- |
| FlagArguments.VariablesReadable | absl/flags/parse.cc:384-405 | variables can be read exactly if no environment generator is named and no required variable is absent |
| FlagArguments.NoLookAhead | absl/flags/parse.cc:284-306 | an argument with an equals sign never uses up the next one |
| FlagArguments.ReadFromFlagfile | absl/flags/parse.cc:193-240 | a file succeeds exactly if every line is blank, a comment or a flag, and then yields its flags behind a stand-in for the program name |
| FlagArguments.ReadFlagsFromEnv | absl/flags/parse.cc:374-415 | succeeds exactly if no environment generator is named and no required variable is missing, and then yields one argument per variable present |
| FlagArguments.VariableAssigns | absl/flags/parse.cc:394-407 | the variable FLAGS_foo becomes one argument that assigns its value to foo; an empty value is refused by a boolean flag |
| FlagArguments.AbsentVariable | absl/flags/parse.cc:394-405 | an absent variable adds nothing under --tryfromenv and fails the whole list under --fromenv |
| FlagArguments.EnvJoin | absl/flags/parse.cc:384-408 | variables are read one by one and in order, and any that is refused fails all |
| FlagArguments.DirectRecursionRefused | absl/flags/parse.cc:384-392 | a list that names an environment generator is refused as a whole |
| FlagExpansion.GeneratorForms | absl/flags/parse.cc:110-160 | --flagfile, --fromenv and --tryfromenv followed by names bring in those files, required variables, or variables; without names, and on other flags, nothing |
| FlagExpansion.Deeper | absl/flags/parse.cc:353-477 | an expansion that is finite at some depth is the same at any greater depth |
| FlagSources.ProbeMatches | absl/flags/parse.cc:353-477 | looking ahead with the set of sources being expanded foresees how the expansion ends, at a depth of one more than the sources not in that set |
| FlagSources.Descend | absl/flags/parse.cc:353-477 | where a list leads back to a source being expanded, that source would have to be finite at a smaller depth: infinite descent |
| FlagSources.MetAgainIsEndless | absl/flags/parse.cc:353-392 | an argument list on which some file or variable is met again inside its own expansion is endless at every depth |
| FlagSources.CycleIsEndless | absl/flags/parse.cc:353-392 | lists that lead round to each other, by files or variables, are endless, and so is everything that leads to them |
| FlagSources.RankedProbe | absl/flags/parse.cc:384-392 | if what each source holds brings in only lower-ranked ones, no source is met again; arguments used up as values do not matter |
| FlagSources.SelfInclusionIsEndless | absl/flags/parse.cc:353-367 | the smallest such cycle: a flag file that names itself |
| FlagMachine.PushedFirst | absl/flags/parse.cc:348-367 | lists pushed in reverse are processed in their listed order, each to its end, before what was on the stack |
| FlagMachine.EventLeaves | absl/flags/parse.cc:785-877 | one iteration takes exactly one argument off what is left to do, and puts what it generates in front of the rest |
| FlagMachine.LoopRefinesExpansion | absl/flags/parse.cc:785-877 | whenever the expansion is finite the loop stops, having done exactly what the expansion says, a failed check, a terminator or an emptied stack included |
| FlagMachine.StopsOnlyIfFinite | absl/flags/parse.cc:785-877 | if the loop stops, the expansion was finite |
| FlagMachine.LoopEndsIffFinite | absl/flags/parse.cc:785-877 | the loop ends exactly if the expansion is finite at some depth |
| FlagTermination.ExpansionForeseen | absl/flags/parse.cc:785-877 | the verdict told before the parse is right: at a depth of one more than there are sources the expansion has ended normally or with a failed check, or it is endless at every depth |
| FlagTermination.LoopEndsIffNothingMetAgain | absl/flags/parse.cc:785-877 | the loop ends exactly if no source is met again inside its own expansion |
| FlagTermination.RankedParsesEnd | absl/flags/parse.cc:785-877 | if sources can be ranked, every command line and every preset of the generators is parsed to its end |
| FlagTermination.PresetsFirst | absl/flags/parse.cc:421-477 | generators pending before the parse are processed first, the latest kind first, and any that cannot be read fails it |
| FlagResults.NeverPending | absl/flags/parse.cc:444-474 | when the loop ends no generator is pending |
| FlagResults.LastAssignmentWins | absl/flags/parse.cc:863-876 | a flag has the value of its last successful assignment in the order of the expansion |
| FlagResults.UntouchedKeeps | absl/flags/parse.cc:863-876 | a flag that no processed argument sets keeps its value |
| FlagResults.SpecifiedIffSet | absl/flags/parse.cc:866-876 | a flag is recorded as specified exactly if some processed argument set it |
| FlagResults.SettersAre | absl/flags/parse.cc:863-876 | over every expansion, an argument sets a flag exactly if it assigns to the flag registered under the name, that flag is not retired, and it is one of the parser's own or accepts the value |
| FlagResults.RetiredNeverSet | absl/flags/reflection.cc:267-271 | no argument of any expansion sets a retired flag |
| FlagResults.SuccessIffAllFine | absl/flags/parse.cc:784-877 | the parse succeeds exactly if every value was deduced and accepted (or its flag retired) and every generator could be read |
| FlagResults.FlagfilesCollected | absl/flags/parse.cc:447-450 | the collected flag files are those argv itself named, in order, without nested ones |
| FlagResults.ArgvIsScanned | absl/flags/parse.cc:785-877 | whatever files and variables hold, the arguments of argv are processed as scanning argv alone would |
| FlagResults.ScanRoles | absl/flags/parse.cc:805-877 | each element of argv is a processed argument, the value of the one before it, or after the terminator, and never two of these |
| FlagResults.ScanIncreases | absl/flags/parse.cc:785-816 | the processed elements of argv come in increasing order |
| FlagResults.PositionalByRole | absl/flags/parse.cc:881-887 | the positional elements are, in increasing order, exactly those whose role is positional or after the terminator |
| FlagResults.ArgvOfExpansion | absl/flags/parse.cc:772-887 | the positional output of a finished parse is that of scanning argv alone |
| FlagParser.StepStaysValid | absl/flags/parse.cc:183-186 | no iteration moves a cursor past the end of its list |
| FlagParser.Parser.ReadFlagfiles | absl/flags/parse.cc:353-367 | reads the files last first, pushing those that can be read |
| FlagParser.Parser.HandleGeneratorFlags | absl/flags/parse.cc:421-477 | pushes what the pending generators bring in, collects flag files only from argv, and leaves nothing pending |
| FlagParser.Parser.DeduceFlagValue | absl/flags/parse.cc:512-596 | the value deduced, and the cursor moved on exactly if the next argument was used up |
| FlagParser.Parser.ParseArgument | absl/flags/parse.cc:805-876 | the whole effect of the argument the top list stands at |
| FlagParser.Parser.ParseNext | absl/flags/parse.cc:785-877 | one iteration of the loop is one step of the machine |
| FlagParser.Parser.ParseAll | absl/flags/parse.cc:785-877 | the loop ends with a finite expansion carried out |
| FlagParser.Parser.ResetGeneratorFlags | absl/flags/parse.cc:481-503 | the collected flag files become the value of flagfile, and the environment generators are emptied |
| FlagParser.Parser.FilterUnrecognized | absl/flags/parse.cc:894-903 | keeps, in order, what the final undefok does not allow |
| FlagParser.KeptExactly | absl/flags/parse.cc:600-612 | dropped is every unrecognized flag whose name is in undefok or is no followed by a name that is, however often it occurs, and no other |
| FlagParser.KeptInOrder | absl/flags/parse.cc:894-903 | what is kept is kept in order |
| FlagParser.FinalAssigned | absl/flags/parse.cc:863-887 | any flag but the generators ends with its last successful assignment in the order of the expansion |
| FlagParser.FinalUntouched | absl/flags/parse.cc:863-887 | any flag but the generators that nothing sets ends as it was |
| FlagParser.FinalGenerators | absl/flags/parse.cc:481-503 | the environment generators end empty; flagfile ends as the files argv and the caller named, or else as its last assignment anywhere, or else as it was |
| FlagParser.RetiredUnchanged | absl/flags/parse.cc:866-876 | a retired flag is never recorded as specified and ends with the value it had before the parse |
| FlagParser.Parser.ParseAbseilFlagsOnly | absl/flags/parse.cc:748-920 | from the expansion alone: whether a check fails, the positional output, all values, the unrecognized and specified flags, and success |
| FlagParser.Parser.WasPresentOnCommandLine | absl/flags/parse.cc:646-653 | true exactly for the names recorded as specified; a failed check before any parse |
| EditDistance.DistanceIsLeast | absl/strings/internal/damerau_levenshtein_distance.cc:25-33 | no script of keeps, substitutions, deletions, insertions and neighbour swaps is cheaper than the distance |
| EditDistance.DistanceIsAttained | absl/strings/internal/damerau_levenshtein_distance.cc:25-33 | some script is exactly that cheap |
| EditDistance.DistanceSymmetric | absl/strings/internal/damerau_levenshtein_distance.cc:40-40 | swapping the strings does not change the distance |
| EditDistance.CombinedIsGood | absl/strings/internal/damerau_levenshtein_distance.cc:75-85 | a cell computed from its neighbours never undercuts the distance and is exact wherever a path within the cutoff can come through |
| EditDistance.BeyondBand | absl/strings/internal/damerau_levenshtein_distance.cc:47-51 | no path within the cutoff leaves the band, so the cells beside it may hold cutoff + 1 |
| EditDistance.FillRow | absl/strings/internal/damerau_levenshtein_distance.cc:57-86 | a row filled from the two above it is right, reading only cells that were written |
| EditDistance.FitsByte | absl/strings/internal/damerau_levenshtein_distance.cc:76-84 | no sum of a cell and an edit leaves 8 bits |
| EditDistance.CappedDamerauLevenshteinDistance | absl/strings/internal/damerau_levenshtein_distance.cc:34-88 | the banded table in an uninitialised buffer returns the smaller of the distance and cutoff + 1, and cutoff + 1 for strings over 100 characters |
| MisspellingHints.NearestIsNearest | absl/flags/parse.cc:657-673 | the best distance is the least of all those seen, or the limit if all are farther |
| MisspellingHints.AtExactly | absl/flags/parse.cc:659-668 | a hint is listed exactly if its candidate is at that distance |
| MisspellingHints.UsedUntilFull | absl/flags/parse.cc:660-660 | candidates are passed over only once the list holds 100 hints |
| MisspellingHints.OneMore | absl/flags/parse.cc:659-669 | how one more candidate changes the closest ones |
| MisspellingHints.BestHints.AddHint | absl/flags/parse.cc:659-669 | appends, replaces or ignores, and refuses once the list is full |
| MisspellingHints.BestHints.Consider | absl/flags/parse.cc:682-692 | a distance capped at the best so far decides as the full distance would |
| MisspellingHints.GetMisspellingHints | absl/flags/parse.cc:677-702 | the hints are exactly the closest candidates, in order, of those seen before the list was full |
| MisspellingHints.CandidatesOfFlags | absl/flags/parse.cc:681-694 | a flag is a candidate under its name, a boolean one also under no and its name, one flag after the other |
| MisspellingHints.CandidatesOfUndefok | absl/flags/parse.cc:696-701 | each name in undefok is a candidate marked so |
| MisspellingHints.Suggests | absl/flags/parse.cc:658-669 | something is suggested exactly if some candidate looked at is within two edits of a name of at most one character, three of one of two or three, four of a longer one |
| MisspellingHints.HintsAreNear | absl/flags/parse.cc:678-678 | nothing farther away than that is ever suggested |
| MisspellingHints.StatedLimit | absl/flags/parse.cc:89-90 | only distances below three are suggested exactly if there is a candidate that close, or nothing is suggested; for every stream of candidates |
| MisspellingHints.FourEditsAway | absl/flags/parse.cc:89-90 | the limit fails with the four flags of the parser and one more: a name four edits away is suggested |
| StrokePath.InkStrokePathSmoother.Start | Sources/InkStrokeModelerSwift/InkStrokePathSmoother.swift:55-82 | the whole new state, also when the modeler throws at either call |
| StrokePath.InkStrokePathSmoother.Append | Sources/InkStrokeModelerSwift/InkStrokePathSmoother.swift:85-100 | the same for an update |
| StrokePath.InkStrokePathSmoother.End | Sources/InkStrokeModelerSwift/InkStrokePathSmoother.swift:105-136 | the same for the end, where a final move may be drawn before the call throws; returns the finished path |
| StrokePath.InkStrokePathSmoother.AppendResultsToPath | Sources/InkStrokeModelerSwift/InkStrokePathSmoother.swift:138-155 | a batch goes on where the path left off, with a move if there was none |
| StrokePath.InkStrokePathSmoother.ResetPath | Sources/InkStrokeModelerSwift/InkStrokePathSmoother.swift:46-52 | back to a fresh helper |
| StrokePath.PathIsWhatWasSampled | Sources/InkStrokeModelerSwift/InkStrokePathSmoother.swift:46-155 | after any run of calls, throwing ones included, the path is a move to the first sample returned since the last reset and then lines through all others, in order |
| StrokePath.ThrowsExactly | Sources/InkStrokeModelerSwift/InkStrokePathSmoother.swift:46-136 | after any run, which calls throw: told from the phase of the helper and the outcomes of the modeler calls |
| StrokePath.EndFinishes | Sources/InkStrokeModelerSwift/InkStrokePathSmoother.swift:105-136 | an end that does not throw finishes the path through every sample since the last reset, its own included |
| StrokePath.EndedIsFinal | Sources/InkStrokeModelerSwift/InkStrokePathSmoother.swift:105-136 | after a successful end every call but a reset throws and changes nothing |
| StrokePath.StartsOnce | Sources/InkStrokeModelerSwift/InkStrokePathSmoother.swift:62-73 | a start that threw after the modeler was reset still counts: no other start succeeds before a reset |

## Left out

- CrcEngine.Crc32.ExtendBytes: the prefetch hints and the SIMD engines selected by `TryNewCRC32AcceleratedX86ARMCombined` are not part of this model.
- Crc32c.ExtendCrc32cInline: each hardware instruction is taken to run its bytes through the register, as its manual says.
- `MemcpyCrc32c`, the non-temporal copies and `Scramble`: plumbing around the same register.
- CallOnce.Step: sequentially consistent atomic steps only; weak memory orders, scheduling modes, the delays of platforms without futexes and an fn that throws are not modelled.
- FlagReflection.FlagRegistry.FindFlag: operations are atomic; a lookup that races with finalization is not modelled, nor is `FlagSaver`.
- Floating-point and 128-bit flag values, and the debug check that default values survive a round trip.
- FlagArguments.Classify: usage flags such as `--help` are recognised but their help modes and output are not modelled.
- FlagParser.Parser.ParseAbseilFlagsOnly: the caller's output vectors start empty, and reporting of errors and the exit in `ParseCommandLineImpl` are left away.
- FlagParser.Parser.DeduceFlagValue: the warning for a string value that looks like a flag is only logged, and is left away.
- FlagArguments.EnvName: names of variables are strings without an end marker, so a name with an embedded NUL is not cut short.
- MisspellingHints.GetMisspellingHints: the order in which registered flags are visited is an input.
- StrokePath.Sample: coordinates are reals; the conversion from single precision and the drawing library are not modelled.
- The stroke modeler, its foreign function interface, containers, hashing, logging and platform macros.
