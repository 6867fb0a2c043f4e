# Single event upset detector — Dafny model

The detector allocates a memory region, fills it with a "zebra" pattern of
alternating all-zero and all-ones 64-bit words, and on every key press scans
the region. Each word that no longer holds its pattern value is reported as a
single event upset (SEU) and overwritten with all-ones. The region size comes
from the first command-line argument, meant as a decimal number followed by a
decimal unit letter (k, M, G, T, P, E; either case). The argument is read by
its last character:
- a unit letter scales the number by its power of 1000; with k the number must
  be even to pass the rule that the size be a multiple of 16 bytes, with M or
  above any number passes;
- a character below '0' (a space, '.', '-', ...) is dropped, and the number
  is read bare, so "1600 " watches 1600 bytes;
- a final '1' leaves the number unscaled; `stoi` stops at the first
  non-digit, so "16x1" watches 16 bytes;
- any other final character, including every other digit, is rejected.

So an argument made only of digits never starts the watch: it is accepted
only when its last digit is 1, and is then odd. Without an argument, or with
an empty one, the size is 8 GB.

The model has four modules.

- `SizeParser` (`size_parser.dfy`) covers `process_opts`. It is pure and
  written as functions:
  - `std::stoi` on its success path;
  - the fall-through `switch` cascade, with `size_t` wrap-around modulo 2^64;
  - the last-character test exactly as written;
  - a corrected parser.
- `Zebra` (`zebra.dfy`) covers the pattern and `set_zebra`. `set_zebra` is a
  method on an `array<bv64>` that writes two words per step.
- `Scan` (`scan.dfy`) covers `check_next` and `check_and_repair_mem`. Both are
  methods on the same array. Each is specified by:
  - `Repaired`, the region after a pass;
  - `Upsets`, the ordered list of words a pass reports.
- `Launch` (`launch.dfy`) covers `main`'s start-up decision. It handles the
  failed parse, the `size_byte % 16` check and `size_byte / 8`. It also models
  the first `set_zebra` then `check_and_repair_mem` sequence.

## Model

| member | source | states |
|---|---|---|
| SizeParser.ProcessOpts | src/single_event_upset_detector.cpp:19-74 | no argument or an empty one gives 8 000 000 000 and no failure; a failure leaves size 0 and happens only when the (possibly replaced) last character is none of the switch labels |
| SizeParser.ProcessOptsByLastChar | src/single_event_upset_detector.cpp:28-69 | a non-empty argument is read one of four ways by its last character: a unit letter scales stoi of the whole argument by 1000^k mod 2^64; a character below '0' is stripped; '1' leaves the value unscaled; anything else fails with size 0 |
| SizeParser.Stoi | src/single_event_upset_detector.cpp:35 | `stoi` on an argument that starts with a digit gives a value no larger than INT_MAX; `StoiOfDecimal` gives its value |
| SizeParser.StripsSuffix | src/single_event_upset_detector.cpp:30 | the test at line 30 holds exactly for a character below '0' or a byte of 0x80 and above (negative as a signed `char`), and never for a digit |
| SizeParser.StoiInput | src/single_event_upset_detector.cpp:30-32 | the string handed to `stoi` is the argument, or the argument without its stripped last character; either way it has the same leading digits, so `stoi` reads the same number and succeeds on both or on neither |
| SizeParser.Scale | src/single_event_upset_detector.cpp:37-63 | after at least one `size *= 1000` the size is a multiple of 8; after exactly one it is a multiple of 16 exactly when the number was even; after two or more it always is, overflow included |
| SizeParser.ScaleIsPower | src/single_event_upset_detector.cpp:37-63 | entering the fall-through cascade k labels above `case '1'` multiplies by 1000^k modulo 2^64, however far that overflows |
| SizeParser.DigitRun | src/single_event_upset_detector.cpp:35 | the digit prefix `stoi` consumes is all digits and is followed by a non-digit or the end |
| SizeParser.StoiOfDecimal | src/single_event_upset_detector.cpp:35 | `stoi` reads back the decimal rendering of any number up to INT_MAX, whatever non-digit text follows it |
| SizeParser.AsWrittenPlainNumber | src/single_event_upset_detector.cpp:28-68 | as written, a bare number is accepted exactly when its last digit is 1, and is then read unchanged; any other bare number fails |
| SizeParser.AsWrittenUnits | src/single_event_upset_detector.cpp:35-63 | a number followed by a unit letter gives that number times the unit's power of 1000, modulo 2^64 |
| SizeParser.AsWrittenTrailingMark | src/single_event_upset_detector.cpp:28-35 | a number followed by a character below '0' loses that character and is read as the bare number, unscaled |
| SizeParser.AsWrittenUnknownLetter | src/single_event_upset_detector.cpp:65-68 | a number followed by a letter outside the unit table fails with size 0 |
| SizeParser.ProcessOptsIntended | src/single_event_upset_detector.cpp:28-69 | the corrected parser keeps the default for no or empty argument, and a failure leaves size 0 |
| SizeParser.IntendedRoundTrip | src/single_event_upset_detector.cpp:28-63 | with the corrected digit test every number up to INT_MAX round-trips bare, and scales by its unit when followed by one |
| SizeParser.IntendedAgreesElsewhere | src/single_event_upset_detector.cpp:28-69 | the code and the corrected parser give the same result for every argument except those ending in a digit other than '1' or in a character below '0' |
| SizeParser.UnitExamples | src/single_event_upset_detector.cpp:35-63 | "1k" is 1000, "2M" is 2 000 000 and "1G" is 10^9 bytes |
| SizeParser.RejectionExamples | src/single_event_upset_detector.cpp:28-68 | "5x" fails; as written "16" fails and "11" is read as 11 |
| Zebra.ExpectedAlternates | src/single_event_upset_detector.cpp:101-103 | the word compared at index i is 0 exactly at even i and all-ones exactly at odd i, and neighbours differ |
| Zebra.Pattern | src/single_event_upset_detector.cpp:76-81 | the pattern has n words: 0 at every even index, all-ones at every odd index |
| Zebra.SetZebra | src/single_event_upset_detector.cpp:76-81 | after `set_zebra(mem, n)` the first n words hold the pattern and no word past n changes |
| Scan.RepairWord | src/single_event_upset_detector.cpp:84-93 | a word is kept when it matches and becomes all-ones otherwise; a word that changes did not match |
| Scan.Repaired | src/single_event_upset_detector.cpp:83-95 | a pass keeps matching words and turns every mismatching word into all-ones; afterwards odd words are all-ones and even words are 0 or all-ones |
| Scan.Upsets | src/single_event_upset_detector.cpp:84-89 | a pass over m words draws at most m reports, one per word at most; which words they are is stated by `UpsetsSpec` |
| Scan.UpsetsSpec | src/single_event_upset_detector.cpp:84-91 | a pass reports every word that differs from the pattern and nothing else, once each and in increasing order |
| Scan.UpsetsEmpty | src/single_event_upset_detector.cpp:97-107 | a pass reports nothing exactly when the scanned words hold the pattern |
| Scan.UpsetsPrefix | src/single_event_upset_detector.cpp:97-105 | the reports of a pass over the first m words depend only on those words, not on the rest of the allocation |
| Scan.ScanPair | src/single_event_upset_detector.cpp:100-105 | one round of the loop moves the repaired prefix two words on and appends the reports of exactly those two words |
| Scan.ScanComplete | src/single_event_upset_detector.cpp:100-105 | once all n words are scanned, the reports collected are those of the first n words, there are some exactly when those words differ from the pattern, the first n words hold their repair and the rest is untouched |
| Scan.CheckNext | src/single_event_upset_detector.cpp:83-95 | the word is reported, and the flag becomes "already set or this word differs", exactly when the word differs from `expected`; a differing word becomes all-ones; no other word changes |
| Scan.CheckPair | src/single_event_upset_detector.cpp:100-105 | one round of the loop reports the even word against 0 and then the odd word against all-ones, raises the flag on any report, and repairs just those two words |
| Scan.CheckAndRepairMem | src/single_event_upset_detector.cpp:97-108 | the result is true exactly when the first n words did not hold the pattern on entry; afterwards they hold their repair; words past n are untouched; the reports gathered from `check_next` are exactly `Upsets` of the first n words on entry |
| Scan.PatternPasses | src/single_event_upset_detector.cpp:76-108 | a freshly written pattern draws no report and is left as it is |
| Scan.UpsetsOfOneMismatch | src/single_event_upset_detector.cpp:97-105 | with a single corrupted word k, scanning m words reports [k] once k < m and nothing before |
| Scan.SingleUpset | src/single_event_upset_detector.cpp:83-105 | one corrupted word in the pattern is reported exactly once and ends up all-ones, even where 0 was expected |
| Scan.SecondPass | src/single_event_upset_detector.cpp:93-107 | a second pass reports again exactly the even-index words the first one reported, and it changes nothing |
| Launch.Startup | src/single_event_upset_detector.cpp:110-122 | start-up exits with status 1 exactly when parsing failed or the size is not a multiple of 16; otherwise it watches size/8 words, an even count |
| Launch.WholePairs | src/single_event_upset_detector.cpp:118-122 | a size that passes the 16-byte test is a whole number of words, and that number is even |
| Launch.NoBareNumberStarts | src/single_event_upset_detector.cpp:110-122 | every number up to INT_MAX written with digits only, as written, ends the program with status 1: it fails to parse or is odd |
| Launch.MarkedNumberStartup | src/single_event_upset_detector.cpp:110-122 | a number followed by a character below '0' starts the watch exactly when the number is a multiple of 16 |
| Launch.StartupWithTrailingSpace | src/single_event_upset_detector.cpp:110-122 | "1600 " starts the watch over 1600 bytes, that is 200 words |
| Launch.StartupEndingInOne | src/single_event_upset_detector.cpp:110-122 | "16x1" starts the watch over 16 bytes, that is 2 words, since `stoi` stops at the 'x' |
| Launch.UnitStartup | src/single_event_upset_detector.cpp:110-122 | a number with a unit letter starts the watch exactly when the unit is M or above, or the number is even |
| Launch.DefaultStartup | src/single_event_upset_detector.cpp:15-26 | with no argument, or an empty one, the program watches 8 000 000 000 bytes, that is 10^9 words |
| Launch.StartupWithUnits | src/single_event_upset_detector.cpp:113-122 | "1k" (1000 bytes) exits because of the 16-byte rule, while "2k" watches 250 words |
| Launch.InitializeThenCheck | src/single_event_upset_detector.cpp:159-177 | `set_zebra` followed by an undisturbed `check_and_repair_mem` reports no upset and leaves the pattern in place |
| Launch.CheckTwice | src/single_event_upset_detector.cpp:165-177 | two passes in a row, as two key presses give: the first reports `Upsets` of the region on entry, the second reports `Upsets` of its repair, which are exactly the even-index words the first reported, the second finds an upset only if the first did, and the region ends up repaired once |

## Left out

- Memory allocation, `mlock`/`munlock`, `free` and the `errno` reporting are left out (main, lines 124-155 and 188-193). The model starts from an array that already exists. The region is an `array<bv64>` of at least `n` words, so pointer arithmetic becomes array indices.
- The interactive loop is left out: `cin.get()` waiting for return, and the endless `for (;;)`. Instead, `InitializeThenCheck` models the first pass. `SecondPass` and `SingleUpset` cover later passes.
- Clock readings, time formatting, `elapsed_time` and `amount_formatter` are left out. The console and error-stream messages are left out too, including the `bitset<64>` rendering. The ghost `Upsets` list stands for the per-word report lines.
- Scan.CheckPair: it is not a function of the source; it is the body of the loop at lines 100-105, factored out so that the loop's proof stays small.
- Scan.CheckNext: the pointer parameter is an index. Advancing the pointer is the caller's `p := p + 1`, as in `check_and_repair_mem`.
- The file `elapsed_time.h` is not part of this model, and neither is `amount_formatter.h`.
- SizeParser.ProcessOpts: the requirement that `stoi` succeeds (`ArgParsable`) is a precondition. The model does not cover the exceptions `stoi` throws on a non-numeric or out-of-range argument, which end the program.
- SizeParser.Stoi: leading whitespace, a sign and a negative value are not modelled. The model covers only an argument that starts with a digit, so a negative `int` converted to `size_t` is not modelled either.
- SizeParser.SignedChar: plain `char` is taken to be signed, as on x86 and x86-64. On an unsigned-`char` platform, bytes 0x80-0xFF would not be stripped.
- Launch.Startup: `argc` is taken to be `|argv|`.
- Launch.Startup: an argument with embedded NUL bytes, which a C string cannot carry, is not excluded.

## Findings

| source | as written | input that shows it | evidently intended | confidence | as-written member | corrected member |
|---|---|---|---|---|---|---|
| src/single_event_upset_detector.cpp:30 | `suffix < '0' && suffix <= '9'`, which reduces to `suffix < '0'`, so a final digit stays in the `switch` and only '1' matches a label | the argument "16" fails with "unknown unit prefix letter: 6"; "1600" and "32" fail too, while "11" is accepted | a final digit means "no unit" and the whole argument is the byte count; any other final character is a candidate unit letter. (Flipping the test to `suffix >= '0'` would not be enough, because line 32 would then drop the final digit.) | high (not executed) | SizeParser.AsWrittenPlainNumber | SizeParser.IntendedRoundTrip |

The test at line 30, `suffix < '0' && suffix <= '9'`, is evidently meant as a
digit test, so a bare number is meant to be read unchanged. The code does not
do this, and the model follows the code:
`SizeParser.ProcessOpts`, and `Launch.Startup` which is built on it, reproduce
what the program does. The corrected reading is
`SizeParser.ProcessOptsIntended`, and only that version satisfies the
bare-number round trip. `SizeParser.IntendedAgreesElsewhere` shows where the
two readings differ: only on arguments whose last character is a digit other
than '1', or is below '0'. The consequence at start-up is
`Launch.NoBareNumberStarts`: as written, no argument made only of digits
starts the watch.
