# py-file-recovery carving engine, modelled in Dafny

`py-file-recovery` recovers text files from a disk, or from a disk image, by
carving. It reads the device in 4096-byte blocks. It does not use the file
system.

Four passes look for text in each block:

- the whole block;
- a sliding window of 512 bytes that moves 256 bytes at a time;
- a reconstruction of text split across blocks, made from a ring buffer of
  recent blocks;
- on every tenth block, windows at seven fixed offsets.

Every text found is deduplicated by a fingerprint of its first 100
characters. It is then named: the engine uses a file name found in the text
when there is one, and a generic `recovered_NNNNN` name otherwise. Next it is
filtered: system files and system directories can be excluded, and a list of
allowed types and a name search can be given. A text that passes is listed.
In preview mode that is all; otherwise it is written to the output directory
under the first free name. A memory budget limits the scan. The
deduplication set is cleaned up periodically. A cancellation stops the scan
after the current read.

The model has one Dafny module per source file:

| module | file | source |
|---|---|---|
| `Config` | `config.dfy` | `models/config.py` |
| `EncodingUtils` | `encoding.dfy` | `utils/encoding_utils.py` |
| `Detection` | `detection.dfy` | `services/detection_service.py` |
| `FileUtils` | `file_utils.dfy` | `utils/file_utils.py` |
| `Filter` | `filter.dfy` | `services/filter_service.py` |
| `Resource` | `resource.dfy` | `models/resource_config.py` |
| `Recovery` | `recovery.dfy` | `services/recovery_service.py` |

`Strings` (`strings.dfy`) models the Python `str` operations those files rely
on, such as `strip`, `split`/`join`, `lower` and `f"{n:05d}"`.

The pure parts are datatypes, functions and lemmas:

- the constants and tables;
- the text test, the encoding probe and signature detection;
- name cleaning and validation;
- the filter chain;
- the resource presets;
- the geometry of the passes.

The stateful parts are imperative:

- `RecoveryService` is a class. Its fields are the scan state: the
  fingerprint set, the ring buffer, the counters, the cancellation flag and
  the preview list. Its methods update them.
- The output directory is an `OutputDir` object holding a map from names to
  contents.
- The loops of the source are `while` or `for` loops. Examples are the
  printable-run walk of `is_text`, the character loop of `clean_filename`,
  the candidate loops of the filename extractor, `_reconstruct_text`, the
  collision loop of `_save_file`, the window and offset passes, and the read
  loop.

Each method is proved against specification functions:

- `Schedule` gives the blocks the read loop processes and why it stops.
- `Cleaned`, `Candidates`, `ValidNames` and `Longest` specify the loops of
  the name pipeline and of the reconstruction.
- `BlockTexts` gives the texts the passes offer for a block.

The properties of the source are then proved about these functions.

Everything outside the process is an input:

- The device is a sequence of `Step`s. Each step is one read outcome, whether
  `cancel()` had been called by then, and the two resident-memory readings of
  the limit check.
- Opening the device and creating the output directory are outcomes given as
  parameters.
- The machine's total and free memory are parameters of the presets.
- Character decoding, the Unicode character classes (`isprintable`,
  `isalnum` and `\d` beyond ASCII), the seven filename regular expressions
  and the wildcard full-match are oracle functions in `Recovery.Env` and
  `FileUtils.UnicodeClasses`.

Where the code departs from what its docstrings and comments promise, the
model follows the code:

- `convert_wildcard_to_regex` turns `*` into `..*`. The third replacement
  rewrites the `.*` that the first one produced, so `*` needs at least one
  character (`Filter.WildcardTranslation`).
- `apply_filters` calls `matches_search` without types, and that call accepts
  every non-empty name. The search argument therefore never rejects anything
  (`Filter.SearchNeverRejects`).
- `clean_filename` is not idempotent (`FileUtils.CleanNotIdempotent`).
- `is_valid_filename`'s digits-only test can never reject a name
  (`FileUtils.LetterIsNotNumericJunk`).
- `detect_file_type`'s final text fallback is unreachable
  (`Detection.FallbackUnreachable`).
- Twelve rows of the signature table can never be reported
  (`Detection.FirstFiringRowUnshadowed`).
- The strict type check of `_save_file` never rejects a file that the filters
  passed (`Recovery.RecoveryService.StrictTypeCheck`).
- The window pass's length test is implied by `detect_encoding`
  (`Recovery.WindowLengthTestRedundant`).
- With little free memory, the low-resource preset can allow more memory than
  the balanced one (`Resource.LowCanExceedBalanced`).
- A name that merely contains a system file name, such as
  `my_win.ini_notes.txt`, counts as a system file
  (`Config.SubstringSystemFile`).
- `recover_files` does not reset `last_cleanup_blocks`.
- After a skipped bad sector on a physical drive, positions are computed from
  the count of processed blocks. Later positions therefore lag the true
  offset.
- A `MemoryError` is re-raised as the generic scan error, like every error
  other than `PermissionError`.

## Model

| member | source | states |
|---|---|---|
| Config.NewConfig | models/config.py:159-166 | A `Config` object holds the module constants: blocks of 4096 bytes, a minimum text length of 200, windows of 512 bytes moving by 256, and the encodings utf-8, latin-1, windows-1252, cp850 and ascii in that order |
| Config.GetAllTypes | models/config.py:46-49 | The 23 declared type labels, in declaration order, `txt` first |
| Config.GetSignatures | models/config.py:41-44 | The magic prefixes of a known label; the empty list for an unknown label |
| Config.LookupMagics | models/config.py:41-44 | Dictionary lookup: the prefixes of the first row with the label, none when no row has it |
| Config.LabelsDistinct | models/config.py:15-39 | No label is declared twice, so a lookup by label is unambiguous |
| Config.ContainsAnyOf | models/config.py:73-75 | The early-return loop is true exactly when some listed name occurs in the string |
| Config.EndsWithAnyOf | models/config.py:82-84 | The early-return loop is true exactly when the string ends with some listed suffix |
| Config.IsSystemFile | models/config.py:64-86 | Never for the empty name; otherwise exactly when the lower-cased name contains a system file name, starts with `$` or ends with a system extension |
| Config.SubstringSystemFile | models/config.py:72-75 | The name test is a substring test: a user file named `my_win.ini_notes.txt` is a system file |
| Config.NormalizePath | models/config.py:128 | The path lower-cased character by character, with every `/` turned into `\`: same length, no `/` left, and a `\` exactly where the path had `\` or `/` |
| Config.MatchesAnyDirectory | models/config.py:152-154 | The loop is true exactly when some listed directory matches one of its patterns |
| Config.IsSystemDirectory | models/config.py:113-156 | Never for the empty path; otherwise exactly when one of the five patterns matches a listed directory in the normalised path |
| Config.EndsAtDollar | models/config.py:141-150 | The regular expression `x$` matches exactly when the path ends with `x`, or with `x` and a newline |
| Config.DriveSeparatorPattern | models/config.py:141-150 | A match of `[a-z]:\d\` contains a match of `\d\` |
| Config.DriveEndPattern | models/config.py:141-150 | A match of `[a-z]:\d$` contains a match of `\d$` |
| Config.DirectoryPatternSimplified | models/config.py:141-150 | The two drive-letter patterns add nothing: a directory matches exactly when it appears between separators, after a final separator, or at the start followed by a separator |
| Config.PatternNeedsSeparator | models/config.py:141-150 | Every pattern needs a `\` in the normalised path |
| Config.BareNameNotSystemDirectory | models/config.py:113-156 | A bare file name, with neither `\` nor `/`, is never in a system directory |
| Config.NormalizeWindowsExample | models/config.py:128 | Normalising `C:\Windows\a.txt` lower-cases it |
| Config.WindowsIsSystemDirectory | models/config.py:113-156 | A file under `Windows`, in any letter case, is in a system directory |
| Config.SingleSeparatorMatch | models/config.py:141-150 | In a path with one separator, a directory matches only as the whole segment before or after it |
| Config.NoDoubleSeparator | models/config.py:141-150 | A path with one separator contains no piece that starts and ends with a separator |
| Config.SeparatorEnd | models/config.py:141-150 | In a path with one separator, a suffix that starts with the separator is the whole last segment |
| Config.SeparatorStart | models/config.py:141-150 | In a path with one separator, a prefix ending at the separator is the whole first segment |
| Config.NormalizeDriveRootExample | models/config.py:128 | Normalising `D:\myprogram_notes.txt` only lower-cases the drive letter |
| Config.DriveRootSegmentsUnlisted | models/config.py:92-111 | Neither segment of `d:\myprogram_notes.txt` is a listed directory |
| Config.ProgramSubstringNotSystemDirectory | models/config.py:113-156 | A file at a drive root whose name merely contains `program` is not in a system directory |
| EncodingUtils.PrintableCount | utils/encoding_utils.py:12-13 | At most one printable byte per byte |
| EncodingUtils.Ratio | utils/encoding_utils.py:12-14 | The printable share lies between 0 and 1 |
| EncodingUtils.IsText | utils/encoding_utils.py:7-30 | The counting loop and the run walk decide exactly `LooksLikeText`: at least ten bytes, and either a printable share reaching the threshold, or a printable run of 50 bytes with at least half the bytes printable; spans under ten bytes are never text |
| EncodingUtils.RunExtends | utils/encoding_utils.py:17-27 | A printable byte extends the current run, and no longer run ends there |
| EncodingUtils.RunBroken | utils/encoding_utils.py:17-27 | A non-printable byte resets the run: no printable run ends right after it |
| EncodingUtils.LongestRunDecides | utils/encoding_utils.py:17-30 | The longest run decides the run criterion |
| EncodingUtils.AllPrintableCount | utils/encoding_utils.py:12-14 | In an all-printable span every byte is counted |
| EncodingUtils.AllPrintableIsText | utils/encoding_utils.py:7-30 | An all-printable span of at least ten bytes is text at every threshold up to 1 |
| EncodingUtils.ThresholdMonotone | utils/encoding_utils.py:30 | Lowering the threshold never turns text into non-text |
| EncodingUtils.BelowBothCriteria | utils/encoding_utils.py:30 | A span below the threshold that has neither a share of one half nor a run of 50 is never text |
| EncodingUtils.FirstAccepted | utils/encoding_utils.py:35-43 | The first encoding that decodes the data to enough non-blank text; all earlier encodings fail |
| EncodingUtils.DetectEncoding | utils/encoding_utils.py:33-43 | A result is the first accepted encoding, with its unstripped text of at least 200 non-blank characters; no result exactly when no encoding is accepted |
| EncodingUtils.DetectEncodingPrefersEarlier | utils/encoding_utils.py:35-42 | When several encodings are accepted, a later one is never reported |
| Detection.Head | services/detection_service.py:24 | `data[:1024]`: a prefix of at most 1024 bytes, the data itself when it is shorter |
| Detection.ScanMagics | services/detection_service.py:19-25 | A row fires exactly when one of its prefixes fires |
| Detection.FirstFiringRow | services/detection_service.py:18-25 | The first row of the table that fires; no earlier row fires |
| Detection.DetectFileType | services/detection_service.py:11-31 | Nothing for fewer than four bytes; `txt` for text; any other label belongs to a row that fires |
| Detection.TextRowFires | services/detection_service.py:22-25 | The `txt` row is first and fires on text, so text is always labelled `txt` |
| Detection.FallbackUnreachable | services/detection_service.py:27-29 | When no row fires, the data is not text, so the final fallback never answers |
| Detection.NonTextRowFires | services/detection_service.py:19-25 | On data that is not text, a row fires exactly when one of its non-empty prefixes starts the data |
| Detection.UnknownBinaryIsNone | services/detection_service.py:11-31 | Binary data without any known prefix has no type |
| Detection.ShadowedNeverFirst | services/detection_service.py:18-21 | A row whose prefixes are all also prefixes of an earlier row never fires first |
| Detection.OpenXmlRowsShadowed | models/config.py:15-39 | `docx`, `xlsx` and `pptx` are shadowed by `doc` |
| Detection.OleRowsShadowed | models/config.py:15-39 | `xls` and `ppt` are shadowed by `doc` |
| Detection.AliasRowsShadowed | models/config.py:15-39 | `jpeg` is shadowed by `jpg`, `htm` by `html`, `ini` by `json` |
| Detection.TextRowsShadowed | models/config.py:15-39 | `csv`, `log`, `cfg` and `conf` are shadowed by `txt` |
| Detection.FirstFiringRowUnshadowed | services/detection_service.py:18-25 | The twelve shadowed rows are never the answer |
| Detection.UnshadowedLabels | models/config.py:15-39 | The labels of the remaining rows are the detectable types |
| Detection.DetectedTypeIsDetectable | services/detection_service.py:11-31 | Every reported label is one of the eleven detectable types |
| Detection.FirstFiringRowByMagic | services/detection_service.py:18-21 | On data that is not text, the first row holding a non-empty prefix of the data is the first firing row |
| Detection.DetectByMagic | services/detection_service.py:11-31 | Data that is not text and begins with a prefix of a row, with no earlier row matching, gets that row's label |
| Detection.ZipHeaderIsDoc | services/detection_service.py:18-21 | A bare ZIP header is labelled `doc`, the first row that lists it |
| FileUtils.DropControls | utils/file_utils.py:22 | Only printable characters and tabs remain |
| FileUtils.ReplaceInvalid | utils/file_utils.py:25-27 | Each invalid character becomes `_`; every other character is kept in place |
| FileUtils.Transliterated | utils/file_utils.py:30-39 | The character loop maps each character on its own, keeping the length |
| FileUtils.DropTrailingDots | utils/file_utils.py:44-46 | A prefix of the input, empty only for empty input, that removes only dots and ends in a dot only when it is one character long |
| FileUtils.CleanFilename | utils/file_utils.py:9-73 | The step-by-step cleaning loop computes `Cleaned` |
| FileUtils.CleanedIsWellFormed | utils/file_utils.py:9-73 | A cleaned name has 1 to 200 characters and an ASCII letter. It holds only allowed characters and starts with none of `.`, space, `-` or `_`. It has no two neighbouring dashes or underscores and no two neighbouring blanks |
| FileUtils.PreparedIsGood | utils/file_utils.py:22-46 | The filters, the loop, the strip and the dot loop leave only allowed characters |
| FileUtils.FinishedIsWellFormed | utils/file_utils.py:49-71 | The collapses, the truncation, the leading strip and the checks make a well-formed name, or no name |
| FileUtils.TransliteratedIsGood | utils/file_utils.py:22-39 | After the filters and the character loop, every character is allowed |
| FileUtils.CollapsesAreTidy | utils/file_utils.py:49-52 | After the two substitutions, no two blanks and no two dashes or underscores are neighbours |
| FileUtils.TruncationKeepsTidy | utils/file_utils.py:59-60 | Truncating to 200 characters keeps a name tidy |
| FileUtils.LeadingStripKeepsTidy | utils/file_utils.py:63-71 | The leading strip and the final checks give a well-formed name or none |
| FileUtils.StripKeeps | utils/file_utils.py:42 | `strip()` keeps any property every character has |
| FileUtils.CollapseHead | utils/file_utils.py:49-52 | A substitution keeps the first character, or puts the replacement there |
| FileUtils.CollapseKeeps | utils/file_utils.py:49-52 | A substitution only inserts its replacement character |
| FileUtils.CollapseNoAdjacentP | utils/file_utils.py:49-52 | After collapsing runs of a class, no two characters of the class are neighbours |
| FileUtils.CollapseNoAdjacentQ | utils/file_utils.py:49-52 | Collapsing one class keeps another class apart |
| FileUtils.CollapseFixed | utils/file_utils.py:49-52 | The substitutions change nothing in a string that has no runs |
| FileUtils.PlainAsciiUnchanged | utils/file_utils.py:22-39 | The filters, the replacements and the character loop leave printable ASCII without invalid characters unchanged |
| FileUtils.PrintableKept | utils/file_utils.py:22 | The control filter keeps printable ASCII |
| FileUtils.PreparedPlain | utils/file_utils.py:22-46 | On plain ASCII the first half of cleaning is just the strip and the dot loop |
| FileUtils.PreparedDotted | utils/file_utils.py:42-46 | `a . .` loses one trailing dot |
| FileUtils.PreparedSpaced | utils/file_utils.py:42-46 | In `a . `, the strip exposes a trailing dot, which then goes |
| FileUtils.FinishedKeeps | utils/file_utils.py:49-71 | A name that the substitutions keep, of 1 to 200 characters and starting with a letter, passes the second half unchanged |
| FileUtils.CleanNotIdempotent | utils/file_utils.py:9-73 | Some cleaned name changes when cleaned again |
| FileUtils.PrintableChars | utils/file_utils.py:152 | The count of printable characters never exceeds the length |
| FileUtils.IsValidFilename | utils/file_utils.py:138-164 | Valid exactly when the name has 3 to 200 characters, no run of three separators, an ASCII letter, at least 80% printable characters and no character repeated five times |
| FileUtils.LetterIsNotNumericJunk | utils/file_utils.py:147-158 | A name with a letter never matches the digits-only pattern, so that test never rejects |
| FileUtils.SearchText | utils/file_utils.py:82-87 | The whole text below 10000 characters. From 10000 characters on, a prefix of the text with at most 49 newlines: the whole text, or the text up to just before its 50th newline |
| FileUtils.AfterLastSeparator | utils/file_utils.py:115-116 | `basename` is a suffix without separators, preceded by a separator when it is shorter than the path |
| FileUtils.Candidates | utils/file_utils.py:105-119 | At most one candidate per match, each a valid name |
| FileUtils.ValidNames | utils/file_utils.py:122-126 | Every kept name is valid and well formed |
| FileUtils.CollectCandidates | utils/file_utils.py:105-119 | The first loop of the extractor computes `Candidates` |
| FileUtils.KeepCleanedValid | utils/file_utils.py:122-126 | The second loop of the extractor computes `ValidNames` |
| FileUtils.MostCommon | utils/file_utils.py:129-133 | `most_common(1)`: the most frequent name, the first seen among equally frequent ones |
| FileUtils.PluralityUnique | utils/file_utils.py:129-133 | The vote has a single winner |
| FileUtils.FirstMostCommon | utils/file_utils.py:129-133 | The first position holding a count no other entry exceeds, every earlier entry counting strictly less |
| FileUtils.Plurality | utils/file_utils.py:129-133 | `most_common(1)` as a value: none for no votes, otherwise the plurality winner |
| FileUtils.Extracted | utils/file_utils.py:76-135 | The extractor as a value: none exactly when no valid cleaned name is left, otherwise a plurality winner among them |
| FileUtils.ExtractFilenameFromContent | utils/file_utils.py:76-135 | The collecting, cleaning and voting loops return `Extracted`: no name exactly when no candidate survives cleaning, otherwise the plurality survivor, which is valid and well formed |
| Strings.JoinSplit | utils/file_utils.py:82-83 | Joining the split lines gives the text back |
| Strings.JoinTakePrefix | utils/file_utils.py:82-83 | Joining the first lines gives a prefix of the text |
| Strings.LStripDropsSpace | utils/file_utils.py:42 | `lstrip()` removes only a run of leading whitespace |
| Strings.RStripDropsSpace | utils/file_utils.py:42 | `rstrip()` removes only a run of trailing whitespace |
| Strings.ZeroPad5RoundTrip | services/recovery_service.py:275 | `f"{n:05d}"` has at least five digits, exactly five below 100000, and reads back as `n` |
| Strings.NatToStringInjective | services/recovery_service.py:337 | Different counters give different suffixes |
| Strings.LowerChar | models/config.py:70 | `lower()` on one character: an upper-case ASCII letter becomes its lower-case letter, every other character is kept |
| Strings.Lower | services/filter_service.py:41 | `lower()` maps every character through `LowerChar`, keeping the length |
| Strings.LowerIdempotent | services/recovery_service.py:291 | Lowering twice is lowering once |
| Filter.EscapeChar | services/filter_service.py:20 | `re.escape` puts a backslash before exactly the special characters |
| Filter.ReplaceAbsent | services/filter_service.py:29-30 | Replacing a character that does not occur changes nothing |
| Filter.ReplaceConcat | services/filter_service.py:25-30 | Replacement distributes over a concatenation when no match crosses the boundary |
| Filter.ReplaceExpand | services/filter_service.py:25-30 | Replacement works on a per-character expansion block by block |
| Filter.ConvertWildcardToRegex | services/filter_service.py:14-32 | No expression exactly for the empty pattern |
| Filter.WildcardChar | services/filter_service.py:25-30 | After the four replacements, `*` becomes `..*`, `%` becomes `.+`, and any other character is escaped |
| Filter.FirstStep | services/filter_service.py:25 | The first replacement turns an escaped `*` into `.*` and leaves other characters' escapes alone |
| Filter.SecondStep | services/filter_service.py:26 | The second replacement changes nothing, since `re.escape` does not escape `%` |
| Filter.ThirdStep | services/filter_service.py:29 | The third replacement turns the `.*` produced by the first into `..*` |
| Filter.FourthStep | services/filter_service.py:30 | The fourth replacement turns `%` into `.+` |
| Filter.WildcardTranslation | services/filter_service.py:14-32 | For a pattern without backslashes, the expression is the per-character translation: `*` needs one or more characters, not zero or more |
| Filter.SplitExt | services/filter_service.py:48-49 | `splitext` splits the name into stem and extension; the extension starts with a dot and has no other dot or separator |
| Filter.Extension | services/filter_service.py:91 | The extension without its dot ends the name and has no dot |
| Filter.ExtensionShape | services/filter_service.py:91 | Any split into a stem and a dot-led tail gives such an extension |
| Filter.DotExtension | services/filter_service.py:91 | `lstrip('.')` removes exactly the one dot of an extension |
| Filter.MatchesSearch | services/filter_service.py:34-95 | Never for the empty name. For a non-empty name, true without types, with a listed extension, or on a search hit; false with types when the extension is unlisted and there is no search hit |
| Filter.TypeListDecides | services/filter_service.py:89-95 | Without a search, the type list alone decides |
| Filter.SearchOnlyWidens | services/filter_service.py:34-95 | A search can only add to what the type list accepts |
| Filter.Detected | services/filter_service.py:113 | No type for empty data; otherwise the detected type |
| Filter.FinalType | services/filter_service.py:118-125 | The lower-cased extension of the name, else the detected type |
| Filter.ApplyFilters | services/filter_service.py:97-139 | Passes exactly when the chain admits the name, reporting the detected type. Rejects with no type the empty name and, when filtering, system files and system directories. Under a type list, rejects with no type when there is no final type, and with the detected type when the final type is unlisted |
| Filter.SearchNeverRejects | services/filter_service.py:136-137 | The search argument changes neither the verdict nor the type |
| Resource.DefaultConfig | models/resource_config.py:49-67 | The constructor defaults: no limits, no delay, a buffer of three |
| Resource.PresetMemory | models/resource_config.py:159-169 | The shared preset rule: at least the floor and at most the cap and the target share, unless the floor wins. With low free memory it is also at most the free-memory share and at least the smallest of target, free share and cap. With ample free memory it is at least the smaller of target and cap, and exactly the target, held at the floor, when the target is under the cap |
| Resource.BufferDepth | models/resource_config.py:174 | The depth stays within its bounds: one block per given number of MB inside them, the lower bound below them, the upper bound above them |
| Resource.PerformanceMode | models/resource_config.py:153-181 | At least 1 GB, no CPU limit, no delay, and a buffer of 5 to 50 blocks. The memory is `PresetMemory` with the 75%/20%/90%/80%/1024 MB shape, and the buffer is one block per 100 MB of it |
| Resource.BalancedMode | models/resource_config.py:183-210 | At least 512 MB, an 80% CPU limit, no delay, and a buffer of 3 to 30 blocks. The memory is `PresetMemory` with the 50%/15%/80%/60%/512 MB shape, and the buffer is one block per 150 MB of it |
| Resource.LowResourceMode | models/resource_config.py:212-238 | At least 256 MB, a 50% CPU limit, a 5 ms delay, and a buffer of 2 to 15 blocks. The memory is `PresetMemory` with the 25%/10%/70%/30%/256 MB shape, and the buffer is one block per 200 MB of it |
| Resource.PresetsOrderedWhenFreeAmple | models/resource_config.py:153-238 | With free memory of at least a fifth of the total, low ≤ balanced ≤ performance in memory and in buffer depth |
| Resource.AmpleMemory | models/resource_config.py:153-238 | With ample free memory, each preset gets its target share, raised to its floor |
| Resource.DeeperBuffer | models/resource_config.py:174 | More memory and higher bounds never give a shallower buffer |
| Resource.LowCanExceedBalanced | models/resource_config.py:183-238 | With 100 GB total and 12 GB free, the low preset allows 25000 MB and the balanced one 9600 MB |
| Resource.CheckMemoryLimit | models/resource_config.py:69-87 | False exactly when a limit is set, the size can be read, and it exceeds the limit in MB |
| Resource.MegabyteComparison | models/resource_config.py:80-82 | Comparing in MB is comparing the byte count with `limit * 2^20` |
| Resource.ShouldContinue | models/resource_config.py:105-109 | Stop exactly when the memory check fails |
| Resource.MemoryUsageMb | models/resource_config.py:89-98 | The size in MB, or 0.0 when it cannot be read |
| Recovery.MaxUniqueTexts | services/recovery_service.py:31-34 | Two million fingerprints per GB of the limit (4096 MB when unset), held between 100 thousand and 50 million: the scaled value inside the range, the floor below it, the ceiling above it |
| Recovery.CleanupInterval | services/recovery_service.py:31-42 | 100 thousand blocks per GB of the limit (4096 MB when unset), held between 50 thousand and 500 thousand: the scaled value inside the range, the floor below it, the ceiling above it |
| Recovery.DefaultBudgets | services/recovery_service.py:31-42 | Without a limit, or with a zero limit: 8 million fingerprints and a cleanup every 400 thousand blocks |
| Recovery.BudgetsMonotone | services/recovery_service.py:31-42 | A larger memory limit never gives smaller budgets |
| Recovery.KeepCount | services/recovery_service.py:161 | A cleanup keeps `int(0.7 * budget)` fingerprints |
| Recovery.Fingerprint | services/recovery_service.py:176 | `text[:100]`: the whole text when it has at most 100 characters, otherwise its first 100 characters |
| Recovery.SpanText | services/recovery_service.py:173-175 | A text comes only from a span that passes the text test, and has at least 200 non-blank characters |
| Recovery.WindowLengthTestRedundant | services/recovery_service.py:188-190 | The window pass's length test never rejects what `detect_encoding` accepted |
| Recovery.Range | services/recovery_service.py:186 | The `i`-th value of `range` is `lo + 256 i`, below the bound |
| Recovery.RangeLength | services/recovery_service.py:186 | `range` yields one value per started step |
| Recovery.WindowStartsShape | services/recovery_service.py:186-187 | Window `i` starts at `256 i` and ends before the block does; one window per started 256 bytes beyond the first 512 |
| Recovery.WindowAt | services/recovery_service.py:186-187 | Window `k` is 512 bytes of the block |
| Recovery.WindowTextAt | services/recovery_service.py:186-190 | Window `k`'s text in the pass is the `SpanText` of window `k` at 0.6 |
| Recovery.FullBlockWindows | services/recovery_service.py:186-187 | A full block has fourteen windows, the last at 3328; the final window at 3584 is never scanned |
| Recovery.OffsetSpan | services/recovery_service.py:217-218 | The offset window is non-empty, at most 512 bytes, and copies the block from the offset |
| Recovery.Ring | services/recovery_service.py:35 | A deque with a maximum length keeps the newest blocks, in order |
| Recovery.RingKeepsLast | services/recovery_service.py:201 | After any history of appends, the buffer holds the last `min(n, size)` blocks in order |
| Recovery.RingStep | services/recovery_service.py:201 | One append extends the retained history by one |
| Recovery.LastOfSnoc | services/recovery_service.py:201 | Appending a block moves the retained window forward by one block |
| Recovery.Words | services/recovery_service.py:239 | Every word found is a run of three or more word characters; that every such run is found is stated by WordAlone, ShortRunNoWords and WordsSplit |
| Recovery.WordsOfJoin | services/recovery_service.py:239-241 | The word pattern run over a space-join of words finds those words again |
| Recovery.WordsIdempotent | services/recovery_service.py:239-241 | The reconstructed text is a fixed point of the word pattern |
| Recovery.WordThenRest | services/recovery_service.py:239 | A word followed by a non-word character is found whole |
| Recovery.WordAlone | services/recovery_service.py:239 | A lone run of three or more word characters is found whole |
| Recovery.ShortRunNoWords | services/recovery_service.py:239 | A run of one or two word characters yields no word |
| Recovery.WordsSplit | services/recovery_service.py:239 | No word spans a non-word character: the words of `a`, a separator and `b` are those of `a` then those of `b`; with the two rows above this fixes `findall` on every text |
| Recovery.Reconstruction | services/recovery_service.py:238-245 | An encoding contributes only a join of at least 200 characters holding at least ten words, and those words are the ones found in its decoding |
| Recovery.Reconstructions | services/recovery_service.py:236-247 | One contribution per encoding, in list order |
| Recovery.LongestNonEmpty | services/recovery_service.py:243-245 | The best text is never empty |
| Recovery.LongestStep | services/recovery_service.py:243-245 | A candidate replaces the best so far only when it is strictly longer |
| Recovery.LongestIsFirstLongest | services/recovery_service.py:233-249 | No result exactly when no encoding contributes; otherwise the first contribution of maximal length |
| Recovery.TypeOrTxt | services/recovery_service.py:271 | `detected or "txt"`: the detected type when there is a non-empty one, `txt` otherwise |
| Recovery.GenericName | services/recovery_service.py:275 | The name starts with the prefix and `recovered_`, continues with the counter in at least five digits (exactly five below 100000) that read back as the counter, and ends with `.` and the type or `txt` |
| Recovery.ChosenName | services/recovery_service.py:262-278 | The cleaned original name when it has a dot, the cleaned name plus `.` and the type or `txt` when it has none, and the generic name when there is no original name or it cleans to nothing |
| Recovery.AttemptInjective | services/recovery_service.py:334-338 | Different collision counters give different paths |
| Recovery.FirstFreeUnique | services/recovery_service.py:334-338 | The first free path is unique |
| Recovery.TakenAttempt | services/recovery_service.py:335-338 | A taken path adds one to the attempts made, and fewer existing names remain unchecked |
| Recovery.FreeAttempt | services/recovery_service.py:335-338 | The first attempt that is not taken, all earlier ones being taken, is the first free path |
| Recovery.FirstFreeExists | services/recovery_service.py:333-338 | Every name has a first free path, however many paths are taken |
| Recovery.WrittenFirst | services/recovery_service.py:333-343 | Writing the text to the writable first free path of the name is the outcome `Written` describes, counted |
| Recovery.WrittenFallback | services/recovery_service.py:353-367 | When the name's first free path cannot be written, writing to the fallback's first free path when it can be, and nothing otherwise, is the outcome `Written` describes |
| Recovery.AdmittedRecord | services/recovery_service.py:281-320 | The record of an admitted name satisfies the scan's filters |
| Recovery.StepEffect | services/recovery_service.py:83-134 | A processed block is a non-empty read with no cancellation pending; an iteration that goes on without a block is a skipped read error on a physical drive |
| Recovery.Schedule | services/recovery_service.py:83-134 | Every processed block is non-empty |
| Recovery.ScheduleUnfold | services/recovery_service.py:83-134 | The schedule is the first step's effect, followed by the rest when that effect does not halt |
| Recovery.ReadErrorEndsOrdinaryScan | services/recovery_service.py:84-97 | On a path that is not a physical drive, the first failing read ends the scan with a permission error or a scan error, after exactly the blocks before it |
| Recovery.UnlimitedScanReadsAll | services/recovery_service.py:83-134 | Without a memory limit, cancellation or read error, every block is processed and the scan ends with the device |
| Recovery.BlockFingerprints | services/recovery_service.py:105-120 | The fingerprints a block adds are those of its four passes |
| Recovery.OutputDir.Write | services/recovery_service.py:340-341 | The file holds the text when the write can be made; nothing changes otherwise |
| Recovery.OutputDir.FreePath | services/recovery_service.py:333-338 | The collision loop finds the first free path among `name`, `name_1.ext`, `name_2.ext`, … |
| Recovery.RecoveryService.constructor | services/recovery_service.py:17-42 | The given settings or the balanced preset, budgets computed from the memory limit, and empty state |
| Recovery.RecoveryService.Cancel | services/recovery_service.py:151-153 | Sets the cancellation flag |
| Recovery.RecoveryService.GetPreviewList | services/recovery_service.py:369-371 | Every counted file is listed |
| Recovery.RecoveryService.CleanupMemory | services/recovery_service.py:155-167 | Below the budget nothing changes; above it, the set shrinks to `KeepCount` of its own fingerprints; it ends within the budget |
| Recovery.RecoveryService.ReconstructText | services/recovery_service.py:228-249 | The loop over encodings returns the first longest reconstruction |
| Recovery.RecoveryService.NameFile | services/recovery_service.py:255-278 | The original name is `Extracted` of the text, hence valid, and the chosen name is `ChosenName` of it at the current count |
| Recovery.RecoveryService.Store | services/recovery_service.py:313-367 | The record is listed and existing files are kept. In preview mode the file is counted. Otherwise the text goes to the first free path of the name when that is writable, else to the first free path of the generic `.txt` fallback when that is writable; the file is counted exactly when one of them was written |
| Recovery.RecoveryService.SaveFile | services/recovery_service.py:251-367 | The chosen name is `SavedName`, from the extracted original name. Exactly when the filter chain admits it, the record `SavedRecord` is appended; otherwise the list, the count and the files do not change. An admitted file outside preview mode is written and counted as `Store` says |
| Recovery.RecoveryService.FilterAndStore | services/recovery_service.py:280-367 | Exactly when the filter chain admits the name, the record with the detected type or `txt`, the text length and the position is appended and stored as `Store` says; a rejected name changes nothing |
| Recovery.RecoveryService.StrictTypeCheck | services/recovery_service.py:288-308 | Accepts exactly what the filter chain's type test accepts, so it never rejects a file that passed the filters |
| Recovery.RecoveryService.Offer | services/recovery_service.py:176-180 | A new fingerprint is recorded and the text saved: the list changes as `Listed` says, the exact `SaveFile` outcome. A text whose fingerprint was already seen changes nothing else |
| Recovery.RecoveryService.OfferCandidate | services/recovery_service.py:206-208 | An optional text adds its fingerprint, and a new one is saved as `Listed` says |
| Recovery.RecoveryService.ScanSpan | services/recovery_service.py:173-180 | The span's text, if any, adds its fingerprint. A new text is saved as `Listed` says; at most that many admissible records are listed, all at the span's position |
| Recovery.RecoveryService.ProcessBlock | services/recovery_service.py:169-180 | The whole block at threshold 0.7 adds its text's fingerprint. A new text is saved from the block at the block's position, with no prefix, as `Listed` says: its exact record is appended iff the saved name is admitted, and nothing is appended otherwise |
| Recovery.RecoveryService.ScanWindow | services/recovery_service.py:186-195 | A window adds the fingerprint of its text, and a new text is saved as `Listed` says, at the window's position with no prefix |
| Recovery.RecoveryService.ScanWindowAt | services/recovery_service.py:186-195 | Window `k` of the block adds the fingerprint of its text in the pass |
| Recovery.RecoveryService.WindowStep | services/recovery_service.py:186-195 | Window `k` extends what the first `k` windows did |
| Recovery.RecoveryService.ProcessSlidingWindow | services/recovery_service.py:182-195 | The window pass adds the fingerprints of all window texts, listing at most one record per new fingerprint |
| Recovery.RecoveryService.ProcessFragmented | services/recovery_service.py:197-210 | The block joins the ring buffer, and the reconstruction from the buffer adds its fingerprint. A new text is saved from the joined blocks, one block back and with the `frag_` prefix, as `Listed` says: its exact record is appended iff the saved name is admitted, and nothing is appended otherwise |
| Recovery.RecoveryService.OfferFragment | services/recovery_service.py:202-210 | The reconstruction from two or more buffered blocks adds its fingerprint, and a new one is saved from the joined blocks as `Listed` says, one block back and with the `frag_` prefix |
| Recovery.RecoveryService.ScanOffset | services/recovery_service.py:216-226 | An offset window adds the fingerprint of its text at threshold 0.65, and a new text is saved as `Listed` says, at the offset's position with the `offset_` prefix |
| Recovery.RecoveryService.ScanOffsetAt | services/recovery_service.py:216-226 | The `k`-th offset adds its text's fingerprint, and nothing when it lies past the block |
| Recovery.RecoveryService.OffsetStep | services/recovery_service.py:216-226 | Offset `k` extends what the first `k` offsets did |
| Recovery.RecoveryService.ProcessOffsetScan | services/recovery_service.py:212-226 | The offset pass adds the fingerprints of all offset texts |
| Recovery.RecoveryService.ScanWhole | services/recovery_service.py:105-111 | The first two passes add the fingerprints of the block text and the window texts |
| Recovery.RecoveryService.ScanBuffered | services/recovery_service.py:113-120 | The ring buffer advances; the fragment and, on every tenth block, the offset texts add their fingerprints |
| Recovery.RecoveryService.ScanBlock | services/recovery_service.py:103-122 | One block: the count goes up by one, the buffer advances, and the fingerprints of all four passes are added; existing files are kept |
| Recovery.RecoveryService.CheckBudgets | services/recovery_service.py:124-134 | A memory error exactly when both memory readings exceed the limit. A due periodic cleanup brings the set within budget and records the block count |
| Recovery.RecoveryService.Iterate | services/recovery_service.py:83-134 | An iteration follows `StepEffect`: it halts exactly when the effect does, with the matching outcome; a processed block advances the count and the buffer |
| Recovery.RecoveryService.ScanAndCheck | services/recovery_service.py:103-134 | A block's passes and the budget checks; a memory error exactly when both readings exceed the limit |
| Recovery.RecoveryService.ReadLoop | services/recovery_service.py:81-149 | From a reset scan state (no blocks, records, count, fingerprints or buffered blocks, not cancelled), the loop processes exactly the blocks of `Schedule` and ends with its outcome; the buffer holds the last of them; existing files are kept |
| Recovery.RecoveryService.ReadStep | services/recovery_service.py:83-142 | One turn keeps the loop invariant, or ends the loop in the state `Schedule` predicts |
| Recovery.RecoveryService.RecoverFiles | services/recovery_service.py:44-149 | A bad output directory fails before any state changes. An open error fails with the scan state reset: no records, count, blocks, fingerprints or buffered blocks, and no cancellation. Otherwise the same reset precedes the read loop, whose outcome, block count and buffer are those of `Schedule`, and no existing file changes |

## Left out

- The progress callback, the console messages of `_save_file` and the
  per-block `apply_block_delay` sleep are left out. They produce output or
  take time and do not change the scan state.
- `get_available_memory_mb` and `get_free_memory_mb` query the operating
  system. They are parameters of the presets instead.
- The resident set size comes from `psutil` and is an input (`RssProbe`).
- The real device, `open`, `read`, `seek`, `os.makedirs` and file writing are
  inputs: a `Step` sequence, an `OpenResult`, an output-directory flag and
  the `OutputDir` write oracle. Concurrency between `cancel()` and the scan
  becomes the per-step `cancelRequested` flag.
- Python's `hash` is not modelled. The fingerprint is the 100-character
  prefix itself, so the model never merges two different prefixes, while the
  source can when their hashes collide.
- Recovery.RecoveryService.CleanupMemory: states which fingerprints survive
  only as "some `KeepCount` of them". The `unique_list[-keep_count:]` order
  depends on CPython's set layout, which is not modelled.
- Character decoding, the Unicode character classes beyond ASCII, the seven
  filename regular expressions and the wildcard full-match are oracles. No
  codec or regular-expression engine is modelled.
- Strings.LowerChar: `lower()` is modelled on ASCII only; every other
  character is kept. Python also lowers accented capitals such as `É`, maps
  the Kelvin sign to `k` and turns `İ` into two characters. So
  Config.IsSystemFile, Config.NormalizePath, Config.IsSystemDirectory,
  Filter.MatchesSearch and Filter.FinalType can differ from the source on
  names holding such characters.
- FileUtils.AfterLastSeparator: takes the part after the last `\` or `/`.
  The drive and UNC prefix handling of `ntpath.basename` is not modelled.
- Recovery.RecoveryService.ProcessSlidingWindow: states the fingerprints the
  pass adds and that the list grows by at most one record per new
  fingerprint. Which records are listed is stated per window, at ScanWindow.
- Recovery.RecoveryService.ProcessOffsetScan: the same bound; the records are
  stated per offset, at ScanOffset.
- Recovery.RecoveryService.ScanWhole, Recovery.RecoveryService.ScanBuffered,
  Recovery.RecoveryService.ScanBlock, Recovery.RecoveryService.WindowStep,
  Recovery.RecoveryService.OffsetStep, Recovery.RecoveryService.ScanWindowAt,
  Recovery.RecoveryService.ScanOffsetAt: state the fingerprints added and the
  same upper bound on the records listed, not the records themselves.
- Recovery.RecoveryService.ReadLoop: states the blocks processed, the outcome
  and the buffer; of the records it states only that existing files are
  kept.
- Recovery.RecoveryService.RecoverFiles: the same as ReadLoop.
- Recovery.RecoveryService.constructor: requires a non-negative buffer size;
  the `ValueError` that `deque(maxlen=...)` raises for a negative one is not
  modelled.
- Recovery.Schedule: the byte position of a block is `blocks * 4096`, as in
  the source. The model does not track the true device offset after a
  skipped bad sector.
- `preview_mode` and `preview_list` are first set by `recover_files` in the
  source. The model initialises them in the constructor, as not in preview
  mode with an empty list, so `GetPreviewList` is defined before any scan.
- Floating-point arithmetic is modelled on reals: the preset shares, `/ 1024`
  and `/ (1024 * 1024)`. `int(x)` is truncation toward zero.
