# ipa-validator, modelled in Dafny

`ipa-validator` reports whether the main executable of each `.ipa` archive it
is given is encrypted. For each archive it:

- finds the app's `Info.plist` entry under `Payload/<X>.app/`;
- reads `CFBundleExecutable` from that plist;
- extracts the executable and walks the load commands of every Mach-O slice;
- reads the `cryptid` field of the first `LC_ENCRYPTION_INFO` /
  `LC_ENCRYPTION_INFO_64` command.

A file is encrypted when it has at least one slice and every slice has
`cryptid == 1`. The process exits with 2 if any archive failed, otherwise 1
if any archive is not encrypted, otherwise 0.

The model has seven modules, one file each:

- `wrappers.dfy`: `Option`, and `Result`, which stands for Swift's `throws`.
- `sequences.dfy`: the Swift sequence queries the code uses
  (`firstIndex(where:)`, `allSatisfy`, `contains(where:)`, `filter`). Each has
  its meaning stated over indices.
- `strings.dfy`: `split(separator:)` with empty pieces dropped, its inverse
  `Join`, `hasSuffix`, and `replacingOccurrences(of:with: "")` as `RemoveAll`.
- `macho.dfy`: `MachOEncryptionChecker`.
  - The slice scan `CheckSlice` is a method with the source's loop and its
    early `break`s. It is proved equal to the specification function
    `SliceStatusOf`.
  - Byte order: a fixed little-endian 4-byte load, then `byteSwapped` on
    swapped slices.
  - The thin/fat dispatch `CheckEncryption`.
  - The aggregate `AllSlicesEncrypted`.
- `extractor.dfy`: `IPAExtractor`. It covers the Info.plist path predicate and
  the first-match search, the non-empty check on extracted data, the
  temporary file name, and the `CFBundleExecutable` lookup in a decoded
  property list.
- `validator.dfy`: `IPAValidator`.
  - `ProcessIPA` turns one path into a `ValidationResult`.
  - The bundle root and the executable path.
  - The exit code and the empty-argument check.
  - The `--quiet` line, the architecture label and the verbose slice line.
- `scenarios.dfy`: concrete images worked through the checker: thin
  encrypted, swapped, fat mixed, and truncated.

The library answers are plain values:

- The Mach-O header library gives, for each image: header start, header
  size, `isSwapped`, `is64Bit`, and the load commands as (type, offset) pairs.
  `File` records whether the file is thin or fat.
- A `Host` value gives everything `processIPA` learns from outside:
  - whether the file exists;
  - the archive's entries, or the error from opening it;
  - what extracting an entry yields;
  - what the property-list decoder yields;
  - what the Mach-O loader yields.

Every byte the scan reads is inside the data. The model reads through
`LoadUInt32`, whose precondition Dafny checks at each call, so the guard
`position + 20 <= data.count` is what makes the read safe.

One behaviour of `processIPA` is worth knowing. The bundle root is the
Info.plist path with *every* `"/Info.plist"` removed, not only the trailing
one (Sources/ipa-validator/Validator.swift:133).

- `BundleRootStripsSuffix` proves that the two agree when the only
  occurrence is at the end.
- `BundleRootRemovesInnerOccurrence` proves what happens with one more
  occurrence: `dir/Info.plist<rest>/Info.plist` gives `dir<rest>` whenever
  `dir` and `rest` hold no `/Info.plist` of their own. For example,
  `x/Payload/Info.plist.app/Info.plist` gives the root `x/Payload.app`, and
  the executable is then looked up under that root.
- `RemoveAllAtOccurrence` is the general step behind both. It holds for any
  number of occurrences, since `/` appears in the pattern only at its start.

The model keeps this behaviour as the code has it.

## Model

| member | source | states |
|---|---|---|
| `MachO.CheckSlice` | Sources/ipa-validator/MachO.swift:42-61 | The load-command loop returns the caller's offset, the slice's `is64Bit`, and the cryptid `SliceStatusOf` specifies: the first encryption-info command decides, and both early exits are `break`s. |
| `MachO.NoEncryptionInfoMeansZero` | Sources/ipa-validator/MachO.swift:43-47 | A slice without an `LC_ENCRYPTION_INFO(_64)` command reports cryptid 0 and is not encrypted. Absence is not an error. |
| `MachO.FirstEncryptionInfoDecides` | Sources/ipa-validator/MachO.swift:45-57 | With commands `before + [first] + after` and no encryption-info in `before`, the cryptid depends on `first` only. It is the field read at `headerStartOffset + headerSize + first.offset` if 20 bytes fit there, else 0. Later encryption-info commands are ignored in both cases. |
| `MachO.TruncatedCommandMeansZero` | Sources/ipa-validator/MachO.swift:50-51 | When the first encryption-info command's 20-byte record would run past the end of the data, the slice reports 0. |
| `MachO.ReadCryptId` | Sources/ipa-validator/MachO.swift:53-55 | The cryptid is the 4 bytes at command offset 16, read little-endian, or big-endian when the slice is swapped. |
| `MachO.ByteSwapInvolution` | Sources/ipa-validator/MachO.swift:55 | `byteSwapped` applied twice gives back the original value. |
| `MachO.ByteSwappedLoad` | Sources/ipa-validator/MachO.swift:54-55 | Byte-swapping a little-endian load of 4 bytes equals a big-endian load of the same bytes. |
| `MachO.CryptIdIsOneIff` | Sources/ipa-validator/MachO.swift:16 | A slice counts as encrypted exactly when its cryptid bytes are `01 00 00 00`, or `00 00 00 01` in a swapped slice. |
| `MachO.CheckEncryption` | Sources/ipa-validator/MachO.swift:30-38 | A thin file gives exactly one status, at offset 0. A fat file gives one status per member in the container's order, each with that member's header offset, word size and cryptid. |
| `MachO.AllSlicesEncryptedIff` | Sources/ipa-validator/MachO.swift:21 | The aggregate is true exactly when there is at least one slice and every slice has cryptid 1. |
| `MachO.OneClearSliceSuffices` | Sources/ipa-validator/MachO.swift:21 | One slice with cryptid other than 1 makes the whole file not encrypted. |
| `Scenarios.ThinEncryptedImage` | Sources/ipa-validator/MachO.swift:31-32 | A thin 64-bit image with cryptid bytes `01 00 00 00` reports the single slice `(0, arm64, 1)` and is encrypted. |
| `Scenarios.SwappedImageReadsOne` | Sources/ipa-validator/MachO.swift:55 | A swapped image storing `00 00 00 01` reports cryptid 1. |
| `Scenarios.FatMixedImage` | Sources/ipa-validator/MachO.swift:34-38 | A fat file with an encrypted 64-bit member at offset 16 and a 32-bit member at offset 68 without the command gives the statuses (16, arm64, 1) and (68, armv7, 0), and is not encrypted. |
| `Scenarios.TruncatedImage` | Sources/ipa-validator/MachO.swift:51 | A command whose 20-byte record starts inside a 52-byte image (at byte 40) but runs past its end reports 0. |
| `Sequences.FirstIndex` | Sources/ipa-validator/Extractor.swift:17 | `firstIndex`: returns the least index satisfying the predicate, or None exactly when no element does. |
| `Sequences.AllSatisfy` | Sources/ipa-validator/Validator.swift:76 | `allSatisfy` holds exactly when every element satisfies the predicate. It is true of an empty list. |
| `Sequences.Contains` | Sources/ipa-validator/Validator.swift:77 | `contains(where:)` holds exactly when some element satisfies the predicate. |
| `Sequences.AllSatisfyIgnoresOrder` | Sources/ipa-validator/Validator.swift:76 | Two lists with the same elements in any order agree on `allSatisfy`. |
| `Sequences.ContainsIgnoresOrder` | Sources/ipa-validator/Validator.swift:77 | Two lists with the same elements in any order agree on `contains(where:)`. |
| `Sequences.Filter` | Sources/ipa-validator/Extractor.swift:16 | `filter` keeps exactly the elements satisfying the predicate: every kept element is from the input and satisfies it, and every input element that satisfies it is kept. It keeps everything when all satisfy it. |
| `Sequences.FilterConcat` | Sources/ipa-validator/Extractor.swift:16 | Filtering a concatenation is filtering each part and concatenating, so `filter` keeps the input's order. |
| `Strings.HasSuffix` | Sources/ipa-validator/Extractor.swift:19 | Definition of `hasSuffix`: the suffix is no longer than the string and equals its last characters. |
| `Strings.Split` | Sources/ipa-validator/Extractor.swift:16 | `split(separator: "/")` returns only non-empty pieces, none containing `/`. |
| `Strings.SplitJoin` | Sources/ipa-validator/Extractor.swift:16 | Splitting a path joined from non-empty, slash-free pieces returns exactly those pieces. |
| `Strings.SplitConcat` | Sources/ipa-validator/Extractor.swift:16 | Splitting `s + "/" + t` gives the pieces of `s` followed by the pieces of `t`. |
| `Strings.SplitDoubledSeparator` | Sources/ipa-validator/Extractor.swift:16 | A doubled `/` splits exactly as a single one, because empty pieces are omitted. |
| `Strings.SplitEmptyIff` | Sources/ipa-validator/Extractor.swift:35 | `split` returns nothing exactly when the path consists of slashes only. |
| `Strings.SplitLastPiece` | Sources/ipa-validator/Extractor.swift:35 | The last piece of `split` sits at the end of the path, preceded by the start or a slash, and followed only by slashes. |
| `Strings.RemoveAllStripsSuffix` | Sources/ipa-validator/Validator.swift:133 | Removing every occurrence of a pattern whose first character does not recur in it equals stripping the pattern as a suffix, when the rest holds no occurrence. |
| `Strings.RemoveAllKeepsPrefix` | Sources/ipa-validator/Validator.swift:133 | Text free of the pattern's first character passes through removal unchanged. |
| `Strings.RemoveAll` | Sources/ipa-validator/Validator.swift:133 | `replacingOccurrences(of:with: "")`: occurrences found left to right without overlap are deleted, so the result is never longer than the input. |
| `Strings.RemoveAllAtOccurrence` | Sources/ipa-validator/Validator.swift:133 | For a pattern whose first character does not recur in it, an occurrence after an occurrence-free prefix is deleted, the prefix is kept, and removal continues after it. |
| `Strings.RemoveAllNoOccurrence` | Sources/ipa-validator/Validator.swift:133 | A string without occurrences is left unchanged. |
| `Extractor.PathComponents` | Sources/ipa-validator/Extractor.swift:16 | Every component is non-empty, free of `/`, and not `"."`. |
| `Extractor.ComponentsOfJoin` | Sources/ipa-validator/Extractor.swift:16 | The components of a path are the pieces it was built from with the `"."` pieces removed. |
| `Extractor.ComponentsConcat` | Sources/ipa-validator/Extractor.swift:16 | The components of `a + "/" + b` are the components of `a` followed by those of `b`. |
| `Extractor.IsInfoPlistPath` | Sources/ipa-validator/Extractor.swift:16-20 | Definition of the Info.plist test: after the first `Payload` component there are exactly two more, a name ending in `.app` and `Info.plist`. The two rows below state its meaning. |
| `Extractor.InfoPlistPathFromEnd` | Sources/ipa-validator/Extractor.swift:17-20 | The Info.plist predicate holds exactly when the last three components are `Payload`, a name ending in `.app`, and `Info.plist`, and no earlier component is `Payload`. So only the first `Payload` counts. |
| `Extractor.InfoPlistPathOfJoin` | Sources/ipa-validator/Extractor.swift:15-20 | `<dirs>/Payload/<app>/Info.plist` matches exactly when no directory in `dirs` is `Payload` and `app` ends in `.app`. |
| `Extractor.FindInfoPlist` | Sources/ipa-validator/Extractor.swift:13-22 | Returns the first entry in archive order that is a regular file with the Info.plist path. Returns None exactly when no entry qualifies. |
| `Extractor.EntryData` | Sources/ipa-validator/Extractor.swift:24-32 | Extracted data is returned only when non-empty. Empty data fails with `Entry is empty: <path>`, and extraction errors pass through. |
| `Extractor.TemporaryFileName` | Sources/ipa-validator/Extractor.swift:35 | The temporary file name is the last non-empty `/`-component of the entry path, or `executable` when the path has none. It is never empty and never contains `/`. |
| `Extractor.BundleExecutable` | Sources/ipa-validator/Extractor.swift:41-50 | Succeeds exactly when the decoded top level is a dictionary whose `CFBundleExecutable` is a non-empty string, and returns that string. Otherwise it fails with the decoder's error or `CFBundleExecutable not found in Info.plist`. |
| `Extractor.EntryAt` | Sources/ipa-validator/Validator.swift:141 | The archive lookup by path returns the first entry in archive order with exactly that path. It returns None exactly when no entry has it. |
| `Validator.BundleRootStripsSuffix` | Sources/ipa-validator/Validator.swift:133 | For `root + "/Info.plist"`, where `root` holds no `"/Info.plist"`, the bundle root is `root`. |
| `Validator.BundleRoot` | Sources/ipa-validator/Validator.swift:133 | Definition: the Info.plist path with every occurrence of `/Info.plist` removed. Its meaning is stated by the two rows below. |
| `Validator.BundleRootRemovesInnerOccurrence` | Sources/ipa-validator/Validator.swift:133 | When `dir` and `rest` hold no `/Info.plist`, replace-all also deletes the inner occurrence: `dir/Info.plist<rest>/Info.plist` gives `dir<rest>`. |
| `Validator.ExecutablePath` | Sources/ipa-validator/Validator.swift:140 | The executable path is the bundle root, one `/`, then the executable name. |
| `Validator.ProcessIPA` | Sources/ipa-validator/Validator.swift:112-174 | Every result keeps its path and file name and is well formed. A failure has an error, `encrypted == nil` and no slices. A success has no error, and `encrypted` equals the aggregate of its slices. A missing file gives `File not found`. A missing Info.plist gives `Info.plist not found`. A success implies that every step succeeded: the archive opened, it held an Info.plist with non-empty data naming an executable, the entry `<bundle root>/<executable>` exists, and its data extracted and loaded. The slices are then exactly the checker's slices of that binary, and `encrypted` is the checker's verdict on them. |
| `Validator.ProcessIPASucceeds` | Sources/ipa-validator/Validator.swift:120-164 | Conversely, when every step succeeds the result has no error, and its slices and verdict are those of the checker on the executable's data. |
| `Validator.ProcessIPAExecutableMissing` | Sources/ipa-validator/Validator.swift:140-149 | When no entry has the path `<bundle root>/<executable>`, the error is `Executable not found: <executable>`. |
| `Validator.ExitCode` | Sources/ipa-validator/Validator.swift:76-80 | The exit code is 2 exactly when some result has an error. It is 1 exactly when none has an error and some result is not encrypted. Otherwise it is 0. |
| `Validator.ExitCodeZeroIffAllEncrypted` | Sources/ipa-validator/Validator.swift:76-81 | For well-formed results, the run exits 0 exactly when every result is encrypted. |
| `Validator.ExitCodeIgnoresOrder` | Sources/ipa-validator/Validator.swift:97-109 | Two result lists with the same elements in any order give the same exit code. |
| `Validator.Run` | Sources/ipa-validator/Validator.swift:62-81 | An empty path list is refused with `No IPA files specified.` before any processing. Otherwise a failure to create the shared temporary directory ends the run with that error. Otherwise the outcome is the exit code of the results. |
| `Validator.ProcessAll` | Sources/ipa-validator/Validator.swift:97-100 | Each path gets its own result, computed by `processIPA` on that path alone. |
| `Validator.RunOfProcessedPaths` | Sources/ipa-validator/Validator.swift:74-81 | For any arrival order of the per-path results, the run exits 0 exactly when every path is reported encrypted, and 2 exactly when some path failed. |
| `Validator.QuietLine` | Sources/ipa-validator/Validator.swift:179-185 | Definition of the `--quiet` line: `<path>\terror`, `<path>\tencrypted` or `<path>\tnot-encrypted`, and none for a result with neither an error nor a verdict. The row below states its meaning. |
| `Validator.QuietLineClassifies` | Sources/ipa-validator/Validator.swift:179-185 | Every well-formed result prints a quiet line starting with `<path>\t`. It ends in `\terror` exactly for errors, in `\tencrypted` exactly when encrypted, and in `\tnot-encrypted` exactly when not encrypted. |
| `Validator.ArchLabel` | Sources/ipa-validator/Validator.swift:212 | The label is `arm64` exactly for 64-bit slices and `armv7` otherwise. |
| `Validator.DecimalRoundTrip` | Sources/ipa-validator/Validator.swift:213 | Reading back the decimal digits printed for a number gives that number. |
| `Validator.SliceLine` | Sources/ipa-validator/Validator.swift:212-213 | Definition of the verbose line `  Slice <i>: <arch> cryptid=<n>`. `ArchLabel` and the row below state its parts. |
| `Validator.SliceLineShowsCryptId` | Sources/ipa-validator/Validator.swift:213 | The verbose slice line ends with the cryptid's digits, and they read back as the slice's cryptid. |
| `Validator.SliceLines` | Sources/ipa-validator/Validator.swift:179-215 | In verbose, non-quiet mode a successful result prints, for each slice `i` in order, exactly the line `SliceLine(i, slice)`. Quiet mode returns before any slice line, and non-verbose mode and error results print none. |

## Left out

- Mach-O parsing belongs to the MachOKit library: loading the file, telling
  thin from fat by magic, reading the fat table, enumerating load commands,
  and finding header size, byte order and word size. The model receives its
  answers as values and does not parse headers. Its failures (and those of
  `Data(contentsOf:)` and `machOFiles()`) reach `ProcessIPA` as a `Failure`
  from `Host.loadMachO` or `Host.extract`.
- Host byte order and alignment of the raw load: the model reads
  little-endian, as on the Apple hosts the tool runs on.
- Swift `Int` overflow traps in `headerStartOffset + headerSize + offset + 20`,
  and the `UInt64` to `Int` conversion: offsets are unbounded naturals.
- Archive and file I/O (ZIPFoundation `Archive`, `extract`, `FileManager`,
  the per-archive UUID directory and the temporary file). These are answered
  by `Host`: a failure to create the per-archive directory or to write the
  file is caught by `processIPA` and reaches it as a `Failure` from
  `Host.extract`. The temporary file's name is modelled (`TemporaryFileName`).
  Where the file is written does not change the result, so `ProcessIPA` does
  not use the name.
- The shared temporary directory of a run is not created: `Run` receives the
  error its creation would throw as `tempDirError`, and a thrown error ends
  the run as `SetupFailed`. The exit status that ArgumentParser gives a
  thrown error is not modelled. Removing the directory afterwards is not
  modelled.
- `archive[path]` is modelled as the first entry with exactly that path.
- `PropertyListSerialization`: the decoded value is an input; only the lookup
  after decoding is modelled.
- The text of a caught error: the model uses a thrown error's own message
  where `processIPA` stores its `localizedDescription`. This matters for
  the texts thrown as ArgumentParser's `ValidationError` (Extractor.swift:29
  and 47): `Entry is empty: <path>` and `CFBundleExecutable not found in
  Info.plist`. ArgumentParser is not part of this model. If that type supplies
  no localized description, Foundation stores a generic description in their
  place, and the model, which keeps the texts, does not reproduce it.
- `URL.lastPathComponent`, which gives the displayed file name: it is passed
  in as `filename`.
- The task-group fan-out in `processIPAs`: results arrive in a
  nondeterministic order. The exit code is modelled over the finished list.
  `ExitCodeIgnoresOrder` and `RunOfProcessedPaths` show that the order does
  not matter.
- Signal handlers, `Darwin.exit`, TTY detection, ANSI colours, the human
  (non-quiet) status line with its icons, the verbose `Bundle:` /
  `Executable:` lines on stderr, and the act of printing.
- Swift's grapheme-cluster `Character`s and Unicode canonical equivalence,
  which `split`, `hasSuffix`, `replacingOccurrences` and `==` honour: strings
  are sequences of single characters compared one by one.
- Package.swift, which is only a build manifest.
- Validator.ProcessIPA: when a step fails with an error of its own (an
  archive that does not open, empty data, a property-list decoder error, a
  missing `CFBundleExecutable`, extraction or Mach-O loading), the
  contract says the result is a failure but not which message it carries.
  The body passes that message through.
