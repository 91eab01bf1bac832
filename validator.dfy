/** The command-line front end's decision logic: how one .ipa path becomes a
    ValidationResult, how the finished results become the process exit code,
    and the text of the machine-readable (--quiet) line and of the verbose
    per-slice line. File-system, archive, property-list and Mach-O library
    calls are answered by a Host value. */
module Validator {
  import opened Wrappers
  import opened Sequences
  import opened Strings
  import MachO
  import opened Extractor

  /** The outcome for one input path. */
  datatype ValidationResult = ValidationResult(
    path: string,
    filename: string,
    encrypted: Option<bool>,
    slices: seq<MachO.SliceStatus>,
    error: Option<string>)

  /** A failure carries an error and nothing else; a success carries no error,
      and its verdict is the aggregate of its slices. */
  predicate WellFormed(r: ValidationResult) {
    || (r.error.Some? && r.encrypted.None? && r.slices == [])
    || (r.error.None? && r.encrypted == Some(MachO.Result(r.slices).AllSlicesEncrypted()))
  }

  /** The answers of the libraries and the file system for one input path. */
  datatype Host = Host(
    fileExists: bool,                                 // the .ipa exists
    archive: Result<seq<Entry>>,                      // opening it as a zip archive
    extract: Entry -> Result<seq<bv8>>,               // extracting one entry's bytes
    decodePlist: seq<bv8> -> Result<PlistValue>,      // property-list decoding
    loadMachO: seq<bv8> -> Result<MachO.File>)        // parsing the Mach-O headers

  function Failed(path: string, filename: string, error: string): (r: ValidationResult)
    ensures WellFormed(r) && r.error == Some(error) && r.path == path
  {
    ValidationResult(path, filename, None, [], Some(error))
  }

  const InfoPlistSuffix: string := "/Info.plist"

  /** The bundle directory: the Info.plist entry path with every occurrence
      of "/Info.plist" removed (not only the trailing one). */
  function BundleRoot(infoPlistPath: string): string {
    RemoveAll(infoPlistPath, InfoPlistSuffix)
  }

  /** When "/Info.plist" occurs only at the end of the path, removing every
      occurrence is the same as stripping the suffix. */
  lemma {:induction false} BundleRootStripsSuffix(root: string)
    requires NoOccurrence(root, InfoPlistSuffix)
    ensures BundleRoot(root + InfoPlistSuffix) == root
  {
    RemoveAllStripsSuffix(root, InfoPlistSuffix);
  }

  /** Every occurrence goes, not only the last: a bundle directory whose own
      name starts with "Info.plist" loses that part too. For instance
      "Payload/Info.plist.app/Info.plist" yields "Payload.app" rather than
      "Payload/Info.plist.app". */
  lemma BundleRootRemovesInnerOccurrence(dir: string, rest: string)
    requires NoOccurrence(dir, InfoPlistSuffix) && NoOccurrence(rest, InfoPlistSuffix)
    ensures BundleRoot(dir + InfoPlistSuffix + rest + InfoPlistSuffix) == dir + rest
  {
    var pat := InfoPlistSuffix;
    assert dir + pat + rest + pat == dir + pat + (rest + pat);
    RemoveAllAtOccurrence(dir, rest + pat, pat);
    RemoveAllStripsSuffix(rest, pat);
  }

  /** The archive path of the bundle's executable. */
  function ExecutablePath(root: string, executable: string): (p: string)
    ensures |p| == |root| + 1 + |executable|
    ensures p[..|root|] == root && p[|root|] == '/' && p[|root| + 1..] == executable
  {
    root + "/" + executable
  }

  /** One input path, start to finish. */
  function ProcessIPA(path: string, filename: string, host: Host): (r: ValidationResult)
    ensures r.path == path && r.filename == filename
    ensures WellFormed(r)
    ensures !host.fileExists ==> r.error == Some("File not found")
    ensures host.fileExists && host.archive.Success? && FindInfoPlist(host.archive.value).None? ==>
      r.error == Some("Info.plist not found")
    ensures r.error.None? ==>
      host.fileExists && host.archive.Success? && FindInfoPlist(host.archive.value).Some? &&
      var entries := host.archive.value;
      var infoPlist := FindInfoPlist(entries).value;
      EntryData(infoPlist, host.extract(infoPlist)).Success? &&
      var executable := BundleExecutable(host.decodePlist(host.extract(infoPlist).value));
      executable.Success? &&
      var execEntry := EntryAt(entries, ExecutablePath(BundleRoot(infoPlist.path), executable.value));
      execEntry.Some? && host.extract(execEntry.value).Success? &&
      var binary := host.extract(execEntry.value).value;
      host.loadMachO(binary).Success? &&
      var checked := MachO.CheckEncryption(host.loadMachO(binary).value, binary);
      r.slices == checked.slices && r.encrypted == Some(checked.AllSlicesEncrypted())
  {
    if !host.fileExists then Failed(path, filename, "File not found")
    else match host.archive
      case Failure(e) => Failed(path, filename, e)
      case Success(entries) =>
        match FindInfoPlist(entries)
        case None => Failed(path, filename, "Info.plist not found")
        case Some(infoPlist) =>
          var root := BundleRoot(infoPlist.path);
          match EntryData(infoPlist, host.extract(infoPlist))
          case Failure(e) => Failed(path, filename, e)
          case Success(plistData) =>
            match BundleExecutable(host.decodePlist(plistData))
            case Failure(e) => Failed(path, filename, e)
            case Success(executable) =>
              match EntryAt(entries, ExecutablePath(root, executable))
              case None => Failed(path, filename, "Executable not found: " + executable)
              case Some(execEntry) =>
                // extracted under TemporaryFileName(execEntry.path), then read back
                match host.extract(execEntry)
                case Failure(e) => Failed(path, filename, e)
                case Success(binary) =>
                  match host.loadMachO(binary)
                  case Failure(e) => Failed(path, filename, e)
                  case Success(file) =>
                    var result := MachO.CheckEncryption(file, binary);
                    ValidationResult(path, filename, Some(result.AllSlicesEncrypted()), result.slices, None)
  }

  /** When every step succeeds, the result is the checker's verdict on the
      executable found at "<bundle root>/<CFBundleExecutable>", with the
      checker's slices unchanged. */
  lemma ProcessIPASucceeds(
    path: string, filename: string, host: Host, entries: seq<Entry>, infoPlist: Entry,
    plistData: seq<bv8>, executable: string, execEntry: Entry, binary: seq<bv8>, file: MachO.File)
    requires host.fileExists && host.archive == Success(entries)
    requires FindInfoPlist(entries) == Some(infoPlist)
    requires host.extract(infoPlist) == Success(plistData) && plistData != []
    requires BundleExecutable(host.decodePlist(plistData)) == Success(executable)
    requires EntryAt(entries, ExecutablePath(BundleRoot(infoPlist.path), executable)) == Some(execEntry)
    requires host.extract(execEntry) == Success(binary)
    requires host.loadMachO(binary) == Success(file)
    ensures var r := ProcessIPA(path, filename, host);
      r.error.None?
      && r.slices == MachO.CheckEncryption(file, binary).slices
      && r.encrypted == Some(MachO.CheckEncryption(file, binary).AllSlicesEncrypted())
  {
  }

  /** An executable name that no archive entry carries under the bundle root
      fails with "Executable not found: <name>". */
  lemma ProcessIPAExecutableMissing(
    path: string, filename: string, host: Host, entries: seq<Entry>, infoPlist: Entry,
    plistData: seq<bv8>, executable: string)
    requires host.fileExists && host.archive == Success(entries)
    requires FindInfoPlist(entries) == Some(infoPlist)
    requires host.extract(infoPlist) == Success(plistData) && plistData != []
    requires BundleExecutable(host.decodePlist(plistData)) == Success(executable)
    requires forall i :: 0 <= i < |entries| ==>
      entries[i].path != ExecutablePath(BundleRoot(infoPlist.path), executable)
    ensures ProcessIPA(path, filename, host).error == Some("Executable not found: " + executable)
  {
  }

  // ---------------------------------------------------------------------------
  // Exit code

  /** 2 if any result has an error; otherwise 1 if any result is not
      encrypted; otherwise 0. */
  function ExitCode(results: seq<ValidationResult>): (code: int)
    ensures code == 2 <==> exists i :: 0 <= i < |results| && results[i].error.Some?
    ensures code == 1 <==> (forall i :: 0 <= i < |results| ==> results[i].error.None?)
                           && exists i :: 0 <= i < |results| && results[i].encrypted == Some(false)
    ensures code == 0 || code == 1 || code == 2
  {
    var hadErrors := !AllSatisfy(results, HasNoError);
    var anyNotEncrypted := Contains(results, IsNotEncrypted);
    if hadErrors then 2 else if anyNotEncrypted then 1 else 0
  }

  predicate HasNoError(r: ValidationResult) {
    r.error.None?
  }

  predicate IsNotEncrypted(r: ValidationResult) {
    r.encrypted == Some(false)
  }

  /** For well-formed results the run succeeds exactly when every input is
      reported encrypted. */
  lemma {:induction false} ExitCodeZeroIffAllEncrypted(results: seq<ValidationResult>)
    requires forall i :: 0 <= i < |results| ==> WellFormed(results[i])
    ensures ExitCode(results) == 0 <==> forall i :: 0 <= i < |results| ==> results[i].encrypted == Some(true)
  {
    if ExitCode(results) == 0 {
      forall i | 0 <= i < |results| ensures results[i].encrypted == Some(true) {
        assert results[i].error.None?;
        assert results[i].encrypted != Some(false);
      }
    }
  }

  /** Results arrive in completion order, which varies from run to run; the
      exit code does not depend on it. */
  lemma {:induction false} ExitCodeIgnoresOrder(a: seq<ValidationResult>, b: seq<ValidationResult>)
    requires multiset(a) == multiset(b)
    ensures ExitCode(a) == ExitCode(b)
  {
    AllSatisfyIgnoresOrder(a, b, HasNoError);
    ContainsIgnoresOrder(a, b, IsNotEncrypted);
  }

  /** The outcome of a run: refused arguments, an error thrown while
      preparing the shared temporary directory, or an exit code decided by
      the results. */
  datatype RunOutcome = UsageError(message: string) | SetupFailed(error: string) | Exit(code: int)

  /** An empty path list is refused before anything is processed; a failure
      to create the shared temporary directory (`tempDirError`) ends the run
      before any result exists; otherwise the exit code is decided by the
      finished results. */
  function Run(ipaPaths: seq<string>, tempDirError: Option<string>, results: seq<ValidationResult>): (o: RunOutcome)
    ensures o.UsageError? <==> ipaPaths == []
    ensures o.UsageError? ==> o.message == "No IPA files specified."
    ensures o.SetupFailed? <==> ipaPaths != [] && tempDirError.Some?
    ensures o.SetupFailed? ==> o.error == tempDirError.value
    ensures o.Exit? ==> o.code == ExitCode(results)
  {
    if ipaPaths == [] then UsageError("No IPA files specified.")
    else match tempDirError
      case Some(e) => SetupFailed(e)
      case None => Exit(ExitCode(results))
  }

  /** Each path processed on its own, in argument order. */
  function ProcessAll(ipaPaths: seq<string>, nameOf: string -> string, hostOf: string -> Host): (rs: seq<ValidationResult>)
    ensures |rs| == |ipaPaths|
    ensures forall i :: 0 <= i < |rs| ==> rs[i] == ProcessIPA(ipaPaths[i], nameOf(ipaPaths[i]), hostOf(ipaPaths[i]))
  {
    seq(|ipaPaths|, i requires 0 <= i < |ipaPaths| => ProcessIPA(ipaPaths[i], nameOf(ipaPaths[i]), hostOf(ipaPaths[i])))
  }

  /** A run over the results of processing every path, collected in any
      order, exits 0 exactly when every path is reported encrypted, 2 when
      some path failed, and 1 otherwise. */
  lemma {:induction false} RunOfProcessedPaths(
    ipaPaths: seq<string>, nameOf: string -> string, hostOf: string -> Host, results: seq<ValidationResult>)
    requires ipaPaths != []
    requires multiset(results) == multiset(ProcessAll(ipaPaths, nameOf, hostOf))
    ensures var o := Run(ipaPaths, None, results);
      var rs := ProcessAll(ipaPaths, nameOf, hostOf);
      && o.Exit?
      && (o.code == 0 <==> forall i :: 0 <= i < |rs| ==> rs[i].encrypted == Some(true))
      && (o.code == 2 <==> exists i :: 0 <= i < |rs| && rs[i].error.Some?)
  {
    var rs := ProcessAll(ipaPaths, nameOf, hostOf);
    ExitCodeIgnoresOrder(results, rs);
    ExitCodeZeroIffAllEncrypted(rs);
  }

  // ---------------------------------------------------------------------------
  // Output text

  const Tab: string := "\t"

  /** The --quiet line: "<path>\terror", "<path>\tencrypted" or
      "<path>\tnot-encrypted"; nothing for a result with neither an error nor
      a verdict. */
  function QuietLine(r: ValidationResult): Option<string> {
    if r.error.Some? then Some(r.path + Tab + "error")
    else if r.encrypted.Some? then
      Some(r.path + Tab + (if r.encrypted.value then "encrypted" else "not-encrypted"))
    else None
  }

  /** Every well-formed result prints a quiet line that starts with its path
      and a tab, and the line's ending tells the three outcomes apart, so
      `grep` on the ending recovers the verdict. */
  lemma {:induction false} QuietLineClassifies(r: ValidationResult)
    requires WellFormed(r)
    ensures QuietLine(r).Some?
    ensures var line := QuietLine(r).value;
      && line[..|r.path| + 1] == r.path + Tab
      && (HasSuffix(line, "\terror") <==> r.error.Some?)
      && (HasSuffix(line, "\tencrypted") <==> r.encrypted == Some(true))
      && (HasSuffix(line, "\tnot-encrypted") <==> r.encrypted == Some(false))
  {
    var line := QuietLine(r).value;
    var n := |line|;
    assert line[..|r.path| + 1] == r.path + Tab;
    if r.error.Some? {
      assert line == r.path + "\terror";
      assert line[n - 6..] == "\terror";
      assert line[n - 1] == 'r';
      assert !HasSuffix(line, "\tencrypted") by {
        if |line| >= 10 { assert line[n - 10..][9] == line[n - 1]; }
      }
      assert !HasSuffix(line, "\tnot-encrypted") by {
        if |line| >= 14 { assert line[n - 14..][13] == line[n - 1]; }
      }
    } else if r.encrypted == Some(true) {
      assert line == r.path + "\tencrypted";
      assert line[n - 10..] == "\tencrypted";
      assert line[n - 1] == 'd' && line[n - 10] == '\t';
      assert !HasSuffix(line, "\terror") by {
        if |line| >= 6 { assert line[n - 6..][5] == line[n - 1]; }
      }
      assert !HasSuffix(line, "\tnot-encrypted") by {
        if |line| >= 14 { assert line[n - 14..][4] == line[n - 10]; }
      }
    } else {
      assert line == r.path + "\tnot-encrypted";
      assert line[n - 14..] == "\tnot-encrypted";
      assert line[n - 1] == 'd' && line[n - 10] == '-';
      assert !HasSuffix(line, "\terror") by {
        if |line| >= 6 { assert line[n - 6..][5] == line[n - 1]; }
      }
      assert !HasSuffix(line, "\tencrypted") by {
        assert line[n - 10..][0] == line[n - 10];
      }
    }
  }

  /** The verbose architecture label of a slice. */
  function ArchLabel(is64Bit: bool): (arch: string)
    ensures arch == "arm64" || arch == "armv7"
    ensures arch == "arm64" <==> is64Bit
  {
    if is64Bit then "arm64" else "armv7"
  }

  /** Decimal rendering of a natural number, as Swift string interpolation
      prints an unsigned integer. */
  function DecimalString(n: nat): (s: string)
    ensures s != [] && forall k :: 0 <= k < |s| ==> '0' <= s[k] <= '9'
    decreases n
  {
    if n < 10 then [DigitChar(n)] else DecimalString(n / 10) + [DigitChar(n % 10)]
  }

  function DigitChar(d: nat): (c: char)
    requires d < 10
    ensures '0' <= c <= '9'
  {
    "0123456789"[d]
  }

  /** Reading decimal digits back, most significant first. */
  function ParseDecimal(s: string): nat
    requires forall k :: 0 <= k < |s| ==> '0' <= s[k] <= '9'
    decreases |s|
  {
    if s == [] then 0
    else 10 * ParseDecimal(s[..|s| - 1]) + (s[|s| - 1] as int - '0' as int)
  }

  /** Printing a number and reading it back gives the number. */
  lemma {:induction false} DecimalRoundTrip(n: nat)
    ensures ParseDecimal(DecimalString(n)) == n
    decreases n
  {
    var s := DecimalString(n);
    if n < 10 {
      assert s[..0] == [];
      assert DigitChar(n) as int - '0' as int == n;
    } else {
      DecimalRoundTrip(n / 10);
      assert s[..|s| - 1] == DecimalString(n / 10);
      assert DigitChar(n % 10) as int - '0' as int == n % 10;
    }
  }

  /** The verbose line for slice number `index`:
      "  Slice <index>: <arch> cryptid=<cryptid>". */
  function SliceLine(index: nat, slice: MachO.SliceStatus): string {
    "  Slice " + DecimalString(index) + ": " + ArchLabel(slice.is64Bit)
      + " cryptid=" + DecimalString(slice.cryptId as nat)
  }

  /** The text after "cryptid=" in a slice line reads back as the slice's
      cryptid. */
  lemma SliceLineShowsCryptId(index: nat, slice: MachO.SliceStatus)
    ensures var line := SliceLine(index, slice);
      var digits := DecimalString(slice.cryptId as nat);
      |digits| <= |line| && line[|line| - |digits|..] == digits
      && ParseDecimal(line[|line| - |digits|..]) == slice.cryptId as nat
  {
    DecimalRoundTrip(slice.cryptId as nat);
  }

  /** The per-slice lines printed for a result: in verbose mode, outside
      quiet mode, for a result with a verdict, one line per slice numbered
      from 0 in slice order; none otherwise. */
  function SliceLines(quiet: bool, verbose: bool, r: ValidationResult): (lines: seq<string>)
    ensures !quiet && verbose && r.error.None? && r.encrypted.Some? ==>
      |lines| == |r.slices| && forall i :: 0 <= i < |lines| ==> lines[i] == SliceLine(i, r.slices[i])
    ensures quiet || !verbose || r.error.Some? || r.encrypted.None? ==> lines == []
  {
    if !quiet && verbose && r.error.None? && r.encrypted.Some? then
      seq(|r.slices|, i requires 0 <= i < |r.slices| => SliceLine(i, r.slices[i]))
    else []
  }
}
