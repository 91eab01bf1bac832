/** Locating things inside an .ipa archive: the entry that is the app's
    Info.plist, the name given to the temporary copy of an extracted entry,
    the non-empty check on extracted data, and the CFBundleExecutable lookup
    in the decoded Info.plist. Archive reading and property-list decoding are
    done by libraries; the model receives their answers as values. */
module Extractor {
  import opened Wrappers
  import opened Sequences
  import opened Strings

  datatype EntryType = File | Directory | Symlink

  /** An archive entry: its path inside the archive and its kind. */
  datatype Entry = Entry(path: string, entryType: EntryType)

  /** A decoded property-list value. */
  datatype PlistValue =
    | PString(text: string)
    | PInteger(number: int)
    | PBoolean(flag: bool)
    | PData(bytes: seq<bv8>)
    | PArray(items: seq<PlistValue>)
    | PDictionary(entries: map<string, PlistValue>)

  // ---------------------------------------------------------------------------
  // The Info.plist predicate

  /** A component a path can contribute: non-empty, without '/', not ".". */
  predicate IsComponent(c: string) {
    c != "" && '/' !in c && c != "."
  }

  /** The path split on '/', empty components dropped, and "." components
      removed. */
  function PathComponents(path: string): (cs: seq<string>)
    ensures forall k :: 0 <= k < |cs| ==> IsComponent(cs[k])
  {
    Filter(Split(path, '/'), IsNotDot)
  }

  predicate IsNotDot(c: string) {
    c != "."
  }

  /** Counted from the first "Payload" component there are exactly two more:
      a name ending in ".app", then "Info.plist". */
  predicate IsInfoPlistPath(path: string) {
    var cs := PathComponents(path);
    match FirstIndex(cs, (c: string) => c == "Payload")
    case None => false
    case Some(payload) =>
      payload + 3 == |cs| && HasSuffix(cs[payload + 1], ".app") && cs[payload + 2] == "Info.plist"
  }

  /** Only regular files can be the Info.plist. */
  predicate IsInfoPlistEntry(entry: Entry) {
    entry.entryType == File && IsInfoPlistPath(entry.path)
  }

  /** The same predicate read from the end of the path: the last three
      components are "Payload", an ".app" name and "Info.plist", and no
      earlier component is "Payload". */
  lemma {:induction false} InfoPlistPathFromEnd(path: string)
    ensures IsInfoPlistPath(path) <==>
      var cs := PathComponents(path);
      |cs| >= 3 && cs[|cs| - 3] == "Payload" && "Payload" !in cs[..|cs| - 3]
      && HasSuffix(cs[|cs| - 2], ".app") && cs[|cs| - 1] == "Info.plist"
  {
    var cs := PathComponents(path);
    var isPayload := (c: string) => c == "Payload";
    if |cs| >= 3 && cs[|cs| - 3] == "Payload" && "Payload" !in cs[..|cs| - 3] {
      forall j | 0 <= j < |cs| - 3 ensures !isPayload(cs[j]) {
        assert cs[j] == cs[..|cs| - 3][j];
      }
      FirstIndexIs(cs, isPayload, |cs| - 3);
    }
    if IsInfoPlistPath(path) {
      var k := FirstIndex(cs, isPayload).value;
      assert k == |cs| - 3;
      forall j | 0 <= j < k ensures cs[..k][j] != "Payload" {
        assert cs[..k][j] == cs[j] && !isPayload(cs[j]);
      }
    }
  }

  /** PathComponents recovers the pieces a path was built from with single
      slashes, less the "." pieces. */
  lemma {:induction false} ComponentsOfJoin(parts: seq<string>)
    requires IsPieceList(parts, '/')
    ensures PathComponents(Join(parts, '/')) == Filter(parts, IsNotDot)
    ensures (forall k :: 0 <= k < |parts| ==> parts[k] != ".") ==> PathComponents(Join(parts, '/')) == parts
  {
    SplitJoin(parts, '/');
  }

  /** The components of "a/b" are those of `a` followed by those of `b`;
      with SplitDoubledSeparator, extra slashes anywhere change nothing. */
  lemma {:induction false} ComponentsConcat(a: string, b: string)
    ensures PathComponents(a + "/" + b) == PathComponents(a) + PathComponents(b)
  {
    assert a + "/" + b == a + ['/'] + b;
    SplitConcat(a, b, '/');
    FilterConcat(Split(a, '/'), Split(b, '/'), IsNotDot);
  }

  /** "<dirs>/Payload/<X>.app/Info.plist" is the Info.plist path exactly when
      no directory before it is called "Payload". */
  lemma {:induction false} InfoPlistPathOfJoin(dirs: seq<string>, app: string)
    requires forall k :: 0 <= k < |dirs| ==> IsComponent(dirs[k])
    requires IsComponent(app)
    ensures IsInfoPlistPath(Join(dirs + ["Payload", app, "Info.plist"], '/')) <==>
      "Payload" !in dirs && HasSuffix(app, ".app")
  {
    var parts := dirs + ["Payload", app, "Info.plist"];
    forall k | 0 <= k < |parts| ensures IsComponent(parts[k]) {
      if k >= |dirs| {
        assert parts[k] in ["Payload", app, "Info.plist"];
      }
    }
    assert IsPieceList(parts, '/');
    ComponentsOfJoin(parts);
    InfoPlistPathFromEnd(Join(parts, '/'));
    assert parts[..|parts| - 3] == dirs;
  }

  /** No entry before index `i` is the Info.plist. */
  predicate IsFirstInfoPlist(archive: seq<Entry>, i: nat)
    requires i <= |archive|
  {
    forall j :: 0 <= j < i ==> !IsInfoPlistEntry(archive[j])
  }

  /** The first regular-file entry, in archive order, whose path is the
      Info.plist path; None when there is none. */
  function FindInfoPlist(archive: seq<Entry>): (r: Option<Entry>)
    ensures r.None? <==> forall i :: 0 <= i < |archive| ==> !IsInfoPlistEntry(archive[i])
    ensures r.Some? ==> r.value.entryType == File && IsInfoPlistPath(r.value.path)
    ensures r.Some? ==>
      exists i :: 0 <= i < |archive| && archive[i] == r.value && IsFirstInfoPlist(archive, i)
  {
    match FirstIndex(archive, IsInfoPlistEntry)
    case None => None
    case Some(i) => Some(archive[i])
  }

  /** No entry before index `i` carries `path`. */
  predicate NoEarlierPath(archive: seq<Entry>, path: string, i: nat)
    requires i <= |archive|
  {
    forall j :: 0 <= j < i ==> archive[j].path != path
  }

  /** Lookup of an entry by exact path: the first entry carrying it. */
  function EntryAt(archive: seq<Entry>, path: string): (r: Option<Entry>)
    ensures r.None? <==> forall i :: 0 <= i < |archive| ==> archive[i].path != path
    ensures r.Some? ==> r.value.path == path
    ensures r.Some? ==>
      exists i :: 0 <= i < |archive| && archive[i] == r.value && NoEarlierPath(archive, path, i)
  {
    match FirstIndex(archive, (e: Entry) => e.path == path)
    case None => None
    case Some(i) => Some(archive[i])
  }

  // ---------------------------------------------------------------------------
  // Extracted data, temporary file name, bundle executable

  /** Extracted bytes of an entry; empty data is an error, never returned. */
  function EntryData(entry: Entry, extracted: Result<seq<bv8>>): (r: Result<seq<bv8>>)
    ensures r.Success? <==> extracted.Success? && extracted.value != []
    ensures r.Success? ==> r.value == extracted.value
    ensures extracted.Success? && extracted.value == [] ==> r == Failure("Entry is empty: " + entry.path)
    ensures extracted.Failure? ==> r == extracted
  {
    match extracted
    case Failure(e) => Failure(e)
    case Success(data) =>
      if data == [] then Failure("Entry is empty: " + entry.path) else Success(data)
  }

  const DefaultFileName: string := "executable"

  /** The name of the temporary copy: the last non-empty '/'-component of the
      entry path, or "executable" when the path has none. */
  function TemporaryFileName(path: string): (name: string)
    ensures name != [] && '/' !in name
    ensures AllSep(path, '/') ==> name == DefaultFileName
    ensures !AllSep(path, '/') ==> IsLastPiece(path, name, '/')
  {
    var parts := Split(path, '/');
    SplitEmptyIff(path, '/');
    if parts == [] then DefaultFileName
    else
      SplitLastPiece(path, '/');
      parts[|parts| - 1]
  }

  const BundleExecutableKey: string := "CFBundleExecutable"

  /** The CFBundleExecutable string of a decoded Info.plist. A decoder error
      is passed on; a top level that is not a dictionary, a missing key, a
      value that is not a string or an empty string all fail alike. */
  function BundleExecutable(decoded: Result<PlistValue>): (r: Result<string>)
    ensures r.Success? <==>
      decoded.Success? && decoded.value.PDictionary?
      && BundleExecutableKey in decoded.value.entries
      && decoded.value.entries[BundleExecutableKey].PString?
      && decoded.value.entries[BundleExecutableKey].text != ""
    ensures r.Success? ==> r.value != "" && decoded.value.entries[BundleExecutableKey] == PString(r.value)
    ensures decoded.Success? && r.Failure? ==> r.error == "CFBundleExecutable not found in Info.plist"
    ensures decoded.Failure? ==> r == Failure(decoded.error)
  {
    match decoded
    case Failure(e) => Failure(e)
    case Success(PDictionary(dict)) =>
      if BundleExecutableKey in dict && dict[BundleExecutableKey].PString?
        && dict[BundleExecutableKey].text != ""
      then Success(dict[BundleExecutableKey].text)
      else Failure("CFBundleExecutable not found in Info.plist")
    case Success(_) => Failure("CFBundleExecutable not found in Info.plist")
  }
}
