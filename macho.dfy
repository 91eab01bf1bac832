/** The Mach-O encryption check: for each architecture slice, find the first
    LC_ENCRYPTION_INFO / LC_ENCRYPTION_INFO_64 load command, read the 4-byte
    `cryptid` field of Apple's `encryption_info_command` record and report
    whether it is 1.

    The headers themselves are parsed by a library; the model receives what it
    answers (header start, header size, byte order, word size and the load
    commands with their offsets) as plain data. */
module MachO {
  import opened Wrappers
  import opened Sequences

  /** The load-command tags the check distinguishes. */
  datatype LoadCommandType = EncryptionInfo | EncryptionInfo64 | OtherCommand

  /** One load command: its tag and its byte offset from the end of the header. */
  datatype LoadCommand = LoadCommand(cmdType: LoadCommandType, offset: nat)

  /** One parsed Mach-O image, as the header library reports it. */
  datatype MachOFile = MachOFile(
    headerStartOffset: nat,  // where this image's header starts in the file
    headerSize: nat,         // size of mach_header / mach_header_64
    isSwapped: bool,         // the image's byte order differs from the host's
    is64Bit: bool,
    loadCommands: seq<LoadCommand>)

  /** What the file turned out to be: a single image or a fat container of
      images, in the container's order. */
  datatype File = Thin(machO: MachOFile) | Fat(members: seq<MachOFile>)

  /** The verdict for one slice. */
  datatype SliceStatus = SliceStatus(offset: nat, is64Bit: bool, cryptId: bv32) {
    predicate IsEncrypted() { cryptId == 1 }
  }

  /** The verdict for the whole file. */
  datatype Result = Result(slices: seq<SliceStatus>) {
    predicate AllSlicesEncrypted() {
      slices != [] && AllSatisfy(slices, (s: SliceStatus) => s.IsEncrypted())
    }
  }

  /** Size of the `encryption_info_command` prefix the check needs:
      cmd, cmdsize, cryptoff, cryptsize, cryptid (five 4-byte words). */
  const EncryptionInfoCommandSize: nat := 20

  /** Offset of `cryptid` inside the command. */
  const CryptIdOffset: nat := 16

  predicate IsEncryptionInfo(cmd: LoadCommand) {
    cmd.cmdType == EncryptionInfo || cmd.cmdType == EncryptionInfo64
  }

  // ---------------------------------------------------------------------------
  // Byte order

  /** The 4 bytes at `at` read as a little-endian unsigned integer: what an
      unaligned 32-bit load yields on the little-endian hosts the tool runs on. */
  function LoadUInt32(data: seq<bv8>, at: nat): bv32
    requires at + 4 <= |data|
  {
    (data[at] as bv32)
    | ((data[at + 1] as bv32) << 8)
    | ((data[at + 2] as bv32) << 16)
    | ((data[at + 3] as bv32) << 24)
  }

  /** The same 4 bytes read as a big-endian unsigned integer. */
  function LoadUInt32BigEndian(data: seq<bv8>, at: nat): bv32
    requires at + 4 <= |data|
  {
    (data[at + 3] as bv32)
    | ((data[at + 2] as bv32) << 8)
    | ((data[at + 1] as bv32) << 16)
    | ((data[at] as bv32) << 24)
  }

  /** Swift's `UInt32.byteSwapped`: the four bytes in reverse order. */
  function ByteSwapped(x: bv32): bv32 {
    ((x & 0xFF) << 24) | ((x & 0xFF00) << 8) | ((x >> 8) & 0xFF00) | (x >> 24)
  }

  /** Swapping twice gives back the original value. */
  lemma ByteSwapInvolution(x: bv32)
    ensures ByteSwapped(ByteSwapped(x)) == x
  {
  }

  /** Swapping a little-endian read is a big-endian read. */
  lemma ByteSwappedLoad(data: seq<bv8>, at: nat)
    requires at + 4 <= |data|
    ensures ByteSwapped(LoadUInt32(data, at)) == LoadUInt32BigEndian(data, at)
  {
  }

  /** The `cryptid` of the command at `position`, honouring the byte order. */
  function ReadCryptId(data: seq<bv8>, position: nat, isSwapped: bool): (id: bv32)
    requires position + EncryptionInfoCommandSize <= |data|
    ensures id == if isSwapped then LoadUInt32BigEndian(data, position + CryptIdOffset)
                  else LoadUInt32(data, position + CryptIdOffset)
  {
    var raw := LoadUInt32(data, position + CryptIdOffset);
    if isSwapped then ByteSwappedLoad(data, position + CryptIdOffset); ByteSwapped(raw) else raw
  }

  /** The value 1 is stored as 01 00 00 00 in native order and as 00 00 00 01
      in swapped order; nothing else reads as 1. */
  lemma {:induction false} CryptIdIsOneIff(data: seq<bv8>, position: nat, isSwapped: bool)
    requires position + EncryptionInfoCommandSize <= |data|
    ensures ReadCryptId(data, position, isSwapped) == 1 <==>
      var b := data[position + 16..position + 20];
      b == (if isSwapped then [0, 0, 0, 1] else [1, 0, 0, 0])
  {
    var at := position + CryptIdOffset;
    var b := data[at..at + 4];
    assert b[0] == data[at] && b[1] == data[at + 1] && b[2] == data[at + 2] && b[3] == data[at + 3];
    var e: seq<bv8> := if isSwapped then [0, 0, 0, 1] else [1, 0, 0, 0];
    if b == e {
      assert data[at] == e[0] && data[at + 1] == e[1] && data[at + 2] == e[2] && data[at + 3] == e[3];
    }
    if ReadCryptId(data, position, isSwapped) == 1 {
      assert data[at] == e[0] && data[at + 1] == e[1] && data[at + 2] == e[2] && data[at + 3] == e[3];
      assert b == e;
    }
  }

  // ---------------------------------------------------------------------------
  // One slice

  /** Where the command sits in the file. */
  function CommandPosition(machO: MachOFile, cmd: LoadCommand): nat {
    machO.headerStartOffset + machO.headerSize + cmd.offset
  }

  /** The `cryptid` a slice reports: 0 when it has no encryption-info command
      or when its first one does not fit inside `data`; otherwise the field of
      the first one. Commands after the first encryption-info are never looked at. */
  function SliceCryptId(machO: MachOFile, data: seq<bv8>): bv32 {
    match FirstIndex(machO.loadCommands, IsEncryptionInfo)
    case None => 0
    case Some(i) =>
      var position := CommandPosition(machO, machO.loadCommands[i]);
      if position + EncryptionInfoCommandSize <= |data| then
        ReadCryptId(data, position, machO.isSwapped)
      else 0
  }

  /** The status a slice reports, under the caller's offset. */
  function SliceStatusOf(machO: MachOFile, offset: nat, data: seq<bv8>): SliceStatus {
    SliceStatus(offset, machO.is64Bit, SliceCryptId(machO, data))
  }

  /** The load-command scan: walk the commands in order, stop at the first
      encryption-info command, and read its `cryptid` if the 20-byte record
      lies inside `data`. Every byte read is inside `data`. */
  method CheckSlice(machO: MachOFile, offset: nat, data: seq<bv8>) returns (status: SliceStatus)
    ensures status.offset == offset && status.is64Bit == machO.is64Bit
    ensures status == SliceStatusOf(machO, offset, data)
  {
    var cryptId: bv32 := 0;
    var i := 0;
    while i < |machO.loadCommands|
      invariant i <= |machO.loadCommands|
      invariant forall j :: 0 <= j < i ==> !IsEncryptionInfo(machO.loadCommands[j])
      invariant cryptId == 0
    {
      var loadCommand := machO.loadCommands[i];
      if IsEncryptionInfo(loadCommand) {
        FirstIndexIs(machO.loadCommands, IsEncryptionInfo, i);
        var commandOffset := machO.headerStartOffset + machO.headerSize + loadCommand.offset;
        if commandOffset + EncryptionInfoCommandSize > |data| {
          break;
        }
        var raw := LoadUInt32(data, commandOffset + CryptIdOffset);
        cryptId := if machO.isSwapped then ByteSwapped(raw) else raw;
        break;
      }
      i := i + 1;
    }
    status := SliceStatus(offset, machO.is64Bit, cryptId);
  }

  /** Without an encryption-info command a slice reports 0, never an error. */
  lemma {:induction false} NoEncryptionInfoMeansZero(machO: MachOFile, data: seq<bv8>)
    requires forall j :: 0 <= j < |machO.loadCommands| ==> !IsEncryptionInfo(machO.loadCommands[j])
    ensures SliceCryptId(machO, data) == 0
    ensures !SliceStatusOf(machO, 0, data).IsEncrypted()
  {
    assert FirstIndex(machO.loadCommands, IsEncryptionInfo).None?;
  }

  /** Only the first encryption-info command counts: whatever follows it,
      including other encryption-info commands, is ignored, and a first command
      that does not fit yields 0. */
  lemma {:induction false} FirstEncryptionInfoDecides(
    machO: MachOFile, data: seq<bv8>, before: seq<LoadCommand>, first: LoadCommand, after: seq<LoadCommand>)
    requires machO.loadCommands == before + [first] + after
    requires forall j :: 0 <= j < |before| ==> !IsEncryptionInfo(before[j])
    requires IsEncryptionInfo(first)
    ensures var position := CommandPosition(machO, first);
      SliceCryptId(machO, data) ==
        if position + EncryptionInfoCommandSize <= |data| then ReadCryptId(data, position, machO.isSwapped)
        else 0
  {
    var cmds := machO.loadCommands;
    assert cmds[|before|] == first;
    forall j | 0 <= j < |before| ensures !IsEncryptionInfo(cmds[j]) {
      assert cmds[j] == before[j];
    }
    FirstIndexIs(cmds, IsEncryptionInfo, |before|);
  }

  /** A command cut off by the end of the data reports 0 rather than failing. */
  lemma TruncatedCommandMeansZero(machO: MachOFile, data: seq<bv8>, i: nat)
    requires i < |machO.loadCommands| && IsEncryptionInfo(machO.loadCommands[i])
    requires forall j :: 0 <= j < i ==> !IsEncryptionInfo(machO.loadCommands[j])
    requires CommandPosition(machO, machO.loadCommands[i]) + EncryptionInfoCommandSize > |data|
    ensures SliceCryptId(machO, data) == 0
  {
    FirstIndexIs(machO.loadCommands, IsEncryptionInfo, i);
  }

  // ---------------------------------------------------------------------------
  // The whole file

  /** One status for a thin file (at offset 0); one per member for a fat
      file, in the container's order, each under the member's header offset. */
  function CheckEncryption(file: File, data: seq<bv8>): (r: Result)
    ensures file.Thin? ==> r.slices == [SliceStatusOf(file.machO, 0, data)]
    ensures file.Fat? ==> |r.slices| == |file.members|
    ensures file.Fat? ==> forall i :: 0 <= i < |file.members| ==>
      r.slices[i].offset == file.members[i].headerStartOffset
      && r.slices[i].is64Bit == file.members[i].is64Bit
      && r.slices[i].cryptId == SliceCryptId(file.members[i], data)
  {
    match file
    case Thin(machO) => Result([SliceStatusOf(machO, 0, data)])
    case Fat(members) =>
      Result(seq(|members|, i requires 0 <= i < |members| =>
        SliceStatusOf(members[i], members[i].headerStartOffset, data)))
  }

  /** The aggregate: encrypted exactly when there is at least one slice and
      every slice has cryptid 1. */
  lemma AllSlicesEncryptedIff(r: Result)
    ensures r.AllSlicesEncrypted() <==>
      |r.slices| > 0 && forall i :: 0 <= i < |r.slices| ==> r.slices[i].cryptId == 1
  {
    assert AllSatisfy(r.slices, (s: SliceStatus) => s.IsEncrypted()) <==>
      forall i :: 0 <= i < |r.slices| ==> r.slices[i].IsEncrypted();
  }

  /** One slice that is not encrypted makes the whole file not encrypted,
      and a file without slices is never reported encrypted. */
  lemma {:induction false} OneClearSliceSuffices(r: Result, i: nat)
    requires i < |r.slices| && r.slices[i].cryptId != 1
    ensures !r.AllSlicesEncrypted()
  {
    AllSlicesEncryptedIff(r);
  }
}
