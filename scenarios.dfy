/** Concrete Mach-O images worked through the encryption checker: thin,
    byte-swapped, fat with mixed members, and a truncated record. */
module Scenarios {
  import opened MachO

  /** A 52-byte image: a 32-byte mach_header_64 followed by one
      encryption_info_command whose cryptid bytes are `id`. */
  function ImageWithCryptId(id: seq<bv8>): (data: seq<bv8>)
    requires |id| == 4
    ensures |data| == 52 && data[48..52] == id
  {
    seq(48, _ => 0 as bv8) + id
  }

  function EncryptedHeader(isSwapped: bool, start: nat): MachOFile {
    MachOFile(start, 32, isSwapped, true, [LoadCommand(EncryptionInfo64, 0)])
  }

  /** A thin 64-bit image with cryptid bytes 01 00 00 00 in native order is
      reported as one encrypted slice at offset 0. */
  lemma ThinEncryptedImage()
    ensures var r := CheckEncryption(Thin(EncryptedHeader(false, 0)), ImageWithCryptId([1, 0, 0, 0]));
      r.slices == [SliceStatus(0, true, 1)] && r.AllSlicesEncrypted()
  {
    var data := ImageWithCryptId([1, 0, 0, 0]);
    var m := EncryptedHeader(false, 0);
    FirstEncryptionInfoDecides(m, data, [], LoadCommand(EncryptionInfo64, 0), []);
    CryptIdIsOneIff(data, 32, false);
    AllSlicesEncryptedIff(CheckEncryption(Thin(m), data));
  }

  /** A byte-swapped image storing 00 00 00 01 reports cryptid 1. */
  lemma SwappedImageReadsOne()
    ensures SliceCryptId(EncryptedHeader(true, 0), ImageWithCryptId([0, 0, 0, 1])) == 1
  {
    var data := ImageWithCryptId([0, 0, 0, 1]);
    FirstEncryptionInfoDecides(EncryptedHeader(true, 0), data, [], LoadCommand(EncryptionInfo64, 0), []);
    CryptIdIsOneIff(data, 32, true);
  }

  /** A 120-byte fat image: byte 64 is 1, every other byte is 0. */
  function FatImage(): (data: seq<bv8>)
    ensures |data| == 120 && data[64..68] == [1, 0, 0, 0]
  {
    seq(120, i => if i == 64 then 1 as bv8 else 0)
  }

  /** A fat file whose first member (at offset 16) is encrypted and whose
      second member (at offset 68) has no encryption-info command is not
      encrypted; each slice keeps its own offset and width. */
  lemma FatMixedImage()
    ensures var second := MachOFile(68, 28, false, false, [LoadCommand(OtherCommand, 0)]);
      var r := CheckEncryption(Fat([EncryptedHeader(false, 16), second]), FatImage());
      && |r.slices| == 2
      && r.slices[0].offset == 16 && r.slices[0].is64Bit && r.slices[0].cryptId == 1
      && r.slices[1].offset == 68 && !r.slices[1].is64Bit && r.slices[1].cryptId == 0
      && !r.AllSlicesEncrypted()
  {
    var data := FatImage();
    var second := MachOFile(68, 28, false, false, [LoadCommand(OtherCommand, 0)]);
    FirstEncryptionInfoDecides(EncryptedHeader(false, 16), data, [], LoadCommand(EncryptionInfo64, 0), []);
    CryptIdIsOneIff(data, 48, false);
    NoEncryptionInfoMeansZero(second, data);
    var r := CheckEncryption(Fat([EncryptedHeader(false, 16), second]), data);
    OneClearSliceSuffices(r, 1);
  }

  /** An encryption-info command whose 20-byte record starts inside the data
      (at byte 40 of 52) but runs past its end reports 0. */
  lemma TruncatedImage()
    ensures var m := EncryptedHeader(false, 8);
      var data := ImageWithCryptId([1, 0, 0, 0]);
      var position := CommandPosition(m, m.loadCommands[0]);
      && position == 40 && position < |data| < position + EncryptionInfoCommandSize
      && SliceCryptId(m, data) == 0
  {
    TruncatedCommandMeansZero(EncryptedHeader(false, 8), ImageWithCryptId([1, 0, 0, 0]), 0);
  }
}
