// What the core receives from code it does not own: the matches of the
// YARA scanner (go-yara), the parsed firmware tree of the amdfw library, and
// the collaborators themselves, bundled as functions of their inputs.

/** The scanner's output: each matched rule with the strings it matched. */
module Yara {
  import opened Hex

  /** One matched string: where it starts in the scanned bytes and what it matched. */
  datatype MatchString = MatchString(offset: nat, data: seq<Byte>)

  datatype Match = Match(rule: string, strings: seq<MatchString>)
}

/** The amdfw library's parsed tree. Pointer fields are `Option`s. */
module Amdfw {
  import opened Wrappers
  import opened Hex

  datatype FirmwareEntryTable = FirmwareEntryTable(
    location: U32,
    signature: U32,
    imcRomBase: Option<U32>,
    gecRomBase: Option<U32>,
    xhcRomBase: Option<U32>,
    pspDirBase: Option<U32>,
    newPspDirBase: Option<U32>,
    bhdDirBase: Option<U32>,
    newBhdDirBase: Option<U32>)

  /** Copied through unchanged by the normaliser. */
  datatype TypeInfo = TypeInfo(typeName: string, name: string, comment: string)

  /** A field of a type-specific entry header: an unsigned integer or a byte array. */
  datatype HeaderValue = Number(n: nat) | ByteArray(bytes: seq<Byte>)

  /** A declared header field, as reflection enumerates it: name and value. */
  datatype HeaderField = HeaderField(name: string, value: HeaderValue)

  datatype DirectoryEntry = DirectoryEntry(
    entryType: nat,
    size: nat,
    location: nat,
    reserved: nat,
    unknown: Option<nat>)

  /** A directory entry. A nil `Signature` slice and an empty one are the same
      empty sequence; a nil `Header` is `None`. */
  datatype Entry = Entry(
    directoryEntry: DirectoryEntry,
    raw: seq<Byte>,
    signature: seq<Byte>,
    header: Option<seq<HeaderField>>,
    comment: seq<string>,
    typeInfo: Option<TypeInfo>,
    version: string)

  datatype DirectoryHeader = DirectoryHeader(
    cookie: seq<Byte>,
    checksum: U32,
    totalEntries: nat,
    reserved: U32)

  datatype Directory = Directory(header: DirectoryHeader, location: U32, entries: seq<Entry>)

  /** `amdfw.RomType`, copied through unchanged. */
  type RomType = nat

  datatype Rom = Rom(romType: RomType, directories: seq<Directory>)

  datatype Image = Image(
    fet: Option<FirmwareEntryTable>,
    flashMapping: Option<U32>,
    roms: seq<Rom>)

  /** What `Directory.ValidateChecksum` returns. */
  datatype ChecksumResult = ChecksumResult(valid: bool, err: Option<Error>)

  /** What `ParseRoms` returns: the ROMs it could parse and the errors it met. */
  datatype RomsResult = RomsResult(roms: seq<Rom>, errs: seq<Error>)
}

/** The collaborators of the core, each a function of its inputs. */
module External {
  import opened Wrappers
  import opened Hex
  import Yara
  import Amdfw

  /** The content identifier `MFTCommon.GenerateID(b).GetID()` derives from a blob. */
  type ContentID = string

  datatype Collaborators = Collaborators(
    /** the compiled AMD rule set's `ScanMem` */
    scan: seq<Byte> -> Result<seq<Yara.Match>>,
    findFirmwareEntryTable: seq<Byte> -> Result<nat>,
    parseFirmwareEntryTable: (seq<Byte>, nat) -> Result<Amdfw.FirmwareEntryTable>,
    getFlashMapping: (seq<Byte>, Amdfw.FirmwareEntryTable) -> Result<U32>,
    parseRoms: (seq<Byte>, Amdfw.FirmwareEntryTable, U32) -> Amdfw.RomsResult,
    validateChecksum: Amdfw.Directory -> Amdfw.ChecksumResult,
    /** content addressing: deterministic, total, depends on the bytes only */
    generateId: seq<Byte> -> ContentID)

  /** Go's `string(b)`: the bytes read as characters one for one. */
  function Text(b: seq<Byte>): (s: string)
    ensures |s| == |b|
    ensures forall i :: 0 <= i < |b| ==> s[i] as int == b[i]
  {
    seq(|b|, i requires 0 <= i < |b| => b[i] as char)
  }
}
