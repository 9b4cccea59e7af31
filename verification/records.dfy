/** The storage records the analyser writes: every number is already a hex
    string, every header a field-name to hex-string map. Empty strings stand
    for absent optional values, as Go's zero value does. */
module Records {
  import opened Wrappers
  import opened Hex
  import opened External
  import Amdfw

  datatype BinaryEntry = BinaryEntry(
    header: Option<map<string, string>>,
    signature: string,
    comment: seq<string>,
    typeInfo: Option<Amdfw.TypeInfo>,
    version: string,
    size: string,
    entryType: string)

  /** A record of the entry index: the rendered entry and its content identifier. */
  datatype DBEntry = DBEntry(binary: BinaryEntry, id: ContentID)

  datatype DirectoryEntry = DirectoryEntry(
    entryType: string,
    size: string,
    location: string,
    reserved: string,
    unknown: string)

  datatype Entry = Entry(db: DBEntry, directoryEntry: DirectoryEntry)

  datatype DirectoryHeader = DirectoryHeader(
    cookie: string,
    checksum: string,
    checksumValid: bool,
    totalEntries: string,
    reserved: string)

  datatype Directory = Directory(header: DirectoryHeader, entries: seq<Entry>, location: string)

  datatype Rom = Rom(romType: Amdfw.RomType, directories: seq<Directory>)

  datatype FirmwareEntryTable = FirmwareEntryTable(
    location: string,
    signature: string,
    imcRomBase: string,
    gecRomBase: string,
    xhcRomBase: string,
    pspDirBase: string,
    newPspDirBase: string,
    bhdDirBase: string,
    newBhdDirBase: string)

  datatype Image = Image(fet: Option<FirmwareEntryTable>, flashMapping: string, roms: seq<Rom>)

  /** One AGESA signature found by the scanner: the matched text, the 100 bytes
      that start at the match, and the match offset as a `uint32`. */
  datatype AMDAGESA = AMDAGESA(header: string, raw: seq<Byte>, offset: U32)

  /** The value of the `AMD` field of a flash image document. */
  datatype AMDFirmware = AMDFirmware(agesa: seq<AMDAGESA>, firmware: Option<Image>)
}
