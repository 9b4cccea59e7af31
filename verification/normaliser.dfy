/** The normaliser of Wrapper.go: `ConvertAMDEntryToMFT` renders one parsed
    entry as an index record and `ConvertAMDFWToMFT` renders the whole parsed
    tree (ROM, directory, entry) as storage records. The functions say what
    each record is, the lemmas what its fields mean, and the methods build the
    records the way the source does, with loops that append, and are proved to
    build exactly those records. */
module Normaliser {
  import opened Wrappers
  import opened Hex
  import opened External
  import opened Records
  import Amdfw

  // ---------------------------------------------------------------------------
  // What a rendered field is

  /** `s` is `0x%X` of `n`: `0x`, canonical uppercase digits, reading back as `n`. */
  predicate IsHexOf(s: string, n: nat) {
    |s| >= 3 && s[..2] == "0x" && Canonical(s[2..]) && Parse(s) == Some(n)
  }

  /** `s` is `0x%08X` of a 32-bit `n`: ten characters, reading back as `n`. */
  predicate IsHex08Of(s: string, n: U32) {
    |s| == 10 && s[..2] == "0x" && AllHex(s[2..]) && Parse(s) == Some(n)
  }

  /** `s` is `0x%X` of the bytes `b`: two digits per byte, reading back as `b`. */
  predicate IsBytesHexOf(s: string, b: seq<Byte>) {
    |s| == 2 + 2 * |b| && s[..2] == "0x" && AllHex(s[2..]) && ParseBytes(s) == Some(b)
  }

  /** An absent pointer field stays the empty string; a present one is rendered. */
  predicate IsOptionalHex08Of(s: string, o: Option<U32>) {
    if o.None? then s == "" else IsHex08Of(s, o.value)
  }

  predicate IsOptionalHexOf(s: string, o: Option<nat>) {
    if o.None? then s == "" else IsHexOf(s, o.value)
  }

  /** A pointer field rendered with `0x%08X` when it is set. */
  function OptionalHex08(o: Option<U32>): (s: string)
    ensures IsOptionalHex08Of(s, o)
  {
    if o.Some? then Format08RoundTrip(o.value); Format08(o.value) else ""
  }

  /** A pointer field rendered with `0x%X` when it is set. */
  function OptionalHex(o: Option<nat>): (s: string)
    ensures IsOptionalHexOf(s, o)
  {
    if o.Some? then FormatRoundTrip(o.value); Format(o.value) else ""
  }

  // ---------------------------------------------------------------------------
  // Headers: the reflective field loop, over an explicit field list

  /** `0x%X` of a header field's value. */
  function RenderHeaderValue(v: Amdfw.HeaderValue): (s: string)
    ensures |s| >= 2 && s[..2] == "0x" && AllHex(s[2..])
    ensures v.Number? ==> IsHexOf(s, v.n)
    ensures v.ByteArray? ==> IsBytesHexOf(s, v.bytes)
  {
    match v
    case Number(n) => FormatRoundTrip(n); Format(n)
    case ByteArray(b) => FormatBytesRoundTrip(b); FormatBytes(b)
  }

  /** The header map after assigning every field in declaration order. */
  function HeaderMap(fields: seq<Amdfw.HeaderField>): map<string, string> {
    if fields == [] then map[]
    else
      var last := fields[|fields| - 1];
      HeaderMap(fields[..|fields| - 1])[last.name := RenderHeaderValue(last.value)]
  }

  function FieldNames(fields: seq<Amdfw.HeaderField>): set<string> {
    set i | 0 <= i < |fields| :: fields[i].name
  }

  /** Struct fields have pairwise different names. */
  predicate DistinctNames(fields: seq<Amdfw.HeaderField>) {
    forall i, j :: 0 <= i < j < |fields| ==> fields[i].name != fields[j].name
  }

  lemma FieldNamesOfInit(fields: seq<Amdfw.HeaderField>)
    requires fields != []
    ensures FieldNames(fields) == FieldNames(fields[..|fields| - 1]) + {fields[|fields| - 1].name}
  {
    var init := fields[..|fields| - 1];
    forall k | k in FieldNames(fields) ensures k in FieldNames(init) + {fields[|fields| - 1].name} {
      var i :| 0 <= i < |fields| && fields[i].name == k;
      if i < |fields| - 1 {
        assert init[i] == fields[i];
      }
    }
    forall k | k in FieldNames(init) ensures k in FieldNames(fields) {
      var i :| 0 <= i < |init| && init[i].name == k;
      assert fields[i] == init[i];
    }
  }

  /** One key per declared field, each holding a `0x` hex rendering. */
  lemma {:induction false} HeaderMapKeys(fields: seq<Amdfw.HeaderField>)
    ensures HeaderMap(fields).Keys == FieldNames(fields)
    ensures forall k :: k in HeaderMap(fields) ==>
              |HeaderMap(fields)[k]| >= 2 && HeaderMap(fields)[k][..2] == "0x"
    decreases |fields|
  {
    if fields != [] {
      HeaderMapKeys(fields[..|fields| - 1]);
      FieldNamesOfInit(fields);
    }
  }

  /** With distinct names, each declared field's key holds that field's own value. */
  lemma {:induction false} HeaderMapValues(fields: seq<Amdfw.HeaderField>, i: nat)
    requires DistinctNames(fields) && i < |fields|
    ensures fields[i].name in HeaderMap(fields)
    ensures HeaderMap(fields)[fields[i].name] == RenderHeaderValue(fields[i].value)
    decreases |fields|
  {
    var init := fields[..|fields| - 1];
    if i < |fields| - 1 {
      assert init[i] == fields[i];
      assert DistinctNames(init) by {
        forall i', j' | 0 <= i' < j' < |init| ensures init[i'].name != init[j'].name {
          assert init[i'] == fields[i'] && init[j'] == fields[j'];
        }
      }
      HeaderMapValues(init, i);
    }
  }

  /** The `Header` of a record: absent exactly when the parsed header is nil. */
  function HeaderRecord(h: Option<seq<Amdfw.HeaderField>>): (r: Option<map<string, string>>)
    ensures h.None? <==> r.None?
    ensures h.Some? ==> r.value.Keys == FieldNames(h.value)
    ensures h.Some? ==> forall k :: k in r.value ==> |r.value[k]| >= 2 && r.value[k][..2] == "0x"
  {
    if h.None? then None else HeaderMapKeys(h.value); Some(HeaderMap(h.value))
  }

  /** Reflection's field loop: one assignment per declared field. */
  method BuildHeader(fields: seq<Amdfw.HeaderField>) returns (header: map<string, string>)
    ensures header == HeaderMap(fields)
  {
    header := map[];
    for i := 0 to |fields|
      invariant header == HeaderMap(fields[..i])
    {
      assert fields[..i + 1][..i] == fields[..i];
      header := header[fields[i].name := RenderHeaderValue(fields[i].value)];
    }
    assert fields[..|fields|] == fields;
  }

  // ---------------------------------------------------------------------------
  // Entries

  /** The index record `ConvertAMDEntryToMFT` builds for an entry. */
  function EntryRecord(generateId: seq<Byte> -> ContentID, origin: Amdfw.Entry): DBEntry {
    DBEntry(
      BinaryEntry(
        header := HeaderRecord(origin.header),
        signature := Format(origin.directoryEntry.reserved),
        comment := origin.comment,
        typeInfo := origin.typeInfo,
        version := origin.version,
        size := Format(origin.directoryEntry.size),
        entryType := Format(origin.directoryEntry.entryType)),
      generateId(origin.raw))
  }

  /** The index record's identifier is the content id of the raw bytes alone;
      its numbers are `0x%X` renderings that read back as the parsed values;
      the signature slot holds the directory entry's reserved word. */
  lemma EntryRecordRendered(generateId: seq<Byte> -> ContentID, origin: Amdfw.Entry)
    ensures var r := EntryRecord(generateId, origin);
      && r.id == generateId(origin.raw)
      && IsHexOf(r.binary.signature, origin.directoryEntry.reserved)
      && IsHexOf(r.binary.entryType, origin.directoryEntry.entryType)
      && IsHexOf(r.binary.size, origin.directoryEntry.size)
      && (origin.header.None? <==> r.binary.header.None?)
      && (origin.header.Some? ==> r.binary.header.value.Keys == FieldNames(origin.header.value))
      && r.binary.comment == origin.comment && r.binary.typeInfo == origin.typeInfo
      && r.binary.version == origin.version
  {
    FormatRoundTrip(origin.directoryEntry.reserved);
    FormatRoundTrip(origin.directoryEntry.entryType);
    FormatRoundTrip(origin.directoryEntry.size);
  }

  /** Content addressing: the identifier depends on the raw bytes only. */
  lemma SameRawSameEntryId(generateId: seq<Byte> -> ContentID, a: Amdfw.Entry, b: Amdfw.Entry)
    requires a.raw == b.raw
    ensures EntryRecord(generateId, a).id == EntryRecord(generateId, b).id
  {
  }

  /** `ConvertAMDEntryToMFT`. */
  method ConvertAMDEntryToMFT(generateId: seq<Byte> -> ContentID, origin: Amdfw.Entry)
    returns (dbEntry: DBEntry)
    ensures dbEntry == EntryRecord(generateId, origin)
  {
    dbEntry := DBEntry(
      BinaryEntry(
        header := None,
        signature := Format(origin.directoryEntry.reserved),
        comment := origin.comment,
        typeInfo := origin.typeInfo,
        version := origin.version,
        size := Format(origin.directoryEntry.size),
        entryType := Format(origin.directoryEntry.entryType)),
      generateId(origin.raw));
    if origin.header.Some? {
      var header := BuildHeader(origin.header.value);
      dbEntry := dbEntry.(binary := dbEntry.binary.(header := Some(header)));
    }
  }

  /** The entry record inside the tree: the index record, with the signature
      bytes instead of the reserved word when there are any, the header
      rebuilt, and the directory entry's own fields. */
  function TreeEntry(generateId: seq<Byte> -> ContentID, e: Amdfw.Entry): Entry {
    var db := EntryRecord(generateId, e);
    var signature := if |e.signature| != 0 then FormatBytes(e.signature) else db.binary.signature;
    Entry(
      db.(binary := db.binary.(signature := signature, header := HeaderRecord(e.header))),
      DirectoryEntry(
        Format(e.directoryEntry.entryType),
        Format(e.directoryEntry.size),
        Format(e.directoryEntry.location),
        Format(e.directoryEntry.reserved),
        OptionalHex(e.directoryEntry.unknown)))
  }

  /** The tree's entry record: `0x%X` fields that read back; `Unknown` only when
      present; the signature bytes when there are any and the reserved word
      otherwise; and apart from the signature, header included, exactly the
      record `ConvertAMDEntryToMFT` builds. */
  lemma TreeEntryRendered(generateId: seq<Byte> -> ContentID, e: Amdfw.Entry)
    ensures var r := TreeEntry(generateId, e);
      && r.db.id == generateId(e.raw)
      && IsHexOf(r.directoryEntry.entryType, e.directoryEntry.entryType)
      && IsHexOf(r.directoryEntry.size, e.directoryEntry.size)
      && IsHexOf(r.directoryEntry.location, e.directoryEntry.location)
      && IsHexOf(r.directoryEntry.reserved, e.directoryEntry.reserved)
      && IsOptionalHexOf(r.directoryEntry.unknown, e.directoryEntry.unknown)
      && (|e.signature| != 0 ==> IsBytesHexOf(r.db.binary.signature, e.signature))
      && (|e.signature| == 0 ==> IsHexOf(r.db.binary.signature, e.directoryEntry.reserved))
      && r.db.binary.header == EntryRecord(generateId, e).binary.header
      && r.db == EntryRecord(generateId, e).(binary :=
           EntryRecord(generateId, e).binary.(signature := r.db.binary.signature))
  {
    EntryRecordRendered(generateId, e);
    FormatRoundTrip(e.directoryEntry.location);
    if |e.signature| != 0 {
      FormatBytesRoundTrip(e.signature);
    }
  }

  // ---------------------------------------------------------------------------
  // Directories, ROMs, the image

  function DirectoryRecord(c: Collaborators, d: Amdfw.Directory): Directory {
    Directory(
      DirectoryHeader(
        Text(d.header.cookie),
        Format08(d.header.checksum),
        c.validateChecksum(d).valid,
        Format(d.header.totalEntries),
        Format08(d.header.reserved)),
      TreeEntries(c.generateId, d.entries),
      Format08(d.location))
  }

  /** The tree records of a directory's entries, position for position. */
  function TreeEntries(generateId: seq<Byte> -> ContentID, es: seq<Amdfw.Entry>): seq<Entry> {
    seq(|es|, k requires 0 <= k < |es| => TreeEntry(generateId, es[k]))
  }

  /** A directory record: the cookie as text, the 32-bit fields as ten-character
      `0x%08X` strings, the entry count as `0x%X`, all reading back; the
      checksum flag is what `ValidateChecksum` returns, its error dropped; and
      the entries, in order. */
  lemma DirectoryRecordRendered(c: Collaborators, d: Amdfw.Directory)
    ensures var r := DirectoryRecord(c, d);
      && r.header.cookie == Text(d.header.cookie)
      && IsHex08Of(r.header.checksum, d.header.checksum)
      && r.header.checksumValid == c.validateChecksum(d).valid
      && IsHexOf(r.header.totalEntries, d.header.totalEntries)
      && IsHex08Of(r.header.reserved, d.header.reserved)
      && IsHex08Of(r.location, d.location)
      && |r.entries| == |d.entries|
      && forall k :: 0 <= k < |d.entries| ==> r.entries[k] == TreeEntry(c.generateId, d.entries[k])
  {
    Format08RoundTrip(d.header.checksum);
    Format08RoundTrip(d.header.reserved);
    Format08RoundTrip(d.location);
    FormatRoundTrip(d.header.totalEntries);
  }

  function RomRecord(c: Collaborators, rom: Amdfw.Rom): Rom {
    Rom(rom.romType,
        seq(|rom.directories|, j requires 0 <= j < |rom.directories| =>
          DirectoryRecord(c, rom.directories[j])))
  }

  function FETRecord(f: Amdfw.FirmwareEntryTable): FirmwareEntryTable {
    FirmwareEntryTable(
      location := Format08(f.location),
      signature := Format08(f.signature),
      imcRomBase := OptionalHex08(f.imcRomBase),
      gecRomBase := OptionalHex08(f.gecRomBase),
      xhcRomBase := OptionalHex08(f.xhcRomBase),
      pspDirBase := OptionalHex08(f.pspDirBase),
      newPspDirBase := OptionalHex08(f.newPspDirBase),
      bhdDirBase := OptionalHex08(f.bhdDirBase),
      newBhdDirBase := OptionalHex08(f.newBhdDirBase))
  }

  /** Every field of the table record is `0x%08X` of the parsed value and reads
      back; a base pointer that is nil stays the empty string. */
  lemma FETRecordRendered(f: Amdfw.FirmwareEntryTable)
    ensures var r := FETRecord(f);
      && IsHex08Of(r.location, f.location) && IsHex08Of(r.signature, f.signature)
      && IsOptionalHex08Of(r.imcRomBase, f.imcRomBase)
      && IsOptionalHex08Of(r.gecRomBase, f.gecRomBase)
      && IsOptionalHex08Of(r.xhcRomBase, f.xhcRomBase)
      && IsOptionalHex08Of(r.pspDirBase, f.pspDirBase)
      && IsOptionalHex08Of(r.newPspDirBase, f.newPspDirBase)
      && IsOptionalHex08Of(r.bhdDirBase, f.bhdDirBase)
      && IsOptionalHex08Of(r.newBhdDirBase, f.newBhdDirBase)
  {
    Format08RoundTrip(f.location);
    Format08RoundTrip(f.signature);
  }

  /** The image `ConvertAMDFWToMFT` returns. */
  function ImageRecord(c: Collaborators, origin: Option<Amdfw.Image>): Option<Image> {
    match origin
    case None => None
    case Some(o) =>
      Some(Image(
        if o.fet.Some? then Some(FETRecord(o.fet.value)) else None,
        OptionalHex08(o.flashMapping),
        seq(|o.roms|, i requires 0 <= i < |o.roms| => RomRecord(c, o.roms[i]))))
  }

  /** Nil for nil; otherwise the table record exactly when there is a table,
      the flash mapping only when it is set, and the parsed tree's ROMs, each
      with its directories, each with its entries, position for position. */
  lemma ImageShape(c: Collaborators, origin: Option<Amdfw.Image>)
    ensures origin.None? <==> ImageRecord(c, origin).None?
    ensures origin.Some? ==>
      var o, r := origin.value, ImageRecord(c, origin).value;
      && (o.fet.None? <==> r.fet.None?)
      && (o.fet.Some? ==> r.fet.value == FETRecord(o.fet.value))
      && IsOptionalHex08Of(r.flashMapping, o.flashMapping)
      && |r.roms| == |o.roms|
      && (forall i :: 0 <= i < |o.roms| ==>
            r.roms[i].romType == o.roms[i].romType
            && |r.roms[i].directories| == |o.roms[i].directories|)
      && (forall i, j :: 0 <= i < |o.roms| && 0 <= j < |o.roms[i].directories| ==>
            r.roms[i].directories[j] == DirectoryRecord(c, o.roms[i].directories[j])
            && |r.roms[i].directories[j].entries| == |o.roms[i].directories[j].entries|)
  {
  }

  /** Content addressing inside the tree: entries with the same raw bytes carry
      the same identifier wherever they sit, and it is the identifier of the
      index record built for either of them. */
  lemma SameRawSameTreeId(c: Collaborators, o: Amdfw.Image,
                          i1: nat, j1: nat, k1: nat, i2: nat, j2: nat, k2: nat)
    requires i1 < |o.roms| && j1 < |o.roms[i1].directories|
    requires k1 < |o.roms[i1].directories[j1].entries|
    requires i2 < |o.roms| && j2 < |o.roms[i2].directories|
    requires k2 < |o.roms[i2].directories[j2].entries|
    requires o.roms[i1].directories[j1].entries[k1].raw == o.roms[i2].directories[j2].entries[k2].raw
    ensures var r := ImageRecord(c, Some(o)).value;
      && r.roms[i1].directories[j1].entries[k1].db.id == r.roms[i2].directories[j2].entries[k2].db.id
      && r.roms[i1].directories[j1].entries[k1].db.id
         == EntryRecord(c.generateId, o.roms[i2].directories[j2].entries[k2]).id
  {
  }

  // ---------------------------------------------------------------------------
  // The conversion, as the source writes it

  /** The loop body of `ConvertAMDFWToMFT` for one entry. */
  method ConvertTreeEntry(generateId: seq<Byte> -> ContentID, entry: Amdfw.Entry) returns (newEntry: Entry)
    ensures newEntry == TreeEntry(generateId, entry)
  {
    var db := ConvertAMDEntryToMFT(generateId, entry);
    newEntry := Entry(db, DirectoryEntry(
      Format(entry.directoryEntry.entryType),
      Format(entry.directoryEntry.size),
      Format(entry.directoryEntry.location),
      Format(entry.directoryEntry.reserved),
      ""));
    if entry.directoryEntry.unknown.Some? {
      newEntry := newEntry.(directoryEntry :=
        newEntry.directoryEntry.(unknown := Format(entry.directoryEntry.unknown.value)));
    }
    if |entry.signature| != 0 {
      newEntry := newEntry.(db := newEntry.db.(binary :=
        newEntry.db.binary.(signature := FormatBytes(entry.signature))));
    }
    if entry.header.Some? {
      var h := BuildHeader(entry.header.value);
      newEntry := newEntry.(db := newEntry.db.(binary := newEntry.db.binary.(header := Some(h))));
    }
  }

  /** The loop body of `ConvertAMDFWToMFT` for one directory. */
  method ConvertDirectory(c: Collaborators, directory: Amdfw.Directory) returns (newDirectory: Directory)
    ensures newDirectory == DirectoryRecord(c, directory)
  {
    var header := DirectoryHeader(
      Text(directory.header.cookie),
      Format08(directory.header.checksum),
      false,
      Format(directory.header.totalEntries),
      Format08(directory.header.reserved));
    var location := Format08(directory.location);
    header := header.(checksumValid := c.validateChecksum(directory).valid);

    var entries := ConvertEntries(c.generateId, directory.entries);
    newDirectory := Directory(header, entries, location);
  }

  /** The entry loop of `ConvertAMDFWToMFT` over one directory. */
  method ConvertEntries(generateId: seq<Byte> -> ContentID, es: seq<Amdfw.Entry>) returns (entries: seq<Entry>)
    ensures entries == TreeEntries(generateId, es)
  {
    entries := [];
    for k := 0 to |es|
      invariant |entries| == k
      invariant forall k' :: 0 <= k' < k ==> entries[k'] == TreeEntry(generateId, es[k'])
    {
      var newEntry := ConvertTreeEntry(generateId, es[k]);
      entries := entries + [newEntry];
    }
  }

  /** The table part of `ConvertAMDFWToMFT`: the two fixed fields, then each
      base pointer only when it is set. */
  method ConvertFET(f: Amdfw.FirmwareEntryTable) returns (t: FirmwareEntryTable)
    ensures t == FETRecord(f)
  {
    t := FirmwareEntryTable(Format08(f.location), Format08(f.signature), "", "", "", "", "", "", "");
    if f.imcRomBase.Some? { t := t.(imcRomBase := Format08(f.imcRomBase.value)); }
    if f.gecRomBase.Some? { t := t.(gecRomBase := Format08(f.gecRomBase.value)); }
    if f.xhcRomBase.Some? { t := t.(xhcRomBase := Format08(f.xhcRomBase.value)); }
    if f.pspDirBase.Some? { t := t.(pspDirBase := Format08(f.pspDirBase.value)); }
    if f.newPspDirBase.Some? { t := t.(newPspDirBase := Format08(f.newPspDirBase.value)); }
    if f.bhdDirBase.Some? { t := t.(bhdDirBase := Format08(f.bhdDirBase.value)); }
    if f.newBhdDirBase.Some? { t := t.(newBhdDirBase := Format08(f.newBhdDirBase.value)); }
  }

  /** The loop body of `ConvertAMDFWToMFT` for one ROM: its directories, in order. */
  method ConvertRom(c: Collaborators, rom: Amdfw.Rom) returns (newRom: Rom)
    ensures newRom == RomRecord(c, rom)
  {
    var directories: seq<Directory> := [];
    for j := 0 to |rom.directories|
      invariant |directories| == j
      invariant forall j' :: 0 <= j' < j ==> directories[j'] == DirectoryRecord(c, rom.directories[j'])
    {
      var directory := ConvertDirectory(c, rom.directories[j]);
      directories := directories + [directory];
    }
    assert directories == RomRecord(c, rom).directories;
    newRom := Rom(rom.romType, directories);
  }

  /** `ConvertAMDFWToMFT`. */
  method ConvertAMDFWToMFT(c: Collaborators, origin: Option<Amdfw.Image>) returns (image: Option<Image>)
    ensures image == ImageRecord(c, origin)
  {
    if origin.None? {
      return None;
    }
    var src := origin.value;

    var flashMapping := "";
    if src.flashMapping.Some? {
      flashMapping := Format08(src.flashMapping.value);
    }

    var fet: Option<FirmwareEntryTable> := None;
    if src.fet.Some? {
      var t := ConvertFET(src.fet.value);
      fet := Some(t);
    }

    var roms: seq<Rom> := [];
    for i := 0 to |src.roms|
      invariant |roms| == i
      invariant forall i' :: 0 <= i' < i ==> roms[i'] == RomRecord(c, src.roms[i'])
    {
      var rom := ConvertRom(c, src.roms[i]);
      roms := roms + [rom];
    }
    assert roms == ImageRecord(c, origin).value.roms;
    image := Some(Image(fet, flashMapping, roms));
  }
}
