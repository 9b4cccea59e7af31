# MFT-Analyser-AMD, modelled in Dafny

MFT-Analyser-AMD is the AMD worker of the Mimoja firmware toolkit. It takes a
flash image from the blob store and runs two analyses on its bytes:

- a YARA scan for AGESA version strings;
- the amdfw parser: firmware entry table, flash mapping, then ROMs, their PSP/BIOS
  directories and their entries.

It then normalises the parsed tree into storage records, in which every number
becomes a `0x`-prefixed hexadecimal string. Every firmware entry is stored
content-addressed: the raw bytes go to the blob store (deduplicated through the
`amdentries` index) and the entry record goes to that index. Finally the worker
writes the `AMD` field of the image's document in the `flashimages` index.

The model has seven modules:

- `Wrappers`: `Option`, `Result`, and the errors the core passes on.
- `Hex`: Go's `%X`, `%08X` and byte-slice `%X` renderings, written out digit by
  digit, with a reference reader. It proves that each rendering reads back as its
  value and has the shape the verbs promise.
- `Yara`, `Amdfw`, `External`: what the core receives from libraries it does not
  own.
  - The scanner's matches and amdfw's parsed tree are plain data.
  - The scanner, the parser stages, `ValidateChecksum` and
    `MFTCommon.GenerateID` are function-valued fields of `Collaborators`.
- `Records`: the storage records of Wrapper.go.
- `Normaliser`: `ConvertAMDEntryToMFT` and `ConvertAMDFWToMFT`.
  - Each record is a function (`EntryRecord`, `TreeEntry`, `DirectoryRecord`,
    `FETRecord`, `ImageRecord`), and lemmas say what its fields mean.
  - The methods build the records with the source's loops and are proved to
    build exactly those records.
- `Analysis`: `AnalyseAGESA` (the nested loop over matches and matched strings)
  and `AnalyseAMDFW` (the four parser stages and their error paths).
- `Parsing`: `analyse`, in two forms.
  - As a function: `Outcome`, built on `Fetch`, `Walk` (the three nested storage
    loops, flattened into one entry sequence by `Flatten`) and `UpdateAMD`.
  - Imperatively: the class `Backend`, whose fields are the blob store and the two
    indices and whose methods are the storage calls. Its loops are proved against
    `Walk` and `Outcome`.
  - Each backend failure is an input (`Faults`): one value per call for the
    fetch, the read and the update, and a function from walk position to
    failure for the three per-entry calls.

## Model

| member | source | states |
|---|---|---|
| Hex.FormatRoundTrip | Wrapper.go:196-201 | `0x%X` of a number is `0x` followed by canonical uppercase digits (no leading zero), and it reads back as that number |
| Hex.FormatOfParse | Wrapper.go:196-201 | every `0x`-prefixed canonical digit string is the `0x%X` rendering of the value it denotes, so `0x%X` is a bijection onto canonical renderings |
| Hex.Format08RoundTrip | Wrapper.go:227 | `0x%08X` of a `uint32` is exactly ten characters, `0x` and eight uppercase digits, and reads back as the value |
| Hex.DigitsLength | Wrapper.go:227 | `%X` prints at most `w` digits exactly when the value is below 16^w, which is why `%08X` never overflows eight digits for a `uint32` |
| Hex.FormatBytesRoundTrip | Wrapper.go:291 | `0x%X` of a byte slice is `0x` and two uppercase digits per byte, and reads back as the same bytes |
| External.Text | Wrapper.go:267 | `string(b)` has one character per byte, each with that byte's code |
| Normaliser.OptionalHex08 | Wrapper.go:236-257 | a nil pointer field stays the empty string; a set one is its `0x%08X` rendering, reading back as the value |
| Normaliser.OptionalHex | Wrapper.go:287-289 | a nil `Unknown` stays the empty string; a set one is its `0x%X` rendering, reading back as the value |
| Normaliser.RenderHeaderValue | Wrapper.go:212 | a header field's value renders as `0x` and hex digits: a number as its canonical digits, a byte array as two digits per byte, each reading back |
| Normaliser.HeaderMapKeys | Wrapper.go:207-213 | the header map has exactly one key per declared field name, and every value starts with `0x` |
| Normaliser.HeaderMapValues | Wrapper.go:209-213 | when field names are distinct, each declared field's key holds the rendering of that field's own value |
| Normaliser.HeaderRecord | Wrapper.go:205-215 | the record's header is absent exactly when the parsed header is nil; otherwise its keys are the field names and its values `0x` renderings |
| Normaliser.BuildHeader | Wrapper.go:207-213 | the reflective field loop builds exactly the header map of the field list, one assignment per field in declaration order |
| Normaliser.EntryRecordRendered | Wrapper.go:191-217 | the index record's id is the content id of the raw bytes; Signature, Type and Size are `0x%X` renderings of Reserved, Type and Size that read back; header as above; Comment, TypeInfo and Version copied |
| Normaliser.SameRawSameEntryId | Wrapper.go:194 | two entries with the same raw bytes get the same index id, whatever else differs |
| Normaliser.ConvertAMDEntryToMFT | Wrapper.go:191-217 | the method, with its header loop, returns exactly the index record `EntryRecord` |
| Normaliser.TreeEntryRendered | Wrapper.go:277-302 | a tree entry's directory-entry fields are `0x%X` renderings that read back; Unknown is set only when present; Signature is the signature bytes when there are any and the reserved word otherwise; the rest is the index record |
| Normaliser.DirectoryRecordRendered | Wrapper.go:265-277 | the directory record holds the cookie as text, checksum, reserved and location as ten-character `0x%08X` strings, the entry count as `0x%X` (all reading back), the flag `ValidateChecksum` returns with its error dropped, and the entries in order |
| Normaliser.FETRecordRendered | Wrapper.go:230-258 | every table field is the `0x%08X` rendering of the parsed value and reads back; a nil base pointer stays empty |
| Normaliser.ImageShape | Wrapper.go:219-310 | nil gives nil; otherwise the table record exists exactly when there is a table, the flash mapping is set only when present, and ROMs, directories and entries correspond position for position |
| Normaliser.SameRawSameTreeId | Wrapper.go:285 | entries with equal raw bytes carry the same id anywhere in the tree, and it equals the id of the index record `analyse` stores for them |
| Normaliser.ConvertTreeEntry | Wrapper.go:278-301 | one pass of the entry loop builds exactly `TreeEntry` |
| Normaliser.ConvertEntries | Wrapper.go:277-304 | the entry loop yields the tree records of a directory's entries, position for position |
| Normaliser.ConvertDirectory | Wrapper.go:265-305 | one pass of the directory loop builds exactly `DirectoryRecord` |
| Normaliser.ConvertRom | Wrapper.go:261-307 | one pass of the ROM loop builds the ROM's directory records in order, keeping its type |
| Normaliser.ConvertFET | Wrapper.go:230-258 | the table conversion sets the two fixed fields, then each base pointer only when it is set: exactly `FETRecord` |
| Normaliser.ConvertAMDFWToMFT | Wrapper.go:219-310 | the nested appending loops return exactly `ImageRecord`, whose shape `ImageShape` states |
| Analysis.AgesaRecordsLength | Wrapper.go:129-146 | one record per string matched by the `AGESA` rule, none for other rules |
| Analysis.AgesaRecordAt | Wrapper.go:133-139 | string `j` of `AGESA` match `i` gives the record right after those of earlier matches; its header is the matched text, its excerpt the 100 bytes at the offset, its offset cut to 32 bits |
| Analysis.AgesaRecordsSound | Wrapper.go:130-146 | every record comes from a string of some `AGESA` match |
| Analysis.OtherRulesAddNothing | Wrapper.go:141-142 | a match of any other rule, `Certificates` included, adds no record wherever it sits |
| Analysis.AnalyseAGESA | Wrapper.go:120-150 | a scan error gives nil and that error; otherwise the records of the `AGESA` matches, in order, and no error |
| Analysis.AnalyseAMDFW | Wrapper.go:152-189 | no table, or a table that does not parse: nil and the error; no flash mapping: the table alone and the error; otherwise table, mapping and ROMs, with an error exactly when `ParseRoms` reported any |
| Parsing.RomsAround | Parsing.go:50-52 | the outer loop visits ROM `i`'s entries after those of every earlier ROM and before those of every later one |
| Parsing.DirectoriesAround | Parsing.go:51-52 | within a ROM, directory `k`'s entries come after those of earlier directories and before those of later ones |
| Parsing.FlattenMembers | Parsing.go:50-52 | the walk visits an entry exactly when it lies in some directory of some ROM |
| Parsing.EntryStepBlob | Parsing.go:57-60 | the raw bytes are written under the entry's id when the index check errs or misses and the store succeeds; a hit, or a failed store, leaves the blob store unchanged |
| Parsing.EntryStepIndex | Parsing.go:61 | whatever the check said, the record is upserted under its id with type `amdentry` unless the upsert fails, and no other id of the index changes |
| Parsing.WalkKeepsImages | Parsing.go:50-65 | the storage loops never touch the `flashimages` index |
| Parsing.WalkIndex | Parsing.go:61 | after the walk, the index keys are the old keys plus the ids whose upsert succeeded, and every other record is unchanged |
| Parsing.WalkBlobsGrow | Parsing.go:57-60 | the walk never removes a blob |
| Parsing.WalkBlobOrigins | Parsing.go:59 | every blob the walk adds or replaces holds the raw bytes of a visited entry, stored under that entry's id |
| Parsing.WalkNoNewBlobs | Parsing.go:57-60 | deduplication: when the index answers every check and holds every id, no blob is written |
| Parsing.WalkComplete | Parsing.go:53-61 | starting from a store where every indexed id has its blob, a walk without store failures leaves every visited entry in both the blob store and the index, and every indexed id stays backed by a blob |
| Parsing.IndexerIdentifiedByRaw | Parsing.go:53-54 | the id the walk uses is the content id of the entry's raw bytes |
| Parsing.WalkContentAddressed | Parsing.go:53-59 | if every blob sits under the content id of its own bytes before the walk, that still holds after it |
| Parsing.WalkEntries | Parsing.go:61 | without upsert failures, the index after the walk is the old index overridden by the walk's records, the last write to an id winning |
| Parsing.WalkIdempotent | Parsing.go:50-65 | a second walk of the same tree, with upserts succeeding and every check answered, writes no blob and leaves the index as the first walk did |
| Parsing.AMDRecordFields | Parsing.go:36-46 | AGESA signatures replace the record the image carried; without any the image keeps its own (or an empty one); the firmware is always the converted tree |
| Parsing.FetchFailureWritesNothing | Parsing.go:13-24 | if the image cannot be fetched or read, nothing is written, and the error returned is `GetFile`'s own, the missing-object error, or the read's own |
| Parsing.ReturnedError | Parsing.go:26-79 | once the image is read, the analyses' errors are never returned. Without a firmware tree nothing is returned. With one, the result is the update's own error, the missing-document error, or nil |
| Parsing.NoFirmwareWritesNothing | Parsing.go:26-41 | with no firmware tree (no table, or a table that does not parse), nothing is written and no error is returned, whatever the AGESA scan found |
| Parsing.OutcomeError | Parsing.go:12-80 | `analyse` fails exactly when the image cannot be fetched or read, or when a tree was found and the document update failed; errors of the analyses are only logged |
| Parsing.OnlyAMDFieldChanges | Parsing.go:67-72 | only the `AMD` field of the image's own document may change, every other document and field stays, and a successful run leaves the new record there |
| Parsing.WalkKeepsBlob | Parsing.go:57-60 | a blob keeps its bytes through a walk if every entry filed under its id carries those same bytes |
| Parsing.AnalyseIdempotent | Parsing.go:12-80 | analysing the same image a second time leaves the stores as the first pass left them. This assumes the first pass read the image, its upserts and update succeeded, the second pass's index checks and upserts succeed, and no entry of the tree is filed under the image's own id with other bytes |
| Parsing.EveryEntryIndexed | Parsing.go:50-61 | when every upsert succeeds, every entry of every directory of every ROM of the parsed tree is in the `amdentries` index under its content id, and no id the index held is lost |
| Parsing.Backend.GetFile | Parsing.go:13-17 | the blob under the id, the store's error, or the missing-object error |
| Parsing.Backend.Exists | Parsing.go:57 | found exactly when the check succeeds and the index holds the id; the error is the check's own |
| Parsing.Backend.StoreBytes | Parsing.go:59 | a successful store puts the bytes under the id and touches nothing else |
| Parsing.Backend.StoreElement | Parsing.go:61 | a successful upsert puts the typed record under the id and touches nothing else |
| Parsing.Backend.Update | Parsing.go:67-72 | the partial update sets the `AMD` field of the document, or fails without writing when the index errs or lacks the document |
| Parsing.Backend.StoreEntry | Parsing.go:53-61 | one pass of the inner loop leaves exactly the stores `EntryStep` describes |
| Parsing.Backend.StoreTree | Parsing.go:50-65 | the three nested loops leave exactly the stores of `Walk` over the flattened tree |
| Parsing.Backend.Analyse | Parsing.go:12-80 | `analyse` leaves the stores, and returns the error, that `Outcome` gives, so every lemma about `Outcome` holds of it |

## Left out

- main.go (the worker's start-up, configuration and queue subscription) is not part of this model.
- `SetupYaraForAMD` (Wrapper.go:100-118) compiles the rule file at start-up. The compiled rules are represented only by `Collaborators.scan`.
- amdfw's parsers, its checksum and the YARA engine are inputs, not modelled.
- `MFTCommon.GenerateID` is an uninterpreted function of the raw bytes, so only its determinism is used.
- Reflection over header structs is replaced by an explicit list of declared fields, each an unsigned integer or a byte array; other field kinds are not modelled.
- AMDAGESA.raw: the source stores the `%q`-quoted text of the 100-byte excerpt plus a newline, but the model keeps the excerpt bytes themselves, because Go's string quoting is not modelled.
- Analysis.AnalyseAGESA: the model requires every `AGESA` match to leave room for its 100-byte excerpt inside the image (`ScanInBounds`). For `analyse`, `Analysable` asks this only when the image was fetched and read. Go checks the slice at Wrapper.go:136 against the capacity of `firmwareBytes`, not its length, and `ioutil.ReadAll` usually leaves spare capacity. So a match nearer the end usually yields an excerpt that runs past the image into unused buffer bytes, and the source panics only when the excerpt passes the capacity. Matches of either kind are not modelled.
- External.Text: Go's `string(b)` keeps the bytes as they are, and UTF-8 is decoded only when the string is read. The model makes one character per byte code instead, so a cookie or matched AGESA text with non-ASCII bytes is stored differently than in the source.
- Logging, the reader's `Close` and the message text of the `ParseRoms` error (`RomParseErrors` keeps the error list) are not modelled.
- The storage transport, retries and concurrency of the backends are not modelled. Each call either succeeds or fails according to `Faults`.
- The error texts of a missing blob (`MissingObject`) and a missing document (`MissingDocument`) are placeholders for the backends' own messages.
- Parsing.Backend.Update: Elasticsearch merges a partial document into nested objects; the model replaces the whole `AMD` value.
- `MFTCommon.IDEntry` is modelled by its string form (`ContentID`), the only part the core reads.
- A nil slice and an empty slice are the same empty sequence.
- Parsing.Backend.GetFile: the blob is returned as bytes directly, because the reader and `ioutil.ReadAll` are folded into it; a read failure is the `read` fault.
- Both records are kept as written. The index record always takes its `Signature` from the reserved word (Wrapper.go:196). The tree entry takes it from the signature bytes when there are any (Wrapper.go:290-292).
- Parsing.WalkComplete: the blob check at Parsing.go:57-58 asks the `amdentries` index, not the blob store. So a blob lost to an earlier failed `StoreBytes` is not stored again on redelivery once its id is indexed, and the lemma starts from a store where every indexed id has its blob (`Backed`).
