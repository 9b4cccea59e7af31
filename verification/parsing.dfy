/** `analyse` from Parsing.go: fetch a flash image, analyse it, store every
    firmware entry of its tree in the blob store and the `amdentries` index
    (deduplicated through the index), then write the `AMD` field of the
    image's document in the `flashimages` index.

    The storage backends are the three maps of `Store`; every failure they
    can report is an input (`Faults`), indexed for the entry loop by the
    position of the entry in the walk. */
module Parsing {
  import opened Wrappers
  import opened Hex
  import opened External
  import opened Records
  import Amdfw
  import Normaliser
  import Analysis

  /** The document type every entry of the `amdentries` index is stored with. */
  const EntryDocType := "amdentry"

  /** The field of a flash image document that `analyse` writes. */
  const AMDKey := "AMD"

  /** What the blob store reports for an identifier it does not hold. */
  const MissingObject := "object not found"

  /** What the document index reports when asked to update a document it does not hold. */
  const MissingDocument := "document missing"

  /** A field value of a flash image document: the `AMD` record, or anything
      else other parts of the toolkit put there. */
  datatype DocValue = AMD(amd: AMDFirmware) | Other(json: string)

  type Document = map<string, DocValue>

  /** A document of the `amdentries` index: its type and its record. */
  datatype IndexedEntry = IndexedEntry(docType: string, record: DBEntry)

  /** The part of `MFTCommon.FlashImage` that `analyse` reads: its identifier
      and the `AMD` record it may already carry. */
  datatype FlashImage = FlashImage(id: ContentID, amd: Option<AMDFirmware>)

  /** The three stores `analyse` touches. */
  datatype Store = Store(
    /** the blob store (`Bundle.Storage`), by content identifier */
    blobs: map<ContentID, seq<Byte>>,
    /** the `amdentries` index, by entry identifier */
    entries: map<ContentID, IndexedEntry>,
    /** the `flashimages` index, by image identifier */
    flashImages: map<ContentID, Document>)

  /** The failures the backends report. `None` means the call succeeds; the
      per-entry calls are indexed by the entry's position in the walk. */
  datatype Faults = Faults(
    getFile: Option<Error>,
    read: Option<Error>,
    lookup: nat -> Option<Error>,
    storeBytes: nat -> Option<Error>,
    storeElement: nat -> Option<Error>,
    update: Option<Error>)

  // ---------------------------------------------------------------------------
  // The walk over the firmware tree

  /** The entries of some directories, directory by directory. */
  function FlattenDirectories(ds: seq<Amdfw.Directory>): seq<Amdfw.Entry> {
    if ds == [] then [] else FlattenDirectories(ds[..|ds| - 1]) + ds[|ds| - 1].entries
  }

  /** The entries of a tree in the order of the three nested loops: ROM by
      ROM, directory by directory, entry by entry. */
  function Flatten(roms: seq<Amdfw.Rom>): seq<Amdfw.Entry> {
    if roms == [] then [] else Flatten(roms[..|roms| - 1]) + FlattenDirectories(roms[|roms| - 1].directories)
  }

  /** The index record `ConvertAMDEntryToMFT` builds, as the walk sees it. */
  function Indexer(gen: seq<Byte> -> ContentID): Amdfw.Entry -> DBEntry {
    e => Normaliser.EntryRecord(gen, e)
  }

  /** One pass of the inner loop, for the entry at position `p`: the raw bytes
      are stored unless the index answered that it holds the id, then the
      index record is upserted; failures of either store are ignored. */
  function EntryStep(s: Store, e: Amdfw.Entry, p: nat, index: Amdfw.Entry -> DBEntry, f: Faults): Store {
    var rec := index(e);
    var unknown := f.lookup(p).Some? || rec.id !in s.entries;
    s.(blobs := if unknown && f.storeBytes(p).None? then s.blobs[rec.id := e.raw] else s.blobs,
       entries := if f.storeElement(p).None? then s.entries[rec.id := IndexedEntry(EntryDocType, rec)] else s.entries)
  }

  /** The stores after the entry loop has visited `es` in order. */
  function Walk(s: Store, es: seq<Amdfw.Entry>, index: Amdfw.Entry -> DBEntry, f: Faults): Store {
    if es == [] then s else EntryStep(Walk(s, es[..|es| - 1], index, f), es[|es| - 1], |es| - 1, index, f)
  }

  /** The ids whose upsert succeeds during a walk over `es`. */
  function UpsertedIds(es: seq<Amdfw.Entry>, index: Amdfw.Entry -> DBEntry, f: Faults): set<ContentID> {
    set p | 0 <= p < |es| && f.storeElement(p).None? :: index(es[p]).id
  }

  /** The index records a fault-free walk over `es` leaves, last write winning. */
  function Upserts(es: seq<Amdfw.Entry>, index: Amdfw.Entry -> DBEntry): map<ContentID, IndexedEntry> {
    if es == [] then map[]
    else
      var e := es[|es| - 1];
      Upserts(es[..|es| - 1], index)[index(e).id := IndexedEntry(EntryDocType, index(e))]
  }

  predicate NoExistsFaults(f: Faults, n: nat) {
    forall p :: 0 <= p < n ==> f.lookup(p).None?
  }

  predicate NoElementFaults(f: Faults, n: nat) {
    forall p :: 0 <= p < n ==> f.storeElement(p).None?
  }

  predicate NoBytesFaults(f: Faults, n: nat) {
    forall p :: 0 <= p < n ==> f.storeBytes(p).None?
  }

  /** Every entry the index holds has its raw bytes in the blob store. */
  predicate Backed(s: Store) {
    forall id :: id in s.entries ==> id in s.blobs
  }

  /** Every blob sits under the identifier of its own bytes. */
  predicate ContentAddressed(s: Store, gen: seq<Byte> -> ContentID) {
    forall id :: id in s.blobs ==> gen(s.blobs[id]) == id
  }

  /** The index records are identified by the content identifier of the
      entry's raw bytes. */
  ghost predicate IdentifiedByRaw(index: Amdfw.Entry -> DBEntry, gen: seq<Byte> -> ContentID) {
    forall e :: index(e).id == gen(e.raw)
  }

  // ---------------------------------------------------------------------------
  // Properties of the walk

  lemma {:induction false} FlattenDirectoriesAppend(a: seq<Amdfw.Directory>, b: seq<Amdfw.Directory>)
    ensures FlattenDirectories(a + b) == FlattenDirectories(a) + FlattenDirectories(b)
    decreases |b|
  {
    if b == [] {
      assert a + b == a;
    } else {
      var n := |b| - 1;
      var ab := a + b;
      assert ab[..|ab| - 1] == a + b[..n];
      assert ab[|ab| - 1] == b[n];
      FlattenDirectoriesAppend(a, b[..n]);
      var x, y, z := FlattenDirectories(a), FlattenDirectories(b[..n]), b[n].entries;
      assert FlattenDirectories(ab) == (x + y) + z;
      assert FlattenDirectories(b) == y + z;
      assert x + (y + z) == (x + y) + z;
    }
  }

  lemma {:induction false} FlattenAppend(a: seq<Amdfw.Rom>, b: seq<Amdfw.Rom>)
    ensures Flatten(a + b) == Flatten(a) + Flatten(b)
    decreases |b|
  {
    if b == [] {
      assert a + b == a;
    } else {
      var n := |b| - 1;
      var ab := a + b;
      assert ab[..|ab| - 1] == a + b[..n];
      assert ab[|ab| - 1] == b[n];
      FlattenAppend(a, b[..n]);
      var x, y, z := Flatten(a), Flatten(b[..n]), FlattenDirectories(b[n].directories);
      assert Flatten(ab) == (x + y) + z;
      assert Flatten(b) == y + z;
      assert x + (y + z) == (x + y) + z;
    }
  }

  /** Nested order, outer level: the entries of ROM `i` come, in their own
      order, after every entry of the ROMs before it and before every entry of
      the ROMs after it. */
  lemma RomsAround(roms: seq<Amdfw.Rom>, i: nat)
    requires i < |roms|
    ensures Flatten(roms) == Flatten(roms[..i]) + FlattenDirectories(roms[i].directories) + Flatten(roms[i + 1..])
  {
    var pre, post := roms[..i + 1], roms[i + 1..];
    SplitAt(roms, i + 1);
    FlattenAppend(pre, post);
    RomsPrefixStep(roms, i);
  }

  /** Nested order, middle level: within a ROM, the entries of directory `k`
      come, in their own order, after those of the directories before it and
      before those of the directories after it. */
  lemma DirectoriesAround(ds: seq<Amdfw.Directory>, k: nat)
    requires k < |ds|
    ensures FlattenDirectories(ds) == FlattenDirectories(ds[..k]) + ds[k].entries + FlattenDirectories(ds[k + 1..])
  {
    var pre, post := ds[..k + 1], ds[k + 1..];
    SplitAt(ds, k + 1);
    FlattenDirectoriesAppend(pre, post);
    DirectoriesPrefixStep([], ds, k);
    assert [] + FlattenDirectories(pre) == FlattenDirectories(pre);
    assert [] + FlattenDirectories(ds[..k]) == FlattenDirectories(ds[..k]);
  }

  lemma SplitAt<T>(s: seq<T>, n: nat)
    requires n <= |s|
    ensures s == s[..n] + s[n..]
  {
  }

  /** The outer loop visits one ROM more. */
  lemma RomsPrefixStep(roms: seq<Amdfw.Rom>, i: nat)
    requires i < |roms|
    ensures Flatten(roms[..i + 1]) == Flatten(roms[..i]) + FlattenDirectories(roms[i].directories)
  {
    assert roms[..i + 1][..i] == roms[..i];
  }

  /** The middle loop visits one directory more. */
  lemma DirectoriesPrefixStep(done: seq<Amdfw.Entry>, ds: seq<Amdfw.Directory>, k: nat)
    requires k < |ds|
    ensures done + FlattenDirectories(ds[..k + 1]) == done + FlattenDirectories(ds[..k]) + ds[k].entries
  {
    assert ds[..k + 1][..k] == ds[..k];
    var before := FlattenDirectories(ds[..k]);
    assert FlattenDirectories(ds[..k + 1]) == before + ds[k].entries;
    assert done + (before + ds[k].entries) == done + before + ds[k].entries;
  }

  /** Every entry of the tree is visited, and nothing else. */
  lemma {:induction false} FlattenMembers(roms: seq<Amdfw.Rom>, e: Amdfw.Entry)
    ensures e in Flatten(roms) <==>
      exists i, k :: 0 <= i < |roms| && 0 <= k < |roms[i].directories| && e in roms[i].directories[k].entries
    decreases |roms|
  {
    if roms != [] {
      var n := |roms| - 1;
      var init := roms[..n];
      FlattenMembers(init, e);
      DirectoryMembers(roms[n].directories, e);
      assert Flatten(roms) == Flatten(init) + FlattenDirectories(roms[n].directories);
      if e in Flatten(init) {
        var i, k :| 0 <= i < n && 0 <= k < |init[i].directories| && e in init[i].directories[k].entries;
        assert roms[i] == init[i];
      } else if e in FlattenDirectories(roms[n].directories) {
        var k :| 0 <= k < |roms[n].directories| && e in roms[n].directories[k].entries;
      } else {
        forall i, k | 0 <= i < |roms| && 0 <= k < |roms[i].directories|
          ensures e !in roms[i].directories[k].entries
        {
          if i < n {
            assert roms[i] == init[i];
          }
        }
      }
    }
  }

  lemma {:induction false} DirectoryMembers(ds: seq<Amdfw.Directory>, e: Amdfw.Entry)
    ensures e in FlattenDirectories(ds) <==> exists k :: 0 <= k < |ds| && e in ds[k].entries
    decreases |ds|
  {
    if ds != [] {
      var n := |ds| - 1;
      DirectoryMembers(ds[..n], e);
      if e in FlattenDirectories(ds[..n]) {
        var k :| 0 <= k < n && e in ds[..n][k].entries;
        assert ds[k] == ds[..n][k];
      }
      forall k | 0 <= k < n && e in ds[k].entries
        ensures e in FlattenDirectories(ds[..n])
      {
        assert ds[..n][k] == ds[k];
      }
    }
  }

  /** One entry, the blob side: the raw bytes are written under the entry's
      id when the index check errors or misses and the store succeeds; when
      the check finds the id, the blob store is left as it was. */
  lemma EntryStepBlob(s: Store, e: Amdfw.Entry, p: nat, index: Amdfw.Entry -> DBEntry, f: Faults)
    ensures var t := EntryStep(s, e, p, index, f);
      && ((f.lookup(p).Some? || index(e).id !in s.entries) && f.storeBytes(p).None? ==>
            t.blobs == s.blobs[index(e).id := e.raw])
      && (f.lookup(p).None? && index(e).id in s.entries ==> t.blobs == s.blobs)
      && (f.storeBytes(p).Some? ==> t.blobs == s.blobs)
  {
  }

  /** One entry, the index side: whatever the check said, the record is
      upserted under its id with type `amdentry` unless the upsert fails, and
      no other id of the index changes. */
  lemma EntryStepIndex(s: Store, e: Amdfw.Entry, p: nat, index: Amdfw.Entry -> DBEntry, f: Faults)
    ensures var t := EntryStep(s, e, p, index, f);
      && (f.storeElement(p).None? ==>
            index(e).id in t.entries && t.entries[index(e).id] == IndexedEntry(EntryDocType, index(e)))
      && (forall id :: id in s.entries && id != index(e).id ==> id in t.entries && t.entries[id] == s.entries[id])
      && t.entries.Keys <= s.entries.Keys + {index(e).id}
      && t.flashImages == s.flashImages
  {
  }

  /** The loop visits one entry more. */
  lemma WalkSnoc(s: Store, es: seq<Amdfw.Entry>, e: Amdfw.Entry, index: Amdfw.Entry -> DBEntry, f: Faults)
    ensures Walk(s, es + [e], index, f) == EntryStep(Walk(s, es, index, f), e, |es|, index, f)
  {
    assert (es + [e])[..|es|] == es;
  }

  /** The inner loop visits one entry more. */
  lemma PrefixSnoc<T>(done: seq<T>, es: seq<T>, j: nat)
    requires j < |es|
    ensures done + es[..j + 1] == (done + es[..j]) + [es[j]]
  {
    assert es[..j + 1] == es[..j] + [es[j]];
  }

  /** The walk never writes the `flashimages` index. */
  lemma {:induction false} WalkKeepsImages(s: Store, es: seq<Amdfw.Entry>, index: Amdfw.Entry -> DBEntry, f: Faults)
    ensures Walk(s, es, index, f).flashImages == s.flashImages
    decreases |es|
  {
    if es != [] {
      WalkKeepsImages(s, es[..|es| - 1], index, f);
    }
  }

  lemma UpsertedIdsSnoc(es: seq<Amdfw.Entry>, index: Amdfw.Entry -> DBEntry, f: Faults)
    requires es != []
    ensures var n := |es| - 1;
      UpsertedIds(es, index, f)
      == UpsertedIds(es[..n], index, f) + (if f.storeElement(n).None? then {index(es[n]).id} else {})
  {
    var n := |es| - 1;
    var init := es[..n];
    forall id | id in UpsertedIds(es, index, f)
      ensures id in UpsertedIds(init, index, f) || (f.storeElement(n).None? && id == index(es[n]).id)
    {
      var p :| 0 <= p < |es| && f.storeElement(p).None? && index(es[p]).id == id;
      if p < n {
        assert init[p] == es[p];
      }
    }
    forall id | id in UpsertedIds(init, index, f)
      ensures id in UpsertedIds(es, index, f)
    {
      var p :| 0 <= p < |init| && f.storeElement(p).None? && index(init[p]).id == id;
      assert init[p] == es[p];
    }
  }

  /** The index gains exactly the ids whose upsert succeeded and keeps every
      other record it held. */
  lemma {:induction false} WalkIndex(s: Store, es: seq<Amdfw.Entry>, index: Amdfw.Entry -> DBEntry, f: Faults)
    ensures Walk(s, es, index, f).entries.Keys == s.entries.Keys + UpsertedIds(es, index, f)
    ensures forall id :: id in s.entries && id !in UpsertedIds(es, index, f) ==> Walk(s, es, index, f).entries[id] == s.entries[id]
    decreases |es|
  {
    if es != [] {
      WalkIndex(s, es[..|es| - 1], index, f);
      UpsertedIdsSnoc(es, index, f);
    }
  }

  /** The blob store only grows. */
  lemma {:induction false} WalkBlobsGrow(s: Store, es: seq<Amdfw.Entry>, index: Amdfw.Entry -> DBEntry, f: Faults)
    ensures s.blobs.Keys <= Walk(s, es, index, f).blobs.Keys
    decreases |es|
  {
    if es != [] {
      WalkBlobsGrow(s, es[..|es| - 1], index, f);
    }
  }

  /** A blob the walk added or replaced is the raw bytes of an entry it
      visited, stored under that entry's id. */
  lemma {:induction false} WalkBlobOrigins(s: Store, es: seq<Amdfw.Entry>, index: Amdfw.Entry -> DBEntry, f: Faults)
    ensures var w := Walk(s, es, index, f);
      forall id :: id in w.blobs && (id !in s.blobs || w.blobs[id] != s.blobs[id]) ==>
        exists p :: 0 <= p < |es| && index(es[p]).id == id && es[p].raw == w.blobs[id]
    decreases |es|
  {
    if es != [] {
      var n := |es| - 1;
      var init := es[..n];
      WalkBlobOrigins(s, init, index, f);
      var w, w' := Walk(s, init, index, f), Walk(s, es, index, f);
      forall id | id in w'.blobs && (id !in s.blobs || w'.blobs[id] != s.blobs[id])
        ensures exists p :: 0 <= p < |es| && index(es[p]).id == id && es[p].raw == w'.blobs[id]
      {
        if id == index(es[n]).id && w'.blobs[id] == es[n].raw {
        } else {
          assert id in w.blobs && w'.blobs[id] == w.blobs[id];
          var p :| 0 <= p < |init| && index(init[p]).id == id && init[p].raw == w.blobs[id];
          assert es[p] == init[p];
        }
      }
    }
  }

  /** Deduplication: when the index answers for every position and already
      holds every id of the walk, no blob is written. */
  lemma {:induction false} WalkNoNewBlobs(s: Store, es: seq<Amdfw.Entry>, index: Amdfw.Entry -> DBEntry, f: Faults)
    requires NoExistsFaults(f, |es|)
    requires forall p :: 0 <= p < |es| ==> index(es[p]).id in s.entries
    ensures Walk(s, es, index, f).blobs == s.blobs
    decreases |es|
  {
    if es != [] {
      var n := |es| - 1;
      WalkNoNewBlobs(s, es[..n], index, f);
      WalkIndex(s, es[..n], index, f);
      assert index(es[n]).id in s.entries;
    }
  }

  lemma StepComplete(w: Store, e: Amdfw.Entry, p: nat, index: Amdfw.Entry -> DBEntry, f: Faults)
    requires Backed(w) && f.storeBytes(p).None? && f.storeElement(p).None?
    ensures var w' := EntryStep(w, e, p, index, f);
      && Backed(w') && index(e).id in w'.blobs && index(e).id in w'.entries
      && w.blobs.Keys <= w'.blobs.Keys && w.entries.Keys <= w'.entries.Keys
  {
  }

  /** Starting from a store where every indexed id has its blob, a walk
      without store faults stores every entry it visits, in the blob store
      and in the index, and keeps every indexed entry backed by its bytes.
      The starting condition is needed: the check is against the index, so a
      blob missing under an indexed id is never stored again. */
  lemma {:induction false} WalkComplete(s: Store, es: seq<Amdfw.Entry>, index: Amdfw.Entry -> DBEntry, f: Faults)
    requires Backed(s)
    requires NoBytesFaults(f, |es|) && NoElementFaults(f, |es|)
    ensures Backed(Walk(s, es, index, f))
    ensures forall p :: 0 <= p < |es| ==>
      index(es[p]).id in Walk(s, es, index, f).blobs && index(es[p]).id in Walk(s, es, index, f).entries
    decreases |es|
  {
    if es != [] {
      var n := |es| - 1;
      var init := es[..n];
      WalkComplete(s, init, index, f);
      var w := Walk(s, init, index, f);
      assert Walk(s, es, index, f) == EntryStep(w, es[n], n, index, f);
      StepComplete(w, es[n], n, index, f);
      forall p | 0 <= p < n
        ensures index(es[p]).id in w.blobs && index(es[p]).id in w.entries
      {
        assert init[p] == es[p];
      }
    }
  }

  /** `ConvertAMDEntryToMFT` identifies each record by its raw bytes. */
  lemma IndexerIdentifiedByRaw(gen: seq<Byte> -> ContentID)
    ensures IdentifiedByRaw(Indexer(gen), gen)
  {
    forall e: Amdfw.Entry
      ensures Indexer(gen)(e).id == gen(e.raw)
    {
      Normaliser.EntryRecordRendered(gen, e);
    }
  }

  /** Blobs stay content addressed: whatever the walk stores sits under the
      identifier of its own bytes. */
  lemma {:induction false} WalkContentAddressed(s: Store, es: seq<Amdfw.Entry>, index: Amdfw.Entry -> DBEntry,
                                                gen: seq<Byte> -> ContentID, f: Faults)
    requires IdentifiedByRaw(index, gen)
    requires ContentAddressed(s, gen)
    ensures ContentAddressed(Walk(s, es, index, f), gen)
    decreases |es|
  {
    if es != [] {
      WalkContentAddressed(s, es[..|es| - 1], index, gen, f);
      assert index(es[|es| - 1]).id == gen(es[|es| - 1].raw);
    }
  }

  lemma {:induction false} UpsertsKeys(es: seq<Amdfw.Entry>, index: Amdfw.Entry -> DBEntry)
    ensures forall p :: 0 <= p < |es| ==> index(es[p]).id in Upserts(es, index)
    decreases |es|
  {
    if es != [] {
      var n := |es| - 1;
      UpsertsKeys(es[..n], index);
      forall p | 0 <= p < n
        ensures index(es[p]).id in Upserts(es, index)
      {
        assert es[..n][p] == es[p];
      }
    }
  }

  /** Without upsert failures the index after the walk is the index before it
      overridden by the records of the walk, the last record of an id winning. */
  lemma {:induction false} WalkEntries(s: Store, es: seq<Amdfw.Entry>, index: Amdfw.Entry -> DBEntry, f: Faults)
    requires NoElementFaults(f, |es|)
    ensures Walk(s, es, index, f).entries == s.entries + Upserts(es, index)
    decreases |es|
  {
    if es != [] {
      WalkEntries(s, es[..|es| - 1], index, f);
    }
  }

  /** Idempotence: walking the same tree again, with every upsert succeeding
      both times and the index answering every time on the second walk, writes
      no blob and leaves the index as the first walk left it. */
  lemma WalkIdempotent(s: Store, es: seq<Amdfw.Entry>, index: Amdfw.Entry -> DBEntry, f1: Faults, f2: Faults)
    requires NoElementFaults(f1, |es|) && NoElementFaults(f2, |es|) && NoExistsFaults(f2, |es|)
    ensures Walk(Walk(s, es, index, f1), es, index, f2) == Walk(s, es, index, f1)
  {
    var s1 := Walk(s, es, index, f1);
    WalkEntries(s, es, index, f1);
    WalkEntries(s1, es, index, f2);
    UpsertsKeys(es, index);
    WalkNoNewBlobs(s1, es, index, f2);
    WalkKeepsImages(s1, es, index, f2);
    var u := Upserts(es, index);
    assert s1.entries + u == s1.entries;
  }

  // ---------------------------------------------------------------------------
  // analyse, as a function of the stores

  /** `Storage.GetFile` followed by `ioutil.ReadAll` on the reader. */
  function Fetch(s: Store, id: ContentID, f: Faults): Result<seq<Byte>> {
    if f.getFile.Some? then Failure(f.getFile.value)
    else if id !in s.blobs then Failure(Cause(MissingObject))
    else if f.read.Some? then Failure(f.read.value)
    else Success(s.blobs[id])
  }

  /** The value `analyse` gives `entry.AMD` once a firmware tree was parsed:
      a fresh record holding the AGESA signatures when there are any,
      otherwise the image's own record (or an empty one), and in either case
      the converted tree as its firmware. */
  function AMDRecord(prior: Option<AMDFirmware>, agesa: seq<AMDAGESA>, image: Option<Image>): AMDFirmware {
    var base := if agesa != [] then AMDFirmware(agesa, None) else if prior.Some? then prior.value else AMDFirmware([], None);
    base.(firmware := image)
  }

  /** The partial update of document `id` of the `flashimages` index that
      sets the field `AMD`. */
  function UpdateAMD(images: map<ContentID, Document>, id: ContentID, amd: AMDFirmware, fault: Option<Error>)
    : (map<ContentID, Document>, Option<Error>)
  {
    if fault.Some? then (images, fault)
    else if id !in images then (images, Some(Cause(MissingDocument)))
    else (images[id := images[id][AMDKey := AMD(amd)]], None)
  }

  /** When the image is fetched and read, every AGESA match leaves room for
      its 100-byte excerpt inside the image. */
  predicate Analysable(s: Store, entry: FlashImage, c: Collaborators, f: Faults) {
    Fetch(s, entry.id, f).Success? ==>
      Analysis.ScanInBounds(c.scan(Fetch(s, entry.id, f).value), Fetch(s, entry.id, f).value)
  }

  /** The stores after `analyse(entry)`, and what it returns. */
  function Outcome(s: Store, entry: FlashImage, c: Collaborators, f: Faults): (Store, Option<Error>)
    requires Analysable(s, entry, c, f)
  {
    match Fetch(s, entry.id, f)
    case Failure(e) => (s, Some(e))
    case Success(bytes) =>
      var agesa := Analysis.AgesaAnalysis(c.scan(bytes), bytes).0;
      var firmware := Analysis.FirmwareAnalysis(c, bytes).0;
      if firmware.None? then (s, None)
      else
        var amd := AMDRecord(entry.amd, agesa, Normaliser.ImageRecord(c, firmware));
        var w := Walk(s, Flatten(firmware.value.roms), Indexer(c.generateId), f);
        var (images, err) := UpdateAMD(w.flashImages, entry.id, amd, f.update);
        (w.(flashImages := images), err)
  }

  // ---------------------------------------------------------------------------
  // Properties of analyse

  /** The AGESA signatures replace whatever record the image carried; without
      any the image keeps its own; the firmware is always the converted tree. */
  lemma AMDRecordFields(prior: Option<AMDFirmware>, agesa: seq<AMDAGESA>, image: Option<Image>)
    ensures AMDRecord(prior, agesa, image).firmware == image
    ensures agesa != [] ==> AMDRecord(prior, agesa, image).agesa == agesa
    ensures agesa == [] && prior.Some? ==> AMDRecord(prior, agesa, image).agesa == prior.value.agesa
    ensures agesa == [] && prior.None? ==> AMDRecord(prior, agesa, image).agesa == []
  {
  }

  /** An image that cannot be fetched or read: nothing is written and the
      error is returned. */
  lemma FetchFailureWritesNothing(s: Store, entry: FlashImage, c: Collaborators, f: Faults)
    requires Analysable(s, entry, c, f)
    requires f.getFile.Some? || entry.id !in s.blobs || f.read.Some?
    ensures Outcome(s, entry, c, f).0 == s
    ensures Outcome(s, entry, c, f).1.Some?
    ensures f.getFile.Some? ==> Outcome(s, entry, c, f).1 == f.getFile
    ensures f.getFile.None? && entry.id !in s.blobs ==> Outcome(s, entry, c, f).1 == Some(Cause(MissingObject))
    ensures f.getFile.None? && entry.id in s.blobs && f.read.Some? ==> Outcome(s, entry, c, f).1 == f.read
  {
  }

  /** No firmware tree (no table, or a table that does not parse): nothing
      is written and nothing is reported, whatever the AGESA scan found. */
  lemma NoFirmwareWritesNothing(s: Store, entry: FlashImage, c: Collaborators, f: Faults)
    requires Analysable(s, entry, c, f)
    requires Fetch(s, entry.id, f).Success?
    requires var bytes := Fetch(s, entry.id, f).value;
      c.findFirmwareEntryTable(bytes).Failure?
      || c.parseFirmwareEntryTable(bytes, c.findFirmwareEntryTable(bytes).value).Failure?
    ensures Outcome(s, entry, c, f) == (s, None)
  {
  }

  /** The errors of the analyses are only logged: `analyse` fails exactly when
      the image cannot be fetched or read, or when a firmware tree was found
      and the update of its document failed. */
  lemma OutcomeError(s: Store, entry: FlashImage, c: Collaborators, f: Faults)
    requires Analysable(s, entry, c, f)
    ensures Outcome(s, entry, c, f).1.Some? <==>
      || Fetch(s, entry.id, f).Failure?
      || (Analysis.FirmwareAnalysis(c, Fetch(s, entry.id, f).value).0.Some?
          && (f.update.Some? || entry.id !in s.flashImages))
  {
    var r := Fetch(s, entry.id, f);
    if r.Success? {
      var firmware := Analysis.FirmwareAnalysis(c, r.value).0;
      if firmware.Some? {
        WalkKeepsImages(s, Flatten(firmware.value.roms), Indexer(c.generateId), f);
      }
    }
  }

  /** Which error `analyse` returns once the image is read: never one of the
      analyses' own; nothing without a firmware tree; with one, the update's
      error, the missing-document error, or nothing. */
  lemma ReturnedError(s: Store, entry: FlashImage, c: Collaborators, f: Faults)
    requires Analysable(s, entry, c, f)
    requires Fetch(s, entry.id, f).Success?
    ensures var firmware := Analysis.FirmwareAnalysis(c, Fetch(s, entry.id, f).value).0;
      && (firmware.None? ==> Outcome(s, entry, c, f).1 == None)
      && (firmware.Some? ==>
            Outcome(s, entry, c, f).1 ==
              (if f.update.Some? then f.update
               else if entry.id !in s.flashImages then Some(Cause(MissingDocument))
               else None))
  {
    var firmware := Analysis.FirmwareAnalysis(c, Fetch(s, entry.id, f).value).0;
    if firmware.Some? {
      WalkKeepsImages(s, Flatten(firmware.value.roms), Indexer(c.generateId), f);
    }
  }

  /** Only the `AMD` field of the image's own document changes: every other
      document and every other field stays, and a successful run leaves the
      new record there. */
  lemma OnlyAMDFieldChanges(s: Store, entry: FlashImage, c: Collaborators, f: Faults)
    requires Analysable(s, entry, c, f)
    ensures var images := Outcome(s, entry, c, f).0.flashImages;
      && images.Keys == s.flashImages.Keys
      && (forall id :: id in s.flashImages && id != entry.id ==> images[id] == s.flashImages[id])
      && (entry.id in s.flashImages ==>
            && images[entry.id].Keys <= s.flashImages[entry.id].Keys + {AMDKey}
            && forall k :: k in s.flashImages[entry.id] && k != AMDKey ==>
                 k in images[entry.id] && images[entry.id][k] == s.flashImages[entry.id][k])
    ensures Outcome(s, entry, c, f).1.None? && Fetch(s, entry.id, f).Success? ==>
      var bytes := Fetch(s, entry.id, f).value;
      var firmware := Analysis.FirmwareAnalysis(c, bytes).0;
      firmware.Some? ==>
        Outcome(s, entry, c, f).0.flashImages[entry.id][AMDKey]
        == AMD(AMDRecord(entry.amd, Analysis.AgesaAnalysis(c.scan(bytes), bytes).0, Normaliser.ImageRecord(c, firmware)))
  {
    var r := Fetch(s, entry.id, f);
    if r.Success? {
      var firmware := Analysis.FirmwareAnalysis(c, r.value).0;
      if firmware.Some? {
        WalkKeepsImages(s, Flatten(firmware.value.roms), Indexer(c.generateId), f);
      }
    }
  }

  /** With every upsert succeeding, every entry of every directory of every
      ROM of the parsed tree ends up in the `amdentries` index under its id,
      and no id the index held before is lost. */
  lemma EveryEntryIndexed(s: Store, entry: FlashImage, c: Collaborators, f: Faults,
                          i: nat, k: nat, j: nat)
    requires Analysable(s, entry, c, f)
    requires Fetch(s, entry.id, f).Success?
    requires var firmware := Analysis.FirmwareAnalysis(c, Fetch(s, entry.id, f).value).0;
      && firmware.Some?
      && NoElementFaults(f, |Flatten(firmware.value.roms)|)
      && i < |firmware.value.roms| && k < |firmware.value.roms[i].directories|
      && j < |firmware.value.roms[i].directories[k].entries|
    ensures var e := Analysis.FirmwareAnalysis(c, Fetch(s, entry.id, f).value).0.value.roms[i].directories[k].entries[j];
      c.generateId(e.raw) in Outcome(s, entry, c, f).0.entries
    ensures s.entries.Keys <= Outcome(s, entry, c, f).0.entries.Keys
  {
    var roms := Analysis.FirmwareAnalysis(c, Fetch(s, entry.id, f).value).0.value.roms;
    var es := Flatten(roms);
    var e := roms[i].directories[k].entries[j];
    FlattenMembers(roms, e);
    var p :| 0 <= p < |es| && es[p] == e;
    WalkIndex(s, es, Indexer(c.generateId), f);
    assert c.generateId(e.raw) in UpsertedIds(es, Indexer(c.generateId), f);
  }

  /** The walk neither reads nor writes the `flashimages` index. */
  lemma {:induction false} WalkIgnoresImages(s: Store, x: map<ContentID, Document>, es: seq<Amdfw.Entry>,
                                             index: Amdfw.Entry -> DBEntry, f: Faults)
    ensures Walk(s.(flashImages := x), es, index, f) == Walk(s, es, index, f).(flashImages := x)
    decreases |es|
  {
    if es != [] {
      WalkIgnoresImages(s, x, es[..|es| - 1], index, f);
    }
  }

  /** A blob keeps its bytes through a walk in which every entry filed under
      its id carries those same bytes. */
  lemma WalkKeepsBlob(s: Store, es: seq<Amdfw.Entry>, index: Amdfw.Entry -> DBEntry, f: Faults, id: ContentID)
    requires id in s.blobs
    requires forall p :: 0 <= p < |es| && index(es[p]).id == id ==> es[p].raw == s.blobs[id]
    ensures id in Walk(s, es, index, f).blobs && Walk(s, es, index, f).blobs[id] == s.blobs[id]
  {
    WalkBlobsGrow(s, es, index, f);
    WalkBlobOrigins(s, es, index, f);
  }

  /** Setting the `AMD` field a second time to the same record changes nothing. */
  lemma UpdateAMDAgain(images: map<ContentID, Document>, id: ContentID, amd: AMDFirmware, fault: Option<Error>)
    ensures var once := UpdateAMD(images, id, amd, None).0;
      UpdateAMD(once, id, amd, fault).0 == once
  {
    var once := UpdateAMD(images, id, amd, None).0;
    if id in images && fault.None? {
      assert once[id][AMDKey := AMD(amd)] == once[id];
    }
  }

  /** The entries the storage loops of `analyse` visit for an image's bytes. */
  function WalkedEntries(c: Collaborators, bytes: seq<Byte>): seq<Amdfw.Entry> {
    var firmware := Analysis.FirmwareAnalysis(c, bytes).0;
    if firmware.Some? then Flatten(firmware.value.roms) else []
  }

  /** `analyse` once a firmware tree was parsed: the walk, then the update. */
  lemma OutcomeWithTree(s: Store, entry: FlashImage, c: Collaborators, f: Faults)
    requires Analysable(s, entry, c, f)
    requires Fetch(s, entry.id, f).Success?
    requires Analysis.FirmwareAnalysis(c, Fetch(s, entry.id, f).value).0.Some?
    ensures var bytes := Fetch(s, entry.id, f).value;
      var firmware := Analysis.FirmwareAnalysis(c, bytes).0;
      var amd := AMDRecord(entry.amd, Analysis.AgesaAnalysis(c.scan(bytes), bytes).0, Normaliser.ImageRecord(c, firmware));
      var w := Walk(s, WalkedEntries(c, bytes), Indexer(c.generateId), f);
      Outcome(s, entry, c, f).0 == w.(flashImages := UpdateAMD(w.flashImages, entry.id, amd, f.update).0)
  {
  }

  /** The second pass over an image whose tree the first pass stored. */
  lemma SecondPassWithTree(s: Store, entry: FlashImage, c: Collaborators, f1: Faults, f2: Faults)
    requires Analysable(s, entry, c, f1)
    requires Fetch(s, entry.id, f1).Success?
    requires Analysis.FirmwareAnalysis(c, Fetch(s, entry.id, f1).value).0.Some?
    requires var bytes := Fetch(s, entry.id, f1).value;
      var es := WalkedEntries(c, bytes);
      && NoElementFaults(f1, |es|) && f1.update.None?
      && NoElementFaults(f2, |es|) && NoExistsFaults(f2, |es|)
      && forall p :: 0 <= p < |es| && c.generateId(es[p].raw) == entry.id ==> es[p].raw == bytes
    ensures Analysable(Outcome(s, entry, c, f1).0, entry, c, f2)
    ensures Outcome(Outcome(s, entry, c, f1).0, entry, c, f2).0 == Outcome(s, entry, c, f1).0
  {
    var bytes := Fetch(s, entry.id, f1).value;
    var es := WalkedEntries(c, bytes);
    var index := Indexer(c.generateId);
    var firmware := Analysis.FirmwareAnalysis(c, bytes).0;
    var amd := AMDRecord(entry.amd, Analysis.AgesaAnalysis(c.scan(bytes), bytes).0, Normaliser.ImageRecord(c, firmware));
    var w := Walk(s, es, index, f1);
    var images := UpdateAMD(w.flashImages, entry.id, amd, f1.update).0;
    OutcomeWithTree(s, entry, c, f1);
    var s1 := w.(flashImages := images);
    IndexerIdentifiedByRaw(c.generateId);
    WalkKeepsBlob(s, es, index, f1, entry.id);
    if Fetch(s1, entry.id, f2).Success? {
      assert Fetch(s1, entry.id, f2).value == bytes;
      WalkIgnoresImages(w, images, es, index, f2);
      WalkIdempotent(s, es, index, f1, f2);
      UpdateAMDAgain(w.flashImages, entry.id, amd, f2.update);
      OutcomeWithTree(s1, entry, c, f2);
    }
  }

  /** Redelivery: analysing the same image a second time leaves the stores as
      the first pass left them, provided the first pass read the image and its
      upserts and update succeeded, the second pass's index checks and upserts
      succeed, and no entry of the tree is filed under the image's own id
      with other bytes than the image's. */
  lemma AnalyseIdempotent(s: Store, entry: FlashImage, c: Collaborators, f1: Faults, f2: Faults)
    requires Analysable(s, entry, c, f1)
    requires Fetch(s, entry.id, f1).Success?
    requires var bytes := Fetch(s, entry.id, f1).value;
      var es := WalkedEntries(c, bytes);
      && NoElementFaults(f1, |es|) && f1.update.None?
      && NoElementFaults(f2, |es|) && NoExistsFaults(f2, |es|)
      && forall p :: 0 <= p < |es| && c.generateId(es[p].raw) == entry.id ==> es[p].raw == bytes
    ensures Analysable(Outcome(s, entry, c, f1).0, entry, c, f2)
    ensures Outcome(Outcome(s, entry, c, f1).0, entry, c, f2).0 == Outcome(s, entry, c, f1).0
  {
    if Analysis.FirmwareAnalysis(c, Fetch(s, entry.id, f1).value).0.None? {
      assert Outcome(s, entry, c, f1).0 == s;
    } else {
      SecondPassWithTree(s, entry, c, f1, f2);
    }
  }

  // ---------------------------------------------------------------------------
  // The backends and analyse, as the source runs them

  /** The storage bundle: the blob store and the two indices, updated in place. */
  class Backend {
    var blobs: map<ContentID, seq<Byte>>
    var entries: map<ContentID, IndexedEntry>
    var flashImages: map<ContentID, Document>

    constructor (s: Store)
      ensures State() == s
    {
      blobs, entries, flashImages := s.blobs, s.entries, s.flashImages;
    }

    function State(): Store
      reads this
    {
      Store(blobs, entries, flashImages)
    }

    /** `Storage.GetFile`: the blob, or the store's error. */
    method GetFile(id: ContentID, fault: Option<Error>) returns (r: Result<seq<Byte>>)
      ensures fault.Some? ==> r == Failure(fault.value)
      ensures fault.None? && id !in blobs ==> r == Failure(Cause(MissingObject))
      ensures fault.None? && id in blobs ==> r == Success(blobs[id])
    {
      if fault.Some? {
        return Failure(fault.value);
      }
      if id !in blobs {
        return Failure(Cause(MissingObject));
      }
      return Success(blobs[id]);
    }

    /** `DB.Exists` on the `amdentries` index. */
    method Exists(id: ContentID, fault: Option<Error>) returns (found: bool, err: Option<Error>)
      ensures err == fault
      ensures found <==> fault.None? && id in entries
    {
      if fault.Some? {
        return false, fault;
      }
      return id in entries, None;
    }

    /** `Storage.StoreBytes`. */
    method StoreBytes(raw: seq<Byte>, id: ContentID, fault: Option<Error>) returns (err: Option<Error>)
      modifies this
      ensures blobs == if fault.None? then old(blobs)[id := raw] else old(blobs)
      ensures entries == old(entries) && flashImages == old(flashImages)
      ensures err == fault
    {
      if fault.None? {
        blobs := blobs[id := raw];
      }
      err := fault;
    }

    /** `DB.StoreElement` on the `amdentries` index: an upsert under `id`. */
    method StoreElement(docType: string, record: DBEntry, id: ContentID, fault: Option<Error>) returns (err: Option<Error>)
      modifies this
      ensures entries == if fault.None? then old(entries)[id := IndexedEntry(docType, record)] else old(entries)
      ensures blobs == old(blobs) && flashImages == old(flashImages)
      ensures err == fault
    {
      if fault.None? {
        entries := entries[id := IndexedEntry(docType, record)];
      }
      err := fault;
    }

    /** `ES.Update()` of document `id` in `flashimages` with `{"AMD": amd}`. */
    method Update(id: ContentID, amd: AMDFirmware, fault: Option<Error>) returns (err: Option<Error>)
      modifies this
      ensures (flashImages, err) == UpdateAMD(old(flashImages), id, amd, fault)
      ensures blobs == old(blobs) && entries == old(entries)
    {
      if fault.Some? {
        return fault;
      }
      if id !in flashImages {
        return Some(Cause(MissingDocument));
      }
      flashImages := flashImages[id := flashImages[id][AMDKey := AMD(amd)]];
      err := None;
    }

    /** The body of the inner loop of `analyse`, for the entry at position `p`. */
    method StoreEntry(e: Amdfw.Entry, p: nat, gen: seq<Byte> -> ContentID, f: Faults)
      modifies this
      ensures State() == EntryStep(old(State()), e, p, Indexer(gen), f)
    {
      var mftEntry := Normaliser.ConvertAMDEntryToMFT(gen, e);
      var id := mftEntry.id;
      var found, err := Exists(id, f.lookup(p));
      if !found || err.Some? {
        var ignored := StoreBytes(e.raw, id, f.storeBytes(p));
      }
      var ignored := StoreElement(EntryDocType, mftEntry, id, f.storeElement(p));
    }

    /** The innermost loop of `analyse`: the entries of one directory, the
        first at position `p` of the walk that started from `s0` and has
        visited `done` so far. */
    method StoreEntries(es: seq<Amdfw.Entry>, p: nat, gen: seq<Byte> -> ContentID, f: Faults,
                        ghost s0: Store, ghost done: seq<Amdfw.Entry>)
      returns (next: nat)
      requires State() == Walk(s0, done, Indexer(gen), f) && p == |done|
      modifies this
      ensures State() == Walk(s0, done + es, Indexer(gen), f) && next == |done + es|
    {
      next := p;
      ghost var visited := done;
      assert es[..0] == [];
      for j := 0 to |es|
        invariant visited == done + es[..j]
        invariant State() == Walk(s0, visited, Indexer(gen), f) && next == |visited|
      {
        StoreEntry(es[j], next, gen, f);
        WalkSnoc(s0, visited, es[j], Indexer(gen), f);
        PrefixSnoc(done, es, j);
        visited := visited + [es[j]];
        next := next + 1;
      }
      assert es[..|es|] == es;
    }

    /** The middle loop of `analyse`: the directories of one ROM. */
    method StoreDirectories(ds: seq<Amdfw.Directory>, p: nat, gen: seq<Byte> -> ContentID, f: Faults,
                            ghost s0: Store, ghost done: seq<Amdfw.Entry>)
      returns (next: nat)
      requires State() == Walk(s0, done, Indexer(gen), f) && p == |done|
      modifies this
      ensures State() == Walk(s0, done + FlattenDirectories(ds), Indexer(gen), f) && next == |done + FlattenDirectories(ds)|
    {
      next := p;
      ghost var visited := done;
      assert ds[..0] == [];
      for k := 0 to |ds|
        invariant visited == done + FlattenDirectories(ds[..k])
        invariant State() == Walk(s0, visited, Indexer(gen), f) && next == |visited|
      {
        next := StoreEntries(ds[k].entries, next, gen, f, s0, visited);
        DirectoriesPrefixStep(done, ds, k);
        visited := visited + ds[k].entries;
      }
      assert ds[..|ds|] == ds;
    }

    /** The three nested loops of `analyse` over ROMs, directories and entries. */
    method StoreTree(roms: seq<Amdfw.Rom>, gen: seq<Byte> -> ContentID, f: Faults)
      modifies this
      ensures State() == Walk(old(State()), Flatten(roms), Indexer(gen), f)
    {
      ghost var s0 := State();
      var p := 0;
      for i := 0 to |roms|
        invariant State() == Walk(s0, Flatten(roms[..i]), Indexer(gen), f) && p == |Flatten(roms[..i])|
      {
        p := StoreDirectories(roms[i].directories, p, gen, f, s0, Flatten(roms[..i]));
        assert roms[..i + 1][..i] == roms[..i];
      }
      assert roms[..|roms|] == roms;
    }

    /** `analyse(entry)`. */
    method Analyse(entry: FlashImage, c: Collaborators, f: Faults) returns (err: Option<Error>)
      requires Analysable(State(), entry, c, f)
      modifies this
      ensures (State(), err) == Outcome(old(State()), entry, c, f)
    {
      var reader := GetFile(entry.id, f.getFile);
      if reader.Failure? {
        return Some(reader.error);
      }
      if f.read.Some? {
        return f.read;
      }
      var firmwareBytes := reader.value;

      var agesa, agesaErr := Analysis.AnalyseAGESA(c, firmwareBytes);
      var firmware, firmwareErr := Analysis.AnalyseAMDFW(c, firmwareBytes);

      var amd := entry.amd;
      if agesa != [] {
        amd := Some(AMDFirmware(agesa, None));
      }
      if firmware.Some? {
        if amd.None? {
          amd := Some(AMDFirmware([], None));
        }
        var image := Normaliser.ConvertAMDFWToMFT(c, firmware);
        amd := Some(amd.value.(firmware := image));

        StoreTree(firmware.value.roms, c.generateId, f);

        err := Update(entry.id, amd.value, f.update);
        if err.Some? {
          return err;
        }
      }
      return None;
    }
  }
}
