/** The two analyses of Wrapper.go: `AnalyseAGESA` keeps the scanner's matches
    of the `AGESA` rule as signature records, and `AnalyseAMDFW` runs the four
    amdfw parser stages in order and decides what image, if any, to return. */
module Analysis {
  import opened Wrappers
  import opened Hex
  import opened External
  import opened Records
  import Yara
  import Amdfw

  /** The rule whose matches become signature records. */
  const AgesaRule := "AGESA"

  /** How many bytes of the image each signature record keeps. */
  const ExcerptLength := 100

  // ---------------------------------------------------------------------------
  // AnalyseAGESA

  /** The source slices `ExcerptLength` bytes from every match offset of the
      `AGESA` rule. A match nearer the end reads past the image into the
      buffer's spare capacity, or panics past that capacity; the model
      excludes such matches. */
  predicate MatchInBounds(m: Yara.Match, bytes: seq<Byte>) {
    m.rule == AgesaRule ==> forall j :: 0 <= j < |m.strings| ==> m.strings[j].offset + ExcerptLength <= |bytes|
  }

  predicate ExcerptsInBounds(matches: seq<Yara.Match>, bytes: seq<Byte>) {
    forall i :: 0 <= i < |matches| ==> MatchInBounds(matches[i], bytes)
  }

  /** The scan succeeded and every `AGESA` match leaves room for its excerpt. */
  predicate ScanInBounds(scan: Result<seq<Yara.Match>>, bytes: seq<Byte>) {
    scan.Success? ==> ExcerptsInBounds(scan.value, bytes)
  }

  function AgesaRecord(bytes: seq<Byte>, s: Yara.MatchString): AMDAGESA
    requires s.offset + ExcerptLength <= |bytes|
  {
    AMDAGESA(Text(s.data), bytes[s.offset..s.offset + ExcerptLength], s.offset % 0x1_0000_0000)
  }

  /** The records one match contributes: one per matched string for the
      `AGESA` rule, none for any other rule. */
  function MatchRecords(m: Yara.Match, bytes: seq<Byte>): seq<AMDAGESA>
    requires MatchInBounds(m, bytes)
  {
    if m.rule == AgesaRule
    then seq(|m.strings|, j requires 0 <= j < |m.strings| => AgesaRecord(bytes, m.strings[j]))
    else []
  }

  /** The records of all matches, in match order. */
  function AgesaRecords(matches: seq<Yara.Match>, bytes: seq<Byte>): seq<AMDAGESA>
    requires ExcerptsInBounds(matches, bytes)
  {
    if matches == [] then []
    else AgesaRecords(matches[..|matches| - 1], bytes) + MatchRecords(matches[|matches| - 1], bytes)
  }

  /** How many strings the `AGESA` rule matched. */
  function AgesaCount(matches: seq<Yara.Match>): nat {
    if matches == [] then 0
    else
      var m := matches[|matches| - 1];
      AgesaCount(matches[..|matches| - 1]) + (if m.rule == AgesaRule then |m.strings| else 0)
  }

  /** What `AnalyseAGESA` returns: nil and the error when the scan fails;
      otherwise the records and no error. */
  function AgesaAnalysis(scan: Result<seq<Yara.Match>>, bytes: seq<Byte>): (seq<AMDAGESA>, Option<Error>)
    requires ScanInBounds(scan, bytes)
  {
    match scan
    case Failure(e) => ([], Some(e))
    case Success(matches) => (AgesaRecords(matches, bytes), None)
  }

  lemma {:induction false} AgesaRecordsAppend(a: seq<Yara.Match>, b: seq<Yara.Match>, bytes: seq<Byte>)
    requires ExcerptsInBounds(a, bytes) && ExcerptsInBounds(b, bytes)
    ensures ExcerptsInBounds(a + b, bytes)
    ensures AgesaRecords(a + b, bytes) == AgesaRecords(a, bytes) + AgesaRecords(b, bytes)
    ensures AgesaCount(a + b) == AgesaCount(a) + AgesaCount(b)
    decreases |b|
  {
    InBoundsAppend(a, b, bytes);
    if b == [] {
      assert a + b == a;
    } else {
      var init := b[..|b| - 1];
      assert (a + b)[..|a + b| - 1] == a + init;
      assert (a + b)[|a + b| - 1] == b[|b| - 1];
      assert ExcerptsInBounds(init, bytes) by {
        assert forall i :: 0 <= i < |init| ==> init[i] == b[i];
      }
      AgesaRecordsAppend(a, init, bytes);
    }
  }

  lemma InBoundsAppend(a: seq<Yara.Match>, b: seq<Yara.Match>, bytes: seq<Byte>)
    requires ExcerptsInBounds(a, bytes) && ExcerptsInBounds(b, bytes)
    ensures ExcerptsInBounds(a + b, bytes)
  {
    forall i | 0 <= i < |a + b|
      ensures MatchInBounds((a + b)[i], bytes)
    {
      if i < |a| {
        assert (a + b)[i] == a[i];
      } else {
        assert (a + b)[i] == b[i - |a|];
      }
    }
  }

  lemma InBoundsSlice(s: seq<Yara.Match>, lo: nat, hi: nat, bytes: seq<Byte>)
    requires ExcerptsInBounds(s, bytes) && lo <= hi <= |s|
    ensures ExcerptsInBounds(s[lo..hi], bytes)
  {
    forall i | 0 <= i < hi - lo
      ensures MatchInBounds(s[lo..hi][i], bytes)
    {
      assert s[lo..hi][i] == s[lo + i];
    }
  }

  /** Only `AGESA` matches produce records, one per matched string. */
  lemma {:induction false} AgesaRecordsLength(matches: seq<Yara.Match>, bytes: seq<Byte>)
    requires ExcerptsInBounds(matches, bytes)
    ensures |AgesaRecords(matches, bytes)| == AgesaCount(matches)
    decreases |matches|
  {
    if matches != [] {
      InBoundsSlice(matches, 0, |matches| - 1, bytes);
      AgesaRecordsLength(matches[..|matches| - 1], bytes);
    }
  }

  lemma AgesaRecordsSingleton(m: Yara.Match, bytes: seq<Byte>)
    requires MatchInBounds(m, bytes)
    ensures ExcerptsInBounds([m], bytes)
    ensures AgesaRecords([m], bytes) == MatchRecords(m, bytes)
  {
    assert [m][..0] == [];
  }

  /** The outer loop visits one match more. */
  lemma AgesaRecordsPrefixStep(matches: seq<Yara.Match>, bytes: seq<Byte>, i: nat)
    requires ExcerptsInBounds(matches, bytes) && i < |matches|
    ensures ExcerptsInBounds(matches[..i], bytes) && ExcerptsInBounds(matches[..i + 1], bytes)
    ensures AgesaRecords(matches[..i + 1], bytes) == AgesaRecords(matches[..i], bytes) + MatchRecords(matches[i], bytes)
  {
    InBoundsSlice(matches, 0, i, bytes);
    InBoundsSlice(matches, 0, i + 1, bytes);
    assert matches[..i + 1][..i] == matches[..i];
  }

  /** The records of a match sequence split around any one match. */
  lemma AgesaRecordsAround(matches: seq<Yara.Match>, bytes: seq<Byte>, i: nat)
    requires ExcerptsInBounds(matches, bytes) && i < |matches|
    ensures ExcerptsInBounds(matches[..i], bytes) && ExcerptsInBounds(matches[i + 1..], bytes)
    ensures AgesaRecords(matches, bytes)
         == AgesaRecords(matches[..i], bytes) + MatchRecords(matches[i], bytes) + AgesaRecords(matches[i + 1..], bytes)
  {
    var pre, post := matches[..i], matches[i + 1..];
    var one := [matches[i]];
    var rest := one + post;
    assert matches == pre + rest;
    InBoundsSlice(matches, 0, i, bytes);
    InBoundsSlice(matches, i + 1, |matches|, bytes);
    AgesaRecordsSingleton(matches[i], bytes);
    AgesaRecordsAppend(one, post, bytes);
    AgesaRecordsAppend(pre, rest, bytes);
    var x, y, z := AgesaRecords(pre, bytes), MatchRecords(matches[i], bytes), AgesaRecords(post, bytes);
    assert AgesaRecords(matches, bytes) == x + (y + z);
    assert x + (y + z) == x + y + z;
  }

  /** Match order is kept: string `j` of an `AGESA` match `i` gives the record
      right after those of the matches before it, with the matched text as
      header, the 100 bytes at the offset as excerpt, and the offset cut to 32 bits. */
  lemma AgesaRecordAt(matches: seq<Yara.Match>, bytes: seq<Byte>, i: nat, j: nat)
    requires ExcerptsInBounds(matches, bytes)
    requires i < |matches| && matches[i].rule == AgesaRule && j < |matches[i].strings|
    ensures AgesaCount(matches[..i]) + j < |AgesaRecords(matches, bytes)|
    ensures var s := matches[i].strings[j];
      var r := AgesaRecords(matches, bytes)[AgesaCount(matches[..i]) + j];
      && r.header == Text(s.data)
      && r.raw == bytes[s.offset..s.offset + ExcerptLength]
      && r.offset == s.offset % 0x1_0000_0000
  {
    var m, s := matches[i], matches[i].strings[j];
    AgesaRecordsAround(matches, bytes, i);
    AgesaRecordsLength(matches[..i], bytes);
    var head, mid, tail := AgesaRecords(matches[..i], bytes), MatchRecords(m, bytes), AgesaRecords(matches[i + 1..], bytes);
    var k := AgesaCount(matches[..i]) + j;
    assert k == |head| + j;
    assert mid[j] == AgesaRecord(bytes, s);
    assert AgesaRecords(matches, bytes)[k] == (head + mid + tail)[k];
    assert (head + mid + tail)[k] == mid[j];
  }

  /** Every record comes from a string of some `AGESA` match. */
  predicate FromAgesaMatch(matches: seq<Yara.Match>, bytes: seq<Byte>, r: AMDAGESA)
    requires ExcerptsInBounds(matches, bytes)
  {
    exists i, j :: 0 <= i < |matches| && matches[i].rule == AgesaRule && 0 <= j < |matches[i].strings|
      && r == AgesaRecord(bytes, matches[i].strings[j])
  }

  lemma {:induction false} AgesaRecordsSound(matches: seq<Yara.Match>, bytes: seq<Byte>)
    requires ExcerptsInBounds(matches, bytes)
    ensures forall r :: r in AgesaRecords(matches, bytes) ==> FromAgesaMatch(matches, bytes, r)
    decreases |matches|
  {
    if matches != [] {
      var n := |matches| - 1;
      var init := matches[..n];
      InBoundsSlice(matches, 0, n, bytes);
      AgesaRecordsSound(init, bytes);
      forall r | r in AgesaRecords(matches, bytes)
        ensures FromAgesaMatch(matches, bytes, r)
      {
        if r in AgesaRecords(init, bytes) {
          var i, j :| 0 <= i < |init| && init[i].rule == AgesaRule && 0 <= j < |init[i].strings|
            && r == AgesaRecord(bytes, init[i].strings[j]);
          assert matches[i] == init[i];
        } else {
          var mid := MatchRecords(matches[n], bytes);
          assert r in mid;
          var j :| 0 <= j < |mid| && mid[j] == r;
          assert matches[n].rule == AgesaRule && r == AgesaRecord(bytes, matches[n].strings[j]);
        }
      }
    }
  }

  /** A match of any other rule (`Certificates` among them) adds nothing,
      wherever it sits among the matches. */
  lemma OtherRulesAddNothing(a: seq<Yara.Match>, m: Yara.Match, b: seq<Yara.Match>, bytes: seq<Byte>)
    requires m.rule != AgesaRule
    requires ExcerptsInBounds(a, bytes) && ExcerptsInBounds(b, bytes)
    ensures ExcerptsInBounds(a + [m] + b, bytes)
    ensures AgesaRecords(a + [m] + b, bytes) == AgesaRecords(a + b, bytes)
  {
    AgesaRecordsSingleton(m, bytes);
    AgesaRecordsAppend(a, [m], bytes);
    AgesaRecordsAppend(a + [m], b, bytes);
    AgesaRecordsAppend(a, b, bytes);
    assert MatchRecords(m, bytes) == [];
    assert AgesaRecords(a + [m], bytes) == AgesaRecords(a, bytes);
  }

  /** `AnalyseAGESA`: the nested loop over matches and their strings. */
  method AnalyseAGESA(c: Collaborators, firmwareBytes: seq<Byte>) returns (agesas: seq<AMDAGESA>, err: Option<Error>)
    requires ScanInBounds(c.scan(firmwareBytes), firmwareBytes)
    ensures (agesas, err) == AgesaAnalysis(c.scan(firmwareBytes), firmwareBytes)
  {
    var scan := c.scan(firmwareBytes);
    if scan.Failure? {
      return [], Some(scan.error);
    }
    var matches := scan.value;
    agesas := [];
    for i := 0 to |matches|
      invariant ExcerptsInBounds(matches[..i], firmwareBytes)
      invariant agesas == AgesaRecords(matches[..i], firmwareBytes)
    {
      var m := matches[i];
      ghost var before := agesas;
      ghost var found := MatchRecords(m, firmwareBytes);
      for j := 0 to |m.strings|
        invariant m.rule == AgesaRule ==> agesas == before + found[..j]
        invariant m.rule != AgesaRule ==> agesas == before
      {
        var str := m.strings[j];
        if m.rule == AgesaRule {
          var agesa := AMDAGESA(
            Text(str.data),
            firmwareBytes[str.offset..str.offset + ExcerptLength],
            str.offset % 0x1_0000_0000);
          assert found[..j + 1] == found[..j] + [agesa];
          agesas := agesas + [agesa];
        } else if m.rule == "Certificates" {
          // the source leaves certificate parsing for later
        }
      }
      if m.rule == AgesaRule {
        assert found[..|m.strings|] == found;
      }
      AgesaRecordsPrefixStep(matches, firmwareBytes, i);
    }
    assert matches[..|matches|] == matches;
    err := None;
  }

  // ---------------------------------------------------------------------------
  // AnalyseAMDFW

  /** What `AnalyseAMDFW` returns, stage by stage. */
  function FirmwareAnalysis(c: Collaborators, bytes: seq<Byte>): (Option<Amdfw.Image>, Option<Error>) {
    match c.findFirmwareEntryTable(bytes)
    case Failure(e) => (None, Some(e))
    case Success(offset) =>
      match c.parseFirmwareEntryTable(bytes, offset)
      case Failure(e) => (None, Some(e))
      case Success(fet) =>
        match c.getFlashMapping(bytes, fet)
        case Failure(e) => (Some(Amdfw.Image(Some(fet), None, [])), Some(e))
        case Success(mapping) =>
          var parsed := c.parseRoms(bytes, fet, mapping);
          (Some(Amdfw.Image(Some(fet), Some(mapping), parsed.roms)),
           if |parsed.errs| != 0 then Some(RomParseErrors(parsed.errs)) else None)
  }

  /** `AnalyseAMDFW`: fills the image stage by stage. */
  method AnalyseAMDFW(c: Collaborators, firmwareBytes: seq<Byte>) returns (image: Option<Amdfw.Image>, err: Option<Error>)
    // no table, or a table that does not parse: nil and the error
    ensures c.findFirmwareEntryTable(firmwareBytes).Failure? ==>
              image.None? && err == Some(c.findFirmwareEntryTable(firmwareBytes).error)
    ensures c.findFirmwareEntryTable(firmwareBytes).Success? ==>
              var fet := c.parseFirmwareEntryTable(firmwareBytes, c.findFirmwareEntryTable(firmwareBytes).value);
              && (fet.Failure? ==> image.None? && err == Some(fet.error))
              && (fet.Success? ==>
                    var mapping := c.getFlashMapping(firmwareBytes, fet.value);
                    && image.Some? && image.value.fet == Some(fet.value)
                    // no flash mapping: the table alone, no ROMs, and the error
                    && (mapping.Failure? ==>
                          image.value.flashMapping.None? && image.value.roms == []
                          && err == Some(mapping.error))
                    // otherwise the ROMs, with an error exactly when ParseRoms reported one
                    && (mapping.Success? ==>
                          var parsed := c.parseRoms(firmwareBytes, fet.value, mapping.value);
                          && image.value.flashMapping == Some(mapping.value)
                          && image.value.roms == parsed.roms
                          && (err.Some? <==> |parsed.errs| != 0)
                          && (err.Some? ==> err.value == RomParseErrors(parsed.errs))))
    ensures (image, err) == FirmwareAnalysis(c, firmwareBytes)
  {
    image := None;
    var fetOffset := c.findFirmwareEntryTable(firmwareBytes);
    if fetOffset.Failure? {
      return None, Some(fetOffset.error);
    }
    var fet := c.parseFirmwareEntryTable(firmwareBytes, fetOffset.value);
    if fet.Failure? {
      return None, Some(fet.error);
    }
    var img := Amdfw.Image(None, None, []);
    img := img.(fet := Some(fet.value));
    var mapping := c.getFlashMapping(firmwareBytes, fet.value);
    if mapping.Failure? {
      return Some(img), Some(mapping.error);
    }
    img := img.(flashMapping := Some(mapping.value));
    var parsed := c.parseRoms(firmwareBytes, fet.value, mapping.value);
    if |parsed.errs| != 0 {
      err := Some(RomParseErrors(parsed.errs));
    } else {
      err := None;
    }
    img := img.(roms := parsed.roms);
    image := Some(img);
  }
}
