/** Reading a chained-fixups blob back: everything serialized returns. */
module FixupBlobRead {
  import opened Bytes
  import opened FixupBlob
  import opened FixupCodec
  import opened FixupChains
  import opened FixupWriter
  import opened FixupImage
  import opened ImportPool
  import opened MachOLayout

  /** What the reader keeps of a blob. */
  datatype Parsed = Parsed(format: PointerFormat, imports: seq<ChainedImport>, segments: seq<SegmentFixups>,
                           importsFormat: nat, originalImports: seq<byte>)

  type Segments = Result<(seq<SegmentFixups>, Option<PointerFormat>), FixupError>

  function Before(done: seq<SegmentFixups>, r: Segments): Segments {
    match r
    case Err(e) => Err(e)
    case Ok((rest, f)) => Ok((done + rest, f))
  }

  /** The segments from index `k` on; all populated ones must agree on the format. */
  function ReadSegments(bytes: seq<byte>, sii: nat, k: nat, n: nat, end: nat, segs: seq<Segment>, imports: nat, chosen: Option<PointerFormat>): Segments
    requires end <= |bytes| && k <= n && sii + 4 + 4 * n <= end
    decreases n - k
  {
    if k == n then Ok(([], chosen))
    else
      var off := Field(bytes, sii + 4 + 4 * k, 4);
      if off == 0 then ReadSegments(bytes, sii, k + 1, n, end, segs, imports, chosen)
      else
        match WalkSegment(bytes, sii + off, k, end, segs, imports)
        case Err(e) => Err(e)
        case Ok(walked) =>
          if chosen.Some? && chosen.value != walked.format then Err(Truncated)
          else
            Before([SegmentFixups(k, walked.pageSize, walked.fixups)],
                   ReadSegments(bytes, sii, k + 1, n, end, segs, imports, Some(walked.format)))
  }

  /** `ChainedFixups::read` of the blob at `base`. */
  function ReadBlob(bytes: seq<byte>, base: nat, size: nat, segs: seq<Segment>): Result<Parsed, FixupError> {
    var end := base + size;
    if end > |bytes| || size < FIXUPS_HEADER_SIZE then Err(Truncated)
    else if Field(bytes, base, 4) != 0 then Err(Truncated)
    else
      var startsOff, importsOff, symbolsOff := Field(bytes, base + 4, 4), Field(bytes, base + 8, 4), Field(bytes, base + 12, 4);
      var count, format := Field(bytes, base + 16, 4), Field(bytes, base + 20, 4);
      match DecodeImports(bytes, base + importsOff, base + symbolsOff, count, format, end)
      case Err(e) => Err(e)
      case Ok(imports) =>
        var sii := base + startsOff;
        if sii + 4 > end || base + importsOff > end then Err(Truncated)
        else
          var n := Field(bytes, sii, 4);
          if sii + 4 + 4 * n > end then Err(Truncated)
          else
            match ReadSegments(bytes, sii, 0, n, end, segs, |imports|, None)
            case Err(e) => Err(e)
            case Ok((segments, None)) => Err(Truncated)
            case Ok((segments, Some(f))) => Ok(Parsed(f, imports, segments, format, bytes[base + importsOff..end]))
  }

  lemma BeforeBefore(a: seq<SegmentFixups>, b: seq<SegmentFixups>, r: Segments)
    ensures Before(a, Before(b, r)) == Before(a + b, r) && Before([], r) == r
  {
    if r.Ok? {
      assert a + (b + r.value.0) == a + b + r.value.0 && [] + r.value.0 == r.value.0;
    }
  }

  /** One turn of the segment loop. */
  lemma ReadTurn(bytes: seq<byte>, sii: nat, k: nat, n: nat, end: nat, segs: seq<Segment>, imports: nat, chosen: Option<PointerFormat>,
                 out: seq<SegmentFixups>)
    requires end <= |bytes| && k < n && sii + 4 + 4 * n <= end
    ensures var off := Field(bytes, sii + 4 + 4 * k, 4);
            var rest := ReadSegments(bytes, sii, k, n, end, segs, imports, chosen);
            if off == 0 then rest == ReadSegments(bytes, sii, k + 1, n, end, segs, imports, chosen)
            else
              match WalkSegment(bytes, sii + off, k, end, segs, imports)
              case Err(e) => Before(out, rest) == Err(e)
              case Ok(walked) =>
                if chosen.Some? && chosen.value != walked.format then Before(out, rest) == Err(Truncated)
                else
                  Before(out, rest) == Before(out + [SegmentFixups(k, walked.pageSize, walked.fixups)],
                                              ReadSegments(bytes, sii, k + 1, n, end, segs, imports, Some(walked.format)))
  {
    hide WalkSegment, Before;
    BeforeError(out);
    var off := Field(bytes, sii + 4 + 4 * k, 4);
    if off != 0 {
      var walk := WalkSegment(bytes, sii + off, k, end, segs, imports);
      if walk.Ok? {
        BeforeBefore(out, [SegmentFixups(k, walk.value.pageSize, walk.value.fixups)],
                     ReadSegments(bytes, sii, k + 1, n, end, segs, imports, Some(walk.value.format)));
      }
    }
  }

  lemma BeforeError(out: seq<SegmentFixups>)
    ensures forall e :: Before(out, Err(e)) == Err(e)
  {}

  method ReadAllSegments(bytes: seq<byte>, sii: nat, n: nat, end: nat, segs: seq<Segment>, imports: nat) returns (r: Segments)
    requires end <= |bytes| && sii + 4 + 4 * n <= end
    ensures r == ReadSegments(bytes, sii, 0, n, end, segs, imports, None)
  {
    hide WalkSegment, ReadSegments, Before;
    var out: seq<SegmentFixups>, chosen: Option<PointerFormat> := [], None;
    ghost var all := ReadSegments(bytes, sii, 0, n, end, segs, imports, None);
    BeforeBefore([], [], all);
    var k := 0;
    while k < n
      invariant k <= n && all == Before(out, ReadSegments(bytes, sii, k, n, end, segs, imports, chosen))
    {
      ReadTurn(bytes, sii, k, n, end, segs, imports, chosen, out);
      var off := Field(bytes, sii + 4 + 4 * k, 4);
      if off != 0 {
        var walked := WalkOneSegment(bytes, sii + off, k, end, segs, imports);
        if walked.Err? {
          return Err(walked.error);
        }
        if chosen.Some? && chosen.value != walked.value.format {
          return Err(Truncated);
        }
        chosen := Some(walked.value.format);
        out := out + [SegmentFixups(k, walked.value.pageSize, walked.value.fixups)];
      }
      k := k + 1;
    }
    ReadDone(bytes, sii, n, end, segs, imports, chosen, out);
    return Ok((out, chosen));
  }

  lemma ReadDone(bytes: seq<byte>, sii: nat, n: nat, end: nat, segs: seq<Segment>, imports: nat, chosen: Option<PointerFormat>, out: seq<SegmentFixups>)
    requires end <= |bytes| && sii + 4 + 4 * n <= end
    ensures Before(out, ReadSegments(bytes, sii, n, n, end, segs, imports, chosen)) == Ok((out, chosen))
  {
    assert out + [] == out;
  }

  method ReadTables(bytes: seq<byte>, base: nat, size: nat, segs: seq<Segment>) returns (r: Result<Parsed, FixupError>)
    ensures r == ReadBlob(bytes, base, size, segs)
  {
    hide ReadSegments, DecodeImports;
    var end := base + size;
    if end > |bytes| || size < FIXUPS_HEADER_SIZE || Field(bytes, base, 4) != 0 {
      return Err(Truncated);
    }
    var startsOff, importsOff, symbolsOff := Field(bytes, base + 4, 4), Field(bytes, base + 8, 4), Field(bytes, base + 12, 4);
    var count, format := Field(bytes, base + 16, 4), Field(bytes, base + 20, 4);
    var imports := DecodeImportsLoop(bytes, base + importsOff, base + symbolsOff, count, format, end);
    if imports.Err? {
      return Err(imports.error);
    }
    var sii := base + startsOff;
    if sii + 4 > end || base + importsOff > end || sii + 4 + 4 * Field(bytes, sii, 4) > end {
      return Err(Truncated);
    }
    var segments := ReadAllSegments(bytes, sii, Field(bytes, sii, 4), end, segs, |imports.value|);
    if segments.Err? {
      return Err(segments.error);
    }
    if segments.value.1.None? {
      return Err(Truncated);
    }
    return Ok(Parsed(segments.value.1.value, imports.value, segments.value.0, format, bytes[base + importsOff..end]));
  }

  // ----- a segment's payload --------------------------------------------

  /** What `build_starts_in_segment` emits for the sorted fixups of a segment. */
  ghost function SegmentPayload(fs: seq<Fixup>, ps: nat, seg: Segment, f: PointerFormat): seq<byte>
    requires ps > 0 && InSegment(fs, seg) && Paged(fs, Pages(fs, seg, ps), seg, ps)
  {
    StartsPayload(f, ps, seg.fileoff, if fs == [] then [] else PageStarts(fs, Pages(fs, seg, ps), seg, ps))
  }

  /** Segment `sf` is laid out in the image: its slots are written and its payload stands at `at`. */
  ghost predicate Laid(bytes: seq<byte>, at: nat, end: nat, sf: SegmentFixups, segs: seq<Segment>, f: PointerFormat, imports: nat) {
    && sf.segmentIndex < |segs| && end <= |bytes| && 0 < sf.pageSize < U16_LIMIT
    && var seg, fs, ps := segs[sf.segmentIndex], Sorted(sf), sf.pageSize;
       && PageCount(seg, ps) < U16_LIMIT && InSegment(fs, seg)
       && WellPlaced(fs, Pages(fs, seg, ps), seg, ps, f, imports)
       && SlotsWritten(bytes, fs, Pages(fs, seg, ps), seg, f)
       && HasAt(bytes, at, SegmentPayload(fs, ps, seg, f)) && at + |SegmentPayload(fs, ps, seg, f)| <= end
  }

  lemma LaidWalks(bytes: seq<byte>, at: nat, end: nat, sf: SegmentFixups, segs: seq<Segment>, f: PointerFormat, imports: nat)
    requires Laid(bytes, at, end, sf, segs, f, imports)
    ensures WalkSegment(bytes, at, sf.segmentIndex, end, segs, imports) == Ok(Walked(f, sf.pageSize, Sorted(sf)))
  {
    var seg, fs, ps := segs[sf.segmentIndex], Sorted(sf), sf.pageSize;
    if fs != [] {
      SegmentRoundTrip(bytes, at, sf.segmentIndex, end, segs, imports, fs, ps, f);
    } else {
      EmptyWalks(bytes, at, sf.segmentIndex, end, segs, imports, ps, f);
    }
  }

  /** A payload without page starts yields no fixup. */
  lemma EmptyWalks(bytes: seq<byte>, at: nat, k: nat, end: nat, segs: seq<Segment>, imports: nat, ps: nat, f: PointerFormat)
    requires k < |segs| && end <= |bytes| && ps < U16_LIMIT
    requires HasAt(bytes, at, StartsPayload(f, ps, segs[k].fileoff, [])) && at + |StartsPayload(f, ps, segs[k].fileoff, [])| <= end
    ensures WalkSegment(bytes, at, k, end, segs, imports) == Ok(Walked(f, ps, []))
  {
    HasAtSplit(bytes, at, StartsHeader(f, ps, segs[k].fileoff, 0), StartsBytes([]));
    HeaderFields(bytes, at, f, ps, segs[k].fileoff, 0);
    FromRawOfToRaw(f);
  }

  // ----- reading the segments back --------------------------------------

  ghost predicate Ascending(sfs: seq<SegmentFixups>) {
    forall i, j :: 0 <= i < j < |sfs| ==> sfs[i].segmentIndex < sfs[j].segmentIndex
  }

  /** The offset table: 0 for a segment without fixups, else the place of its payload. */
  ghost predicate OffsetsLead(bytes: seq<byte>, sii: nat, n: nat, end: nat, sfs: seq<SegmentFixups>, segs: seq<Segment>, f: PointerFormat, imports: nat)
    requires sii + 4 + 4 * n <= |bytes|
  {
    && (forall i :: 0 <= i < |sfs| ==> sfs[i].segmentIndex < n && Leads(bytes, sii, end, sfs[i], segs, f, imports))
    && forall k :: 0 <= k < n && (forall i :: 0 <= i < |sfs| ==> sfs[i].segmentIndex != k) ==> Field(bytes, sii + 4 + 4 * k, 4) == 0
  }

  ghost predicate Leads(bytes: seq<byte>, sii: nat, end: nat, sf: SegmentFixups, segs: seq<Segment>, f: PointerFormat, imports: nat) {
    && sii + 4 + 4 * sf.segmentIndex + 4 <= |bytes|
    && var off := Field(bytes, sii + 4 + 4 * sf.segmentIndex, 4);
       off != 0 && Laid(bytes, sii + off, end, sf, segs, f, imports)
  }

  function AllSorted(sfs: seq<SegmentFixups>): (r: seq<SegmentFixups>)
    ensures |r| == |sfs|
  {
    if sfs == [] then [] else [sfs[0].(fixups := Sorted(sfs[0]))] + AllSorted(sfs[1..])
  }

  lemma ReadNothing(bytes: seq<byte>, sii: nat, k: nat, n: nat, end: nat, segs: seq<Segment>, imports: nat, chosen: Option<PointerFormat>)
    requires end <= |bytes| && k < n && sii + 4 + 4 * n <= end && Field(bytes, sii + 4 + 4 * k, 4) == 0
    ensures ReadSegments(bytes, sii, k, n, end, segs, imports, chosen) == ReadSegments(bytes, sii, k + 1, n, end, segs, imports, chosen)
  {
    hide WalkSegment;
  }

  lemma ReadOne(bytes: seq<byte>, sii: nat, k: nat, n: nat, end: nat, segs: seq<Segment>, imports: nat, chosen: Option<PointerFormat>, walked: Walked)
    requires end <= |bytes| && k < n && sii + 4 + 4 * n <= end && Field(bytes, sii + 4 + 4 * k, 4) != 0
    requires WalkSegment(bytes, sii + Field(bytes, sii + 4 + 4 * k, 4), k, end, segs, imports) == Ok(walked)
    requires chosen.Some? ==> chosen.value == walked.format
    ensures ReadSegments(bytes, sii, k, n, end, segs, imports, chosen)
            == Before([SegmentFixups(k, walked.pageSize, walked.fixups)],
                      ReadSegments(bytes, sii, k + 1, n, end, segs, imports, Some(walked.format)))
  {
    hide WalkSegment;
  }

  lemma ReadEnd(bytes: seq<byte>, sii: nat, n: nat, end: nat, segs: seq<Segment>, imports: nat, chosen: Option<PointerFormat>)
    requires end <= |bytes| && sii + 4 + 4 * n <= end
    ensures ReadSegments(bytes, sii, n, n, end, segs, imports, chosen) == Ok(([], chosen))
  {
    hide WalkSegment;
  }

  /** A listed segment is read back sorted. */
  lemma ReadListed(bytes: seq<byte>, sii: nat, n: nat, end: nat, segs: seq<Segment>, imports: nat, chosen: Option<PointerFormat>,
                   sf: SegmentFixups, f: PointerFormat)
    requires end <= |bytes| && sf.segmentIndex < n && sii + 4 + 4 * n <= end
    requires Leads(bytes, sii, end, sf, segs, f, imports) && (chosen.Some? ==> chosen.value == f)
    ensures ReadSegments(bytes, sii, sf.segmentIndex, n, end, segs, imports, chosen)
            == Before([sf.(fixups := Sorted(sf))], ReadSegments(bytes, sii, sf.segmentIndex + 1, n, end, segs, imports, Some(f)))
  {
    hide WalkSegment, Laid, ReadSegments;
    var off := Field(bytes, sii + 4 + 4 * sf.segmentIndex, 4);
    LaidWalks(bytes, sii + off, end, sf, segs, f, imports);
    ReadOne(bytes, sii, sf.segmentIndex, n, end, segs, imports, chosen, Walked(f, sf.pageSize, Sorted(sf)));
  }

  /** The listed segments from `j` on are the ones at index `k` and after. */
  ghost predicate Reached(sfs: seq<SegmentFixups>, j: nat, k: nat) {
    && j <= |sfs| && Ascending(sfs)
    && (forall i :: 0 <= i < j ==> sfs[i].segmentIndex < k) && (forall i :: j <= i < |sfs| ==> k <= sfs[i].segmentIndex)
  }

  lemma ReachedStep(sfs: seq<SegmentFixups>, j: nat, k: nat)
    requires Reached(sfs, j, k)
    ensures j < |sfs| && sfs[j].segmentIndex == k ==> Reached(sfs, j + 1, k + 1)
    ensures !(j < |sfs| && sfs[j].segmentIndex == k) ==> Reached(sfs, j, k + 1) && forall i :: 0 <= i < |sfs| ==> sfs[i].segmentIndex != k
  {}

  lemma BeforeSorted(sfs: seq<SegmentFixups>, j: nat, r: Segments, chosen: Option<PointerFormat>)
    requires j < |sfs| && r == Ok((AllSorted(sfs[j + 1..]), chosen))
    ensures Before([sfs[j].(fixups := Sorted(sfs[j]))], r) == Ok((AllSorted(sfs[j..]), chosen))
  {
    hide Sorted;
    assert sfs[j..][1..] == sfs[j + 1..];
  }

  /** From index `k` the reader finds the listed segments from `j` on. */
  lemma {:induction false} SegmentsRead(bytes: seq<byte>, sii: nat, k: nat, n: nat, end: nat, segs: seq<Segment>, imports: nat, chosen: Option<PointerFormat>,
                                        sfs: seq<SegmentFixups>, j: nat, f: PointerFormat)
    requires end <= |bytes| && k <= n && sii + 4 + 4 * n <= end && Reached(sfs, j, k)
    requires OffsetsLead(bytes, sii, n, end, sfs, segs, f, imports) && (chosen.Some? ==> chosen.value == f)
    ensures ReadSegments(bytes, sii, k, n, end, segs, imports, chosen)
            == Ok((AllSorted(sfs[j..]), if j < |sfs| then Some(f) else chosen))
    decreases n - k
  {
    hide WalkSegment, Leads, ReadSegments, Before, Sorted, AllSorted;
    if k == n {
      assert j == |sfs|;
      ReadEnd(bytes, sii, n, end, segs, imports, chosen);
      NoneSorted(sfs);
    } else {
      ReachedStep(sfs, j, k);
      if j < |sfs| && sfs[j].segmentIndex == k {
        ReadListed(bytes, sii, n, end, segs, imports, chosen, sfs[j], f);
        SegmentsRead(bytes, sii, k + 1, n, end, segs, imports, Some(f), sfs, j + 1, f);
        BeforeSorted(sfs, j, ReadSegments(bytes, sii, k + 1, n, end, segs, imports, Some(f)), Some(f));
      } else {
        ReadNothing(bytes, sii, k, n, end, segs, imports, chosen);
        SegmentsRead(bytes, sii, k + 1, n, end, segs, imports, chosen, sfs, j, f);
      }
    }
  }

  lemma NoneSorted(sfs: seq<SegmentFixups>)
    ensures AllSorted(sfs[|sfs|..]) == []
  {}
}
