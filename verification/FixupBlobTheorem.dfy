/** A serialized chained-fixups blob reads back to what was serialized. */
module FixupBlobTheorem {
  import opened Bytes
  import opened FixupBlob
  import opened FixupBlobRead
  import opened FixupCodec
  import opened FixupChains
  import opened FixupWriter
  import opened FixupImage
  import opened ImportPool
  import opened MachOLayout

  // ----- finding the pieces ---------------------------------------------

  lemma WordReads(bytes: seq<byte>, at: nat, ws: seq<nat>, k: nat)
    requires HasAt(bytes, at, Words(ws)) && k < |ws| && ws[k] < U32_LIMIT
    ensures at + 4 * k + 4 <= |bytes| && Field(bytes, at + 4 * k, 4) == ws[k]
  {
    hide *;
    WordStands(bytes, at, ws, k);
    WordField(bytes, at + 4 * k, ws[k]);
  }

  lemma WordField(bytes: seq<byte>, at: nat, v: nat)
    requires HasAt(bytes, at, Le(v, 4)) && v < U32_LIMIT
    ensures at + 4 <= |bytes| && Field(bytes, at, 4) == v
  {
    Pow256Values();
    hide Field, Le, Pow256;
    FieldOf(bytes, at, v, 4);
  }

  /** An offset is 0 without a payload and otherwise leads to it, between `lo` and `hi`. */
  ghost predicate LeadsTo(bytes: seq<byte>, at: nat, off: nat, payload: Option<seq<byte>>, lo: nat, hi: nat) {
    if payload.None? then off == 0
    else lo <= off && off + |payload.value| <= hi && HasAt(bytes, at + off, payload.value)
  }

  lemma FirstLeads(bytes: seq<byte>, at: nat, cursor: nat, payloads: seq<Option<seq<byte>>>)
    requires payloads != [] && HasAt(bytes, at + cursor, FirstPayload(payloads))
    ensures LeadsTo(bytes, at, PayloadOffsets(payloads, cursor)[0], payloads[0], cursor, cursor + |FirstPayload(payloads)|)
  {
    if payloads[0].Some? {
      var p := payloads[0].value;
      HasAtSplit(bytes, at + cursor, p, Zeros(Pad4(|p|) - |p|));
    }
  }

  lemma LaterOffset(payloads: seq<Option<seq<byte>>>, cursor: nat, k: nat)
    requires 0 < k < |payloads|
    ensures PayloadOffsets(payloads, cursor)[k] == PayloadOffsets(payloads[1..], cursor + |FirstPayload(payloads)|)[k - 1]
    ensures |PayloadBytes(payloads)| == |FirstPayload(payloads)| + |PayloadBytes(payloads[1..])|
  {
    hide Zeros;
  }

  lemma {:induction false} OffsetLeads(bytes: seq<byte>, at: nat, cursor: nat, payloads: seq<Option<seq<byte>>>, k: nat)
    requires HasAt(bytes, at + cursor, PayloadBytes(payloads)) && k < |payloads|
    ensures LeadsTo(bytes, at, PayloadOffsets(payloads, cursor)[k], payloads[k], cursor, cursor + |PayloadBytes(payloads)|)
    decreases |payloads|
  {
    hide PayloadOffsets, FirstPayload;
    var first := FirstPayload(payloads);
    SplitFirst(bytes, at + cursor, payloads);
    if k > 0 {
      OffsetLeads(bytes, at, cursor + |first|, payloads[1..], k - 1);
      LaterOffset(payloads, cursor, k);
    } else {
      FirstLeads(bytes, at, cursor, payloads);
    }
  }

  lemma SplitFirst(bytes: seq<byte>, at: nat, payloads: seq<Option<seq<byte>>>)
    requires payloads != [] && HasAt(bytes, at, PayloadBytes(payloads))
    ensures HasAt(bytes, at, FirstPayload(payloads)) && HasAt(bytes, at + |FirstPayload(payloads)|, PayloadBytes(payloads[1..]))
    ensures |PayloadBytes(payloads)| == |FirstPayload(payloads)| + |PayloadBytes(payloads[1..])|
  {
    hide FirstPayload, PayloadBytes, HasAt;
    FirstThenRest(payloads);
    HasAtSplit(bytes, at, FirstPayload(payloads), PayloadBytes(payloads[1..]));
  }

  lemma FirstThenRest(payloads: seq<Option<seq<byte>>>)
    requires payloads != []
    ensures PayloadBytes(payloads) == FirstPayload(payloads) + PayloadBytes(payloads[1..])
  {
    hide FirstPayload;
  }

  /** The blob's parts, once the header has said where they are. */
  ghost predicate Parts(bytes: seq<byte>, base: nat, payloads: seq<Option<seq<byte>>>, count: nat, tableSize: nat, format: nat, imports: seq<byte>) {
    var starts := StartsInImage(payloads);
    var importsOff := FIXUPS_HEADER_SIZE + |starts|;
    && HasAt(bytes, base, BlobHeader(importsOff, importsOff + tableSize, count, format))
    && HasAt(bytes, base + FIXUPS_HEADER_SIZE, starts)
    && HasAt(bytes, base + importsOff, WithPadding(importsOff, imports))
  }

  function WithPadding(importsOff: nat, imports: seq<byte>): seq<byte> {
    imports + Zeros(Pad8(importsOff + |imports|) - (importsOff + |imports|))
  }

  lemma BlobParts(bytes: seq<byte>, base: nat, payloads: seq<Option<seq<byte>>>, count: nat, tableSize: nat, format: nat, imports: seq<byte>)
    requires HasAt(bytes, base, Blob(payloads, count, tableSize, format, imports))
    ensures Parts(bytes, base, payloads, count, tableSize, format, imports)
    ensures var importsOff := FIXUPS_HEADER_SIZE + |StartsInImage(payloads)|;
            && base + |Blob(payloads, count, tableSize, format, imports)| == base + importsOff + |WithPadding(importsOff, imports)|
            && importsOff + |imports| <= |Blob(payloads, count, tableSize, format, imports)|
  {
    hide StartsInImage, BlobHeader, Zeros;
    var starts := StartsInImage(payloads);
    var importsOff := FIXUPS_HEADER_SIZE + |starts|;
    var header := BlobHeader(importsOff, importsOff + tableSize, count, format);
    var pad := Zeros(Pad8(importsOff + |imports|) - (importsOff + |imports|));
    assert header + starts + imports + pad == header + (starts + (imports + pad));
    HasAtSplit(bytes, base, header, starts + (imports + pad));
    HasAtSplit(bytes, base + FIXUPS_HEADER_SIZE, starts, imports + pad);
  }

  // ----- the header -----------------------------------------------------

  lemma HeaderReads(bytes: seq<byte>, base: nat, importsOff: nat, symbolsOff: nat, count: nat, format: nat)
    requires HasAt(bytes, base, BlobHeader(importsOff, symbolsOff, count, format))
    requires importsOff < U32_LIMIT && symbolsOff < U32_LIMIT && count < U32_LIMIT && format < U32_LIMIT
    ensures base + 32 <= |bytes| && Field(bytes, base, 4) == 0 && Field(bytes, base + 4, 4) == FIXUPS_HEADER_SIZE
    ensures Field(bytes, base + 8, 4) == importsOff && Field(bytes, base + 12, 4) == symbolsOff
    ensures Field(bytes, base + 16, 4) == count && Field(bytes, base + 20, 4) == format
  {
    hide Words, Field;
    var ws: seq<nat> := [0, FIXUPS_HEADER_SIZE, importsOff, symbolsOff, count, format, 0, 0];
    WordReads(bytes, base, ws, 0);
    WordReads(bytes, base, ws, 1);
    WordReads(bytes, base, ws, 2);
    WordReads(bytes, base, ws, 3);
    WordReads(bytes, base, ws, 4);
    WordReads(bytes, base, ws, 5);
  }

  // ----- the segments ---------------------------------------------------

  /** What is demanded of a listed segment: placed, fitting, and with its slots written. */
  ghost predicate Written(bytes: seq<byte>, end: nat, sf: SegmentFixups, segs: seq<Segment>, f: PointerFormat, imports: nat) {
    && sf.segmentIndex < |segs| && end <= |bytes| && 0 < sf.pageSize < U16_LIMIT
    && var seg, fs, ps := segs[sf.segmentIndex], Sorted(sf), sf.pageSize;
       && PageCount(seg, ps) < U16_LIMIT && InSegment(fs, seg)
       && WellPlaced(fs, Pages(fs, seg, ps), seg, ps, f, imports)
       && SlotsWritten(bytes, fs, Pages(fs, seg, ps), seg, f)
  }

  ghost predicate HasPayload(sf: SegmentFixups, segs: seq<Segment>, f: PointerFormat, payload: seq<byte>) {
    && sf.segmentIndex < |segs| && sf.pageSize > 0
    && var seg, fs, ps := segs[sf.segmentIndex], Sorted(sf), sf.pageSize;
       InSegment(fs, seg) && Paged(fs, Pages(fs, seg, ps), seg, ps) && payload == SegmentPayload(fs, ps, seg, f)
  }

  /** No later entry names the same segment. */
  ghost predicate LastListed(sfs: seq<SegmentFixups>, i: nat)
    requires i < |sfs|
  {
    forall j :: i < j < |sfs| ==> sfs[j].segmentIndex != sfs[i].segmentIndex
  }

  /** At each segment's index stands the payload of the last entry that names it. */
  ghost predicate PayloadsOf(payloads: seq<Option<seq<byte>>>, sfs: seq<SegmentFixups>, segs: seq<Segment>, f: PointerFormat) {
    && |payloads| == |segs|
    && (forall i :: 0 <= i < |sfs| && LastListed(sfs, i) ==> PayloadOf(payloads, sfs[i], segs, f))
    && forall k :: 0 <= k < |payloads| && (forall i :: 0 <= i < |sfs| ==> sfs[i].segmentIndex != k) ==> payloads[k].None?
  }

  ghost predicate PayloadOf(payloads: seq<Option<seq<byte>>>, sf: SegmentFixups, segs: seq<Segment>, f: PointerFormat) {
    sf.segmentIndex < |payloads| && payloads[sf.segmentIndex].Some? && HasPayload(sf, segs, f, payloads[sf.segmentIndex].value)
  }

  lemma SplitStarts(bytes: seq<byte>, sii: nat, payloads: seq<Option<seq<byte>>>)
    requires HasAt(bytes, sii, StartsInImage(payloads))
    ensures |StartsInImage(payloads)| == 4 + 4 * |payloads| + |PayloadBytes(payloads)| && sii + |StartsInImage(payloads)| <= |bytes|
    ensures HasAt(bytes, sii, Le(|payloads|, 4)) && HasAt(bytes, sii + 4, Words(PayloadOffsets(payloads, 4 + 4 * |payloads|)))
    ensures HasAt(bytes, sii + 4 + 4 * |payloads|, PayloadBytes(payloads))
  {
    hide Words, PayloadOffsets, PayloadBytes;
    var offsets, rest := PayloadOffsets(payloads, 4 + 4 * |payloads|), PayloadBytes(payloads);
    var count := Le(|payloads|, 4);
    assert count + Words(offsets) + rest == count + (Words(offsets) + rest);
    HasAtSplit(bytes, sii, count, Words(offsets) + rest);
    HasAtSplit(bytes, sii + 4, Words(offsets), rest);
  }

  /** starts_in_image at `sii` gives the count of segments. */
  lemma CountReads(bytes: seq<byte>, sii: nat, payloads: seq<Option<seq<byte>>>)
    requires HasAt(bytes, sii, StartsInImage(payloads)) && |StartsInImage(payloads)| < U32_LIMIT
    ensures |StartsInImage(payloads)| == 4 + 4 * |payloads| + |PayloadBytes(payloads)| && sii + |StartsInImage(payloads)| <= |bytes|
    ensures Field(bytes, sii, 4) == |payloads|
  {
    hide StartsInImage, Words, PayloadOffsets, PayloadBytes;
    SplitStarts(bytes, sii, payloads);
    U32ReadsBack(|payloads|);
  }

  /** Offset `k` of starts_in_image leads to payload `k`. */
  lemma StartsRead(bytes: seq<byte>, sii: nat, payloads: seq<Option<seq<byte>>>, k: nat)
    requires HasAt(bytes, sii, StartsInImage(payloads)) && |StartsInImage(payloads)| < U32_LIMIT && k < |payloads|
    ensures |StartsInImage(payloads)| == 4 + 4 * |payloads| + |PayloadBytes(payloads)| && sii + |StartsInImage(payloads)| <= |bytes|
    ensures LeadsTo(bytes, sii, Field(bytes, sii + 4 + 4 * k, 4), payloads[k], 4, |StartsInImage(payloads)|)
  {
    hide StartsInImage, Words, PayloadOffsets, PayloadBytes, Field, HasAt;
    SplitStarts(bytes, sii, payloads);
    OffsetLeads(bytes, sii, 4 + 4 * |payloads|, payloads, k);
    WordReads(bytes, sii + 4, PayloadOffsets(payloads, 4 + 4 * |payloads|), k);
  }

  lemma PayloadIsLaid(bytes: seq<byte>, at: nat, end: nat, sf: SegmentFixups, segs: seq<Segment>, f: PointerFormat, imports: nat, payload: seq<byte>)
    requires Written(bytes, end, sf, segs, f, imports) && HasPayload(sf, segs, f, payload)
    requires HasAt(bytes, at, payload) && at + |payload| <= end
    ensures Laid(bytes, at, end, sf, segs, f, imports)
  {
    hide WellPlaced, SlotsWritten, StartsPayload, InSegment, Paged, Sorted;
  }

  /** The offset table leads the reader to every listed segment and to nothing else. */
  lemma TableLeads(bytes: seq<byte>, sii: nat, end: nat, payloads: seq<Option<seq<byte>>>, sfs: seq<SegmentFixups>, segs: seq<Segment>, f: PointerFormat, imports: nat)
    requires HasAt(bytes, sii, StartsInImage(payloads)) && |StartsInImage(payloads)| < U32_LIMIT && sii + |StartsInImage(payloads)| <= end
    requires PayloadsOf(payloads, sfs, segs, f) && Ascending(sfs) && forall i :: 0 <= i < |sfs| ==> Written(bytes, end, sfs[i], segs, f, imports)
    ensures sii + 4 + 4 * |segs| <= end && sii + 4 + 4 * |segs| <= |bytes|
    ensures OffsetsLead(bytes, sii, |segs|, end, sfs, segs, f, imports)
  {
    hide Written, Laid, HasPayload, StartsInImage, Field, HasAt;
    CountReads(bytes, sii, payloads);
    forall i | 0 <= i < |sfs| ensures sfs[i].segmentIndex < |segs| && Leads(bytes, sii, end, sfs[i], segs, f, imports) {
      var k := sfs[i].segmentIndex;
      assert LastListed(sfs, i) && PayloadOf(payloads, sfs[i], segs, f);
      StartsRead(bytes, sii, payloads, k);
      PayloadIsLaid(bytes, sii + Field(bytes, sii + 4 + 4 * k, 4), end, sfs[i], segs, f, imports, payloads[k].value);
    }
    forall k | 0 <= k < |segs| && (forall i :: 0 <= i < |sfs| ==> sfs[i].segmentIndex != k) ensures Field(bytes, sii + 4 + 4 * k, 4) == 0 {
      StartsRead(bytes, sii, payloads, k);
    }
  }

  // ----- the whole blob -------------------------------------------------

  lemma {:induction false} DecodedCount(bytes: seq<byte>, e: nat, pool: nat, count: nat, format: nat, end: nat)
    requires e + count * EntrySize(format) <= end <= |bytes| && pool <= end
    ensures var r := DecodeFrom(bytes, e, pool, count, format, end);
            r.Ok? ==> |r.value| == count
    decreases count
  {
    hide EntrySize, ReadImport;
    if count > 0 {
      EntryStep(count, EntrySize(format));
      DecodedCount(bytes, e + EntrySize(format), pool, count - 1, format, end);
    }
  }

  lemma {:induction false} WrappedCount(imports: seq<ChainedImport>)
    ensures |Wrapped(imports)| == |imports|
  {
    if imports != [] {
      WrappedCount(imports[1..]);
    }
  }

  /** The reader returns as many imports as the header counts. */
  lemma ReadCount(bytes: seq<byte>, base: nat, size: nat, segs: seq<Segment>)
    ensures var r := ReadBlob(bytes, base, size, segs);
            r.Ok? ==> base + 20 <= |bytes| && |r.value.imports| == Field(bytes, base + 16, 4)
  {
    hide ReadSegments, EntrySize, DecodeFrom;
    var end := base + size;
    if end <= |bytes| && size >= FIXUPS_HEADER_SIZE {
      var table, pool := base + Field(bytes, base + 8, 4), base + Field(bytes, base + 12, 4);
      var count, format := Field(bytes, base + 16, 4), Field(bytes, base + 20, 4);
      if table + count * EntrySize(format) <= end && pool <= end {
        DecodedCount(bytes, table, pool, count, format, end);
      }
    }
  }

  /** With its header, imports and segments as given, a blob reads to them. */
  lemma ReadSteps(bytes: seq<byte>, base: nat, size: nat, segs: seq<Segment>, importsOff: nat, symbolsOff: nat, count: nat, format: nat,
                  imports: seq<ChainedImport>, segments: seq<SegmentFixups>, f: PointerFormat)
    requires base + size <= |bytes| && size >= FIXUPS_HEADER_SIZE
    requires Field(bytes, base, 4) == 0 && Field(bytes, base + 4, 4) == FIXUPS_HEADER_SIZE && Field(bytes, base + 8, 4) == importsOff
    requires Field(bytes, base + 12, 4) == symbolsOff && Field(bytes, base + 16, 4) == count && Field(bytes, base + 20, 4) == format
    requires base + importsOff <= base + size && DecodeImports(bytes, base + importsOff, base + symbolsOff, count, format, base + size) == Ok(imports)
    requires var sii := base + FIXUPS_HEADER_SIZE;
             && sii + 4 <= base + size && sii + 4 + 4 * Field(bytes, sii, 4) <= base + size
             && ReadSegments(bytes, sii, 0, Field(bytes, sii, 4), base + size, segs, |imports|, None) == Ok((segments, Some(f)))
    ensures ReadBlob(bytes, base, size, segs) == Ok(Parsed(f, imports, segments, format, bytes[base + importsOff..base + size]))
  {
    hide ReadSegments, DecodeImports, Field;
  }

  /** What was serialized: listed segments that fit their chains and are written, and
      imports that fit their table. */
  ghost predicate Serializable(bytes: seq<byte>, end: nat, sfs: seq<SegmentFixups>, segs: seq<Segment>, f: PointerFormat,
                               imports: seq<ChainedImport>, offsets: seq<nat>, pool: seq<byte>, format: nat)
  {
    && sfs != [] && Ascending(sfs) && (forall i :: 0 <= i < |sfs| ==> Written(bytes, end, sfs[i], segs, f, |imports|))
    && KnownFormat(format) && Pooled(pool, offsets, imports) && Importable(imports, offsets, format)
  }

  lemma SegmentsPart(bytes: seq<byte>, base: nat, end: nat, payloads: seq<Option<seq<byte>>>, sfs: seq<SegmentFixups>, segs: seq<Segment>,
                     f: PointerFormat, imports: nat)
    requires sfs != [] && Ascending(sfs) && forall i :: 0 <= i < |sfs| ==> Written(bytes, end, sfs[i], segs, f, imports)
    requires PayloadsOf(payloads, sfs, segs, f)
    requires HasAt(bytes, base + FIXUPS_HEADER_SIZE, StartsInImage(payloads)) && |StartsInImage(payloads)| < U32_LIMIT
    requires base + FIXUPS_HEADER_SIZE + |StartsInImage(payloads)| <= end
    ensures end <= |bytes|
    ensures var sii := base + FIXUPS_HEADER_SIZE;
            && sii + 4 <= end && Field(bytes, sii, 4) == |segs| && sii + 4 + 4 * |segs| <= end
            && ReadSegments(bytes, sii, 0, |segs|, end, segs, imports, None) == Ok((AllSorted(sfs), Some(f)))
  {
    hide OffsetsLead, StartsInImage, AllSorted, ReadSegments, Field;
    var sii := base + FIXUPS_HEADER_SIZE;
    assert Written(bytes, end, sfs[0], segs, f, imports);
    CountReads(bytes, sii, payloads);
    TableLeads(bytes, sii, end, payloads, sfs, segs, f, imports);
    SegmentsRead(bytes, sii, 0, |segs|, end, segs, imports, None, sfs, 0, f);
    assert sfs[0..] == sfs;
  }

  lemma ImportsPart(bytes: seq<byte>, at: nat, end: nat, imports: seq<ChainedImport>, offsets: seq<nat>, pool: seq<byte>, format: nat, importsOff: nat)
    requires KnownFormat(format) && Pooled(pool, offsets, imports) && Importable(imports, offsets, format)
    requires HasAt(bytes, at, WithPadding(importsOff, TableFrom(imports, offsets, format, 0) + pool))
    requires at + |WithPadding(importsOff, TableFrom(imports, offsets, format, 0) + pool)| <= end <= |bytes|
    ensures DecodeImports(bytes, at, at + |imports| * EntrySize(format), |imports|, format, end) == Ok(Wrapped(imports))
  {
    hide DecodeImports, Zeros, Importable, EntrySize;
    var blob := TableFrom(imports, offsets, format, 0) + pool;
    HasAtSplit(bytes, at, blob, Zeros(Pad8(importsOff + |blob|) - (importsOff + |blob|)));
    ImportsDecode(bytes, at, end, imports, format, offsets, pool);
  }

  /** Table and pool, one behind the other from `at`, decode to `imports`. */
  ghost predicate TableDecodes(bytes: seq<byte>, at: nat, imports: seq<ChainedImport>, format: nat, end: nat) {
    end <= |bytes| && DecodeImports(bytes, at, at + |imports| * EntrySize(format), |imports|, format, end) == Ok(imports)
  }

  function ImportsOffset(payloads: seq<Option<seq<byte>>>): nat { FIXUPS_HEADER_SIZE + |StartsInImage(payloads)| }

  /** A blob in `size` bytes of the image, with its slots, reads back to given imports and the
      sorted fixups exactly when the recount equals their number, provided its table then
      decodes to them. */
  lemma BlobReads(bytes: seq<byte>, base: nat, size: nat, payloads: seq<Option<seq<byte>>>, sfs: seq<SegmentFixups>, segs: seq<Segment>,
                  f: PointerFormat, table: seq<byte>, format: nat, imports: seq<ChainedImport>)
    requires PayloadsOf(payloads, sfs, segs, f) && sfs != [] && Ascending(sfs) && KnownFormat(format) && base + size <= |bytes|
    requires var blob := SerializedBlob(payloads, format, table);
             && HasAt(bytes, base, blob) && |blob| < U32_LIMIT && |blob| <= size
             && (forall i :: 0 <= i < |sfs| ==> Written(bytes, base + size, sfs[i], segs, f, |imports|))
             && (Measure(table, format) == |imports| ==> TableDecodes(bytes, base + ImportsOffset(payloads), imports, format, base + size))
    ensures ImportsOffset(payloads) <= size
    ensures ReadBlob(bytes, base, size, segs)
              == Ok(Parsed(f, imports, AllSorted(sfs), format, bytes[base + ImportsOffset(payloads)..base + size]))
            <==> Measure(table, format) == |imports|
  {
    hide Written, StartsInImage, Blob, ReadBlob, AllSorted, Measure, PayloadsOf, EntrySize, WithPadding, DecodeImports, ReadSegments, Field, HasAt, Ascending;
    var count := Measure(table, format);
    var importsOff := ImportsOffset(payloads);
    BlobParts(bytes, base, payloads, count, count * EntrySize(format), format, table);
    MeasureBound(table, format);
    HeaderReads(bytes, base, importsOff, importsOff + count * EntrySize(format), count, format);
    if count == |imports| {
      SegmentsPart(bytes, base, base + size, payloads, sfs, segs, f, |imports|);
      ReadSteps(bytes, base, size, segs, importsOff, importsOff + count * EntrySize(format), count, format, imports, AllSorted(sfs), f);
    } else {
      ReadCount(bytes, base, size, segs);
    }
  }

  /** Where the imports of a blob in the image stand. */
  lemma BlobImports(bytes: seq<byte>, base: nat, payloads: seq<Option<seq<byte>>>, count: nat, tableSize: nat, format: nat, table: seq<byte>)
    requires HasAt(bytes, base, Blob(payloads, count, tableSize, format, table))
    ensures var importsOff := ImportsOffset(payloads);
            && HasAt(bytes, base + importsOff, WithPadding(importsOff, table))
            && base + |Blob(payloads, count, tableSize, format, table)| == base + importsOff + |WithPadding(importsOff, table)| <= |bytes|
  {
    hide StartsInImage, Blob, WithPadding, BlobHeader;
    BlobParts(bytes, base, payloads, count, tableSize, format, table);
  }

  /** Writing the blob into `size` bytes, and the slots, and reading the image again returns the
      imports as the table keeps them and every segment's fixups in address order, exactly when
      the count heuristic finds as many imports as there are. */
  lemma BlobRoundTrip(bytes: seq<byte>, base: nat, size: nat, payloads: seq<Option<seq<byte>>>, sfs: seq<SegmentFixups>, segs: seq<Segment>,
                      f: PointerFormat, imports: seq<ChainedImport>, offsets: seq<nat>, pool: seq<byte>, format: nat)
    requires PayloadsOf(payloads, sfs, segs, f) && |offsets| == |imports| && base + size <= |bytes|
    requires var blob := SerializedBlob(payloads, format, TableFrom(imports, offsets, format, 0) + pool);
             HasAt(bytes, base, blob) && |blob| < U32_LIMIT && |blob| <= size
    requires Serializable(bytes, base + size, sfs, segs, f, imports, offsets, pool, format)
    ensures ImportsOffset(payloads) <= size
    ensures ReadBlob(bytes, base, size, segs)
              == Ok(Parsed(f, Wrapped(imports), AllSorted(sfs), format, bytes[base + ImportsOffset(payloads)..base + size]))
            <==> Measure(TableFrom(imports, offsets, format, 0) + pool, format) == |imports|
  {
    hide Written, ImportsOffset, Blob, TableFrom, ReadBlob, AllSorted, Wrapped, Measure, PayloadsOf, EntrySize, WithPadding, DecodeImports, Pooled, Importable;
    var table := TableFrom(imports, offsets, format, 0) + pool;
    var count := Measure(table, format);
    var importsOff := ImportsOffset(payloads);
    WrappedCount(imports);
    BlobImports(bytes, base, payloads, count, count * EntrySize(format), format, table);
    if count == |imports| {
      ImportsPart(bytes, base + importsOff, base + size, imports, offsets, pool, format, importsOff);
    }
    BlobReads(bytes, base, size, payloads, sfs, segs, f, table, format, Wrapped(imports));
  }

  // ----- imports replayed byte for byte ---------------------------------

  lemma SliceMoves(a: seq<byte>, x: nat, b: seq<byte>, y: nat, w: seq<byte>, i: nat, j: nat)
    requires HasAt(a, x, w) && HasAt(b, y, w) && i <= j <= |w|
    ensures a[x + i..x + j] == w[i..j] == b[y + i..y + j]
  {
    forall k | i <= k < j ensures a[x + i..x + j][k - i] == w[k] == b[y + i..y + j][k - i] {
      HasAtIndex(a, x, w, k);
      HasAtIndex(b, y, w, k);
    }
    assert |a[x + i..x + j]| == j - i && |b[y + i..y + j]| == j - i;
  }

  /** A string that ends inside a window ends at the same place wherever the window stands. */
  lemma NulMoves(a: seq<byte>, x: nat, b: seq<byte>, y: nat, w: seq<byte>, i: nat, endA: nat, endB: nat)
    requires HasAt(a, x, w) && HasAt(b, y, w) && i <= |w| && x + |w| == endA <= |a| && y + |w| <= endB <= |b|
    requires NulAt(a[..endA], x + i) < endA
    ensures NulAt(b[..endB], y + i) + x == NulAt(a[..endA], x + i) + y
  {
    var n, m := NulAt(a[..endA], x + i), NulAt(b[..endB], y + i);
    HasAtIndex(a, x, w, n - x);
    HasAtIndex(b, y, w, n - x);
    if m < y + (n - x) {
      HasAtIndex(a, x, w, m - y);
      HasAtIndex(b, y, w, m - y);
    }
  }

  lemma StringMoves(a: seq<byte>, x: nat, b: seq<byte>, y: nat, w: seq<byte>, p: nat, offset: nat, endA: nat, endB: nat)
    requires HasAt(a, x, w) && HasAt(b, y, w) && p <= |w| && x + |w| == endA <= |a| && y + |w| <= endB <= |b|
    requires PoolString(a, x + p, endA, offset).Some?
    ensures PoolString(b, y + p, endB, offset) == PoolString(a, x + p, endA, offset)
  {
    var i := p + offset;
    NulMoves(a, x, b, y, w, i, endA, endB);
    var n := NulAt(a[..endA], x + i);
    SliceMoves(a, x, b, y, w, i, n - x);
  }

  lemma EntryMoves(a: seq<byte>, x: nat, b: seq<byte>, y: nat, w: seq<byte>, e: nat, format: nat)
    requires HasAt(a, x, w) && HasAt(b, y, w) && e + EntrySize(format) <= |w|
    ensures x + e + EntrySize(format) <= |a| && y + e + EntrySize(format) <= |b|
    ensures ReadEntry(a, x + e, format) == ReadEntry(b, y + e, format)
  {
    SliceMoves(a, x, b, y, w, e, e + 4);
    if format == IMPORT_ADDEND {
      SliceMoves(a, x, b, y, w, e + 4, e + 8);
    } else if format != IMPORT {
      SliceMoves(a, x, b, y, w, e + 4, e + 8);
      SliceMoves(a, x, b, y, w, e + 8, e + 16);
    }
  }

  lemma ImportMoves(a: seq<byte>, x: nat, b: seq<byte>, y: nat, w: seq<byte>, e: nat, p: nat, format: nat, endA: nat, endB: nat)
    requires HasAt(a, x, w) && HasAt(b, y, w) && p <= |w| && x + |w| == endA <= |a| && y + |w| <= endB <= |b|
    requires e + EntrySize(format) <= |w|
    requires ReadImport(a, x + e, x + p, format, endA).Some?
    ensures ReadImport(b, y + e, y + p, format, endB) == ReadImport(a, x + e, x + p, format, endA)
  {
    hide ReadEntry, PoolString, EntrySize, HasAt;
    EntryMoves(a, x, b, y, w, e, format);
    StringMoves(a, x, b, y, w, p, ReadEntry(a, x + e, format).nameOffset, endA, endB);
  }

  /** Imports decode to the same wherever table and pool are copied together. */
  lemma {:induction false} DecodeMoves(a: seq<byte>, x: nat, b: seq<byte>, y: nat, w: seq<byte>, e: nat, p: nat, count: nat, format: nat, endA: nat, endB: nat)
    requires HasAt(a, x, w) && HasAt(b, y, w) && p <= |w| && x + |w| == endA <= |a| && y + |w| <= endB <= |b|
    requires e + count * EntrySize(format) <= |w|
    requires DecodeFrom(a, x + e, x + p, count, format, endA).Ok?
    ensures DecodeFrom(b, y + e, y + p, count, format, endB) == DecodeFrom(a, x + e, x + p, count, format, endA)
    decreases count
  {
    hide ReadImport, EntrySize, HasAt;
    if count > 0 {
      EntryStep(count, EntrySize(format));
      ImportMoves(a, x, b, y, w, e, p, format, endA, endB);
      DecodeMoves(a, x, b, y, w, e + EntrySize(format), p, count - 1, format, endA, endB);
    }
  }

  lemma KnownTable(bytes: seq<byte>, at: nat, imports: seq<ChainedImport>, format: nat, end: nat)
    requires TableDecodes(bytes, at, imports, format, end)
    ensures KnownFormat(format)
  {}

  /** A table with its pool decodes to the same in a padded copy. */
  lemma TableMoves(was: seq<byte>, at: nat, bytes: seq<byte>, y: nat, end: nat, importsOff: nat, table: seq<byte>, imports: seq<ChainedImport>, format: nat)
    requires HasAt(was, at, table) && TableDecodes(was, at, imports, format, at + |table|)
    requires HasAt(bytes, y, WithPadding(importsOff, table)) && y + |WithPadding(importsOff, table)| <= end <= |bytes|
    ensures TableDecodes(bytes, y, imports, format, end)
  {
    hide DecodeFrom, EntrySize, Zeros;
    HasAtSplit(bytes, y, table, Zeros(Pad8(importsOff + |table|) - (importsOff + |table|)));
    DecodeMoves(was, at, bytes, y, table, 0, |imports| * EntrySize(format), |imports|, format, at + |table|, end);
  }

  /** Untouched imports are replayed byte for byte. When the original file kept its pool right
      behind its table, as its header says, they read back exactly when the recount equals the
      original count. */
  lemma BlobReplays(bytes: seq<byte>, base: nat, size: nat, payloads: seq<Option<seq<byte>>>, sfs: seq<SegmentFixups>, segs: seq<Segment>,
                    f: PointerFormat, was: seq<byte>, at: nat, table: seq<byte>, format: nat, imports: seq<ChainedImport>)
    requires PayloadsOf(payloads, sfs, segs, f) && sfs != [] && Ascending(sfs) && base + size <= |bytes|
    requires HasAt(was, at, table) && TableDecodes(was, at, imports, format, at + |table|)
    requires var blob := SerializedBlob(payloads, format, table);
             && HasAt(bytes, base, blob) && |blob| < U32_LIMIT && |blob| <= size
             && forall i :: 0 <= i < |sfs| ==> Written(bytes, base + size, sfs[i], segs, f, |imports|)
    ensures ImportsOffset(payloads) <= size
    ensures ReadBlob(bytes, base, size, segs)
              == Ok(Parsed(f, imports, AllSorted(sfs), format, bytes[base + ImportsOffset(payloads)..base + size]))
            <==> Measure(table, format) == |imports|
  {
    hide Written, ImportsOffset, Blob, ReadBlob, AllSorted, Measure, PayloadsOf, EntrySize, HasAt, WithPadding, TableDecodes;
    var importsOff := ImportsOffset(payloads);
    KnownTable(was, at, imports, format, at + |table|);
    BlobImports(bytes, base, payloads, Measure(table, format), Measure(table, format) * EntrySize(format), format, table);
    TableMoves(was, at, bytes, base + importsOff, base + size, importsOff, table, imports, format);
    BlobReads(bytes, base, size, payloads, sfs, segs, f, table, format, imports);
  }

  /** What `read` keeps of a file is what a replay asks for, when the header puts the pool
      right behind the table. */
  lemma ReadKeepsImports(was: seq<byte>, base: nat, size: nat, segs: seq<Segment>, parsed: Parsed)
    requires ReadBlob(was, base, size, segs) == Ok(parsed)
    requires base + 16 <= |was| && Field(was, base + 12, 4) == Field(was, base + 8, 4) + |parsed.imports| * EntrySize(parsed.importsFormat)
    ensures var at := base + Field(was, base + 8, 4);
            && HasAt(was, at, parsed.originalImports) && at + |parsed.originalImports| == base + size
            && TableDecodes(was, at, parsed.imports, parsed.importsFormat, base + size)
  {
    hide ReadSegments, DecodeFrom, EntrySize;
    ReadCount(was, base, size, segs);
  }

  lemma {:induction false} MeasureBoundFrom(blob: seq<byte>, format: nat, e: nat, count: nat)
    requires e == count * EntrySize(format) <= |blob|
    ensures MeasureFrom(blob, format, e, count) * EntrySize(format) <= |blob| && MeasureFrom(blob, format, e, count) <= |blob|
    decreases |blob| - e
  {
    hide NameOffsetAt;
    if e + EntrySize(format) <= |blob| && e + EntrySize(format) + NameOffsetAt(blob, e, format) < |blob| {
      MeasureBoundFrom(blob, format, e + EntrySize(format), count + 1);
    }
  }

  /** The table the heuristic sees lies inside the blob. */
  lemma MeasureBound(blob: seq<byte>, format: nat)
    ensures Measure(blob, format) * EntrySize(format) <= |blob| && Measure(blob, format) <= |blob|
  {
    MeasureBoundFrom(blob, format, 0, 0);
  }
}
