/** Committing edited fixup tables: the blob and every slot are staged as overrides, and the
    patched image reads back to the tables. */
module CommitFixups {
  import opened Bytes
  import opened ChainedFixupTables
  import opened FixupBlob
  import opened FixupBlobRead
  import opened FixupBlobTheorem
  import opened FixupCodec
  import opened FixupChains
  import opened FixupWriter
  import opened FixupImage
  import opened ImportPool
  import opened MachOLayout
  import Overrides

  datatype CommitError = Refused(error: FixupError) | BlobTooLarge(newSize: nat, capacity: nat)

  /** What a commit stages: the serialized blob, zero-padded to the room it has, then the slots. */
  ghost predicate Staged(staged: seq<Slot>, slots: seq<Slot>, dataoff: nat, capacity: nat, blob: seq<byte>) {
    |blob| <= capacity && staged == [(dataoff, blob + Zeros(capacity - |blob|))] + slots
  }

  /** What the two passes over the tables established. */
  ghost predicate Validated(slots: seq<Slot>, payloads: seq<Option<seq<byte>>>, sfs: seq<SegmentFixups>, segs: seq<Segment>, f: PointerFormat, imports: nat) {
    && SlotsAre(slots, sfs, segs, f, |sfs|) && PayloadsOf(payloads, sfs, segs, f)
    && forall sf :: sf in sfs ==> Accepted(sf, segs, f, imports) && !TooFar(sf, segs, f)
  }

  /** Some slot has no segment or a word that cannot be encoded. */
  ghost predicate SlotRefused(sfs: seq<SegmentFixups>, segs: seq<Segment>, f: PointerFormat, e: FixupError) {
    exists k :: 0 <= k < |sfs| &&
      ((sfs[k].segmentIndex >= |segs| && e == FixupOutsideSegment(0, sfs[k].segmentIndex)) || SomeRefused(sfs[k].fixups, f, e))
  }

  /** Some fixup is misaligned, unhoused, unbound or out of its neighbour's reach, or the addend
      of an edited import does not fit. */
  ghost predicate TablesRefused(sfs: seq<SegmentFixups>, segs: seq<Segment>, f: PointerFormat, imports: seq<ChainedImport>, edited: bool) {
    || (exists sf :: sf in sfs && (!Accepted(sf, segs, f, |imports|) || TooFar(sf, segs, f)))
    || (edited && exists i :: 0 <= i < |imports| && !FitsI32(imports[i].addend))
  }

  /** `commit_chained_fixups_full`. */
  method CommitFull(cf: ChainedFixups, segs: seq<Segment>, dataoff: nat, capacity: nat)
    returns (r: Result<seq<Slot>, CommitError>, ghost slots: seq<Slot>, ghost format: nat, ghost payloads: seq<Option<seq<byte>>>,
             ghost table: seq<byte>, ghost offsets: seq<nat>, ghost pool: seq<byte>)
    requires KnownFormat(cf.importsFormat) && Housed(cf.segments, segs)
    ensures r.Ok? ==> Staged(r.value, slots, dataoff, capacity, SerializedBlob(payloads, format, table))
    ensures r.Ok? ==> Validated(slots, payloads, cf.segments, segs, cf.pointerFormat, |cf.imports|)
    ensures r.Ok? && cf.imports != cf.originalImports ==> Repacked(cf.imports, cf.importsFormat, format, table, offsets, pool)
    ensures r.Ok? && cf.imports == cf.originalImports ==> format == cf.importsFormat && table == cf.originalImportsBytes
    ensures r.Err? && r.error.Refused? ==>
              || SlotRefused(cf.segments, segs, cf.pointerFormat, r.error.error)
              || TablesRefused(cf.segments, segs, cf.pointerFormat, cf.imports, cf.imports != cf.originalImports)
    ensures r.Err? && r.error.BlobTooLarge? ==>
              r.error.newSize == |SerializedBlob(payloads, format, table)| > capacity == r.error.capacity
  {
    format := cf.importsFormat;
    payloads, table, offsets, pool, slots := [], [], [], [], [];
    var words := cf.SlotBytes(segs);
    if words.Err? {
      r := Err(Refused(words.error));
      return;
    }
    slots := words.value;
    var ser;
    ser, payloads, table, offsets, pool := cf.Serialize(segs);
    if ser.Err? {
      r := Err(Refused(ser.error));
      return;
    }
    var blob := ser.value.0;
    format := ser.value.1;
    if |blob| > capacity {
      r := Err(BlobTooLarge(|blob|, capacity));
      return;
    }
    r := Ok([(dataoff, blob + Zeros(capacity - |blob|))] + words.value);
  }

  // ----- the patched image ----------------------------------------------

  /** What the file format can hold: 16-bit page sizes and counts, slots in the file, and targets
      that fit their fields. */
  ghost predicate Representable(sf: SegmentFixups, segs: seq<Segment>, f: PointerFormat) {
    sf.segmentIndex < |segs| && 0 < sf.pageSize < U16_LIMIT && PageCount(segs[sf.segmentIndex], sf.pageSize) < U16_LIMIT
    && forall i :: 0 <= i < |Sorted(sf)| ==>
         FileBacked(Sorted(sf)[i], segs[sf.segmentIndex]) && FitsFormat(Sorted(sf)[i], f, segs[sf.segmentIndex].vmaddr)
  }

  lemma CommittedPlaced(sf: SegmentFixups, segs: seq<Segment>, f: PointerFormat, imports: nat)
    requires Representable(sf, segs, f) && Accepted(sf, segs, f, imports) && !TooFar(sf, segs, f)
    ensures InSegment(Sorted(sf), segs[sf.segmentIndex])
    ensures WellPlaced(Sorted(sf), Pages(Sorted(sf), segs[sf.segmentIndex], sf.pageSize), segs[sf.segmentIndex], sf.pageSize, f, imports)
  {
    var seg, fs := segs[sf.segmentIndex], Sorted(sf);
    AcceptedSorted(sf, segs, f, imports);
    PagesArePaged(fs, seg, sf.pageSize);
    hide Sorted, Pages, Paged, Aligned, GapsFit, FitsFormat;
    forall i | 0 <= i < |fs| ensures FieldsFit(fs[i], f, imports, seg) {
      SortedIsListed(sf, fs[i]);
    }
  }

  /** A committed segment is written as a reader asks for. */
  lemma CommittedWritten(bytes: seq<byte>, end: nat, slots: seq<Slot>, payloads: seq<Option<seq<byte>>>, sfs: seq<SegmentFixups>, segs: seq<Segment>,
                         f: PointerFormat, imports: nat, k: nat)
    requires Validated(slots, payloads, sfs, segs, f, imports) && k < |sfs| && Representable(sfs[k], segs, f) && end <= |bytes|
    requires forall x :: x in slots ==> HasAt(bytes, x.0, x.1)
    ensures Written(bytes, end, sfs[k], segs, f, imports)
  {
    assert sfs[k] in sfs;
    CommittedPlaced(sfs[k], segs, f, imports);
    assert AllPresent(slots, sfs[k], segs[sfs[k].segmentIndex], f);
    hide WellPlaced, AllPresent, PayloadsOf, TooFar, Sorted, Pages, PageCount, SlotsAre;
    AcceptedInSegment(sfs[k], segs, f, imports);
    PresentEncoded(bytes, slots, sfs[k], segs, f);
  }

  lemma AcceptedInSegment(sf: SegmentFixups, segs: seq<Segment>, f: PointerFormat, imports: nat)
    requires Accepted(sf, segs, f, imports)
    ensures InSegment(sf.fixups, segs[sf.segmentIndex])
  {
    forall i | 0 <= i < |sf.fixups| ensures AcceptedFixup(sf.fixups[i], segs[sf.segmentIndex], f, imports) {
      assert sf.fixups[i] in sf.fixups;
    }
  }

  /** No slot reaches into the room of the blob. */
  ghost predicate RoomClear(slots: seq<Slot>, dataoff: nat, capacity: nat) {
    forall x :: x in slots ==> dataoff + capacity <= x.0 || x.0 + |x.1| <= dataoff
  }

  lemma StagedApart(staged: seq<Slot>, slots: seq<Slot>, dataoff: nat, capacity: nat, blob: seq<byte>)
    requires Staged(staged, slots, dataoff, capacity, blob) && RoomClear(slots, dataoff, capacity)
    requires SlotsApart(slots) && forall x :: x in slots ==> |x.1| == 8
    ensures Overrides.AllApart(staged)
  {
    hide Zeros;
    forall i, j | 0 <= i < j < |staged| ensures staged[i] == staged[j] || Overrides.Apart(staged[i], staged[j]) {
      assert staged[j] == slots[j - 1] && staged[j] in slots;
      if i > 0 {
        assert staged[i] == slots[i - 1] && staged[i] in slots;
      }
    }
  }

  /** Overrides apart from one another all stand once they are applied. */
  lemma StagedStand(image: seq<byte>, staged: seq<Slot>, slots: seq<Slot>, dataoff: nat, capacity: nat, blob: seq<byte>)
    requires Staged(staged, slots, dataoff, capacity, blob) && Overrides.AllApart(staged) && Overrides.PatchAll(image, staged, 0).Ok?
    ensures var bytes := Overrides.PatchAll(image, staged, 0).value;
            && HasAt(bytes, dataoff, blob) && dataoff + capacity <= |bytes| == |image|
            && forall x :: x in slots ==> HasAt(bytes, x.0, x.1)
  {
    var bytes, room := Overrides.PatchAll(image, staged, 0).value, blob + Zeros(capacity - |blob|);
    Overrides.PatchesStand(image, staged, 0);
    assert staged[0] == (dataoff, room) && staged[0] in staged;
    hide Zeros;
    HasAtSplit(bytes, dataoff, blob, Zeros(capacity - |blob|));
    forall x | x in slots ensures x in staged {
    }
  }

  /** A commit that was applied: the slots of distinct fixups and the room of the blob are apart,
      and every override fitted the file. */
  ghost predicate Applied(image: seq<byte>, staged: seq<Slot>, slots: seq<Slot>, dataoff: nat, capacity: nat, blob: seq<byte>,
                          sfs: seq<SegmentFixups>, segs: seq<Segment>, f: PointerFormat) {
    && Staged(staged, slots, dataoff, capacity, blob) && capacity < U32_LIMIT && RoomClear(slots, dataoff, capacity)
    && FixupsApart(sfs, segs, f) && Overrides.PatchAll(image, staged, 0).Ok?
  }

  /** Tables the file format can hold, as `read` lists them. */
  ghost predicate AllRepresentable(sfs: seq<SegmentFixups>, segs: seq<Segment>, f: PointerFormat) {
    sfs != [] && Ascending(sfs) && forall k :: 0 <= k < |sfs| ==> Representable(sfs[k], segs, f)
  }

  lemma AppliedStands(image: seq<byte>, staged: seq<Slot>, slots: seq<Slot>, dataoff: nat, capacity: nat, payloads: seq<Option<seq<byte>>>,
                      blob: seq<byte>, sfs: seq<SegmentFixups>, segs: seq<Segment>, f: PointerFormat, imports: nat)
    requires Applied(image, staged, slots, dataoff, capacity, blob, sfs, segs, f)
    requires Validated(slots, payloads, sfs, segs, f, imports) && AllRepresentable(sfs, segs, f)
    ensures var bytes := Overrides.PatchAll(image, staged, 0).value;
            && HasAt(bytes, dataoff, blob) && dataoff + capacity <= |bytes| && |blob| <= capacity
            && forall k :: 0 <= k < |sfs| ==> Written(bytes, dataoff + capacity, sfs[k], segs, f, imports)
  {
    hide Written, Representable, SlotsAre, PayloadsOf, Accepted, TooFar, HasAt, FixupsApart, RoomClear;
    var bytes := Overrides.PatchAll(image, staged, 0).value;
    ApartSlots(slots, sfs, segs, f);
    SlotsAreWords(slots, sfs, segs, f);
    StagedApart(staged, slots, dataoff, capacity, blob);
    StagedStand(image, staged, slots, dataoff, capacity, blob);
    forall k | 0 <= k < |sfs| ensures Written(bytes, dataoff + capacity, sfs[k], segs, f, imports) {
      CommittedWritten(bytes, dataoff + capacity, slots, payloads, sfs, segs, f, imports, k);
    }
  }

  lemma TableInBlob(payloads: seq<Option<seq<byte>>>, format: nat, table: seq<byte>)
    ensures |table| <= |SerializedBlob(payloads, format, table)|
  {
    hide StartsInImage, BlobHeader, Zeros, Measure, EntrySize;
  }

  /** Commit edited tables, apply what was staged, and read the image again: the imports come back
      as the table keeps them and every segment's fixups in address order, exactly when the
      recount equals the number of imports. */
  lemma CommitReads(image: seq<byte>, staged: seq<Slot>, slots: seq<Slot>, dataoff: nat, capacity: nat, payloads: seq<Option<seq<byte>>>,
                    sfs: seq<SegmentFixups>, segs: seq<Segment>, f: PointerFormat, imports: seq<ChainedImport>, requested: nat,
                    format: nat, table: seq<byte>, offsets: seq<nat>, pool: seq<byte>)
    requires Applied(image, staged, slots, dataoff, capacity, SerializedBlob(payloads, format, table), sfs, segs, f)
    requires Validated(slots, payloads, sfs, segs, f, |imports|) && AllRepresentable(sfs, segs, f)
    requires KnownFormat(requested) && Repacked(imports, requested, format, table, offsets, pool)
    requires forall i :: 0 <= i < |imports| ==> PlainName(imports[i].symbol) && FitsI64(imports[i].addend)
    ensures var bytes := Overrides.PatchAll(image, staged, 0).value;
            && ImportsOffset(payloads) <= capacity && dataoff + capacity <= |bytes|
            && (ReadBlob(bytes, dataoff, capacity, segs)
                  == Ok(Parsed(f, Wrapped(imports), AllSorted(sfs), format, bytes[dataoff + ImportsOffset(payloads)..dataoff + capacity]))
                <==> Measure(table, format) == |imports|)
  {
    AppliedRoom(image, staged, slots, dataoff, capacity, SerializedBlob(payloads, format, table), sfs, segs, f);
    ValidatedPayloads(slots, payloads, sfs, segs, f, |imports|);
    hide *;
    var bytes := Overrides.PatchAll(image, staged, 0).value;
    AppliedStands(image, staged, slots, dataoff, capacity, payloads, SerializedBlob(payloads, format, table), sfs, segs, f, |imports|);
    TableInBlob(payloads, format, table);
    RepackedFits(imports, requested, format, table, offsets, pool);
    SerializableNow(bytes, dataoff + capacity, sfs, segs, f, imports, offsets, pool, format);
    BlobRoundTrip(bytes, dataoff, capacity, payloads, sfs, segs, f, imports, offsets, pool, format);
  }

  lemma AppliedRoom(image: seq<byte>, staged: seq<Slot>, slots: seq<Slot>, dataoff: nat, capacity: nat, blob: seq<byte>,
                    sfs: seq<SegmentFixups>, segs: seq<Segment>, f: PointerFormat)
    requires Applied(image, staged, slots, dataoff, capacity, blob, sfs, segs, f)
    ensures |blob| <= capacity < U32_LIMIT && Overrides.PatchAll(image, staged, 0).Ok?
  {}

  lemma ValidatedPayloads(slots: seq<Slot>, payloads: seq<Option<seq<byte>>>, sfs: seq<SegmentFixups>, segs: seq<Segment>, f: PointerFormat, imports: nat)
    requires Validated(slots, payloads, sfs, segs, f, imports)
    ensures PayloadsOf(payloads, sfs, segs, f)
  {}

  lemma RepackedFits(imports: seq<ChainedImport>, requested: nat, format: nat, table: seq<byte>, offsets: seq<nat>, pool: seq<byte>)
    requires KnownFormat(requested) && Repacked(imports, requested, format, table, offsets, pool) && |table| < U32_LIMIT
    requires forall i :: 0 <= i < |imports| ==> PlainName(imports[i].symbol) && FitsI64(imports[i].addend)
    ensures table == TableFrom(imports, offsets, format, 0) + pool && |offsets| == |imports|
    ensures KnownFormat(format) && Pooled(pool, offsets, imports) && Importable(imports, offsets, format)
  {
    hide TableFrom, ChooseFormat, Importable, PlainName;
    ChosenFits(imports, requested, offsets, pool);
  }

  lemma SerializableNow(bytes: seq<byte>, end: nat, sfs: seq<SegmentFixups>, segs: seq<Segment>, f: PointerFormat, imports: seq<ChainedImport>,
                        offsets: seq<nat>, pool: seq<byte>, format: nat)
    requires AllRepresentable(sfs, segs, f) && forall k :: 0 <= k < |sfs| ==> Written(bytes, end, sfs[k], segs, f, |imports|)
    requires KnownFormat(format) && Pooled(pool, offsets, imports) && Importable(imports, offsets, format)
    ensures Serializable(bytes, end, sfs, segs, f, imports, offsets, pool, format)
  {}

  lemma ListedAscending(sfs: seq<SegmentFixups>, segs: seq<Segment>, f: PointerFormat)
    requires AllRepresentable(sfs, segs, f)
    ensures sfs != [] && Ascending(sfs)
  {}

  /** The same when the imports were left alone: the table of the file they were read from is
      replayed, and decodes in the new blob as it did there. */
  lemma CommitReplays(image: seq<byte>, staged: seq<Slot>, slots: seq<Slot>, dataoff: nat, capacity: nat, payloads: seq<Option<seq<byte>>>,
                      sfs: seq<SegmentFixups>, segs: seq<Segment>, f: PointerFormat, imports: seq<ChainedImport>,
                      was: seq<byte>, at: nat, format: nat, table: seq<byte>)
    requires Applied(image, staged, slots, dataoff, capacity, SerializedBlob(payloads, format, table), sfs, segs, f)
    requires Validated(slots, payloads, sfs, segs, f, |imports|) && AllRepresentable(sfs, segs, f)
    requires HasAt(was, at, table) && TableDecodes(was, at, imports, format, at + |table|)
    ensures var bytes := Overrides.PatchAll(image, staged, 0).value;
            && ImportsOffset(payloads) <= capacity && dataoff + capacity <= |bytes|
            && (ReadBlob(bytes, dataoff, capacity, segs)
                  == Ok(Parsed(f, imports, AllSorted(sfs), format, bytes[dataoff + ImportsOffset(payloads)..dataoff + capacity]))
                <==> Measure(table, format) == |imports|)
  {
    AppliedRoom(image, staged, slots, dataoff, capacity, SerializedBlob(payloads, format, table), sfs, segs, f);
    ValidatedPayloads(slots, payloads, sfs, segs, f, |imports|);
    hide *;
    var bytes := Overrides.PatchAll(image, staged, 0).value;
    AppliedStands(image, staged, slots, dataoff, capacity, payloads, SerializedBlob(payloads, format, table), sfs, segs, f, |imports|);
    ListedAscending(sfs, segs, f);
    BlobReplays(bytes, dataoff, capacity, payloads, sfs, segs, f, was, at, table, format, imports);
  }
}
