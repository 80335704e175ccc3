/** The editable fixup tables of an image and the operations that rewrite its slots. */
module ChainedFixupTables {
  import opened Bytes
  import opened FixupBlob
  import opened FixupBlobRead
  import opened FixupBlobTheorem
  import opened FixupCodec
  import opened FixupEmit
  import opened FixupChains
  import opened FixupWriter
  import opened FixupImage
  import opened FixupShift
  import opened ImportPool
  import opened MachOLayout

  // ----- the slots of all segments --------------------------------------

  /** `x` is the slot of fixup `i` of `sf`. */
  ghost predicate FixupSlot(x: Slot, sf: SegmentFixups, seg: Segment, f: PointerFormat, i: nat) {
    var fs := Sorted(sf);
    && sf.pageSize > 0 && InSegment(fs, seg) && StrictlyOrdered(fs) && i < |fs|
    && IsSlot(x, fs, Pages(fs, seg, sf.pageSize), i, seg, f)
  }

  ghost predicate SlotPresent(out: seq<Slot>, sf: SegmentFixups, seg: Segment, f: PointerFormat, i: nat) {
    exists x :: x in out && FixupSlot(x, sf, seg, f, i)
  }

  ghost predicate AllPresent(out: seq<Slot>, sf: SegmentFixups, seg: Segment, f: PointerFormat) {
    forall i :: 0 <= i < |Sorted(sf)| ==> SlotPresent(out, sf, seg, f, i)
  }

  ghost predicate SomeSlot(x: Slot, sf: SegmentFixups, seg: Segment, f: PointerFormat) {
    exists i: nat :: FixupSlot(x, sf, seg, f, i)
  }

  /** `x` is a slot of one of the first `n` segments. */
  ghost predicate SlotAmong(x: Slot, sfs: seq<SegmentFixups>, segs: seq<Segment>, f: PointerFormat, n: nat)
    requires n <= |sfs|
  {
    exists k :: 0 <= k < n && sfs[k].segmentIndex < |segs| && SomeSlot(x, sfs[k], segs[sfs[k].segmentIndex], f)
  }

  /** The slots cover the first `n` segments and nothing else. */
  ghost predicate SlotsAre(out: seq<Slot>, sfs: seq<SegmentFixups>, segs: seq<Segment>, f: PointerFormat, n: nat)
    requires n <= |sfs|
  {
    && (forall k :: 0 <= k < n ==> sfs[k].segmentIndex < |segs| && AllPresent(out, sfs[k], segs[sfs[k].segmentIndex], f))
    && (forall x :: x in out ==> SlotAmong(x, sfs, segs, f, n))
  }

  /** Every fixup lies inside the segment it is listed under. */
  ghost predicate Housed(sfs: seq<SegmentFixups>, segs: seq<Segment>) {
    forall k :: 0 <= k < |sfs| ==>
      sfs[k].pageSize > 0 && (sfs[k].segmentIndex < |segs| ==> InSegment(sfs[k].fixups, segs[sfs[k].segmentIndex]))
  }

  ghost predicate Apart(a: nat, b: nat) { a + 8 <= b || b + 8 <= a }

  /** Distinct fixups, of the same segment or of two, have slots at least 8 bytes apart. */
  ghost predicate FixupsApart(sfs: seq<SegmentFixups>, segs: seq<Segment>, f: PointerFormat) {
    forall x, y, k, l, i: nat, j: nat
      {:trigger AtSlot(x, sfs, segs, f, k, i), AtSlot(y, sfs, segs, f, l, j)} ::
      AtSlot(x, sfs, segs, f, k, i) && AtSlot(y, sfs, segs, f, l, j) && (k, i) != (l, j) ==> Apart(x.0, y.0)
  }

  ghost predicate AtSlot(x: Slot, sfs: seq<SegmentFixups>, segs: seq<Segment>, f: PointerFormat, k: int, i: nat) {
    0 <= k < |sfs| && sfs[k].segmentIndex < |segs| && FixupSlot(x, sfs[k], segs[sfs[k].segmentIndex], f, i)
  }

  lemma ApartSlots(out: seq<Slot>, sfs: seq<SegmentFixups>, segs: seq<Segment>, f: PointerFormat)
    requires SlotsAre(out, sfs, segs, f, |sfs|) && FixupsApart(sfs, segs, f)
    ensures SlotsApart(out)
  {
    forall x, y | x in out && y in out ensures x == y || x.0 + 8 <= y.0 || y.0 + 8 <= x.0 {
      var k, i := Locate(x, sfs, segs, f);
      var l, j := Locate(y, sfs, segs, f);
      if (k, i) != (l, j) {
        assert Apart(x.0, y.0);
      }
    }
  }

  lemma Locate(x: Slot, sfs: seq<SegmentFixups>, segs: seq<Segment>, f: PointerFormat) returns (k: int, i: nat)
    requires SlotAmong(x, sfs, segs, f, |sfs|)
    ensures AtSlot(x, sfs, segs, f, k, i)
  {
    k :| 0 <= k < |sfs| && sfs[k].segmentIndex < |segs| && SomeSlot(x, sfs[k], segs[sfs[k].segmentIndex], f);
    i :| FixupSlot(x, sfs[k], segs[sfs[k].segmentIndex], f, i);
  }

  /** One more segment's slots. */
  lemma SlotsGrow(out: seq<Slot>, more: seq<Slot>, sfs: seq<SegmentFixups>, segs: seq<Segment>, f: PointerFormat, n: nat)
    requires n < |sfs| && SlotsAre(out, sfs, segs, f, n) && sfs[n].segmentIndex < |segs|
    requires AllPresent(more, sfs[n], segs[sfs[n].segmentIndex], f)
    requires forall x :: x in more ==> SomeSlot(x, sfs[n], segs[sfs[n].segmentIndex], f)
    ensures SlotsAre(out + more, sfs, segs, f, n + 1)
  {
    forall k | 0 <= k < n + 1
      ensures sfs[k].segmentIndex < |segs| && AllPresent(out + more, sfs[k], segs[sfs[k].segmentIndex], f)
    {
      PresentGrows(out, more, sfs[k], segs[sfs[k].segmentIndex], f);
    }
    forall x | x in out + more ensures SlotAmong(x, sfs, segs, f, n + 1) {
      if x in out {
        assert SlotAmong(x, sfs, segs, f, n);
      }
    }
  }

  lemma PresentGrows(a: seq<Slot>, b: seq<Slot>, sf: SegmentFixups, seg: Segment, f: PointerFormat)
    ensures AllPresent(a, sf, seg, f) || AllPresent(b, sf, seg, f) ==> AllPresent(a + b, sf, seg, f)
  {
    if AllPresent(a, sf, seg, f) || AllPresent(b, sf, seg, f) {
      forall i | 0 <= i < |Sorted(sf)| ensures SlotPresent(a + b, sf, seg, f, i) {
        assert SlotPresent(a, sf, seg, f, i) || SlotPresent(b, sf, seg, f, i);
        var x :| (x in a || x in b) && FixupSlot(x, sf, seg, f, i);
        assert x in a + b;
      }
    }
  }

  /** The slots of one segment, as the two halves `SlotsGrow` asks for. */
  lemma SegmentSlotsAre(out: seq<Slot>, sf: SegmentFixups, seg: Segment, f: PointerFormat)
    requires sf.pageSize > 0 && InSegment(Sorted(sf), seg) && StrictlyOrdered(Sorted(sf))
    requires OnlySlots(out, Sorted(sf), Pages(Sorted(sf), seg, sf.pageSize), seg, f)
    requires forall i :: 0 <= i < |Sorted(sf)| ==> SlotListed(out, Sorted(sf), Pages(Sorted(sf), seg, sf.pageSize), i, seg, f)
    ensures AllPresent(out, sf, seg, f) && forall x :: x in out ==> SomeSlot(x, sf, seg, f)
  {
    var pages := Pages(Sorted(sf), seg, sf.pageSize);
    forall i | 0 <= i < |Sorted(sf)| ensures SlotPresent(out, sf, seg, f, i) {
      assert SlotListed(out, Sorted(sf), pages, i, seg, f);
      var x :| x in out && IsSlot(x, Sorted(sf), pages, i, seg, f);
      assert FixupSlot(x, sf, seg, f, i);
    }
    forall x | x in out ensures SomeSlot(x, sf, seg, f) {
      var i :| 0 <= i < |Sorted(sf)| && IsSlot(x, Sorted(sf), pages, i, seg, f);
      assert FixupSlot(x, sf, seg, f, i);
    }
  }

  /** All slots of a segment are in the image. */
  ghost predicate SegmentEncoded(bytes: seq<byte>, sf: SegmentFixups, segs: seq<Segment>, f: PointerFormat) {
    && sf.segmentIndex < |segs| && sf.pageSize > 0
    && var seg := segs[sf.segmentIndex];
       && InSegment(Sorted(sf), seg)
       && Encoded(bytes, Sorted(sf), Pages(Sorted(sf), seg, sf.pageSize), seg, f)
  }

  lemma PresentEncoded(bytes: seq<byte>, out: seq<Slot>, sf: SegmentFixups, segs: seq<Segment>, f: PointerFormat)
    requires sf.segmentIndex < |segs| && sf.pageSize > 0 && InSegment(sf.fixups, segs[sf.segmentIndex])
    requires AllPresent(out, sf, segs[sf.segmentIndex], f)
    requires forall x :: x in out ==> HasAt(bytes, x.0, x.1)
    ensures SegmentEncoded(bytes, sf, segs, f)
  {
    var seg := segs[sf.segmentIndex];
    SortedInSegment(sf.fixups, seg);
    var fs := Sorted(sf);
    var pages := Pages(fs, seg, sf.pageSize);
    DeltasAscend(fs, pages);
    forall i | 0 <= i < |fs| ensures SlotWritten(bytes, fs, pages, i, seg, f) {
      assert SlotPresent(out, sf, seg, f, i);
      var x :| x in out && FixupSlot(x, sf, seg, f, i);
    }
  }

  lemma DeltasAscend(fs: seq<Fixup>, pages: seq<nat>)
    requires |fs| == |pages| && StrictlyOrdered(fs)
    ensures forall i :: 0 <= i < |fs| ==> NextDelta(fs, pages, i) >= 0
  {}

  // ----- the tables -----------------------------------------------------

  class ChainedFixups {
    var pointerFormat: PointerFormat
    var imports: seq<ChainedImport>
    var segments: seq<SegmentFixups>
    var importsFormat: nat
    var originalImportsBytes: seq<byte>
    var originalImports: seq<ChainedImport>

    /** The tables just read from an image. */
    constructor (parsed: Parsed)
      ensures pointerFormat == parsed.format && segments == parsed.segments && importsFormat == parsed.importsFormat
      ensures imports == originalImports == parsed.imports && originalImportsBytes == parsed.originalImports
    {
      pointerFormat := parsed.format;
      imports := parsed.imports;
      segments := parsed.segments;
      importsFormat := parsed.importsFormat;
      originalImportsBytes := parsed.originalImports;
      originalImports := parsed.imports;
    }

    /** `shift_by`: every slot address and rebase target moves, saturating. */
    method ShiftBy(delta: nat)
      modifies this`segments
      ensures |segments| == |old(segments)|
      ensures forall k :: 0 <= k < |segments| ==>
                var was, now := old(segments)[k], segments[k];
                && now == was.(fixups := now.fixups) && |now.fixups| == |was.fixups|
                && forall i :: 0 <= i < |was.fixups| ==> now.fixups[i] == ShiftSaturating(was.fixups[i], delta)
      ensures forall k :: 0 <= k < |segments| && (forall fx :: fx in old(segments)[k].fixups ==> StaysInU64(fx, delta)) ==>
                segments[k].fixups == Shifted(old(segments)[k].fixups, delta)
    {
      var k := 0;
      while k < |segments|
        invariant k <= |segments| == |old(segments)|
        invariant forall m :: k <= m < |segments| ==> segments[m] == old(segments)[m]
        invariant forall m :: 0 <= m < k ==> Moved(old(segments)[m], segments[m], delta)
      {
        var fixups := ShiftFixups(segments[k].fixups, delta);
        segments := segments[k := segments[k].(fixups := fixups)];
        k := k + 1;
      }
      forall m | 0 <= m < |segments| && (forall fx :: fx in old(segments)[m].fixups ==> StaysInU64(fx, delta))
        ensures segments[m].fixups == Shifted(old(segments)[m].fixups, delta)
      {
        assert Moved(old(segments)[m], segments[m], delta);
        NoSaturation(old(segments)[m], segments[m], delta);
      }
    }

    /** `slot_bytes`: one eight-byte word per sorted fixup of every segment, and no other. */
    method SlotBytes(segs: seq<Segment>) returns (r: Result<seq<Slot>, FixupError>)
      requires Housed(segments, segs)
      ensures r.Ok? ==> SlotsAre(r.value, segments, segs, pointerFormat, |segments|)
      ensures r.Err? ==>
                || (exists k :: 0 <= k < |segments| && segments[k].segmentIndex >= |segs|
                     && r.error == FixupOutsideSegment(0, segments[k].segmentIndex))
                || (exists k :: 0 <= k < |segments| && SomeRefused(segments[k].fixups, pointerFormat, r.error))
    {
      var out: seq<Slot> := [];
      var k := 0;
      while k < |segments|
        invariant k <= |segments| && SlotsAre(out, segments, segs, pointerFormat, k)
      {
        var sf := segments[k];
        if sf.segmentIndex >= |segs| {
          return Err(FixupOutsideSegment(0, sf.segmentIndex));
        }
        var seg := segs[sf.segmentIndex];
        var slots := SegmentSlots(sf.fixups, seg, sf.pageSize, pointerFormat);
        if slots.Err? {
          EncodeErrorHasFixup(sf, seg, pointerFormat, slots.error);
          return Err(slots.error);
        }
        SegmentSlotsAre(slots.value, sf, seg, pointerFormat);
        SlotsGrow(out, slots.value, segments, segs, pointerFormat, k);
        out := out + slots.value;
        k := k + 1;
      }
      return Ok(out);
    }

    /** `encode_into_segments`: writes every slot in place and touches no other byte. */
    method EncodeIntoSegments(image: array<byte>, segs: seq<Segment>) returns (r: Result<(), FixupError>)
      requires Housed(segments, segs)
      modifies image
      ensures r.Ok? && FixupsApart(segments, segs, pointerFormat) ==>
                forall k :: 0 <= k < |segments| ==> SegmentEncoded(image[..], segments[k], segs, pointerFormat)
      ensures forall i :: 0 <= i < image.Length && image[i] != old(image[i]) ==>
                exists x: Slot :: x.0 <= i < x.0 + 8 && SlotAmong(x, segments, segs, pointerFormat, |segments|)
    {
      var slots := SlotBytes(segs);
      if slots.Err? {
        return Err(slots.error);
      }
      SlotsAreWords(slots.value, segments, segs, pointerFormat);
      r := WriteSlots(image, slots.value);
      forall i | 0 <= i < image.Length && image[i] != old(image[i])
        ensures exists x: Slot :: x.0 <= i < x.0 + 8 && SlotAmong(x, segments, segs, pointerFormat, |segments|)
      {
        assert Covered(slots.value, i);
        var x :| x in slots.value && x.0 <= i < x.0 + 8;
      }
      if r.Ok? && FixupsApart(segments, segs, pointerFormat) {
        ApartSlots(slots.value, segments, segs, pointerFormat);
        forall k | 0 <= k < |segments| ensures SegmentEncoded(image[..], segments[k], segs, pointerFormat) {
          PresentEncoded(image[..], slots.value, segments[k], segs, pointerFormat);
        }
      }
    }

    /** `serialize`: it validates every fixup, keeps untouched imports byte for byte and packs
        edited ones afresh, and emits a payload for every listed segment. */
    method Serialize(segs: seq<Segment>)
      returns (r: Result<(seq<byte>, nat), FixupError>, ghost payloads: seq<Option<seq<byte>>>, ghost table: seq<byte>,
               ghost offsets: seq<nat>, ghost pool: seq<byte>)
      requires KnownFormat(importsFormat) && forall sf :: sf in segments ==> sf.pageSize > 0
      ensures r.Ok? ==> forall sf :: sf in segments ==> Accepted(sf, segs, pointerFormat, |imports|)
      ensures r.Ok? && imports == originalImports ==> r.value.1 == importsFormat && table == originalImportsBytes
      ensures r.Ok? && imports != originalImports ==> Repacked(imports, importsFormat, r.value.1, table, offsets, pool)
      ensures r.Ok? ==> forall sf :: sf in segments ==> !TooFar(sf, segs, pointerFormat)
      ensures r.Ok? ==> PayloadsOf(payloads, segments, segs, pointerFormat)
      ensures r.Ok? ==> r.value.0 == SerializedBlob(payloads, r.value.1, table)
      ensures r.Err? ==>
                || (exists sf :: sf in segments && !Accepted(sf, segs, pointerFormat, |imports|))
                || (exists sf :: sf in segments && TooFar(sf, segs, pointerFormat))
                || (imports != originalImports && exists i :: 0 <= i < |imports| && !FitsI32(imports[i].addend))
    {
      payloads, table, offsets, pool := [], [], [], [];
      var bad := FirstRejected(segments, segs, pointerFormat, |imports|);
      if bad.Some? {
        r := Err(bad.value);
        return;
      }
      var format, importsBlob := importsFormat, originalImportsBytes;
      if imports != originalImports {
        var built;
        built, pool, offsets := BuildImportsBlob(imports, importsFormat);
        if built.Err? {
          r := Err(built.error);
          return;
        }
        format, importsBlob := built.value.0, built.value.1;
      }
      table := importsBlob;
      var parts := BuildPayloads(segments, segs, pointerFormat, |imports|);
      if parts.Err? {
        r := Err(parts.error);
        return;
      }
      payloads := parts.value;
      var count, tableSize := MeasureImportsBlob(importsBlob, format);
      var out := Emit(parts.value, count, tableSize, format, importsBlob);
      r := Ok((out, format));
    }
  }

  // ----- serializing ----------------------------------------------------

  /** The imports as one table in the chosen format, followed by their pool. */
  ghost predicate Repacked(imports: seq<ChainedImport>, requested: nat, format: nat, table: seq<byte>, offsets: seq<nat>, pool: seq<byte>) {
    && Pooled(pool, offsets, imports) && format == ChooseFormat(imports, |pool|, requested)
    && (format == IMPORT_ADDEND ==> forall i :: 0 <= i < |imports| ==> FitsI32(imports[i].addend))
    && table == TableFrom(imports, offsets, format, 0) + pool
  }

  ghost predicate AcceptedFixup(fx: Fixup, seg: Segment, f: PointerFormat, imports: nat) {
    && fx.vaddr % Stride(f) == 0 && seg.vmaddr <= fx.vaddr < seg.vmaddr + seg.vmsize
    && (fx.target.Bind? ==> fx.target.importIndex < imports)
  }

  /** The segment exists and holds its fixups, aligned and bound to imports that exist. */
  ghost predicate Accepted(sf: SegmentFixups, segs: seq<Segment>, f: PointerFormat, imports: nat) {
    sf.segmentIndex < |segs| && forall fx :: fx in sf.fixups ==> AcceptedFixup(fx, segs[sf.segmentIndex], f, imports)
  }

  /** Two neighbours of a page are further apart than `next` can say. */
  ghost predicate TooFar(sf: SegmentFixups, segs: seq<Segment>, f: PointerFormat) {
    && sf.segmentIndex < |segs| && sf.pageSize > 0 && InSegment(Sorted(sf), segs[sf.segmentIndex])
    && !GapsFit(Sorted(sf), Pages(Sorted(sf), segs[sf.segmentIndex], sf.pageSize), f)
  }

  method CheckFixup(fx: Fixup, segmentIndex: nat, seg: Segment, f: PointerFormat, imports: nat) returns (bad: Option<FixupError>)
    ensures bad.None? <==> AcceptedFixup(fx, seg, f, imports)
    ensures bad.Some? ==> bad.value == (if fx.vaddr % Stride(f) != 0 then Misaligned(fx.vaddr)
                                        else if fx.vaddr < seg.vmaddr || fx.vaddr >= seg.vmaddr + seg.vmsize then FixupOutsideSegment(fx.vaddr, segmentIndex)
                                        else BadImportIndex(fx.target.importIndex))
  {
    if fx.vaddr % Stride(f) != 0 {
      return Some(Misaligned(fx.vaddr));
    }
    if fx.vaddr < seg.vmaddr || fx.vaddr >= seg.vmaddr + seg.vmsize {
      return Some(FixupOutsideSegment(fx.vaddr, segmentIndex));
    }
    if fx.target.Bind? && fx.target.importIndex >= imports {
      return Some(BadImportIndex(fx.target.importIndex));
    }
    return None;
  }

  /** The validation pass over all segments. */
  method FirstRejected(sfs: seq<SegmentFixups>, segs: seq<Segment>, f: PointerFormat, imports: nat) returns (bad: Option<FixupError>)
    ensures bad.None? <==> forall sf :: sf in sfs ==> Accepted(sf, segs, f, imports)
  {
    var k := 0;
    while k < |sfs|
      invariant k <= |sfs| && forall j :: 0 <= j < k ==> Accepted(sfs[j], segs, f, imports)
    {
      var sf := sfs[k];
      assert sf in sfs;
      if sf.segmentIndex >= |segs| {
        return Some(FixupOutsideSegment(0, sf.segmentIndex));
      }
      var i := 0;
      while i < |sf.fixups|
        invariant i <= |sf.fixups| && forall j :: 0 <= j < i ==> AcceptedFixup(sf.fixups[j], segs[sf.segmentIndex], f, imports)
      {
        var refused := CheckFixup(sf.fixups[i], sf.segmentIndex, segs[sf.segmentIndex], f, imports);
        if refused.Some? {
          assert sf.fixups[i] in sf.fixups;
          return refused;
        }
        i := i + 1;
      }
      k := k + 1;
    }
    return None;
  }

  /** An accepted segment is still in its bounds and aligned once sorted. */
  lemma AcceptedSorted(sf: SegmentFixups, segs: seq<Segment>, f: PointerFormat, imports: nat)
    requires Accepted(sf, segs, f, imports)
    ensures InSegment(Sorted(sf), segs[sf.segmentIndex]) && Aligned(Sorted(sf), f) && Ordered(Sorted(sf)) && StrictlyOrdered(Sorted(sf))
  {
    var seg := segs[sf.segmentIndex];
    forall i | 0 <= i < |Sorted(sf)| ensures AcceptedFixup(Sorted(sf)[i], seg, f, imports) {
      SortedIsListed(sf, Sorted(sf)[i]);
    }
    forall i | 0 <= i < |sf.fixups| ensures seg.vmaddr <= sf.fixups[i].vaddr < seg.vmaddr + seg.vmsize {
      assert sf.fixups[i] in sf.fixups;
    }
    SortedInSegment(sf.fixups, seg);
  }

  /** The payload of one accepted segment, unless its fixups are too far apart. */
  method BuildPayload(sf: SegmentFixups, segs: seq<Segment>, f: PointerFormat, ghost imports: nat) returns (r: Result<seq<byte>, FixupError>)
    requires Accepted(sf, segs, f, imports) && sf.pageSize > 0
    ensures r.Err? <==> TooFar(sf, segs, f)
    ensures r.Ok? ==> HasPayload(sf, segs, f, r.value)
  {
    AcceptedSorted(sf, segs, f, imports);
    var sorted := sf.(fixups := Sorted(sf));
    SortOfOrdered(sorted.fixups);
    r := BuildStartsInSegment(f, sorted, segs[sf.segmentIndex]);
  }

  method BuildPayloads(sfs: seq<SegmentFixups>, segs: seq<Segment>, f: PointerFormat, ghost imports: nat)
    returns (r: Result<seq<Option<seq<byte>>>, FixupError>)
    requires forall sf :: sf in sfs ==> Accepted(sf, segs, f, imports) && sf.pageSize > 0
    ensures r.Err? ==> exists sf :: sf in sfs && TooFar(sf, segs, f)
    ensures r.Ok? ==> |r.value| == |segs| && forall sf :: sf in sfs ==> !TooFar(sf, segs, f)
    ensures r.Ok? ==> PayloadsOf(r.value, sfs, segs, f)
  {
    hide Accepted, TooFar, HasPayload, PayloadsOf;
    var payloads: seq<Option<seq<byte>>> := seq(|segs|, _ => None);
    NoPayloadYet(payloads, sfs, segs, f);
    var k := 0;
    while k < |sfs|
      invariant k <= |sfs| && |payloads| == |segs| && forall j :: 0 <= j < k ==> !TooFar(sfs[j], segs, f)
      invariant PayloadsOf(payloads, sfs[..k], segs, f)
    {
      assert sfs[k] in sfs;
      AcceptedIndex(sfs[k], segs, f, imports);
      var payload := BuildPayload(sfs[k], segs, f, imports);
      if payload.Err? {
        return Err(payload.error);
      }
      OneMorePayload(payloads, sfs, k, segs, f, payload.value);
      payloads := payloads[sfs[k].segmentIndex := Some(payload.value)];
      k := k + 1;
    }
    assert sfs[..|sfs|] == sfs;
    return Ok(payloads);
  }

  lemma NoPayloadYet(payloads: seq<Option<seq<byte>>>, sfs: seq<SegmentFixups>, segs: seq<Segment>, f: PointerFormat)
    requires |payloads| == |segs| && forall k :: 0 <= k < |payloads| ==> payloads[k].None?
    ensures PayloadsOf(payloads, sfs[..0], segs, f)
  {}

  lemma AcceptedIndex(sf: SegmentFixups, segs: seq<Segment>, f: PointerFormat, imports: nat)
    requires Accepted(sf, segs, f, imports)
    ensures sf.segmentIndex < |segs|
  {}

  lemma OneMorePayload(payloads: seq<Option<seq<byte>>>, sfs: seq<SegmentFixups>, k: nat, segs: seq<Segment>, f: PointerFormat, payload: seq<byte>)
    requires k < |sfs| && PayloadsOf(payloads, sfs[..k], segs, f)
    requires sfs[k].segmentIndex < |segs| && HasPayload(sfs[k], segs, f, payload)
    ensures PayloadsOf(payloads[sfs[k].segmentIndex := Some(payload)], sfs[..k + 1], segs, f)
  {
    hide HasPayload;
    var now, first := payloads[sfs[k].segmentIndex := Some(payload)], sfs[..k + 1];
    assert forall i :: 0 <= i < k ==> first[i] == sfs[..k][i];
    forall i | 0 <= i < |first| && LastListed(first, i) ensures PayloadOf(now, first[i], segs, f) {
      if i < k {
        assert first[k].segmentIndex != first[i].segmentIndex;
        forall j | i < j < k ensures sfs[..k][j].segmentIndex != sfs[..k][i].segmentIndex {
          assert first[j] == sfs[..k][j];
        }
        assert PayloadOf(payloads, sfs[..k][i], segs, f);
      }
    }
    forall m | 0 <= m < |now| && (forall i :: 0 <= i < |first| ==> first[i].segmentIndex != m) ensures now[m].None? {
      assert first[k].segmentIndex != m;
    }
  }

  ghost predicate Moved(was: SegmentFixups, now: SegmentFixups, delta: nat) {
    && now == was.(fixups := now.fixups) && |now.fixups| == |was.fixups|
    && forall i :: 0 <= i < |was.fixups| ==> now.fixups[i] == ShiftSaturating(was.fixups[i], delta)
  }

  method ShiftFixups(fs: seq<Fixup>, delta: nat) returns (r: seq<Fixup>)
    ensures |r| == |fs| && forall i :: 0 <= i < |fs| ==> r[i] == ShiftSaturating(fs[i], delta)
  {
    r := fs;
    var i := 0;
    while i < |r|
      invariant i <= |r| == |fs|
      invariant forall j :: 0 <= j < |r| ==> r[j] == if j < i then ShiftSaturating(fs[j], delta) else fs[j]
    {
      r := r[i := ShiftSaturating(r[i], delta)];
      i := i + 1;
    }
  }

  lemma NoSaturation(was: SegmentFixups, now: SegmentFixups, delta: nat)
    requires Moved(was, now, delta) && forall fx :: fx in was.fixups ==> StaysInU64(fx, delta)
    ensures now.fixups == Shifted(was.fixups, delta)
  {
    forall i | 0 <= i < |was.fixups| ensures now.fixups[i] == Shift(was.fixups[i], delta) {
      assert was.fixups[i] in was.fixups;
      SaturationFree(was.fixups[i], delta);
    }
  }

  /** After `shift_by` a segment, moved with its fixups and encoded again, is walked from its
      old page starts to exactly its new fixups. */
  lemma ShiftByWalks(bytes: seq<byte>, was: SegmentFixups, now: SegmentFixups, seg: Segment, f: PointerFormat, imports: nat, delta: nat)
    requires Moved(was, now, delta) && forall fx :: fx in was.fixups ==> StaysInU64(fx, delta)
    requires was.pageSize > 0 && InSegment(Sorted(was), seg) && delta % Stride(f) == 0
    requires WellPlaced(Sorted(was), Pages(Sorted(was), seg, was.pageSize), seg, was.pageSize, f, imports)
    requires forall i :: 0 <= i < |Sorted(was)| ==> TargetStillFits(Sorted(was)[i], f, delta)
    requires Encoded(bytes, Sorted(now), Pages(Sorted(was), seg, was.pageSize), ShiftedSegment(seg, delta), f)
    ensures WalkPages(bytes, ShiftedSegment(seg, delta), f, imports,
                      PageStarts(Sorted(was), Pages(Sorted(was), seg, was.pageSize), seg, was.pageSize), was.pageSize, 0) == Ok(Sorted(now))
  {
    NoSaturation(was, now, delta);
    ShiftedSorted(was, delta);
    hide WellPlaced, Encoded, Sorted, Pages, PageStarts, WalkPages;
    ShiftedWalks(bytes, Sorted(was), seg, was.pageSize, f, imports, delta);
  }

  /** The only fixup a slot refuses: a bind whose addend does not fit 19 bits. */
  ghost predicate Refused(fx: Fixup, f: PointerFormat, e: FixupError) {
    && !IsPtr64(f) && fx.target.Bind? && !(-0x4_0000 <= fx.target.addend < 0x4_0000)
    && e == AddendOverflow(fx.target.importIndex, fx.target.addend)
  }

  ghost predicate SomeRefused(fs: seq<Fixup>, f: PointerFormat, e: FixupError) {
    exists fx :: fx in fs && Refused(fx, f, e)
  }

  lemma EncodeRefuses(fx: Fixup, f: PointerFormat, next: nat, base: nat, e: FixupError)
    ensures EncodeOne(fx, f, next, base) == Err(e) <==> Refused(fx, f, e)
  {}

  lemma EncodeErrorHasFixup(sf: SegmentFixups, seg: Segment, f: PointerFormat, e: FixupError)
    requires sf.pageSize > 0 && InSegment(Sorted(sf), seg) && StrictlyOrdered(Sorted(sf))
    requires exists i :: 0 <= i < |Sorted(sf)| && SlotWord(Sorted(sf), Pages(Sorted(sf), seg, sf.pageSize), i, seg, f) == Err(e)
    ensures SomeRefused(sf.fixups, f, e)
  {
    var fs := Sorted(sf);
    var pages := Pages(fs, seg, sf.pageSize);
    var i :| 0 <= i < |fs| && SlotWord(fs, pages, i, seg, f) == Err(e);
    EncodeRefuses(fs[i], f, NextDelta(fs, pages, i) / Stride(f), seg.vmaddr, e);
    SortedIsListed(sf, fs[i]);
  }

  lemma SortedIsListed(sf: SegmentFixups, fx: Fixup)
    requires fx in Sorted(sf)
    ensures fx in sf.fixups
  {
    SortSorts(sf.fixups);
    DedupStrict(SortByVaddr(sf.fixups));
    assert fx in multiset(SortByVaddr(sf.fixups));
  }

  lemma SlotsAreWords(out: seq<Slot>, sfs: seq<SegmentFixups>, segs: seq<Segment>, f: PointerFormat)
    requires SlotsAre(out, sfs, segs, f, |sfs|)
    ensures forall x :: x in out ==> |x.1| == 8
  {
    forall x | x in out ensures |x.1| == 8 {
      var k, i := Locate(x, sfs, segs, f);
    }
  }
}
