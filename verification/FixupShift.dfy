/** Moving every fixup, and the segments around it, up by a constant. */
module FixupShift {
  import opened Bytes
  import opened FixupCodec
  import opened FixupChains
  import opened FixupWriter
  import opened FixupImage
  import opened MachOLayout
  import opened PageGroups

  function MinNat(a: nat, b: nat): nat { if a <= b then a else b }

  /** `u64::saturating_add`. */
  function SaturatingAdd(a: nat, b: nat): nat { MinNat(a + b, U64_LIMIT - 1) }

  /** One fixup as `shift_by` leaves it: slot address and rebase target move, binds keep
      their import. */
  function ShiftSaturating(fx: Fixup, delta: nat): Fixup {
    Fixup(SaturatingAdd(fx.vaddr, delta),
          match fx.target
          case Rebase(t) => Rebase(SaturatingAdd(t, delta))
          case Bind(_, _) => fx.target)
  }

  function Shift(fx: Fixup, delta: nat): Fixup {
    Fixup(fx.vaddr + delta,
          match fx.target
          case Rebase(t) => Rebase(t + delta)
          case Bind(_, _) => fx.target)
  }

  predicate StaysInU64(fx: Fixup, delta: nat) {
    fx.vaddr + delta < U64_LIMIT && (fx.target.Rebase? ==> fx.target.targetVaddr + delta < U64_LIMIT)
  }

  lemma SaturationFree(fx: Fixup, delta: nat)
    ensures ShiftSaturating(fx, delta) == Shift(fx, delta) <==> StaysInU64(fx, delta)
  {}

  function Shifted(fs: seq<Fixup>, delta: nat): (r: seq<Fixup>)
    ensures |r| == |fs| && forall i :: 0 <= i < |fs| ==> r[i] == Shift(fs[i], delta)
  {
    if fs == [] then [] else [Shift(fs[0], delta)] + Shifted(fs[1..], delta)
  }

  function ShiftedSegment(seg: Segment, delta: nat): Segment {
    seg.(vmaddr := seg.vmaddr + delta)
  }

  // ----- sorting commutes with the shift --------------------------------

  lemma {:induction false} ShiftedPlace(fx: Fixup, fs: seq<Fixup>, delta: nat)
    ensures Shifted(Place(fx, fs), delta) == Place(Shift(fx, delta), Shifted(fs, delta))
  {
    if fs != [] && fs[0].vaddr < fx.vaddr {
      ShiftedPlace(fx, fs[1..], delta);
    }
  }

  lemma {:induction false} ShiftedSort(fs: seq<Fixup>, delta: nat)
    ensures Shifted(SortByVaddr(fs), delta) == SortByVaddr(Shifted(fs, delta))
  {
    if fs != [] {
      ShiftedSort(fs[1..], delta);
      ShiftedPlace(fs[0], SortByVaddr(fs[1..]), delta);
    }
  }

  lemma {:induction false} ShiftedDedup(fs: seq<Fixup>, delta: nat)
    ensures Shifted(Dedup(fs), delta) == Dedup(Shifted(fs, delta))
    decreases |fs|
  {
    var s := Shifted(fs, delta);
    if |fs| > 1 {
      if fs[0].vaddr == fs[1].vaddr {
        ShiftedDedup([fs[0]] + fs[2..], delta);
        assert Shifted([fs[0]] + fs[2..], delta) == [s[0]] + s[2..];
      } else {
        ShiftedDedup(fs[1..], delta);
      }
    }
  }

  lemma ShiftedSorted(sf: SegmentFixups, delta: nat)
    ensures Sorted(sf.(fixups := Shifted(sf.fixups, delta))) == Shifted(Sorted(sf), delta)
  {
    ShiftedSort(sf.fixups, delta);
    ShiftedDedup(SortByVaddr(sf.fixups), delta);
  }

  // ----- pages, starts and deltas do not move ---------------------------

  lemma ShiftedInPlace(fs: seq<Fixup>, seg: Segment, delta: nat)
    requires InSegment(fs, seg) && StrictlyOrdered(fs)
    ensures InSegment(Shifted(fs, delta), ShiftedSegment(seg, delta)) && StrictlyOrdered(Shifted(fs, delta))
  {}

  lemma ShiftedPages(fs: seq<Fixup>, seg: Segment, ps: nat, delta: nat)
    requires ps > 0 && InSegment(fs, seg)
    ensures InSegment(Shifted(fs, delta), ShiftedSegment(seg, delta))
    ensures Pages(Shifted(fs, delta), ShiftedSegment(seg, delta), ps) == Pages(fs, seg, ps)
  {
    var a, b := Pages(Shifted(fs, delta), ShiftedSegment(seg, delta), ps), Pages(fs, seg, ps);
    forall i | 0 <= i < |fs| ensures a[i] == b[i] {
      assert Shifted(fs, delta)[i].vaddr - (seg.vmaddr + delta) == fs[i].vaddr - seg.vmaddr;
    }
  }

  lemma ShiftedDelta(fs: seq<Fixup>, pages: seq<nat>, i: nat, delta: nat)
    requires i < |fs| == |pages|
    ensures NextDelta(Shifted(fs, delta), pages, i) == NextDelta(fs, pages, i)
  {}

  lemma ShiftedPaged(fs: seq<Fixup>, pages: seq<nat>, seg: Segment, ps: nat, delta: nat)
    requires Paged(fs, pages, seg, ps)
    ensures Paged(Shifted(fs, delta), pages, ShiftedSegment(seg, delta), ps)
  {
    forall i | 0 <= i < |fs| ensures OnPage(Shifted(fs, delta)[i], pages[i], ShiftedSegment(seg, delta), ps) {
      assert OnPage(fs[i], pages[i], seg, ps);
    }
  }

  lemma ShiftedStart(fs: seq<Fixup>, pages: seq<nat>, seg: Segment, ps: nat, delta: nat, p: nat)
    requires Paged(fs, pages, seg, ps) && Paged(Shifted(fs, delta), pages, ShiftedSegment(seg, delta), ps)
    ensures PageStart(Shifted(fs, delta), pages, ShiftedSegment(seg, delta), ps, p) == PageStart(fs, pages, seg, ps, p)
  {
    var i := FirstOf(pages, p);
    if i < |fs| && pages[i] == p {
      assert OnPage(fs[i], pages[i], seg, ps);
      assert OnPage(Shifted(fs, delta)[i], pages[i], ShiftedSegment(seg, delta), ps);
      assert Shifted(fs, delta)[i].vaddr - (seg.vmaddr + delta + p * ps) == fs[i].vaddr - (seg.vmaddr + p * ps);
    }
  }

  /** Every page start stays what it was. */
  lemma ShiftedStarts(fs: seq<Fixup>, pages: seq<nat>, seg: Segment, ps: nat, delta: nat)
    requires ps > 0 && Paged(fs, pages, seg, ps) && Paged(Shifted(fs, delta), pages, ShiftedSegment(seg, delta), ps)
    ensures PageStarts(Shifted(fs, delta), pages, ShiftedSegment(seg, delta), ps) == PageStarts(fs, pages, seg, ps)
  {
    var a, b := PageStarts(Shifted(fs, delta), pages, ShiftedSegment(seg, delta), ps), PageStarts(fs, pages, seg, ps);
    forall p | 0 <= p < |b| ensures a[p] == b[p] {
      ShiftedStart(fs, pages, seg, ps, delta, p);
    }
  }

  lemma AlignedSum(a: nat, delta: nat, f: PointerFormat)
    requires a % Stride(f) == 0
    ensures (a + delta) % Stride(f) == 0 <==> delta % Stride(f) == 0
  {
    if IsPtr64(f) {
      assert (a + delta) % 4 == delta % 4;
    } else {
      assert (a + delta) % 8 == delta % 8;
    }
  }

  /** Alignment survives exactly the stride multiples. */
  lemma ShiftedAligned(fs: seq<Fixup>, f: PointerFormat, delta: nat)
    requires Aligned(fs, f) && fs != []
    ensures Aligned(Shifted(fs, delta), f) <==> delta % Stride(f) == 0
  {
    forall i | 0 <= i < |fs| ensures Shifted(fs, delta)[i].vaddr % Stride(f) == 0 <==> delta % Stride(f) == 0 {
      AlignedSum(fs[i].vaddr, delta, f);
    }
    assert Shifted(fs, delta)[0].vaddr % Stride(f) == 0 <==> delta % Stride(f) == 0;
  }

  // ----- targets --------------------------------------------------------

  /** The target still fits its field after the shift. A format that stores targets
      relative to the segment asks for nothing: base and target moved together. */
  predicate TargetStillFits(fx: Fixup, f: PointerFormat, delta: nat) {
    fx.target.Rebase? && !SegmentRelative(f) ==> fx.target.targetVaddr + delta < BIT_36
  }

  lemma ShiftedFields(fx: Fixup, f: PointerFormat, imports: nat, seg: Segment, delta: nat)
    requires FieldsFit(fx, f, imports, seg)
    ensures FieldsFit(Shift(fx, delta), f, imports, ShiftedSegment(seg, delta)) <==> TargetStillFits(fx, f, delta)
  {}

  /** In a segment-relative format even the slot words stay bit for bit the same. */
  lemma RelativeWordsStay(fx: Fixup, f: PointerFormat, next: nat, base: nat, delta: nat)
    ensures SegmentRelative(f) || fx.target.Bind? ==>
              EncodeOne(Shift(fx, delta), f, next, base + delta) == EncodeOne(fx, f, next, base)
  {}

  lemma ShiftedGaps(fs: seq<Fixup>, pages: seq<nat>, f: PointerFormat, delta: nat)
    requires |fs| == |pages| && GapsFit(fs, pages, f)
    ensures GapsFit(Shifted(fs, delta), pages, f)
  {
    forall i | 0 <= i < |fs| ensures NextDelta(Shifted(fs, delta), pages, i) <= MaxNextByteDelta(f) {
      ShiftedDelta(fs, pages, i, delta);
    }
  }

  lemma ShiftedFits(fs: seq<Fixup>, pages: seq<nat>, seg: Segment, ps: nat, f: PointerFormat, imports: nat, delta: nat)
    requires WellPlaced(fs, pages, seg, ps, f, imports) && delta % Stride(f) == 0
    requires forall i :: 0 <= i < |fs| ==> TargetStillFits(fs[i], f, delta)
    ensures forall i :: 0 <= i < |fs| ==> FileBacked(Shifted(fs, delta)[i], ShiftedSegment(seg, delta))
    ensures forall i :: 0 <= i < |fs| ==> FieldsFit(Shifted(fs, delta)[i], f, imports, ShiftedSegment(seg, delta))
  {
    forall i | 0 <= i < |fs|
      ensures FieldsFit(Shifted(fs, delta)[i], f, imports, ShiftedSegment(seg, delta))
      ensures FileBacked(Shifted(fs, delta)[i], ShiftedSegment(seg, delta))
    {
      assert FieldsFit(fs[i], f, imports, seg) && FileBacked(fs[i], seg);
      ShiftedFields(fs[i], f, imports, seg, delta);
    }
  }

  lemma ShiftedWellPlaced(fs: seq<Fixup>, pages: seq<nat>, seg: Segment, ps: nat, f: PointerFormat, imports: nat, delta: nat)
    requires WellPlaced(fs, pages, seg, ps, f, imports) && delta % Stride(f) == 0
    requires forall i :: 0 <= i < |fs| ==> TargetStillFits(fs[i], f, delta)
    ensures WellPlaced(Shifted(fs, delta), pages, ShiftedSegment(seg, delta), ps, f, imports)
  {
    ShiftedInPlace(fs, seg, delta);
    ShiftedPaged(fs, pages, seg, ps, delta);
    ShiftedGaps(fs, pages, f, delta);
    if fs != [] {
      ShiftedAligned(fs, f, delta);
    }
    ShiftedFits(fs, pages, seg, ps, f, imports, delta);
  }

  /** Shifting is equivariant: the page starts of the unshifted segment lead, in an image
      holding the shifted slots, to exactly the shifted fixups. */
  lemma ShiftedWalks(bytes: seq<byte>, fs: seq<Fixup>, seg: Segment, ps: nat, f: PointerFormat, imports: nat, delta: nat)
    requires ps > 0 && InSegment(fs, seg) && WellPlaced(fs, Pages(fs, seg, ps), seg, ps, f, imports) && delta % Stride(f) == 0
    requires forall i :: 0 <= i < |fs| ==> TargetStillFits(fs[i], f, delta)
    requires Encoded(bytes, Shifted(fs, delta), Pages(fs, seg, ps), ShiftedSegment(seg, delta), f)
    ensures WalkPages(bytes, ShiftedSegment(seg, delta), f, imports, PageStarts(fs, Pages(fs, seg, ps), seg, ps), ps, 0)
            == Ok(Shifted(fs, delta))
  {
    var pages := Pages(fs, seg, ps);
    ShiftedWellPlaced(fs, pages, seg, ps, f, imports, delta);
    ShiftedPages(fs, seg, ps, delta);
    ShiftedStarts(fs, pages, seg, ps, delta);
    ChainRoundTrip(bytes, Shifted(fs, delta), ShiftedSegment(seg, delta), ps, f, imports);
  }
}
