/** Chained fixups in an image: writing slots in place, reading chains back, and moving
    everything up by a constant. */
module FixupImage {
  import opened Bytes
  import opened FixupCodec
  import opened FixupChains
  import opened FixupWriter
  import opened MachOLayout

  // ----- reading a starts_in_segment ------------------------------------

  datatype Walked = Walked(format: PointerFormat, pageSize: nat, fixups: seq<Fixup>)

  function Field(bytes: seq<byte>, at: nat, width: nat): nat
    requires at + width <= |bytes|
  {
    FromLe(bytes[at..at + width])
  }

  function StartsAt(bytes: seq<byte>, at: nat, count: nat): (r: seq<nat>)
    requires at + 2 * count <= |bytes|
    ensures |r| == count
    decreases count
  {
    if count == 0 then [] else [Field(bytes, at, 2)] + StartsAt(bytes, at + 2, count - 1)
  }

  /** `walk_one_segment`: parse the header at `at`, walk every page, sort. */
  function WalkSegment(bytes: seq<byte>, at: nat, segIdx: nat, end: nat, segments: seq<Segment>, imports: nat): Result<Walked, FixupError>
    requires end <= |bytes|
  {
    if at + 22 > end then Err(Truncated)
    else
      match FromRaw(Field(bytes, at + 6, 2))
      case Err(e) => Err(e)
      case Ok(f) =>
        var ps, count := Field(bytes, at + 4, 2), Field(bytes, at + 20, 2);
        if at + 22 + 2 * count > end || segIdx >= |segments| then Err(Truncated)
        else
          match WalkPages(bytes, segments[segIdx], f, imports, StartsAt(bytes, at + 22, count), ps, 0)
          case Err(e) => Err(e)
          case Ok(fs) => Ok(Walked(f, ps, SortByVaddr(fs)))
  }

  method WalkOneChain(bytes: seq<byte>, seg: Segment, f: PointerFormat, imports: nat, start: nat) returns (r: Result<seq<Fixup>, FixupError>)
    ensures r == WalkChain(bytes, seg, f, imports, start)
  {
    hide DecodeOne;
    var out: seq<Fixup> := [];
    var off := start;
    ghost var all := WalkChain(bytes, seg, f, imports, start);
    AppendNothing(all);
    while true
      invariant all == Append(out, WalkChain(bytes, seg, f, imports, off))
      decreases seg.filesize - off
    {
      if off + 8 > seg.filesize || seg.fileoff + off + 8 > |bytes| {
        assert out + [] == out;
        return Ok(out);
      }
      var decoded := DecodeOne(Field(bytes, seg.fileoff + off, 8), f, imports, seg.vmaddr);
      if decoded.Err? {
        return Err(decoded.error);
      }
      var (target, next) := decoded.value;
      var fx := Fixup(seg.vmaddr + off, target);
      if next == 0 {
        return Ok(out + [fx]);
      }
      AppendCons(out, fx, WalkChain(bytes, seg, f, imports, off + next * Stride(f)));
      out := out + [fx];
      off := off + next * Stride(f);
    }
  }

  lemma AppendNothing(r: Result<seq<Fixup>, FixupError>)
    ensures Append([], r) == r
  {
    if r.Ok? {
      assert [] + r.value == r.value;
    }
  }

  lemma AppendCons(a: seq<Fixup>, fx: Fixup, r: Result<seq<Fixup>, FixupError>)
    ensures Append(a, Cons(fx, r)) == Append(a + [fx], r)
  {
    if r.Ok? {
      assert a + ([fx] + r.value) == a + [fx] + r.value;
    }
  }

  lemma AppendAppend(a: seq<Fixup>, b: seq<Fixup>, r: Result<seq<Fixup>, FixupError>)
    ensures Append(a, Append(b, r)) == Append(a + b, r)
  {
    if r.Ok? {
      assert a + (b + r.value) == a + b + r.value;
    }
  }

  method WalkAllPages(bytes: seq<byte>, seg: Segment, f: PointerFormat, imports: nat, starts: seq<nat>, ps: nat) returns (r: Result<seq<Fixup>, FixupError>)
    ensures r == WalkPages(bytes, seg, f, imports, starts, ps, 0)
  {
    var out: seq<Fixup> := [];
    ghost var all := WalkPages(bytes, seg, f, imports, starts, ps, 0);
    AppendNothing(all);
    var p := 0;
    while p < |starts|
      invariant p <= |starts| && all == Append(out, WalkPages(bytes, seg, f, imports, starts, ps, p))
    {
      if starts[p] != START_NONE {
        var chain := WalkOneChain(bytes, seg, f, imports, p * ps + starts[p]);
        if chain.Err? {
          return Err(chain.error);
        }
        AppendAppend(out, chain.value, WalkPages(bytes, seg, f, imports, starts, ps, p + 1));
        out := out + chain.value;
      }
      p := p + 1;
    }
    assert out + [] == out;
    return Ok(out);
  }

  method WalkOneSegment(bytes: seq<byte>, at: nat, segIdx: nat, end: nat, segments: seq<Segment>, imports: nat) returns (r: Result<Walked, FixupError>)
    requires end <= |bytes|
    ensures r == WalkSegment(bytes, at, segIdx, end, segments, imports)
  {
    if at + 22 > end {
      return Err(Truncated);
    }
    var ps := Field(bytes, at + 4, 2);
    var format := FromRaw(Field(bytes, at + 6, 2));
    if format.Err? {
      return Err(format.error);
    }
    var count := Field(bytes, at + 20, 2);
    if at + 22 + 2 * count > end || segIdx >= |segments| {
      return Err(Truncated);
    }
    var fs := WalkAllPages(bytes, segments[segIdx], format.value, imports, StartsAt(bytes, at + 22, count), ps);
    if fs.Err? {
      return Err(fs.error);
    }
    return Ok(Walked(format.value, ps, SortByVaddr(fs.value)));
  }

  // ----- a written segment walks back -----------------------------------

  lemma FieldOf(bytes: seq<byte>, at: nat, v: nat, width: nat)
    requires HasAt(bytes, at, Le(v, width)) && v < Pow256(width)
    ensures Field(bytes, at, width) == v
  {
    FromLeOfLe(v, width);
  }

  lemma HeaderFields(bytes: seq<byte>, at: nat, f: PointerFormat, ps: nat, fileoff: nat, count: nat)
    requires ps < U16_LIMIT && count < U16_LIMIT && HasAt(bytes, at, StartsHeader(f, ps, fileoff, count))
    ensures Field(bytes, at + 4, 2) == ps && Field(bytes, at + 6, 2) == ToRaw(f) && Field(bytes, at + 20, 2) == count
  {
    Pow256Values();
    var a, b, c, d := Le(22 + 2 * count, 4), Le(ps, 2), Le(ToRaw(f), 2), Le(fileoff, 8) + Le(0, 4);
    assert StartsHeader(f, ps, fileoff, count) == a + (b + (c + (d + Le(count, 2))));
    HasAtSplit(bytes, at, a, b + (c + (d + Le(count, 2))));
    HasAtSplit(bytes, at + 4, b, c + (d + Le(count, 2)));
    HasAtSplit(bytes, at + 6, c, d + Le(count, 2));
    HasAtSplit(bytes, at + 8, d, Le(count, 2));
    FieldOf(bytes, at + 4, ps, 2);
    FieldOf(bytes, at + 6, ToRaw(f), 2);
    FieldOf(bytes, at + 20, count, 2);
  }

  lemma {:induction false} StartsListed(bytes: seq<byte>, at: nat, starts: seq<nat>)
    requires HasAt(bytes, at, StartsBytes(starts))
    requires forall q :: 0 <= q < |starts| ==> starts[q] < U16_LIMIT
    ensures StartsAt(bytes, at, |starts|) == starts
    decreases |starts|
  {
    if starts != [] {
      HasAtSplit(bytes, at, Le(starts[0], 2), StartsBytes(starts[1..]));
      Pow256Values();
      FieldOf(bytes, at, starts[0], 2);
      StartsListed(bytes, at + 2, starts[1..]);
    }
  }

  /** The fixups of a segment in the order they are written. */
  function Sorted(sf: SegmentFixups): seq<Fixup> {
    Dedup(SortByVaddr(sf.fixups))
  }

  /** If the slots of a segment and its page starts stand in the image, walking the segment
      returns its sorted fixups. */
  lemma SegmentRoundTrip(bytes: seq<byte>, at: nat, segIdx: nat, end: nat, segments: seq<Segment>, imports: nat,
                         fs: seq<Fixup>, ps: nat, f: PointerFormat)
    requires end <= |bytes| && segIdx < |segments|
    requires var seg := segments[segIdx];
             && 0 < ps < U16_LIMIT && PageCount(seg, ps) < U16_LIMIT && InSegment(fs, seg)
             && WellPlaced(fs, Pages(fs, seg, ps), seg, ps, f, imports)
             && SlotsWritten(bytes, fs, Pages(fs, seg, ps), seg, f)
             && var payload := StartsPayload(f, ps, seg.fileoff, PageStarts(fs, Pages(fs, seg, ps), seg, ps));
                HasAt(bytes, at, payload) && at + |payload| <= end
    ensures WalkSegment(bytes, at, segIdx, end, segments, imports) == Ok(Walked(f, ps, fs))
  {
    var seg := segments[segIdx];
    var starts := PageStarts(fs, Pages(fs, seg, ps), seg, ps);
    HasAtSplit(bytes, at, StartsHeader(f, ps, seg.fileoff, |starts|), StartsBytes(starts));
    HeaderFields(bytes, at, f, ps, seg.fileoff, |starts|);
    FromRawOfToRaw(f);
    StartsListed(bytes, at + 22, starts);
    ChainRoundTrip(bytes, fs, seg, ps, f, imports);
    SortOfOrdered(fs);
  }

  // ----- writing slots in place -----------------------------------------

  ghost predicate SlotsApart(slots: seq<Slot>) {
    forall x, y :: x in slots && y in slots ==> x == y || x.0 + 8 <= y.0 || y.0 + 8 <= x.0
  }

  ghost predicate Covered(slots: seq<Slot>, i: nat) {
    exists x :: x in slots && x.0 <= i < x.0 + 8
  }

  /** The write loop of `encode_into_segments`: with disjoint slots every word ends up in
      place and every other byte keeps its value. */
  method WriteSlots(image: array<byte>, slots: seq<Slot>) returns (r: Result<(), FixupError>)
    requires forall x :: x in slots ==> |x.1| == 8
    modifies image
    ensures r.Ok? <==> forall x :: x in slots ==> x.0 + 8 <= image.Length
    ensures r.Ok? && SlotsApart(slots) ==> forall x :: x in slots ==> HasAt(image[..], x.0, x.1)
    ensures forall i :: 0 <= i < image.Length && !Covered(slots, i) ==> image[i] == old(image[i])
  {
    var k := 0;
    while k < |slots|
      invariant k <= |slots|
      invariant forall m :: 0 <= m < k ==> slots[m].0 + 8 <= image.Length
      invariant SlotsApart(slots) ==> forall m :: 0 <= m < k ==> HasAt(image[..], slots[m].0, slots[m].1)
      invariant forall i :: 0 <= i < image.Length && !Covered(slots, i) ==> image[i] == old(image[i])
    {
      var (off, raw) := slots[k];
      assert slots[k] in slots;
      if off + 8 > image.Length {
        return Err(Truncated);
      }
      ghost var before := image[..];
      forall i | 0 <= i < 8 {
        image[off + i] := raw[i];
      }
      assert image[..][off..off + 8] == raw;
      if SlotsApart(slots) {
        forall m | 0 <= m < k ensures HasAt(image[..], slots[m].0, slots[m].1) {
          assert slots[m] in slots && HasAt(before, slots[m].0, slots[m].1);
          if slots[m] != slots[k] {
            assert image[..][slots[m].0..slots[m].0 + 8] == before[slots[m].0..slots[m].0 + 8];
          }
        }
      }
      forall i | 0 <= i < image.Length && !Covered(slots, i) ensures image[i] == old(image[i]) {
        assert !(slots[k].0 <= i < slots[k].0 + 8);
      }
      k := k + 1;
    }
    return Ok(());
  }
}
