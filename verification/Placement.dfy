/** Best-fit placement in the gaps of `__TEXT`. */
module Placement {
  import opened Bytes
  import opened MachOLayout
  import opened Overrides
  import Arithmetic

  datatype FreeRegion = FreeRegion(vaddr: nat, fileOffset: nat, size: nat)

  // ----- the gaps -------------------------------------------------------

  function FindSegment(segs: seq<Segment>, name: string): (r: Option<Segment>)
    ensures r.Some? ==> r.value in segs && r.value.name == name
  {
    if segs == [] then None else if segs[0].name == name then Some(segs[0]) else FindSegment(segs[1..], name)
  }

  predicate InText(s: Section) { s.segname == "__TEXT" && s.fileOffset > 0 }

  function TextSections(sections: seq<Section>): seq<Section> {
    if sections == [] then [] else (if InText(sections[0]) then [sections[0]] else []) + TextSections(sections[1..])
  }

  function PlaceByOffset(s: Section, ss: seq<Section>): seq<Section> {
    if ss == [] || ss[0].fileOffset >= s.fileOffset then [s] + ss else [ss[0]] + PlaceByOffset(s, ss[1..])
  }

  /** The stable sort by file offset. */
  function SortByOffset(ss: seq<Section>): seq<Section> {
    if ss == [] then [] else PlaceByOffset(ss[0], SortByOffset(ss[1..]))
  }

  /** The gap before a section. One that starts where the segment does is the header and is
      skipped. */
  function Gap(s: Section, text: Segment, file: nat, vaddr: nat): seq<FreeRegion> {
    if s.fileOffset > file && file > text.fileoff then [FreeRegion(vaddr, file, s.fileOffset - file)] else []
  }

  /** The gaps from the cursor on, and the tail behind the last section. */
  function RegionsFrom(ss: seq<Section>, text: Segment, file: nat, vaddr: nat): seq<FreeRegion>
    decreases |ss|
  {
    var end := text.fileoff + text.filesize;
    if ss == [] then (if file < end then [FreeRegion(vaddr, file, end - file)] else [])
    else
      Gap(ss[0], text, file, vaddr) + RegionsFrom(ss[1..], text, ss[0].fileOffset + ss[0].size, ss[0].vaddr + ss[0].size)
  }

  function Regions(segs: seq<Segment>, sections: seq<Section>): seq<FreeRegion> {
    match FindSegment(segs, "__TEXT")
    case None => []
    case Some(text) => RegionsFrom(SortByOffset(TextSections(sections)), text, text.fileoff, text.vmaddr)
  }

  /** `text_free_regions`. */
  method TextFreeRegions(segs: seq<Segment>, sections: seq<Section>) returns (out: seq<FreeRegion>)
    ensures out == Regions(segs, sections)
  {
    hide RegionsFrom, SortByOffset, TextSections, FindSegment;
    var found := FindSegment(segs, "__TEXT");
    if found.None? {
      return [];
    }
    var text := found.value;
    var ss := SortByOffset(TextSections(sections));
    var cursorFile: nat, cursorVaddr: nat := text.fileoff, text.vmaddr;
    out := [];
    var k := 0;
    ghost var goal := RegionsFrom(ss, text, cursorFile, cursorVaddr);
    assert ss[0..] == ss && [] + goal == goal;
    while k < |ss|
      invariant k <= |ss|
      invariant out + RegionsFrom(ss[k..], text, cursorFile, cursorVaddr) == goal
    {
      var s := ss[k];
      RegionsStep(out, ss, k, text, cursorFile, cursorVaddr);
      if s.fileOffset > cursorFile && cursorFile > text.fileoff {
        out := out + [FreeRegion(cursorVaddr, cursorFile, s.fileOffset - cursorFile)];
      }
      cursorFile, cursorVaddr := s.fileOffset + s.size, s.vaddr + s.size;
      k := k + 1;
    }
    RegionsEnd(ss, text, cursorFile, cursorVaddr);
    var end := text.fileoff + text.filesize;
    if cursorFile < end {
      out := out + [FreeRegion(cursorVaddr, cursorFile, end - cursorFile)];
    } else {
      assert out + [] == out;
    }
  }

  lemma RegionsEnd(ss: seq<Section>, text: Segment, file: nat, vaddr: nat)
    ensures var end := text.fileoff + text.filesize;
            RegionsFrom(ss[|ss|..], text, file, vaddr) == if file < end then [FreeRegion(vaddr, file, end - file)] else []
  {}

  lemma RegionsStep(out: seq<FreeRegion>, ss: seq<Section>, k: nat, text: Segment, file: nat, vaddr: nat)
    requires k < |ss|
    ensures out + RegionsFrom(ss[k..], text, file, vaddr)
            == (out + Gap(ss[k], text, file, vaddr)) + RegionsFrom(ss[k + 1..], text, ss[k].fileOffset + ss[k].size, ss[k].vaddr + ss[k].size)
    ensures Gap(ss[k], text, file, vaddr) == [] ==> out + Gap(ss[k], text, file, vaddr) == out
  {
    assert ss[k..][1..] == ss[k + 1..];
    var gap, rest := Gap(ss[k], text, file, vaddr), RegionsFrom(ss[k + 1..], text, ss[k].fileOffset + ss[k].size, ss[k].vaddr + ss[k].size);
    assert out + (gap + rest) == (out + gap) + rest;
  }

  // ----- the gaps are exactly the unclaimed bytes -----------------------

  ghost predicate Inside(r: FreeRegion, o: nat) { r.fileOffset <= o < r.fileOffset + r.size }

  ghost predicate InSome(rs: seq<FreeRegion>, o: nat) {
    exists i :: 0 <= i < |rs| && Inside(rs[i], o)
  }

  ghost predicate Claimed(ss: seq<Section>, o: nat) {
    exists i :: 0 <= i < |ss| && ss[i].fileOffset <= o < ss[i].fileOffset + ss[i].size
  }

  /** In file order, disjoint, inside the segment, and addressed like the file. */
  ghost predicate Laid(ss: seq<Section>, text: Segment, file: nat) {
    && (forall i :: 0 <= i < |ss| ==> Backed(ss[i], text) && file <= ss[i].fileOffset)
    && forall i, j :: 0 <= i < j < |ss| ==> ss[i].fileOffset + ss[i].size <= ss[j].fileOffset
  }

  ghost predicate Backed(s: Section, text: Segment) {
    && s.fileOffset + s.size <= text.fileoff + text.filesize
    && s.vaddr - text.vmaddr == s.fileOffset - text.fileoff
  }

  ghost predicate Addressed(rs: seq<FreeRegion>, text: Segment) {
    forall i :: 0 <= i < |rs| ==> rs[i].vaddr - text.vmaddr == rs[i].fileOffset - text.fileoff && rs[i].size > 0
  }

  lemma InSomeSum(a: seq<FreeRegion>, b: seq<FreeRegion>, o: nat)
    ensures InSome(a + b, o) <==> InSome(a, o) || InSome(b, o)
  {
    if InSome(a, o) {
      var i :| 0 <= i < |a| && Inside(a[i], o);
      assert (a + b)[i] == a[i];
    }
    if InSome(b, o) {
      var i :| 0 <= i < |b| && Inside(b[i], o);
      assert (a + b)[|a| + i] == b[i];
    }
  }

  lemma InSomeOne(r: FreeRegion, o: nat)
    ensures InSome([r], o) <==> Inside(r, o)
  {
    assert [r][0] == r;
  }

  lemma NothingInNothing(o: nat)
    ensures !InSome([], o) && !Claimed([], o)
  {}

  lemma LaidTail(ss: seq<Section>, text: Segment, file: nat)
    requires ss != [] && Laid(ss, text, file)
    ensures Laid(ss[1..], text, ss[0].fileOffset + ss[0].size) && Backed(ss[0], text) && file <= ss[0].fileOffset
  {
    forall i | 0 <= i < |ss[1..]| ensures Backed(ss[1..][i], text) && ss[0].fileOffset + ss[0].size <= ss[1..][i].fileOffset {
      assert ss[1..][i] == ss[i + 1];
    }
  }

  lemma ClaimedTail(ss: seq<Section>, o: nat)
    requires ss != []
    ensures Claimed(ss, o) <==> ss[0].fileOffset <= o < ss[0].fileOffset + ss[0].size || Claimed(ss[1..], o)
  {
    if Claimed(ss[1..], o) {
      var i :| 0 <= i < |ss[1..]| && ss[1..][i].fileOffset <= o < ss[1..][i].fileOffset + ss[1..][i].size;
      assert ss[i + 1] == ss[1..][i];
    }
    if Claimed(ss, o) && !(ss[0].fileOffset <= o < ss[0].fileOffset + ss[0].size) {
      var i :| 0 <= i < |ss| && ss[i].fileOffset <= o < ss[i].fileOffset + ss[i].size;
      assert ss[1..][i - 1] == ss[i];
    }
  }

  lemma NoClaimBefore(ss: seq<Section>, text: Segment, file: nat, o: nat)
    requires Laid(ss, text, file) && o < file
    ensures !Claimed(ss, o)
  {}

  /** Past the header, the gaps hold exactly the bytes no section claims. */
  lemma {:induction false} GapsExact(ss: seq<Section>, text: Segment, file: nat, vaddr: nat, o: nat)
    requires Laid(ss, text, file) && file > text.fileoff && vaddr - text.vmaddr == file - text.fileoff
    ensures InSome(RegionsFrom(ss, text, file, vaddr), o) <==> file <= o < text.fileoff + text.filesize && !Claimed(ss, o)
    ensures Addressed(RegionsFrom(ss, text, file, vaddr), text)
    decreases |ss|
  {
    hide Claimed, InSome;
    NothingInNothing(o);
    var end := text.fileoff + text.filesize;
    if ss == [] {
      InSomeOne(FreeRegion(vaddr, file, if file < end then end - file else 0), o);
    } else {
      LaidTail(ss, text, file);
      var next := ss[0].fileOffset + ss[0].size;
      var gap := Gap(ss[0], text, file, vaddr);
      var rest := RegionsFrom(ss[1..], text, next, ss[0].vaddr + ss[0].size);
      GapsExact(ss[1..], text, next, ss[0].vaddr + ss[0].size, o);
      InSomeSum(gap, rest, o);
      if gap != [] {
        InSomeOne(gap[0], o);
      }
      ClaimedTail(ss, o);
      if o < next {
        NoClaimBefore(ss[1..], text, next, o);
      }
      AddressedSum(gap, rest, text);
    }
  }

  lemma AddressedSum(a: seq<FreeRegion>, b: seq<FreeRegion>, text: Segment)
    requires Addressed(a, text) && Addressed(b, text)
    ensures Addressed(a + b, text)
  {
    forall i | 0 <= i < |a + b| ensures (a + b)[i].vaddr - text.vmaddr == (a + b)[i].fileOffset - text.fileoff && (a + b)[i].size > 0 {
      assert (a + b)[i] == if i < |a| then a[i] else b[i - |a|];
    }
  }

  /** `__TEXT` is well laid out: its sections, in file order, are disjoint, backed and behind
      the header; there is at least one. */
  ghost predicate TextLaid(segs: seq<Segment>, sections: seq<Section>, text: Segment) {
    && FindSegment(segs, "__TEXT") == Some(text)
    && var ss := SortByOffset(TextSections(sections));
       ss != [] && Laid(ss, text, text.fileoff) && ss[0].fileOffset > text.fileoff
  }

  lemma RegionsAre(segs: seq<Segment>, sections: seq<Section>, text: Segment, ss: seq<Section>)
    requires TextLaid(segs, sections, text) && ss == SortByOffset(TextSections(sections))
    ensures Regions(segs, sections) == RegionsFrom(ss[1..], text, ss[0].fileOffset + ss[0].size, ss[0].vaddr + ss[0].size)
    ensures Laid(ss[1..], text, ss[0].fileOffset + ss[0].size) && Backed(ss[0], text)
  {
    hide SortByOffset;
    hide TextSections;
    hide FindSegment;
    LaidTail(ss, text, text.fileoff);
    FirstGap(ss, text);
  }

  lemma FirstGap(ss: seq<Section>, text: Segment)
    requires ss != []
    ensures RegionsFrom(ss, text, text.fileoff, text.vmaddr)
            == RegionsFrom(ss[1..], text, ss[0].fileOffset + ss[0].size, ss[0].vaddr + ss[0].size)
  {
    var rest := RegionsFrom(ss[1..], text, ss[0].fileOffset + ss[0].size, ss[0].vaddr + ss[0].size);
    assert [] + rest == rest;
  }

  /** The free regions are exactly the unclaimed bytes behind the first section's start:
      no header byte, no section byte, and nothing else is missing. */
  lemma RegionsExact(segs: seq<Segment>, sections: seq<Section>, text: Segment, o: nat)
    requires TextLaid(segs, sections, text)
    ensures var ss := SortByOffset(TextSections(sections));
            InSome(Regions(segs, sections), o) <==> ss[0].fileOffset <= o < text.fileoff + text.filesize && !Claimed(ss, o)
    ensures Addressed(Regions(segs, sections), text)
  {
    var ss := SortByOffset(TextSections(sections));
    RegionsAre(segs, sections, text, ss);
    var next := ss[0].fileOffset + ss[0].size;
    hide Regions;
    hide RegionsFrom;
    hide SortByOffset;
    hide TextSections;
    hide Claimed;
    hide InSome;
    hide Addressed;
    GapsExact(ss[1..], text, next, ss[0].vaddr + ss[0].size, o);
    ClaimedTail(ss, o);
    if o < next {
      NoClaimBefore(ss[1..], text, next, o);
    }
  }

  /** The header's first byte is offered if and only if the segment has no file-backed section. */
  lemma NoSectionsOffersHeader(segs: seq<Segment>, sections: seq<Section>, text: Segment)
    requires FindSegment(segs, "__TEXT") == Some(text) && text.filesize > 0
    requires TextSections(sections) != [] ==> TextLaid(segs, sections, text)
    ensures InSome(Regions(segs, sections), text.fileoff) <==> TextSections(sections) == []
  {
    if TextSections(sections) == [] {
      InSomeOne(FreeRegion(text.vmaddr, text.fileoff, text.filesize), text.fileoff);
    } else {
      RegionsExact(segs, sections, text, text.fileoff);
    }
  }

  /** Sorting and filtering lose no section. */
  lemma {:induction false} SortedHas(ss: seq<Section>, s: Section)
    ensures s in SortByOffset(ss) <==> s in ss
    decreases |ss|
  {
    if ss != [] {
      SortedHas(ss[1..], s);
      PlacedHas(ss[0], SortByOffset(ss[1..]), s);
      assert ss == [ss[0]] + ss[1..];
    }
  }

  lemma {:induction false} PlacedHas(x: Section, ss: seq<Section>, s: Section)
    ensures s in PlaceByOffset(x, ss) <==> s == x || s in ss
    decreases |ss|
  {
    if ss != [] && ss[0].fileOffset < x.fileOffset {
      PlacedHas(x, ss[1..], s);
      assert ss == [ss[0]] + ss[1..];
    }
  }

  lemma {:induction false} FilteredHas(sections: seq<Section>, s: Section)
    ensures s in TextSections(sections) <==> s in sections && InText(s)
    decreases |sections|
  {
    if sections != [] {
      FilteredHas(sections[1..], s);
      assert sections == [sections[0]] + sections[1..];
    }
  }

  // ----- best fit -------------------------------------------------------

  /** `align_up`; masking with a power of two is rounding up to a multiple. */
  function AlignUp(v: nat, align: nat): (r: nat)
    ensures v <= r
    ensures align > 1 ==> r % align == 0 && r < v + align
    ensures align <= 1 ==> r == v
  {
    if align <= 1 then v
    else
      RoundedUp(v, align);
      (v + align - 1) / align * align
  }

  lemma RoundedUp(v: nat, align: nat)
    requires align > 1
    ensures var r := (v + align - 1) / align * align;
            v <= r < v + align && r % align == 0
  {
    var x := v + align - 1;
    var q, m := x / align, x % align;
    assert x == q * align + m && m < align;
    MultipleOf(q, align);
  }

  lemma MultipleOf(q: nat, d: nat)
    requires d > 0
    ensures q * d % d == 0
  {
    Arithmetic.DivMod(q * d, d, q, 0);
  }

  function Padding(r: FreeRegion, align: nat): nat { AlignUp(r.vaddr, align) - r.vaddr }

  predicate Fits(r: FreeRegion, need: nat, align: nat) { Padding(r, align) + need <= r.size }

  function Usable(r: FreeRegion, align: nat): int { r.size - Padding(r, align) }

  /** Region `i` is the one best fit picks: it fits, nothing that fits is smaller, and no
      earlier region is as small. */
  ghost predicate Best(rs: seq<FreeRegion>, need: nat, align: nat, i: int) {
    && 0 <= i < |rs| && Fits(rs[i], need, align)
    && (forall j :: 0 <= j < |rs| && Fits(rs[j], need, align) ==> Usable(rs[i], align) <= Usable(rs[j], align))
    && (forall j :: 0 <= j < i && Fits(rs[j], need, align) ==> Usable(rs[i], align) < Usable(rs[j], align))
  }

  ghost predicate NoFit(rs: seq<FreeRegion>, need: nat, align: nat, k: nat) {
    forall i :: 0 <= i < k <= |rs| ==> !Fits(rs[i], need, align)
  }

  lemma BestFits(rs: seq<FreeRegion>, need: nat, align: nat, k: nat, pick: int)
    ensures NoFit(rs, need, align, 0)
    ensures k <= |rs| && Best(rs[..k], need, align, pick) ==> !NoFit(rs, need, align, k)
  {
    hide Fits, Usable;
    if k <= |rs| && Best(rs[..k], need, align, pick) {
      assert rs[..k][pick] == rs[pick];
    }
  }

  /** One more region: it takes over when it fits and is smaller. */
  lemma BestSnoc(rs: seq<FreeRegion>, need: nat, align: nat, k: nat, pick: int)
    requires k < |rs|
    ensures NoFit(rs, need, align, k) && !Fits(rs[k], need, align) ==> NoFit(rs, need, align, k + 1)
    ensures NoFit(rs, need, align, k) && Fits(rs[k], need, align) ==> Best(rs[..k + 1], need, align, k)
    ensures Best(rs[..k], need, align, pick) && !(Fits(rs[k], need, align) && Usable(rs[k], align) < Usable(rs[pick], align)) ==>
              Best(rs[..k + 1], need, align, pick)
    ensures Best(rs[..k], need, align, pick) && Fits(rs[k], need, align) && Usable(rs[k], align) < Usable(rs[pick], align) ==>
              Best(rs[..k + 1], need, align, k)
  {
    hide Fits, Usable;
    if Best(rs[..k], need, align, pick) {
      assert rs[..k][pick] == rs[pick];
      assert forall j :: 0 <= j < k ==> rs[..k][j] == rs[..k + 1][j];
    }
  }

  /** `allocate_in_text`. */
  method AllocateInText(segs: seq<Segment>, sections: seq<Section>, need: nat, align: nat) returns (r: Option<(nat, nat)>, ghost pick: int)
    ensures r.None? <==> NoFit(Regions(segs, sections), need, align, |Regions(segs, sections)|)
    ensures r.Some? ==>
              && Best(Regions(segs, sections), need, align, pick)
              && var region := Regions(segs, sections)[pick];
                 r.value == (AlignUp(region.vaddr, align), region.fileOffset + Padding(region, align))
  {
    hide Best, NoFit, Regions;
    var regions := TextFreeRegions(segs, sections);
    var best: Option<(nat, nat, nat)> := None;
    pick := -1;
    var k := 0;
    BestFits(regions, need, align, 0, pick);
    while k < |regions|
      invariant k <= |regions|
      invariant best.None? <==> NoFit(regions, need, align, k)
      invariant best.Some? ==>
                  && 0 <= pick < k && Best(regions[..k], need, align, pick)
                  && best.value == (Usable(regions[pick], align), AlignUp(regions[pick].vaddr, align), regions[pick].fileOffset + Padding(regions[pick], align))
    {
      var region := regions[k];
      var alignedVaddr := AlignUp(region.vaddr, align);
      var padding := alignedVaddr - region.vaddr;
      var alignedOff := padding + region.fileOffset;
      BestSnoc(regions, need, align, k, pick);
      if region.size >= padding + need {
        var usable := region.size - padding;
        if best.None? || usable < best.value.0 {
          best := Some((usable, alignedVaddr, alignedOff));
          pick := k;
        }
      }
      k := k + 1;
      BestFits(regions, need, align, k, pick);
    }
    assert regions[..k] == regions;
    return if best.Some? then Some((best.value.1, best.value.2)) else None, pick;
  }

  // ----- a placement is safe, complete and accepted ---------------------

  /** What best fit returns lies in one free region: aligned, behind the header and clear of
      every section. */
  lemma PlacementIsSafe(segs: seq<Segment>, sections: seq<Section>, text: Segment, need: nat, align: nat, pick: int, o: nat)
    requires TextLaid(segs, sections, text) && Best(Regions(segs, sections), need, align, pick)
    requires var region := Regions(segs, sections)[pick];
             var off := region.fileOffset + Padding(region, align);
             off <= o < off + need
    ensures var region := Regions(segs, sections)[pick];
            && AlignUp(region.vaddr, align) - text.vmaddr == region.fileOffset + Padding(region, align) - text.fileoff
            && (align > 1 ==> AlignUp(region.vaddr, align) % align == 0)
    ensures text.fileoff < o < text.fileoff + text.filesize && !Claimed(SortByOffset(TextSections(sections)), o)
  {
    RegionsExact(segs, sections, text, o);
    assert Inside(Regions(segs, sections)[pick], o);
  }

  /** An aligned free range: `need` bytes at address `v`, file offset `off`, with no section,
      empty ones included, starting in the middle of it. */
  ghost predicate FreeRange(segs: seq<Segment>, sections: seq<Section>, text: Segment, v: nat, off: nat, need: nat, align: nat) {
    && (align > 1 ==> v % align == 0) && v - text.vmaddr == off - text.fileoff
    && (forall o :: off <= o < off + need ==> Unclaimed(segs, sections, text, o))
    && NoneStarts(SortByOffset(TextSections(sections)), off, off + need)
  }

  ghost predicate NoneStarts(ss: seq<Section>, from: nat, to: nat) {
    forall k :: 0 <= k < |ss| ==> ss[k].fileOffset <= from || to <= ss[k].fileOffset
  }

  ghost predicate Unclaimed(segs: seq<Segment>, sections: seq<Section>, text: Segment, o: nat) {
    var ss := SortByOffset(TextSections(sections));
    ss != [] && ss[0].fileOffset <= o < text.fileoff + text.filesize && !Claimed(ss, o)
  }

  lemma AlignUpLeast(v: nat, align: nat, w: nat)
    requires v <= w && (align > 1 ==> w % align == 0)
    ensures AlignUp(v, align) <= w
  {
    if align > 1 {
      var k, q := w / align, (v + align - 1) / align;
      assert w == k * align;
      Arithmetic.DivMono(v + align - 1, w + align - 1, align);
      Arithmetic.DivMod(w + align - 1, align, k, align - 1);
      Product(k - q, align);
      assert (k - q) * align == k * align - q * align;
    }
  }

  lemma Product(a: nat, b: nat)
    ensures a * b >= 0
  {}

  /** A region ends where a section starts or the segment does, and no section starts in it. */
  ghost predicate Whole(r: FreeRegion, ss: seq<Section>, end: nat) {
    && (r.fileOffset + r.size == end || exists k :: 0 <= k < |ss| && ss[k].fileOffset == r.fileOffset + r.size)
    && NoneStarts(ss, r.fileOffset, r.fileOffset + r.size)
  }

  lemma WholeFront(r: FreeRegion, ss: seq<Section>, end: nat)
    requires ss != [] && Whole(r, ss[1..], end) && ss[0].fileOffset <= r.fileOffset
    ensures Whole(r, ss, end)
  {
    if k :| 0 <= k < |ss[1..]| && ss[1..][k].fileOffset == r.fileOffset + r.size {
      assert ss[k + 1].fileOffset == r.fileOffset + r.size;
    }
    forall k | 0 <= k < |ss| ensures ss[k].fileOffset <= r.fileOffset || r.fileOffset + r.size <= ss[k].fileOffset {
      assert k > 0 ==> ss[k] == ss[1..][k - 1];
    }
  }

  lemma {:induction false} RegionsWhole(ss: seq<Section>, text: Segment, file: nat, vaddr: nat, r: FreeRegion)
    requires Laid(ss, text, file) && r in RegionsFrom(ss, text, file, vaddr)
    ensures Whole(r, ss, text.fileoff + text.filesize) && r.fileOffset >= file
    decreases |ss|
  {
    if ss != [] {
      LaidTail(ss, text, file);
      var next, end := ss[0].fileOffset + ss[0].size, ss[0].vaddr + ss[0].size;
      if r in RegionsFrom(ss[1..], text, next, end) {
        hide Whole, Laid, RegionsFrom;
        RegionsWhole(ss[1..], text, next, end, r);
        WholeFront(r, ss, text.fileoff + text.filesize);
      } else {
        assert r in Gap(ss[0], text, file, vaddr);
        hide Whole, Laid, RegionsFrom;
        GapWhole(r, ss, text, file);
      }
    }
  }

  lemma GapWhole(r: FreeRegion, ss: seq<Section>, text: Segment, file: nat)
    requires ss != [] && Laid(ss, text, file) && r.fileOffset == file && r.fileOffset + r.size == ss[0].fileOffset
    ensures Whole(r, ss, text.fileoff + text.filesize)
  {
    assert ss[0].fileOffset == r.fileOffset + r.size;
    forall k | 0 <= k < |ss| ensures r.fileOffset + r.size <= ss[k].fileOffset {
      assert k > 0 ==> ss[0].fileOffset + ss[0].size <= ss[k].fileOffset;
    }
  }

  lemma TextWhole(segs: seq<Segment>, sections: seq<Section>, text: Segment, i: nat)
    requires TextLaid(segs, sections, text) && i < |Regions(segs, sections)|
    ensures Whole(Regions(segs, sections)[i], SortByOffset(TextSections(sections)), text.fileoff + text.filesize)
  {
    var ss := SortByOffset(TextSections(sections));
    RegionsAre(segs, sections, text, ss);
    assert ss != [];
    hide *;
    TailWhole(ss, text, i);
  }

  lemma TailWhole(ss: seq<Section>, text: Segment, i: nat)
    requires ss != [] && Laid(ss[1..], text, ss[0].fileOffset + ss[0].size)
    requires i < |RegionsFrom(ss[1..], text, ss[0].fileOffset + ss[0].size, ss[0].vaddr + ss[0].size)|
    ensures Whole(RegionsFrom(ss[1..], text, ss[0].fileOffset + ss[0].size, ss[0].vaddr + ss[0].size)[i], ss, text.fileoff + text.filesize)
  {
    hide *;
    var rs := RegionsFrom(ss[1..], text, ss[0].fileOffset + ss[0].size, ss[0].vaddr + ss[0].size);
    assert rs[i] in rs;
    RegionsWhole(ss[1..], text, ss[0].fileOffset + ss[0].size, ss[0].vaddr + ss[0].size, rs[i]);
    WholeFront(rs[i], ss, text.fileoff + text.filesize);
  }

  /** A covered range in which no section starts lies in the region of its first byte. */
  lemma RangeInOne(rs: seq<FreeRegion>, ss: seq<Section>, end: nat, off: nat, need: nat, i: nat)
    requires need > 0 && i < |rs| && Inside(rs[i], off) && Whole(rs[i], ss, end)
    requires off + need <= end && NoneStarts(ss, off, off + need)
    ensures off + need <= rs[i].fileOffset + rs[i].size
  {}

  /** Best fit gives up exactly when `__TEXT` has no aligned free range of that size. */
  lemma NoneMeansNoRange(segs: seq<Segment>, sections: seq<Section>, text: Segment, need: nat, align: nat)
    requires TextLaid(segs, sections, text) && need > 0
    ensures (exists i :: 0 <= i < |Regions(segs, sections)| && Fits(Regions(segs, sections)[i], need, align))
            <==> exists v: nat, off: nat :: FreeRange(segs, sections, text, v, off, need, align)
  {
    hide FreeRange, Fits, TextLaid;
    var rs := Regions(segs, sections);
    if i :| 0 <= i < |rs| && Fits(rs[i], need, align) {
      FitGivesRange(segs, sections, text, need, align, i);
    }
    if v: nat, off: nat :| FreeRange(segs, sections, text, v, off, need, align) {
      var i := RangeGivesFit(segs, sections, text, need, align, v, off);
    }
  }

  lemma FitGivesRange(segs: seq<Segment>, sections: seq<Section>, text: Segment, need: nat, align: nat, i: nat)
    requires TextLaid(segs, sections, text) && i < |Regions(segs, sections)| && Fits(Regions(segs, sections)[i], need, align)
    ensures var r := Regions(segs, sections)[i];
            FreeRange(segs, sections, text, AlignUp(r.vaddr, align), r.fileOffset + Padding(r, align), need, align)
  {
    var r := Regions(segs, sections)[i];
    var off := r.fileOffset + Padding(r, align);
    RegionsExact(segs, sections, text, 0);
    TextWhole(segs, sections, text, i);
    forall o | off <= o < off + need ensures Unclaimed(segs, sections, text, o) {
      RegionsExact(segs, sections, text, o);
      assert Inside(r, o);
    }
  }

  lemma RangeGivesFit(segs: seq<Segment>, sections: seq<Section>, text: Segment, need: nat, align: nat, v: nat, off: nat) returns (i: nat)
    requires TextLaid(segs, sections, text) && need > 0 && FreeRange(segs, sections, text, v, off, need, align)
    ensures i < |Regions(segs, sections)| && Fits(Regions(segs, sections)[i], need, align)
  {
    var rs := Regions(segs, sections);
    assert Unclaimed(segs, sections, text, off);
    RegionsExact(segs, sections, text, off);
    i :| 0 <= i < |rs| && Inside(rs[i], off);
    TextWhole(segs, sections, text, i);
    assert Unclaimed(segs, sections, text, off + need - 1);
    RangeInOne(rs, SortByOffset(TextSections(sections)), text.fileoff + text.filesize, off, need, i);
    AlignUpLeast(rs[i].vaddr, align, v);
  }

  // ----- the writer -----------------------------------------------------

  datatype IntraError = NoRegion | WrongOffset(expected: nat) | BadOverride(error: SectionError) | PastEnd | BadPatch(k: nat)

  function FindRegion(rs: seq<FreeRegion>, vaddr: nat, length: nat): (r: Option<FreeRegion>)
    ensures r.Some? ==> r.value in rs && vaddr >= r.value.vaddr && vaddr + length <= r.value.vaddr + r.value.size
    ensures r.None? ==> forall i :: 0 <= i < |rs| ==> !(vaddr >= rs[i].vaddr && vaddr + length <= rs[i].vaddr + rs[i].size)
  {
    if rs == [] then None
    else if vaddr >= rs[0].vaddr && vaddr + length <= rs[0].vaddr + rs[0].size then Some(rs[0])
    else FindRegion(rs[1..], vaddr, length)
  }

  /** What the writer changes, in its order: overridden sections, the payload, raw overrides. */
  function IntraPatches(sections: seq<Section>, overrides: seq<SectionOverride>, fileOffset: nat, payload: seq<byte>, raw: seq<Patch>): seq<Patch> {
    Resolved(overrides, sections) + ([(fileOffset, payload)] + raw)
  }

  /** `write_with_intra_text_append_opts` up to signing. Where the source's slice of an overridden
      section would panic, it is an error. */
  method WriteIntraText(bytes: seq<byte>, segs: seq<Segment>, sections: seq<Section>, vaddr: nat, fileOffset: nat, payload: seq<byte>,
                        overrides: seq<SectionOverride>, raw: seq<Patch>)
    returns (r: Result<seq<byte>, IntraError>)
    ensures r.Ok? <==>
              var found := FindRegion(Regions(segs, sections), vaddr, |payload|);
              && found.Some? && found.value.fileOffset + (vaddr - found.value.vaddr) == fileOffset
              && (forall k :: 0 <= k < |overrides| ==> SizeMatches(overrides[k], sections))
              && PatchAll(bytes, IntraPatches(sections, overrides, fileOffset, payload, raw), 0).Ok?
    ensures r.Ok? ==> PatchAll(bytes, IntraPatches(sections, overrides, fileOffset, payload, raw), 0) == Ok(r.value)
  {
    hide PatchAll, Resolved, SizeMatches, Regions;
    var regions := TextFreeRegions(segs, sections);
    var found := FindRegion(regions, vaddr, |payload|);
    if found.None? {
      return Err(NoRegion);
    }
    var expected := found.value.fileOffset + (vaddr - found.value.vaddr);
    if expected != fileOffset {
      return Err(WrongOffset(expected));
    }
    var image := new byte[|bytes|](i requires 0 <= i < |bytes| => bytes[i]);
    assert image[..] == bytes;
    PatchSum(bytes, Resolved(overrides, sections), [(fileOffset, payload)] + raw, 0);
    var overridden := ApplySectionOverrides(image, sections, overrides);
    if overridden.Err? {
      return Err(BadOverride(overridden.error));
    }
    ghost var before := image[..];
    PayloadFirst(before, fileOffset, payload, raw);
    if fileOffset + |payload| > |bytes| {
      return Err(PastEnd);
    }
    forall i | 0 <= i < |payload| {
      image[fileOffset + i] := payload[i];
    }
    PatchedIs(before, (fileOffset, payload), image[..]);
    var patched := ApplyRawByteOverrides(image, raw);
    if patched.Err? {
      return Err(BadPatch(patched.error));
    }
    return Ok(image[..]);
  }

  lemma PayloadFirst(before: seq<byte>, fileOffset: nat, payload: seq<byte>, raw: seq<Patch>)
    ensures fileOffset + |payload| > |before| ==> PatchAll(before, [(fileOffset, payload)] + raw, 0).Err?
    ensures fileOffset + |payload| <= |before| ==>
              var next := PatchAll(Patched(before, (fileOffset, payload)), raw, 0);
              && (next.Ok? <==> PatchAll(before, [(fileOffset, payload)] + raw, 0).Ok?)
              && (next.Ok? ==> PatchAll(before, [(fileOffset, payload)] + raw, 0) == next)
  {
    var p: Patch := (fileOffset, payload);
    if Overrides.Fits(p, |before|) {
      SecondList(Patched(before, p), [p], raw, 0);
    }
  }

  /** A placement from best fit passes every check of the writer, for any payload of the
      placed size. */
  lemma PlacementAccepted(segs: seq<Segment>, sections: seq<Section>, text: Segment, need: nat, align: nat, pick: int, size: nat)
    requires TextLaid(segs, sections, text) && Best(Regions(segs, sections), need, align, pick) && need > 0
    requires text.fileoff + text.filesize <= size
    ensures var region := Regions(segs, sections)[pick];
            var vaddr, off := AlignUp(region.vaddr, align), region.fileOffset + Padding(region, align);
            var found := FindRegion(Regions(segs, sections), vaddr, need);
            && found.Some? && found.value.vaddr <= vaddr && found.value.fileOffset + (vaddr - found.value.vaddr) == off && off + need <= size
  {
    var rs := Regions(segs, sections);
    var off := rs[pick].fileOffset + Padding(rs[pick], align);
    RegionsExact(segs, sections, text, off + need - 1);
    assert Inside(rs[pick], off + need - 1);
    var found := FindRegion(rs, AlignUp(rs[pick].vaddr, align), need);
    var i :| 0 <= i < |rs| && rs[i] == found.value;
  }

  /** A byte of a section of `__TEXT` that no override names stays what it was. */
  lemma SectionsKept(bytes: seq<byte>, segs: seq<Segment>, sections: seq<Section>, text: Segment, need: nat, align: nat, pick: int,
                     payload: seq<byte>, overrides: seq<SectionOverride>, raw: seq<Patch>, s: Section, o: nat)
    requires TextLaid(segs, sections, text) && Best(Regions(segs, sections), need, align, pick) && |payload| == need
    requires s in sections && InText(s) && s.fileOffset <= o < s.fileOffset + s.size && o < |bytes|
    requires !Touched(Resolved(overrides, sections), o) && !Touched(raw, o)
    requires var off := Regions(segs, sections)[pick].fileOffset + Padding(Regions(segs, sections)[pick], align);
             PatchAll(bytes, IntraPatches(sections, overrides, off, payload, raw), 0).Ok?
    ensures var off := Regions(segs, sections)[pick].fileOffset + Padding(Regions(segs, sections)[pick], align);
            PatchAll(bytes, IntraPatches(sections, overrides, off, payload, raw), 0).value[o] == bytes[o]
  {
    var off := Regions(segs, sections)[pick].fileOffset + Padding(Regions(segs, sections)[pick], align);
    SectionClear(segs, sections, text, need, align, pick, s, o);
    hide PatchAll, Regions, Padding, TextLaid, Best, Resolved;
    var ps := IntraPatches(sections, overrides, off, payload, raw);
    assert !Touched(ps, o) by {
      forall p | p in ps ensures !(p.0 <= o < p.0 + |p.1|) {
        assert p in Resolved(overrides, sections) || p == (off, payload) || p in raw;
      }
    }
    OthersStay(bytes, ps, 0, o);
  }

  /** The chosen range holds no byte of a section. */
  lemma SectionClear(segs: seq<Segment>, sections: seq<Section>, text: Segment, need: nat, align: nat, pick: int, s: Section, o: nat)
    requires TextLaid(segs, sections, text) && Best(Regions(segs, sections), need, align, pick)
    requires s in sections && InText(s) && s.fileOffset <= o < s.fileOffset + s.size
    ensures var off := Regions(segs, sections)[pick].fileOffset + Padding(Regions(segs, sections)[pick], align);
            !(off <= o < off + need)
  {
    var off := Regions(segs, sections)[pick].fileOffset + Padding(Regions(segs, sections)[pick], align);
    FilteredHas(sections, s);
    SortedHas(TextSections(sections), s);
    var ss := SortByOffset(TextSections(sections));
    var i :| 0 <= i < |ss| && ss[i] == s;
    assert Claimed(ss, o);
    if off <= o < off + need {
      PlacementIsSafe(segs, sections, text, need, align, pick, o);
    }
  }

  /** An overridden section holds its new bytes, unless a later patch reaches into it. */
  lemma OverrideStands(bytes: seq<byte>, sections: seq<Section>, overrides: seq<SectionOverride>, fileOffset: nat, payload: seq<byte>, raw: seq<Patch>)
    requires var ps := IntraPatches(sections, overrides, fileOffset, payload, raw);
             AllApart(ps) && PatchAll(bytes, ps, 0).Ok?
    ensures var out := PatchAll(bytes, IntraPatches(sections, overrides, fileOffset, payload, raw), 0).value;
            && HasAt(out, fileOffset, payload) && (forall p :: p in raw ==> HasAt(out, p.0, p.1))
            && forall k :: 0 <= k < |overrides| && EntryAt(sections, overrides[k].address).Some? ==>
                 HasAt(out, EntryAt(sections, overrides[k].address).value.fileOffset, overrides[k].bytes)
  {
    var ps := IntraPatches(sections, overrides, fileOffset, payload, raw);
    PatchesStand(bytes, ps, 0);
    hide PatchAll, HasAt;
    assert ps[|Resolved(overrides, sections)|] == (fileOffset, payload) && (fileOffset, payload) in ps;
    forall p | p in raw ensures p in ps {}
    forall k | 0 <= k < |overrides| && EntryAt(sections, overrides[k].address).Some?
      ensures (EntryAt(sections, overrides[k].address).value.fileOffset, overrides[k].bytes) in ps
    {
      ResolvedHas(overrides, sections, k);
    }
  }
}
