/** Text growth: `delta` bytes are inserted at file offset `gp` and every segment and section
    at or past the insert is moved. Addresses move by `Phi`, file offsets by `Psi`. */
module Growth {
  import opened Bytes
  import opened MachOLayout

  /** An `LC_SEGMENT_64` with its section table. */
  datatype SegmentCommand = SegmentCommand(seg: Segment, sections: seq<Section>)

  function Psi(offset: nat, gp: nat, delta: nat): nat { if offset >= gp then offset + delta else offset }

  function Phi(v: nat, growthVa: nat, delta: nat): nat { if v >= growthVa then v + delta else v }

  // ----- patching the load commands -------------------------------------

  /** Zero means "no data" and stays. */
  function Bump(v: nat, delta: nat): nat { if v == 0 then 0 else v + delta }

  function BumpU32(v: nat, delta: nat): nat { if v == 0 then 0 else (v + delta) % U32_LIMIT }

  predicate Straddles(seg: Segment, gp: nat) { seg.fileoff <= gp < seg.fileoff + seg.filesize }

  /** The address of the growth point, from the first segment whose file range holds it. */
  function InsertVaddr(cmds: seq<SegmentCommand>, gp: nat): nat {
    if cmds == [] then gp
    else if Straddles(cmds[0].seg, gp) then cmds[0].seg.vmaddr + (gp - cmds[0].seg.fileoff)
    else InsertVaddr(cmds[1..], gp)
  }

  function GrowSection(s: Section, delta: nat, threshold: nat): Section {
    if s.vaddr < threshold then s
    else s.(vaddr := Bump(s.vaddr, delta), fileOffset := BumpU32(s.fileOffset, delta))
  }

  function GrowSections(ss: seq<Section>, delta: nat, threshold: nat): (r: seq<Section>)
    ensures |r| == |ss| && forall i :: 0 <= i < |ss| ==> r[i] == GrowSection(ss[i], delta, threshold)
  {
    seq(|ss|, (i: nat) requires i < |ss| => GrowSection(ss[i], delta, threshold))
  }

  function GrowCommand(c: SegmentCommand, gp: nat, delta: nat, insertVaddr: nat): SegmentCommand {
    var seg := c.seg;
    if Straddles(seg, gp) then
      SegmentCommand(seg.(vmsize := Bump(seg.vmsize, delta), filesize := Bump(seg.filesize, delta)),
                     GrowSections(c.sections, delta, insertVaddr))
    else if seg.vmaddr >= insertVaddr then
      SegmentCommand(seg.(vmaddr := Bump(seg.vmaddr, delta), fileoff := Bump(seg.fileoff, delta)),
                     GrowSections(c.sections, delta, 0))
    else c
  }

  function GrownFrom(cmds: seq<SegmentCommand>, gp: nat, delta: nat, insertVaddr: nat): (r: seq<SegmentCommand>)
    ensures |r| == |cmds| && forall i :: 0 <= i < |cmds| ==> r[i] == GrowCommand(cmds[i], gp, delta, insertVaddr)
  {
    seq(|cmds|, (i: nat) requires i < |cmds| => GrowCommand(cmds[i], gp, delta, insertVaddr))
  }

  function Grown(cmds: seq<SegmentCommand>, gp: nat, delta: nat): seq<SegmentCommand> {
    GrownFrom(cmds, gp, delta, InsertVaddr(cmds, gp))
  }

  // ----- address lookup -------------------------------------------------

  predicate Contains(s: Section, v: nat) {
    s.size != 0 && s.vaddr <= v && v < if s.vaddr + s.size < U64_LIMIT then s.vaddr + s.size else U64_LIMIT - 1
  }

  /** `section_containing_vaddr`: the first section that claims `v`. */
  function SectionAt(ss: seq<Section>, v: nat): (r: Option<Section>)
    ensures r.Some? ==> Contains(r.value, v)
  {
    if ss == [] then None else if Contains(ss[0], v) then Some(ss[0]) else SectionAt(ss[1..], v)
  }

  /** `file_offset_for_vaddr`. */
  function FileOffsetFor(ss: seq<Section>, v: nat): Option<nat> {
    match SectionAt(ss, v)
    case None => None
    case Some(s) => if s.fileOffset == 0 then None else Some(s.fileOffset + (v - s.vaddr))
  }

  function AllSections(cmds: seq<SegmentCommand>): seq<Section> {
    if cmds == [] then [] else cmds[0].sections + AllSections(cmds[1..])
  }

  // ----- well-formed images ---------------------------------------------

  ghost predicate SectionInside(s: Section, seg: Segment) {
    && seg.vmaddr <= s.vaddr && s.vaddr + s.size <= seg.vmaddr + seg.vmsize
    && (s.fileOffset != 0 ==>
          && s.fileOffset - seg.fileoff == s.vaddr - seg.vmaddr
          && s.fileOffset + s.size <= seg.fileoff + seg.filesize)
  }

  ghost predicate SectionsInside(c: SegmentCommand) {
    forall i :: 0 <= i < |c.sections| ==> SectionInside(c.sections[i], c.seg)
  }

  /** No section of `c` runs across the growth address. */
  ghost predicate ClearOf(c: SegmentCommand, growthVa: nat) {
    forall i :: 0 <= i < |c.sections| ==> c.sections[i].vaddr >= growthVa || c.sections[i].vaddr + c.sections[i].size <= growthVa
  }

  /** The moved fields keep their width: 32-bit offsets, 64-bit addresses. */
  ghost predicate WidthsHold(c: SegmentCommand, delta: nat) {
    forall i :: 0 <= i < |c.sections| ==>
      c.sections[i].fileOffset + delta < U32_LIMIT && c.sections[i].vaddr + c.sections[i].size + delta < U64_LIMIT
  }

  ghost predicate Leading(seg: Segment, text: Segment) {
    seg.vmaddr + seg.vmsize <= text.vmaddr && seg.fileoff + seg.filesize <= text.fileoff
  }

  ghost predicate Trailing(seg: Segment, text: Segment) {
    && text.vmaddr + text.vmsize <= seg.vmaddr
    && (text.fileoff + text.filesize <= seg.fileoff || (seg.fileoff == 0 && seg.filesize == 0))
  }

  function GrowthVa(text: Segment, gp: nat): nat
    requires Straddles(text, gp)
  {
    text.vmaddr + (gp - text.fileoff)
  }

  /** Segment `t` holds the growth point past its start; file order agrees with address
      order around it; sections sit inside their segments and clear of the insert. */
  ghost predicate WellFormed(cmds: seq<SegmentCommand>, t: nat, gp: nat, delta: nat) {
    && t < |cmds|
    && Straddles(cmds[t].seg, gp) && cmds[t].seg.fileoff < gp && cmds[t].seg.filesize <= cmds[t].seg.vmsize
    && (forall k :: 0 <= k < |cmds| ==> SectionsInside(cmds[k]) && WidthsHold(cmds[k], delta))
    && (forall k :: 0 <= k < |cmds| && k != t ==> Leading(cmds[k].seg, cmds[t].seg) || Trailing(cmds[k].seg, cmds[t].seg))
    && ClearOf(cmds[t], GrowthVa(cmds[t].seg, gp))
  }

  lemma OnlyTextStraddles(cmds: seq<SegmentCommand>, t: nat, gp: nat, delta: nat, k: nat)
    requires WellFormed(cmds, t, gp, delta) && k < |cmds|
    ensures Straddles(cmds[k].seg, gp) <==> k == t
  {}

  lemma {:induction false} InsertVaddrIs(cmds: seq<SegmentCommand>, t: nat, gp: nat)
    requires t < |cmds| && forall k :: 0 <= k < |cmds| ==> (Straddles(cmds[k].seg, gp) <==> k == t)
    ensures InsertVaddr(cmds, gp) == GrowthVa(cmds[t].seg, gp)
  {
    if t > 0 {
      assert !Straddles(cmds[0].seg, gp);
      assert forall k :: 0 <= k < |cmds[1..]| ==> cmds[1..][k] == cmds[k + 1];
      InsertVaddrIs(cmds[1..], t - 1, gp);
    }
  }

  lemma InsertIsGrowthVa(cmds: seq<SegmentCommand>, t: nat, gp: nat, delta: nat)
    requires WellFormed(cmds, t, gp, delta)
    ensures InsertVaddr(cmds, gp) == GrowthVa(cmds[t].seg, gp)
  {
    forall k | 0 <= k < |cmds| ensures Straddles(cmds[k].seg, gp) <==> k == t {
      OnlyTextStraddles(cmds, t, gp, delta, k);
    }
    InsertVaddrIs(cmds, t, gp);
  }

  function Fate(seg: Segment, text: Segment, isText: bool, delta: nat): Segment {
    if isText then seg.(vmsize := seg.vmsize + delta, filesize := seg.filesize + delta)
    else if seg.vmaddr < text.vmaddr + text.vmsize then seg
    else seg.(vmaddr := seg.vmaddr + delta, fileoff := Bump(seg.fileoff, delta))
  }

  /** How a segment fares: the text grows, trailing segments move, leading ones stay. */
  lemma GrownSegment(cmds: seq<SegmentCommand>, t: nat, gp: nat, delta: nat, k: nat)
    requires WellFormed(cmds, t, gp, delta) && k < |cmds|
    ensures Grown(cmds, gp, delta)[k].seg == Fate(cmds[k].seg, cmds[t].seg, k == t, delta)
  {
    InsertIsGrowthVa(cmds, t, gp, delta);
    OnlyTextStraddles(cmds, t, gp, delta, k);
  }

  // ----- segments stay disjoint -----------------------------------------

  ghost predicate VmDisjoint(a: Segment, b: Segment) {
    a.vmaddr + a.vmsize <= b.vmaddr || b.vmaddr + b.vmsize <= a.vmaddr
  }

  /** Two segments, zerofill-only ones included, overlap after the growth exactly when they
      did before. */
  lemma DisjointnessKept(cmds: seq<SegmentCommand>, t: nat, gp: nat, delta: nat, j: nat, k: nat)
    requires WellFormed(cmds, t, gp, delta) && j < |cmds| && k < |cmds| && j != k
    ensures var grown := Grown(cmds, gp, delta);
            VmDisjoint(grown[j].seg, grown[k].seg) <==> VmDisjoint(cmds[j].seg, cmds[k].seg)
  {
    GrownSegment(cmds, t, gp, delta, j);
    GrownSegment(cmds, t, gp, delta, k);
  }

  // ----- lookups commute with the growth --------------------------------

  /** `now` is section `s` after the growth: wholly before the insert and untouched, or
      wholly past it and moved. */
  ghost predicate SectionMoved(s: Section, now: Section, gp: nat, growthVa: nat, delta: nat) {
    && s.vaddr + s.size + delta < U64_LIMIT
    && ((now == s && s.vaddr + s.size <= growthVa && (s.fileOffset != 0 ==> s.fileOffset + s.size <= gp))
        || (&& now == s.(vaddr := s.vaddr + delta, fileOffset := if s.fileOffset == 0 then 0 else s.fileOffset + delta)
            && s.vaddr >= growthVa && (s.fileOffset != 0 ==> s.fileOffset >= gp)))
  }

  ghost predicate SectionsMoved(ss: seq<Section>, now: seq<Section>, gp: nat, growthVa: nat, delta: nat) {
    |now| == |ss| && forall i :: 0 <= i < |ss| ==> SectionMoved(ss[i], now[i], gp, growthVa, delta)
  }

  lemma TextSections(c: SegmentCommand, gp: nat, delta: nat)
    requires SectionsInside(c) && WidthsHold(c, delta) && Straddles(c.seg, gp) && c.seg.fileoff < gp
    requires ClearOf(c, GrowthVa(c.seg, gp))
    ensures SectionsMoved(c.sections, GrowSections(c.sections, delta, GrowthVa(c.seg, gp)), gp, GrowthVa(c.seg, gp), delta)
  {
    var va := GrowthVa(c.seg, gp);
    var now := GrowSections(c.sections, delta, va);
    forall i | 0 <= i < |c.sections| ensures SectionMoved(c.sections[i], now[i], gp, va, delta) {
      var s := c.sections[i];
      assert SectionInside(s, c.seg);
      assert s.fileOffset + delta < U32_LIMIT && s.vaddr + s.size + delta < U64_LIMIT;
      assert s.vaddr >= va || s.vaddr + s.size <= va;
    }
  }

  lemma TrailingSections(c: SegmentCommand, gp: nat, growthVa: nat, delta: nat)
    requires SectionsInside(c) && WidthsHold(c, delta)
    requires 0 < growthVa <= c.seg.vmaddr && (gp <= c.seg.fileoff || (c.seg.fileoff == 0 && c.seg.filesize == 0))
    ensures SectionsMoved(c.sections, GrowSections(c.sections, delta, 0), gp, growthVa, delta)
  {
    var now := GrowSections(c.sections, delta, 0);
    forall i | 0 <= i < |c.sections| ensures SectionMoved(c.sections[i], now[i], gp, growthVa, delta) {
      var s := c.sections[i];
      assert SectionInside(s, c.seg);
      assert s.fileOffset + delta < U32_LIMIT && s.vaddr + s.size + delta < U64_LIMIT;
    }
  }

  lemma LeadingSections(c: SegmentCommand, gp: nat, growthVa: nat, delta: nat)
    requires SectionsInside(c) && WidthsHold(c, delta)
    requires c.seg.vmaddr + c.seg.vmsize <= growthVa && c.seg.fileoff + c.seg.filesize <= gp
    ensures SectionsMoved(c.sections, c.sections, gp, growthVa, delta)
  {
    forall i | 0 <= i < |c.sections| ensures SectionMoved(c.sections[i], c.sections[i], gp, growthVa, delta) {
      var s := c.sections[i];
      assert SectionInside(s, c.seg);
      assert s.vaddr + s.size + delta < U64_LIMIT;
    }
  }

  lemma CommandSections(cmds: seq<SegmentCommand>, t: nat, gp: nat, delta: nat, k: nat)
    requires WellFormed(cmds, t, gp, delta) && k < |cmds|
    ensures SectionsMoved(cmds[k].sections, Grown(cmds, gp, delta)[k].sections, gp, GrowthVa(cmds[t].seg, gp), delta)
  {
    InsertIsGrowthVa(cmds, t, gp, delta);
    OnlyTextStraddles(cmds, t, gp, delta, k);
    assert SectionsInside(cmds[k]) && WidthsHold(cmds[k], delta);
    if k == t {
      TextSections(cmds[k], gp, delta);
    } else if Leading(cmds[k].seg, cmds[t].seg) {
      LeadingSections(cmds[k], gp, GrowthVa(cmds[t].seg, gp), delta);
    } else {
      TrailingSections(cmds[k], gp, GrowthVa(cmds[t].seg, gp), delta);
    }
  }

  ghost predicate CommandsMoved(cmds: seq<SegmentCommand>, now: seq<SegmentCommand>, gp: nat, growthVa: nat, delta: nat) {
    |now| == |cmds| && forall k :: 0 <= k < |cmds| ==> SectionsMoved(cmds[k].sections, now[k].sections, gp, growthVa, delta)
  }

  lemma {:induction false} AllMoved(cmds: seq<SegmentCommand>, now: seq<SegmentCommand>, gp: nat, growthVa: nat, delta: nat)
    requires CommandsMoved(cmds, now, gp, growthVa, delta)
    ensures SectionsMoved(AllSections(cmds), AllSections(now), gp, growthVa, delta)
  {
    if cmds != [] {
      assert CommandsMoved(cmds[1..], now[1..], gp, growthVa, delta) by {
        assert forall k :: 0 <= k < |cmds[1..]| ==> cmds[1..][k] == cmds[k + 1] && now[1..][k] == now[k + 1];
      }
      AllMoved(cmds[1..], now[1..], gp, growthVa, delta);
      assert SectionsMoved(cmds[0].sections, now[0].sections, gp, growthVa, delta);
    }
  }

  lemma GrownSections(cmds: seq<SegmentCommand>, t: nat, gp: nat, delta: nat)
    requires WellFormed(cmds, t, gp, delta)
    ensures SectionsMoved(AllSections(cmds), AllSections(Grown(cmds, gp, delta)), gp, GrowthVa(cmds[t].seg, gp), delta)
  {
    var grown := Grown(cmds, gp, delta);
    forall k | 0 <= k < |cmds| ensures SectionsMoved(cmds[k].sections, grown[k].sections, gp, GrowthVa(cmds[t].seg, gp), delta) {
      CommandSections(cmds, t, gp, delta, k);
    }
    AllMoved(cmds, grown, gp, GrowthVa(cmds[t].seg, gp), delta);
  }

  lemma MovedContains(s: Section, now: Section, gp: nat, growthVa: nat, delta: nat, v: nat)
    requires SectionMoved(s, now, gp, growthVa, delta)
    ensures Contains(now, Phi(v, growthVa, delta)) <==> Contains(s, v)
  {}

  function PsiOption(o: Option<nat>, gp: nat, delta: nat): Option<nat> {
    match o
    case None => None
    case Some(offset) => Some(Psi(offset, gp, delta))
  }

  lemma {:induction false} MovedLookup(ss: seq<Section>, now: seq<Section>, gp: nat, growthVa: nat, delta: nat, v: nat)
    requires SectionsMoved(ss, now, gp, growthVa, delta)
    ensures FileOffsetFor(now, Phi(v, growthVa, delta)) == PsiOption(FileOffsetFor(ss, v), gp, delta)
  {
    if ss != [] {
      MovedContains(ss[0], now[0], gp, growthVa, delta, v);
      if !Contains(ss[0], v) {
        MovedLookup(ss[1..], now[1..], gp, growthVa, delta, v);
      } else {
        assert SectionMoved(ss[0], now[0], gp, growthVa, delta);
      }
    }
  }

  /** The section table of the grown image maps the moved address to the moved file offset,
      whatever the address, mapped or not. */
  lemma LookupCommutes(cmds: seq<SegmentCommand>, t: nat, gp: nat, delta: nat, v: nat)
    requires WellFormed(cmds, t, gp, delta)
    ensures FileOffsetFor(AllSections(Grown(cmds, gp, delta)), Phi(v, GrowthVa(cmds[t].seg, gp), delta))
            == PsiOption(FileOffsetFor(AllSections(cmds), v), gp, delta)
  {
    GrownSections(cmds, t, gp, delta);
    MovedLookup(AllSections(cmds), AllSections(Grown(cmds, gp, delta)), gp, GrowthVa(cmds[t].seg, gp), delta, v);
  }

  lemma {:induction false} GapUnclaimed(ss: seq<Section>, now: seq<Section>, gp: nat, growthVa: nat, delta: nat, v: nat)
    requires SectionsMoved(ss, now, gp, growthVa, delta) && growthVa <= v < growthVa + delta
    ensures SectionAt(now, v) == None
  {
    if ss != [] {
      assert SectionMoved(ss[0], now[0], gp, growthVa, delta);
      GapUnclaimed(ss[1..], now[1..], gp, growthVa, delta, v);
    }
  }

  /** No section claims an inserted address. */
  lemma GapIsFree(cmds: seq<SegmentCommand>, t: nat, gp: nat, delta: nat, v: nat)
    requires WellFormed(cmds, t, gp, delta)
    requires GrowthVa(cmds[t].seg, gp) <= v < GrowthVa(cmds[t].seg, gp) + delta
    ensures SectionAt(AllSections(Grown(cmds, gp, delta)), v) == None
  {
    GrownSections(cmds, t, gp, delta);
    GapUnclaimed(AllSections(cmds), AllSections(Grown(cmds, gp, delta)), gp, GrowthVa(cmds[t].seg, gp), delta, v);
  }

  // ----- growing again --------------------------------------------------

  lemma GrownInside(cmds: seq<SegmentCommand>, t: nat, gp: nat, delta: nat, k: nat)
    requires WellFormed(cmds, t, gp, delta) && k < |cmds|
    ensures SectionsInside(Grown(cmds, gp, delta)[k])
  {
    var now := Grown(cmds, gp, delta)[k];
    CommandSections(cmds, t, gp, delta, k);
    GrownSegment(cmds, t, gp, delta, k);
    assert SectionsInside(cmds[k]);
    forall i | 0 <= i < |now.sections| ensures SectionInside(now.sections[i], now.seg) {
      assert SectionInside(cmds[k].sections[i], cmds[k].seg);
      assert SectionMoved(cmds[k].sections[i], now.sections[i], gp, GrowthVa(cmds[t].seg, gp), delta);
    }
  }

  lemma GrownClear(cmds: seq<SegmentCommand>, t: nat, gp: nat, delta: nat)
    requires WellFormed(cmds, t, gp, delta)
    ensures ClearOf(Grown(cmds, gp, delta)[t], GrowthVa(cmds[t].seg, gp) + delta)
  {
    CommandSections(cmds, t, gp, delta, t);
    var was, now := cmds[t].sections, Grown(cmds, gp, delta)[t].sections;
    forall i | 0 <= i < |now|
      ensures now[i].vaddr >= GrowthVa(cmds[t].seg, gp) + delta || now[i].vaddr + now[i].size <= GrowthVa(cmds[t].seg, gp) + delta
    {
      assert SectionMoved(was[i], now[i], gp, GrowthVa(cmds[t].seg, gp), delta);
    }
  }

  /** Growth keeps the image well formed, so it can be grown again at the moved point. */
  lemma GrownWellFormed(cmds: seq<SegmentCommand>, t: nat, gp: nat, delta: nat, more: nat)
    requires WellFormed(cmds, t, gp, delta)
    requires forall k :: 0 <= k < |cmds| ==> WidthsHold(Grown(cmds, gp, delta)[k], more)
    ensures WellFormed(Grown(cmds, gp, delta), t, gp + delta, more)
  {
    var grown := Grown(cmds, gp, delta);
    GrownSegment(cmds, t, gp, delta, t);
    forall k | 0 <= k < |cmds|
      ensures SectionsInside(grown[k])
      ensures k != t ==> Leading(grown[k].seg, grown[t].seg) || Trailing(grown[k].seg, grown[t].seg)
    {
      GrownInside(cmds, t, gp, delta, k);
      GrownSegment(cmds, t, gp, delta, k);
    }
    GrownClear(cmds, t, gp, delta);
  }

  lemma GrownVa(cmds: seq<SegmentCommand>, t: nat, gp: nat, delta: nat)
    requires WellFormed(cmds, t, gp, delta)
    ensures var text := Grown(cmds, gp, delta)[t].seg;
            Straddles(text, gp + delta) && GrowthVa(text, gp + delta) == GrowthVa(cmds[t].seg, gp) + delta
  {
    GrownSegment(cmds, t, gp, delta, t);
  }

  /** One section, empty or not, through two moves and through their sum: below a segment's
      own threshold, or with the whole segment. */
  lemma SectionAdds(s: Section, delta: nat, more: nat, threshold: nat, next: nat)
    requires (threshold == next == 0) || (0 < threshold && next == threshold + delta)
    requires s.vaddr >= threshold ==> s.fileOffset + delta < U32_LIMIT
    requires GrowSection(s, delta, threshold).fileOffset + more < U32_LIMIT
    ensures GrowSection(GrowSection(s, delta, threshold), more, next) == GrowSection(s, delta + more, threshold)
  {}

  lemma SectionsAdd(ss: seq<Section>, delta: nat, more: nat, threshold: nat, next: nat)
    requires (threshold == next == 0) || (0 < threshold && next == threshold + delta)
    requires forall i :: 0 <= i < |ss| ==> ss[i].fileOffset + delta < U32_LIMIT
    requires forall i :: 0 <= i < |ss| ==> GrowSections(ss, delta, threshold)[i].fileOffset + more < U32_LIMIT
    ensures GrowSections(GrowSections(ss, delta, threshold), more, next) == GrowSections(ss, delta + more, threshold)
  {
    hide GrowSection, GrowSections;
    var twice, sum := GrowSections(GrowSections(ss, delta, threshold), more, next), GrowSections(ss, delta + more, threshold);
    forall i | 0 <= i < |ss| ensures twice[i] == sum[i] {
      SectionAdds(ss[i], delta, more, threshold, next);
    }
  }

  /** One command through two growths and through their sum. */
  lemma CommandAdds(c: SegmentCommand, gp: nat, delta: nat, more: nat, va: nat)
    requires va > 0 && WidthsHold(c, delta) && WidthsHold(GrowCommand(c, gp, delta, va), more)
    requires Straddles(c.seg, gp) <==> Straddles(GrowCommand(c, gp, delta, va).seg, gp + delta)
    requires !Straddles(c.seg, gp) ==> (c.seg.vmaddr >= va <==> GrowCommand(c, gp, delta, va).seg.vmaddr >= va + delta)
    ensures GrowCommand(GrowCommand(c, gp, delta, va), gp + delta, more, va + delta) == GrowCommand(c, gp, delta + more, va)
  {
    hide GrowSections;
    if Straddles(c.seg, gp) {
      SectionsAdd(c.sections, delta, more, va, va + delta);
    } else if c.seg.vmaddr >= va {
      SectionsAdd(c.sections, delta, more, 0, 0);
    }
  }

  lemma CommandGrowsTwice(cmds: seq<SegmentCommand>, t: nat, gp: nat, delta: nat, more: nat, k: nat)
    requires WellFormed(cmds, t, gp, delta) && WellFormed(Grown(cmds, gp, delta), t, gp + delta, more) && k < |cmds|
    ensures Grown(Grown(cmds, gp, delta), gp + delta, more)[k] == Grown(cmds, gp, delta + more)[k]
  {
    var once, va := Grown(cmds, gp, delta), GrowthVa(cmds[t].seg, gp);
    InsertIsGrowthVa(cmds, t, gp, delta);
    InsertIsGrowthVa(once, t, gp + delta, more);
    GrownVa(cmds, t, gp, delta);
    hide GrowCommand, InsertVaddr;
    OnlyTextStraddles(cmds, t, gp, delta, k);
    OnlyTextStraddles(once, t, gp + delta, more, k);
    CommandAdds(cmds[k], gp, delta, more, va);
  }

  /** Growing twice is growing once by the sum. */
  lemma GrowthAdds(cmds: seq<SegmentCommand>, t: nat, gp: nat, delta: nat, more: nat)
    requires WellFormed(cmds, t, gp, delta) && WellFormed(Grown(cmds, gp, delta), t, gp + delta, more)
    ensures Grown(Grown(cmds, gp, delta), gp + delta, more) == Grown(cmds, gp, delta + more)
  {
    hide WellFormed, GrowCommand, InsertVaddr;
    var twice, sum := Grown(Grown(cmds, gp, delta), gp + delta, more), Grown(cmds, gp, delta + more);
    forall k | 0 <= k < |cmds| ensures twice[k] == sum[k] {
      CommandGrowsTwice(cmds, t, gp, delta, more, k);
    }
  }
}
