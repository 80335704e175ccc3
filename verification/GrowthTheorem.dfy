/** The grown file's load commands, read back: they parse to the grown segments, and every
    offset they hold follows its bytes exactly under a condition. */
module GrowthTheorem {
  import opened Bytes
  import opened LoadCommands
  import opened AppendImage
  import opened MachOLayout
  import opened SegmentTable
  import opened GrowthBytes

  // ----- one section ----------------------------------------------------

  function RelOff(s: seq<byte>): nat
    requires |s| == SECT_SIZE
  {
    U32(s, 56)
  }

  lemma SliceStays(b: seq<byte>, at: nat, w: nat, delta: nat, from: nat, to: nat)
    requires at + w <= |b| && from <= to <= |b| && (to <= at || at + w <= from)
    ensures AddAt(b, at, w, delta)[from..to] == b[from..to]
  {}

  lemma SectionSteps(s: seq<byte>, delta: nat)
    requires |s| == SECT_SIZE
    ensures var r := AddAt(AddAt(AddAt(s, 32, 8, delta), 48, 4, delta), 56, 4, delta);
            && r[..32] == s[..32] && r[40..48] == s[40..48] && r[60..] == s[60..]
            && U64(r, 32) == (if U64(s, 32) == 0 then 0 else (U64(s, 32) + delta) % U64_LIMIT)
            && U32(r, 48) == Growth.BumpU32(U32(s, 48), delta)
            && RelOff(r) == Growth.BumpU32(RelOff(s), delta)
  {
    hide AddAt;
    Pow256Values();
    var s1 := AddAt(s, 32, 8, delta);
    var s2 := AddAt(s1, 48, 4, delta);
    AddAtField(s, 32, 8, delta, 32, 8);
    AddAtField(s1, 48, 4, delta, 32, 8);
    AddAtField(s2, 56, 4, delta, 32, 8);
    AddAtField(s, 32, 8, delta, 48, 4);
    AddAtField(s1, 48, 4, delta, 48, 4);
    AddAtField(s2, 56, 4, delta, 48, 4);
    AddAtField(s, 32, 8, delta, 56, 4);
    AddAtField(s1, 48, 4, delta, 56, 4);
    AddAtField(s2, 56, 4, delta, 56, 4);
    SlicesStay(s, delta, 0, 32);
    SlicesStay(s, delta, 40, 48);
    SlicesStay(s, delta, 60, SECT_SIZE);
  }

  lemma SlicesStay(s: seq<byte>, delta: nat, from: nat, to: nat)
    requires |s| == SECT_SIZE && from <= to <= |s| && (to <= 32 || (40 <= from && to <= 48) || 60 <= from)
    ensures AddAt(AddAt(AddAt(s, 32, 8, delta), 48, 4, delta), 56, 4, delta)[from..to] == s[from..to]
  {
    hide AddAt;
    var s1 := AddAt(s, 32, 8, delta);
    SliceStays(s, 32, 8, delta, from, to);
    SliceStays(s1, 48, 4, delta, from, to);
    SliceStays(AddAt(s1, 48, 4, delta), 56, 4, delta, from, to);
  }

  /** A section's bytes grow to its grown record; its relocation offset moves along. */
  lemma SectionGrows(s: seq<byte>, delta: nat, threshold: nat)
    requires |s| == SECT_SIZE && U64(s, 32) + delta < U64_LIMIT
    ensures SectionOf(GrowSectionBytes(s, delta, threshold)) == Growth.GrowSection(SectionOf(s), delta, threshold)
    ensures RelOff(GrowSectionBytes(s, delta, threshold)) == if U64(s, 32) < threshold then RelOff(s) else Growth.BumpU32(RelOff(s), delta)
  {
    if U64(s, 32) >= threshold {
      SectionSteps(s, delta);
      hide AddAt;
      var r := GrowSectionBytes(s, delta, threshold);
      assert r[..32][..16] == r[..16] && r[..32][16..] == r[16..32];
      assert s[..32][..16] == s[..16] && s[..32][16..] == s[16..32];
      assert r[60..][4..8] == r[64..68] && s[60..][4..8] == s[64..68];
    }
  }

  // ----- the section table ----------------------------------------------

  function SlotBytes(c: seq<byte>, k: nat): (s: seq<byte>)
    requires Slot(k) + SECT_SIZE <= |c|
    ensures |s| == SECT_SIZE
  {
    c[Slot(k)..Slot(k) + SECT_SIZE]
  }

  lemma SlotsApart(j: nat, k: nat)
    requires j != k
    ensures Slot(j) + SECT_SIZE <= Slot(k) || Slot(k) + SECT_SIZE <= Slot(j)
  {}

  lemma NextSlot(c: seq<byte>, delta: nat, threshold: nat, i: nat, n: nat, k: nat)
    requires i < n && k < n && SEG_HEADER + n * SECT_SIZE <= |c|
    ensures Slot(k) + SECT_SIZE <= |c|
    ensures SlotBytes(NextTable(c, delta, threshold, i, n), k)
            == if k == i then GrowSectionBytes(SlotBytes(c, k), delta, threshold) else SlotBytes(c, k)
    ensures NextTable(c, delta, threshold, i, n)[..SEG_HEADER] == c[..SEG_HEADER]
    ensures NextTable(c, delta, threshold, i, n)[SEG_HEADER + n * SECT_SIZE..] == c[SEG_HEADER + n * SECT_SIZE..]
  {
    hide GrowSectionBytes;
    SlotFits(c, i, n);
    SlotFits(c, k, n);
    if k != i {
      SlotsApart(i, k);
    }
  }

  /** Every section of the table is grown once; the header and what follows stay. */
  lemma {:induction false} TableGrows(c: seq<byte>, delta: nat, threshold: nat, i: nat, n: nat, k: nat)
    requires i <= n && k < n && SEG_HEADER + n * SECT_SIZE <= |c|
    ensures Slot(k) + SECT_SIZE <= |c|
    ensures SlotBytes(GrowTable(c, delta, threshold, i, n), k)
            == if k < i then SlotBytes(c, k) else GrowSectionBytes(SlotBytes(c, k), delta, threshold)
    decreases n - i
  {
    hide GrowSectionBytes, NextTable, SlotBytes, Slot;
    SlotFits(c, k, n);
    if i < n {
      NextSlot(c, delta, threshold, i, n, k);
      TableGrows(NextTable(c, delta, threshold, i, n), delta, threshold, i + 1, n, k);
    }
  }

  lemma {:induction false} TableKeeps(c: seq<byte>, delta: nat, threshold: nat, i: nat, n: nat)
    requires i <= n && SEG_HEADER + n * SECT_SIZE <= |c|
    ensures GrowTable(c, delta, threshold, i, n)[..SEG_HEADER] == c[..SEG_HEADER]
    ensures GrowTable(c, delta, threshold, i, n)[SEG_HEADER + n * SECT_SIZE..] == c[SEG_HEADER + n * SECT_SIZE..]
    decreases n - i
  {
    if i < n {
      hide NextTable;
      NextSlot(c, delta, threshold, i, n, i);
      TableKeeps(NextTable(c, delta, threshold, i, n), delta, threshold, i + 1, n);
    }
  }

  lemma {:induction false} SectionsAt(c: seq<byte>, i: nat, n: nat, k: nat)
    requires i <= k < n && SEG_HEADER + n * SECT_SIZE <= |c|
    ensures Slot(k) + SECT_SIZE <= |c| && SectionsFrom(c, i, n)[k - i] == SectionOf(SlotBytes(c, k))
    decreases n - i
  {
    hide SectionOf;
    SlotFits(c, k, n);
    if i < k {
      SectionsAt(c, i + 1, n, k);
    }
  }

  /** No section's address leaves 64 bits. */
  ghost predicate AddressesFit(ss: seq<Section>, delta: nat) {
    forall k :: 0 <= k < |ss| ==> ss[k].vaddr + delta < U64_LIMIT
  }

  lemma TableRecords(c: seq<byte>, delta: nat, threshold: nat, n: nat)
    requires SEG_HEADER + n * SECT_SIZE <= |c| && AddressesFit(SectionsFrom(c, 0, n), delta)
    ensures SectionsFrom(GrowTable(c, delta, threshold, 0, n), 0, n) == Growth.GrowSections(SectionsFrom(c, 0, n), delta, threshold)
  {
    hide SectionsFrom, SectionOf, GrowTable, GrowSectionBytes, Growth.GrowSection;
    var grown := GrowTable(c, delta, threshold, 0, n);
    var was, now := SectionsFrom(c, 0, n), SectionsFrom(grown, 0, n);
    forall k | 0 <= k < n ensures now[k] == Growth.GrowSection(was[k], delta, threshold) {
      SectionsAt(c, 0, n, k);
      SectionsAt(grown, 0, n, k);
      TableGrows(c, delta, threshold, 0, n, k);
      SectionAddress(SlotBytes(c, k));
      SectionGrows(SlotBytes(c, k), delta, threshold);
    }
  }

  lemma SectionAddress(s: seq<byte>)
    requires |s| == SECT_SIZE
    ensures SectionOf(s).vaddr == U64(s, 32)
  {}

  // ----- one command ----------------------------------------------------

  /** No 64-bit field of the segment or its sections wraps. */
  ghost predicate Unwrapped(c: Growth.SegmentCommand, delta: nat) {
    && c.seg.vmaddr + delta < U64_LIMIT && c.seg.vmsize + delta < U64_LIMIT
    && c.seg.fileoff + delta < U64_LIMIT && c.seg.filesize + delta < U64_LIMIT
    && AddressesFit(c.sections, delta)
  }

  lemma PairField(c: seq<byte>, a: nat, b: nat, delta: nat, k: nat)
    requires a in {24, 32} && b == a + 16 && k in {24, 32, 40, 48} && |c| >= SEG_HEADER && U64(c, k) + delta < U64_LIMIT
    ensures U64(AddPair(c, a, b, delta), k) == if k == a || k == b then Growth.Bump(U64(c, k), delta) else U64(c, k)
  {
    hide AddAt;
    Pow256Values();
    AddAtField(c, a, 8, delta, k, 8);
    AddAtField(AddAt(c, a, 8, delta), b, 8, delta, k, 8);
  }

  lemma PairSlice(c: seq<byte>, a: nat, b: nat, delta: nat, from: nat, to: nat)
    requires a in {24, 32} && b == a + 16 && |c| >= SEG_HEADER && from <= to <= |c| && (to <= 24 || 56 <= from)
    ensures AddPair(c, a, b, delta)[from..to] == c[from..to]
  {
    hide AddAt;
    SliceStays(c, a, 8, delta, from, to);
    SliceStays(AddAt(c, a, 8, delta), b, 8, delta, from, to);
  }

  lemma PairRecord(c: seq<byte>, a: nat, b: nat, delta: nat)
    requires a in {24, 32} && b == a + 16 && |c| >= SEG_HEADER
    requires forall k :: k in {24, 32, 40, 48} ==> U64(c, k) + delta < U64_LIMIT
    ensures var seg := SegmentRecord(c[..SEG_HEADER]);
            SegmentRecord(AddPair(c, a, b, delta)[..SEG_HEADER])
            == if a == 32 then seg.(vmsize := Growth.Bump(seg.vmsize, delta), filesize := Growth.Bump(seg.filesize, delta))
               else seg.(vmaddr := Growth.Bump(seg.vmaddr, delta), fileoff := Growth.Bump(seg.fileoff, delta))
  {
    hide U64, AddPair;
    HeaderRecord(c);
    HeaderRecord(AddPair(c, a, b, delta));
    PairField(c, a, b, delta, 24);
    PairField(c, a, b, delta, 32);
    PairField(c, a, b, delta, 40);
    PairField(c, a, b, delta, 48);
    PairSlice(c, a, b, delta, 8, 24);
  }

  lemma {:induction false} SameSections(c: seq<byte>, d: seq<byte>, i: nat, n: nat)
    requires i <= n && SEG_HEADER + n * SECT_SIZE <= |c| == |d| && c[SEG_HEADER..] == d[SEG_HEADER..]
    ensures SectionsFrom(c, i, n) == SectionsFrom(d, i, n)
    decreases n - i
  {
    hide SectionOf;
    if i < n {
      SlotFits(c, i, n);
      assert c[SEG_HEADER..] == c[SEG_HEADER..|c|] && d[SEG_HEADER..] == d[SEG_HEADER..|d|];
      SliceOfSlice(c, SEG_HEADER, |c|, i * SECT_SIZE, SECT_SIZE);
      SliceOfSlice(d, SEG_HEADER, |d|, i * SECT_SIZE, SECT_SIZE);
      SameSections(c, d, i + 1, n);
    }
  }

  /** Patching a pair of header fields and the table is growing the record. */
  lemma PairAndTable(c: seq<byte>, a: nat, b: nat, delta: nat, threshold: nat)
    requires a in {24, 32} && b == a + 16 && TableFits(c) && Unwrapped(SegmentOf(c), delta)
    ensures var d, was := GrowTable(AddPair(c, a, b, delta), delta, threshold, 0, U32(c, 64)), SegmentOf(c);
            && TableFits(d)
            && SegmentOf(d).seg == SegmentRecord(AddPair(c, a, b, delta)[..SEG_HEADER])
            && SegmentOf(d).sections == Growth.GrowSections(was.sections, delta, threshold)
            && SegmentRecord(AddPair(c, a, b, delta)[..SEG_HEADER])
               == (if a == 32 then was.seg.(vmsize := Growth.Bump(was.seg.vmsize, delta), filesize := Growth.Bump(was.seg.filesize, delta))
                   else was.seg.(vmaddr := Growth.Bump(was.seg.vmaddr, delta), fileoff := Growth.Bump(was.seg.fileoff, delta)))
  {
    hide AddPair, GrowTable, SectionsFrom, SegmentRecord, Growth.GrowSections;
    var n, p := U32(c, 64), AddPair(c, a, b, delta);
    var d := GrowTable(p, delta, threshold, 0, n);
    HeaderRecord(c);
    PairRecord(c, a, b, delta);
    PairSlice(c, a, b, delta, SEG_HEADER, |c|);
    SameSections(c, p, 0, n);
    TableRecords(p, delta, threshold, n);
    TableKeeps(p, delta, threshold, 0, n);
    PairSlice(c, a, b, delta, 64, 68);
    assert d[..SEG_HEADER][64..68] == d[64..68] && p[..SEG_HEADER][64..68] == p[64..68];
  }

  /** The bytes of a grown segment command parse to the grown record. */
  lemma SegmentGrows(c: seq<byte>, gp: nat, delta: nat, va: nat)
    requires TableFits(c) && Unwrapped(SegmentOf(c), delta)
    ensures TableFits(GrowSegment(c, gp, delta, va))
    ensures SegmentOf(GrowSegment(c, gp, delta, va)) == Growth.GrowCommand(SegmentOf(c), gp, delta, va)
  {
    hide AddPair, GrowTable, SectionsFrom, SegmentRecord, Growth.GrowSections, Unwrapped;
    HeaderRecord(c);
    if StraddlesAt(c, gp) {
      PairAndTable(c, 32, 48, delta, va);
    } else if U64(c, 24) >= va {
      PairAndTable(c, 24, 40, delta, 0);
    }
  }

  /** A section of the segment moves: at or past the insert in the straddling segment, all of
      them in a trailing one. */
  predicate Moves(c: seq<byte>, gp: nat, va: nat, addr: nat)
    requires TableFits(c)
  {
    if StraddlesAt(c, gp) then addr >= va else U64(c, 24) >= va
  }

  lemma PairSlot(c: seq<byte>, a: nat, b: nat, delta: nat, threshold: nat, n: nat, k: nat)
    requires a in {24, 32} && b == a + 16 && SEG_HEADER + n * SECT_SIZE <= |c| && k < n
    ensures Slot(k) + SECT_SIZE <= |c|
    ensures SlotBytes(GrowTable(AddPair(c, a, b, delta), delta, threshold, 0, n), k) == GrowSectionBytes(SlotBytes(c, k), delta, threshold)
  {
    hide AddPair, GrowTable, GrowSectionBytes;
    SlotFits(c, k, n);
    PairSlice(c, a, b, delta, Slot(k), Slot(k) + SECT_SIZE);
    TableGrows(AddPair(c, a, b, delta), delta, threshold, 0, n, k);
  }

  /** Relocation offsets move with their sections; no record holds them. */
  lemma RelocationsGrow(c: seq<byte>, gp: nat, delta: nat, va: nat, k: nat)
    requires TableFits(c) && Slot(k) + SECT_SIZE <= |c| && k < U32(c, 64) && U64(SlotBytes(c, k), 32) + delta < U64_LIMIT
    ensures var s := SlotBytes(c, k);
            RelOff(SlotBytes(GrowSegment(c, gp, delta, va), k))
            == if Moves(c, gp, va, U64(s, 32)) then Growth.BumpU32(RelOff(s), delta) else RelOff(s)
  {
    hide AddPair, GrowTable, GrowSectionBytes, SlotBytes, Slot, U32, U64, TableFits;
    TableHolds(c);
    var n := U32(c, 64);
    if StraddlesAt(c, gp) {
      PairSlot(c, 32, 48, delta, va, n, k);
      SectionGrows(SlotBytes(c, k), delta, va);
    } else if U64(c, 24) >= va {
      PairSlot(c, 24, 40, delta, 0, n, k);
      SectionGrows(SlotBytes(c, k), delta, 0);
    }
  }

  lemma SegmentHead(c: seq<byte>, gp: nat, delta: nat, va: nat)
    requires TableFits(c)
    ensures GrowSegment(c, gp, delta, va)[..8] == c[..8]
  {
    hide AddPair, GrowTable;
    var n := U32(c, 64);
    if StraddlesAt(c, gp) {
      HeadOf(c, 32, 48, delta, va, n);
    } else if U64(c, 24) >= va {
      HeadOf(c, 24, 40, delta, 0, n);
    }
  }

  lemma HeadOf(c: seq<byte>, a: nat, b: nat, delta: nat, threshold: nat, n: nat)
    requires a in {24, 32} && b == a + 16 && SEG_HEADER + n * SECT_SIZE <= |c|
    ensures GrowTable(AddPair(c, a, b, delta), delta, threshold, 0, n)[..8] == c[..8]
  {
    hide AddPair, GrowTable;
    var p := AddPair(c, a, b, delta);
    var d := GrowTable(p, delta, threshold, 0, n);
    TableKeeps(p, delta, threshold, 0, n);
    PairSlice(c, a, b, delta, 0, 8);
    assert d[..8] == d[..SEG_HEADER][..8] && p[..8] == p[..SEG_HEADER][..8];
  }

  /** A grown command keeps its type and size. */
  lemma GrownHead(c: seq<byte>, gp: nat, delta: nat, va: nat)
    requires IsCommand(c)
    ensures IsCommand(GrowBytes(c, gp, delta, va)) && TypeOf(GrowBytes(c, gp, delta, va)) == TypeOf(c)
  {
    hide GrowSegment, BumpFields, OffsetFields, TableFits;
    var d := GrowBytes(c, gp, delta, va);
    if TypeOf(c) == LC_SEGMENT_64 {
      if TableFits(c) {
        SegmentHead(c, gp, delta, va);
      }
    } else if TypeOf(c) != LC_MAIN {
      FieldsBehindHead(TypeOf(c), |c|);
      BumpKeeps(c, OffsetFields(TypeOf(c), |c|), delta, 8);
    }
    assert d[..8] == c[..8];
    assert d[..8][0..4] == d[0..4] && d[..8][4..8] == d[4..8];
    assert c[..8][0..4] == c[0..4] && c[..8][4..8] == c[4..8];
  }

  lemma FieldsBehindHead(cmd: nat, size: nat)
    ensures forall i :: 0 <= i < |OffsetFields(cmd, size)| ==> OffsetFields(cmd, size)[i] >= 8
  {}

  // ----- the whole list -------------------------------------------------

  ghost predicate AllUnwrapped(segs: seq<Growth.SegmentCommand>, delta: nat) {
    forall k :: 0 <= k < |segs| ==> Unwrapped(segs[k], delta)
  }

  lemma GrownSegmentOf(c: seq<byte>, gp: nat, delta: nat, va: nat)
    requires IsCommand(c) && (IsSegment(c) ==> Unwrapped(SegmentOf(c), delta))
    ensures IsSegment(GrowBytes(c, gp, delta, va)) <==> IsSegment(c)
    ensures IsSegment(c) ==> SegmentOf(GrowBytes(c, gp, delta, va)) == Growth.GrowCommand(SegmentOf(c), gp, delta, va)
  {
    hide SegmentOf, GrowSegment, TableFits, Unwrapped, IsCommand, TypeOf, Growth.GrowCommand, GrowMain, BumpFields;
    GrownHead(c, gp, delta, va);
    if TypeOf(c) == LC_SEGMENT_64 && TableFits(c) {
      SegmentGrows(c, gp, delta, va);
    }
  }

  lemma GrownFromSplits(x: seq<Growth.SegmentCommand>, rest: seq<Growth.SegmentCommand>, gp: nat, delta: nat, va: nat)
    ensures Growth.GrownFrom(x + rest, gp, delta, va) == Growth.GrownFrom(x, gp, delta, va) + Growth.GrownFrom(rest, gp, delta, va)
  {
    hide Growth.GrowCommand;
  }

  function HeadSegment(c: seq<byte>): (r: seq<Growth.SegmentCommand>)
    ensures |r| <= 1
  {
    if IsSegment(c) then [SegmentOf(c)] else []
  }

  lemma UnwrappedSplits(x: seq<Growth.SegmentCommand>, rest: seq<Growth.SegmentCommand>, delta: nat)
    requires AllUnwrapped(x + rest, delta)
    ensures AllUnwrapped(x, delta) && AllUnwrapped(rest, delta)
  {
    hide Unwrapped;
    var all := x + rest;
    forall k | 0 <= k < |x| ensures Unwrapped(x[k], delta) {
      assert all[k] == x[k];
    }
    forall k | 0 <= k < |rest| ensures Unwrapped(rest[k], delta) {
      assert all[|x| + k] == rest[k];
    }
  }

  lemma HeadGrows(c: seq<byte>, gp: nat, delta: nat, va: nat)
    requires IsCommand(c) && AllUnwrapped(HeadSegment(c), delta)
    ensures HeadSegment(GrowBytes(c, gp, delta, va)) == Growth.GrownFrom(HeadSegment(c), gp, delta, va)
  {
    hide SegmentOf, TableFits, TypeOf, Unwrapped, Growth.GrowCommand, GrowBytes, IsCommand;
    if IsSegment(c) {
      assert HeadSegment(c)[0] == SegmentOf(c);
    }
    GrownSegmentOf(c, gp, delta, va);
  }

  /** The grown commands parse to the grown segments. */
  lemma {:induction false} ListGrows(cmds: seq<seq<byte>>, gp: nat, delta: nat, va: nat)
    requires Commands(cmds) && AllUnwrapped(SegmentsOf(cmds), delta)
    ensures SegmentsOf(PatchAll(cmds, Grower(gp, delta, va))) == Growth.GrownFrom(SegmentsOf(cmds), gp, delta, va)
    decreases |cmds|
  {
    hide HeadSegment, GrowBytes, AllUnwrapped, Growth.GrownFrom, IsCommand;
    if cmds == [] {
      GrownFromNothing(gp, delta, va);
    } else {
      assert IsCommand(cmds[0]);
      SegmentsUnfold(cmds);
      SegmentsUnfold(PatchAll(cmds, Grower(gp, delta, va)));
      UnwrappedSplits(HeadSegment(cmds[0]), SegmentsOf(cmds[1..]), delta);
      GrownFromSplits(HeadSegment(cmds[0]), SegmentsOf(cmds[1..]), gp, delta, va);
      HeadGrows(cmds[0], gp, delta, va);
      ListGrows(cmds[1..], gp, delta, va);
      assert PatchAll(cmds, Grower(gp, delta, va))[1..] == PatchAll(cmds[1..], Grower(gp, delta, va));
    }
  }

  lemma GrownFromNothing(gp: nat, delta: nat, va: nat)
    ensures Growth.GrownFrom([], gp, delta, va) == []
  {}

  lemma SegmentsUnfold(cmds: seq<seq<byte>>)
    requires cmds != []
    ensures SegmentsOf(cmds) == HeadSegment(cmds[0]) + SegmentsOf(cmds[1..])
  {}

  // ----- the address of the growth point --------------------------------

  lemma CommandLong(bytes: seq<byte>, at: nat, c: seq<byte>, k: nat)
    requires HasAt(bytes, at, c) && k + 8 <= |c|
    ensures U64(bytes, at + k) == U64(c, k)
  {
    HasAtSlice(bytes, at, c);
    SliceOfSlice(bytes, at, at + |c|, k, 8);
  }

  lemma InsertStep(bytes: seq<byte>, cursor: nat, end: nat, c: seq<byte>, gp: nat)
    requires HasAt(bytes, cursor, c) && IsCommand(c) && cursor + |c| <= end <= |bytes|
    requires TypeOf(c) == LC_SEGMENT_64 ==> TableFits(c)
    ensures InsertVaddrFrom(bytes, cursor, end, gp)
            == if IsSegment(c) && StraddlesAt(c, gp) then U64(c, 24) + (gp - U64(c, 40)) else InsertVaddrFrom(bytes, cursor + |c|, end, gp)
  {
    hide TableFits, HasAt, U64;
    CommandWord(bytes, cursor, c, 0);
    CommandWord(bytes, cursor, c, 4);
    if TypeOf(c) == LC_SEGMENT_64 {
      TableHolds(c);
      CommandLong(bytes, cursor, c, 24);
      CommandLong(bytes, cursor, c, 40);
      CommandLong(bytes, cursor, c, 48);
    }
  }

  lemma {:induction false} InsertVaddrWalks(bytes: seq<byte>, cursor: nat, cmds: seq<seq<byte>>, gp: nat)
    requires HasAt(bytes, cursor, Flat(cmds)) && Commands(cmds) && Tables(cmds)
    ensures InsertVaddrFrom(bytes, cursor, cursor + |Flat(cmds)|, gp) == Growth.InsertVaddr(SegmentsOf(cmds), gp)
    decreases |cmds|
  {
    hide InsertVaddrFrom, HasAt, TableFits, IsCommand, SegmentOf;
    HasAtSlice(bytes, cursor, Flat(cmds));
    if cmds == [] {
      InsertEnds(bytes, cursor, gp);
    } else {
      HasAtSplit(bytes, cursor, cmds[0], Flat(cmds[1..]));
      assert IsCommand(cmds[0]);
      assert TypeOf(cmds[0]) == LC_SEGMENT_64 ==> TableFits(cmds[0]);
      InsertStep(bytes, cursor, cursor + |Flat(cmds)|, cmds[0], gp);
      assert forall i :: 0 <= i < |cmds[1..]| ==> cmds[1..][i] == cmds[i + 1];
      InsertVaddrWalks(bytes, cursor + |cmds[0]|, cmds[1..], gp);
      SegmentsUnfold(cmds);
      InsertHead(cmds[0], SegmentsOf(cmds[1..]), gp);
    }
  }

  lemma InsertEnds(bytes: seq<byte>, cursor: nat, gp: nat)
    requires cursor <= |bytes|
    ensures InsertVaddrFrom(bytes, cursor, cursor, gp) == gp && Growth.InsertVaddr(SegmentsOf([]), gp) == gp
  {}

  lemma InsertHead(c: seq<byte>, rest: seq<Growth.SegmentCommand>, gp: nat)
    ensures Growth.InsertVaddr(HeadSegment(c) + rest, gp)
            == if IsSegment(c) && StraddlesAt(c, gp) then U64(c, 24) + (gp - U64(c, 40)) else Growth.InsertVaddr(rest, gp)
  {
    hide SectionsFrom, FixedName, U64;
    if IsSegment(c) {
      HeaderRecord(c);
      assert (HeadSegment(c) + rest)[1..] == rest;
    } else {
      assert HeadSegment(c) + rest == rest;
    }
  }
}
