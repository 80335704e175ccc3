/** The file ranges that the finished file records for the appended segment and for
    `__LINKEDIT`. */
module AppendRanges {
  import opened Bytes
  import opened LoadCommands
  import opened AppendSegment
  import opened AppendImage
  import opened AppendTheorem
  import opened MachOLayout

  lemma U64At(c: seq<byte>, at: nat, v: nat)
    requires HasAt(c, at, Le(v, 8)) && v < U64_LIMIT
    ensures at + 8 <= |c| && U64(c, at) == v
  {
    Pow256Values();
    FromLeOfLe(v, 8);
  }

  /** The third and fourth of six pieces behind two words. */
  lemma InnerPieces(words: seq<byte>, name: seq<byte>, front: seq<byte>, x: seq<byte>, y: seq<byte>, back: seq<byte>, tail: seq<byte>)
    requires |words| == 8 && |name + front| == 32 && |x| == 8
    ensures HasAt(words + (name + front + x + y + back + tail), 40, x) && HasAt(words + (name + front + x + y + back + tail), 48, y)
  {
    var c := words + (name + front + x + y + back + tail);
    assert c == (words + (name + front)) + x + (y + back + tail);
    HasAtMiddle(words + (name + front), x, y + back + tail);
    assert c == (words + (name + front) + x) + y + (back + tail);
    HasAtMiddle(words + (name + front) + x, y, back + tail);
  }

  /** The new command's offset and size fields. */
  lemma SegmentFields(vaddr: nat, le: nat, length: nat, size: nat)
    requires size == SEGMENT_LC_SIZE_WITH_SECTION || size == SEGMENT_LC_SIZE_NO_SECTION
    requires le < U64_LIMIT && RoundUp(length) < U64_LIMIT
    ensures var c := SegmentCommand(vaddr, le, length, size);
            U64(c, 40) == le && U64(c, 48) == RoundUp(length)
  {
    SegmentPieces(vaddr, le, length, size);
    hide *;
    U64At(SegmentCommand(vaddr, le, length, size), 40, le);
    U64At(SegmentCommand(vaddr, le, length, size), 48, RoundUp(length));
  }

  lemma SegmentPieces(vaddr: nat, le: nat, length: nat, size: nat)
    requires size == SEGMENT_LC_SIZE_WITH_SECTION || size == SEGMENT_LC_SIZE_NO_SECTION
    ensures var c := SegmentCommand(vaddr, le, length, size);
            HasAt(c, 40, Le(le, 8)) && HasAt(c, 48, Le(RoundUp(length), 8))
  {
    hide Le, Name16, RoundUp, SectionPart, HasAt;
    var front := Le(vaddr, 8) + Le(RoundUp(length), 8);
    var back := Le(5, 4) + Le(5, 4) + Le(if size == SEGMENT_LC_SIZE_NO_SECTION then 0 else 1, 4) + Le(0, 4);
    var words, tail := Le(LC_SEGMENT_64, 4) + Le(size, 4), if size == SEGMENT_LC_SIZE_NO_SECTION then [] else SectionPart(vaddr, le, length);
    var name, x, y := Name16(SEGMENT_NAME), Le(le, 8), Le(RoundUp(length), 8);
    InnerPieces(words, name, front, x, y, back, tail);
    BodyPieces(name, Le(vaddr, 8), Le(RoundUp(length), 8), x, y, Le(5, 4), Le(5, 4),
               Le(if size == SEGMENT_LC_SIZE_NO_SECTION then 0 else 1, 4), Le(0, 4));
  }

  lemma BodyPieces(a: seq<byte>, b: seq<byte>, c: seq<byte>, d: seq<byte>, e: seq<byte>, f: seq<byte>, g: seq<byte>, h: seq<byte>, i: seq<byte>)
    ensures a + b + c + d + e + f + g + h + i == a + (b + c) + d + e + (f + g + h + i)
  {}

  /** The command of `__LINKEDIT` follows it. */
  lemma LinkeditMoves(c: seq<byte>, le: nat, shift: nat)
    requires TypeOf(c) == LC_SEGMENT_64 && |c| >= 48 && U64(c, 40) == le != 0 && le + shift < U64_LIMIT
    ensures U64(PatchCommand(c, le, shift), 40) == le + shift
  {
    assert (le + shift) % U64_LIMIT == le + shift;
    hide Le, FromLe, BumpFields, OffsetFields, TypeOf;
    HasAtMiddle(c[..40], Le(le + shift, 8), c[48..]);
    hide U64;
    U64At(PatchCommand(c, le, shift), 40, le + shift);
  }

  lemma LinkeditBehindList(im: Image, sections: seq<Section>, segs: seq<Segment>, first: nat)
    requires Describes(im, sections, segs, first) && FindLinkedit(segs).Some?
    ensures |im.header| >= 24 && FindLinkedit(segs).value.fileoff > 0 && LC_SEGMENT_64 != LC_CODE_SIGNATURE
  {}

  /** In the finished file the appended segment's file range ends in front of `__LINKEDIT`
      exactly when `__LINKEDIT` started on a page, there is no payload, or the payload's last
      page runs past the page it started in. */
  lemma RangesApart(im: Image, types: seq<nat>, sections: seq<Section>, segs: seq<Segment>, first: nat, le: nat, leSize: nat,
                    vaddr: nat, payload: seq<byte>, deps: seq<seq<byte>>, size: nat, linkedit: seq<byte>)
    requires Describes(im, sections, segs, first) && DepsFit(im, deps)
    requires FindLinkedit(segs).Some? && le == FindLinkedit(segs).value.fileoff && leSize == FindLinkedit(segs).value.filesize
    requires |Flat(StripAll(im, types).cmds)| <= |Flat(im.cmds)|
    requires ChooseSize(Headerpad(sections, segs, LC_START + |Flat(im.cmds)|),
                        |Flat(im.cmds)| - |Flat(StripAll(im, types).cmds)|, |Flat(DylibCommands.Built(deps))|) == Some(size)
    requires linkedit in im.cmds && TypeOf(linkedit) == LC_SEGMENT_64 && |linkedit| >= 48 && U64(linkedit, 40) == le
    requires LC_SEGMENT_64 !in types && NewLinkedit(le, payload) < U64_LIMIT && RoundUp(|payload|) < U64_LIMIT
    ensures size == SEGMENT_LC_SIZE_WITH_SECTION || size == SEGMENT_LC_SIZE_NO_SECTION
    ensures var done := Appended(im, types, le, leSize, vaddr, payload, deps, size);
            var segment, moved := SegmentCommand(vaddr, le, |payload|, size), PatchCommand(linkedit, le, NewLinkedit(le, payload) - le);
            && segment in done.cmds && moved in done.cmds
            && U64(segment, 40) == le && U64(segment, 48) == RoundUp(|payload|) && U64(moved, 40) == NewLinkedit(le, payload)
            && (U64(segment, 40) + U64(segment, 48) <= U64(moved, 40)
                <==> le % APPEND_PAGE_ALIGN == 0 || payload == []
                     || le % APPEND_PAGE_ALIGN + (|payload| - 1) % APPEND_PAGE_ALIGN + 1 > APPEND_PAGE_ALIGN)
  {
    hide *;
    LinkeditBehindList(im, sections, segs, first);
    ChosenLeavesRoom(im, StripAll(im, types), sections, segs, first, |Flat(DylibCommands.Built(deps))|, size);
    AppendConserves(im, types, sections, segs, first, le, leSize, vaddr, payload, deps, size);
    SegmentFields(vaddr, le, |payload|, size);
    LinkeditMoves(linkedit, le, NewLinkedit(le, payload) - le);
    SegmentEndsBeforeLinkedit(le, payload);
  }

  // ----- a file whose ranges overlap ------------------------------------

  const LINKEDIT: seq<byte> := [0x5F, 0x5F, 0x4C, 0x49, 0x4E, 0x4B, 0x45, 0x44, 0x49, 0x54]

  /** "__LINKEDIT", 8 bytes at `le`. */
  function LinkeditCommand(le: nat): (r: seq<byte>)
    ensures |r| == SEGMENT_LC_SIZE_NO_SECTION
  {
    Le(LC_SEGMENT_64, 4) + (Le(SEGMENT_LC_SIZE_NO_SECTION, 4) + (Name16(LINKEDIT)
      + (Words([0, 0, APPEND_PAGE_ALIGN, 0]) + (Le(le, 8) + Words([8, 0, 0, 0, 0, 0])))))
  }

  /** A header, that command, and 8 bytes of `__LINKEDIT` at 272. */
  function SmallFile(): Image {
    Image(SmallHeader(1, SEGMENT_LC_SIZE_NO_SECTION), [LinkeditCommand(272)], Zeros(176))
  }

  /** A header that counts `n` commands of `size` bytes. */
  function SmallHeader(n: nat, size: nat): (r: seq<byte>)
    ensures |r| == LC_START
  {
    Zeros(16) + (Le(n, 4) + (Le(size, 4) + Zeros(8)))
  }

  lemma SmallHeaderIs(n: nat, size: nat)
    requires n < U32_LIMIT && size < U32_LIMIT
    ensures U32(SmallHeader(n, size), 16) == n && U32(SmallHeader(n, size), 20) == size
  {
    var h := SmallHeader(n, size);
    hide Le, Zeros, U32;
    WholeAt(h);
    HasAtSplit(h, 0, Zeros(16), Le(n, 4) + (Le(size, 4) + Zeros(8)));
    HasAtSplit(h, 16, Le(n, 4), Le(size, 4) + Zeros(8));
    HasAtSplit(h, 20, Le(size, 4), Zeros(8));
    U32At(h, 16, n);
    U32At(h, 20, size);
  }

  lemma WholeAt(s: seq<byte>)
    ensures HasAt(s, 0, s)
  {}

  lemma U32At(c: seq<byte>, at: nat, v: nat)
    requires HasAt(c, at, Le(v, 4)) && v < U32_LIMIT
    ensures at + 4 <= |c| && U32(c, at) == v
  {
    U32ReadsBack(v);
  }

  lemma LinkeditPieces(le: nat)
    ensures var c := LinkeditCommand(le);
            && HasAt(c, 0, Le(LC_SEGMENT_64, 4)) && HasAt(c, 4, Le(SEGMENT_LC_SIZE_NO_SECTION, 4)) && HasAt(c, 8, Name16(LINKEDIT))
            && HasAt(c, 40, Le(le, 8))
  {
    hide Le, Name16, Words, HasAt;
    var c := LinkeditCommand(le);
    var a, b, name, x, y, z := Le(LC_SEGMENT_64, 4), Le(SEGMENT_LC_SIZE_NO_SECTION, 4), Name16(LINKEDIT),
      Words([0, 0, APPEND_PAGE_ALIGN, 0]), Le(le, 8), Words([8, 0, 0, 0, 0, 0]);
    WholeAt(c);
    HasAtSplit(c, 0, a, b + (name + (x + (y + z))));
    HasAtSplit(c, 4, b, name + (x + (y + z)));
    HasAtSplit(c, 8, name, x + (y + z));
    HasAtSplit(c, 24, x, y + z);
    HasAtSplit(c, 40, y, z);
  }

  lemma LinkeditIsCommand(le: nat)
    requires le < U64_LIMIT
    ensures var c := LinkeditCommand(le);
            IsCommand(c) && TypeOf(c) == LC_SEGMENT_64 && U64(c, 40) == le
  {
    hide Le, Name16, Words, HasAt, U32, U64, LinkeditCommand;
    LinkeditPieces(le);
    U32At(LinkeditCommand(le), 0, LC_SEGMENT_64);
    U32At(LinkeditCommand(le), 4, SEGMENT_LC_SIZE_NO_SECTION);
    U64At(LinkeditCommand(le), 40, le);
  }

  lemma SmallFileWellFormed()
    ensures var im := SmallFile();
            WellFormed(im) && |Flat(im.cmds)| == 72 && |Encode(im)| == 280
  {
    hide U32, SmallHeader, Zeros, LinkeditCommand, IsCommand, Flat, TypeOf, U64, FromLe;
    var im := SmallFile();
    LinkeditIsCommand(272);
    SmallHeaderIs(1, SEGMENT_LC_SIZE_NO_SECTION);
    FlatOne(LinkeditCommand(272));
  }

  lemma NothingToStrip(im: Image, cmd: nat)
    requires |im.header| >= 24 && |im.cmds| == 1 && TypeOf(im.cmds[0]) != cmd
    ensures StripImage(im, cmd) == im
  {
    assert FirstIndex(im.cmds[1..], OfType(cmd)) == None;
  }

  lemma NothingReclaimed(im: Image)
    requires |im.header| >= 24 && |im.cmds| == 1 && TypeOf(im.cmds[0]) == LC_SEGMENT_64
    ensures StripAll(im, Reclaimable()) == im && LC_SEGMENT_64 !in Reclaimable()
  {
    var types := Reclaimable();
    NothingToStrip(im, LC_CODE_SIGNATURE);
    NothingToStrip(im, LC_FUNCTION_STARTS);
    NothingToStrip(im, LC_DATA_IN_CODE);
    assert types[..2] == [LC_CODE_SIGNATURE, LC_FUNCTION_STARTS] && types[..2][..1] == [LC_CODE_SIGNATURE] && types[..2][..1][..0] == [];
    hide StripImage;
    assert StripAll(im, types[..2][..1]) == im;
    assert StripAll(im, types[..2]) == im;
  }

  lemma SmallFileLists(im: Image)
    requires im == SmallFile()
    ensures |im.cmds| == 1 && im.cmds[0] == LinkeditCommand(272) && |im.header| >= 24
  {}

  lemma OneByteRounds()
    ensures RoundUp(|[0 as byte]|) == 0x4000 && NewLinkedit(272, [0]) == 0x4000 && APPEND_PAGE_ALIGN == 0x4000
    ensures SEGMENT_LC_SIZE_NO_SECTION == 72 && 0x8000 < U64_LIMIT
  {}

  lemma SmallFileDescribed(im: Image, segs: seq<Segment>)
    requires WellFormed(im) && |Flat(im.cmds)| == 72 && |Encode(im)| == 280 && |im.cmds| == 1
    requires segs == [Segment("__LINKEDIT", 0, APPEND_PAGE_ALIGN, 272, 8)]
    ensures Describes(im, [], segs, 272) && DepsFit(im, []) && !Collides(segs, 0x8000, 0x8001)
    ensures FindLinkedit(segs) == Some(segs[0])
    ensures |Flat(DylibCommands.Built([]))| == 0 && ChooseSize(Headerpad([], segs, LC_START + 72), 0, 0) == Some(152)
  {
    hide Encode, WellFormed;
    assert LowestSegment(segs[1..]) == None && LowestSegment(segs) == Some(272);
    assert LowestContent([], segs, LC_START + 72) == 272;
  }

  /** One byte appended to the small file: the file the writer makes of it lists the new segment
      with file bytes up to 0x4110, and `__LINKEDIT` from 0x4000 on. */
  lemma SegmentOverrunsLinkedit()
    ensures var im, segs := SmallFile(), [Segment("__LINKEDIT", 0, APPEND_PAGE_ALIGN, 272, 8)];
            && Describes(im, [], segs, 272) && DepsFit(im, []) && !Collides(segs, 0x8000, 0x8001)
            && |Flat(im.cmds)| == 72 && StripAll(im, Reclaimable()) == im
            && ChooseSize(Headerpad([], segs, LC_START + 72), 0, |Flat(DylibCommands.Built([]))|) == Some(152)
            && var done := Appended(im, Reclaimable(), 272, 8, 0x8000, [0], [], 152);
               exists segment, moved :: segment in done.cmds && moved in done.cmds && |segment| >= 56 && |moved| >= 48
                 && U64(segment, 40) == 272 && U64(segment, 48) == 0x4000 && U64(moved, 40) == 0x4000
  {
    hide *;
    var im, segs := SmallFile(), [Segment("__LINKEDIT", 0, APPEND_PAGE_ALIGN, 272, 8)];
    OneByteRounds();
    SmallFileWellFormed();
    SmallFileLists(im);
    LinkeditIsCommand(272);
    NothingReclaimed(im);
    SmallFileDescribed(im, segs);
    RangesApart(im, Reclaimable(), [], segs, 272, 272, 8, 0x8000, [0], [], 152, LinkeditCommand(272));
  }
}
