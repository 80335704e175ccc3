/** Appending a segment, step by step, and what the finished file keeps. */
module AppendTheorem {
  import opened Arithmetic
  import opened Bytes
  import opened LoadCommands
  import opened AppendSegment
  import opened AppendImage
  import opened MachOLayout
  import DylibCommands

  // ----- the new command ------------------------------------------------

  function Name16(name: seq<byte>): (r: seq<byte>)
    requires |name| <= 16
    ensures |r| == 16
  {
    name + Zeros(16 - |name|)
  }

  /** "__APPENDED" and "__appended". */
  const SEGMENT_NAME: seq<byte> := [0x5F, 0x5F, 0x41, 0x50, 0x50, 0x45, 0x4E, 0x44, 0x45, 0x44]
  const SECTION_NAME: seq<byte> := [0x5F, 0x5F, 0x61, 0x70, 0x70, 0x65, 0x6E, 0x64, 0x65, 0x64]

  /** What follows the type and size words. */
  function SegmentBody(vaddr: nat, le: nat, length: nat, size: nat): (r: seq<byte>)
    ensures |r| == 64
  {
    Name16(SEGMENT_NAME) + Le(vaddr, 8) + Le(RoundUp(length), 8) + Le(le, 8) + Le(RoundUp(length), 8)
      + Le(5, 4) + Le(5, 4) + Le(if size == SEGMENT_LC_SIZE_NO_SECTION then 0 else 1, 4) + Le(0, 4)
  }

  function SectionPart(vaddr: nat, le: nat, length: nat): (r: seq<byte>)
    ensures |r| == 80
  {
    Name16(SECTION_NAME) + Name16(SEGMENT_NAME) + Le(vaddr, 8) + Le(length, 8) + Le(le, 4) + Le(2, 4) + Le(0, 4) + Le(0, 4)
      + Le(0x400, 4) + Le(0, 4) + Le(0, 4) + Le(0, 4)
  }

  /** `build_segment_command_64`. */
  function SegmentCommand(vaddr: nat, le: nat, length: nat, size: nat): (r: seq<byte>)
    requires size == SEGMENT_LC_SIZE_WITH_SECTION || size == SEGMENT_LC_SIZE_NO_SECTION
    ensures |r| == size
  {
    Le(LC_SEGMENT_64, 4) + Le(size, 4)
      + (SegmentBody(vaddr, le, length, size) + if size == SEGMENT_LC_SIZE_NO_SECTION then [] else SectionPart(vaddr, le, length))
  }

  lemma FirstWords(a: seq<byte>, b: seq<byte>, rest: seq<byte>)
    requires |a| == 4 && |b| == 4
    ensures (a + b + rest)[0..4] == a && (a + b + rest)[4..8] == b
  {}

  lemma SegmentCommandIs(vaddr: nat, le: nat, length: nat, size: nat)
    requires size == SEGMENT_LC_SIZE_WITH_SECTION || size == SEGMENT_LC_SIZE_NO_SECTION
    ensures IsCommand(SegmentCommand(vaddr, le, length, size)) && TypeOf(SegmentCommand(vaddr, le, length, size)) == LC_SEGMENT_64
  {
    var rest := SegmentBody(vaddr, le, length, size) + if size == SEGMENT_LC_SIZE_NO_SECTION then [] else SectionPart(vaddr, le, length);
    FirstWords(Le(LC_SEGMENT_64, 4), Le(size, 4), rest);
    Pow256Values();
    FromLeOfLe(LC_SEGMENT_64, 4);
    FromLeOfLe(size, 4);
  }

  /** The appended segment's file range, rounded to pages, ends at or before the moved
      `__LINKEDIT` exactly when `__LINKEDIT` started on a page, there is no payload, or the
      payload's last page runs past the page it started in. */
  lemma SegmentEndsBeforeLinkedit(le: nat, payload: seq<byte>)
    ensures le + RoundUp(|payload|) <= NewLinkedit(le, payload)
            <==> le % APPEND_PAGE_ALIGN == 0 || payload == []
                 || le % APPEND_PAGE_ALIGN + (|payload| - 1) % APPEND_PAGE_ALIGN + 1 > APPEND_PAGE_ALIGN
  {
    var p := APPEND_PAGE_ALIGN;
    var a, q := le % p, le / p;
    assert le == q * p + a;
    if payload != [] {
      var r, m := (|payload| - 1) % p, (|payload| - 1) / p;
      assert |payload| == m * p + r + 1;
      DivMod(|payload| + p - 1, p, m + 1, r);
      if a + r + 1 > p {
        DivMod(le + |payload| + p - 1, p, q + m + 2, a + r - p);
      } else {
        DivMod(le + |payload| + p - 1, p, q + m + 1, a + r);
      }
    }
  }

  // ----- the stages -----------------------------------------------------

  function InjectImage(im: Image, lcs: seq<seq<byte>>): Image {
    if |im.header| >= 24 && |Flat(lcs)| <= |im.rest| then Injected(im, lcs) else im
  }

  /** The image whose tail from `le` on has made way for the payload. */
  function RelocatedImage(im: Image, le: nat, leSize: nat, payload: seq<byte>): Image
    requires |im.header| + |Flat(im.cmds)| <= le && le + leSize <= |Encode(im)|
  {
    im.(rest := Relocated(Encode(im), le, leSize, payload)[|im.header| + |Flat(im.cmds)|..])
  }

  function PatchedImage(im: Image, le: nat, shift: nat): Image {
    im.(cmds := PatchAll(im.cmds, Patcher(le, shift)))
  }

  /** From the relocated image on: patched offsets, the new segment, the dependencies, and no
      code signature. */
  function FinishedImage(im: Image, le: nat, shift: nat, segment: seq<byte>, deps: seq<seq<byte>>): Image
    requires |im.header| >= 24
  {
    var spliced := InjectImage(PatchedImage(im, le, shift), [segment]);
    StripImage(if deps == [] then spliced else InjectImage(spliced, DylibCommands.Built(deps)), LC_CODE_SIGNATURE)
  }

  lemma RelocatedEncodes(im: Image, le: nat, leSize: nat, payload: seq<byte>)
    requires WellFormed(im) && LC_START + |Flat(im.cmds)| <= le && le + leSize <= |Encode(im)|
    ensures WellFormed(RelocatedImage(im, le, leSize, payload))
    ensures Encode(RelocatedImage(im, le, leSize, payload)) == Relocated(Encode(im), le, leSize, payload)
  {
    var moved, k := Relocated(Encode(im), le, leSize, payload), LC_START + |Flat(im.cmds)|;
    assert moved[..le] == Encode(im)[..le];
    assert moved[..k] == Encode(im)[..k] == im.header + Flat(im.cmds);
    assert moved == moved[..k] + moved[k..];
  }

  lemma PatcherKeeps(le: nat, shift: nat)
    ensures KeepsSize(Patcher(le, shift))
    ensures forall c :: IsCommand(c) ==> IsCommand(Patcher(le, shift)(c)) && |Patcher(le, shift)(c)| == |c|
  {
    forall c | IsCommand(c) ensures IsCommand(Patcher(le, shift)(c)) {
      PatchKeepsCommand(c, le, shift);
    }
  }

  lemma PatchedEncodesTo(im: Image, le: nat, shift: nat, e: nat)
    requires WellFormed(im) && LC_START + |Flat(im.cmds)| <= e <= |Encode(im)|
    ensures WellFormed(PatchedImage(im, le, shift)) && KeepsFrom(im, PatchedImage(im, le, shift), e)
    ensures ShiftCommands(Encode(im), LC_START, LC_START + |Flat(im.cmds)|, le, shift) == Ok(Encode(PatchedImage(im, le, shift)))
    ensures |Flat(PatchedImage(im, le, shift).cmds)| == |Flat(im.cmds)|
  {
    PatcherKeeps(le, shift);
    PatchAllCommands(im.cmds, Patcher(le, shift));
    PatchWalks(im.header, im.cmds, im.rest, Patcher(le, shift));
    TailOf(im, e);
    TailOf(PatchedImage(im, le, shift), e);
  }

  lemma {:induction false} StripAllKeeps(im: Image, types: seq<nat>, e: nat)
    requires WellFormed(im) && LC_START + |Flat(im.cmds)| <= e <= |Encode(im)|
    ensures WellFormed(StripAll(im, types)) && KeepsFrom(im, StripAll(im, types), e)
    decreases |types|
  {
    if types != [] {
      var before := StripAll(im, types[..|types| - 1]);
      StripAllKeeps(im, types[..|types| - 1], e);
      StripImageKeeps(before, types[|types| - 1], e);
      KeepsTrans(im, before, StripAll(im, types), e);
    }
  }

  lemma {:induction false} StripAllLists(im: Image, types: seq<nat>, c: seq<byte>)
    requires WellFormed(im) && c in im.cmds && TypeOf(c) !in types
    ensures c in StripAll(im, types).cmds
    decreases |types|
  {
    if types != [] {
      StripAllKeeps(im, types[..|types| - 1], LC_START + |Flat(im.cmds)|);
      StripAllLists(im, types[..|types| - 1], c);
      StripImageLists(StripAll(im, types[..|types| - 1]), types[|types| - 1], c);
    }
  }

  // ----- the finished file ----------------------------------------------

  /** The commands to come fit before `first` and keep the header's counts in range. */
  ghost predicate RoomFor(im: Image, first: nat, segment: seq<byte>, deps: seq<seq<byte>>) {
    && WellFormed(im) && first <= |Encode(im)| && first < U32_LIMIT
    && LC_START + |Flat(im.cmds)| + |segment| + |Flat(DylibCommands.Built(deps))| <= first
    && |im.cmds| + 1 + |deps| < U32_LIMIT
    && IsCommand(segment) && Commands(DylibCommands.Built(deps))
  }

  /** Splicing `lcs` into the file `bytes` is possible and gives `out`. */
  predicate Injects(bytes: seq<byte>, lcs: seq<seq<byte>>, out: seq<byte>) {
    && ListFits(bytes) && |bytes| >= 24 && LC_START + U32(bytes, 20) + |Flat(lcs)| <= |bytes|
    && Inject(bytes, lcs) == Ok(out)
  }

  lemma InjectImageKeeps(im: Image, lcs: seq<seq<byte>>, e: nat)
    requires WellFormed(im) && Commands(lcs) && LC_START + |Flat(im.cmds)| + |Flat(lcs)| <= e <= |Encode(im)| && e < U32_LIMIT
    requires |im.cmds| + |lcs| < U32_LIMIT
    ensures WellFormed(InjectImage(im, lcs)) && KeepsFrom(im, InjectImage(im, lcs), e)
    ensures |Flat(InjectImage(im, lcs).cmds)| == |Flat(im.cmds)| + |Flat(lcs)| && |InjectImage(im, lcs).cmds| == |im.cmds| + |lcs|
    ensures Injects(Encode(im), lcs, Encode(InjectImage(im, lcs)))
    ensures forall c :: c in im.cmds || c in lcs ==> c in InjectImage(im, lcs).cmds
  {
    InjectEncodes(im, lcs);
    InjectedWellFormed(im, lcs);
    InjectedKeeps(im, lcs, e);
    forall c | c in im.cmds || c in lcs ensures c in InjectImage(im, lcs).cmds {
      InjectedLists(im, lcs, c);
    }
  }

  /** The spliced and extended list still ends before the content, which has not moved. */
  lemma SplicedKeeps(im: Image, first: nat, segment: seq<byte>, deps: seq<seq<byte>>) returns (spliced: Image, extended: Image)
    requires RoomFor(im, first, segment, deps)
    ensures spliced == InjectImage(im, [segment]) && WellFormed(spliced)
    ensures extended == if deps == [] then spliced else InjectImage(spliced, DylibCommands.Built(deps))
    ensures WellFormed(extended) && KeepsFrom(im, extended, first)
    ensures |Flat(extended.cmds)| <= |Flat(im.cmds)| + |segment| + |Flat(DylibCommands.Built(deps))|
    ensures forall c :: c in im.cmds || c == segment ==> c in extended.cmds
    ensures Injects(Encode(im), [segment], Encode(spliced))
    ensures deps != [] ==> Injects(Encode(spliced), DylibCommands.Built(deps), Encode(extended))
  {
    FlatOne(segment);
    InjectImageKeeps(im, [segment], first);
    spliced := InjectImage(im, [segment]);
    extended := spliced;
    if deps != [] {
      InjectImageKeeps(spliced, DylibCommands.Built(deps), first);
      extended := InjectImage(spliced, DylibCommands.Built(deps));
      KeepsTrans(im, spliced, extended, first);
    }
  }

  /** After the last stage: the list and the signature to come end before the content, no
      byte from there on has changed, and every patched command is listed. */
  lemma FinishedKeeps(im: Image, first: nat, le: nat, shift: nat, segment: seq<byte>, deps: seq<seq<byte>>)
    requires RoomFor(im, first, segment, deps) && TypeOf(segment) != LC_CODE_SIGNATURE
    ensures var done := FinishedImage(im, le, shift, segment, deps);
            && WellFormed(done) && KeepsFrom(im, done, first) && segment in done.cmds
            && |Flat(done.cmds)| <= |Flat(im.cmds)| + |segment| + |Flat(DylibCommands.Built(deps))|
            && forall c :: c in im.cmds && TypeOf(c) != LC_CODE_SIGNATURE ==> PatchCommand(c, le, shift) in done.cmds
  {
    var patched := PatchedImage(im, le, shift);
    PatchedEncodesTo(im, le, shift, first);
    var spliced, extended := SplicedKeeps(patched, first, segment, deps);
    KeepsTrans(im, patched, extended, first);
    StripImageKeeps(extended, LC_CODE_SIGNATURE, first);
    StripImageEncodes(extended, LC_CODE_SIGNATURE);
    KeepsTrans(im, extended, StripImage(extended, LC_CODE_SIGNATURE), first);
    StripImageLists(extended, LC_CODE_SIGNATURE, segment);
    forall c | c in im.cmds && TypeOf(c) != LC_CODE_SIGNATURE
      ensures PatchCommand(c, le, shift) in StripImage(extended, LC_CODE_SIGNATURE).cmds
    {
      var i :| 0 <= i < |im.cmds| && im.cmds[i] == c;
      PatchKeepsCommand(c, le, shift);
      PatchAllHas(im.cmds, Patcher(le, shift), c);
      StripImageLists(extended, LC_CODE_SIGNATURE, PatchCommand(c, le, shift));
    }
  }

  // ----- the writer -----------------------------------------------------

  /** `headerpad`'s lower edge of content: the lowest section offset, else the lowest segment
      offset, else the end of the list. */
  function LowestContent(sections: seq<Section>, segs: seq<Segment>, end: nat): nat {
    if LowestSection(sections).Some? then LowestSection(sections).value
    else if LowestSegment(segs).Some? then LowestSegment(segs).value
    else end
  }

  function Lower(a: Option<nat>, b: nat): Option<nat> {
    if b == 0 then a else match a case None => Some(b) case Some(v) => Some(if b < v then b else v)
  }

  function LowestSection(sections: seq<Section>): Option<nat> {
    if sections == [] then None else Lower(LowestSection(sections[1..]), sections[0].fileOffset)
  }

  function LowestSegment(segs: seq<Segment>): Option<nat> {
    if segs == [] then None else Lower(LowestSegment(segs[1..]), segs[0].fileoff)
  }

  /** No section with file content starts below the lowest content. */
  lemma {:induction false} LowestIsLeast(sections: seq<Section>, segs: seq<Segment>, end: nat, i: nat)
    requires i < |sections| && sections[i].fileOffset > 0
    ensures LowestSection(sections).Some? && LowestContent(sections, segs, end) <= sections[i].fileOffset
    decreases |sections|
  {
    if i > 0 {
      LowestIsLeast(sections[1..], segs, end, i - 1);
    }
  }

  function Headerpad(sections: seq<Section>, segs: seq<Segment>, end: nat): nat {
    var lowest := LowestContent(sections, segs, end);
    if lowest < end then 0 else lowest - end
  }

  function FindLinkedit(segs: seq<Segment>): Option<Segment> {
    if segs == [] then None else if segs[0].name == "__LINKEDIT" then Some(segs[0]) else FindLinkedit(segs[1..])
  }

  /** The address range `[vaddr, end)` meets a segment; ends saturate. */
  predicate Collides(segs: seq<Segment>, vaddr: nat, end: nat) {
    exists i :: 0 <= i < |segs| && vaddr < Saturated(segs[i].vmaddr + segs[i].vmsize) && segs[i].vmaddr < end
  }

  function Saturated(v: nat): nat { if v < U64_LIMIT then v else U64_LIMIT - 1 }

  /** What the layout says of the file: its content starts behind the list, `__LINKEDIT`
      stands behind that and inside the file. */
  ghost predicate Describes(im: Image, sections: seq<Section>, segs: seq<Segment>, first: nat) {
    && WellFormed(im) && first == LowestContent(sections, segs, LC_START + |Flat(im.cmds)|)
    && LC_START + |Flat(im.cmds)| <= first < U32_LIMIT
    && (FindLinkedit(segs).Some? ==>
          var linkedit := FindLinkedit(segs).value;
          first <= linkedit.fileoff && linkedit.fileoff + linkedit.filesize <= |Encode(im)|)
  }

  /** The file an append makes of `im`, once a command size is chosen. */
  function Appended(im: Image, types: seq<nat>, le: nat, leSize: nat, vaddr: nat, payload: seq<byte>, deps: seq<seq<byte>>, size: nat): Image
    requires |im.header| >= 24 && (size == SEGMENT_LC_SIZE_WITH_SECTION || size == SEGMENT_LC_SIZE_NO_SECTION)
  {
    var reclaimed := StripAll(im, types);
    if |reclaimed.header| + |Flat(reclaimed.cmds)| <= le && le + leSize <= |Encode(reclaimed)| then
      var relocated := RelocatedImage(reclaimed, le, leSize, payload);
      FinishedImage(relocated, le, NewLinkedit(le, payload) - le, SegmentCommand(vaddr, le, |payload|, size), deps)
    else reclaimed
  }

  /** Every content byte before `__LINKEDIT` keeps its offset, the payload takes the old place
      of `__LINKEDIT`, and its bytes stand `shift` further on. */
  ghost predicate ContentKept(was: seq<byte>, out: seq<byte>, first: nat, le: nat, leSize: nat, payload: seq<byte>) {
    var newLe := NewLinkedit(le, payload);
    && first <= le && le + leSize <= |was| && |out| == newLe + leSize
    && out[first..le] == was[first..le]
    && out[le..le + |payload|] == payload
    && out[newLe..newLe + leSize] == was[le..le + leSize]
  }

  lemma RelocatedContent(was: seq<byte>, b: seq<byte>, out: seq<byte>, first: nat, le: nat, leSize: nat, payload: seq<byte>)
    requires |was| == |b| && first <= le && le + leSize <= |b| && was[first..] == b[first..]
    requires |out| == |Relocated(b, le, leSize, payload)| && out[first..] == Relocated(b, le, leSize, payload)[first..]
    ensures ContentKept(was, out, first, le, leSize, payload)
  {
    var r, newLe, n := Relocated(b, le, leSize, payload), NewLinkedit(le, payload), |payload|;
    assert r[..le] == b[..le] && r[le..le + n] == payload && r[newLe..newLe + leSize] == b[le..le + leSize];
    SameBehind(out, r, first, first, le);
    SameBehind(out, r, first, le, le + n);
    SameBehind(out, r, first, newLe, newLe + leSize);
    SameBehind(was, b, first, first, le);
    SameBehind(was, b, first, le, le + leSize);
    SameBefore(r, b, le, first);
  }

  lemma SameBehind(a: seq<byte>, b: seq<byte>, first: nat, i: nat, j: nat)
    requires |a| == |b| && first <= i <= j <= |a| && a[first..] == b[first..]
    ensures a[i..j] == b[i..j]
  {
    SliceOf(a, first, |a|, i - first, j - i);
    SliceOf(b, first, |b|, i - first, j - i);
    assert a[first..|a|] == a[first..] && b[first..|b|] == b[first..];
  }

  lemma SameBefore(a: seq<byte>, b: seq<byte>, le: nat, first: nat)
    requires first <= le <= |a| && le <= |b| && a[..le] == b[..le]
    ensures a[first..le] == b[first..le]
  {
    SliceOf(a, 0, le, first, le - first);
    SliceOf(b, 0, le, first, le - first);
    assert a[0..le] == a[..le] && b[0..le] == b[..le];
  }

  /** A slice of a slice. */
  lemma SliceOf(s: seq<byte>, a: nat, end: nat, k: nat, n: nat)
    requires a + k + n <= end <= |s|
    ensures s[a + k..a + k + n] == s[a..end][k..k + n]
  {
    var whole := s[a..end];
    var x, y := s[a + k..a + k + n], whole[k..k + n];
    forall j | 0 <= j < n ensures x[j] == y[j] {
      assert y[j] == whole[k + j];
    }
  }

  ghost predicate DepsFit(im: Image, deps: seq<seq<byte>>) {
    |im.cmds| + 1 + |deps| < U32_LIMIT && Commands(DylibCommands.Built(deps))
  }

  /** The size chosen leaves room before the content, whatever was reclaimed. */
  lemma ChosenLeavesRoom(im: Image, reclaimed: Image, sections: seq<Section>, segs: seq<Segment>, first: nat, deps: nat, size: nat)
    requires Describes(im, sections, segs, first) && |Flat(reclaimed.cmds)| <= |Flat(im.cmds)|
    requires ChooseSize(Headerpad(sections, segs, LC_START + |Flat(im.cmds)|), |Flat(im.cmds)| - |Flat(reclaimed.cmds)|, deps) == Some(size)
    ensures size == SEGMENT_LC_SIZE_WITH_SECTION || size == SEGMENT_LC_SIZE_NO_SECTION
    ensures LC_START + |Flat(reclaimed.cmds)| + size + deps + CODE_SIGNATURE_LC_SIZE <= first
  {
    ChosenSizeFits(Headerpad(sections, segs, LC_START + |Flat(im.cmds)|), |Flat(im.cmds)| - |Flat(reclaimed.cmds)|, deps);
  }

  /** What `Appended` is made of. */
  ghost predicate Stages(im: Image, types: seq<nat>, reclaimed: Image, relocated: Image, done: Image, le: nat, leSize: nat, payload: seq<byte>,
                         segment: seq<byte>, deps: seq<seq<byte>>)
  {
    && WellFormed(im) && reclaimed == StripAll(im, types)
    && |reclaimed.header| + |Flat(reclaimed.cmds)| <= le && le + leSize <= |Encode(reclaimed)|
    && relocated == RelocatedImage(reclaimed, le, leSize, payload) && |relocated.header| >= 24
    && done == FinishedImage(relocated, le, NewLinkedit(le, payload) - le, segment, deps)
  }

  lemma StagesRoom(im: Image, types: seq<nat>, reclaimed: Image, relocated: Image, done: Image, first: nat, le: nat, leSize: nat, payload: seq<byte>,
                   segment: seq<byte>, deps: seq<seq<byte>>)
    requires Stages(im, types, reclaimed, relocated, done, le, leSize, payload, segment, deps)
    requires LC_START + |Flat(im.cmds)| <= first <= le && le + leSize <= |Encode(im)| && first < U32_LIMIT
    requires LC_START + |Flat(reclaimed.cmds)| + |segment| + |Flat(DylibCommands.Built(deps))| <= first
    requires IsCommand(segment) && DepsFit(im, deps)
    ensures RoomFor(relocated, first, segment, deps) && relocated.cmds == reclaimed.cmds
    ensures |Encode(im)| == |Encode(reclaimed)| && Encode(im)[first..] == Encode(reclaimed)[first..]
    ensures Encode(relocated) == Relocated(Encode(reclaimed), le, leSize, payload)
  {
    StripAllKeeps(im, types, first);
    StripAllCount(im, types);
    RelocatedEncodes(reclaimed, le, leSize, payload);
  }

  lemma StagesContent(im: Image, types: seq<nat>, reclaimed: Image, relocated: Image, done: Image, first: nat, le: nat, leSize: nat, payload: seq<byte>,
                      segment: seq<byte>, deps: seq<seq<byte>>)
    requires Stages(im, types, reclaimed, relocated, done, le, leSize, payload, segment, deps)
    requires LC_START + |Flat(im.cmds)| <= first <= le && le + leSize <= |Encode(im)| && first < U32_LIMIT
    requires LC_START + |Flat(reclaimed.cmds)| + |segment| + |Flat(DylibCommands.Built(deps))| <= first
    requires IsCommand(segment) && TypeOf(segment) != LC_CODE_SIGNATURE && DepsFit(im, deps)
    ensures WellFormed(done) && ContentKept(Encode(im), Encode(done), first, le, leSize, payload) && segment in done.cmds
    ensures |Flat(done.cmds)| <= |Flat(reclaimed.cmds)| + |segment| + |Flat(DylibCommands.Built(deps))|
    ensures forall c :: c in reclaimed.cmds && TypeOf(c) != LC_CODE_SIGNATURE ==> PatchCommand(c, le, NewLinkedit(le, payload) - le) in done.cmds
  {
    hide Encode, Flat, FinishedImage, RoomFor, ContentKept;
    hide Flat;
    StagesRoom(im, types, reclaimed, relocated, done, first, le, leSize, payload, segment, deps);
    FinishedKeeps(relocated, first, le, NewLinkedit(le, payload) - le, segment, deps);
    RelocatedContent(Encode(im), Encode(reclaimed), Encode(done), first, le, leSize, payload);
  }

  /** Append conserves content. When a size is chosen, the new list and the 16 bytes of the
      signature to come end at or before the content; content before `__LINKEDIT` and
      `__LINKEDIT` itself keep their bytes; every command that is not reclaimed is still
      listed, with its offsets moved. The writer reclaims the types of `Reclaimable`. */
  lemma AppendConserves(im: Image, types: seq<nat>, sections: seq<Section>, segs: seq<Segment>, first: nat, le: nat, leSize: nat,
                        vaddr: nat, payload: seq<byte>, deps: seq<seq<byte>>, size: nat)
    requires Describes(im, sections, segs, first) && DepsFit(im, deps)
    requires FindLinkedit(segs).Some? && le == FindLinkedit(segs).value.fileoff && leSize == FindLinkedit(segs).value.filesize
    requires |Flat(StripAll(im, types).cmds)| <= |Flat(im.cmds)|
    requires ChooseSize(Headerpad(sections, segs, LC_START + |Flat(im.cmds)|),
                        |Flat(im.cmds)| - |Flat(StripAll(im, types).cmds)|, |Flat(DylibCommands.Built(deps))|) == Some(size)
    ensures var done := Appended(im, types, le, leSize, vaddr, payload, deps, size);
            && WellFormed(done) && LC_START + |Flat(done.cmds)| + CODE_SIGNATURE_LC_SIZE <= first
            && ContentKept(Encode(im), Encode(done), first, le, leSize, payload)
            && SegmentCommand(vaddr, le, |payload|, size) in done.cmds
            && forall c :: c in im.cmds && TypeOf(c) !in types && TypeOf(c) != LC_CODE_SIGNATURE ==>
                 PatchCommand(c, le, NewLinkedit(le, payload) - le) in done.cmds
  {
    var reclaimed := StripAll(im, types);
    ChosenLeavesRoom(im, reclaimed, sections, segs, first, |Flat(DylibCommands.Built(deps))|, size);
    StripAllKeeps(im, types, first);
    var segment := SegmentCommand(vaddr, le, |payload|, size);
    SegmentCommandIs(vaddr, le, |payload|, size);
    var relocated := RelocatedImage(reclaimed, le, leSize, payload);
    StagesContent(im, types, reclaimed, relocated, Appended(im, types, le, leSize, vaddr, payload, deps, size), first, le, leSize, payload, segment, deps);
    forall c | c in im.cmds && TypeOf(c) !in types ensures c in reclaimed.cmds {
      StripAllLists(im, types, c);
    }
  }

  lemma {:induction false} StripAllCount(im: Image, types: seq<nat>)
    requires |im.header| >= 24
    ensures |StripAll(im, types).cmds| <= |im.cmds|
    decreases |types|
  {
    if types != [] {
      StripAllCount(im, types[..|types| - 1]);
    }
  }

  /** A blob of `__LINKEDIT` reached through a patched offset field is byte for byte the one
      the old field reached. */
  lemma BlobReached(was: seq<byte>, out: seq<byte>, first: nat, le: nat, leSize: nat, payload: seq<byte>, c: seq<byte>, i: nat, n: nat)
    requires ContentKept(was, out, first, le, leSize, payload) && IsCommand(c)
    requires TypeOf(c) != LC_SEGMENT_64 && i < |OffsetFields(TypeOf(c), |c|)|
    requires var at := OffsetFields(TypeOf(c), |c|)[i];
             && at + 4 <= |c| && 0 < U32(c, at) && le <= U32(c, at) && U32(c, at) + n <= le + leSize
             && U32(c, at) + (NewLinkedit(le, payload) - le) < U32_LIMIT
    ensures var at, shift := OffsetFields(TypeOf(c), |c|)[i], NewLinkedit(le, payload) - le;
            var o := U32(PatchCommand(c, le, shift), at);
            o == U32(c, at) + shift && o + n <= |out| && out[o..o + n] == was[U32(c, at)..U32(c, at) + n]
  {
    hide PatchCommand, OffsetFields;
    var at, newLe := OffsetFields(TypeOf(c), |c|)[i], NewLinkedit(le, payload);
    PatchedField(c, le, newLe - le, i);
    var k := U32(c, at) - le;
    SliceOf(out, newLe, newLe + leSize, k, n);
    SliceOf(was, le, le + leSize, k, n);
  }

  method AnyCollision(segs: seq<Segment>, vaddr: nat, end: nat) returns (found: bool)
    ensures found <==> Collides(segs, vaddr, end)
  {
    var i := 0;
    while i < |segs|
      invariant i <= |segs| && forall j :: 0 <= j < i ==> !(vaddr < Saturated(segs[j].vmaddr + segs[j].vmsize) && segs[j].vmaddr < end)
    {
      if vaddr < Saturated(segs[i].vmaddr + segs[i].vmsize) && segs[i].vmaddr < end {
        return true;
      }
      i := i + 1;
    }
    return false;
  }

  /** The edits behind the relocation, on bytes. */
  method FinishFile(bytes: seq<byte>, le: nat, shift: nat, segment: seq<byte>, deps: seq<seq<byte>>,
                    ghost im: Image, ghost first: nat, ghost done: Image) returns (out: seq<byte>)
    requires bytes == Encode(im) && RoomFor(im, first, segment, deps) && done == FinishedImage(im, le, shift, segment, deps)
    ensures out == Encode(done)
  {
    hide Encode;
    hide Commands;
    ghost var patched := PatchedImage(im, le, shift);
    PatchedEncodesTo(im, le, shift, first);
    EncodedHeader(im);
    var r: Result<(), WriteError>;
    r, out := ShiftLinkeditOffsets(bytes, LC_START + FromLe(bytes[20..24]), le, shift);
    ghost var spliced, extended := SplicedKeeps(patched, first, segment, deps);
    r, out := InjectAll(out, [segment]);
    if |deps| > 0 {
      r, out := DylibCommands.InjectLcLoadDylibs(out, deps);
    }
    StripImageEncodes(extended, LC_CODE_SIGNATURE);
    var n: Result<nat, WriteError>;
    n, out := StripFirst(out, OfType(LC_CODE_SIGNATURE));
  }

  lemma AppendedUnfolds(im: Image, types: seq<nat>, reclaimed: Image, le: nat, leSize: nat, vaddr: nat, payload: seq<byte>,
                        deps: seq<seq<byte>>, size: nat)
    requires |im.header| >= 24 && (size == SEGMENT_LC_SIZE_WITH_SECTION || size == SEGMENT_LC_SIZE_NO_SECTION)
    requires reclaimed == StripAll(im, types)
    requires |reclaimed.header| + |Flat(reclaimed.cmds)| <= le && le + leSize <= |Encode(reclaimed)|
    ensures Appended(im, types, le, leSize, vaddr, payload, deps, size)
            == FinishedImage(RelocatedImage(reclaimed, le, leSize, payload), le, NewLinkedit(le, payload) - le,
                             SegmentCommand(vaddr, le, |payload|, size), deps)
  {}

  lemma AppendPlan(types: seq<nat>, le: nat, leSize: nat, vaddr: nat, payload: seq<byte>, deps: seq<seq<byte>>, size: nat,
                   sections: seq<Section>, segs: seq<Segment>, im: Image, first: nat) returns (relocated: Image, done: Image)
    requires Describes(im, sections, segs, first) && DepsFit(im, deps)
    requires FindLinkedit(segs).Some? && le == FindLinkedit(segs).value.fileoff && leSize == FindLinkedit(segs).value.filesize
    requires |Flat(StripAll(im, types).cmds)| <= |Flat(im.cmds)|
    requires ChooseSize(Headerpad(sections, segs, LC_START + |Flat(im.cmds)|),
                        |Flat(im.cmds)| - |Flat(StripAll(im, types).cmds)|, |Flat(DylibCommands.Built(deps))|) == Some(size)
    ensures size == SEGMENT_LC_SIZE_WITH_SECTION || size == SEGMENT_LC_SIZE_NO_SECTION
    ensures le + leSize <= |Encode(StripAll(im, types))|
    ensures Encode(relocated) == Relocated(Encode(StripAll(im, types)), le, leSize, payload)
    ensures RoomFor(relocated, first, SegmentCommand(vaddr, le, |payload|, size), deps)
    ensures done == Appended(im, types, le, leSize, vaddr, payload, deps, size)
    ensures done == FinishedImage(relocated, le, NewLinkedit(le, payload) - le, SegmentCommand(vaddr, le, |payload|, size), deps)
  {
    var small := StripAll(im, types);
    ChosenLeavesRoom(im, small, sections, segs, first, |Flat(DylibCommands.Built(deps))|, size);
    StripAllKeeps(im, types, first);
    done := Appended(im, types, le, leSize, vaddr, payload, deps, size);
    hide Appended;
    hide FinishedImage;
    hide ChooseSize;
    AppendedUnfolds(im, types, small, le, leSize, vaddr, payload, deps, size);
    var segment := SegmentCommand(vaddr, le, |payload|, size);
    SegmentCommandIs(vaddr, le, |payload|, size);
    hide SegmentCommand;
    relocated := RelocatedImage(small, le, leSize, payload);
    StagesRoom(im, types, small, relocated, done, first, le, leSize, payload, segment, deps);
  }

  /** Relocation, new command and the rest, once nothing can be refused any more. */
  method AppendAt(stripped: seq<byte>, ghost types: seq<nat>, le: nat, leSize: nat, vaddr: nat, payload: seq<byte>, deps: seq<seq<byte>>, size: nat,
                  ghost sections: seq<Section>, ghost segs: seq<Segment>, ghost im: Image, ghost first: nat) returns (out: seq<byte>)
    requires Describes(im, sections, segs, first) && DepsFit(im, deps) && stripped == Encode(StripAll(im, types))
    requires FindLinkedit(segs).Some? && le == FindLinkedit(segs).value.fileoff && leSize == FindLinkedit(segs).value.filesize
    requires |Flat(StripAll(im, types).cmds)| <= |Flat(im.cmds)|
    requires ChooseSize(Headerpad(sections, segs, LC_START + |Flat(im.cmds)|),
                        |Flat(im.cmds)| - |Flat(StripAll(im, types).cmds)|, |Flat(DylibCommands.Built(deps))|) == Some(size)
    ensures size == SEGMENT_LC_SIZE_WITH_SECTION || size == SEGMENT_LC_SIZE_NO_SECTION
    ensures out == Encode(Appended(im, types, le, leSize, vaddr, payload, deps, size))
  {
    hide *;
    ghost var relocated, done := AppendPlan(types, le, leSize, vaddr, payload, deps, size, sections, segs, im, first);
    var moved := Relocate(stripped, le, leSize, payload);
    out := FinishFile(moved, le, NewLinkedit(le, payload) - le, SegmentCommand(vaddr, le, |payload|, size), deps, relocated, first, done);
  }
}
