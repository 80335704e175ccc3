/** Chains of fixup slots: what the slot words and page starts say, and what walking
    them from the page starts yields. */
module FixupChains {
  import opened Arithmetic
  import opened Bytes
  import opened FixupCodec
  import opened MachOLayout
  import opened PageGroups

  // ----- sorting --------------------------------------------------------

  function Place(fx: Fixup, fs: seq<Fixup>): seq<Fixup> {
    if fs == [] || fs[0].vaddr >= fx.vaddr then [fx] + fs else [fs[0]] + Place(fx, fs[1..])
  }

  /** The stable sort by slot address. */
  function SortByVaddr(fs: seq<Fixup>): seq<Fixup> {
    if fs == [] then [] else Place(fs[0], SortByVaddr(fs[1..]))
  }

  /** `dedup_by_key`: of each run of equal addresses the first fixup stays. */
  function Dedup(fs: seq<Fixup>): seq<Fixup>
    decreases |fs|
  {
    if |fs| <= 1 then fs
    else if fs[0].vaddr == fs[1].vaddr then Dedup([fs[0]] + fs[2..])
    else [fs[0]] + Dedup(fs[1..])
  }

  ghost predicate Ordered(fs: seq<Fixup>) {
    forall i, j :: 0 <= i < j < |fs| ==> fs[i].vaddr <= fs[j].vaddr
  }

  ghost predicate StrictlyOrdered(fs: seq<Fixup>) {
    forall i, j :: 0 <= i < j < |fs| ==> fs[i].vaddr < fs[j].vaddr
  }

  lemma {:induction false} PlaceKeeps(fx: Fixup, fs: seq<Fixup>)
    ensures multiset(Place(fx, fs)) == multiset(fs) + multiset{fx}
    ensures Place(fx, fs) != [] && (Place(fx, fs)[0] == fx || (fs != [] && Place(fx, fs)[0] == fs[0]))
    ensures Ordered(fs) ==> Ordered(Place(fx, fs))
  {
    if fs != [] && fs[0].vaddr < fx.vaddr {
      PlaceKeeps(fx, fs[1..]);
      assert fs == [fs[0]] + fs[1..];
      if Ordered(fs) {
        HeadStaysLowest(fx, fs, Place(fx, fs[1..]));
      }
    }
  }

  lemma HeadStaysLowest(fx: Fixup, fs: seq<Fixup>, rest: seq<Fixup>)
    requires fs != [] && Ordered(fs) && fs[0].vaddr < fx.vaddr && multiset(rest) == multiset(fs[1..]) + multiset{fx}
    ensures forall j :: 0 <= j < |rest| ==> fs[0].vaddr <= rest[j].vaddr
  {
    forall j | 0 <= j < |rest| ensures fs[0].vaddr <= rest[j].vaddr {
      assert rest[j] in multiset(rest);
      assert rest[j] == fx || rest[j] in multiset(fs[1..]);
    }
  }

  lemma {:induction false} SortSorts(fs: seq<Fixup>)
    ensures Ordered(SortByVaddr(fs)) && multiset(SortByVaddr(fs)) == multiset(fs)
  {
    if fs != [] {
      SortSorts(fs[1..]);
      PlaceKeeps(fs[0], SortByVaddr(fs[1..]));
      assert fs == [fs[0]] + fs[1..];
    }
  }

  lemma {:induction false} SortOfOrdered(fs: seq<Fixup>)
    requires Ordered(fs)
    ensures SortByVaddr(fs) == fs
  {
    if fs != [] {
      SortOfOrdered(fs[1..]);
      assert fs == [fs[0]] + fs[1..];
    }
  }

  lemma {:induction false} DedupStrict(fs: seq<Fixup>)
    requires Ordered(fs)
    ensures StrictlyOrdered(Dedup(fs))
    ensures fs != [] ==> Dedup(fs) != [] && Dedup(fs)[0] == fs[0]
    ensures forall fx :: fx in Dedup(fs) ==> fx in fs
    decreases |fs|
  {
    if |fs| > 1 {
      if fs[0].vaddr == fs[1].vaddr {
        DedupStrict([fs[0]] + fs[2..]);
      } else {
        DedupStrict(fs[1..]);
        var rest := Dedup(fs[1..]);
        forall j | 0 <= j < |rest| ensures fs[0].vaddr < rest[j].vaddr {
          assert rest[j] in fs[1..];
        }
      }
    }
  }

  lemma {:induction false} DedupOfStrict(fs: seq<Fixup>)
    requires StrictlyOrdered(fs)
    ensures Dedup(fs) == fs
  {
    if |fs| > 1 {
      DedupOfStrict(fs[1..]);
      assert fs == [fs[0]] + fs[1..];
    }
  }

  // ----- which of several fixups at one slot survives -------------------

  function FirstAt(fs: seq<Fixup>, a: nat): (r: Option<Fixup>)
    ensures r.Some? ==> r.value in fs && r.value.vaddr == a
  {
    if fs == [] then None else if fs[0].vaddr == a then Some(fs[0]) else FirstAt(fs[1..], a)
  }

  function LastAt(fs: seq<Fixup>, a: nat): (r: Option<Fixup>)
    ensures r.Some? ==> r.value in fs && r.value.vaddr == a
  {
    if fs == [] then None
    else
      var later := LastAt(fs[1..], a);
      if later.Some? then later else if fs[0].vaddr == a then Some(fs[0]) else None
  }

  lemma {:induction false} FirstOfPlace(fx: Fixup, fs: seq<Fixup>, a: nat)
    ensures FirstAt(Place(fx, fs), a) == if fx.vaddr == a then Some(fx) else FirstAt(fs, a)
  {
    if fs != [] && fs[0].vaddr < fx.vaddr {
      FirstOfPlace(fx, fs[1..], a);
      assert Place(fx, fs)[1..] == Place(fx, fs[1..]);
    } else {
      assert Place(fx, fs)[1..] == fs;
    }
  }

  /** The sort is stable: the first fixup at an address stays the first. */
  lemma {:induction false} SortKeepsFirst(fs: seq<Fixup>, a: nat)
    ensures FirstAt(SortByVaddr(fs), a) == FirstAt(fs, a)
  {
    if fs != [] {
      SortKeepsFirst(fs[1..], a);
      FirstOfPlace(fs[0], SortByVaddr(fs[1..]), a);
    }
  }

  lemma {:induction false} DedupKeepsFirst(fs: seq<Fixup>, a: nat)
    ensures FirstAt(Dedup(fs), a) == FirstAt(fs, a)
    decreases |fs|
  {
    if |fs| > 1 {
      if fs[0].vaddr == fs[1].vaddr {
        DedupKeepsFirst([fs[0]] + fs[2..], a);
        assert ([fs[0]] + fs[2..])[1..] == fs[2..] == fs[1..][1..];
      } else {
        DedupKeepsFirst(fs[1..], a);
        assert Dedup(fs)[1..] == Dedup(fs[1..]);
      }
    }
  }

  lemma {:induction false} OneEach(fs: seq<Fixup>, fx: Fixup)
    requires StrictlyOrdered(fs)
    ensures fx in fs <==> FirstAt(fs, fx.vaddr) == Some(fx)
  {
    if fs != [] {
      assert forall i :: 0 <= i < |fs[1..]| ==> fs[1..][i] == fs[i + 1];
      OneEach(fs[1..], fx);
      assert fs == [fs[0]] + fs[1..];
    }
  }

  /** Of several fixups at one slot exactly the first survives, and that is the last one too if
      and only if the two have the same target. */
  lemma FirstSurvives(fs: seq<Fixup>, fx: Fixup)
    ensures fx in Dedup(SortByVaddr(fs)) <==> FirstAt(fs, fx.vaddr) == Some(fx)
    ensures fx in Dedup(SortByVaddr(fs)) ==>
              var last := LastAt(fs, fx.vaddr);
              last.Some? && (last.value == fx <==> last.value.target == FirstAt(fs, fx.vaddr).value.target)
  {
    SortSorts(fs);
    DedupStrict(SortByVaddr(fs));
    OneEach(Dedup(SortByVaddr(fs)), fx);
    DedupKeepsFirst(SortByVaddr(fs), fx.vaddr);
    SortKeepsFirst(fs, fx.vaddr);
    BothEnds(fs, fx.vaddr);
  }

  lemma {:induction false} BothEnds(fs: seq<Fixup>, a: nat)
    ensures FirstAt(fs, a).Some? <==> LastAt(fs, a).Some?
  {
    if fs != [] {
      BothEnds(fs[1..], a);
    }
  }

  /** Two fixups at one slot: the second is dropped. */
  lemma SecondIsDropped()
    ensures var fs := [Fixup(8, Rebase(1)), Fixup(8, Rebase(2))];
            && Dedup(SortByVaddr(fs)) == [Fixup(8, Rebase(1))] && LastAt(fs, 8) == Some(Fixup(8, Rebase(2)))
  {
    var a, b := Fixup(8, Rebase(1)), Fixup(8, Rebase(2));
    assert SortByVaddr([b]) == [b] && [a, b][1..] == [b] && [b][1..] == [];
    assert SortByVaddr([a, b]) == Place(a, [b]) == [a, b];
    assert Dedup([a, b]) == Dedup([a] + [a, b][2..]) == Dedup([a]);
    assert LastAt([b], 8) == Some(b);
  }

  // ----- pages ----------------------------------------------------------

  ghost predicate InSegment(fs: seq<Fixup>, seg: Segment) {
    forall i :: 0 <= i < |fs| ==> seg.vmaddr <= fs[i].vaddr < seg.vmaddr + seg.vmsize
  }

  /** The page index of every fixup. */
  function Pages(fs: seq<Fixup>, seg: Segment, ps: nat): (r: seq<nat>)
    requires ps > 0 && forall i :: 0 <= i < |fs| ==> seg.vmaddr <= fs[i].vaddr
    ensures |r| == |fs| && forall i :: 0 <= i < |fs| ==> r[i] == (fs[i].vaddr - seg.vmaddr) / ps
  {
    seq(|fs|, (i: nat) requires i < |fs| && seg.vmaddr <= fs[i].vaddr => (fs[i].vaddr - seg.vmaddr) / ps)
  }

  function PageCount(seg: Segment, ps: nat): nat
    requires ps > 0
  {
    (seg.vmsize + ps - 1) / ps
  }

  /** `pages` are the page indices of `fs`, without the division. */
  ghost predicate Paged(fs: seq<Fixup>, pages: seq<nat>, seg: Segment, ps: nat) {
    && |pages| == |fs| && Ascending(pages)
    && forall i {:trigger OnPage(fs[i], pages[i], seg, ps)} :: 0 <= i < |fs| ==> OnPage(fs[i], pages[i], seg, ps)
  }

  ghost predicate OnPage(fx: Fixup, page: nat, seg: Segment, ps: nat) {
    seg.vmaddr + page * ps <= fx.vaddr < seg.vmaddr + page * ps + ps
  }

  lemma PagesArePaged(fs: seq<Fixup>, seg: Segment, ps: nat)
    requires ps > 0 && InSegment(fs, seg) && Ordered(fs)
    ensures Paged(fs, Pages(fs, seg, ps), seg, ps)
    ensures forall i :: 0 <= i < |fs| ==> Pages(fs, seg, ps)[i] < PageCount(seg, ps)
  {
    var pages := Pages(fs, seg, ps);
    forall i, j | 0 <= i < j < |fs| ensures pages[i] <= pages[j] {
      DivMono(fs[i].vaddr - seg.vmaddr, fs[j].vaddr - seg.vmaddr, ps);
    }
    forall i | 0 <= i < |fs|
      ensures OnPage(fs[i], pages[i], seg, ps)
      ensures pages[i] < PageCount(seg, ps)
    {
      var off := fs[i].vaddr - seg.vmaddr;
      assert off == off / ps * ps + off % ps;
      PageInCount(off, seg.vmsize, ps);
    }
  }

  lemma PageInCount(off: nat, size: nat, ps: nat)
    requires ps > 0 && off < size
    ensures off / ps < (size + ps - 1) / ps
  {
    DivMono(off, size - 1, ps);
    var x := size - 1;
    DivMod(x + ps, ps, x / ps + 1, x % ps);
  }

  // ----- slots ----------------------------------------------------------

  /** Bytes to the next fixup of the same page, or 0 for the page's last. */
  function NextDelta(fs: seq<Fixup>, pages: seq<nat>, i: nat): int
    requires i < |fs| == |pages|
  {
    if i + 1 < |fs| && pages[i + 1] == pages[i] then fs[i + 1].vaddr - fs[i].vaddr else 0
  }

  function SlotWord(fs: seq<Fixup>, pages: seq<nat>, i: nat, seg: Segment, f: PointerFormat): Result<nat, FixupError>
    requires i < |fs| == |pages| && NextDelta(fs, pages, i) >= 0
  {
    EncodeOne(fs[i], f, NextDelta(fs, pages, i) / Stride(f), seg.vmaddr)
  }

  function SlotOffset(fx: Fixup, seg: Segment): nat
    requires seg.vmaddr <= fx.vaddr
  {
    seg.fileoff + (fx.vaddr - seg.vmaddr)
  }

  /** The first fixup's offset in page `p`, or the no-chain sentinel. */
  ghost function PageStart(fs: seq<Fixup>, pages: seq<nat>, seg: Segment, ps: nat, p: nat): nat
    requires Paged(fs, pages, seg, ps)
  {
    var i := FirstOf(pages, p);
    if i < |fs| && pages[i] == p then
      assert OnPage(fs[i], pages[i], seg, ps);
      (fs[i].vaddr - (seg.vmaddr + p * ps)) % U16_LIMIT
    else START_NONE
  }

  lemma PageStartLeads(fs: seq<Fixup>, pages: seq<nat>, seg: Segment, ps: nat, p: nat)
    requires 0 < ps < U16_LIMIT && Paged(fs, pages, seg, ps)
    ensures var i, start := FirstOf(pages, p), PageStart(fs, pages, seg, ps, p);
            && (i < |fs| && pages[i] == p ==> start != START_NONE && seg.vmaddr + p * ps + start == fs[i].vaddr)
            && (!(i < |fs| && pages[i] == p) ==> start == START_NONE)
  {
    var i := FirstOf(pages, p);
    if i < |fs| && pages[i] == p {
      assert OnPage(fs[i], pages[i], seg, ps);
    }
  }

  ghost function PageStarts(fs: seq<Fixup>, pages: seq<nat>, seg: Segment, ps: nat): (r: seq<nat>)
    requires ps > 0 && Paged(fs, pages, seg, ps)
    ensures |r| == PageCount(seg, ps)
    ensures forall p :: 0 <= p < |r| ==> r[p] == PageStart(fs, pages, seg, ps, p)
  {
    seq(PageCount(seg, ps), (p: nat) => PageStart(fs, pages, seg, ps, p))
  }

  /** No two neighbours of a page are further apart than `next` can say. */
  ghost predicate GapsFit(fs: seq<Fixup>, pages: seq<nat>, f: PointerFormat)
    requires |fs| == |pages|
  {
    forall i :: 0 <= i < |fs| ==> NextDelta(fs, pages, i) <= MaxNextByteDelta(f)
  }

  ghost predicate Aligned(fs: seq<Fixup>, f: PointerFormat) {
    forall i :: 0 <= i < |fs| ==> fs[i].vaddr % Stride(f) == 0
  }

  // ----- walking --------------------------------------------------------

  function Cons(fx: Fixup, r: Result<seq<Fixup>, FixupError>): Result<seq<Fixup>, FixupError> {
    match r
    case Ok(rest) => Ok([fx] + rest)
    case Err(e) => Err(e)
  }

  function Append(a: seq<Fixup>, r: Result<seq<Fixup>, FixupError>): Result<seq<Fixup>, FixupError> {
    match r
    case Ok(rest) => Ok(a + rest)
    case Err(e) => Err(e)
  }

  /** The chain through the slot at `off` bytes into the segment. It ends at a zero
      `next` or, silently, at the end of the segment's file bytes. */
  function WalkChain(bytes: seq<byte>, seg: Segment, f: PointerFormat, imports: nat, off: nat): Result<seq<Fixup>, FixupError>
    decreases seg.filesize - off
  {
    if off + 8 > seg.filesize || seg.fileoff + off + 8 > |bytes| then Ok([])
    else
      match DecodeOne(FromLe(bytes[seg.fileoff + off..seg.fileoff + off + 8]), f, imports, seg.vmaddr)
      case Err(e) => Err(e)
      case Ok((target, next)) =>
        var fx := Fixup(seg.vmaddr + off, target);
        if next == 0 then Ok([fx])
        else Cons(fx, WalkChain(bytes, seg, f, imports, off + next * Stride(f)))
  }

  function WalkPages(bytes: seq<byte>, seg: Segment, f: PointerFormat, imports: nat, starts: seq<nat>, ps: nat, p: nat): Result<seq<Fixup>, FixupError>
    requires p <= |starts|
    decreases |starts| - p
  {
    if p == |starts| then Ok([])
    else if starts[p] == START_NONE then WalkPages(bytes, seg, f, imports, starts, ps, p + 1)
    else
      match WalkChain(bytes, seg, f, imports, p * ps + starts[p])
      case Err(e) => Err(e)
      case Ok(chain) => Append(chain, WalkPages(bytes, seg, f, imports, starts, ps, p + 1))
  }

  // ----- the chain round trip -------------------------------------------

  /** `fs` sits in the file-backed part of `seg`, fits the chains of format `f` and the
      fields of its slots. */
  ghost predicate WellPlaced(fs: seq<Fixup>, pages: seq<nat>, seg: Segment, ps: nat, f: PointerFormat, imports: nat) {
    && 0 < ps < U16_LIMIT
    && InSegment(fs, seg) && StrictlyOrdered(fs) && Paged(fs, pages, seg, ps)
    && Aligned(fs, f) && GapsFit(fs, pages, f)
    && (forall i :: 0 <= i < |fs| ==> FileBacked(fs[i], seg))
    && (forall i :: 0 <= i < |fs| ==> FieldsFit(fs[i], f, imports, seg))
  }

  ghost predicate FileBacked(fx: Fixup, seg: Segment) {
    fx.vaddr - seg.vmaddr + 8 <= seg.filesize
  }

  ghost predicate FieldsFit(fx: Fixup, f: PointerFormat, imports: nat, seg: Segment) {
    FitsFormat(fx, f, seg.vmaddr) && (fx.target.Bind? ==> fx.target.importIndex < imports)
  }

  lemma NextDeltaFits(fs: seq<Fixup>, pages: seq<nat>, i: nat, f: PointerFormat)
    requires |pages| == |fs| && StrictlyOrdered(fs) && Aligned(fs, f) && GapsFit(fs, pages, f) && i < |fs|
    ensures var d := NextDelta(fs, pages, i);
            0 <= d && d / Stride(f) < NextLimit(f) && d / Stride(f) * Stride(f) == d && (d > 0 ==> d / Stride(f) > 0)
  {
    if i + 1 < |fs| && pages[i + 1] == pages[i] {
      StrideDivides(fs[i].vaddr, fs[i + 1].vaddr, f);
    }
  }

  lemma StrideDivides(a: nat, b: nat, f: PointerFormat)
    requires a < b && a % Stride(f) == 0 && b % Stride(f) == 0 && b - a <= MaxNextByteDelta(f)
    ensures (b - a) / Stride(f) * Stride(f) == b - a && 0 < (b - a) / Stride(f) < NextLimit(f)
  {
    if IsPtr64(f) {
      assert (b - a) % 4 == 0;
    } else {
      assert (b - a) % 8 == 0;
    }
  }

  lemma SlotEncodes(fs: seq<Fixup>, pages: seq<nat>, i: nat, seg: Segment, ps: nat, f: PointerFormat, imports: nat)
    requires WellPlaced(fs, pages, seg, ps, f, imports) && i < |fs|
    ensures NextDelta(fs, pages, i) >= 0 && SlotWord(fs, pages, i, seg, f).Ok?
    ensures SlotWord(fs, pages, i, seg, f).value < U64_LIMIT
    ensures DecodeOne(SlotWord(fs, pages, i, seg, f).value, f, imports, seg.vmaddr)
            == Ok((fs[i].target, NextDelta(fs, pages, i) / Stride(f)))
  {
    NextDeltaFits(fs, pages, i, f);
    var next := NextDelta(fs, pages, i) / Stride(f);
    assert FieldsFit(fs[i], f, imports, seg);
    WordDecodes(fs[i], f, next, imports, seg.vmaddr);
    CodecExact(fs[i], f, next, imports, seg.vmaddr);
  }

  /** The word of slot `i` stands in the image. */
  ghost predicate SlotWritten(bytes: seq<byte>, fs: seq<Fixup>, pages: seq<nat>, i: nat, seg: Segment, f: PointerFormat)
    requires i < |fs| == |pages| && NextDelta(fs, pages, i) >= 0 && seg.vmaddr <= fs[i].vaddr
  {
    && SlotWord(fs, pages, i, seg, f).Ok?
    && HasAt(bytes, SlotOffset(fs[i], seg), Le(SlotWord(fs, pages, i, seg, f).value, 8))
  }

  ghost predicate SlotsWritten(bytes: seq<byte>, fs: seq<Fixup>, pages: seq<nat>, seg: Segment, f: PointerFormat)
    requires |fs| == |pages| && StrictlyOrdered(fs) && InSegment(fs, seg)
  {
    forall i :: 0 <= i < |fs| ==> SlotWritten(bytes, fs, pages, i, seg, f)
  }

  /** `fs` is laid out in `seg` and the image holds every one of its slots. */
  ghost predicate Encoded(bytes: seq<byte>, fs: seq<Fixup>, pages: seq<nat>, seg: Segment, f: PointerFormat) {
    |fs| == |pages| && StrictlyOrdered(fs) && InSegment(fs, seg) && SlotsWritten(bytes, fs, pages, seg, f)
  }

  /** The word at slot `i` reads back as fixup `i` and the distance to its successor. */
  lemma SlotReads(bytes: seq<byte>, fs: seq<Fixup>, pages: seq<nat>, i: nat, seg: Segment, ps: nat, f: PointerFormat, imports: nat)
    requires WellPlaced(fs, pages, seg, ps, f, imports) && i < |fs| && SlotWritten(bytes, fs, pages, i, seg, f)
    ensures var off := fs[i].vaddr - seg.vmaddr;
            && off + 8 <= seg.filesize && seg.fileoff + off + 8 <= |bytes|
            && DecodeOne(FromLe(bytes[seg.fileoff + off..seg.fileoff + off + 8]), f, imports, seg.vmaddr)
               == Ok((fs[i].target, NextDelta(fs, pages, i) / Stride(f)))
  {
    SlotEncodes(fs, pages, i, seg, ps, f, imports);
    assert FileBacked(fs[i], seg);
    Pow256Values();
    FromLeOfLe(SlotWord(fs, pages, i, seg, f).value, 8);
  }

  lemma WalkChainStep(bytes: seq<byte>, seg: Segment, f: PointerFormat, imports: nat, off: nat, target: FixupTarget, next: nat)
    requires off + 8 <= seg.filesize && seg.fileoff + off + 8 <= |bytes|
    requires DecodeOne(FromLe(bytes[seg.fileoff + off..seg.fileoff + off + 8]), f, imports, seg.vmaddr) == Ok((target, next))
    ensures WalkChain(bytes, seg, f, imports, off) ==
            if next == 0 then Ok([Fixup(seg.vmaddr + off, target)])
            else Cons(Fixup(seg.vmaddr + off, target), WalkChain(bytes, seg, f, imports, off + next * Stride(f)))
  {}

  /** One step of the walk: emit fixup `i` and go on to its successor on the page. */
  lemma ChainStep(bytes: seq<byte>, fs: seq<Fixup>, pages: seq<nat>, i: nat, seg: Segment, ps: nat, f: PointerFormat, imports: nat)
    requires WellPlaced(fs, pages, seg, ps, f, imports) && i < |fs| && SlotWritten(bytes, fs, pages, i, seg, f)
    ensures var d := NextDelta(fs, pages, i);
            && d >= 0
            && WalkChain(bytes, seg, f, imports, fs[i].vaddr - seg.vmaddr) ==
               if d == 0 then Ok([fs[i]]) else Cons(fs[i], WalkChain(bytes, seg, f, imports, fs[i].vaddr - seg.vmaddr + d))
  {
    SlotReads(bytes, fs, pages, i, seg, ps, f, imports);
    NextDeltaFits(fs, pages, i, f);
    WalkChainStep(bytes, seg, f, imports, fs[i].vaddr - seg.vmaddr, fs[i].target, NextDelta(fs, pages, i) / Stride(f));
  }

  /** A fixup is its page's last exactly when its delta is 0; otherwise the delta leads to
      the next fixup of the page. */
  lemma PageEnds(fs: seq<Fixup>, pages: seq<nat>, i: nat)
    requires |fs| == |pages| && Ascending(pages) && StrictlyOrdered(fs) && i < |fs|
    ensures var end, d := FirstOf(pages, pages[i] + 1), NextDelta(fs, pages, i);
            && i < end && d >= 0 && (d == 0 <==> end == i + 1)
            && (d > 0 ==> i + 1 < |fs| && pages[i + 1] == pages[i] && fs[i + 1].vaddr == fs[i].vaddr + d)
  {
    RunOwns(pages, pages[i], i);
    if i + 1 < |fs| {
      RunOwns(pages, pages[i], i + 1);
    }
  }

  lemma SlotIsWritten(bytes: seq<byte>, fs: seq<Fixup>, pages: seq<nat>, i: nat, seg: Segment, f: PointerFormat)
    requires |fs| == |pages| && StrictlyOrdered(fs) && InSegment(fs, seg) && SlotsWritten(bytes, fs, pages, seg, f) && i < |fs|
    ensures SlotWritten(bytes, fs, pages, i, seg, f)
  {}

  /** Walking from slot `i` yields the rest of its page. */
  lemma {:induction false} ChainFrom(bytes: seq<byte>, fs: seq<Fixup>, pages: seq<nat>, i: nat, seg: Segment, ps: nat, f: PointerFormat, imports: nat)
    requires WellPlaced(fs, pages, seg, ps, f, imports) && SlotsWritten(bytes, fs, pages, seg, f) && i < |fs|
    ensures var end := FirstOf(pages, pages[i] + 1);
            i < end && WalkChain(bytes, seg, f, imports, fs[i].vaddr - seg.vmaddr) == Ok(fs[i..end])
    decreases |fs| - i
  {
    hide SlotWord, WalkChain, NextDelta, FirstOf, SlotsWritten, SlotWritten, GapsFit, FieldsFit, FileBacked;
    SlotIsWritten(bytes, fs, pages, i, seg, f);
    ChainStep(bytes, fs, pages, i, seg, ps, f, imports);
    PageEnds(fs, pages, i);
    var end := FirstOf(pages, pages[i] + 1);
    if NextDelta(fs, pages, i) > 0 {
      ChainFrom(bytes, fs, pages, i + 1, seg, ps, f, imports);
      assert fs[i..end] == [fs[i]] + fs[i + 1..end];
    } else {
      assert fs[i..end] == [fs[i]];
    }
  }

  /** Page `p`'s start is the sentinel exactly when the page has no fixups, and otherwise
      leads to exactly page `p`'s fixups. */
  lemma PageWalks(bytes: seq<byte>, fs: seq<Fixup>, pages: seq<nat>, seg: Segment, ps: nat, f: PointerFormat, imports: nat, p: nat)
    requires WellPlaced(fs, pages, seg, ps, f, imports) && SlotsWritten(bytes, fs, pages, seg, f)
    ensures var start, run := PageStart(fs, pages, seg, ps, p), Run(fs, pages, p);
            && (start == START_NONE <==> run == [])
            && (run != [] ==> WalkChain(bytes, seg, f, imports, p * ps + start) == Ok(run))
  {
    FirstOfMono(pages, p);
    PageStartLeads(fs, pages, seg, ps, p);
    var i := FirstOf(pages, p);
    if i < |fs| {
      RunOwns(pages, p, i);
      if pages[i] == p {
        ChainFrom(bytes, fs, pages, i, seg, ps, f, imports);
      }
    }
  }

  lemma WalkPagesStep(bytes: seq<byte>, seg: Segment, f: PointerFormat, imports: nat, starts: seq<nat>, ps: nat, p: nat, chain: seq<Fixup>)
    requires p < |starts| && StartWalks(bytes, seg, f, imports, ps, p, starts[p], chain)
    ensures WalkPages(bytes, seg, f, imports, starts, ps, p) == Append(chain, WalkPages(bytes, seg, f, imports, starts, ps, p + 1))
  {
    var rest := WalkPages(bytes, seg, f, imports, starts, ps, p + 1);
    if rest.Ok? {
      assert [] + rest.value == rest.value;
    }
  }

  /** `start` is the sentinel for a page without fixups and leads to the page's run otherwise. */
  ghost predicate StartWalks(bytes: seq<byte>, seg: Segment, f: PointerFormat, imports: nat, ps: nat, p: nat, start: nat, run: seq<Fixup>) {
    && (start == START_NONE ==> run == [])
    && (start != START_NONE ==> WalkChain(bytes, seg, f, imports, p * ps + start) == Ok(run))
  }

  /** Walking the pages from `p` on yields the fixups from page `p` on. */
  lemma {:induction false} PagesFrom(bytes: seq<byte>, fs: seq<Fixup>, pages: seq<nat>, seg: Segment, ps: nat, f: PointerFormat, imports: nat, starts: seq<nat>, p: nat)
    requires |fs| == |pages| && Ascending(pages)
    requires forall q {:trigger Run(fs, pages, q)} :: 0 <= q < |starts| ==> StartWalks(bytes, seg, f, imports, ps, q, starts[q], Run(fs, pages, q))
    requires FirstOf(pages, |starts|) == |fs| && p <= |starts|
    ensures WalkPages(bytes, seg, f, imports, starts, ps, p) == Ok(fs[FirstOf(pages, p)..])
    decreases |starts| - p
  {
    if p == |starts| {
      assert fs[|fs|..] == [];
    } else {
      var run := Run(fs, pages, p);
      WalkPagesStep(bytes, seg, f, imports, starts, ps, p, run);
      PagesFrom(bytes, fs, pages, seg, ps, f, imports, starts, p + 1);
      RunThenRest(fs, pages, p);
    }
  }

  /** Walking from the page starts returns exactly the sorted fixups. */
  lemma ChainRoundTrip(bytes: seq<byte>, fs: seq<Fixup>, seg: Segment, ps: nat, f: PointerFormat, imports: nat)
    requires ps > 0 && InSegment(fs, seg) && WellPlaced(fs, Pages(fs, seg, ps), seg, ps, f, imports)
    requires SlotsWritten(bytes, fs, Pages(fs, seg, ps), seg, f)
    ensures WalkPages(bytes, seg, f, imports, PageStarts(fs, Pages(fs, seg, ps), seg, ps), ps, 0) == Ok(fs)
  {
    var pages := Pages(fs, seg, ps);
    var starts := PageStarts(fs, pages, seg, ps);
    PagesArePaged(fs, seg, ps);
    FirstOfAll(pages, PageCount(seg, ps));
    forall q | 0 <= q < |starts| ensures StartWalks(bytes, seg, f, imports, ps, q, starts[q], Run(fs, pages, q)) {
      PageWalks(bytes, fs, pages, seg, ps, f, imports, q);
    }
    PagesFrom(bytes, fs, pages, seg, ps, f, imports, starts, 0);
    assert FirstOf(pages, 0) == 0;
    assert fs[0..] == fs;
  }

  /** No page start is the sentinel by accident, and every `next` fits its field. */
  lemma StartsAndNextsFit(fs: seq<Fixup>, seg: Segment, ps: nat, f: PointerFormat, imports: nat, i: nat)
    requires ps > 0 && InSegment(fs, seg) && WellPlaced(fs, Pages(fs, seg, ps), seg, ps, f, imports) && i < |fs|
    ensures var pages := Pages(fs, seg, ps);
            && PageStart(fs, pages, seg, ps, pages[i]) != START_NONE
            && pages[i] * ps + PageStart(fs, pages, seg, ps, pages[i]) <= fs[i].vaddr - seg.vmaddr
            && 0 <= NextDelta(fs, pages, i) / Stride(f) < NextLimit(f)
  {
    var pages := Pages(fs, seg, ps);
    RunOwns(pages, pages[i], i);
    RunOwns(pages, pages[i], FirstOf(pages, pages[i]));
    PageStartLeads(fs, pages, seg, ps, pages[i]);
    NextDeltaFits(fs, pages, i, f);
  }
}
