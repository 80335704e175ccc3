/** Writing chained fixups: page starts and slot words of one segment. */
module FixupWriter {
  import opened Bytes
  import opened FixupCodec
  import opened FixupChains
  import opened MachOLayout
  import opened PageGroups

  datatype SegmentFixups = SegmentFixups(segmentIndex: nat, pageSize: nat, fixups: seq<Fixup>)

  // ----- page runs ------------------------------------------------------

  /** Member `k` of a page's run is fixup `FirstOf + k`; the run's windows are the deltas. */
  lemma RunMember(fs: seq<Fixup>, pages: seq<nat>, p: nat, k: nat)
    requires |fs| == |pages| && Ascending(pages) && k < |Run(fs, pages, p)|
    ensures var i := FirstOf(pages, p) + k;
            && i < |fs| && Run(fs, pages, p)[k] == fs[i] && pages[i] == p
            && NextDelta(fs, pages, i) == if k + 1 < |Run(fs, pages, p)| then Run(fs, pages, p)[k + 1].vaddr - fs[i].vaddr else 0
  {
    FirstOfMono(pages, p);
    var i := FirstOf(pages, p) + k;
    RunOwns(pages, p, i);
    if i + 1 < |fs| {
      RunOwns(pages, p, i + 1);
    }
  }

  lemma InItsRun(fs: seq<Fixup>, pages: seq<nat>, i: nat) returns (k: nat)
    requires |fs| == |pages| && Ascending(pages) && i < |fs|
    ensures k < |Run(fs, pages, pages[i])| && i == FirstOf(pages, pages[i]) + k
  {
    FirstOfMono(pages, pages[i]);
    RunOwns(pages, pages[i], i);
    k := i - FirstOf(pages, pages[i]);
  }

  lemma SortedInSegment(fixups: seq<Fixup>, seg: Segment)
    requires InSegment(fixups, seg)
    ensures Ordered(SortByVaddr(fixups)) && InSegment(SortByVaddr(fixups), seg)
    ensures StrictlyOrdered(Dedup(SortByVaddr(fixups))) && InSegment(Dedup(SortByVaddr(fixups)), seg)
  {
    SortSorts(fixups);
    var s := SortByVaddr(fixups);
    forall i | 0 <= i < |s| ensures seg.vmaddr <= s[i].vaddr < seg.vmaddr + seg.vmsize {
      assert s[i] in multiset(s);
      assert s[i] in fixups;
    }
    DedupStrict(s);
    var d := Dedup(s);
    forall i | 0 <= i < |d| ensures seg.vmaddr <= d[i].vaddr < seg.vmaddr + seg.vmsize {
      assert d[i] in s;
    }
  }

  // ----- slot words -----------------------------------------------------

  /** A slot to write: file offset and eight bytes. */
  type Slot = (nat, seq<byte>)

  ghost predicate IsSlot(x: Slot, fs: seq<Fixup>, pages: seq<nat>, i: nat, seg: Segment, f: PointerFormat)
    requires i < |fs| == |pages| && StrictlyOrdered(fs) && InSegment(fs, seg)
  {
    SlotWord(fs, pages, i, seg, f).Ok? && x == (SlotOffset(fs[i], seg), Le(SlotWord(fs, pages, i, seg, f).value, 8))
  }

  ghost predicate SlotListed(out: seq<Slot>, fs: seq<Fixup>, pages: seq<nat>, i: nat, seg: Segment, f: PointerFormat)
    requires i < |fs| == |pages| && StrictlyOrdered(fs) && InSegment(fs, seg)
  {
    exists x :: x in out && IsSlot(x, fs, pages, i, seg, f)
  }

  ghost predicate OnlySlots(out: seq<Slot>, fs: seq<Fixup>, pages: seq<nat>, seg: Segment, f: PointerFormat)
    requires |fs| == |pages| && StrictlyOrdered(fs) && InSegment(fs, seg)
  {
    forall x :: x in out ==> exists i :: 0 <= i < |fs| && IsSlot(x, fs, pages, i, seg, f)
  }

  lemma ListedGrows(a: seq<Slot>, b: seq<Slot>, fs: seq<Fixup>, pages: seq<nat>, i: nat, seg: Segment, f: PointerFormat)
    requires i < |fs| == |pages| && StrictlyOrdered(fs) && InSegment(fs, seg)
    requires SlotListed(a, fs, pages, i, seg, f) || SlotListed(b, fs, pages, i, seg, f)
    ensures SlotListed(a + b, fs, pages, i, seg, f)
  {
    var x :| (x in a || x in b) && IsSlot(x, fs, pages, i, seg, f);
    assert x in a + b;
  }

  /** The slots of one page's run, in chain order. */
  method RunSlots(ghost fs: seq<Fixup>, ghost pages: seq<nat>, ghost p: nat, run: seq<Fixup>, seg: Segment, f: PointerFormat)
    returns (r: Result<seq<Slot>, FixupError>)
    requires |fs| == |pages| && StrictlyOrdered(fs) && InSegment(fs, seg) && Ascending(pages)
    requires run == Run(fs, pages, p)
    ensures r.Ok? ==> OnlySlots(r.value, fs, pages, seg, f)
    ensures r.Ok? ==> forall i :: 0 <= i < |fs| && pages[i] == p ==> SlotListed(r.value, fs, pages, i, seg, f)
    ensures r.Err? ==> exists i :: 0 <= i < |fs| && SlotWord(fs, pages, i, seg, f) == Err(r.error)
  {
    var out: seq<Slot> := [];
    var k := 0;
    ghost var first := FirstOf(pages, p);
    while k < |run|
      invariant k <= |run| && first + k <= |fs| && OnlySlots(out, fs, pages, seg, f)
      invariant forall i :: first <= i < first + k ==> SlotListed(out, fs, pages, i, seg, f)
    {
      RunMember(fs, pages, p, k);
      ghost var i := first + k;
      var delta := if k + 1 < |run| then run[k + 1].vaddr - run[k].vaddr else 0;
      var raw := EncodeOne(run[k], f, delta / Stride(f), seg.vmaddr);
      assert raw == SlotWord(fs, pages, i, seg, f);
      if raw.Err? {
        return Err(raw.error);
      }
      var x := (seg.fileoff + (run[k].vaddr - seg.vmaddr), Le(raw.value, 8));
      assert IsSlot(x, fs, pages, i, seg, f) && x in [x];
      forall j | first <= j < first + k + 1 ensures SlotListed(out + [x], fs, pages, j, seg, f) {
        ListedGrows(out, [x], fs, pages, j, seg, f);
      }
      out := out + [x];
      k := k + 1;
    }
    forall i | 0 <= i < |fs| && pages[i] == p ensures SlotListed(out, fs, pages, i, seg, f) {
      var m := InItsRun(fs, pages, i);
    }
    return Ok(out);
  }

  /** The slot list of one segment: exactly one word per fixup, pages in any order. It fails
      only when some word cannot be encoded. */
  method SegmentSlots(fixups: seq<Fixup>, seg: Segment, ps: nat, f: PointerFormat)
    returns (r: Result<seq<Slot>, FixupError>)
    requires ps > 0 && InSegment(fixups, seg)
    ensures var fs := Dedup(SortByVaddr(fixups));
            && InSegment(fs, seg) && StrictlyOrdered(fs)
            && (r.Ok? ==> OnlySlots(r.value, fs, Pages(fs, seg, ps), seg, f))
            && (r.Ok? ==> forall i :: 0 <= i < |fs| ==> SlotListed(r.value, fs, Pages(fs, seg, ps), i, seg, f))
            && (r.Err? ==> exists i :: 0 <= i < |fs| && SlotWord(fs, Pages(fs, seg, ps), i, seg, f) == Err(r.error))
  {
    SortedInSegment(fixups, seg);
    var fs := Dedup(SortByVaddr(fixups));
    var pages := Pages(fs, seg, ps);
    PagesArePaged(fs, seg, ps);
    r := PagedSlots(fs, pages, seg, f);
  }

  method PagedSlots(fs: seq<Fixup>, pages: seq<nat>, seg: Segment, f: PointerFormat) returns (r: Result<seq<Slot>, FixupError>)
    requires |fs| == |pages| && StrictlyOrdered(fs) && InSegment(fs, seg) && Ascending(pages)
    ensures r.Ok? ==> OnlySlots(r.value, fs, pages, seg, f)
    ensures r.Ok? ==> forall i :: 0 <= i < |fs| ==> SlotListed(r.value, fs, pages, i, seg, f)
    ensures r.Err? ==> exists i :: 0 <= i < |fs| && SlotWord(fs, pages, i, seg, f) == Err(r.error)
  {
    var byPage := Group(fs, pages);
    var todo := byPage.Keys;
    var out: seq<Slot> := [];
    while todo != {}
      invariant todo <= byPage.Keys && OnlySlots(out, fs, pages, seg, f)
      invariant forall i :: 0 <= i < |fs| && pages[i] !in todo ==> SlotListed(out, fs, pages, i, seg, f)
      decreases |todo|
    {
      var p :| p in todo;
      var slots := RunSlots(fs, pages, p, byPage[p], seg, f);
      if slots.Err? {
        return Err(slots.error);
      }
      forall i | 0 <= i < |fs| && pages[i] !in todo - {p} ensures SlotListed(out + slots.value, fs, pages, i, seg, f) {
        ListedGrows(out, slots.value, fs, pages, i, seg, f);
      }
      out := out + slots.value;
      todo := todo - {p};
    }
    return Ok(out);
  }

  // ----- page starts ----------------------------------------------------

  function StartsBytes(starts: seq<nat>): (r: seq<byte>)
    ensures |r| == 2 * |starts|
  {
    if starts == [] then [] else Le(starts[0], 2) + StartsBytes(starts[1..])
  }

  function StartsHeader(f: PointerFormat, ps: nat, fileoff: nat, count: nat): (r: seq<byte>)
    ensures |r| == 22
  {
    Le(22 + 2 * count, 4) + Le(ps, 2) + Le(ToRaw(f), 2) + Le(fileoff, 8) + Le(0, 4) + Le(count, 2)
  }

  /** `dyld_chained_starts_in_segment`. */
  function StartsPayload(f: PointerFormat, ps: nat, fileoff: nat, starts: seq<nat>): seq<byte> {
    StartsHeader(f, ps, fileoff, |starts|) + StartsBytes(starts)
  }

  method EncodeStarts(f: PointerFormat, ps: nat, fileoff: nat, starts: seq<nat>) returns (payload: seq<byte>)
    ensures payload == StartsPayload(f, ps, fileoff, starts)
  {
    payload := StartsHeader(f, ps, fileoff, |starts|);
    ghost var header := payload;
    var k := 0;
    while k < |starts|
      invariant k <= |starts|
      invariant payload + StartsBytes(starts[k..]) == header + StartsBytes(starts)
    {
      assert starts[k..][1..] == starts[k + 1..];
      assert payload + StartsBytes(starts[k..]) == payload + Le(starts[k], 2) + StartsBytes(starts[k + 1..]);
      payload := payload + Le(starts[k], 2);
      k := k + 1;
    }
    assert payload + [] == payload;
  }

  /** The pages of `keys` outside `todo` have their start recorded, all others the sentinel. */
  ghost predicate Started(starts: seq<nat>, keys: set<nat>, todo: set<nat>, fs: seq<Fixup>, pages: seq<nat>, seg: Segment, ps: nat, count: nat)
    requires Paged(fs, pages, seg, ps)
  {
    && |starts| == count
    && forall q :: 0 <= q < count ==> starts[q] == if q in keys && q !in todo then PageStart(fs, pages, seg, ps, q) else START_NONE
  }

  lemma StartPage(starts: seq<nat>, keys: set<nat>, todo: set<nat>, fs: seq<Fixup>, pages: seq<nat>, seg: Segment, ps: nat, count: nat, p: nat)
    requires ps > 0 && Paged(fs, pages, seg, ps) && p in todo && p in keys && p < count
    requires Started(starts, keys, todo, fs, pages, seg, ps, count)
    ensures |starts| == count && Started(starts[p := PageStart(fs, pages, seg, ps, p)], keys, todo - {p}, fs, pages, seg, ps, count)
  {
    hide PageStart, Paged;
  }

  /** No fixup of a page outside `todo` is too far from its successor. */
  ghost predicate NearOutside(todo: set<nat>, fs: seq<Fixup>, pages: seq<nat>, f: PointerFormat)
    requires |fs| == |pages|
  {
    forall i :: 0 <= i < |fs| && pages[i] !in todo ==> NextDelta(fs, pages, i) <= MaxNextByteDelta(f)
  }

  /** A page in the groups has a run and lies below the page count; any other has neither. */
  lemma GroupedPage(byPage: map<nat, seq<Fixup>>, fs: seq<Fixup>, pages: seq<nat>, seg: Segment, ps: nat, count: nat, p: nat)
    requires ps > 0 && Paged(fs, pages, seg, ps) && Grouped(byPage, fs, pages)
    requires forall i :: 0 <= i < |fs| ==> pages[i] < count
    ensures p in byPage ==>
              && byPage[p] == Run(fs, pages, p) && byPage[p] != [] && p < count && seg.vmaddr + p * ps <= byPage[p][0].vaddr
              && PageStart(fs, pages, seg, ps, p) == (byPage[p][0].vaddr - (seg.vmaddr + p * ps)) % U16_LIMIT
    ensures p !in byPage ==> PageStart(fs, pages, seg, ps, p) == START_NONE
  {
    if p in byPage {
      hide PageStart;
      RunStart(fs, pages, seg, ps, p);
    } else {
      FirstOfMono(pages, p);
      if FirstOf(pages, p) < |fs| {
        RunOwns(pages, p, FirstOf(pages, p));
      }
    }
  }

  lemma AllStarted(starts: seq<nat>, byPage: map<nat, seq<Fixup>>, fs: seq<Fixup>, pages: seq<nat>, seg: Segment, ps: nat, count: nat)
    requires ps > 0 && Paged(fs, pages, seg, ps) && Grouped(byPage, fs, pages)
    requires forall i :: 0 <= i < |fs| ==> pages[i] < count
    requires Started(starts, byPage.Keys, {}, fs, pages, seg, ps, count)
    ensures |starts| == count && forall q :: 0 <= q < count ==> starts[q] == PageStart(fs, pages, seg, ps, q)
  {
    hide PageStart, Paged, Grouped;
    forall q | 0 <= q < count ensures starts[q] == PageStart(fs, pages, seg, ps, q) {
      GroupedPage(byPage, fs, pages, seg, ps, count, q);
    }
  }

  /** The page starts of an ordered fixup list, or the too-wide gap that rules them out. */
  method CollectStarts(f: PointerFormat, fs: seq<Fixup>, pages: seq<nat>, seg: Segment, ps: nat, count: nat)
    returns (r: Result<seq<nat>, FixupError>)
    requires ps > 0 && Paged(fs, pages, seg, ps)
    requires forall i :: 0 <= i < |fs| ==> pages[i] < count
    ensures r.Ok? <==> GapsFit(fs, pages, f)
    ensures r.Ok? ==> |r.value| == count && forall q :: 0 <= q < count ==> r.value[q] == PageStart(fs, pages, seg, ps, q)
  {
    hide Grouped, PageStart, NextDelta, MaxNextByteDelta, Run;
    var byPage := Group(fs, pages);
    var starts: seq<nat> := seq(count, _ => START_NONE);
    var todo := byPage.Keys;
    while todo != {}
      invariant todo <= byPage.Keys && Started(starts, byPage.Keys, todo, fs, pages, seg, ps, count)
      invariant NearOutside(todo, fs, pages, f)
      decreases |todo|
    {
      var p :| p in todo;
      var run := byPage[p];
      GroupedPage(byPage, fs, pages, seg, ps, count, p);
      StartPage(starts, byPage.Keys, todo, fs, pages, seg, ps, count, p);
      starts := starts[p := (run[0].vaddr - (seg.vmaddr + p * ps)) % U16_LIMIT];
      var bad := FarNeighbours(fs, pages, f, p, run);
      if bad.Some? {
        return Err(bad.value);
      }
      todo := todo - {p};
    }
    AllStarted(starts, byPage, fs, pages, seg, ps, count);
    return Ok(starts);
  }

  /** The first fixup of a page's run is what its page start points at. */
  lemma RunStart(fs: seq<Fixup>, pages: seq<nat>, seg: Segment, ps: nat, p: nat)
    requires ps > 0 && Paged(fs, pages, seg, ps) && Run(fs, pages, p) != []
    ensures var i := FirstOf(pages, p);
            && i < |fs| && Run(fs, pages, p)[0] == fs[i] && pages[i] == p
            && seg.vmaddr + p * ps <= fs[i].vaddr
            && PageStart(fs, pages, seg, ps, p) == (fs[i].vaddr - (seg.vmaddr + p * ps)) % U16_LIMIT
  {
    RunMember(fs, pages, p, 0);
    assert OnPage(fs[FirstOf(pages, p)], pages[FirstOf(pages, p)], seg, ps);
  }

  /** The window check over one page's run. */
  method FarNeighbours(ghost fs: seq<Fixup>, ghost pages: seq<nat>, f: PointerFormat, ghost p: nat, run: seq<Fixup>)
    returns (bad: Option<FixupError>)
    requires |fs| == |pages| && Ascending(pages) && run == Run(fs, pages, p)
    ensures bad.None? ==> forall i :: 0 <= i < |fs| && pages[i] == p ==> NextDelta(fs, pages, i) <= MaxNextByteDelta(f)
    ensures bad.Some? ==> exists i :: 0 <= i < |fs| && NextDelta(fs, pages, i) > MaxNextByteDelta(f)
  {
    var k := 0;
    ghost var first := FirstOf(pages, p);
    while k < |run|
      invariant k <= |run| && first + k <= |fs|
      invariant forall i :: first <= i < first + k ==> NextDelta(fs, pages, i) <= MaxNextByteDelta(f)
    {
      RunMember(fs, pages, p, k);
      if k + 1 < |run| && run[k + 1].vaddr - run[k].vaddr > MaxNextByteDelta(f) {
        assert NextDelta(fs, pages, first + k) > MaxNextByteDelta(f);
        return Some(NextOverflow(run[k].vaddr, run[k + 1].vaddr));
      }
      k := k + 1;
    }
    forall i | 0 <= i < |fs| && pages[i] == p ensures NextDelta(fs, pages, i) <= MaxNextByteDelta(f) {
      var m := InItsRun(fs, pages, i);
    }
    return None;
  }

  method FirstMisaligned(fs: seq<Fixup>, f: PointerFormat) returns (r: Option<nat>)
    ensures r.None? <==> Aligned(fs, f)
  {
    var j := 0;
    while j < |fs|
      invariant j <= |fs| && forall i :: 0 <= i < j ==> fs[i].vaddr % Stride(f) == 0
    {
      if fs[j].vaddr % Stride(f) != 0 {
        return Some(fs[j].vaddr);
      }
      j := j + 1;
    }
    return None;
  }

  /** `build_starts_in_segment`: succeeds exactly when every fixup is aligned and close
      enough to its neighbour, and then records each page's first fixup. */
  method BuildStartsInSegment(f: PointerFormat, sf: SegmentFixups, seg: Segment) returns (r: Result<seq<byte>, FixupError>)
    requires sf.pageSize > 0 && InSegment(sf.fixups, seg)
    ensures var fs := SortByVaddr(sf.fixups);
            && InSegment(fs, seg) && Paged(fs, Pages(fs, seg, sf.pageSize), seg, sf.pageSize)
            && (r.Ok? <==> Aligned(fs, f) && GapsFit(fs, Pages(fs, seg, sf.pageSize), f))
            && (r.Ok? ==> r.value == StartsPayload(f, sf.pageSize, seg.fileoff,
                                                   if fs == [] then [] else PageStarts(fs, Pages(fs, seg, sf.pageSize), seg, sf.pageSize)))
  {
    SortedInSegment(sf.fixups, seg);
    SortSorts(sf.fixups);
    var fs, ps := SortByVaddr(sf.fixups), sf.pageSize;
    var pages := Pages(fs, seg, ps);
    PagesArePaged(fs, seg, ps);
    if sf.fixups == [] {
      var empty := EncodeStarts(f, ps, seg.fileoff, []);
      return Ok(empty);
    }
    var misaligned := FirstMisaligned(fs, f);
    if misaligned.Some? {
      return Err(Misaligned(misaligned.value));
    }
    var starts := CollectStarts(f, fs, pages, seg, ps, PageCount(seg, ps));
    if starts.Err? {
      return Err(starts.error);
    }
    assert starts.value == PageStarts(fs, pages, seg, ps);
    var payload := EncodeStarts(f, ps, seg.fileoff, starts.value);
    return Ok(payload);
  }
}
