/** Spans written by dynamic relocations, and the chunks of a range between them. */
module SkipMap {
  import opened Bytes

  datatype RelocSpan = RelocSpan(fileOffset: nat, len: nat)

  function End(s: RelocSpan): nat { s.fileOffset + s.len }

  predicate Holds(s: RelocSpan, o: nat) { s.fileOffset <= o < End(s) }

  ghost predicate Covered(spans: seq<RelocSpan>, o: nat) {
    exists i :: 0 <= i < |spans| && Holds(spans[i], o)
  }

  ghost predicate Sorted(spans: seq<RelocSpan>) {
    forall i, j :: 0 <= i < j < |spans| ==> spans[i].fileOffset <= spans[j].fileOffset
  }

  ghost predicate Positive(spans: seq<RelocSpan>) {
    forall i :: 0 <= i < |spans| ==> spans[i].len > 0
  }

  /** Strictly separated: a byte lies between any two neighbours. */
  ghost predicate Separated(spans: seq<RelocSpan>) {
    forall i, j :: 0 <= i < j < |spans| ==> End(spans[i]) < spans[j].fileOffset
  }

  function Max(a: nat, b: nat): nat { if a >= b then a else b }

  function Min(a: nat, b: nat): nat { if a <= b then a else b }

  // ----- merging --------------------------------------------------------

  /** `as u32`. */
  function As32(v: nat): nat { v % U32_LIMIT }

  /** The last merged span takes in the next one if they touch; its length is 32 bits wide. */
  function Absorb(last: RelocSpan, s: RelocSpan): RelocSpan {
    last.(len := As32(Max(End(s), End(last)) - last.fileOffset))
  }

  function MergeFrom(last: RelocSpan, rest: seq<RelocSpan>): seq<RelocSpan>
    decreases |rest|
  {
    if rest == [] then [last]
    else if rest[0].fileOffset <= End(last) then MergeFrom(Absorb(last, rest[0]), rest[1..])
    else [last] + MergeFrom(rest[0], rest[1..])
  }

  function Merge(spans: seq<RelocSpan>): seq<RelocSpan> {
    if spans == [] then [] else MergeFrom(spans[0], spans[1..])
  }

  /** `merge_adjacent`. */
  method MergeAdjacent(spans: seq<RelocSpan>) returns (out: seq<RelocSpan>)
    ensures out == Merge(spans)
  {
    if |spans| == 0 {
      return spans;
    }
    out := [spans[0]];
    ghost var done: seq<RelocSpan> := [];
    var k := 1;
    MergingStarts(spans);
    hide *;
    while k < |spans|
      invariant 1 <= k <= |spans| && |out| > 0 && Merging(out, done, spans[k..], Merge(spans))
    {
      var s, last := spans[k], out[|out| - 1];
      assert spans[k..][0] == s && spans[k..][1..] == spans[k + 1..];
      MergingStep(out, done, spans[k..], Merge(spans));
      if s.fileOffset <= End(last) {
        out := out[|out| - 1 := Absorb(last, s)];
      } else {
        out := out + [s];
        done := done + [last];
      }
      k := k + 1;
    }
    assert spans[k..] == [];
    MergingDone(out, done, Merge(spans));
  }

  /** `out` ends in the span being merged into; `rest` is still to come. */
  ghost predicate Merging(out: seq<RelocSpan>, done: seq<RelocSpan>, rest: seq<RelocSpan>, goal: seq<RelocSpan>) {
    && |out| == |done| + 1 && out[..|done|] == done
    && done + MergeFrom(out[|done|], rest) == goal
  }

  lemma MergingStarts(spans: seq<RelocSpan>)
    requires spans != []
    ensures Merging([spans[0]], [], spans[1..], Merge(spans))
  {
    assert [] + Merge(spans) == Merge(spans);
  }

  lemma MergingStep(out: seq<RelocSpan>, done: seq<RelocSpan>, rest: seq<RelocSpan>, goal: seq<RelocSpan>)
    requires rest != [] && |out| > 0 && Merging(out, done, rest, goal)
    ensures var last := out[|out| - 1];
            && (rest[0].fileOffset <= End(last) ==> Merging(out[|out| - 1 := Absorb(last, rest[0])], done, rest[1..], goal))
            && (rest[0].fileOffset > End(last) ==> Merging(out + [rest[0]], done + [last], rest[1..], goal))
  {
    hide Absorb;
    var last := out[|out| - 1];
    MergeStep(done, last, rest);
    assert out == done + [last];
    var a := out[|out| - 1 := Absorb(last, rest[0])];
    assert a[..|done|] == done;
    assert (out + [rest[0]])[..|done| + 1] == done + [last];
  }

  lemma MergingDone(out: seq<RelocSpan>, done: seq<RelocSpan>, goal: seq<RelocSpan>)
    requires Merging(out, done, [], goal)
    ensures out == goal
  {
    assert out == done + [out[|done|]];
  }

  lemma MergeStep(done: seq<RelocSpan>, last: RelocSpan, rest: seq<RelocSpan>)
    requires rest != []
    ensures done + MergeFrom(last, rest)
            == if rest[0].fileOffset <= End(last) then done + MergeFrom(Absorb(last, rest[0]), rest[1..])
               else (done + [last]) + MergeFrom(rest[0], rest[1..])
  {
    if rest[0].fileOffset > End(last) {
      var m := MergeFrom(rest[0], rest[1..]);
      assert done + ([last] + m) == (done + [last]) + m;
    }
  }

  /** The span from the start of `last` to the later of the two ends. */
  function Join(last: RelocSpan, s: RelocSpan): RelocSpan
    requires last.fileOffset <= s.fileOffset
  {
    last.(len := Max(End(s), End(last)) - last.fileOffset)
  }

  /** The maximal runs of touching spans, with lengths of any size. */
  ghost function RunsFrom(last: RelocSpan, rest: seq<RelocSpan>): seq<RelocSpan>
    requires Sorted([last] + rest)
    decreases |rest|
  {
    if rest == [] then [last]
    else
      TailSorted(last, rest);
      if rest[0].fileOffset <= End(last) then RunsFrom(Join(last, rest[0]), rest[1..])
      else [last] + RunsFrom(rest[0], rest[1..])
  }

  ghost function Runs(spans: seq<RelocSpan>): seq<RelocSpan>
    requires Sorted(spans)
  {
    if spans == [] then [] else
      assert [spans[0]] + spans[1..] == spans;
      RunsFrom(spans[0], spans[1..])
  }

  /** Lengths are 32-bit numbers. */
  ghost predicate Words(spans: seq<RelocSpan>) {
    forall i :: 0 <= i < |spans| ==> spans[i].len < U32_LIMIT
  }

  lemma TailSorted(last: RelocSpan, rest: seq<RelocSpan>)
    requires rest != [] && Sorted([last] + rest)
    ensures last.fileOffset <= rest[0].fileOffset
    ensures Sorted([rest[0]] + rest[1..]) && Sorted([Join(last, rest[0])] + rest[1..]) && [rest[0]] + rest[1..] == rest
    ensures Sorted([Absorb(last, rest[0])] + rest[1..])
    ensures forall i :: 0 <= i < |rest| ==> rest[0].fileOffset <= rest[i].fileOffset
  {
    var all := [last] + rest;
    assert all[0] == last && all[1] == rest[0];
    forall i, j | 0 <= i < j < |rest| ensures rest[i].fileOffset <= rest[j].fileOffset {
      assert all[i + 1] == rest[i] && all[j + 1] == rest[j];
    }
    FrontSorted(last, rest, Join(last, rest[0]));
    FrontSorted(last, rest, Absorb(last, rest[0]));
  }

  lemma FrontSorted(last: RelocSpan, rest: seq<RelocSpan>, now: RelocSpan)
    requires rest != [] && Sorted([last] + rest) && now.fileOffset == last.fileOffset
    ensures Sorted([now] + rest[1..])
  {
    var all, b := [last] + rest, [now] + rest[1..];
    forall i, j | 0 <= i < j < |b| ensures b[i].fileOffset <= b[j].fileOffset {
      assert all[0] == last && all[j + 1] == rest[j] == b[j];
      if i > 0 {
        assert all[i + 1] == rest[i] == b[i];
      }
    }
  }

  lemma CoveredCons(s: RelocSpan, rest: seq<RelocSpan>, o: nat)
    ensures Covered([s] + rest, o) <==> Holds(s, o) || Covered(rest, o)
  {
    var all := [s] + rest;
    if Holds(s, o) {
      assert Holds(all[0], o);
    }
    if Covered(rest, o) {
      var i :| 0 <= i < |rest| && Holds(rest[i], o);
      assert Holds(all[i + 1], o);
    }
    if Covered(all, o) && !Holds(s, o) {
      var i :| 0 <= i < |all| && Holds(all[i], o);
      assert Holds(rest[i - 1], o);
    }
  }

  /** The runs cover the spans' bytes. */
  lemma {:induction false} RunsCover(last: RelocSpan, rest: seq<RelocSpan>, o: nat)
    requires Sorted([last] + rest)
    ensures Covered(RunsFrom(last, rest), o) <==> Holds(last, o) || Covered(rest, o)
    decreases |rest|
  {
    if rest == [] {
      CoveredCons(last, [], o);
      assert [last] + [] == [last];
    } else {
      TailSorted(last, rest);
      hide Sorted, Covered;
      CoveredCons(rest[0], rest[1..], o);
      if rest[0].fileOffset <= End(last) {
        RunsCover(Join(last, rest[0]), rest[1..], o);
      } else {
        RunsCover(rest[0], rest[1..], o);
        CoveredCons(last, RunsFrom(rest[0], rest[1..]), o);
      }
    }
  }

  /** The runs start at the first span and are strictly separated. */
  lemma {:induction false} RunsSeparated(last: RelocSpan, rest: seq<RelocSpan>)
    requires Sorted([last] + rest) && last.len > 0 && Positive(rest)
    ensures var m := RunsFrom(last, rest);
            m != [] && m[0].fileOffset == last.fileOffset && Separated(m) && Positive(m)
    decreases |rest|
  {
    if rest != [] {
      TailSorted(last, rest);
      assert forall i :: 0 <= i < |rest[1..]| ==> rest[1..][i] == rest[i + 1];
      if rest[0].fileOffset <= End(last) {
        RunsSeparated(Join(last, rest[0]), rest[1..]);
      } else {
        RunsSeparated(rest[0], rest[1..]);
        SeparatedFront(last, RunsFrom(rest[0], rest[1..]));
      }
    }
  }

  lemma SeparatedFront(last: RelocSpan, m: seq<RelocSpan>)
    requires m != [] && End(last) < m[0].fileOffset && Separated(m) && Positive(m) && last.len > 0
    ensures Separated([last] + m) && Positive([last] + m)
  {
    var all := [last] + m;
    forall i, j | 0 <= i < j < |all| ensures End(all[i]) < all[j].fileOffset {
      assert all[j] == m[j - 1] && m[0].fileOffset <= m[j - 1].fileOffset;
    }
  }

  /** The run being extended ends up at least as long as it is. */
  lemma {:induction false} FirstRunLongest(last: RelocSpan, rest: seq<RelocSpan>)
    requires Sorted([last] + rest)
    ensures var m := RunsFrom(last, rest); m != [] && m[0].len >= last.len
    decreases |rest|
  {
    if rest != [] && rest[0].fileOffset <= End(last) {
      TailSorted(last, rest);
      FirstRunLongest(Join(last, rest[0]), rest[1..]);
    }
  }

  lemma WordsFront(last: RelocSpan, m: seq<RelocSpan>)
    ensures Words([last] + m) <==> last.len < U32_LIMIT && Words(m)
  {
    var all := [last] + m;
    if Words(all) {
      assert all[0] == last;
      forall i | 0 <= i < |m| ensures m[i].len < U32_LIMIT {
        assert all[i + 1] == m[i];
      }
    }
  }

  /** While every run fits, merging is exact. */
  lemma {:induction false} FittingRuns(last: RelocSpan, rest: seq<RelocSpan>)
    requires Sorted([last] + rest) && Words(RunsFrom(last, rest))
    ensures MergeFrom(last, rest) == RunsFrom(last, rest)
    decreases |rest|
  {
    if rest != [] {
      TailSorted(last, rest);
      hide Sorted;
      if rest[0].fileOffset <= End(last) {
        FirstRunLongest(Join(last, rest[0]), rest[1..]);
        assert Absorb(last, rest[0]) == Join(last, rest[0]);
        FittingRuns(Join(last, rest[0]), rest[1..]);
      } else {
        WordsFront(last, RunsFrom(rest[0], rest[1..]));
        FittingRuns(rest[0], rest[1..]);
      }
    }
  }

  /** No merged span starts before the first. */
  lemma {:induction false} MergedStarts(last: RelocSpan, rest: seq<RelocSpan>, o: nat)
    requires Sorted([last] + rest) && o < last.fileOffset
    ensures !Covered(MergeFrom(last, rest), o)
    decreases |rest|
  {
    if rest != [] {
      TailSorted(last, rest);
      if rest[0].fileOffset <= End(last) {
        MergedStarts(Absorb(last, rest[0]), rest[1..], o);
      } else {
        MergedStarts(rest[0], rest[1..], o);
        CoveredCons(last, MergeFrom(rest[0], rest[1..]), o);
      }
    }
  }

  /** A byte between a span and everything that follows is lost for good. */
  lemma LostBetween(last: RelocSpan, rest: seq<RelocSpan>, o: nat)
    requires Sorted([last] + rest) && End(last) <= o && forall i :: 0 <= i < |rest| ==> o < rest[i].fileOffset
    ensures !Covered(MergeFrom(last, rest), o)
  {
    if rest != [] {
      TailSorted(last, rest);
      MergedStarts(rest[0], rest[1..], o);
      CoveredCons(last, MergeFrom(rest[0], rest[1..]), o);
    }
  }

  /** A length that overflows drops the byte before the span that was taken in. */
  lemma Truncated(last: RelocSpan, s: RelocSpan)
    requires last.fileOffset <= s.fileOffset <= End(last) && last.len < U32_LIMIT && s.len < U32_LIMIT
    requires Join(last, s).len >= U32_LIMIT
    ensures last.fileOffset < s.fileOffset && Holds(last, s.fileOffset - 1) && End(Absorb(last, s)) <= s.fileOffset - 1
  {
    var v := Join(last, s).len;
    assert U32_LIMIT <= v < 2 * U32_LIMIT && As32(v) == v - U32_LIMIT;
  }

  /** A run of 4 GiB or more costs a byte. */
  lemma {:induction false} LostByte(last: RelocSpan, rest: seq<RelocSpan>) returns (o: nat)
    requires Sorted([last] + rest) && last.len < U32_LIMIT && Words(rest) && !Words(RunsFrom(last, rest))
    ensures (Holds(last, o) || Covered(rest, o)) && !Covered(MergeFrom(last, rest), o)
    decreases |rest|
  {
    TailSorted(last, rest);
    var s, tail := rest[0], rest[1..];
    assert forall i :: 0 <= i < |tail| ==> tail[i] == rest[i + 1];
    if s.fileOffset > End(last) {
      WordsFront(last, RunsFrom(s, tail));
      o := LostByte(s, tail);
      CoveredCons(s, tail, o);
      LaterBytes(rest, o);
      CoveredCons(last, MergeFrom(s, tail), o);
    } else if Join(last, s).len < U32_LIMIT {
      assert Absorb(last, s) == Join(last, s);
      o := LostByte(Join(last, s), tail);
      CoveredCons(s, tail, o);
    } else {
      Truncated(last, s);
      o := s.fileOffset - 1;
      LostBetween(Absorb(last, s), tail, o);
    }
  }

  lemma LaterBytes(rest: seq<RelocSpan>, o: nat)
    requires rest != [] && Covered(rest, o) && forall i :: 0 <= i < |rest| ==> rest[0].fileOffset <= rest[i].fileOffset
    ensures rest[0].fileOffset <= o
  {}

  ghost predicate SameBytes(a: seq<RelocSpan>, b: seq<RelocSpan>) {
    forall o: nat :: Covered(a, o) <==> Covered(b, o)
  }

  /** `merge_adjacent` on sorted spans keeps the covered bytes if and only if every run of
      touching spans is shorter than 4 GiB, and then the result is strictly separated. */
  lemma MergeKeepsBytes(spans: seq<RelocSpan>)
    requires Sorted(spans) && Positive(spans) && Words(spans)
    ensures SameBytes(Merge(spans), spans) <==> Words(Runs(spans))
    ensures Words(Runs(spans)) ==> Merge(spans) == Runs(spans)
    ensures SameBytes(Runs(spans), spans) && Separated(Runs(spans)) && Positive(Runs(spans))
  {
    if spans != [] {
      var first, rest := spans[0], spans[1..];
      assert spans == [first] + rest;
      hide Sorted, Separated, Covered;
      forall o: nat ensures Covered(Runs(spans), o) <==> Covered(spans, o) {
        RunsCover(first, rest, o);
        CoveredCons(first, rest, o);
      }
      RunsSeparated(first, rest);
      if Words(Runs(spans)) {
        FittingRuns(first, rest);
      } else {
        var o := LostByte(first, rest);
        CoveredCons(first, rest, o);
      }
    }
  }

  /** A run of exactly 4 GiB: two touching spans merge to an empty one. */
  lemma MergeTruncates()
    ensures var spans := [RelocSpan(0, 0xFFFF_FFFF), RelocSpan(0xFFFF_FFFF, 1)];
            && Sorted(spans) && Positive(spans) && Words(spans)
            && Merge(spans) == [RelocSpan(0, 0)] && Covered(spans, 0) && !Covered(Merge(spans), 0)
  {
    var spans := [RelocSpan(0, 0xFFFF_FFFF), RelocSpan(0xFFFF_FFFF, 1)];
    assert Merge(spans) == MergeFrom(Absorb(spans[0], spans[1]), []);
    assert Holds(spans[0], 0);
  }

  /** What `decode_block` records: relocations write four or eight bytes. */
  ghost predicate Slots(spans: seq<RelocSpan>) {
    forall i :: 0 <= i < |spans| ==> spans[i].len == 4 || spans[i].len == 8
  }

  /** No run is longer than what it is made of. */
  lemma {:induction false} RunsShort(last: RelocSpan, rest: seq<RelocSpan>, i: nat)
    requires Sorted([last] + rest) && Slots(rest) && last.len >= 4 && i < |RunsFrom(last, rest)|
    ensures RunsFrom(last, rest)[i].len <= last.len + 8 * |rest|
    decreases |rest|
  {
    if rest != [] {
      TailSorted(last, rest);
      assert Slots(rest[1..]) by {
        assert forall k :: 0 <= k < |rest[1..]| ==> rest[1..][k] == rest[k + 1];
      }
      if rest[0].fileOffset <= End(last) {
        RunsShort(Join(last, rest[0]), rest[1..], i);
      } else if i > 0 {
        RunsShort(rest[0], rest[1..], i - 1);
      }
    }
  }

  /** On the spans of fewer than 2^29 relocations merging truncates nothing: it keeps the
      covered bytes and separates the spans. */
  lemma SlotsKeepBytes(spans: seq<RelocSpan>)
    requires Sorted(spans) && Slots(spans) && |spans| < 0x2000_0000
    ensures SameBytes(Merge(spans), spans) && Separated(Merge(spans)) && Positive(Merge(spans))
  {
    MergeKeepsBytes(spans);
    if spans != [] {
      assert [spans[0]] + spans[1..] == spans;
      assert Slots(spans[1..]) by {
        assert forall k :: 0 <= k < |spans[1..]| ==> spans[1..][k] == spans[k + 1];
      }
      hide Sorted, Separated, Covered, Positive;
      forall i | 0 <= i < |Runs(spans)| ensures Runs(spans)[i].len < U32_LIMIT {
        RunsShort(spans[0], spans[1..], i);
      }
    }
  }

  // ----- chunks ---------------------------------------------------------

  /** `partition_point`: how many leading spans pass. */
  function Leading(spans: seq<RelocSpan>, p: RelocSpan -> bool): (n: nat)
    ensures n <= |spans| && (forall i :: 0 <= i < n ==> p(spans[i])) && (n < |spans| ==> !p(spans[n]))
  {
    if spans == [] || !p(spans[0]) then 0 else 1 + Leading(spans[1..], p)
  }

  /** The spans that can matter for a range. */
  function Relevant(spans: seq<RelocSpan>, start: nat, end: nat): seq<RelocSpan> {
    var first := Leading(spans, (s: RelocSpan) => End(s) <= start);
    var last := Leading(spans, (s: RelocSpan) => s.fileOffset < end);
    if first <= last then spans[first..last] else []
  }

  /** The chunks the iterator still yields. */
  function ChunksFrom(spans: seq<RelocSpan>, cursor: nat, end: nat): seq<(nat, nat)>
    decreases |spans|
  {
    if cursor >= end then []
    else if spans == [] then [(cursor, end - cursor)]
    else
      var s := spans[0];
      if s.fileOffset > cursor then
        var chunkEnd := Min(s.fileOffset, end);
        [(cursor, chunkEnd - cursor)] + ChunksFrom(spans[1..], Max(Min(End(s), end), chunkEnd), end)
      else ChunksFrom(spans[1..], Max(End(s), cursor), end)
  }

  function Chunks(spans: seq<RelocSpan>, start: nat, end: nat): seq<(nat, nat)> {
    ChunksFrom(Relevant(spans, start, end), start, end)
  }

  /** The iterator `encrypt_chunks` returns: a cursor and the spans not yet passed. */
  class ChunkIterator {
    const spans: seq<RelocSpan>
    const end: nat
    var next: nat
    var cursor: nat

    ghost predicate Valid()
      reads this
    {
      next <= |spans|
    }

    /** What the iterator has still to yield. */
    ghost function Pending(): seq<(nat, nat)>
      requires Valid()
      reads this
    {
      ChunksFrom(spans[next..], cursor, end)
    }

    constructor (all: seq<RelocSpan>, start: nat, end: nat)
      ensures Valid() && Pending() == Chunks(all, start, end)
    {
      this.spans := Relevant(all, start, end);
      this.end := end;
      this.next := 0;
      this.cursor := start;
      new;
      assert spans[0..] == spans;
    }

    method Next() returns (chunk: Option<(nat, nat)>)
      requires Valid()
      modifies this
      ensures Valid()
      ensures old(Pending()) == [] ==> chunk == None && Pending() == []
      ensures old(Pending()) != [] ==> chunk == Some(old(Pending())[0]) && Pending() == old(Pending())[1..]
    {
      ghost var pending := Pending();
      while true
        invariant Valid() && Pending() == pending
        decreases |spans| - next
      {
        if cursor >= end {
          return None;
        }
        if next == |spans| {
          var start := cursor;
          assert spans[next..] == [];
          cursor := end;
          return Some((start, end - start));
        }
        var s := spans[next];
        assert spans[next..][1..] == spans[next + 1..];
        next := next + 1;
        if s.fileOffset > cursor {
          var chunkEnd := Min(s.fileOffset, end);
          var start := cursor;
          cursor := Max(Min(s.fileOffset + s.len, end), chunkEnd);
          return Some((start, chunkEnd - start));
        }
        cursor := Max(s.fileOffset + s.len, cursor);
      }
    }
  }

  // ----- chunks cover exactly the rest ----------------------------------

  ghost predicate InChunk(c: (nat, nat), o: nat) { c.0 <= o < c.0 + c.1 }

  ghost predicate InChunks(cs: seq<(nat, nat)>, o: nat) {
    exists i :: 0 <= i < |cs| && InChunk(cs[i], o)
  }

  /** Non-empty, inside `[from, end)`, ordered and disjoint. */
  ghost predicate Proper(cs: seq<(nat, nat)>, from: nat, end: nat) {
    && (forall i :: 0 <= i < |cs| ==> cs[i].1 > 0 && from <= cs[i].0 && cs[i].0 + cs[i].1 <= end)
    && forall i, j :: 0 <= i < j < |cs| ==> cs[i].0 + cs[i].1 <= cs[j].0
  }

  lemma InChunksCons(c: (nat, nat), rest: seq<(nat, nat)>, o: nat)
    ensures InChunks([c] + rest, o) <==> InChunk(c, o) || InChunks(rest, o)
  {
    var all := [c] + rest;
    if InChunk(c, o) {
      assert InChunk(all[0], o);
    }
    if InChunks(rest, o) {
      var i :| 0 <= i < |rest| && InChunk(rest[i], o);
      assert InChunk(all[i + 1], o);
    }
    if InChunks(all, o) && !InChunk(c, o) {
      var i :| 0 <= i < |all| && InChunk(all[i], o);
      assert InChunk(rest[i - 1], o);
    }
  }

  lemma ProperCons(c: (nat, nat), rest: seq<(nat, nat)>, from: nat, mid: nat, end: nat)
    requires Proper(rest, mid, end) && c.1 > 0 && from <= c.0 && c.0 + c.1 <= mid && c.0 + c.1 <= end
    ensures Proper([c] + rest, from, end)
  {
    var all := [c] + rest;
    forall i | 0 <= i < |all| ensures all[i].1 > 0 && from <= all[i].0 && all[i].0 + all[i].1 <= end {
      assert all[i] == if i == 0 then c else rest[i - 1];
    }
    forall i, j | 0 <= i < j < |all| ensures all[i].0 + all[i].1 <= all[j].0 {
      assert all[j] == rest[j - 1];
    }
  }

  /** A chunk up to the next span, then the rest. */
  lemma ChunkThenRest(s: RelocSpan, rest: seq<RelocSpan>, cs: seq<(nat, nat)>, cursor: nat, next: nat, end: nat, o: nat)
    requires cursor < end && s.fileOffset > cursor && next == Max(Min(End(s), end), Min(s.fileOffset, end))
    requires InChunks(cs, o) <==> next <= o < end && !Covered(rest, o)
    requires o < s.fileOffset ==> !Covered(rest, o)
    requires Proper(cs, next, end)
    ensures var all := [(cursor, Min(s.fileOffset, end) - cursor)] + cs;
            && (InChunks(all, o) <==> cursor <= o < end && !Holds(s, o) && !Covered(rest, o))
            && Proper(all, cursor, end)
  {
    var c := (cursor, Min(s.fileOffset, end) - cursor);
    InChunksCons(c, cs, o);
    ProperCons(c, cs, cursor, next, end);
  }

  /** At byte `o` the chunks say what they should of the range from `cursor`. */
  ghost predicate ExactAt(cs: seq<(nat, nat)>, spans: seq<RelocSpan>, cursor: nat, end: nat, o: nat) {
    (InChunks(cs, o) <==> cursor <= o < end && !Covered(spans, o)) && Proper(cs, cursor, end)
  }

  lemma EmptyExact(spans: seq<RelocSpan>, cursor: nat, end: nat, o: nat)
    requires cursor >= end || spans == []
    ensures ExactAt(ChunksFrom(spans, cursor, end), spans, cursor, end, o)
  {
    if cursor < end {
      InChunksCons((cursor, end - cursor), [], o);
      assert [(cursor, end - cursor)] + [] == [(cursor, end - cursor)];
    }
  }

  lemma GapExact(spans: seq<RelocSpan>, cursor: nat, end: nat, o: nat)
    requires Sorted(spans) && spans != [] && cursor < end && spans[0].fileOffset > cursor
    requires var next := Max(Min(End(spans[0]), end), Min(spans[0].fileOffset, end));
             ExactAt(ChunksFrom(spans[1..], next, end), spans[1..], next, end, o)
    ensures ExactAt(ChunksFrom(spans, cursor, end), spans, cursor, end, o)
  {
    hide Covered, InChunks, Proper, Sorted, ChunksFrom, Holds;
    var s, rest := spans[0], spans[1..];
    assert spans == [s] + rest;
    CoveredCons(s, rest, o);
    LaterSpans(spans, o);
    GapFirst(spans, cursor, end);
    var next := Max(Min(End(s), end), Min(s.fileOffset, end));
    ChunkThenRest(s, rest, ChunksFrom(rest, next, end), cursor, next, end, o);
  }

  lemma GapFirst(spans: seq<RelocSpan>, cursor: nat, end: nat)
    requires spans != [] && cursor < end && spans[0].fileOffset > cursor
    ensures var s := spans[0];
            ChunksFrom(spans, cursor, end)
            == [(cursor, Min(s.fileOffset, end) - cursor)] + ChunksFrom(spans[1..], Max(Min(End(s), end), Min(s.fileOffset, end)), end)
  {}

  lemma TouchExact(spans: seq<RelocSpan>, cursor: nat, end: nat, o: nat)
    requires Sorted(spans) && spans != [] && cursor < end && spans[0].fileOffset <= cursor
    requires var next := Max(End(spans[0]), cursor);
             ExactAt(ChunksFrom(spans[1..], next, end), spans[1..], next, end, o)
    ensures ExactAt(ChunksFrom(spans, cursor, end), spans, cursor, end, o)
  {
    var s, rest := spans[0], spans[1..];
    assert spans == [s] + rest;
    CoveredCons(s, rest, o);
    hide Covered, InChunks, Proper, Sorted;
    ProperLater(ChunksFrom(rest, Max(End(s), cursor), end), cursor, Max(End(s), cursor), end);
  }

  lemma {:induction false} ChunksFromExact(spans: seq<RelocSpan>, cursor: nat, end: nat, o: nat)
    requires Sorted(spans)
    ensures ExactAt(ChunksFrom(spans, cursor, end), spans, cursor, end, o)
    decreases |spans|
  {
    if cursor >= end || spans == [] {
      EmptyExact(spans, cursor, end, o);
    } else if spans[0].fileOffset > cursor {
      ChunksFromExact(spans[1..], Max(Min(End(spans[0]), end), Min(spans[0].fileOffset, end)), end, o);
      GapExact(spans, cursor, end, o);
    } else {
      ChunksFromExact(spans[1..], Max(End(spans[0]), cursor), end, o);
      TouchExact(spans, cursor, end, o);
    }
  }

  lemma ProperLater(cs: seq<(nat, nat)>, from: nat, later: nat, end: nat)
    requires Proper(cs, later, end) && from <= later
    ensures Proper(cs, from, end)
  {}

  /** Spans behind the first cover nothing before it starts. */
  lemma LaterSpans(spans: seq<RelocSpan>, o: nat)
    requires spans != [] && Sorted(spans)
    ensures Sorted(spans[1..]) && (o < spans[0].fileOffset ==> !Covered(spans[1..], o))
  {
    var rest := spans[1..];
    assert forall i :: 0 <= i < |rest| ==> rest[i] == spans[i + 1];
  }

  lemma SeparatedIsSorted(spans: seq<RelocSpan>)
    requires Separated(spans)
    ensures Sorted(spans)
  {}

  lemma ReachesEnd(spans: seq<RelocSpan>, end: nat, i: nat)
    requires Sorted(spans) && i < |spans| && spans[i].fileOffset < end
    ensures i < Leading(spans, (s: RelocSpan) => s.fileOffset < end)
  {}

  lemma RelevantCovers(spans: seq<RelocSpan>, start: nat, end: nat, o: nat)
    requires Separated(spans) && start <= o < end
    ensures Covered(Relevant(spans, start, end), o) <==> Covered(spans, o)
  {
    var r := Relevant(spans, start, end);
    if Covered(spans, o) {
      var i :| 0 <= i < |spans| && Holds(spans[i], o);
      var k := HolderIsRelevant(spans, start, end, o, i);
    }
    if Covered(r, o) {
      var i :| 0 <= i < |r| && Holds(r[i], o);
      assert r[i] in r;
      RelevantIsListed(spans, start, end, r[i]);
      var j :| 0 <= j < |spans| && spans[j] == r[i];
    }
  }

  lemma HolderIsRelevant(spans: seq<RelocSpan>, start: nat, end: nat, o: nat, i: nat) returns (k: nat)
    requires Separated(spans) && start <= o < end && i < |spans| && Holds(spans[i], o)
    ensures k < |Relevant(spans, start, end)| && Relevant(spans, start, end)[k] == spans[i]
  {
    SeparatedIsSorted(spans);
    ReachesEnd(spans, end, i);
    k := i - Leading(spans, (s: RelocSpan) => End(s) <= start);
  }

  lemma RelevantIsListed(spans: seq<RelocSpan>, start: nat, end: nat, s: RelocSpan)
    requires s in Relevant(spans, start, end)
    ensures s in spans
  {}

  /** The chunks of a range are exactly its uncovered bytes, in order and non-empty. */
  lemma ChunksExact(spans: seq<RelocSpan>, start: nat, end: nat, o: nat)
    requires Separated(spans)
    ensures InChunks(Chunks(spans, start, end), o) <==> start <= o < end && !Covered(spans, o)
    ensures Proper(Chunks(spans, start, end), start, end)
  {
    SeparatedIsSorted(spans);
    RelevantSorted(spans, start, end);
    ChunksFromExact(Relevant(spans, start, end), start, end, o);
    if start <= o < end {
      RelevantCovers(spans, start, end, o);
    }
  }

  lemma RelevantSorted(spans: seq<RelocSpan>, start: nat, end: nat)
    requires Sorted(spans)
    ensures Sorted(Relevant(spans, start, end))
  {}

  // ----- overlap --------------------------------------------------------

  /** `range_overlaps`. */
  predicate RangeOverlaps(spans: seq<RelocSpan>, offset: nat, len: nat) {
    exists i :: 0 <= i < |spans| && spans[i].fileOffset < offset + len && offset < End(spans[i])
  }

  /** A non-empty range overlaps no span exactly when it is one whole chunk. */
  lemma OverlapMeansSplit(spans: seq<RelocSpan>, offset: nat, len: nat)
    requires Separated(spans) && Positive(spans) && len > 0
    ensures !RangeOverlaps(spans, offset, len) <==> Chunks(spans, offset, offset + len) == [(offset, len)]
  {
    var cs, end := Chunks(spans, offset, offset + len), offset + len;
    if i :| 0 <= i < |spans| && spans[i].fileOffset < end && offset < End(spans[i]) {
      var o := Max(spans[i].fileOffset, offset);
      assert Holds(spans[i], o);
      ChunksExact(spans, offset, end, o);
      if cs == [(offset, len)] {
        assert InChunk(cs[0], o);
      }
    } else {
      RelevantOverlaps(spans, offset, len);
    }
  }

  lemma RelevantOverlaps(spans: seq<RelocSpan>, offset: nat, len: nat)
    ensures Relevant(spans, offset, offset + len) != [] ==> RangeOverlaps(spans, offset, len)
  {
    var first := Leading(spans, (s: RelocSpan) => End(s) <= offset);
    if Relevant(spans, offset, offset + len) != [] {
      assert spans[first].fileOffset < offset + len && offset < End(spans[first]);
    }
  }
}
