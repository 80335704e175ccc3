/** Canonicalization preserves every blob and settles after one pass. */
module CanonicalTheorem {
  import opened Bytes
  import opened LoadCommands
  import opened CanonicalLayout
  import opened Canonicalize

  // ----- the writes are disjoint ----------------------------------------

  /** The place of a field in canonical order. */
  function Rank(c: seq<byte>, field: nat): nat {
    var cmd := TypeOf(c);
    if cmd == LC_DYLD_CHAINED_FIXUPS then 0
    else if cmd == LC_DYLD_EXPORTS_TRIE then 1
    else if cmd == LC_FUNCTION_STARTS then 2
    else if cmd == LC_DATA_IN_CODE then 3
    else if cmd == LC_SYMTAB && field == 8 then 4
    else if cmd == LC_DYSYMTAB then 5
    else 6
  }

  ghost predicate GoodEntry(cmds: seq<seq<byte>>, e: Entry) {
    e.i < |cmds| && Writable(cmds[e.i], e.field, 4) && TypeOf(cmds[e.i]) != LC_SEGMENT_64
  }

  function RankOf(cmds: seq<seq<byte>>, e: Entry): nat
    requires e.i < |cmds|
  {
    Rank(cmds[e.i], e.field)
  }

  /** Entries in strictly canonical order, all of rank below `r`. */
  ghost predicate Ranked(cmds: seq<seq<byte>>, es: seq<Entry>, r: nat) {
    && (forall k :: 0 <= k < |es| ==> GoodEntry(cmds, es[k]) && RankOf(cmds, es[k]) < r)
    && forall j, k :: 0 <= j < k < |es| ==> RankOf(cmds, es[j]) < RankOf(cmds, es[k])
  }

  ghost predicate OneGood(cmds: seq<seq<byte>>, es: seq<Entry>, r: nat) {
    |es| <= 1 && (es != [] ==> GoodEntry(cmds, es[0]) && RankOf(cmds, es[0]) == r)
  }

  lemma EntriesGood(cmds: seq<seq<byte>>)
    requires AllSized(cmds)
    ensures OneGood(cmds, DataEntry(cmds, LC_DYLD_CHAINED_FIXUPS), 0) && OneGood(cmds, DataEntry(cmds, LC_DYLD_EXPORTS_TRIE), 1)
    ensures OneGood(cmds, DataEntry(cmds, LC_FUNCTION_STARTS), 2) && OneGood(cmds, DataEntry(cmds, LC_DATA_IN_CODE), 3)
    ensures OneGood(cmds, SymbolEntry(cmds), 4) && OneGood(cmds, IndirectEntry(cmds), 5) && OneGood(cmds, StringEntry(cmds), 6)
  {
    forall i | 0 <= i < |cmds| ensures Sized(cmds[i]) {}
  }

  lemma RankedMore(cmds: seq<seq<byte>>, es: seq<Entry>, more: seq<Entry>, r: nat)
    requires Ranked(cmds, es, r) && OneGood(cmds, more, r)
    ensures Ranked(cmds, es + more, r + 1)
  {
    var all := es + more;
    forall k | 0 <= k < |all| ensures GoodEntry(cmds, all[k]) && RankOf(cmds, all[k]) < r + 1 {
      assert all[k] == if k < |es| then es[k] else more[0];
    }
  }

  lemma RankedFirst(cmds: seq<seq<byte>>, es: seq<Entry>)
    requires OneGood(cmds, es, 0)
    ensures Ranked(cmds, es, 1)
  {}

  lemma CandidatesRanked(cmds: seq<seq<byte>>)
    requires AllSized(cmds)
    ensures Ranked(cmds, Candidates(cmds), 7)
  {
    hide Ranked;
    hide OneGood;
    hide DataEntry;
    hide SymbolEntry;
    hide IndirectEntry;
    hide StringEntry;
    var a := DataEntry(cmds, LC_DYLD_CHAINED_FIXUPS);
    var b := a + DataEntry(cmds, LC_DYLD_EXPORTS_TRIE);
    var c := b + DataEntry(cmds, LC_FUNCTION_STARTS);
    var d := c + DataEntry(cmds, LC_DATA_IN_CODE);
    var e := d + SymbolEntry(cmds);
    var f := e + IndirectEntry(cmds);
    EntriesGood(cmds);
    RankedFirst(cmds, a);
    RankedMore(cmds, a, DataEntry(cmds, LC_DYLD_EXPORTS_TRIE), 1);
    RankedMore(cmds, b, DataEntry(cmds, LC_FUNCTION_STARTS), 2);
    RankedMore(cmds, c, DataEntry(cmds, LC_DATA_IN_CODE), 3);
    RankedMore(cmds, d, SymbolEntry(cmds), 4);
    RankedMore(cmds, e, IndirectEntry(cmds), 5);
    RankedMore(cmds, f, StringEntry(cmds), 6);
  }

  lemma RankedTail(cmds: seq<seq<byte>>, es: seq<Entry>, r: nat)
    requires es != [] && Ranked(cmds, es, r)
    ensures Ranked(cmds, es[1..], r) && GoodEntry(cmds, es[0]) && RankOf(cmds, es[0]) < r
    ensures forall e :: e in es[1..] ==> GoodEntry(cmds, e) && RankOf(cmds, es[0]) < RankOf(cmds, e)
  {
    var rest := es[1..];
    forall k | 0 <= k < |rest| ensures rest[k] == es[k + 1] {}
  }

  lemma RankedCons(cmds: seq<seq<byte>>, e: Entry, tail: seq<Entry>, r: nat)
    requires Ranked(cmds, tail, r) && GoodEntry(cmds, e) && RankOf(cmds, e) < r
    requires forall d :: d in tail ==> GoodEntry(cmds, d) && RankOf(cmds, e) < RankOf(cmds, d)
    ensures Ranked(cmds, [e] + tail, r)
  {
    var all := [e] + tail;
    forall k | 0 <= k < |all| ensures GoodEntry(cmds, all[k]) && RankOf(cmds, all[k]) < r && (k > 0 ==> RankOf(cmds, e) < RankOf(cmds, all[k])) {
      if k > 0 {
        assert all[k] == tail[k - 1] && tail[k - 1] in tail;
      }
    }
    forall j, k | 0 <= j < k < |all| ensures RankOf(cmds, all[j]) < RankOf(cmds, all[k]) {
      if j > 0 {
        assert all[j] == tail[j - 1] && all[k] == tail[k - 1];
      }
    }
  }

  lemma {:induction false} NonEmptyIn(es: seq<Entry>)
    ensures forall e :: e in NonEmpty(es) ==> e in es && e.size > 0
    decreases |es|
  {
    if es != [] {
      NonEmptyIn(es[1..]);
    }
  }

  lemma {:induction false} NonEmptyRanked(cmds: seq<seq<byte>>, es: seq<Entry>, r: nat)
    requires Ranked(cmds, es, r)
    ensures Ranked(cmds, NonEmpty(es), r)
    decreases |es|
  {
    if es != [] {
      hide Ranked, GoodEntry, RankOf;
      RankedTail(cmds, es, r);
      NonEmptyRanked(cmds, es[1..], r);
      NonEmptyStep(cmds, es, r);
    }
  }

  lemma NonEmptyStep(cmds: seq<seq<byte>>, es: seq<Entry>, r: nat)
    requires es != [] && Ranked(cmds, NonEmpty(es[1..]), r) && GoodEntry(cmds, es[0]) && RankOf(cmds, es[0]) < r
    requires forall e :: e in es[1..] ==> GoodEntry(cmds, e) && RankOf(cmds, es[0]) < RankOf(cmds, e)
    ensures Ranked(cmds, NonEmpty(es), r)
  {
    hide Ranked, GoodEntry, RankOf;
    NonEmptyIn(es[1..]);
    var tail := NonEmpty(es[1..]);
    if es[0].size > 0 {
      RankedCons(cmds, es[0], tail, r);
    } else {
      assert [] + tail == tail;
    }
  }

  /** Two entries of different rank write different fields. */
  lemma RankSeparates(cmds: seq<seq<byte>>, d: Entry, e: Entry)
    requires GoodEntry(cmds, d) && GoodEntry(cmds, e) && RankOf(cmds, d) != RankOf(cmds, e)
    ensures d.i != e.i || d.field + 4 <= e.field || e.field + 4 <= d.field
  {}

  lemma PlanRanked(im: Image)
    requires AllSized(im.cmds)
    ensures Ranked(im.cmds, Plan(im.cmds), 7) && forall e :: e in Plan(im.cmds) ==> e in Candidates(im.cmds) && e.size > 0
  {
    CandidatesRanked(im.cmds);
    NonEmptyRanked(im.cmds, Candidates(im.cmds), 7);
    NonEmptyIn(Candidates(im.cmds));
  }

  lemma PlanEntry(im: Image, k: nat)
    requires AllSized(im.cmds) && k < |Plan(im.cmds)|
    ensures GoodEntry(im.cmds, Plan(im.cmds)[k])
    ensures forall j :: 0 <= j < k ==> j < |Plan(im.cmds)| && GoodEntry(im.cmds, Plan(im.cmds)[j])
                                       && RankOf(im.cmds, Plan(im.cmds)[j]) < RankOf(im.cmds, Plan(im.cmds)[k])
  {
    PlanRanked(im);
  }

  /** Write `k`: an entry's offset field, or one of the two sizes of `__LINKEDIT`. */
  lemma WriteIs(im: Image, k: nat)
    requires AllSized(im.cmds) && Acts(im) && k < |Writes(im)|
    ensures var w, n, le := Writes(im)[k], |Plan(im.cmds)|, Linkedit(im);
            && |Writes(im)| == n + 2
            && (k < n ==> w.i == Plan(im.cmds)[k].i && w.at == Plan(im.cmds)[k].field && |w.data| == 4)
            && (k >= n ==> w.i == le && w.at == (if k == n then 48 else 32) && |w.data| == 8)
  {}

  lemma WritesWritable(im: Image, k: nat)
    requires AllSized(im.cmds) && Acts(im) && k < |Writes(im)|
    ensures var w := Writes(im)[k];
            w.i < |im.cmds| && Writable(im.cmds[w.i], w.at, |w.data|)
  {
    WriteIs(im, k);
    if k < |Plan(im.cmds)| {
      PlanEntry(im, k);
    }
  }

  lemma WritesClear(im: Image, j: nat, k: nat)
    requires AllSized(im.cmds) && Acts(im) && j < k < |Writes(im)|
    ensures Clear(Writes(im)[k], Writes(im)[j].i, Writes(im)[j].at, |Writes(im)[j].data|)
  {
    hide Writes;
    var es, le := Plan(im.cmds), im.cmds[Linkedit(im)];
    assert TypeOf(le) == LC_SEGMENT_64;
    hide Plan;
    hide Acts;
    WriteIs(im, j);
    WriteIs(im, k);
    if k < |es| {
      PlanEntry(im, k);
      RankSeparates(im.cmds, es[j], es[k]);
    } else if j < |es| {
      PlanEntry(im, j);
    }
  }

  lemma WritesGood(im: Image)
    requires AllSized(im.cmds) && Acts(im)
    ensures AllWritable(im.cmds, Writes(im)) && Apart(Writes(im))
  {
    var ws := Writes(im);
    hide Writes;
    forall k | 0 <= k < |ws| ensures ws[k].i < |im.cmds| && Writable(im.cmds[ws[k].i], ws[k].at, |ws[k].data|) {
      WritesWritable(im, k);
    }
    forall j, k | 0 <= j < k < |ws| ensures Clear(ws[k], ws[j].i, ws[j].at, |ws[j].data|) {
      WritesClear(im, j, k);
    }
  }

  // ----- the re-laid image ----------------------------------------------

  function Canon(im: Image): Image
    requires Placed(im) && Acts(im)
  {
    WritesGood(im);
    WritableInside(im.cmds, Writes(im));
    Image(im.header, Apply(im.cmds, Writes(im)),
          Encode(im)[LC_START + |Flat(im.cmds)|..Base(im)] + Pack(NewContent(im)))
  }

  /** The new commands are the old ones with the writes applied. */
  lemma CanonApplies(im: Image)
    requires Placed(im) && Acts(im)
    ensures AllWritable(im.cmds, Writes(im)) && forall k :: 0 <= k < |Writes(im)| ==> Inside(im.cmds, Writes(im)[k])
    ensures Canon(im).cmds == Apply(im.cmds, Writes(im))
  {
    WritesGood(im);
    WritableInside(im.cmds, Writes(im));
  }

  lemma {:induction false} FlatSizes(a: seq<seq<byte>>, b: seq<seq<byte>>)
    requires |a| == |b| && forall i :: 0 <= i < |a| ==> |a[i]| == |b[i]|
    ensures |Flat(a)| == |Flat(b)|
    decreases |a|
  {
    if a != [] {
      assert forall i :: 0 <= i < |a[1..]| ==> a[1..][i] == a[i + 1] && b[1..][i] == b[i + 1];
      FlatSizes(a[1..], b[1..]);
    }
  }

  /** Everything before `__LINKEDIT` but the patched fields stays; the packed blobs follow. */
  lemma CanonShape(im: Image)
    requires Placed(im) && Acts(im)
    ensures var out := Canon(im);
            && out.header == im.header && |out.cmds| == |im.cmds| && |Flat(out.cmds)| == |Flat(im.cmds)|
            && |Encode(out)| == Base(im) + |Pack(NewContent(im))|
            && Encode(out)[LC_START + |Flat(im.cmds)|..Base(im)] == Encode(im)[LC_START + |Flat(im.cmds)|..Base(im)]
            && Encode(out)[Base(im)..] == Pack(NewContent(im))
  {
    WritesGood(im);
    WritableInside(im.cmds, Writes(im));
    FlatSizes(Canon(im).cmds, im.cmds);
    ShapeOf(im.header, Flat(im.cmds), im.rest, Flat(Canon(im).cmds), Base(im), Pack(NewContent(im)));
  }

  lemma ShapeOf(h: seq<byte>, flat: seq<byte>, rest: seq<byte>, now: seq<byte>, base: nat, packed: seq<byte>)
    requires |now| == |flat| && |h| + |flat| <= base <= |h + flat + rest|
    ensures var out := h + now + ((h + flat + rest)[|h| + |flat|..base] + packed);
            && |out| == base + |packed| && out[base..] == packed
            && out[|h| + |flat|..base] == (h + flat + rest)[|h| + |flat|..base]
  {
    var mid := (h + flat + rest)[|h| + |flat|..base];
    Tail(h + now, mid, packed);
  }

  lemma Tail(a: seq<byte>, b: seq<byte>, c: seq<byte>)
    ensures (a + (b + c))[|a|..|a| + |b|] == b && (a + (b + c))[|a| + |b|..] == c
  {}

  /** Blob `k` of the plan, where it was and where it went. */
  lemma BlobMoves(im: Image, k: nat)
    requires Placed(im) && Acts(im) && k < |Plan(im.cmds)| && |Encode(Canon(im))| < U32_LIMIT
    ensures var out, e, start := Canon(im), Plan(im.cmds)[k], Starts(0, NewContent(im))[k];
            && e.i < |out.cmds| && e.field + 4 <= |out.cmds[e.i]|
            && U32(out.cmds[e.i], e.field) == Base(im) + start && start % 8 == 0
            && Base(im) + start + e.size <= |Encode(out)|
            && Encode(out)[Base(im) + start..Base(im) + start + e.size] == Encode(im)[e.off..e.off + e.size]
            && forall j :: k < j < |Plan(im.cmds)| ==> start + e.size <= Starts(0, NewContent(im))[j]
  {
    hide Acts, Encode, Canon, Plan, Pack, Starts, Base, AllSized, U32, Placed, NewContent;
    FieldStands(im, k);
    BlobStands(im, k);
    BlobEndsFirst(im, k);
  }

  /** The blob that `e` names in `was` stands in `file` at `at`. */
  ghost predicate Stands(was: seq<byte>, file: seq<byte>, e: Entry, at: nat) {
    && e.off + e.size <= |was| && at + e.size <= |file|
    && file[at..at + e.size] == was[e.off..e.off + e.size]
  }

  lemma BlobStands(im: Image, k: nat)
    requires Placed(im) && Acts(im) && k < |Plan(im.cmds)|
    ensures var start := Starts(0, NewContent(im))[k];
            start % 8 == 0 && Stands(Encode(im), Encode(Canon(im)), Plan(im.cmds)[k], Base(im) + start)
  {
    hide Acts, Encode, Canon, Plan, Pack, Starts, Base, Stands;
    PlannedBlob(im, k);
    hide NewContent;
    EndsPacked(im);
    MovedBlob(Encode(im), Encode(Canon(im)), Base(im), NewContent(im), Plan(im.cmds)[k], k);
  }

  lemma EndsPacked(im: Image)
    requires Placed(im) && Acts(im)
    ensures Base(im) <= |Encode(Canon(im))| && Encode(Canon(im))[Base(im)..] == Pack(NewContent(im))
  {
    CanonShape(im);
  }

  lemma MovedBlob(was: seq<byte>, file: seq<byte>, base: nat, blobs: seq<seq<byte>>, e: Entry, k: nat)
    requires base <= |file| && file[base..] == Pack(blobs) && k < |blobs|
    requires e.off + e.size <= |was| && blobs[k] == was[e.off..e.off + e.size]
    ensures var start := Starts(0, blobs)[k];
            start % 8 == 0 && Stands(was, file, e, base + start)
  {
    hide Starts, Pack;
    PackedBlob(file, base, blobs, k);
  }

  lemma PlannedBlob(im: Image, k: nat)
    requires Placed(im) && Acts(im) && k < |Plan(im.cmds)|
    ensures var e := Plan(im.cmds)[k];
            && k < |NewContent(im)| && e.off + e.size <= |Encode(im)|
            && NewContent(im)[k] == Encode(im)[e.off..e.off + e.size]
  {
    hide Encode, Plan, Base;
  }

  lemma BlobEndsFirst(im: Image, k: nat)
    requires Placed(im) && Acts(im) && k < |Plan(im.cmds)|
    ensures var starts, size := Starts(0, NewContent(im)), Plan(im.cmds)[k].size;
            forall j :: k < j < |Plan(im.cmds)| ==> starts[k] + size <= starts[j]
  {
    var es, blobs := Plan(im.cmds), NewContent(im);
    hide Acts, Encode, Plan, Starts;
    forall j | k < j < |es| ensures Starts(0, blobs)[k] + es[k].size <= Starts(0, blobs)[j] {
      PackedInOrder(blobs, k, j);
    }
  }

  /** In a file that ends with the packed blobs, blob `k` stands at its start. */
  lemma PackedBlob(file: seq<byte>, base: nat, blobs: seq<seq<byte>>, k: nat)
    requires base <= |file| && file[base..] == Pack(blobs) && k < |blobs|
    ensures var start := Starts(0, blobs)[k];
            start % 8 == 0 && base + start + |blobs[k]| <= |file| && file[base + start..base + start + |blobs[k]|] == blobs[k]
  {
    hide Starts, Pack;
    PackedStarts(blobs, k);
    BlobInFile(file, base, Pack(blobs), Starts(0, blobs)[k], blobs[k]);
  }

  lemma PackedStarts(blobs: seq<seq<byte>>, k: nat)
    requires k < |blobs|
    ensures Starts(0, blobs)[k] % 8 == 0 && HasAt(Pack(blobs), Starts(0, blobs)[k], blobs[k])
  {
    PackedAt([], blobs, k);
  }

  lemma BlobInFile(file: seq<byte>, base: nat, packed: seq<byte>, start: nat, blob: seq<byte>)
    requires base <= |file| && file[base..] == packed && HasAt(packed, start, blob)
    ensures base + start + |blob| <= |file| && file[base + start..base + start + |blob|] == blob
  {
    var x := file[base + start..base + start + |blob|];
    forall j | 0 <= j < |blob| ensures x[j] == blob[j] {
      HasAtIndex(packed, start, blob, j);
      assert file[base..][start + j] == file[base + start + j];
    }
  }

  lemma FieldRead(c: seq<byte>, at: nat, v: nat)
    requires v < U32_LIMIT && HasAt(c, at, Le(v % U32_LIMIT, 4))
    ensures at + 4 <= |c| && U32(c, at) == v
  {
    hide Le;
    hide FromLe;
    U32ReadsBack(v);
  }

  lemma StartInFile(im: Image, k: nat)
    requires Placed(im) && Acts(im) && k < |Plan(im.cmds)|
    ensures Base(im) + Starts(0, NewContent(im))[k] <= |Encode(Canon(im))|
  {
    CanonShape(im);
    PackedAt([], NewContent(im), k);
  }

  lemma WriteStands(im: Image, k: nat)
    requires Placed(im) && Acts(im) && k < |Plan(im.cmds)|
    ensures var out, e := Canon(im), Plan(im.cmds)[k];
            && e.i < |out.cmds|
            && HasAt(out.cmds[e.i], e.field, Le((Base(im) + Starts(0, NewContent(im))[k]) % U32_LIMIT, 4))
  {
    WritesGood(im);
    WritableInside(im.cmds, Writes(im));
    ApplyStands(im.cmds, Writes(im), k);
  }

  lemma FieldStands(im: Image, k: nat)
    requires Placed(im) && Acts(im) && k < |Plan(im.cmds)| && |Encode(Canon(im))| < U32_LIMIT
    ensures var out, e, start := Canon(im), Plan(im.cmds)[k], Starts(0, NewContent(im))[k];
            && e.i < |out.cmds| && e.field + 4 <= |out.cmds[e.i]| && U32(out.cmds[e.i], e.field) == Base(im) + start
  {
    hide Acts;
    hide Encode;
    hide Canon;
    hide Plan;
    var e, v := Plan(im.cmds)[k], Base(im) + Starts(0, NewContent(im))[k];
    StartInFile(im, k);
    WriteStands(im, k);
    FieldRead(Canon(im).cmds[e.i], e.field, v);
  }

  /** `__LINKEDIT` covers exactly the packed blobs; its address range is whole pages. */
  lemma SizesStand(im: Image)
    requires Placed(im) && Acts(im) && |Encode(Canon(im))| < U32_LIMIT
    ensures var c, size := Canon(im).cmds[Linkedit(im)], |Pack(NewContent(im))|;
            && |c| >= 56 && FromLe(c[48..56]) == size && FromLe(c[32..40]) == PageUp(size)
            && |Encode(Canon(im))| == Base(im) + size
  {
    hide Acts, Encode, Plan, Base, Starts, NewContent;
    var ws, n := Writes(im), |Plan(im.cmds)|;
    WritesGood(im);
    WritableInside(im.cmds, ws);
    ApplyStands(im.cmds, ws, n);
    ApplyStands(im.cmds, ws, n + 1);
    CanonShape(im);
    Pow256Values();
    var size := |Pack(NewContent(im))|;
    FromLeOfLe(size, 8);
    FromLeOfLe(PageUp(size), 8);
  }

  /** A byte of a command outside every patched field keeps its value. */
  lemma OtherBytesStay(im: Image, i: nat, at: nat)
    requires Placed(im) && Acts(im) && i < |im.cmds| && at < |im.cmds[i]|
    requires forall k :: 0 <= k < |Writes(im)| ==> Clear(Writes(im)[k], i, at, 1)
    ensures at < |Canon(im).cmds[i]| && Canon(im).cmds[i][at] == im.cmds[i][at]
  {
    hide Canon, Acts, Writes, Apply, AllWritable, Clear, Base;
    CanonApplies(im);
    ApplyKeeps(im.cmds, Writes(im), i, at, 1);
    assert Canon(im).cmds[i][at..at + 1][0] == im.cmds[i][at..at + 1][0];
  }
}
