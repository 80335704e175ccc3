/** A whole file through the growth: payload inserted, load commands patched, pointers
    rebased. What its own load commands say about it afterwards. */
module GrowthImage {
  import opened Bytes
  import opened LoadCommands
  import opened AppendImage
  import opened SegmentTable
  import opened GrowthBytes
  import opened GrowthTheorem
  import opened RebaseOpcodes
  import RebaseShift

  function ListEnd(im: Image): nat { LC_START + |Flat(im.cmds)| }

  /** The growth point lies behind the command list, the payload inside the inserted range. */
  predicate Placed(im: Image, gp: nat, delta: nat, at: nat, payload: seq<byte>) {
    ListEnd(im) <= gp <= |Encode(im)| && gp <= at && at + |payload| <= gp + delta
  }

  /** A well-formed file whose addresses the growth does not wrap. */
  ghost predicate Growable(im: Image, gp: nat, delta: nat, at: nat, payload: seq<byte>) {
    WellFormed(im) && Tables(im.cmds) && AllUnwrapped(SegmentsOf(im.cmds), delta) && Placed(im, gp, delta, at, payload)
  }

  ghost function GrownCommands(im: Image, gp: nat, delta: nat): (r: seq<seq<byte>>)
    ensures |r| == |im.cmds|
  {
    PatchAll(im.cmds, Grower(gp, delta, Growth.InsertVaddr(SegmentsOf(im.cmds), gp)))
  }

  /** The grown file: the commands patched where they stand, the payload in the gap. */
  ghost function GrownImage(im: Image, gp: nat, delta: nat, at: nat, payload: seq<byte>): Image
    requires Placed(im, gp, delta, at, payload)
  {
    Image(im.header, GrownCommands(im, gp, delta), RebaseShift.GrownFile(Encode(im), gp, delta, at, payload)[ListEnd(im)..])
  }

  // ----- the load commands of the grown file ----------------------------

  lemma GrownFront(raw: seq<byte>, gp: nat, delta: nat, at: nat, payload: seq<byte>, n: nat)
    requires n <= gp <= |raw| && gp <= at && at + |payload| <= gp + delta
    ensures RebaseShift.GrownFile(raw, gp, delta, at, payload)[..n] == raw[..n]
  {}

  /** Inserting the payload leaves the list as it was. */
  lemma InsertedFile(im: Image, gp: nat, delta: nat, at: nat, payload: seq<byte>)
    requires |im.header| == LC_START && Placed(im, gp, delta, at, payload)
    ensures var f := RebaseShift.GrownFile(Encode(im), gp, delta, at, payload);
            f == im.header + Flat(im.cmds) + f[ListEnd(im)..]
  {
    var raw, n := Encode(im), ListEnd(im);
    GrownFront(raw, gp, delta, at, payload, n);
    hide Flat, RebaseShift.GrownFile;
    assert raw[..n] == im.header + Flat(im.cmds);
    var f := RebaseShift.GrownFile(raw, gp, delta, at, payload);
    assert f == f[..n] + f[n..];
  }

  lemma {:induction false} GrowerKeepsCommands(cmds: seq<seq<byte>>, gp: nat, delta: nat, va: nat)
    requires Commands(cmds)
    ensures Commands(PatchAll(cmds, Grower(gp, delta, va))) && |Flat(PatchAll(cmds, Grower(gp, delta, va)))| == |Flat(cmds)|
  {
    hide GrowBytes, IsCommand;
    forall c | IsCommand(c) ensures IsCommand(Grower(gp, delta, va)(c)) && |Grower(gp, delta, va)(c)| == |c| {
      GrownHead(c, gp, delta, va);
    }
    PatchAllCommands(cmds, Grower(gp, delta, va));
  }

  /** The pass over a grown file patches each command of its list and nothing else, and the
      patched list parses to the grown segments. */
  lemma GrowthWrites(im: Image, gp: nat, delta: nat, at: nat, payload: seq<byte>)
    requires Growable(im, gp, delta, at, payload)
    ensures var f, grown := RebaseShift.GrownFile(Encode(im), gp, delta, at, payload), GrownImage(im, gp, delta, at, payload);
            && ListEnd(im) <= |f| && GrowCommands(f, ListEnd(im), gp, delta) == Ok(Encode(grown))
            && WellFormed(grown) && ListEnd(grown) == ListEnd(im)
            && SegmentsOf(grown.cmds) == Growth.Grown(SegmentsOf(im.cmds), gp, delta)
  {
    hide Tables, AllUnwrapped, Flat, RebaseShift.GrownFile, InsertVaddrFrom, GrowBytes, PatchFrom, PatchAll, SegmentsOf,
         Growth.InsertVaddr, Growth.GrownFrom, IsCommand, U32, HasAt;
    var f, n := RebaseShift.GrownFile(Encode(im), gp, delta, at, payload), ListEnd(im);
    var va := Growth.InsertVaddr(SegmentsOf(im.cmds), gp);
    InsertedFile(im, gp, delta, at, payload);
    HasAtMiddle(im.header, Flat(im.cmds), f[n..]);
    InsertVaddrWalks(f, LC_START, im.cmds, gp);
    PatchWalks(im.header, im.cmds, f[n..], Grower(gp, delta, va));
    GrowerKeepsCommands(im.cmds, gp, delta, va);
    ListGrows(im.cmds, gp, delta, va);
  }

  // ----- the bytes behind the list --------------------------------------

  lemma GrownTail(im: Image, gp: nat, delta: nat, at: nat, payload: seq<byte>)
    requires Growable(im, gp, delta, at, payload)
    ensures var f, out := RebaseShift.GrownFile(Encode(im), gp, delta, at, payload), Encode(GrownImage(im, gp, delta, at, payload));
            |out| == |f| == |Encode(im)| + delta && ListEnd(im) <= |f| && out[ListEnd(im)..] == f[ListEnd(im)..]
  {
    hide Tables, AllUnwrapped, SegmentsOf, GrowBytes, RebaseShift.GrownFile, PatchAll, Growth.InsertVaddr, Flat;
    GrowerKeepsCommands(im.cmds, gp, delta, Growth.InsertVaddr(SegmentsOf(im.cmds), gp));
    var f, grown := RebaseShift.GrownFile(Encode(im), gp, delta, at, payload), GrownImage(im, gp, delta, at, payload);
    TailOf(im.header + Flat(grown.cmds), f[ListEnd(im)..]);
  }

  lemma TailOf(a: seq<byte>, b: seq<byte>)
    ensures (a + b)[|a|..] == b
  {}

  /** Every byte behind the command list stands at its moved offset. */
  lemma OriginalStays(im: Image, gp: nat, delta: nat, at: nat, payload: seq<byte>, o: nat)
    requires Growable(im, gp, delta, at, payload) && ListEnd(im) <= o < |Encode(im)|
    ensures var out, p := Encode(GrownImage(im, gp, delta, at, payload)), Growth.Psi(o, gp, delta);
            p < |out| && out[p] == Encode(im)[o]
  {
    GrownTail(im, gp, delta, at, payload);
    RebaseShift.OriginalByte(Encode(im), gp, delta, at, payload, o);
    var f, out := RebaseShift.GrownFile(Encode(im), gp, delta, at, payload), Encode(GrownImage(im, gp, delta, at, payload));
    var p, n := Growth.Psi(o, gp, delta), ListEnd(im);
    hide *;
    SameTail(f, out, n, p);
  }

  lemma SameTail(f: seq<byte>, out: seq<byte>, n: nat, p: nat)
    requires n <= |f| == |out| && out[n..] == f[n..] && n <= p < |f|
    ensures out[p] == f[p]
  {
    assert out[n..][p - n] == f[n..][p - n];
  }

  /** Bytes on one side of the growth point stay together. */
  lemma SliceStands(im: Image, gp: nat, delta: nat, at: nat, payload: seq<byte>, o: nat, n: nat)
    requires Growable(im, gp, delta, at, payload) && ListEnd(im) <= o && o + n <= |Encode(im)| && (o + n <= gp || gp <= o)
    ensures var out, p := Encode(GrownImage(im, gp, delta, at, payload)), Growth.Psi(o, gp, delta);
            p + n <= |out| && out[p..p + n] == Encode(im)[o..o + n]
  {
    hide *;
    GrowthPointBehind(im, gp, delta, at, payload);
    GrownTail(im, gp, delta, at, payload);
    PsiInside(o, n, gp, delta, |Encode(im)|);
    var out, raw, p := Encode(GrownImage(im, gp, delta, at, payload)), Encode(im), Growth.Psi(o, gp, delta);
    var now, was := out[p..p + n], raw[o..o + n];
    forall i | 0 <= i < n ensures now[i] == was[i] {
      OriginalStays(im, gp, delta, at, payload, o + i);
      PsiKeepsDistance(o, i, gp, delta);
    }
    assert now == was;
  }

  lemma PsiInside(o: nat, n: nat, gp: nat, delta: nat, size: nat)
    requires o + n <= size && (o + n <= gp || gp <= o)
    ensures Growth.Psi(o, gp, delta) + n <= size + delta
  {}

  lemma PsiKeepsDistance(o: nat, i: nat, gp: nat, delta: nat)
    requires o + i < gp || gp <= o
    ensures Growth.Psi(o + i, gp, delta) == Growth.Psi(o, gp, delta) + i
  {}

  /** A blob behind the growth point stands, whole, `delta` further on. */
  lemma BlobStands(im: Image, gp: nat, delta: nat, at: nat, payload: seq<byte>, off: nat, blob: seq<byte>)
    requires Growable(im, gp, delta, at, payload) && gp <= off && HasAt(Encode(im), off, blob)
    ensures HasAt(Encode(GrownImage(im, gp, delta, at, payload)), off + delta, blob)
  {
    hide Growable, Encode, GrownImage, ListEnd;
    GrowthPointBehind(im, gp, delta, at, payload);
    HasAtSlice(Encode(im), off, blob);
    SliceStands(im, gp, delta, at, payload, off, |blob|);
  }

  // ----- the offsets the commands hold ----------------------------------

  lemma {:induction false} PatchAllAt(cmds: seq<seq<byte>>, patch: seq<byte> -> seq<byte>, i: nat)
    requires i < |cmds|
    ensures PatchAll(cmds, patch)[i] == patch(cmds[i])
  {
    if i > 0 {
      PatchAllAt(cmds[1..], patch, i - 1);
    }
  }

  /** A patched offset field holds the moved offset exactly when it held none or one that
      moved, and then reaches the blob it reached before. */
  lemma FieldFollows(im: Image, gp: nat, delta: nat, at: nat, payload: seq<byte>, i: nat, k: nat, blob: seq<byte>)
    requires Growable(im, gp, delta, at, payload) && delta > 0 && i < |im.cmds|
    requires TypeOf(im.cmds[i]) != LC_SEGMENT_64 && TypeOf(im.cmds[i]) != LC_MAIN
    requires k < |OffsetFields(TypeOf(im.cmds[i]), |im.cmds[i]|)|
    requires var f := OffsetFields(TypeOf(im.cmds[i]), |im.cmds[i]|)[k];
             f + 4 <= |im.cmds[i]| && U32(im.cmds[i], f) + delta < U32_LIMIT
    ensures var f, grown := OffsetFields(TypeOf(im.cmds[i]), |im.cmds[i]|)[k], GrownImage(im, gp, delta, at, payload);
            var off := U32(im.cmds[i], f);
            && |grown.cmds[i]| == |im.cmds[i]|
            && (U32(grown.cmds[i], f) == Growth.Psi(off, gp, delta) <==> off == 0 || off >= gp)
            && (off >= gp && HasAt(Encode(im), off, blob) ==> HasAt(Encode(grown), U32(grown.cmds[i], f), blob))
  {
    hide Growable, OffsetFields, BumpFields, SegmentsOf, Growth.InsertVaddr, Encode, RebaseShift.GrownFile, U32, TypeOf, HasAt;
    var c, va := im.cmds[i], Growth.InsertVaddr(SegmentsOf(im.cmds), gp);
    var f := OffsetFields(TypeOf(c), |c|)[k];
    GrowthPointBehind(im, gp, delta, at, payload);
    PatchAllAt(im.cmds, Grower(gp, delta, va), i);
    FieldsSpread(TypeOf(c), |c|);
    BumpedField(c, OffsetFields(TypeOf(c), |c|), delta, k);
    if U32(c, f) >= gp && HasAt(Encode(im), U32(c, f), blob) {
      BlobStands(im, gp, delta, at, payload, U32(c, f), blob);
    }
  }

  lemma GrowthPointBehind(im: Image, gp: nat, delta: nat, at: nat, payload: seq<byte>)
    requires Growable(im, gp, delta, at, payload)
    ensures LC_START <= ListEnd(im) && Placed(im, gp, delta, at, payload)
  {}

  /** The entry point's file offset is moved with its code. */
  lemma EntryFollows(im: Image, gp: nat, delta: nat, at: nat, payload: seq<byte>, i: nat)
    requires Growable(im, gp, delta, at, payload) && i < |im.cmds|
    requires TypeOf(im.cmds[i]) == LC_MAIN && |im.cmds[i]| >= 16 && U64(im.cmds[i], 8) + delta < U64_LIMIT
    ensures var grown := GrownImage(im, gp, delta, at, payload);
            |grown.cmds[i]| == |im.cmds[i]| && U64(grown.cmds[i], 8) == Growth.Psi(U64(im.cmds[i], 8), gp, delta)
  {
    hide Growable, SegmentsOf, Growth.InsertVaddr, Encode, RebaseShift.GrownFile, Le, FromLe;
    var c, va := im.cmds[i], Growth.InsertVaddr(SegmentsOf(im.cmds), gp);
    GrowthPointBehind(im, gp, delta, at, payload);
    PatchAllAt(im.cmds, Grower(gp, delta, va), i);
    MainGrows(c, gp, delta);
  }

  lemma MainGrows(c: seq<byte>, gp: nat, delta: nat)
    requires |c| >= 16 && U64(c, 8) + delta < U64_LIMIT
    ensures U64(GrowMain(c, gp, delta), 8) == Growth.Psi(U64(c, 8), gp, delta)
  {
    if U64(c, 8) >= gp {
      assert GrowMain(c, gp, delta)[8..16] == Le(U64(c, 8) + delta, 8);
      Pow256Values();
      FromLeOfLe(U64(c, 8) + delta, 8);
    }
  }

  // ----- offsets the pass does not know ---------------------------------

  /** The commands whose first field is the offset of a blob of `__LINKEDIT`. */
  predicate HasDataOffset(cmd: nat) {
    Listed(cmd) || cmd == LC_SEGMENT_SPLIT_INFO || cmd == LC_DYLIB_CODE_SIGN_DRS || cmd == LC_LINKER_OPTIMIZATION_HINT
  }

  /** Those among them that the pass patches. */
  predicate Listed(cmd: nat) {
    cmd == LC_DYLD_CHAINED_FIXUPS || cmd == LC_DYLD_EXPORTS_TRIE || cmd == LC_FUNCTION_STARTS || cmd == LC_DATA_IN_CODE || cmd == LC_CODE_SIGNATURE
  }

  lemma ListedFields(cmd: nat, size: nat)
    requires HasDataOffset(cmd) && size >= 16
    ensures cmd != LC_SEGMENT_64 && cmd != LC_MAIN
    ensures OffsetFields(cmd, size) == if Listed(cmd) then [8] else []
  {}

  /** The offset of a `__LINKEDIT` blob follows its blob exactly when the pass patches the
      command and the blob moved, or patches it not and the blob stayed. */
  lemma DataOffsetFollows(im: Image, gp: nat, delta: nat, at: nat, payload: seq<byte>, i: nat)
    requires Growable(im, gp, delta, at, payload) && delta > 0 && i < |im.cmds| && |im.cmds[i]| >= 16
    requires HasDataOffset(TypeOf(im.cmds[i])) && U32(im.cmds[i], 8) + delta < U32_LIMIT
    ensures var off, grown := U32(im.cmds[i], 8), GrownImage(im, gp, delta, at, payload);
            && |grown.cmds[i]| == |im.cmds[i]|
            && (U32(grown.cmds[i], 8) == Growth.Psi(off, gp, delta)
                <==> if Listed(TypeOf(im.cmds[i])) then off == 0 || off >= gp else off < gp)
  {
    hide Growable, OffsetFields, HasDataOffset, Listed, SegmentsOf, Growth.InsertVaddr, Encode, RebaseShift.GrownFile, U32, TypeOf, HasAt;
    var c := im.cmds[i];
    ListedFields(TypeOf(c), |c|);
    GrowthPointBehind(im, gp, delta, at, payload);
    if Listed(TypeOf(c)) {
      FieldFollows(im, gp, delta, at, payload, i, 0, []);
    } else {
      PatchAllAt(im.cmds, Grower(gp, delta, Growth.InsertVaddr(SegmentsOf(im.cmds), gp)), i);
    }
  }

  // ----- the pointers ---------------------------------------------------

  /** The grown file after the pass over its rebased pointers. */
  ghost function Rebased(im: Image, gp: nat, delta: nat, at: nat, payload: seq<byte>, locs: seq<RebaseLocation>): RebaseShift.Outcome
    requires Placed(im, gp, delta, at, payload)
  {
    RebaseShift.ShiftPointers(Encode(GrownImage(im, gp, delta, at, payload)), RebaseShift.Segments(SegmentsOf(im.cmds)), locs, gp, delta)
  }

  ghost predicate Rebasable(im: Image, gp: nat, delta: nat, at: nat, payload: seq<byte>, locs: seq<RebaseLocation>)
    requires Placed(im, gp, delta, at, payload)
  {
    RebaseShift.Rebasable(Encode(GrownImage(im, gp, delta, at, payload)), RebaseShift.Segments(SegmentsOf(im.cmds)), locs, gp, delta)
  }

  lemma SamePointer(f: seq<byte>, g: seq<byte>, o: nat, p: nat)
    requires o + 8 <= |f| && p + 8 <= |g| && g[p..p + 8] == f[o..o + 8]
    ensures RebaseShift.Pointer(g, p) == RebaseShift.Pointer(f, o)
  {}

  /** A rebased pointer of the file moves with its slot, under the condition of the pass. */
  lemma RebasedSlotHolds(im: Image, t: nat, gp: nat, delta: nat, at: nat, payload: seq<byte>, locs: seq<RebaseLocation>, i: nat, o: nat)
    requires Growable(im, gp, delta, at, payload) && delta > 0 && Rebasable(im, gp, delta, at, payload, locs)
    requires Growth.WellFormed(SegmentsOf(im.cmds), t, gp, delta)
    requires i < |locs| && locs[i].segment < |SegmentsOf(im.cmds)|
    requires o == SegmentsOf(im.cmds)[locs[i].segment].seg.fileoff + locs[i].offset
    requires ListEnd(im) <= o && o + 8 <= |Encode(im)| && (o + 8 <= gp || gp <= o)
    ensures var segs, done, was := SegmentsOf(im.cmds), Rebased(im, gp, delta, at, payload, locs), RebaseShift.Pointer(Encode(im), o);
            var p, va := Growth.Psi(o, gp, delta), Growth.GrowthVa(segs[t].seg, gp);
            && done.result.Ok? && p + 8 <= |done.bytes|
            && (RebaseShift.Pointer(done.bytes, p) == Growth.Phi(was, va, delta)
                <==> was < va || RebaseShift.Mentions(RebaseShift.Segments(segs), locs, gp, delta, p) == 1)
  {
    hide Growable, Encode, GrownImage, SegmentsOf, Flat, RebaseShift.Pointer, RebaseShift.ShiftFrom, RebaseShift.Mentions,
         RebaseShift.Fitting, RebaseShift.Apart, RebaseShift.FindText, RebaseShift.Separate, RebaseShift.GrownFile, Growth.Phi;
    GrowthPointBehind(im, gp, delta, at, payload);
    var segs, out := SegmentsOf(im.cmds), Encode(GrownImage(im, gp, delta, at, payload));
    RebaseShift.TextFound(segs, t, gp, delta);
    var va := Growth.GrowthVa(segs[t].seg, gp);
    RebaseShift.SucceedsWhenValid(out, RebaseShift.Segments(segs), locs, gp, va, delta, 0);
    RebaseShift.NamedPointer(out, RebaseShift.Segments(segs), locs, gp, va, delta, i);
    SliceStands(im, gp, delta, at, payload, o, 8);
    SamePointer(Encode(im), out, o, Growth.Psi(o, gp, delta));
  }

  /** No slot lies in the header or the command list. */
  ghost predicate SlotsBehind(im: Image, gp: nat, delta: nat, locs: seq<RebaseLocation>) {
    forall b :: 0 <= b < ListEnd(im) ==> !RebaseShift.InSomeSlot(RebaseShift.Segments(SegmentsOf(im.cmds)), locs, gp, delta, b)
  }

  /** Reading the finished file: its own command list maps the moved address to the moved
      offset, and there stands the byte that stood at the old one, unless a rebased pointer
      does. */
  lemma RebasedPointerReaches(im: Image, t: nat, gp: nat, delta: nat, at: nat, payload: seq<byte>, locs: seq<RebaseLocation>, v: nat, q: nat)
    requires Growable(im, gp, delta, at, payload) && SlotsBehind(im, gp, delta, locs)
    requires Growth.WellFormed(SegmentsOf(im.cmds), t, gp, delta)
    requires Growth.FileOffsetFor(Growth.AllSections(SegmentsOf(im.cmds)), v) == Some(q) && ListEnd(im) <= q < |Encode(im)|
    ensures var segs, grown, done := SegmentsOf(im.cmds), GrownImage(im, gp, delta, at, payload), Rebased(im, gp, delta, at, payload, locs).bytes;
            var there := Growth.FileOffsetFor(Growth.AllSections(SegmentsOf(grown.cmds)), Growth.Phi(v, Growth.GrowthVa(segs[t].seg, gp), delta));
            && ListEnd(im) <= |done| && done == Encode(Image(im.header, grown.cmds, done[ListEnd(im)..]))
            && there == Some(Growth.Psi(q, gp, delta)) && there.value < |done|
            && (!RebaseShift.InSomeSlot(RebaseShift.Segments(segs), locs, gp, delta, there.value) ==> done[there.value] == Encode(im)[q])
  {
    var segs, grown := SegmentsOf(im.cmds), GrownImage(im, gp, delta, at, payload);
    var out, va, p := Encode(grown), Growth.GrowthVa(segs[t].seg, gp), Growth.Psi(q, gp, delta);
    GrowthWrites(im, gp, delta, at, payload);
    Growth.LookupCommutes(segs, t, gp, delta, v);
    RebaseShift.TextFound(segs, t, gp, delta);
    OriginalStays(im, gp, delta, at, payload, q);
    RebaseShift.SucceedsWhenValid(out, RebaseShift.Segments(segs), locs, gp, va, delta, 0);
    var done := Rebased(im, gp, delta, at, payload, locs).bytes;
    var n := ListEnd(im);
    forall b | 0 <= b < n ensures done[b] == out[b] {
      RebaseShift.PassKeeps(out, RebaseShift.Segments(segs), locs, gp, va, delta, 0, b);
    }
    ListKept(im.header, Flat(grown.cmds), grown.rest, done);
    if !RebaseShift.InSomeSlot(RebaseShift.Segments(segs), locs, gp, delta, p) {
      RebaseShift.PassKeeps(out, RebaseShift.Segments(segs), locs, gp, va, delta, 0, p);
    }
  }

  lemma ListKept(h: seq<byte>, list: seq<byte>, rest: seq<byte>, done: seq<byte>)
    requires |done| == |h + list + rest| && forall b :: 0 <= b < |h| + |list| ==> done[b] == (h + list + rest)[b]
    ensures done == h + list + done[|h| + |list|..]
  {}

  // ----- a command the pass leaves alone --------------------------------

  /** A file of one `LC_SEGMENT_SPLIT_INFO` whose blob is the rest of it. */
  function SplitInfoFile(): Image {
    Image(Words([0, 0, 0, 0, 1, 16, 0, 0]), [Words([LC_SEGMENT_SPLIT_INFO, 16, 48, 8])], [7, 7, 7, 7, 7, 7, 7, 7])
  }

  lemma WordReads(ws: seq<nat>, k: nat)
    requires k < |ws| && ws[k] < U32_LIMIT
    ensures U32(Words(ws), 4 * k) == ws[k]
  {
    hide Words, Le, FromLe;
    var b := Words(ws);
    HasAtMiddle([], b, []);
    assert [] + b + [] == b;
    WordStands(b, 0, ws, k);
    HasAtSlice(b, 4 * k, Le(ws[k], 4));
    U32ReadsBack(ws[k]);
  }

  lemma OneCommandFile(im: Image, c: seq<byte>)
    requires |im.header| == LC_START && U32(im.header, 16) == 1 && U32(im.header, 20) == 16 && im.cmds == [c]
    requires |c| == 16 && U32(c, 4) == 16
    ensures WellFormed(im) && ListEnd(im) == 48 && |Encode(im)| == 48 + |im.rest|
    ensures forall i :: 0 <= i < |im.rest| ==> Encode(im)[48 + i] == im.rest[i]
  {
    hide U32;
    FlatOne(c);
  }

  lemma SplitInfoReads()
    ensures var im := SplitInfoFile();
            && WellFormed(im) && ListEnd(im) == 48 && |Encode(im)| == 56 && Encode(im)[48] == 7
            && |im.cmds| == 1 && |im.cmds[0]| == 16 && TypeOf(im.cmds[0]) == LC_SEGMENT_SPLIT_INFO && U32(im.cmds[0], 8) == 48
  {
    hide Words, FromLe, Flat, WellFormed, Encode, ListEnd;
    var im := SplitInfoFile();
    WordReads([0, 0, 0, 0, 1, 16, 0, 0], 4);
    WordReads([0, 0, 0, 0, 1, 16, 0, 0], 5);
    WordReads([LC_SEGMENT_SPLIT_INFO, 16, 48, 8], 0);
    WordReads([LC_SEGMENT_SPLIT_INFO, 16, 48, 8], 1);
    WordReads([LC_SEGMENT_SPLIT_INFO, 16, 48, 8], 2);
    OneCommandFile(im, im.cmds[0]);
    assert im.rest[0] == 7;
  }

  /** Growing that file by 16 bytes at its blob: the blob moves to 64, its command still says
      48, where zeros stand. */
  lemma SplitInfoStale()
    ensures var im := SplitInfoFile();
            && Growable(im, 48, 16, 48, []) && Encode(im)[48] == 7
            && var grown := GrownImage(im, 48, 16, 48, []);
               && |grown.cmds| == 1 && |grown.cmds[0]| == 16 && U32(grown.cmds[0], 8) == 48
               && |Encode(grown)| == 72 && Encode(grown)[48] == 0 && Encode(grown)[64] == 7
  {
    hide SplitInfoFile, Encode, Flat, U32, Growable, RebaseShift.GrownFile, WellFormed, SegmentsOf, Growth.InsertVaddr, PatchAll;
    SplitInfoReads();
    SplitInfoGrowable(SplitInfoFile());
    StaleFrom(SplitInfoFile());
  }

  lemma StaleFrom(im: Image)
    requires Growable(im, 48, 16, 48, []) && ListEnd(im) == 48 && |Encode(im)| == 56 && Encode(im)[48] == 7
    requires |im.cmds| == 1 && |im.cmds[0]| == 16 && TypeOf(im.cmds[0]) == LC_SEGMENT_SPLIT_INFO && U32(im.cmds[0], 8) == 48
    ensures var grown := GrownImage(im, 48, 16, 48, []);
            && |grown.cmds| == 1 && |grown.cmds[0]| == 16 && U32(grown.cmds[0], 8) == 48
            && |Encode(grown)| == 72 && Encode(grown)[48] == 0 && Encode(grown)[64] == 7
  {
    hide Encode, Flat, U32, Growable, RebaseShift.GrownFile, WellFormed, SegmentsOf, Growth.InsertVaddr, PatchAll, BumpFields;
    PatchAllAt(im.cmds, Grower(48, 16, Growth.InsertVaddr(SegmentsOf(im.cmds), 48)), 0);
    OriginalStays(im, 48, 16, 48, [], 48);
    GrownTail(im, 48, 16, 48, []);
    ZeroInGap(Encode(im), 48, 16);
    SameTail(RebaseShift.GrownFile(Encode(im), 48, 16, 48, []), Encode(GrownImage(im, 48, 16, 48, [])), 48, 48);
    ListedFields(TypeOf(im.cmds[0]), 16);
    NothingBumped(im.cmds[0], 16);
  }

  lemma NothingBumped(c: seq<byte>, delta: nat)
    ensures BumpFields(c, [], delta) == c
  {}

  lemma SplitInfoGrowable(im: Image)
    requires WellFormed(im) && ListEnd(im) == 48 <= |Encode(im)| && |im.cmds| == 1 && TypeOf(im.cmds[0]) == LC_SEGMENT_SPLIT_INFO
    ensures Growable(im, 48, 16, 48, [])
  {
    hide Encode, Flat, WellFormed, Unwrapped, TypeOf;
    assert !IsSegment(im.cmds[0]);
    SegmentsUnfold(im.cmds);
    assert im.cmds[1..] == [];
  }

  lemma ZeroInGap(raw: seq<byte>, gp: nat, delta: nat)
    requires gp <= |raw| && delta > 0
    ensures RebaseShift.GrownFile(raw, gp, delta, gp, [])[gp] == 0
  {}
}
