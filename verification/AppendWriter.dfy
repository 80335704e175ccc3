/** The writer that appends a segment: refusals, section overrides, the appended file, and raw
    overrides of it. */
module AppendWriter {
  import opened Bytes
  import opened LoadCommands
  import opened AppendSegment
  import opened AppendTheorem
  import opened MachOLayout
  import Overrides

  // ----- overrides behind the command list ------------------------------

  /** All patches lie at or behind `e`. */
  ghost predicate Behind(ps: seq<Overrides.Patch>, e: nat) {
    forall k :: 0 <= k < |ps| ==> e <= ps[k].0
  }

  lemma PatchedTail(x: seq<byte>, p: Overrides.Patch, e: nat)
    requires Overrides.Fits(p, |x|) && e <= p.0
    ensures Overrides.Patched(x, p)[..e] == x[..e]
  {}

  lemma SamePatchedTail(x: seq<byte>, y: seq<byte>, p: Overrides.Patch, e: nat)
    requires |x| == |y| && Overrides.Fits(p, |x|) && e <= p.0 && x[e..] == y[e..]
    ensures Overrides.Patched(x, p)[e..] == Overrides.Patched(y, p)[e..]
  {
    var a, b := Overrides.Patched(x, p), Overrides.Patched(y, p);
    forall i | e <= i < |x| ensures a[i] == b[i] {
      assert x[i] == x[e..][i - e] && y[i] == y[e..][i - e];
    }
  }

  /** Patches behind `e` see and change only what lies there. */
  lemma {:induction false} PatchesBehind(x: seq<byte>, y: seq<byte>, ps: seq<Overrides.Patch>, k: nat, e: nat)
    requires |x| == |y| && e <= |x| && x[e..] == y[e..] && Behind(ps, e) && k <= |ps|
    ensures var a, b := Overrides.PatchAll(x, ps, k), Overrides.PatchAll(y, ps, k);
            && (a.Ok? <==> b.Ok?)
            && (a.Ok? ==> |a.value| == |x| && |b.value| == |x| && a.value[e..] == b.value[e..] && a.value[..e] == x[..e] && b.value[..e] == y[..e])
    decreases |ps| - k
  {
    if k < |ps| && Overrides.Fits(ps[k], |x|) {
      PatchedTail(x, ps[k], e);
      PatchedTail(y, ps[k], e);
      SamePatchedTail(x, y, ps[k], e);
      PatchesBehind(Overrides.Patched(x, ps[k]), Overrides.Patched(y, ps[k]), ps, k + 1, e);
    }
  }

  /** The image with other bytes behind its command list. */
  function Retailed(im: Image, bytes: seq<byte>): Image
    requires |im.header| + |Flat(im.cmds)| <= |bytes|
  {
    im.(rest := bytes[|im.header| + |Flat(im.cmds)|..])
  }

  lemma RetailedEncodes(im: Image, bytes: seq<byte>)
    requires |bytes| == |Encode(im)| && bytes[..|im.header| + |Flat(im.cmds)|] == Encode(im)[..|im.header| + |Flat(im.cmds)|]
    ensures Encode(Retailed(im, bytes)) == bytes
  {
    var n := |im.header| + |Flat(im.cmds)|;
    assert Encode(im)[..n] == im.header + Flat(im.cmds);
    assert bytes == bytes[..n] + bytes[n..];
  }

  // ----- overriding and stripping commute -------------------------------

  /** Two images with the same list and the same bytes up to `e`. */
  ghost predicate SameFront(a: Image, b: Image, e: nat) {
    && a.header == b.header && a.cmds == b.cmds && |a.rest| == |b.rest|
    && |a.header| + |Flat(a.cmds)| <= e <= |Encode(a)| && Encode(a)[..e] == Encode(b)[..e]
  }

  lemma FrontOfRest(h: seq<byte>, flat: seq<byte>, a: seq<byte>, b: seq<byte>, k: nat)
    requires k <= |a| == |b|
    ensures (h + flat + a)[..|h| + |flat| + k] == (h + flat + b)[..|h| + |flat| + k] <==> a[..k] == b[..k]
  {
    assert (h + flat + a)[..|h| + |flat| + k] == h + flat + a[..k];
    assert (h + flat + b)[..|h| + |flat| + k] == h + flat + b[..k];
    assert (h + flat + a[..k])[|h| + |flat|..] == a[..k] && (h + flat + b[..k])[|h| + |flat|..] == b[..k];
  }

  lemma StripSameFront(a: Image, b: Image, cmd: nat, e: nat)
    requires WellFormed(a) && WellFormed(b) && SameFront(a, b, e)
    ensures SameFront(StripImage(a, cmd), StripImage(b, cmd), e)
  {
    StripImageKeeps(a, cmd, e);
    StripImageKeeps(b, cmd, e);
    var x, y := StripImage(a, cmd), StripImage(b, cmd);
    FrontOfRest(a.header, Flat(a.cmds), a.rest, b.rest, e - |a.header| - |Flat(a.cmds)|);
    hide WellFormed, IsCommand, Flat, Zeros, FirstIndex, PatchedHeader, Without;
    var i := FirstIndex(a.cmds, OfType(cmd));
    if i.Some? && |Flat(a.cmds)| >= |a.cmds[i.value]| {
      var k := e - |x.header| - |Flat(x.cmds)|;
      LaterFront(Zeros(|a.cmds[i.value]|), a.rest, b.rest, k);
      FrontOfRest(x.header, Flat(x.cmds), x.rest, y.rest, k);
    }
  }

  lemma LaterFront(z: seq<byte>, a: seq<byte>, b: seq<byte>, k: nat)
    requires |z| <= k <= |z| + |a| && |a| == |b| && a[..k - |z|] == b[..k - |z|]
    ensures (z + a)[..k] == (z + b)[..k]
  {
    assert (z + a)[..k] == z + a[..k - |z|] && (z + b)[..k] == z + b[..k - |z|];
  }

  lemma {:induction false} StripAllSameFront(a: Image, b: Image, types: seq<nat>, e: nat)
    requires WellFormed(a) && WellFormed(b) && SameFront(a, b, e)
    ensures SameFront(StripAll(a, types), StripAll(b, types), e)
    decreases |types|
  {
    hide WellFormed, SameFront, StripImage;
    if types != [] {
      var less := types[..|types| - 1];
      SameFrontBounds(a, b, e);
      StripAllKeeps(a, less, e);
      StripAllKeeps(b, less, e);
      StripAllSameFront(a, b, less, e);
      StripSameFront(StripAll(a, less), StripAll(b, less), types[|types| - 1], e);
    }
  }

  lemma SameFrontBounds(a: Image, b: Image, e: nat)
    requires WellFormed(a) && WellFormed(b) && SameFront(a, b, e)
    ensures LC_START + |Flat(a.cmds)| <= e <= |Encode(a)| == |Encode(b)| && LC_START + |Flat(b.cmds)| <= e
  {}

  /** `im` with its content overridden. */
  ghost predicate Overridden(im: Image, ps: seq<Overrides.Patch>, now: Image) {
    Overrides.PatchAll(Encode(im), ps, 0) == Ok(Encode(now)) && now.header == im.header && now.cmds == im.cmds && |now.rest| == |im.rest|
  }

  lemma OverriddenExists(im: Image, ps: seq<Overrides.Patch>, first: nat) returns (now: Image)
    requires |im.header| + |Flat(im.cmds)| <= first <= |Encode(im)| && Behind(ps, first) && Overrides.PatchAll(Encode(im), ps, 0).Ok?
    ensures Overridden(im, ps, now) && SameFront(im, now, first)
  {
    var bytes, n := Overrides.PatchAll(Encode(im), ps, 0).value, |im.header| + |Flat(im.cmds)|;
    PatchesBehind(Encode(im), Encode(im), ps, 0, first);
    assert bytes[..n] == bytes[..first][..n] && Encode(im)[..n] == Encode(im)[..first][..n];
    RetailedEncodes(im, bytes);
    now := Retailed(im, bytes);
  }

  lemma SameEnds(x: seq<byte>, y: seq<byte>, e: nat)
    requires |x| == |y| && e <= |x| && x[..e] == y[..e] && x[e..] == y[e..]
    ensures x == y
  {
    assert x == x[..e] + x[e..] && y == y[..e] + y[e..];
  }

  /** Overriding content and reclaiming header space commute. */
  lemma OverrideCommutes(im: Image, now: Image, ps: seq<Overrides.Patch>, types: seq<nat>, first: nat)
    requires WellFormed(im) && LC_START + |Flat(im.cmds)| <= first <= |Encode(im)| && Behind(ps, first)
    requires Overridden(im, ps, now) && SameFront(im, now, first)
    ensures WellFormed(now) && Overrides.PatchAll(Encode(StripAll(im, types)), ps, 0) == Ok(Encode(StripAll(now, types)))
    ensures StripAll(now, types).cmds == StripAll(im, types).cmds
  {
    var a, b := StripAll(im, types), StripAll(now, types);
    StripAllKeeps(im, types, first);
    StripAllKeeps(now, types, first);
    StripAllSameFront(im, now, types, first);
    PatchesBehind(Encode(im), Encode(a), ps, 0, first);
    hide Encode, StripAll, Flat, WellFormed;
    var patched := Overrides.PatchAll(Encode(a), ps, 0).value;
    assert patched[first..] == Encode(now)[first..] == Encode(b)[first..];
    SameEnds(patched, Encode(b), first);
  }

  /** Refused overrides are refused before and after reclaiming. */
  lemma RefusedEither(im: Image, ps: seq<Overrides.Patch>, types: seq<nat>, first: nat)
    requires WellFormed(im) && LC_START + |Flat(im.cmds)| <= first <= |Encode(im)| && Behind(ps, first)
    ensures |im.header| >= 24
    ensures Overrides.PatchAll(Encode(StripAll(im, types)), ps, 0).Ok? <==> Overrides.PatchAll(Encode(im), ps, 0).Ok?
  {
    StripAllKeeps(im, types, first);
    PatchesBehind(Encode(im), Encode(StripAll(im, types)), ps, 0, first);
  }

  /** Overrides of sections lie behind the lowest content. */
  lemma {:induction false} ResolvedBehind(os: seq<Overrides.SectionOverride>, sections: seq<Section>, segs: seq<Segment>, end: nat)
    ensures Behind(Overrides.Resolved(os, sections), LowestContent(sections, segs, end))
  {
    if os != [] {
      ResolvedBehind(os[1..], sections, segs, end);
      var entry := Overrides.EntryAt(sections, os[0].address);
      if entry.Some? {
        var i :| 0 <= i < |sections| && sections[i] == entry.value;
        LowestIsLeast(sections, segs, end, i);
      }
    }
  }

  // ----- the writer -----------------------------------------------------

  datatype AppendError =
    | AddressOverflow
    | Collision
    | NoRoom
    | BadOverride(error: Overrides.SectionError)
    | LinkeditMissing
    | BadPatch(k: nat)

  /** Nothing refuses the append before its overrides are applied. */
  ghost predicate Admitted(im: Image, sections: seq<Section>, segs: seq<Segment>, vaddr: nat, payload: seq<byte>, deps: seq<seq<byte>>)
    requires |im.header| >= 24 && |Flat(StripAll(im, Reclaimable()).cmds)| <= |Flat(im.cmds)|
  {
    && vaddr + |payload| < U64_LIMIT && !Collides(segs, vaddr, vaddr + |payload|) && FindLinkedit(segs).Some?
    && AppendSize(im, sections, segs, deps).Some?
  }

  ghost function AppendSize(im: Image, sections: seq<Section>, segs: seq<Segment>, deps: seq<seq<byte>>): Option<nat>
    requires |im.header| >= 24 && |Flat(StripAll(im, Reclaimable()).cmds)| <= |Flat(im.cmds)|
  {
    ChooseSize(Headerpad(sections, segs, LC_START + |Flat(im.cmds)|),
               |Flat(im.cmds)| - |Flat(StripAll(im, Reclaimable()).cmds)|, |Flat(DylibCommands.Built(deps))|)
  }

  lemma StripAllShrinks(im: Image, types: seq<nat>)
    requires WellFormed(im)
    ensures |im.header| >= 24 && |Flat(StripAll(im, types).cmds)| <= |Flat(im.cmds)|
  {
    hide Encode;
    ListInFile(im);
    StripAllKeeps(im, types, LC_START + |Flat(im.cmds)|);
  }

  lemma ListInFile(im: Image)
    requires WellFormed(im)
    ensures LC_START + |Flat(im.cmds)| <= |Encode(im)|
  {}

  lemma DescribedFirst(im: Image, sections: seq<Section>, segs: seq<Segment>, first: nat)
    requires Describes(im, sections, segs, first)
    ensures WellFormed(im) && |im.header| == LC_START && first == LowestContent(sections, segs, LC_START + |Flat(im.cmds)|)
    ensures LC_START + |Flat(im.cmds)| <= first
  {}

  lemma LinkeditInFile(im: Image, sections: seq<Section>, segs: seq<Segment>, first: nat)
    requires Describes(im, sections, segs, first) && FindLinkedit(segs).Some?
    ensures first <= |Encode(im)|
  {}

  /** What the writer needs to know of the overridden image. */
  lemma NowDescribed(im: Image, now: Image, ps: seq<Overrides.Patch>, sections: seq<Section>, segs: seq<Segment>, first: nat, deps: seq<seq<byte>>)
    requires Describes(im, sections, segs, first) && DepsFit(im, deps) && Overridden(im, ps, now)
    ensures Describes(now, sections, segs, first) && DepsFit(now, deps)
  {
    hide Overrides.PatchAll, LowestContent;
  }

  /** The image the overrides make, stripped, is what they make of the stripped file. */
  lemma OverriddenStripped(im: Image, ps: seq<Overrides.Patch>, sections: seq<Section>, segs: seq<Segment>, first: nat, deps: seq<seq<byte>>)
    returns (now: Image)
    requires Describes(im, sections, segs, first) && first <= |Encode(im)| && DepsFit(im, deps) && Behind(ps, first)
    requires |im.header| >= 24 && Overrides.PatchAll(Encode(StripAll(im, Reclaimable())), ps, 0).Ok?
    ensures Overridden(im, ps, now) && Describes(now, sections, segs, first) && DepsFit(now, deps) && |now.header| >= 24
    ensures now.cmds == im.cmds && StripAll(now, Reclaimable()).cmds == StripAll(im, Reclaimable()).cmds
    ensures Overrides.PatchAll(Encode(StripAll(im, Reclaimable())), ps, 0) == Ok(Encode(StripAll(now, Reclaimable())))
  {
    DescribedFirst(im, sections, segs, first);
    hide *;
    RefusedEither(im, ps, Reclaimable(), first);
    now := OverriddenExists(im, ps, first);
    OverrideCommutes(im, now, ps, Reclaimable(), first);
    NowDescribed(im, now, ps, sections, segs, first, deps);
    SameList(im, ps, now);
  }

  lemma SameList(im: Image, ps: seq<Overrides.Patch>, now: Image)
    requires Overridden(im, ps, now)
    ensures now.cmds == im.cmds && now.header == im.header
  {}

  /** `write_with_appended_segment_opts` without exports and up to signing: it refuses an address
      range past 2^64 or on a segment, a header without room, an override of the wrong size and a
      file without `__LINKEDIT`; otherwise it makes the appended file of the overridden image and
      applies the raw overrides to that. */
  method WriteWithAppendedSegment(bytes: seq<byte>, sections: seq<Section>, segs: seq<Segment>, vaddr: nat, payload: seq<byte>,
                                  deps: seq<seq<byte>>, overrides: seq<Overrides.SectionOverride>, raw: seq<Overrides.Patch>,
                                  ghost im: Image, ghost first: nat)
    returns (r: Result<seq<byte>, AppendError>, ghost now: Image)
    requires bytes == Encode(im) && Describes(im, sections, segs, first) && DepsFit(im, deps)
    ensures |im.header| >= 24 && |now.header| >= 24 && |Flat(StripAll(im, Reclaimable()).cmds)| <= |Flat(im.cmds)|
    ensures r.Err? && !r.error.BadPatch? <==>
              || !Admitted(im, sections, segs, vaddr, payload, deps)
              || (exists k :: 0 <= k < |overrides| && !Overrides.SizeMatches(overrides[k], sections))
              || Overrides.PatchAll(bytes, Overrides.Resolved(overrides, sections), 0).Err?
    ensures r.Ok? || r.error.BadPatch? ==>
              && Overridden(im, Overrides.Resolved(overrides, sections), now) && Describes(now, sections, segs, first)
              && FindLinkedit(segs).Some? && AppendSize(im, sections, segs, deps).Some?
    ensures r.Ok? || r.error.BadPatch? ==>
              var size := AppendSize(im, sections, segs, deps).value;
              && (size == SEGMENT_LC_SIZE_WITH_SECTION || size == SEGMENT_LC_SIZE_NO_SECTION)
              && Overrides.PatchAll(Encode(Appended(now, Reclaimable(), FindLinkedit(segs).value.fileoff, FindLinkedit(segs).value.filesize,
                                                    vaddr, payload, deps, size)), raw, 0)
                 == (if r.Ok? then Ok(r.value) else Err(r.error.k))
  {
    hide Flat, Encode, Collides, StripAll, Appended, WellFormed, Describes, DepsFit, Headerpad, ChooseSize, Overridden,
      Overrides.PatchAll, Overrides.Resolved, Overrides.SizeMatches, FindLinkedit, Reclaimable, LowestContent;
    DescribedFirst(im, sections, segs, first);
    StripAllShrinks(im, Reclaimable());
    now := im;
    if vaddr + |payload| >= U64_LIMIT {
      r := Err(AddressOverflow);
      return;
    }
    var collision := AnyCollision(segs, vaddr, vaddr + |payload|);
    if collision {
      r := Err(Collision);
      return;
    }
    EncodedHeader(im);
    var end := LC_START + FromLe(bytes[20..24]);
    var reclaimed, stripped := ReclaimHeaderpad(bytes, im);
    var lcs := Concatenate(DylibCommands.Built(deps));
    var size := ChooseSize(Headerpad(sections, segs, end), reclaimed, |lcs|);
    if size.None? {
      r := Err(NoRoom);
      return;
    }
    ghost var ps := Overrides.Resolved(overrides, sections);
    ResolvedBehind(overrides, sections, segs, LC_START + |Flat(im.cmds)|);
    ListInFile(im);
    RefusedEither(im, ps, Reclaimable(), if first <= |bytes| then first else |bytes|);
    var image := new byte[|stripped|](i requires 0 <= i < |stripped| => stripped[i]);
    assert image[..] == stripped;
    var overridden := Overrides.ApplySectionOverrides(image, sections, overrides);
    if overridden.Err? {
      r := Err(BadOverride(overridden.error));
      return;
    }
    var linkedit := FindLinkedit(segs);
    if linkedit.None? {
      r := Err(LinkeditMissing);
      return;
    }
    LinkeditInFile(im, sections, segs, first);
    now := OverriddenStripped(im, ps, sections, segs, first, deps);
    var out := AppendAt(image[..], Reclaimable(), linkedit.value.fileoff, linkedit.value.filesize, vaddr, payload, deps, size.value,
                        sections, segs, now, first);
    var file := new byte[|out|](i requires 0 <= i < |out| => out[i]);
    assert file[..] == out;
    var patched := Overrides.ApplyRawByteOverrides(file, raw);
    if patched.Err? {
      r := Err(BadPatch(patched.error));
      return;
    }
    r := Ok(file[..]);
  }
}
