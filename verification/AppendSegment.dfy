/** Appending a segment: header space is reclaimed, `__LINKEDIT` moves back, and every load
    command that points into it follows. */
module AppendSegment {
  import opened Bytes
  import opened LoadCommands

  const SEGMENT_LC_SIZE_WITH_SECTION: nat := 152
  const SEGMENT_LC_SIZE_NO_SECTION: nat := 72
  const CODE_SIGNATURE_LC_SIZE: nat := 16
  const APPEND_PAGE_ALIGN: nat := 0x4000

  // ----- room in the header ---------------------------------------------

  /** `choose_append_lc_size`. */
  function ChooseSize(headerpad: nat, reclaimed: nat, deps: nat): Option<nat> {
    var usable := if headerpad + reclaimed < CODE_SIGNATURE_LC_SIZE then 0 else headerpad + reclaimed - CODE_SIGNATURE_LC_SIZE;
    if usable >= SEGMENT_LC_SIZE_WITH_SECTION + deps then Some(SEGMENT_LC_SIZE_WITH_SECTION)
    else if usable >= SEGMENT_LC_SIZE_NO_SECTION + deps then Some(SEGMENT_LC_SIZE_NO_SECTION)
    else None
  }

  /** A size is chosen exactly when some form of the command, the dependencies and the
      signature command to come fit; the chosen one fits. */
  lemma ChosenSizeFits(headerpad: nat, reclaimed: nat, deps: nat)
    ensures ChooseSize(headerpad, reclaimed, deps).Some?
            <==> SEGMENT_LC_SIZE_NO_SECTION + deps + CODE_SIGNATURE_LC_SIZE <= headerpad + reclaimed
    ensures var n := ChooseSize(headerpad, reclaimed, deps);
            n.Some? ==> n.value + deps + CODE_SIGNATURE_LC_SIZE <= headerpad + reclaimed
  {}

  function StripImage(im: Image, cmd: nat): Image
    requires |im.header| >= 24
  {
    match FirstIndex(im.cmds, OfType(cmd))
    case None => im
    case Some(i) => if |Flat(im.cmds)| < |im.cmds[i]| then im else Stripped(im, i)
  }

  /** The first command of each type in turn is dropped. */
  function StripAll(im: Image, types: seq<nat>): (r: Image)
    requires |im.header| >= 24
    ensures |r.header| >= 24
  {
    if types == [] then im else StripImage(StripAll(im, types[..|types| - 1]), types[|types| - 1])
  }

  /** Commands a loader does without, or that signing rebuilds. */
  function Reclaimable(): (r: seq<nat>)
    ensures forall k :: 0 <= k < |r| ==> r[k] in r
  {
    [LC_CODE_SIGNATURE, LC_FUNCTION_STARTS, LC_DATA_IN_CODE]
  }

  method ReclaimOne(bytes: seq<byte>, cmd: nat, ghost im: Image) returns (freed: nat, out: seq<byte>)
    requires WellFormed(im) && bytes == Encode(im)
    ensures WellFormed(StripImage(im, cmd)) && out == Encode(StripImage(im, cmd))
    ensures |Flat(im.cmds)| == |Flat(StripImage(im, cmd).cmds)| + freed
  {
    StripImageEncodes(im, cmd);
    var r: Result<nat, WriteError>;
    r, out := StripFirst(bytes, OfType(cmd));
    freed := r.value;
  }

  /** `reclaim_headerpad`: every byte freed is a byte the list got shorter. */
  method ReclaimHeaderpad(bytes: seq<byte>, ghost im: Image) returns (freed: nat, out: seq<byte>)
    requires WellFormed(im) && bytes == Encode(im)
    ensures WellFormed(StripAll(im, Reclaimable())) && out == Encode(StripAll(im, Reclaimable()))
    ensures |Flat(im.cmds)| == |Flat(StripAll(im, Reclaimable()).cmds)| + freed
  {
    freed, out := 0, bytes;
    ghost var cur := im;
    var types := Reclaimable();
    var k := 0;
    while k < |types|
      invariant k <= |types| && WellFormed(cur) && out == Encode(cur)
      invariant cur == StripAll(im, types[..k])
      invariant |Flat(im.cmds)| == |Flat(cur.cmds)| + freed
    {
      assert types[..k + 1][..k] == types[..k];
      var n: nat;
      n, out := ReclaimOne(out, types[k], cur);
      freed := freed + n;
      cur := StripImage(cur, types[k]);
      k := k + 1;
    }
    assert types[..k] == types;
  }

  lemma StripImageEncodes(im: Image, cmd: nat)
    requires WellFormed(im)
    ensures WellFormed(StripImage(im, cmd)) && ListFits(Encode(im))
    ensures |Flat(StripImage(im, cmd).cmds)| <= |Flat(im.cmds)|
    ensures Strip(Encode(im), OfType(cmd)) == Ok((|Flat(im.cmds)| - |Flat(StripImage(im, cmd).cmds)|, Encode(StripImage(im, cmd))))
  {
    var i := FirstIndex(im.cmds, OfType(cmd));
    if i.Some? {
      StripEncodes(im, OfType(cmd), i.value);
      StrippedWellFormed(im, i.value);
      FlatAround(im.cmds, i.value);
      FlatSum(im.cmds[..i.value], im.cmds[i.value + 1..]);
    } else {
      StripNothing(im, OfType(cmd));
    }
  }

  // ----- what the edits keep --------------------------------------------

  /** From offset `e` on the two files hold the same bytes, and both lists end before `e`. */
  ghost predicate KeepsFrom(a: Image, b: Image, e: nat) {
    && |a.header| == |b.header| == LC_START
    && LC_START + |Flat(a.cmds)| <= e && LC_START + |Flat(b.cmds)| <= e
    && |Encode(a)| == |Encode(b)| && e <= |Encode(a)| && Encode(a)[e..] == Encode(b)[e..]
  }

  lemma KeepsTrans(a: Image, b: Image, c: Image, e: nat)
    requires KeepsFrom(a, b, e) && KeepsFrom(b, c, e)
    ensures KeepsFrom(a, c, e)
  {}

  lemma TailOf(im: Image, e: nat)
    requires |im.header| + |Flat(im.cmds)| <= e <= |Encode(im)|
    ensures Encode(im)[e..] == im.rest[e - |im.header| - |Flat(im.cmds)|..]
  {}

  lemma StripImageKeeps(im: Image, cmd: nat, e: nat)
    requires WellFormed(im) && LC_START + |Flat(im.cmds)| <= e <= |Encode(im)|
    ensures KeepsFrom(im, StripImage(im, cmd), e) && WellFormed(StripImage(im, cmd))
  {
    StripImageEncodes(im, cmd);
    var now := StripImage(im, cmd);
    TailOf(im, e);
    TailOf(now, e);
    var i := FirstIndex(im.cmds, OfType(cmd));
    if i.Some? {
      FlatAround(im.cmds, i.value);
      FlatSum(im.cmds[..i.value], im.cmds[i.value + 1..]);
      DropZeros(im.rest, |im.cmds[i.value]|, e - LC_START - |Flat(im.cmds)|);
    }
  }

  lemma DropZeros(rest: seq<byte>, n: nat, k: nat)
    requires k <= |rest|
    ensures (Zeros(n) + rest)[n + k..] == rest[k..]
  {}

  lemma InjectedKeeps(im: Image, lcs: seq<seq<byte>>, e: nat)
    requires WellFormed(im) && |Flat(lcs)| <= |im.rest|
    requires LC_START + |Flat(im.cmds)| + |Flat(lcs)| <= e <= |Encode(im)|
    ensures KeepsFrom(im, Injected(im, lcs), e)
    ensures |Flat(Injected(im, lcs).cmds)| == |Flat(im.cmds)| + |Flat(lcs)|
  {
    var k := InsertIndex(im.cmds);
    FlatSplit(im.cmds, k);
    WithFlat(im.cmds, k, lcs);
    TailOf(im, e);
    TailOf(Injected(im, lcs), e);
    var n := |Flat(lcs)|;
    assert im.rest[n..][e - LC_START - |Flat(im.cmds)| - n..] == im.rest[e - LC_START - |Flat(im.cmds)|..];
  }

  lemma StripImageLists(im: Image, cmd: nat, c: seq<byte>)
    requires WellFormed(im) && c in im.cmds && TypeOf(c) != cmd
    ensures c in StripImage(im, cmd).cmds
  {
    var i := FirstIndex(im.cmds, OfType(cmd));
    if i.Some? && |Flat(im.cmds)| >= |im.cmds[i.value]| {
      FirstIndexHas(im.cmds, OfType(cmd));
      var j :| 0 <= j < |im.cmds| && im.cmds[j] == c;
      assert j != i.value;
      var now := Without(im.cmds, i.value);
      assert now[if j < i.value then j else j - 1] == c;
    }
  }

  lemma {:induction false} FirstIndexHas(cmds: seq<seq<byte>>, p: Test)
    ensures FirstIndex(cmds, p).Some? ==> p(TypeOf(cmds[FirstIndex(cmds, p).value]), cmds[FirstIndex(cmds, p).value])
    decreases |cmds|
  {
    if cmds != [] {
      FirstIndexHas(cmds[1..], p);
    }
  }

  lemma InjectedLists(im: Image, lcs: seq<seq<byte>>, c: seq<byte>)
    requires |im.header| >= 24 && |Flat(lcs)| <= |im.rest| && (c in im.cmds || c in lcs)
    ensures c in Injected(im, lcs).cmds
  {
    var k := InsertIndex(im.cmds);
    assert im.cmds == im.cmds[..k] + im.cmds[k..];
  }
}
