/** Moving the rebased pointers of a grown image, and what following one reaches. */
module RebaseShift {
  import opened Bytes
  import opened Growth
  import opened MachOLayout
  import opened RebaseOpcodes

  datatype ShiftError = NoTextSegment | SegmentOutOfRange(index: nat) | OutsideSegment(loc: RebaseLocation) | PastEnd

  /** What a pass over the locations leaves: the bytes, and the count or the error. */
  datatype Outcome = Outcome(bytes: seq<byte>, result: Result<nat, ShiftError>)

  // ----- one slot -------------------------------------------------------

  function Pointer(bytes: seq<byte>, at: nat): nat
    requires at + 8 <= |bytes|
  {
    FromLe(bytes[at..at + 8])
  }

  function ShiftSlot(bytes: seq<byte>, at: nat, growthVa: nat, delta: nat): (r: seq<byte>)
    requires at + 8 <= |bytes|
    ensures |r| == |bytes|
  {
    if Pointer(bytes, at) >= growthVa then bytes[..at] + Le(Pointer(bytes, at) + delta, 8) + bytes[at + 8..] else bytes
  }

  /** The slot a location names, in the grown image. */
  function SlotOf(segs: seq<Segment>, loc: RebaseLocation, gp: nat, delta: nat): Result<nat, ShiftError> {
    if loc.segment >= |segs| then Err(SegmentOutOfRange(loc.segment))
    else if loc.offset + POINTER_SIZE > segs[loc.segment].filesize then Err(OutsideSegment(loc))
    else Ok(Psi(segs[loc.segment].fileoff + loc.offset, gp, delta))
  }

  /** One location: the new bytes and count, or the error that stops the pass. */
  function ShiftOne(bytes: seq<byte>, segs: seq<Segment>, loc: RebaseLocation, gp: nat, growthVa: nat, delta: nat, count: nat): Result<(seq<byte>, nat), ShiftError> {
    match SlotOf(segs, loc, gp, delta)
    case Err(e) => Err(e)
    case Ok(at) =>
      if at + 8 > |bytes| then Err(PastEnd)
      else Ok((ShiftSlot(bytes, at, growthVa, delta), if Pointer(bytes, at) >= growthVa then count + 1 else count))
  }

  function ShiftFrom(bytes: seq<byte>, segs: seq<Segment>, locs: seq<RebaseLocation>, gp: nat, growthVa: nat, delta: nat, count: nat): Outcome
    decreases |locs|
  {
    if locs == [] then Outcome(bytes, Ok(count))
    else
      match ShiftOne(bytes, segs, locs[0], gp, growthVa, delta, count)
      case Err(e) => Outcome(bytes, Err(e))
      case Ok((next, n)) => ShiftFrom(next, segs, locs[1..], gp, growthVa, delta, n)
  }

  function FindText(segs: seq<Segment>, gp: nat): (r: Option<Segment>)
    ensures r.Some? ==> Straddles(r.value, gp)
  {
    if segs == [] then None
    else if segs[0].filesize > 0 && Straddles(segs[0], gp) then Some(segs[0])
    else FindText(segs[1..], gp)
  }

  function ShiftPointers(bytes: seq<byte>, segs: seq<Segment>, locs: seq<RebaseLocation>, gp: nat, delta: nat): Outcome {
    match FindText(segs, gp)
    case None => Outcome(bytes, Err(NoTextSegment))
    case Some(text) => ShiftFrom(bytes, segs, locs, gp, GrowthVa(text, gp), delta, 0)
  }

  method FirstText(segs: seq<Segment>, gp: nat) returns (r: Option<Segment>)
    ensures r == FindText(segs, gp)
  {
    var k := 0;
    while k < |segs|
      invariant k <= |segs| && FindText(segs, gp) == FindText(segs[k..], gp)
    {
      assert segs[k..][1..] == segs[k + 1..];
      if segs[k].filesize > 0 && segs[k].fileoff <= gp && gp < segs[k].fileoff + segs[k].filesize {
        return Some(segs[k]);
      }
      k := k + 1;
    }
    return None;
  }

  /** Overwrites eight bytes in place. */
  method StoreWord(image: array<byte>, at: nat, word: seq<byte>)
    requires |word| == 8 && at + 8 <= image.Length
    modifies image
    ensures image[..] == old(image[..at]) + word + old(image[at + 8..])
  {
    forall i | 0 <= i < 8 {
      image[at + i] := word[i];
    }
  }

  /** The body of the location loop, in place. */
  method ShiftOneInPlace(image: array<byte>, segs: seq<Segment>, loc: RebaseLocation, gp: nat, growthVa: nat, delta: nat, count: nat)
    returns (r: Result<nat, ShiftError>)
    modifies image
    ensures r.Err? ==> ShiftOne(old(image[..]), segs, loc, gp, growthVa, delta, count) == Err(r.error) && image[..] == old(image[..])
    ensures r.Ok? ==> ShiftOne(old(image[..]), segs, loc, gp, growthVa, delta, count) == Ok((image[..], r.value))
  {
    if loc.segment >= |segs| {
      return Err(SegmentOutOfRange(loc.segment));
    }
    var seg := segs[loc.segment];
    if loc.offset + POINTER_SIZE > seg.filesize {
      return Err(OutsideSegment(loc));
    }
    var original := seg.fileoff + loc.offset;
    var at := if original >= gp then original + delta else original;
    if at + 8 > image.Length {
      return Err(PastEnd);
    }
    var value := FromLe(image[at..at + 8]);
    assert image[..][at..at + 8] == image[at..at + 8];
    if value >= growthVa {
      StoreWord(image, at, Le(value + delta, 8));
      return Ok(count + 1);
    }
    return Ok(count);
  }

  /** `shift_rebased_pointers`, in place on the grown image. */
  method ShiftRebasedPointers(image: array<byte>, segs: seq<Segment>, locs: seq<RebaseLocation>, gp: nat, delta: nat)
    returns (r: Result<nat, ShiftError>)
    modifies image
    ensures Outcome(image[..], r) == ShiftPointers(old(image[..]), segs, locs, gp, delta)
  {
    var text := FirstText(segs, gp);
    if text.None? {
      return Err(NoTextSegment);
    }
    var growthVa := text.value.vmaddr + (gp - text.value.fileoff);
    var shifted, k := 0, 0;
    ghost var goal := ShiftFrom(image[..], segs, locs, gp, growthVa, delta, 0);
    assert locs[0..] == locs;
    while k < |locs|
      invariant k <= |locs|
      invariant ShiftFrom(image[..], segs, locs[k..], gp, growthVa, delta, shifted) == goal
    {
      assert locs[k..][1..] == locs[k + 1..];
      var one := ShiftOneInPlace(image, segs, locs[k], gp, growthVa, delta, shifted);
      if one.Err? {
        return Err(one.error);
      }
      shifted := one.value;
      k := k + 1;
    }
    return Ok(shifted);
  }

  // ----- what the pass does to a slot -----------------------------------

  ghost predicate Valid(segs: seq<Segment>, locs: seq<RebaseLocation>, gp: nat, delta: nat, size: nat) {
    forall i :: 0 <= i < |locs| ==> SlotOf(segs, locs[i], gp, delta).Ok? && SlotOf(segs, locs[i], gp, delta).value + 8 <= size
  }

  /** The pass succeeds exactly when every location names a slot of the image. */
  lemma {:induction false} SucceedsWhenValid(bytes: seq<byte>, segs: seq<Segment>, locs: seq<RebaseLocation>, gp: nat, va: nat, delta: nat, n: nat)
    ensures ShiftFrom(bytes, segs, locs, gp, va, delta, n).result.Ok? <==> Valid(segs, locs, gp, delta, |bytes|)
    ensures |ShiftFrom(bytes, segs, locs, gp, va, delta, n).bytes| == |bytes|
    decreases |locs|
  {
    if locs != [] {
      var slot := SlotOf(segs, locs[0], gp, delta);
      if slot.Ok? && slot.value + 8 <= |bytes| {
        SucceedsWhenValid(ShiftSlot(bytes, slot.value, va, delta), segs, locs[1..], gp, va, delta,
                          if Pointer(bytes, slot.value) >= va then n + 1 else n);
        assert Valid(segs, locs, gp, delta, |bytes|) <==> Valid(segs, locs[1..], gp, delta, |bytes|) by {
          assert forall i :: 0 < i < |locs| ==> locs[i] == locs[1..][i - 1];
        }
      }
    }
  }

  ghost predicate SameOrApart(a: nat, b: nat) { a == b || a + 8 <= b || b + 8 <= a }

  /** `p` coincides with or is disjoint from every slot named. */
  ghost predicate Separate(segs: seq<Segment>, locs: seq<RebaseLocation>, gp: nat, delta: nat, p: nat) {
    forall i :: 0 <= i < |locs| && SlotOf(segs, locs[i], gp, delta).Ok? ==> SameOrApart(SlotOf(segs, locs[i], gp, delta).value, p)
  }

  /** How often slot `p` is named. */
  function Mentions(segs: seq<Segment>, locs: seq<RebaseLocation>, gp: nat, delta: nat, p: nat): nat {
    if locs == [] then 0
    else Mentions(segs, locs[1..], gp, delta, p) + if SlotOf(segs, locs[0], gp, delta) == Ok(p) then 1 else 0
  }

  lemma ShiftSlotPointer(bytes: seq<byte>, at: nat, va: nat, delta: nat, p: nat)
    requires at + 8 <= |bytes| && p + 8 <= |bytes| && SameOrApart(at, p) && Pointer(bytes, at) + delta < U64_LIMIT
    ensures Pointer(ShiftSlot(bytes, at, va, delta), p) == if at == p then Phi(Pointer(bytes, p), va, delta) else Pointer(bytes, p)
  {
    var now := ShiftSlot(bytes, at, va, delta);
    if Pointer(bytes, at) >= va {
      if at == p {
        assert now[at..at + 8] == Le(Pointer(bytes, at) + delta, 8);
        Pow256Values();
        FromLeOfLe(Pointer(bytes, at) + delta, 8);
      } else {
        assert now[p..p + 8] == bytes[p..p + 8];
      }
    }
  }

  /** Each mention of a slot whose pointer targets the moved range adds `delta` once more. */
  function ShiftedBy(v: nat, va: nat, delta: nat, n: nat): nat { if v >= va then v + n * delta else v }

  lemma ShiftedByStep(v: nat, va: nat, delta: nat, n: nat)
    ensures ShiftedBy(Phi(v, va, delta), va, delta, n) == ShiftedBy(v, va, delta, n + 1)
    ensures ShiftedBy(v, va, delta, 0) == v && Phi(v, va, delta) <= ShiftedBy(v, va, delta, n + 1)
  {
    assert (n + 1) * delta == n * delta + delta;
    assert n * delta >= 0;
  }

  /** The pointer at a slot that meets every named slot wholly or not at all. */
  lemma {:induction false} PassPointer(bytes: seq<byte>, segs: seq<Segment>, locs: seq<RebaseLocation>, gp: nat, va: nat, delta: nat, n: nat, p: nat)
    requires Valid(segs, locs, gp, delta, |bytes|) && p + 8 <= |bytes|
    requires forall i :: 0 <= i < |locs| ==> Separate(segs, locs, gp, delta, SlotOf(segs, locs[i], gp, delta).value)
    requires Separate(segs, locs, gp, delta, p)
    requires Fitting(bytes, segs, locs, gp, delta)
    ensures var done := ShiftFrom(bytes, segs, locs, gp, va, delta, n).bytes;
            |done| == |bytes| && Pointer(done, p) == ShiftedBy(Pointer(bytes, p), va, delta, Mentions(segs, locs, gp, delta, p))
    decreases |locs|
  {
    hide Pointer, ShiftSlot, Phi, ShiftedBy, Fitting;
    SucceedsWhenValid(bytes, segs, locs, gp, va, delta, n);
    if locs == [] {
      ShiftedByStep(Pointer(bytes, p), va, delta, 0);
    } else {
      var at := SlotOf(segs, locs[0], gp, delta).value;
      FittingStep(bytes, segs, locs, gp, delta, va);
      var next := ShiftSlot(bytes, at, va, delta);
      ShiftSlotPointer(bytes, at, va, delta, p);
      TailSeparate(segs, locs, gp, delta, |bytes|, p);
      PassPointer(next, segs, locs[1..], gp, va, delta, if Pointer(bytes, at) >= va then n + 1 else n, p);
      ShiftedByStep(Pointer(bytes, p), va, delta, Mentions(segs, locs[1..], gp, delta, p));
    }
  }

  lemma TailSeparate(segs: seq<Segment>, locs: seq<RebaseLocation>, gp: nat, delta: nat, size: nat, p: nat)
    requires locs != [] && Valid(segs, locs, gp, delta, size) && Separate(segs, locs, gp, delta, p)
    requires forall i :: 0 <= i < |locs| ==> Separate(segs, locs, gp, delta, SlotOf(segs, locs[i], gp, delta).value)
    ensures Valid(segs, locs[1..], gp, delta, size) && Separate(segs, locs[1..], gp, delta, p)
    ensures forall i :: 0 <= i < |locs[1..]| ==> Separate(segs, locs[1..], gp, delta, SlotOf(segs, locs[1..][i], gp, delta).value)
  {
    assert forall i :: 0 <= i < |locs[1..]| ==> locs[1..][i] == locs[i + 1];
    forall i | 0 <= i < |locs[1..]| ensures Separate(segs, locs[1..], gp, delta, SlotOf(segs, locs[1..][i], gp, delta).value) {
      assert Separate(segs, locs, gp, delta, SlotOf(segs, locs[i + 1], gp, delta).value);
    }
  }

  /** No named pointer leaves 64 bits, however often it is moved. */
  ghost predicate Fitting(bytes: seq<byte>, segs: seq<Segment>, locs: seq<RebaseLocation>, gp: nat, delta: nat) {
    forall i :: 0 <= i < |locs| ==> FitsAt(bytes, segs, locs, gp, delta, SlotOf(segs, locs[i], gp, delta))
  }

  ghost predicate FitsAt(bytes: seq<byte>, segs: seq<Segment>, locs: seq<RebaseLocation>, gp: nat, delta: nat, slot: Result<nat, ShiftError>) {
    slot.Ok? && slot.value + 8 <= |bytes| ==>
      Pointer(bytes, slot.value) + Mentions(segs, locs, gp, delta, slot.value) * delta < U64_LIMIT
  }

  lemma {:induction false} MentionedOnce(segs: seq<Segment>, locs: seq<RebaseLocation>, gp: nat, delta: nat, i: nat)
    requires i < |locs| && SlotOf(segs, locs[i], gp, delta).Ok?
    ensures Mentions(segs, locs, gp, delta, SlotOf(segs, locs[i], gp, delta).value) >= 1
    decreases |locs|
  {
    if i > 0 {
      MentionedOnce(segs, locs[1..], gp, delta, i - 1);
    }
  }

  lemma TimesDelta(k: nat, delta: nat)
    ensures (k + 1) * delta == k * delta + delta && k * delta >= 0
  {}

  lemma FittingStep(bytes: seq<byte>, segs: seq<Segment>, locs: seq<RebaseLocation>, gp: nat, delta: nat, va: nat)
    requires locs != [] && Valid(segs, locs, gp, delta, |bytes|) && Fitting(bytes, segs, locs, gp, delta)
    requires forall i :: 0 <= i < |locs| ==> Separate(segs, locs, gp, delta, SlotOf(segs, locs[i], gp, delta).value)
    ensures Pointer(bytes, SlotOf(segs, locs[0], gp, delta).value) + delta < U64_LIMIT
    ensures Fitting(ShiftSlot(bytes, SlotOf(segs, locs[0], gp, delta).value, va, delta), segs, locs[1..], gp, delta)
  {
    var at := SlotOf(segs, locs[0], gp, delta).value;
    var next := ShiftSlot(bytes, at, va, delta);
    assert FitsAt(bytes, segs, locs, gp, delta, SlotOf(segs, locs[0], gp, delta));
    TimesDelta(Mentions(segs, locs[1..], gp, delta, at), delta);
    forall i | 0 <= i < |locs[1..]| ensures FitsAt(next, segs, locs[1..], gp, delta, SlotOf(segs, locs[1..][i], gp, delta)) {
      assert locs[1..][i] == locs[i + 1];
      var p := SlotOf(segs, locs[i + 1], gp, delta);
      assert FitsAt(bytes, segs, locs, gp, delta, p);
      assert Separate(segs, locs, gp, delta, p.value);
      ShiftSlotPointer(bytes, at, va, delta, p.value);
    }
  }

  // ----- the pass, slot by slot -----------------------------------------

  /** Named slots are pairwise disjoint or identical. */
  ghost predicate Apart(segs: seq<Segment>, locs: seq<RebaseLocation>, gp: nat, delta: nat)
  {
    forall i :: 0 <= i < |locs| && SlotOf(segs, locs[i], gp, delta).Ok? ==> Separate(segs, locs, gp, delta, SlotOf(segs, locs[i], gp, delta).value)
  }

  /** A named pointer gains `delta` exactly once, as it should, exactly when it does not
      target the moved range or its slot is named only once: a slot listed twice moves twice. */
  lemma NamedPointer(bytes: seq<byte>, segs: seq<Segment>, locs: seq<RebaseLocation>, gp: nat, va: nat, delta: nat, i: nat)
    requires delta > 0 && Valid(segs, locs, gp, delta, |bytes|) && Apart(segs, locs, gp, delta) && Fitting(bytes, segs, locs, gp, delta)
    requires i < |locs|
    ensures var done, p := ShiftFrom(bytes, segs, locs, gp, va, delta, 0).bytes, SlotOf(segs, locs[i], gp, delta).value;
            && |done| == |bytes|
            && (Pointer(done, p) == Phi(Pointer(bytes, p), va, delta)
                <==> Pointer(bytes, p) < va || Mentions(segs, locs, gp, delta, p) == 1)
  {
    var p := SlotOf(segs, locs[i], gp, delta).value;
    PassPointer(bytes, segs, locs, gp, va, delta, 0, p);
    MentionedOnce(segs, locs, gp, delta, i);
    hide *;
    GainedOnce(Pointer(bytes, p), va, delta, Mentions(segs, locs, gp, delta, p));
  }

  lemma GainedOnce(v: nat, va: nat, delta: nat, n: nat)
    requires n > 0 && delta > 0
    ensures ShiftedBy(v, va, delta, n) == Phi(v, va, delta) <==> v < va || n == 1
  {
    ShiftedByStep(v, va, delta, n - 1);
    if n > 1 {
      TimesDelta(n - 1, delta);
      TimesDelta(n - 2, delta);
    }
  }

  ghost predicate InSomeSlot(segs: seq<Segment>, locs: seq<RebaseLocation>, gp: nat, delta: nat, b: nat) {
    exists i :: 0 <= i < |locs| && SlotOf(segs, locs[i], gp, delta).Ok? && SlotOf(segs, locs[i], gp, delta).value <= b < SlotOf(segs, locs[i], gp, delta).value + 8
  }

  /** A byte outside every named slot keeps its value. */
  lemma {:induction false} PassKeeps(bytes: seq<byte>, segs: seq<Segment>, locs: seq<RebaseLocation>, gp: nat, va: nat, delta: nat, n: nat, b: nat)
    requires b < |bytes| && !InSomeSlot(segs, locs, gp, delta, b)
    ensures var done := ShiftFrom(bytes, segs, locs, gp, va, delta, n).bytes;
            |done| == |bytes| && done[b] == bytes[b]
    decreases |locs|
  {
    if locs != [] {
      var slot := SlotOf(segs, locs[0], gp, delta);
      if slot.Ok? && slot.value + 8 <= |bytes| {
        var next := ShiftSlot(bytes, slot.value, va, delta);
        assert next[b] == bytes[b];
        forall i | 0 <= i < |locs[1..]| && SlotOf(segs, locs[1..][i], gp, delta).Ok?
          ensures !(SlotOf(segs, locs[1..][i], gp, delta).value <= b < SlotOf(segs, locs[1..][i], gp, delta).value + 8)
        {
          assert locs[1..][i] == locs[i + 1];
        }
        PassKeeps(next, segs, locs[1..], gp, va, delta, if Pointer(bytes, slot.value) >= va then n + 1 else n, b);
      }
    }
  }

  // ----- the grown file -------------------------------------------------

  /** `delta` zero bytes inserted at `gp`, then `payload` written at `at`. */
  function GrownFile(raw: seq<byte>, gp: nat, delta: nat, at: nat, payload: seq<byte>): (r: seq<byte>)
    requires gp <= |raw| && at + |payload| <= gp + delta
    ensures |r| == |raw| + delta
  {
    var spliced := raw[..gp] + seq(delta, (_: nat) => 0 as byte) + raw[gp..];
    spliced[..at] + payload + spliced[at + |payload|..]
  }

  /** Every original byte stands at its moved offset, as long as the payload stays inside
      the inserted range. */
  lemma OriginalByte(raw: seq<byte>, gp: nat, delta: nat, at: nat, payload: seq<byte>, o: nat)
    requires gp <= |raw| && gp <= at && at + |payload| <= gp + delta && o < |raw|
    ensures Psi(o, gp, delta) < |raw| + delta && GrownFile(raw, gp, delta, at, payload)[Psi(o, gp, delta)] == raw[o]
  {}

  lemma OriginalWord(raw: seq<byte>, gp: nat, delta: nat, at: nat, payload: seq<byte>, o: nat)
    requires gp <= |raw| && gp <= at && at + |payload| <= gp + delta && o + 8 <= |raw| && (o + 8 <= gp || gp <= o)
    ensures Psi(o, gp, delta) + 8 <= |raw| + delta
    ensures Pointer(GrownFile(raw, gp, delta, at, payload), Psi(o, gp, delta)) == Pointer(raw, o)
  {
    var grown, p := GrownFile(raw, gp, delta, at, payload), Psi(o, gp, delta);
    var now, was := grown[p..p + 8], raw[o..o + 8];
    forall i | 0 <= i < 8 ensures now[i] == was[i] {
      OriginalByte(raw, gp, delta, at, payload, o + i);
    }
    assert now == was;
  }

  /** The insertion and the payload copy, with the rewriter's checks. */
  method GrowFile(raw: seq<byte>, gp: nat, delta: nat, at: nat, payload: seq<byte>) returns (r: Option<array<byte>>)
    ensures r.Some? <==> delta > 0 && gp <= |raw| && at + |payload| <= gp + delta
    ensures r.Some? ==> fresh(r.value) && r.value[..] == GrownFile(raw, gp, delta, at, payload)
  {
    if delta == 0 || gp > |raw| || at + |payload| > gp + delta {
      return None;
    }
    var image := new byte[|raw| + delta](i requires 0 <= i < |raw| + delta =>
      if i < gp then raw[i] else if i < gp + delta then 0 else raw[i - delta]);
    ghost var spliced := raw[..gp] + seq(delta, (_: nat) => 0 as byte) + raw[gp..];
    assert image[..] == spliced;
    forall i | 0 <= i < |payload| {
      image[at + i] := payload[i];
    }
    assert image[..] == spliced[..at] + payload + spliced[at + |payload|..];
    return Some(image);
  }

  // ----- growth preserves dereferencing ---------------------------------

  function Segments(cmds: seq<SegmentCommand>): (r: seq<Segment>)
    ensures |r| == |cmds| && forall k :: 0 <= k < |cmds| ==> r[k] == cmds[k].seg
  {
    seq(|cmds|, (k: nat) requires k < |cmds| => cmds[k].seg)
  }

  lemma {:induction false} FindTextIs(segs: seq<Segment>, t: nat, gp: nat)
    requires t < |segs| && forall k :: 0 <= k < |segs| ==> (Straddles(segs[k], gp) <==> k == t)
    ensures FindText(segs, gp) == Some(segs[t])
  {
    if t > 0 {
      assert !Straddles(segs[0], gp);
      assert forall k :: 0 <= k < |segs[1..]| ==> segs[1..][k] == segs[k + 1];
      FindTextIs(segs[1..], t - 1, gp);
    }
  }

  lemma TextFound(cmds: seq<SegmentCommand>, t: nat, gp: nat, delta: nat)
    requires WellFormed(cmds, t, gp, delta)
    ensures FindText(Segments(cmds), gp) == Some(cmds[t].seg)
  {
    forall k | 0 <= k < |cmds| ensures Straddles(Segments(cmds)[k], gp) <==> k == t {
      OnlyTextStraddles(cmds, t, gp, delta, k);
    }
    FindTextIs(Segments(cmds), t, gp);
  }

  /** The pass runs over a grown file: each location names a slot of it, slots coincide or
      are disjoint, and no pointer overflows. */
  ghost predicate Rebasable(grown: seq<byte>, segs: seq<Segment>, locs: seq<RebaseLocation>, gp: nat, delta: nat) {
    && Valid(segs, locs, gp, delta, |grown|) && Apart(segs, locs, gp, delta)
    && Fitting(grown, segs, locs, gp, delta)
  }

  /** The pointer a location names moves with its slot: at the moved offset stands the moved
      pointer, unless it targets the moved range and its slot is named more than once. */
  lemma SlotHoldsMovedPointer(raw: seq<byte>, cmds: seq<SegmentCommand>, t: nat, gp: nat, delta: nat, at: nat, payload: seq<byte>,
                              locs: seq<RebaseLocation>, i: nat)
    requires delta > 0 && gp <= |raw| && gp <= at && at + |payload| <= gp + delta && WellFormed(cmds, t, gp, delta)
    requires Rebasable(GrownFile(raw, gp, delta, at, payload), Segments(cmds), locs, gp, delta)
    requires i < |locs| && locs[i].segment < |cmds|
    requires var o := cmds[locs[i].segment].seg.fileoff + locs[i].offset;
             o + 8 <= |raw| && (o + 8 <= gp || gp <= o)
    ensures var o, va := cmds[locs[i].segment].seg.fileoff + locs[i].offset, GrowthVa(cmds[t].seg, gp);
            var done := ShiftPointers(GrownFile(raw, gp, delta, at, payload), Segments(cmds), locs, gp, delta);
            && done.result.Ok? && Psi(o, gp, delta) + 8 <= |done.bytes|
            && (Pointer(done.bytes, Psi(o, gp, delta)) == Phi(Pointer(raw, o), va, delta)
                <==> Pointer(raw, o) < va || Mentions(Segments(cmds), locs, gp, delta, Psi(o, gp, delta)) == 1)
  {
    hide Pointer, ShiftFrom, Mentions, Phi, Fitting, Apart, GrownFile, FindText, Separate;
    var grown := GrownFile(raw, gp, delta, at, payload);
    TextFound(cmds, t, gp, delta);
    var va := GrowthVa(cmds[t].seg, gp);
    SucceedsWhenValid(grown, Segments(cmds), locs, gp, va, delta, 0);
    NamedPointer(grown, Segments(cmds), locs, gp, va, delta, i);
    OriginalWord(raw, gp, delta, at, payload, cmds[locs[i].segment].seg.fileoff + locs[i].offset);
  }

  /** Following a moved pointer through the patched section table reaches the moved file
      offset and the same byte, unless that byte belongs to a rebased slot itself. */
  lemma MovedPointerReaches(raw: seq<byte>, cmds: seq<SegmentCommand>, t: nat, gp: nat, delta: nat, at: nat, payload: seq<byte>,
                            locs: seq<RebaseLocation>, v: nat, q: nat)
    requires gp <= |raw| && gp <= at && at + |payload| <= gp + delta && WellFormed(cmds, t, gp, delta)
    requires FileOffsetFor(AllSections(cmds), v) == Some(q) && q < |raw|
    ensures var done := ShiftPointers(GrownFile(raw, gp, delta, at, payload), Segments(cmds), locs, gp, delta).bytes;
            var there := FileOffsetFor(AllSections(Grown(cmds, gp, delta)), Phi(v, GrowthVa(cmds[t].seg, gp), delta));
            && there == Some(Psi(q, gp, delta)) && there.value < |done|
            && (!InSomeSlot(Segments(cmds), locs, gp, delta, there.value) ==> done[there.value] == raw[q])
  {
    var grown := GrownFile(raw, gp, delta, at, payload);
    var va := GrowthVa(cmds[t].seg, gp);
    LookupCommutes(cmds, t, gp, delta, v);
    TextFound(cmds, t, gp, delta);
    OriginalByte(raw, gp, delta, at, payload, q);
    SucceedsWhenValid(grown, Segments(cmds), locs, gp, va, delta, 0);
    if !InSomeSlot(Segments(cmds), locs, gp, delta, Psi(q, gp, delta)) {
      PassKeeps(grown, Segments(cmds), locs, gp, va, delta, 0, Psi(q, gp, delta));
    }
  }

  /** The opcodes are not rewritten: in the patched segment table a location still names its
      moved slot exactly when it does not lie in the text segment past the growth point. */
  lemma LocationStillNames(cmds: seq<SegmentCommand>, t: nat, gp: nat, delta: nat, loc: RebaseLocation)
    requires delta > 0 && WellFormed(cmds, t, gp, delta)
    requires loc.segment < |cmds| && loc.offset + POINTER_SIZE <= cmds[loc.segment].seg.filesize
    ensures var seg, now := cmds[loc.segment].seg, Grown(cmds, gp, delta)[loc.segment].seg;
            now.fileoff + loc.offset == Psi(seg.fileoff + loc.offset, gp, delta)
            <==> loc.segment != t || seg.fileoff + loc.offset < gp
  {
    GrownSegment(cmds, t, gp, delta, loc.segment);
  }

  /** A slot in the text segment behind the growth point: the untouched location names bytes
      `delta` short of it. */
  lemma StaleLocation()
    ensures var text := Segment("__TEXT", 0x10000, 0x4000, 0, 0x4000);
            var cmds, loc := [SegmentCommand(text, [])], RebaseLocation(0, 0x2000);
            && WellFormed(cmds, 0, 0x1000, 0x4000) && loc.offset + POINTER_SIZE <= text.filesize
            && Grown(cmds, 0x1000, 0x4000)[0].seg.fileoff + loc.offset == 0x2000 && Psi(text.fileoff + loc.offset, 0x1000, 0x4000) == 0x6000
  {
    var cmds := [SegmentCommand(Segment("__TEXT", 0x10000, 0x4000, 0, 0x4000), [])];
    GrownSegment(cmds, 0, 0x1000, 0x4000, 0);
  }

  /** A slot in front of the growth point, listed twice, holds a pointer to that point: after
      growing by 16 the pointer should hold 24 and holds 40. */
  lemma ListedTwice()
    ensures var cmds, loc := [SegmentCommand(Segment("__TEXT", 0, 16, 0, 16), [])], RebaseLocation(0, 0);
            var raw: seq<byte> := [8, 0, 0, 0, 0, 0, 0, 0, 0, 0, 0, 0, 0, 0, 0, 0];
            var grown := GrownFile(raw, 8, 16, 8, []);
            && WellFormed(cmds, 0, 8, 16) && Rebasable(grown, Segments(cmds), [loc, loc], 8, 16)
            && Pointer(raw, 0) == 8 && Phi(8, GrowthVa(cmds[0].seg, 8), 16) == 24
            && var done := ShiftPointers(grown, Segments(cmds), [loc, loc], 8, 16);
               done.result.Ok? && |done.bytes| == 32 && Pointer(done.bytes, 0) == 40
  {
    var cmds, loc := [SegmentCommand(Segment("__TEXT", 0, 16, 0, 16), [])], RebaseLocation(0, 0);
    var raw: seq<byte> := [8, 0, 0, 0, 0, 0, 0, 0, 0, 0, 0, 0, 0, 0, 0, 0];
    var grown := GrownFile(raw, 8, 16, 8, []);
    EightReads(raw);
    OriginalWord(raw, 8, 16, 8, [], 0);
    TextFound(cmds, 0, 8, 16);
    hide Pointer, Mentions, GrownFile, ShiftFrom, Rebasable, FindText;
    TwiceShifted(grown, Segments(cmds), loc, 8, 8, 16, 0);
    TwiceRebasable(grown, Segments(cmds), loc, 8, 16, 0);
  }

  lemma TwiceRebasable(bytes: seq<byte>, segs: seq<Segment>, loc: RebaseLocation, gp: nat, delta: nat, at: nat)
    requires SlotOf(segs, loc, gp, delta) == Ok(at) && at + 8 <= |bytes| && Pointer(bytes, at) + 2 * delta < U64_LIMIT
    requires Mentions(segs, [loc, loc], gp, delta, at) == 2
    ensures Rebasable(bytes, segs, [loc, loc], gp, delta)
  {
    hide Pointer, Mentions, SlotOf;
  }

  /** A pass over one location given twice, its pointer in the moved range both times. */
  lemma TwiceShifted(bytes: seq<byte>, segs: seq<Segment>, loc: RebaseLocation, gp: nat, va: nat, delta: nat, at: nat)
    requires SlotOf(segs, loc, gp, delta) == Ok(at) && at + 8 <= |bytes|
    requires va <= Pointer(bytes, at) && Pointer(bytes, at) + 2 * delta < U64_LIMIT
    ensures Mentions(segs, [loc, loc], gp, delta, at) == 2
    ensures var done := ShiftFrom(bytes, segs, [loc, loc], gp, va, delta, 0);
            done.result.Ok? && |done.bytes| == |bytes| && Pointer(done.bytes, at) == Pointer(bytes, at) + 2 * delta
  {
    var once := ShiftSlot(bytes, at, va, delta);
    ShiftSlotPointer(bytes, at, va, delta, at);
    ShiftSlotPointer(once, at, va, delta, at);
    hide Pointer, ShiftSlot;
    assert [loc, loc][1..] == [loc] && [loc][1..] == [];
    assert Mentions(segs, [loc], gp, delta, at) == 1;
    assert ShiftFrom(once, segs, [loc], gp, va, delta, 1) == Outcome(ShiftSlot(once, at, va, delta), Ok(2));
    assert ShiftFrom(bytes, segs, [loc, loc], gp, va, delta, 0) == ShiftFrom(once, segs, [loc], gp, va, delta, 1);
  }

  lemma EightReads(bytes: seq<byte>)
    requires bytes == [8, 0, 0, 0, 0, 0, 0, 0, 0, 0, 0, 0, 0, 0, 0, 0]
    ensures Pointer(bytes, 0) == 8
  {
    assert bytes[0..8] == Le(8, 8) by {
      assert Le(0, 7) == [0, 0, 0, 0, 0, 0, 0] by {
        assert Le(0, 3) == [0, 0, 0];
        assert Le(0, 5) == [0, 0] + Le(0, 3);
      }
    }
    Pow256Values();
    FromLeOfLe(8, 8);
  }
}
