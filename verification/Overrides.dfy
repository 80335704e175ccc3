/** Byte overrides staged for an output file. */
module Overrides {
  import opened Bytes
  import opened MachOLayout

  /** A file offset and the bytes to put there. */
  type Patch = (nat, seq<byte>)

  predicate Fits(p: Patch, size: nat) { p.0 + |p.1| <= size }

  ghost predicate Apart(p: Patch, q: Patch) { p.0 + |p.1| <= q.0 || q.0 + |q.1| <= p.0 }

  ghost predicate AllApart(ps: seq<Patch>) {
    forall i, j :: 0 <= i < j < |ps| ==> ps[i] == ps[j] || Apart(ps[i], ps[j])
  }

  ghost predicate Touched(ps: seq<Patch>, i: nat) {
    exists p :: p in ps && p.0 <= i < p.0 + |p.1|
  }

  /** `out` after one patch. */
  function Patched(out: seq<byte>, p: Patch): (r: seq<byte>)
    requires Fits(p, |out|)
    ensures |r| == |out|
  {
    out[..p.0] + p.1 + out[p.0 + |p.1|..]
  }

  /** The patches applied in order; `Err(k)` names the first that does not fit. */
  function PatchAll(out: seq<byte>, ps: seq<Patch>, k: nat): (r: Result<seq<byte>, nat>)
    requires k <= |ps|
    ensures r.Ok? ==> |r.value| == |out|
    decreases |ps| - k
  {
    if k == |ps| then Ok(out)
    else if !Fits(ps[k], |out|) then Err(k)
    else PatchAll(Patched(out, ps[k]), ps, k + 1)
  }

  /** `apply_raw_byte_overrides`. */
  method ApplyRawByteOverrides(out: array<byte>, ps: seq<Patch>) returns (r: Result<(), nat>)
    modifies out
    ensures r.Ok? ==> PatchAll(old(out[..]), ps, 0) == Ok(out[..])
    ensures r.Err? ==> PatchAll(old(out[..]), ps, 0) == Err(r.error)
  {
    var k := 0;
    while k < |ps|
      invariant k <= |ps| && PatchAll(out[..], ps, k) == PatchAll(old(out[..]), ps, 0)
    {
      var (at, payload) := ps[k];
      if at + |payload| > out.Length {
        return Err(k);
      }
      ghost var before := out[..];
      forall i | 0 <= i < |payload| {
        out[at + i] := payload[i];
      }
      assert out[..] == Patched(before, ps[k]);
      k := k + 1;
    }
    return Ok(());
  }

  lemma PatchStands(out: seq<byte>, p: Patch)
    requires Fits(p, |out|)
    ensures HasAt(Patched(out, p), p.0, p.1)
  {
    HasAtMiddle(out[..p.0], p.1, out[p.0 + |p.1|..]);
  }

  lemma PatchKeeps(out: seq<byte>, p: Patch, at: nat, s: seq<byte>)
    requires Fits(p, |out|) && HasAt(out, at, s) && (p.0 + |p.1| <= at || at + |s| <= p.0)
    ensures HasAt(Patched(out, p), at, s)
  {
    var now := Patched(out, p);
    forall i | 0 <= i < |s| ensures now[at..at + |s|][i] == s[i] {
      HasAtIndex(out, at, s, i);
      assert now[at + i] == out[at + i];
    }
  }

  /** Patches apart from one another all stand in the result, in whatever order they came. */
  lemma {:induction false} PatchesStand(out: seq<byte>, ps: seq<Patch>, k: nat)
    requires k <= |ps| && AllApart(ps) && PatchAll(out, ps, k).Ok? && forall j :: 0 <= j < k ==> HasAt(out, ps[j].0, ps[j].1)
    ensures forall p :: p in ps ==> HasAt(PatchAll(out, ps, k).value, p.0, p.1)
    decreases |ps| - k
  {
    if k < |ps| {
      var next := Patched(out, ps[k]);
      PatchStands(out, ps[k]);
      forall j | 0 <= j < k + 1 ensures HasAt(next, ps[j].0, ps[j].1) {
        if j < k && ps[j] != ps[k] {
          assert Apart(ps[j], ps[k]);
          PatchKeeps(out, ps[k], ps[j].0, ps[j].1);
        }
      }
      hide HasAt, Patched;
      PatchesStand(next, ps, k + 1);
    }
  }

  /** A byte under no patch keeps its value. */
  lemma {:induction false} OthersStay(out: seq<byte>, ps: seq<Patch>, k: nat, i: nat)
    requires k <= |ps| && PatchAll(out, ps, k).Ok? && i < |out| && !Touched(ps, i)
    ensures PatchAll(out, ps, k).value[i] == out[i]
    decreases |ps| - k
  {
    if k < |ps| {
      assert ps[k] in ps;
      assert Patched(out, ps[k])[i] == out[i];
      OthersStay(Patched(out, ps[k]), ps, k + 1, i);
    }
  }

  /** It succeeds exactly when every patch fits. */
  lemma {:induction false} SucceedsWhenAllFit(out: seq<byte>, ps: seq<Patch>, k: nat)
    requires k <= |ps|
    ensures PatchAll(out, ps, k).Ok? <==> forall j :: k <= j < |ps| ==> Fits(ps[j], |out|)
    decreases |ps| - k
  {
    if k < |ps| && Fits(ps[k], |out|) {
      SucceedsWhenAllFit(Patched(out, ps[k]), ps, k + 1);
    }
  }

  /** One list of patches after another. */
  lemma {:induction false} PatchSum(out: seq<byte>, a: seq<Patch>, b: seq<Patch>, k: nat)
    requires k <= |a|
    ensures PatchAll(out, a, k).Ok? ==>
              (PatchAll(out, a + b, k).Ok? <==> PatchAll(PatchAll(out, a, k).value, b, 0).Ok?)
              && (PatchAll(out, a + b, k).Ok? ==> PatchAll(out, a + b, k) == PatchAll(PatchAll(out, a, k).value, b, 0))
    ensures PatchAll(out, a, k).Err? ==> PatchAll(out, a + b, k) == PatchAll(out, a, k)
    decreases |a| - k
  {
    if k == |a| {
      SecondList(out, a, b, 0);
    } else if Fits(a[k], |out|) {
      PatchSum(Patched(out, a[k]), a, b, k + 1);
    }
  }

  lemma {:induction false} SecondList(out: seq<byte>, a: seq<Patch>, b: seq<Patch>, k: nat)
    requires k <= |b|
    ensures PatchAll(out, a + b, |a| + k).Ok? <==> PatchAll(out, b, k).Ok?
    ensures PatchAll(out, b, k).Ok? ==> PatchAll(out, a + b, |a| + k) == PatchAll(out, b, k)
    decreases |b| - k
  {
    if k < |b| && Fits(b[k], |out|) {
      SecondList(Patched(out, b[k]), a, b, k + 1);
    }
  }

  // ----- overrides of whole sections ------------------------------------

  /** New bytes for the section at an address. */
  datatype SectionOverride = SectionOverride(address: nat, bytes: seq<byte>)

  /** The file-backed section that starts at the address. */
  function EntryAt(sections: seq<Section>, address: nat): (r: Option<Section>)
    ensures r.Some? ==> r.value in sections && r.value.vaddr == address && r.value.fileOffset > 0
    ensures r.None? ==> forall s :: s in sections ==> s.vaddr != address || s.fileOffset == 0
  {
    if sections == [] then None
    else if sections[0].vaddr == address && sections[0].fileOffset > 0 then Some(sections[0])
    else EntryAt(sections[1..], address)
  }

  /** An override of a section that the file holds has the section's size. */
  predicate SizeMatches(o: SectionOverride, sections: seq<Section>) {
    EntryAt(sections, o.address).Some? ==> |o.bytes| == EntryAt(sections, o.address).value.size
  }

  /** The patches that overrides stand for; sections the file does not hold are skipped. */
  function Resolved(os: seq<SectionOverride>, sections: seq<Section>): seq<Patch> {
    if os == [] then []
    else
      (match EntryAt(sections, os[0].address)
       case None => []
       case Some(s) => [(s.fileOffset, os[0].bytes)]) + Resolved(os[1..], sections)
  }

  lemma {:induction false} ResolvedHas(os: seq<SectionOverride>, sections: seq<Section>, k: nat)
    requires k < |os| && EntryAt(sections, os[k].address).Some?
    ensures (EntryAt(sections, os[k].address).value.fileOffset, os[k].bytes) in Resolved(os, sections)
    decreases |os|
  {
    if k > 0 {
      ResolvedHas(os[1..], sections, k - 1);
    }
  }

  datatype SectionError = WrongSize(k: nat) | SectionPastEnd(k: nat)

  lemma NoPatches(out: seq<byte>)
    ensures PatchAll(out, [], 0) == Ok(out)
  {}

  lemma PatchedIs(before: seq<byte>, p: Patch, now: seq<byte>)
    requires Fits(p, |before|) && |now| == |before|
    requires forall i :: 0 <= i < |now| ==> now[i] == if p.0 <= i < p.0 + |p.1| then p.1[i - p.0] else before[i]
    ensures now == Patched(before, p)
  {}

  /** One more patch behind those applied so far. */
  lemma OnePatch(out: seq<byte>, done: seq<Patch>, p: Patch, rest: seq<Patch>)
    requires PatchAll(out, done, 0).Ok?
    ensures var before := PatchAll(out, done, 0).value;
            && (!Fits(p, |before|) ==> PatchAll(out, done + ([p] + rest), 0).Err?)
            && (Fits(p, |before|) ==> PatchAll(out, done + [p], 0) == Ok(Patched(before, p)))
    ensures done + ([p] + rest) == done + [p] + rest
  {
    var before := PatchAll(out, done, 0).value;
    PatchSum(out, done, [p] + rest, 0);
    PatchSum(out, done, [p], 0);
    assert !Fits(p, |before|) ==> !Fits(([p] + rest)[0], |before|);
    assert Fits(p, |before|) ==> PatchAll(before, [p], 0) == PatchAll(Patched(before, p), [p], 1);
  }

  /** The override loop of the writers; it stops at the first override of another size than its
      section, and at one past the end of the file. */
  method ApplySectionOverrides(out: array<byte>, sections: seq<Section>, os: seq<SectionOverride>) returns (r: Result<(), SectionError>)
    modifies out
    ensures r.Ok? <==> (forall k :: 0 <= k < |os| ==> SizeMatches(os[k], sections)) && PatchAll(old(out[..]), Resolved(os, sections), 0).Ok?
    ensures r.Ok? ==> PatchAll(old(out[..]), Resolved(os, sections), 0) == Ok(out[..])
  {
    hide PatchAll, Patched;
    var k := 0;
    ghost var done: seq<Patch> := [];
    NoPatches(out[..]);
    assert os[0..] == os;
    while k < |os|
      invariant k <= |os| && forall j :: 0 <= j < k ==> SizeMatches(os[j], sections)
      invariant done + Resolved(os[k..], sections) == Resolved(os, sections)
      invariant PatchAll(old(out[..]), done, 0) == Ok(out[..])
    {
      var entry := EntryAt(sections, os[k].address);
      ghost var rest := Resolved(os[k + 1..], sections);
      assert os[k..][1..] == os[k + 1..];
      if entry.Some? {
        if |os[k].bytes| != entry.value.size {
          assert !SizeMatches(os[k], sections);
          return Err(WrongSize(k));
        }
        ghost var p: Patch := (entry.value.fileOffset, os[k].bytes);
        ghost var before := out[..];
        OnePatch(old(out[..]), done, p, rest);
        if entry.value.fileOffset + |os[k].bytes| > out.Length {
          return Err(SectionPastEnd(k));
        }
        forall i | 0 <= i < |os[k].bytes| {
          out[entry.value.fileOffset + i] := os[k].bytes[i];
        }
        PatchedIs(before, p, out[..]);
        done := done + [p];
      } else {
        assert [] + rest == rest;
      }
      k := k + 1;
    }
    assert os[k..] == [] && done + [] == done;
    return Ok(());
  }
}
