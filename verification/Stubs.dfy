/** The bytes left in a grown section's place: a trampoline at every function entry, no-ops
    everywhere else. */
module Stubs {
  import opened Bytes
  import opened Trampolines

  datatype Architecture = X86 | Aarch64 | Arm

  /** A symbol of the container; on ARM an odd address marks Thumb code. */
  datatype FuncSymbol = FuncSymbol(isFunction: bool, section: Option<nat>, address: nat)

  datatype CodeSection = CodeSection(id: nat, address: nat)

  // ----- padding --------------------------------------------------------

  function Nop(arch: Architecture): (r: seq<byte>)
    ensures |r| > 0
  {
    match arch
    case X86 => [X86_NOP]
    case Aarch64 => A64_NOP
    case Arm => THUMB_NOP
  }

  /** Whole no-ops, as many as fit; what is left over stays zero. */
  function Padding(arch: Architecture, extent: nat): (r: seq<byte>)
    ensures |r| == extent
    decreases extent
  {
    var nop := Nop(arch);
    if extent < |nop| then seq(extent, (_: nat) => 0) else nop + Padding(arch, extent - |nop|)
  }

  lemma {:induction false} PaddingUnit(arch: Architecture, extent: nat, k: nat)
    requires (k + 1) * |Nop(arch)| <= extent
    ensures HasAt(Padding(arch, extent), k * |Nop(arch)|, Nop(arch))
    decreases k
  {
    var nop := Nop(arch);
    assert (k + 1) * |nop| == k * |nop| + |nop|;
    if k == 0 {
      assert 0 * |nop| == 0;
      assert Padding(arch, extent)[0..|nop|] == nop;
    } else {
      assert (k - 1) * |nop| + |nop| == k * |nop|;
      PaddingUnit(arch, extent - |nop|, k - 1);
      var rest := Padding(arch, extent - |nop|);
      HasAtMiddle(nop, rest, []);
      assert nop + rest + [] == Padding(arch, extent);
      HasAtInside(Padding(arch, extent), |nop|, rest, (k - 1) * |nop|, nop);
    }
  }

  lemma PaddingStep(arch: Architecture, was: seq<byte>, extent: nat)
    requires |Nop(arch)| <= extent
    ensures was + Padding(arch, extent) == was + Nop(arch) + Padding(arch, extent - |Nop(arch)|)
  {
    assert was + (Nop(arch) + Padding(arch, extent - |Nop(arch)|)) == was + Nop(arch) + Padding(arch, extent - |Nop(arch)|);
  }

  lemma PaddingEnd(arch: Architecture, rest: seq<byte>)
    requires |rest| < |Nop(arch)| && forall i :: 0 <= i < |rest| ==> rest[i] == 0
    ensures rest == Padding(arch, |rest|)
  {}

  method FillNops(bytes: array<byte>, arch: Architecture)
    requires forall i :: 0 <= i < bytes.Length ==> bytes[i] == 0
    modifies bytes
    ensures bytes[..] == Padding(arch, bytes.Length)
  {
    hide Nop, Padding;
    var nop := Nop(arch);
    var at := 0;
    assert bytes[..0] + Padding(arch, bytes.Length) == Padding(arch, bytes.Length);
    while at + |nop| <= bytes.Length
      invariant at <= bytes.Length
      invariant bytes[..at] + Padding(arch, bytes.Length - at) == Padding(arch, bytes.Length)
      invariant forall i :: at <= i < bytes.Length ==> bytes[i] == 0
      decreases bytes.Length - at
    {
      ghost var was := bytes[..at];
      PaddingStep(arch, was, bytes.Length - at);
      forall i | 0 <= i < |nop| {
        bytes[at + i] := nop[i];
      }
      assert bytes[..at + |nop|] == was + nop;
      at := at + |nop|;
    }
    PaddingEnd(arch, bytes[at..]);
    assert bytes[..] == bytes[..at] + bytes[at..];
  }

  // ----- one symbol -----------------------------------------------------

  function Entry(arch: Architecture, sym: FuncSymbol): nat {
    if arch.Arm? then sym.address - sym.address % 2 else sym.address
  }

  predicate Selected(arch: Architecture, sym: FuncSymbol, section: CodeSection, extent: nat) {
    && sym.isFunction && sym.section == Some(section.id)
    && section.address <= Entry(arch, sym) < section.address + extent
  }

  function Trampoline(arch: Architecture, sym: FuncSymbol, displacement: int): Result<seq<byte>, StubError> {
    match arch
    case X86 => EncodeX86(displacement)
    case Aarch64 => EncodeA64(displacement)
    case Arm => if sym.address % 2 == 1 then EncodeThumb(displacement) else EncodeA32(displacement)
  }

  function Size(arch: Architecture): nat { if arch.X86? then 5 else 4 }

  lemma TrampolineSize(arch: Architecture, sym: FuncSymbol, displacement: int)
    requires Trampoline(arch, sym, displacement).Ok?
    ensures |Trampoline(arch, sym, displacement).value| == Size(arch)
  {}

  function Overlay(bytes: seq<byte>, at: nat, t: seq<byte>): (r: seq<byte>)
    requires at + |t| <= |bytes|
    ensures |r| == |bytes|
  {
    bytes[..at] + t + bytes[at + |t|..]
  }

  lemma OverlayHas(bytes: seq<byte>, at: nat, t: seq<byte>)
    requires at + |t| <= |bytes|
    ensures HasAt(Overlay(bytes, at, t), at, t)
  {
    HasAtMiddle(bytes[..at], t, bytes[at + |t|..]);
  }

  lemma OverlayKeeps(bytes: seq<byte>, at: nat, t: seq<byte>, from: nat, len: nat)
    requires at + |t| <= |bytes| && from + len <= |bytes| && (at + |t| <= from || from + len <= at)
    ensures Overlay(bytes, at, t)[from..from + len] == bytes[from..from + len]
  {
    var x, y := Overlay(bytes, at, t)[from..from + len], bytes[from..from + len];
    forall i | 0 <= i < len ensures x[i] == y[i] {
      assert Overlay(bytes, at, t)[from + i] == bytes[from + i];
    }
  }

  /** What one symbol does to the stub. */
  function Step(arch: Architecture, bytes: seq<byte>, sym: FuncSymbol, section: CodeSection, newSeg: nat): (r: Result<seq<byte>, StubError>)
    ensures r.Ok? ==> |r.value| == |bytes|
  {
    if !Selected(arch, sym, section, |bytes|) then Ok(bytes)
    else
      var offset := Entry(arch, sym) - section.address;
      match Trampoline(arch, sym, newSeg - section.address)
      case Err(e) => Err(e)
      case Ok(t) => if offset + |t| > |bytes| then Err(DoesNotFit) else Ok(Overlay(bytes, offset, t))
  }

  function Build(arch: Architecture, bytes: seq<byte>, symbols: seq<FuncSymbol>, section: CodeSection, newSeg: nat): (r: Result<seq<byte>, StubError>)
    ensures r.Ok? ==> |r.value| == |bytes|
    decreases |symbols|
  {
    if symbols == [] then Ok(bytes)
    else
      match Step(arch, bytes, symbols[0], section, newSeg)
      case Err(e) => Err(e)
      case Ok(next) => Build(arch, next, symbols[1..], section, newSeg)
  }

  function Stub(arch: Architecture, extent: nat, symbols: seq<FuncSymbol>, section: CodeSection, newSeg: nat): Result<seq<byte>, StubError> {
    Build(arch, Padding(arch, extent), symbols, section, newSeg)
  }

  method PlaceOne(bytes: array<byte>, arch: Architecture, sym: FuncSymbol, section: CodeSection, newSeg: nat) returns (r: Result<(), StubError>)
    modifies bytes
    ensures r.Err? ==> Step(arch, old(bytes[..]), sym, section, newSeg) == Err(r.error)
    ensures r.Ok? ==> Step(arch, old(bytes[..]), sym, section, newSeg) == Ok(bytes[..])
  {
    var entry := Entry(arch, sym);
    if !sym.isFunction || sym.section != Some(section.id) || entry < section.address || entry >= section.address + bytes.Length {
      return Ok(());
    }
    var offset := entry - section.address;
    var displacement := (newSeg + offset) - (section.address + offset);
    var t := Trampoline(arch, sym, displacement);
    if t.Err? {
      return Err(t.error);
    }
    if offset + |t.value| > bytes.Length {
      return Err(DoesNotFit);
    }
    forall i | 0 <= i < |t.value| {
      bytes[offset + i] := t.value[i];
    }
    assert bytes[..] == Overlay(old(bytes[..]), offset, t.value);
    return Ok(());
  }

  /** `build_original_extent_stub`. */
  method BuildStub(arch: Architecture, extent: nat, symbols: seq<FuncSymbol>, section: CodeSection, newSeg: nat)
    returns (r: Result<seq<byte>, StubError>)
    ensures r == Stub(arch, extent, symbols, section, newSeg)
  {
    var bytes := new byte[extent](_ => 0);
    FillNops(bytes, arch);
    var k := 0;
    assert symbols[0..] == symbols;
    while k < |symbols|
      invariant k <= |symbols|
      invariant Build(arch, bytes[..], symbols[k..], section, newSeg) == Stub(arch, extent, symbols, section, newSeg)
    {
      assert symbols[k..][1..] == symbols[k + 1..];
      var one := PlaceOne(bytes, arch, symbols[k], section, newSeg);
      if one.Err? {
        return Err(one.error);
      }
      k := k + 1;
    }
    return Ok(bytes[..]);
  }

  // ----- the stub forwards ----------------------------------------------

  /** A selected symbol's trampoline fits and can be encoded. */
  predicate Placeable(arch: Architecture, sym: FuncSymbol, section: CodeSection, newSeg: nat, extent: nat) {
    Selected(arch, sym, section, extent) ==>
      Trampoline(arch, sym, newSeg - section.address).Ok? && Entry(arch, sym) - section.address + Size(arch) <= extent
  }

  /** The builder succeeds exactly when every selected trampoline is in range, aligned and
      fits its section. */
  lemma {:induction false} BuildsWhenPlaceable(arch: Architecture, bytes: seq<byte>, symbols: seq<FuncSymbol>, section: CodeSection, newSeg: nat)
    ensures Build(arch, bytes, symbols, section, newSeg).Ok?
            <==> forall i :: 0 <= i < |symbols| ==> Placeable(arch, symbols[i], section, newSeg, |bytes|)
    decreases |symbols|
  {
    if symbols != [] {
      if Trampoline(arch, symbols[0], newSeg - section.address).Ok? {
        TrampolineSize(arch, symbols[0], newSeg - section.address);
      }
      var step := Step(arch, bytes, symbols[0], section, newSeg);
      if step.Ok? {
        BuildsWhenPlaceable(arch, step.value, symbols[1..], section, newSeg);
        assert forall i :: 0 < i < |symbols| ==> symbols[i] == symbols[1..][i - 1];
      }
    }
  }

  /** Entries coincide, in the same mode, or are a trampoline apart. */
  predicate Compatible(arch: Architecture, a: FuncSymbol, b: FuncSymbol) {
    || (Entry(arch, a) == Entry(arch, b) && (arch.Arm? ==> a.address == b.address))
    || Entry(arch, a) + Size(arch) <= Entry(arch, b) || Entry(arch, b) + Size(arch) <= Entry(arch, a)
  }

  ghost predicate Spaced(arch: Architecture, symbols: seq<FuncSymbol>, section: CodeSection, extent: nat) {
    forall i, j :: 0 <= i < |symbols| && 0 <= j < |symbols| ==>
      (Selected(arch, symbols[i], section, extent) && Selected(arch, symbols[j], section, extent) ==> Compatible(arch, symbols[i], symbols[j]))
  }

  /** The trampoline of `sym` stands at its entry. */
  ghost predicate Standing(arch: Architecture, bytes: seq<byte>, sym: FuncSymbol, section: CodeSection, newSeg: nat) {
    && Entry(arch, sym) >= section.address && Trampoline(arch, sym, newSeg - section.address).Ok?
    && HasAt(bytes, Entry(arch, sym) - section.address, Trampoline(arch, sym, newSeg - section.address).value)
  }

  lemma StepKeepsStanding(arch: Architecture, bytes: seq<byte>, sym: FuncSymbol, other: FuncSymbol, section: CodeSection, newSeg: nat)
    requires Step(arch, bytes, other, section, newSeg).Ok? && Selected(arch, sym, section, |bytes|)
    requires Selected(arch, other, section, |bytes|) ==> Compatible(arch, sym, other)
    requires sym == other || Standing(arch, bytes, sym, section, newSeg)
    ensures Standing(arch, Step(arch, bytes, other, section, newSeg).value, sym, section, newSeg)
  {
    hide EncodeX86, EncodeA64, EncodeThumb, EncodeA32, Overlay;
    if Selected(arch, other, section, |bytes|) {
      var next := Step(arch, bytes, other, section, newSeg).value;
      var at, t := Entry(arch, sym) - section.address, Trampoline(arch, sym, newSeg - section.address).value;
      TrampolineSize(arch, sym, newSeg - section.address);
      TrampolineSize(arch, other, newSeg - section.address);
      if Entry(arch, sym) == Entry(arch, other) {
        OverlayHas(bytes, at, t);
      } else {
        OverlayKeeps(bytes, Entry(arch, other) - section.address, Trampoline(arch, other, newSeg - section.address).value, at, |t|);
      }
    }
  }

  lemma {:induction false} BuildKeepsStanding(arch: Architecture, bytes: seq<byte>, symbols: seq<FuncSymbol>, section: CodeSection, newSeg: nat, sym: FuncSymbol)
    requires Build(arch, bytes, symbols, section, newSeg).Ok? && Selected(arch, sym, section, |bytes|)
    requires forall j :: 0 <= j < |symbols| && Selected(arch, symbols[j], section, |bytes|) ==> Compatible(arch, sym, symbols[j])
    requires sym in symbols || Standing(arch, bytes, sym, section, newSeg)
    ensures Standing(arch, Build(arch, bytes, symbols, section, newSeg).value, sym, section, newSeg)
    decreases |symbols|
  {
    if symbols != [] {
      assert forall j :: 0 <= j < |symbols[1..]| ==> symbols[1..][j] == symbols[j + 1];
      var next := Step(arch, bytes, symbols[0], section, newSeg).value;
      if sym == symbols[0] || Standing(arch, bytes, sym, section, newSeg) {
        StepKeepsStanding(arch, bytes, sym, symbols[0], section, newSeg);
      }
      BuildKeepsStanding(arch, next, symbols[1..], section, newSeg, sym);
    }
  }

  /** Where a processor of the symbol's mode goes from its entry. */
  function Branch(arch: Architecture, thumb: bool, bytes: seq<byte>, at: nat, pc: int): Option<int> {
    if at + Size(arch) > |bytes| then None
    else
      match arch
      case X86 => DecodeX86(bytes[at..at + 5], pc)
      case Aarch64 => DecodeA64(WordAt(bytes[at..at + 4]), pc)
      case Arm => if thumb then DecodeThumb(HalfAt(bytes[at..at + 4], 0), HalfAt(bytes[at..at + 4], 2), pc)
                  else DecodeA32(WordAt(bytes[at..at + 4]), pc)
  }

  lemma StandingBranches(arch: Architecture, bytes: seq<byte>, sym: FuncSymbol, section: CodeSection, newSeg: nat, pc: int)
    requires Standing(arch, bytes, sym, section, newSeg)
    ensures Branch(arch, sym.address % 2 == 1, bytes, Entry(arch, sym) - section.address, pc) == Some(pc + (newSeg - section.address))
  {
    var d := newSeg - section.address;
    TrampolineSize(arch, sym, d);
    match arch {
      case X86 => X86Branches(d, pc);
      case Aarch64 => A64Branches(d, pc);
      case Arm =>
        if sym.address % 2 == 1 {
          ThumbBranches(d, pc);
        } else {
          A32Branches(d, pc);
        }
    }
  }

  /** Every function entry branches to the same offset of the new segment. */
  lemma EntriesForward(arch: Architecture, extent: nat, symbols: seq<FuncSymbol>, section: CodeSection, newSeg: nat, i: nat)
    requires Stub(arch, extent, symbols, section, newSeg).Ok? && Spaced(arch, symbols, section, extent)
    requires i < |symbols| && Selected(arch, symbols[i], section, extent)
    ensures var offset := Entry(arch, symbols[i]) - section.address;
            Branch(arch, symbols[i].address % 2 == 1, Stub(arch, extent, symbols, section, newSeg).value, offset, section.address + offset)
            == Some(newSeg + offset)
  {
    var bytes := Stub(arch, extent, symbols, section, newSeg).value;
    BuildKeepsStanding(arch, Padding(arch, extent), symbols, section, newSeg, symbols[i]);
    StandingBranches(arch, bytes, symbols[i], section, newSeg, Entry(arch, symbols[i]));
  }

  /** No selected trampoline touches the `len` bytes at `at`. */
  ghost predicate Away(arch: Architecture, symbols: seq<FuncSymbol>, section: CodeSection, extent: nat, at: nat, len: nat) {
    forall i :: 0 <= i < |symbols| && Selected(arch, symbols[i], section, extent) ==>
      at + len <= Entry(arch, symbols[i]) - section.address || Entry(arch, symbols[i]) - section.address + Size(arch) <= at
  }

  lemma {:induction false} BuildKeepsRange(arch: Architecture, bytes: seq<byte>, symbols: seq<FuncSymbol>, section: CodeSection, newSeg: nat, at: nat, len: nat)
    requires Build(arch, bytes, symbols, section, newSeg).Ok? && at + len <= |bytes| && Away(arch, symbols, section, |bytes|, at, len)
    ensures Build(arch, bytes, symbols, section, newSeg).value[at..at + len] == bytes[at..at + len]
    decreases |symbols|
  {
    if symbols != [] {
      var next := Step(arch, bytes, symbols[0], section, newSeg).value;
      assert forall j :: 0 <= j < |symbols[1..]| ==> symbols[1..][j] == symbols[j + 1];
      if Selected(arch, symbols[0], section, |bytes|) {
        TrampolineSize(arch, symbols[0], newSeg - section.address);
        OverlayKeeps(bytes, Entry(arch, symbols[0]) - section.address, Trampoline(arch, symbols[0], newSeg - section.address).value, at, len);
      }
      BuildKeepsRange(arch, next, symbols[1..], section, newSeg, at, len);
    }
  }

  /** Every other whole unit is a no-op. */
  lemma OtherUnitsAreNops(arch: Architecture, extent: nat, symbols: seq<FuncSymbol>, section: CodeSection, newSeg: nat, k: nat)
    requires Stub(arch, extent, symbols, section, newSeg).Ok? && (k + 1) * |Nop(arch)| <= extent
    requires Away(arch, symbols, section, extent, k * |Nop(arch)|, |Nop(arch)|)
    ensures HasAt(Stub(arch, extent, symbols, section, newSeg).value, k * |Nop(arch)|, Nop(arch))
  {
    assert (k + 1) * |Nop(arch)| == k * |Nop(arch)| + |Nop(arch)|;
    PaddingUnit(arch, extent, k);
    BuildKeepsRange(arch, Padding(arch, extent), symbols, section, newSeg, k * |Nop(arch)|, |Nop(arch)|);
  }
}
