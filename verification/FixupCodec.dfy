/** The six bit-packed pointer formats of chained fixups: one slot, encoded and decoded. */
module FixupCodec {
  import opened Arithmetic
  import opened Bytes

  datatype PointerFormat = Ptr64 | Ptr64Offset | Arm64e | Arm64eKernel | Arm64eUserland | Arm64eUserland24

  datatype FixupTarget = Rebase(targetVaddr: nat) | Bind(importIndex: nat, addend: int)

  datatype Fixup = Fixup(vaddr: nat, target: FixupTarget)

  datatype FixupError =
    | Truncated
    | UnsupportedFormat(raw: nat)
    | UnknownFormat(raw: nat)
    | Misaligned(vaddr: nat)
    | NextOverflow(fromVaddr: nat, toVaddr: nat)
    | BadImportIndex(index: nat)
    | FixupOutsideSegment(vaddr: nat, segmentIndex: nat)
    | ImportNameOffsetOverflow(offset: nat)
    | AddendOverflow(importIndex: nat, addend: int)

  const START_NONE: nat := 0xFFFF

  predicate IsPtr64(f: PointerFormat) { f.Ptr64? || f.Ptr64Offset? }

  function Stride(f: PointerFormat): nat { if IsPtr64(f) then 4 else 8 }

  /** One more than the largest `next` field. */
  function NextLimit(f: PointerFormat): nat { if IsPtr64(f) then 0x1000 else 0x800 }

  function MaxNextByteDelta(f: PointerFormat): nat { (NextLimit(f) - 1) * Stride(f) }

  function ToRaw(f: PointerFormat): nat {
    match f
    case Ptr64 => 2
    case Ptr64Offset => 6
    case Arm64e => 1
    case Arm64eKernel => 7
    case Arm64eUserland => 9
    case Arm64eUserland24 => 12
  }

  function FromRaw(raw: nat): Result<PointerFormat, FixupError> {
    match raw
    case 2 => Ok(Ptr64)
    case 6 => Ok(Ptr64Offset)
    case 1 => Ok(Arm64e)
    case 7 => Ok(Arm64eKernel)
    case 9 => Ok(Arm64eUserland)
    case 12 => Ok(Arm64eUserland24)
    case _ => if raw in {3, 8, 10} then Err(UnsupportedFormat(raw)) else Err(UnknownFormat(raw))
  }

  lemma FromRawOfToRaw(f: PointerFormat)
    ensures FromRaw(ToRaw(f)) == Ok(f)
  {}

  /** Formats whose rebase targets are stored relative to the segment's address.
      `Ptr64Offset` is not among them: its targets are read and written as they are. */
  predicate SegmentRelative(f: PointerFormat) {
    f.Arm64eKernel? || f.Arm64eUserland? || f.Arm64eUserland24?
  }

  function OrdinalLimit(f: PointerFormat): nat {
    if IsPtr64(f) || f.Arm64eUserland24? then 0x100_0000 else 0x1_0000
  }

  const BIT_24: nat := 0x100_0000
  const BIT_36: nat := 0x10_0000_0000
  const BIT_51: nat := 0x8_0000_0000_0000
  const BIT_62: nat := 0x4000_0000_0000_0000
  const BIT_63: nat := 0x8000_0000_0000_0000

  /** The word for one slot. Fields are truncated to their widths; only the arm64e
      addend is range-checked. */
  function EncodeOne(fx: Fixup, f: PointerFormat, nextUnits: nat, segBase: nat): Result<nat, FixupError> {
    var next := nextUnits % NextLimit(f) * BIT_51;
    match fx.target
    case Rebase(target) =>
      var stored := if !SegmentRelative(f) then target else if target < segBase then 0 else target - segBase;
      Ok(next + stored % BIT_36)
    case Bind(index, addend) =>
      if IsPtr64(f) then Ok(BIT_63 + next + index % OrdinalLimit(f) + addend % 0x100 * BIT_24)
      else if addend < -0x4_0000 || addend >= 0x4_0000 then Err(AddendOverflow(index, addend))
      else Ok(BIT_62 + next + index % OrdinalLimit(f) + addend % 0x8_0000 * BIT_24)
  }

  function DecodeOne(raw: nat, f: PointerFormat, imports: nat, segBase: nat): Result<(FixupTarget, nat), FixupError> {
    var next := raw / BIT_51 % NextLimit(f);
    var bind := if IsPtr64(f) then raw / BIT_63 % 2 == 1 else raw / BIT_62 % 2 == 1;
    var auth := !IsPtr64(f) && raw / BIT_63 % 2 == 1;
    if bind then
      var ordinal := raw % OrdinalLimit(f);
      if ordinal >= imports then Err(Truncated)
      else
        var addend := if IsPtr64(f) then raw / BIT_24 % 0x100
                      else if auth then 0
                      else SignExtend(raw / BIT_24 % 0x8_0000, 0x4_0000);
        Ok((Bind(ordinal, addend), next))
    else
      var low := raw % BIT_36;
      Ok((Rebase(if SegmentRelative(f) then segBase + low else low), next))
  }

  /** Two's complement: values from `half` up stand for negative numbers. */
  function SignExtend(v: nat, half: nat): int {
    if v >= half then v - 2 * half else v
  }

  /** The fixup's fields survive the format's field widths. */
  predicate FitsFormat(fx: Fixup, f: PointerFormat, segBase: nat) {
    match fx.target
    case Rebase(target) => if SegmentRelative(f) then segBase <= target < segBase + BIT_36 else target < BIT_36
    case Bind(index, addend) =>
      index < OrdinalLimit(f) && if IsPtr64(f) then 0 <= addend < 0x100 else -0x4_0000 <= addend < 0x4_0000
  }

  // ----- bit fields -----------------------------------------------------

  /** Pulling the fields back out of `top * 2^51 + mid * 2^24 + low`. */
  lemma HighFields(low: nat, mid: nat, top: nat)
    requires low < BIT_24 && mid < 0x800_0000 && top < 0x2000
    ensures var w := low + mid * BIT_24 + top * BIT_51;
            w < U64_LIMIT && w / BIT_51 == top && w / BIT_62 == top / 0x800 && w / BIT_63 == top / 0x1000
  {
    var rest := low + mid * BIT_24;
    var w := rest + top * BIT_51;
    DivMod(w, BIT_51, top, rest);
    DivMod(w, BIT_62, top / 0x800, top % 0x800 * BIT_51 + rest);
    DivMod(w, BIT_63, top / 0x1000, top % 0x1000 * BIT_51 + rest);
  }

  lemma LowFields(low: nat, mid: nat, top: nat)
    requires low < BIT_24 && mid < 0x800_0000 && top < 0x2000
    ensures var w := low + mid * BIT_24 + top * BIT_51;
            w % BIT_24 == low && w % 0x1_0000 == low % 0x1_0000 && w / BIT_24 % 0x800_0000 == mid
  {
    var w := low + mid * BIT_24 + top * BIT_51;
    var a := mid + top * 0x800_0000;
    DivMod(w, BIT_24, a, low);
    DivMod(w, 0x1_0000, a * 0x100 + low / 0x1_0000, low % 0x1_0000);
    DivMod(a, 0x800_0000, top, mid);
  }

  lemma MiddleField(mid: nat, w: nat)
    requires w / BIT_24 % 0x800_0000 == mid
    ensures w / BIT_24 % 0x100 == mid % 0x100 && w / BIT_24 % 0x8_0000 == mid % 0x8_0000
  {
    var x := w / BIT_24;
    var q := x / 0x800_0000;
    DivMod(x, 0x100, q * 0x8_0000 + mid / 0x100, mid % 0x100);
    DivMod(x, 0x8_0000, q * 0x100 + mid / 0x8_0000, mid % 0x8_0000);
  }

  lemma WideField(low: nat, mid: nat, top: nat)
    requires low < BIT_24 && mid < 0x1000 && top < 0x2000
    ensures (low + mid * BIT_24 + top * BIT_51) % BIT_36 == low + mid * BIT_24
  {
    DivMod(low + mid * BIT_24 + top * BIT_51, BIT_36, top * 0x8000, low + mid * BIT_24);
  }

  lemma RebaseWord(f: PointerFormat, next: nat, stored: nat, imports: nat, segBase: nat)
    requires next < NextLimit(f) && stored < BIT_36
    ensures var w := next * BIT_51 + stored;
            && w < U64_LIMIT
            && DecodeOne(w, f, imports, segBase) == Ok((Rebase(if SegmentRelative(f) then segBase + stored else stored), next))
  {
    HighFields(stored % BIT_24, stored / BIT_24, next);
    WideField(stored % BIT_24, stored / BIT_24, next);
  }

  lemma BindWordPtr64(f: PointerFormat, next: nat, ordinal: nat, addend: nat, imports: nat, segBase: nat)
    requires IsPtr64(f) && next < NextLimit(f) && ordinal < BIT_24 && addend < 0x100 && ordinal < imports
    ensures var w := BIT_63 + next * BIT_51 + ordinal + addend * BIT_24;
            w < U64_LIMIT && DecodeOne(w, f, imports, segBase) == Ok((Bind(ordinal, addend), next))
  {
    var w := ordinal + addend * BIT_24 + (next + 0x1000) * BIT_51;
    HighFields(ordinal, addend, next + 0x1000);
    LowFields(ordinal, addend, next + 0x1000);
    MiddleField(addend, w);
  }

  lemma BindWordArm64e(f: PointerFormat, next: nat, ordinal: nat, addend: nat, imports: nat, segBase: nat)
    requires !IsPtr64(f) && next < NextLimit(f) && ordinal < OrdinalLimit(f) && addend < 0x8_0000 && ordinal < imports
    ensures var w := BIT_62 + next * BIT_51 + ordinal + addend * BIT_24;
            && w < U64_LIMIT
            && DecodeOne(w, f, imports, segBase) == Ok((Bind(ordinal, SignExtend(addend, 0x4_0000)), next))
  {
    var w := ordinal + addend * BIT_24 + (next + 0x800) * BIT_51;
    HighFields(ordinal, addend, next + 0x800);
    LowFields(ordinal, addend, next + 0x800);
    MiddleField(addend, w);
  }

  /** What is left of a fixup's target after truncation to the format's fields. */
  function Kept(target: FixupTarget, f: PointerFormat, segBase: nat): FixupTarget {
    match target
    case Rebase(t) =>
      Rebase(if !SegmentRelative(f) then t % BIT_36
             else segBase + (if t < segBase then 0 else t - segBase) % BIT_36)
    case Bind(index, addend) =>
      Bind(index % OrdinalLimit(f),
           if IsPtr64(f) then addend % 0x100 else SignExtend(addend % 0x8_0000, 0x4_0000))
  }

  lemma KeptExact(fx: Fixup, f: PointerFormat, segBase: nat)
    requires EncodeOne(fx, f, 0, segBase).Ok?
    ensures Kept(fx.target, f, segBase) == fx.target <==> FitsFormat(fx, f, segBase)
  {}

  /** A slot's word fits 64 bits and decodes to the kept target and its `next`. */
  lemma WordDecodes(fx: Fixup, f: PointerFormat, next: nat, imports: nat, segBase: nat)
    requires next < NextLimit(f) && EncodeOne(fx, f, next, segBase).Ok?
    requires fx.target.Bind? ==> fx.target.importIndex < imports
    ensures Decodes(EncodeOne(fx, f, next, segBase).value, fx.target, next, f, imports, segBase)
  {
    if fx.target.Rebase? {
      RebaseDecodes(fx.target.targetVaddr, f, next, imports, segBase);
    } else if IsPtr64(f) {
      BindPtr64Decodes(fx.target.importIndex, fx.target.addend, f, next, imports, segBase);
    } else {
      BindArm64eDecodes(fx.target.importIndex, fx.target.addend, f, next, imports, segBase);
    }
  }

  ghost predicate Decodes(w: nat, target: FixupTarget, next: nat, f: PointerFormat, imports: nat, segBase: nat) {
    w < U64_LIMIT && DecodeOne(w, f, imports, segBase) == Ok((Kept(target, f, segBase), next))
  }

  lemma RebaseDecodes(target: nat, f: PointerFormat, next: nat, imports: nat, segBase: nat)
    requires next < NextLimit(f)
    ensures Decodes(EncodeOne(Fixup(0, Rebase(target)), f, next, segBase).value, Rebase(target), next, f, imports, segBase)
  {
    var stored := if !SegmentRelative(f) then target else if target < segBase then 0 else target - segBase;
    RebaseWord(f, next, stored % BIT_36, imports, segBase);
  }

  lemma BindPtr64Encodes(index: nat, addend: int, f: PointerFormat, next: nat, segBase: nat)
    requires IsPtr64(f) && next < 0x1000
    ensures EncodeOne(Fixup(0, Bind(index, addend)), f, next, segBase)
            == Ok(BIT_63 + next * BIT_51 + index % BIT_24 + addend % 0x100 * BIT_24)
  {
    assert next % 0x1000 == next;
  }

  lemma BindPtr64Decodes(index: nat, addend: int, f: PointerFormat, next: nat, imports: nat, segBase: nat)
    requires IsPtr64(f) && next < NextLimit(f) && index < imports
    ensures Decodes(EncodeOne(Fixup(0, Bind(index, addend)), f, next, segBase).value, Bind(index, addend), next, f, imports, segBase)
  {
    ModAtMost(index, BIT_24);
    var ordinal, kept := index % BIT_24, addend % 0x100;
    BindPtr64Encodes(index, addend, f, next, segBase);
    BindWordPtr64(f, next, ordinal, kept, imports, segBase);
    assert Kept(Bind(index, addend), f, segBase) == Bind(ordinal, kept);
  }

  lemma BindArm64eDecodes(index: nat, addend: int, f: PointerFormat, next: nat, imports: nat, segBase: nat)
    requires !IsPtr64(f) && next < NextLimit(f) && index < imports && -0x4_0000 <= addend < 0x4_0000
    ensures Decodes(EncodeOne(Fixup(0, Bind(index, addend)), f, next, segBase).value, Bind(index, addend), next, f, imports, segBase)
  {
    ModAtMost(index, OrdinalLimit(f));
    BindWordArm64e(f, next, index % OrdinalLimit(f), addend % 0x8_0000, imports, segBase);
  }

  /** Encoding then decoding gives back the target exactly when its fields fit. */
  lemma CodecExact(fx: Fixup, f: PointerFormat, next: nat, imports: nat, segBase: nat)
    requires next < NextLimit(f) && EncodeOne(fx, f, next, segBase).Ok?
    requires fx.target.Bind? ==> fx.target.importIndex < imports
    ensures DecodeOne(EncodeOne(fx, f, next, segBase).value, f, imports, segBase) == Ok((fx.target, next))
            <==> FitsFormat(fx, f, segBase)
  {
    WordDecodes(fx, f, next, imports, segBase);
    KeptExact(fx, f, segBase);
  }

  // ----- what the formats are documented to hold ------------------------

  const BIT_43: nat := 0x800_0000_0000

  /** The absolute address a rebase word is documented to stand for, in an image loaded by
      preference at `loadBase`. */
  function Documented(raw: nat, f: PointerFormat, loadBase: nat, segBase: nat): nat {
    match f
    case Ptr64 => raw % BIT_36
    case Ptr64Offset => loadBase + raw % BIT_36
    case Arm64e => raw % BIT_43
    case Arm64eKernel => segBase + raw % U32_LIMIT
    case Arm64eUserland => loadBase + raw % BIT_36
    case Arm64eUserland24 => loadBase + raw % BIT_36
  }

  /** When the reader gives that address: it adds no load base, takes the segment's address for
      one in the userland formats, and reads 36 bits whatever the format's width. */
  predicate ReadsDocumented(raw: nat, f: PointerFormat, loadBase: nat, segBase: nat) {
    match f
    case Ptr64 => true
    case Ptr64Offset => loadBase == 0
    case Arm64e => raw / BIT_36 % 0x80 == 0
    case Arm64eKernel => raw / U32_LIMIT % 0x10 == 0
    case Arm64eUserland => loadBase == segBase
    case Arm64eUserland24 => loadBase == segBase
  }

  /** Neither a bind nor authenticated. */
  predicate IsRebase(raw: nat, f: PointerFormat) {
    raw / BIT_63 % 2 == 0 && (!IsPtr64(f) ==> raw / BIT_62 % 2 == 0)
  }

  lemma WiderPieces(q: nat, r: nat, small: nat, more: nat)
    requires r < small && more > 0 && small * more > 0
    ensures (q * small + r) % (small * more) == q % more * small + r
  {
    var a, b := q / more, q % more;
    calc {
      q * small;
      (a * more + b) * small;
      a * (small * more) + b * small;
    }
    assert b * small + r < small * more by {
      MulUpper(b + 1, more, small);
      assert (b + 1) * small == b * small + small;
    }
    DivMod(q * small + r, small * more, a, b * small + r);
  }

  lemma MulUpper(a: nat, b: nat, p: nat)
    requires a <= b
    ensures a * p <= p * b
  {}

  /** A value modulo `small * more` is its value modulo `small` exactly when the upper part is 0. */
  lemma WiderField(raw: nat, small: nat, more: nat)
    requires small > 0 && more > 0 && small * more > 0
    ensures raw % (small * more) == raw % small <==> raw / small % more == 0
  {
    var q := raw / small;
    assert raw == q * small + raw % small;
    WiderPieces(q, raw % small, small, more);
    if q % more >= 1 {
      MulAtLeast(q % more, small);
    }
  }

  /** A rebase word reads as the address it is documented to hold if and only if its format
      asks for no load base, or for one the reader happens to add, and fits 36 bits. */
  lemma DocumentedExact(raw: nat, f: PointerFormat, imports: nat, loadBase: nat, segBase: nat)
    requires IsRebase(raw, f)
    ensures DecodeOne(raw, f, imports, segBase) == Ok((Rebase(Documented(raw, f, loadBase, segBase)), raw / BIT_51 % NextLimit(f)))
            <==> ReadsDocumented(raw, f, loadBase, segBase)
  {
    WiderField(raw, BIT_36, 0x80);
    WiderField(raw, U32_LIMIT, 0x10);
  }

  /** An offset word of an image at 4 GiB reads as the bare offset. */
  lemma OffsetReadsBare()
    ensures var raw, loadBase := 0x4000, 0x1_0000_0000;
            && IsRebase(raw, Ptr64Offset) && Documented(raw, Ptr64Offset, loadBase, loadBase) == 0x1_0000_4000
            && DecodeOne(raw, Ptr64Offset, 0, loadBase) == Ok((Rebase(0x4000), 0))
  {}
}
