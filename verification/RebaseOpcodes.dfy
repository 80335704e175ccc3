/** The classic rebase opcode stream: an interpreter that lists the pointer slots it names. */
module RebaseOpcodes {
  import opened Arithmetic
  import opened Bytes
  import Uleb128

  datatype RebaseLocation = RebaseLocation(segment: nat, offset: nat)

  datatype RebaseError = TruncatedUleb | NoSegment | UnsupportedType(kind: nat) | UnknownOpcode(opcode: nat)

  /** The interpreter's registers. */
  datatype Machine = Machine(segment: Option<nat>, offset: nat, kind: nat)

  const REBASE_TYPE_POINTER: nat := 1
  const POINTER_SIZE: nat := 8
  const DONE: nat := 0
  const SET_TYPE_IMM: nat := 1
  const SET_SEGMENT_AND_OFFSET_ULEB: nat := 2
  const ADD_ADDR_ULEB: nat := 3
  const ADD_ADDR_IMM_SCALED: nat := 4
  const DO_REBASE_IMM_TIMES: nat := 5
  const DO_REBASE_ULEB_TIMES: nat := 6
  const DO_REBASE_ADD_ADDR_ULEB: nat := 7
  const DO_REBASE_ULEB_TIMES_SKIPPING_ULEB: nat := 8

  function Start(): Machine { Machine(None, 0, REBASE_TYPE_POINTER) }

  function Wrap(v: nat): nat { v % U64_LIMIT }

  // ----- ULEB128 without an overflow check ------------------------------

  /** The number at the front of `s`, with `i` bytes worth `acc` already read, and how many
      bytes it takes. Bits from the 64th on are dropped, however long the number. */
  function Wide(s: seq<byte>, i: nat, acc: nat): (r: Result<(nat, nat), RebaseError>)
    requires acc < U64_LIMIT && (i <= 9 ==> acc < Uleb128.Pow128(i))
    ensures r.Ok? ==> r.value.0 < U64_LIMIT && 0 < r.value.1 <= |s|
  {
    if s == [] then Err(TruncatedUleb)
    else
      var acc' := Widen(s[0], i, acc);
      if s[0] < 128 then Ok((acc', 1))
      else
        match Wide(s[1..], i + 1, acc')
        case Err(e) => Err(e)
        case Ok((v, n)) => Ok((v, n + 1))
  }

  function Widen(b: byte, i: nat, acc: nat): (r: nat)
    requires acc < U64_LIMIT && (i <= 9 ==> acc < Uleb128.Pow128(i))
    ensures r < U64_LIMIT && (i + 1 <= 9 ==> r < Uleb128.Pow128(i + 1))
  {
    if i <= 9 then
      Uleb128.ReadStays(acc, b % 128, i);
      acc + (b % 128 * Uleb128.Pow128(i)) % U64_LIMIT
    else acc
  }

  function Number(s: seq<byte>): (r: Result<(nat, nat), RebaseError>)
    ensures r.Ok? ==> r.value.0 < U64_LIMIT && 0 < r.value.1 <= |s|
  {
    Wide(s, 0, 0)
  }

  method Uleb(opcodes: seq<byte>, start: nat) returns (r: Result<(nat, nat), RebaseError>)
    requires start <= |opcodes|
    ensures r == match Number(opcodes[start..]) case Err(e) => Err(e) case Ok((v, n)) => Ok((v, start + n))
  {
    var value: nat, at: nat := 0, start;
    var i: nat := 0;
    while true
      invariant at == start + i && at <= |opcodes|
      invariant value < U64_LIMIT && (i <= 9 ==> value < Uleb128.Pow128(i))
      invariant Ahead(Wide(opcodes[at..], i, value), i) == Number(opcodes[start..])
      decreases |opcodes| - at
    {
      if at == |opcodes| {
        return Err(TruncatedUleb);
      }
      var b := opcodes[at];
      assert opcodes[at..][1..] == opcodes[at + 1..];
      AheadStep(Wide(opcodes[at + 1..], i + 1, Widen(b, i, value)), i);
      value := Widen(b, i, value);
      at := at + 1;
      if b < 128 {
        return Ok((value, at));
      }
      i := i + 1;
    }
  }

  /** A result that has `i` more bytes behind it. */
  function Ahead(r: Result<(nat, nat), RebaseError>, i: nat): Result<(nat, nat), RebaseError> {
    match r
    case Err(e) => Err(e)
    case Ok((v, n)) => Ok((v, n + i))
  }

  lemma AheadStep(r: Result<(nat, nat), RebaseError>, i: nat)
    ensures Ahead(Ahead(r, 1), i) == Ahead(r, i + 1)
  {}

  /** Wherever the strict reader of the export trie succeeds, this one agrees. */
  lemma {:induction false} WideAgrees(bytes: seq<byte>, at: nat, i: nat, acc: nat)
    requires acc < U64_LIMIT && (i <= 9 ==> acc < Uleb128.Pow128(i)) && at <= |bytes|
    requires Uleb128.Read(bytes, at, i, acc).Ok?
    ensures var strict := Uleb128.Read(bytes, at, i, acc).value;
            Wide(bytes[at..], i, acc) == Ok((strict.0, strict.1 - at))
    decreases |bytes| - at
  {
    var b := bytes[at];
    if b >= 128 {
      Uleb128.ReadStays(acc, b % 128, i);
      WideAgrees(bytes, at + 1, i + 1, Widen(b, i, acc));
      assert bytes[at..][1..] == bytes[at + 1..];
    }
  }

  lemma NumberOfEncode(v: nat, rest: seq<byte>)
    requires v < U64_LIMIT
    ensures Number(Uleb128.Encode(v) + rest) == Ok((v, |Uleb128.Encode(v)|))
    ensures (Uleb128.Encode(v) + rest)[|Uleb128.Encode(v)|..] == rest
  {
    var s := Uleb128.Encode(v) + rest;
    assert HasAt(s, 0, Uleb128.Encode(v));
    Uleb128.ReadOfEncode(s, 0, v);
    assert Uleb128.Pow128(0) == 1;
    WideAgrees(s, 0, 0, 0);
    assert s[0..] == s;
  }

  // ----- emitting -------------------------------------------------------

  /** `count` slots, `stride` bytes apart, modulo 2^64. */
  function Run(segment: nat, offset: nat, stride: nat, count: nat): (r: seq<RebaseLocation>)
    ensures |r| == count && forall i :: 0 <= i < count ==> r[i] == RebaseLocation(segment, Wrap(offset + i * stride))
  {
    seq(count, (i: nat) => RebaseLocation(segment, Wrap(offset + i * stride)))
  }

  /** Emitting needs a segment and the pointer type, unless there is nothing to emit. */
  function Emit(m: Machine, stride: nat, count: nat): Result<(seq<RebaseLocation>, Machine), RebaseError> {
    if count == 0 then Ok(([], m))
    else if m.segment.None? then Err(NoSegment)
    else if m.kind != REBASE_TYPE_POINTER then Err(UnsupportedType(m.kind))
    else Ok((Run(m.segment.value, m.offset, stride, count), m.(offset := Wrap(m.offset + count * stride))))
  }

  lemma WrapAdds(a: nat, b: nat)
    ensures Wrap(Wrap(a) + b) == Wrap(a + b)
  {
    var q, r := (Wrap(a) + b) / U64_LIMIT, (Wrap(a) + b) % U64_LIMIT;
    DivMod(a + b, U64_LIMIT, q + a / U64_LIMIT, r);
  }

  lemma NextMultiple(i: nat, stride: nat)
    ensures (i + 1) * stride == i * stride + stride
  {}

  /** The `for` loops around `emit`. */
  method EmitTimes(segment: Option<nat>, start: nat, kind: nat, skip: nat, count: nat)
    returns (r: Result<(seq<RebaseLocation>, nat), RebaseError>)
    requires start < U64_LIMIT
    ensures r == match Emit(Machine(segment, start, kind), skip + POINTER_SIZE, count)
                 case Err(e) => Err(e)
                 case Ok((locs, m)) => Ok((locs, m.offset))
  {
    var out: seq<RebaseLocation> := [];
    var offset, i := start, 0;
    while i < count
      invariant i <= count && offset == Wrap(start + i * (skip + POINTER_SIZE))
      invariant i > 0 ==> segment.Some? && kind == REBASE_TYPE_POINTER
      invariant |out| == i
      invariant segment.Some? ==> out == Run(segment.value, start, skip + POINTER_SIZE, i)
    {
      if segment.None? {
        return Err(NoSegment);
      }
      if kind != REBASE_TYPE_POINTER {
        return Err(UnsupportedType(kind));
      }
      out := out + [RebaseLocation(segment.value, offset)];
      WrapAdds(start + i * (skip + POINTER_SIZE), skip);
      WrapAdds(start + i * (skip + POINTER_SIZE) + skip, POINTER_SIZE);
      NextMultiple(i, skip + POINTER_SIZE);
      offset := Wrap(Wrap(offset + skip) + POINTER_SIZE);
      i := i + 1;
    }
    return Ok((out, offset));
  }

  // ----- one opcode -----------------------------------------------------

  type Stepped = Result<(seq<RebaseLocation>, Machine, nat), RebaseError>

  function Emitted(r: Result<(seq<RebaseLocation>, Machine), RebaseError>, used: nat): Stepped {
    match r
    case Err(e) => Err(e)
    case Ok((locs, m)) => Ok((locs, m, used))
  }

  /** The opcode at the front of `ops`: its slots, the new registers and its length. */
  function Step(ops: seq<byte>, m: Machine): (r: Stepped)
    requires ops != []
    ensures r.Ok? ==> 0 < r.value.2 <= |ops|
  {
    var op, imm := ops[0] / 16, ops[0] % 16;
    if op == SET_TYPE_IMM then Ok(([], m.(kind := imm), 1))
    else if op == SET_SEGMENT_AND_OFFSET_ULEB then
      match Number(ops[1..])
      case Err(e) => Err(e)
      case Ok((v, n)) => Ok(([], m.(segment := Some(imm), offset := v), 1 + n))
    else if op == ADD_ADDR_ULEB then
      match Number(ops[1..])
      case Err(e) => Err(e)
      case Ok((v, n)) => Ok(([], m.(offset := Wrap(m.offset + v)), 1 + n))
    else if op == ADD_ADDR_IMM_SCALED then Ok(([], m.(offset := Wrap(m.offset + imm * POINTER_SIZE)), 1))
    else if op == DO_REBASE_IMM_TIMES then Emitted(Emit(m, POINTER_SIZE, imm), 1)
    else if op == DO_REBASE_ULEB_TIMES then
      match Number(ops[1..])
      case Err(e) => Err(e)
      case Ok((v, n)) => Emitted(Emit(m, POINTER_SIZE, v), 1 + n)
    else if op == DO_REBASE_ADD_ADDR_ULEB then
      if Emit(m, POINTER_SIZE, 1).Err? then Err(Emit(m, POINTER_SIZE, 1).error)
      else
        match Number(ops[1..])
        case Err(e) => Err(e)
        case Ok((v, n)) => Emitted(Emit(m, v + POINTER_SIZE, 1), 1 + n)
    else if op == DO_REBASE_ULEB_TIMES_SKIPPING_ULEB then
      match Number(ops[1..])
      case Err(e) => Err(e)
      case Ok((count, n)) =>
        match Number(ops[1 + n..])
        case Err(e) => Err(e)
        case Ok((skip, k)) => Emitted(Emit(m, skip + POINTER_SIZE, count), 1 + n + k)
    else Err(UnknownOpcode(op * 16))
  }

  function Prepend(a: seq<RebaseLocation>, r: Result<seq<RebaseLocation>, RebaseError>): Result<seq<RebaseLocation>, RebaseError> {
    match r
    case Err(e) => Err(e)
    case Ok(rest) => Ok(a + rest)
  }

  /** The slots a stream lists from registers `m`; anything after `DONE` is ignored. */
  function Locations(ops: seq<byte>, m: Machine): Result<seq<RebaseLocation>, RebaseError>
    decreases |ops|
  {
    if ops == [] || ops[0] / 16 == DONE then Ok([])
    else
      match Step(ops, m)
      case Err(e) => Err(e)
      case Ok((locs, m', used)) => Prepend(locs, Locations(ops[used..], m'))
  }

  // ----- the interpreter ------------------------------------------------

  function Shifted(r: Stepped, at: nat): Stepped {
    match r
    case Err(e) => Err(e)
    case Ok((locs, m, used)) => Ok((locs, m, at + used))
  }

  /** One turn of the opcode loop: what it emits, the registers and the cursor after it. */
  method Execute(opcodes: seq<byte>, start: nat, m: Machine) returns (r: Stepped)
    requires start < |opcodes| && m.offset < U64_LIMIT
    ensures r == Shifted(Step(opcodes[start..], m), start)
  {
    var segment, offset, kind := m.segment, m.offset, m.kind;
    var byte := opcodes[start];
    var at := start + 1;
    var imm := byte % 16;
    assert opcodes[start..][1..] == opcodes[at..];
    match byte / 16
    case 1 =>
      return Ok(([], Machine(segment, offset, imm), at));
    case 2 =>
      var v := Uleb(opcodes, at);
      if v.Err? { return Err(v.error); }
      return Ok(([], Machine(Some(imm), v.value.0, kind), v.value.1));
    case 3 =>
      var v := Uleb(opcodes, at);
      if v.Err? { return Err(v.error); }
      return Ok(([], Machine(segment, Wrap(offset + v.value.0), kind), v.value.1));
    case 4 =>
      return Ok(([], Machine(segment, Wrap(offset + imm * POINTER_SIZE), kind), at));
    case 5 =>
      var e := EmitTimes(segment, offset, kind, 0, imm);
      if e.Err? { return Err(e.error); }
      return Ok((e.value.0, Machine(segment, e.value.1, kind), at));
    case 6 =>
      var v := Uleb(opcodes, at);
      if v.Err? { return Err(v.error); }
      var e := EmitTimes(segment, offset, kind, 0, v.value.0);
      if e.Err? { return Err(e.error); }
      return Ok((e.value.0, Machine(segment, e.value.1, kind), v.value.1));
    case 7 =>
      var e := EmitTimes(segment, offset, kind, 0, 1);
      if e.Err? { return Err(e.error); }
      var v := Uleb(opcodes, at);
      if v.Err? { return Err(v.error); }
      EmitOnce(m, v.value.0);
      return Ok((e.value.0, Machine(segment, Wrap(Wrap(offset + v.value.0) + POINTER_SIZE), kind), v.value.1));
    case 8 =>
      var count := Uleb(opcodes, at);
      if count.Err? { return Err(count.error); }
      var skip := Uleb(opcodes, count.value.1);
      if skip.Err? { return Err(skip.error); }
      assert opcodes[start..][count.value.1 - start..] == opcodes[count.value.1..];
      var e := EmitTimes(segment, offset, kind, skip.value.0, count.value.0);
      if e.Err? { return Err(e.error); }
      return Ok((e.value.0, Machine(segment, e.value.1, kind), skip.value.1));
    case _ =>
      return Err(UnknownOpcode(byte / 16 * 16));
  }

  /** A single slot is the same whatever is skipped after it. */
  lemma EmitOnce(m: Machine, skip: nat)
    requires Emit(m, POINTER_SIZE, 1).Ok?
    ensures Emit(m, skip + POINTER_SIZE, 1)
            == Ok((Emit(m, POINTER_SIZE, 1).value.0, m.(offset := Wrap(Wrap(m.offset + skip) + POINTER_SIZE))))
  {
    WrapAdds(m.offset + skip, POINTER_SIZE);
    var a, b := Run(m.segment.value, m.offset, POINTER_SIZE, 1), Run(m.segment.value, m.offset, skip + POINTER_SIZE, 1);
    assert a[0] == b[0];
    assert a == b;
  }

  /** `rebase_locations`. */
  method RebaseLocations(opcodes: seq<byte>) returns (r: Result<seq<RebaseLocation>, RebaseError>)
    ensures r == Locations(opcodes, Start())
  {
    var out: seq<RebaseLocation> := [];
    var at: nat, m := 0, Start();
    ghost var all := Locations(opcodes, m);
    PrependNothing(all);
    assert opcodes[0..] == opcodes;
    while at < |opcodes|
      invariant at <= |opcodes| && m.offset < U64_LIMIT
      invariant all == Prepend(out, Locations(opcodes[at..], m))
      decreases |opcodes| - at
    {
      if opcodes[at] / 16 == DONE {
        break;
      }
      var step := Execute(opcodes, at, m);
      if step.Err? {
        return Err(step.error);
      }
      StepOffset(opcodes[at..], m);
      LocationsStep(opcodes, at, m, step.value.0, step.value.1, step.value.2);
      PrependTwice(out, step.value.0, Locations(opcodes[step.value.2..], step.value.1));
      out, m, at := out + step.value.0, step.value.1, step.value.2;
    }
    assert out + [] == out;
    return Ok(out);
  }

  lemma StepOffset(ops: seq<byte>, m: Machine)
    requires ops != [] && m.offset < U64_LIMIT && Step(ops, m).Ok?
    ensures Step(ops, m).value.1.offset < U64_LIMIT
  {}

  lemma LocationsStep(opcodes: seq<byte>, at: nat, m: Machine, locs: seq<RebaseLocation>, m': Machine, next: nat)
    requires at < |opcodes| && opcodes[at] / 16 != DONE
    requires Shifted(Step(opcodes[at..], m), at) == Ok((locs, m', next))
    ensures next <= |opcodes| && Locations(opcodes[at..], m) == Prepend(locs, Locations(opcodes[next..], m'))
  {
    assert opcodes[at..][next - at..] == opcodes[next..];
  }

  lemma PrependNothing(r: Result<seq<RebaseLocation>, RebaseError>)
    ensures Prepend([], r) == r
  {
    if r.Ok? {
      assert [] + r.value == r.value;
    }
  }

  lemma PrependTwice(a: seq<RebaseLocation>, b: seq<RebaseLocation>, r: Result<seq<RebaseLocation>, RebaseError>)
    ensures Prepend(a, Prepend(b, r)) == Prepend(a + b, r)
  {
    if r.Ok? {
      assert a + (b + r.value) == a + b + r.value;
    }
  }

  // ----- laws -----------------------------------------------------------

  /** Emit, then go on with `rest`. */
  function Then(r: Result<(seq<RebaseLocation>, Machine), RebaseError>, rest: seq<byte>): Result<seq<RebaseLocation>, RebaseError> {
    match r
    case Err(e) => Err(e)
    case Ok((locs, m)) => Prepend(locs, Locations(rest, m))
  }

  function Code(op: nat, imm: nat): (b: byte)
    requires op < 16 && imm < 16
    ensures b / 16 == op && b % 16 == imm
  {
    DivMod(op * 16 + imm, 16, op, imm);
    op * 16 + imm
  }

  function Skipping(skip: nat): seq<byte> { [Code(DO_REBASE_ADD_ADDR_ULEB, 0)] + Uleb128.Encode(skip) }

  function Repeated(s: seq<byte>, n: nat): seq<byte> { if n == 0 then [] else s + Repeated(s, n - 1) }

  lemma RunUnrolls(segment: nat, offset: nat, stride: nat, count: nat)
    requires count > 0
    ensures Run(segment, offset, stride, count)
            == Run(segment, offset, stride, 1) + Run(segment, Wrap(offset + stride), stride, count - 1)
  {
    var whole, tail := Run(segment, offset, stride, count), Run(segment, Wrap(offset + stride), stride, count - 1);
    forall i | 0 < i < count ensures whole[i] == tail[i - 1] {
      WrapAdds(offset + stride, (i - 1) * stride);
      NextMultiple(i - 1, stride);
    }
  }

  lemma OffsetUnrolls(offset: nat, stride: nat, rest: nat)
    ensures Wrap(offset + (rest + 1) * stride) == Wrap(Wrap(offset + stride) + rest * stride)
    ensures Wrap(Wrap(offset + stride)) == Wrap(offset + stride)
  {
    NextMultiple(rest, stride);
    WrapAdds(offset + stride, rest * stride);
    WrapAdds(offset + stride, 0);
  }

  lemma EmitUnrolls(m: Machine, stride: nat, count: nat)
    requires count > 0 && m.offset < U64_LIMIT
    ensures var first := Emit(m, stride, 1);
            && (first.Err? ==> Emit(m, stride, count) == Err(first.error))
            && (first.Ok? ==>
                  var rest := Emit(first.value.1, stride, count - 1);
                  && rest.Ok?
                  && Emit(m, stride, count) == Ok((first.value.0 + rest.value.0, rest.value.1)))
  {
    if Emit(m, stride, 1).Ok? {
      RunUnrolls(m.segment.value, m.offset, stride, count);
      OffsetUnrolls(m.offset, stride, count - 1);
      assert count == 1 ==> Run(m.segment.value, Wrap(m.offset + stride), stride, 0) == [];
    }
  }

  /** One skipping rebase at the front of a stream. */
  lemma SkippingStep(m: Machine, skip: nat, rest: seq<byte>)
    requires skip < U64_LIMIT
    ensures Locations(Skipping(skip) + rest, m) == Then(Emit(m, skip + POINTER_SIZE, 1), rest)
  {
    var ops := Skipping(skip) + rest;
    assert ops[1..] == Uleb128.Encode(skip) + rest;
    NumberOfEncode(skip, rest);
    assert ops[1 + |Uleb128.Encode(skip)|..] == rest;
  }

  /** A run of skipping rebases emits what one counted emission does. */
  lemma {:induction false} RepeatedRuns(m: Machine, skip: nat, n: nat, rest: seq<byte>)
    requires skip < U64_LIMIT && m.offset < U64_LIMIT
    ensures Locations(Repeated(Skipping(skip), n) + rest, m) == Then(Emit(m, skip + POINTER_SIZE, n), rest)
    decreases n
  {
    if n == 0 {
      assert Repeated(Skipping(skip), 0) + rest == rest;
      PrependNothing(Locations(rest, m));
    } else {
      var tail := Repeated(Skipping(skip), n - 1) + rest;
      assert Repeated(Skipping(skip), n) + rest == Skipping(skip) + tail;
      SkippingStep(m, skip, tail);
      EmitUnrolls(m, skip + POINTER_SIZE, n);
      var first := Emit(m, skip + POINTER_SIZE, 1);
      if first.Ok? {
        RepeatedRuns(first.value.1, skip, n - 1, rest);
        var more := Emit(first.value.1, skip + POINTER_SIZE, n - 1).value;
        PrependTwice(first.value.0, more.0, Locations(rest, more.1));
      }
    }
  }

  lemma CompactParts(c: seq<byte>, s: seq<byte>, rest: seq<byte>)
    ensures var ops := [Code(DO_REBASE_ULEB_TIMES_SKIPPING_ULEB, 0)] + c + s + rest;
            && ops[0] / 16 == DO_REBASE_ULEB_TIMES_SKIPPING_ULEB && |ops| == 1 + |c| + |s| + |rest|
            && ops[1..] == c + (s + rest) && ops[1 + |c|..] == s + rest && ops[1 + |c| + |s|..] == rest
  {}

  lemma CompactStep(ops: seq<byte>, m: Machine, count: nat, n: nat, skip: nat, k: nat)
    requires 1 + n + k <= |ops| && ops[0] / 16 == DO_REBASE_ULEB_TIMES_SKIPPING_ULEB
    requires Number(ops[1..]) == Ok((count, n)) && Number(ops[1 + n..]) == Ok((skip, k))
    ensures Locations(ops, m) == Then(Emit(m, skip + POINTER_SIZE, count), ops[1 + n + k..])
  {
    hide Number, Emit;
  }

  /** The compact opcode means its expansion: `count` single rebases, each skipping. */
  lemma CompactIsExpanded(m: Machine, count: nat, skip: nat, rest: seq<byte>)
    requires count < U64_LIMIT && skip < U64_LIMIT && m.offset < U64_LIMIT
    ensures Locations([Code(DO_REBASE_ULEB_TIMES_SKIPPING_ULEB, 0)] + Uleb128.Encode(count) + Uleb128.Encode(skip) + rest, m)
            == Locations(Repeated(Skipping(skip), count) + rest, m)
  {
    hide *;
    var c, s := Uleb128.Encode(count), Uleb128.Encode(skip);
    CompactParts(c, s, rest);
    NumberOfEncode(count, s + rest);
    NumberOfEncode(skip, rest);
    CompactStep([Code(DO_REBASE_ULEB_TIMES_SKIPPING_ULEB, 0)] + c + s + rest, m, count, |c|, skip, |s|);
    RepeatedRuns(m, skip, count, rest);
  }

  /** A stream that names one slot at a time. */
  function Listing(locs: seq<RebaseLocation>): seq<byte>
    requires forall i :: 0 <= i < |locs| ==> locs[i].segment < 16
  {
    if locs == [] then [Code(DONE, 0)]
    else
      [Code(SET_SEGMENT_AND_OFFSET_ULEB, locs[0].segment)] + Uleb128.Encode(locs[0].offset)
        + [Code(DO_REBASE_IMM_TIMES, 1)] + Listing(locs[1..])
  }

  lemma ListedSlot(m: Machine, loc: RebaseLocation, rest: seq<byte>)
    requires m.kind == REBASE_TYPE_POINTER && loc.segment < 16 && loc.offset < U64_LIMIT
    ensures var ops := [Code(SET_SEGMENT_AND_OFFSET_ULEB, loc.segment)] + Uleb128.Encode(loc.offset) + [Code(DO_REBASE_IMM_TIMES, 1)] + rest;
            Locations(ops, m) == Prepend([loc], Locations(rest, Machine(Some(loc.segment), Wrap(loc.offset + POINTER_SIZE), m.kind)))
  {
    var n, emit := Uleb128.Encode(loc.offset), [Code(DO_REBASE_IMM_TIMES, 1)];
    var ops := [Code(SET_SEGMENT_AND_OFFSET_ULEB, loc.segment)] + n + emit + rest;
    assert ops[1..] == n + (emit + rest);
    NumberOfEncode(loc.offset, emit + rest);
    assert ops[1 + |n|..] == emit + rest;
    var m1 := Machine(Some(loc.segment), loc.offset, m.kind);
    PrependNothing(Locations(emit + rest, m1));
    assert (emit + rest)[1..] == rest;
    assert Run(loc.segment, loc.offset, POINTER_SIZE, 1) == [loc] by {
      assert Run(loc.segment, loc.offset, POINTER_SIZE, 1)[0] == loc;
    }
  }

  /** Any list of slots in the first sixteen segments can be named, and reads back. */
  lemma {:induction false} ListingReads(m: Machine, locs: seq<RebaseLocation>)
    requires m.kind == REBASE_TYPE_POINTER
    requires forall i :: 0 <= i < |locs| ==> locs[i].segment < 16 && locs[i].offset < U64_LIMIT
    ensures Locations(Listing(locs), m) == Ok(locs)
    decreases |locs|
  {
    if locs != [] {
      ListedSlot(m, locs[0], Listing(locs[1..]));
      ListingReads(Machine(Some(locs[0].segment), Wrap(locs[0].offset + POINTER_SIZE), m.kind), locs[1..]);
      assert locs == [locs[0]] + locs[1..];
    }
  }
}
