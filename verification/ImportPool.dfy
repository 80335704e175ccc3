/** The imports table of chained fixups and its shared pool of symbol names. */
module ImportPool {
  import opened Arithmetic
  import opened Bytes
  import opened FixupCodec

  /** `libOrdinal` is an i32 and `addend` an i64 in the rewriter. */
  datatype ChainedImport = ChainedImport(libOrdinal: int, symbol: seq<byte>, addend: int, weak: bool)

  const IMPORT: nat := 1
  const IMPORT_ADDEND: nat := 2
  const IMPORT_ADDEND64: nat := 3

  const MAX_SHORT_NAME_OFFSET: nat := 0x7F_FFFF

  predicate KnownFormat(format: nat) { format in {IMPORT, IMPORT_ADDEND, IMPORT_ADDEND64} }

  function EntrySize(format: nat): nat {
    if format == IMPORT then 4 else if format == IMPORT_ADDEND then 8 else 16
  }

  predicate ShortOrdinal(ordinal: int) { -128 <= ordinal <= 127 }

  predicate FitsI32(v: int) { -0x8000_0000 <= v < 0x8000_0000 }

  predicate FitsI64(v: int) { -0x8000_0000_0000_0000 <= v < 0x8000_0000_0000_0000 }

  predicate WeakFlag(raw: nat, bit: nat)
    requires bit > 0
  {
    raw / bit % 2 == 1
  }

  /** The format actually written: any addend promotes IMPORT to IMPORT_ADDEND, a long pool
      or a wide ordinal promotes both to IMPORT_ADDEND64. */
  function ChooseFormat(imports: seq<ChainedImport>, poolSize: nat, requested: nat): nat {
    var format := if requested == IMPORT && (exists i :: 0 <= i < |imports| && imports[i].addend != 0)
                  then IMPORT_ADDEND else requested;
    if format != IMPORT_ADDEND64
       && (poolSize > MAX_SHORT_NAME_OFFSET || exists i :: 0 <= i < |imports| && !ShortOrdinal(imports[i].libOrdinal))
    then IMPORT_ADDEND64 else format
  }

  // ----- one entry ------------------------------------------------------

  /** One table entry; every field is truncated to its width. */
  function EntryBytes(imp: ChainedImport, nameOffset: nat, format: nat): (r: seq<byte>)
    ensures |r| == EntrySize(format)
  {
    var weak := if imp.weak then 1 else 0;
    if format == IMPORT || format == IMPORT_ADDEND then
      Le(imp.libOrdinal % 0x100 + weak * 0x100 + nameOffset % 0x80_0000 * 0x200, 4)
        + if format == IMPORT then [] else Le(imp.addend % U32_LIMIT, 4)
    else
      Le(imp.libOrdinal % U16_LIMIT + weak * U16_LIMIT, 4) + Le(nameOffset % U32_LIMIT, 4) + Le(imp.addend % U64_LIMIT, 8)
  }

  datatype Entry = Entry(libOrdinal: int, weak: bool, nameOffset: nat, addend: int)

  function ReadEntry(bytes: seq<byte>, e: nat, format: nat): Entry
    requires e + EntrySize(format) <= |bytes|
  {
    var raw := FromLe(bytes[e..e + 4]);
    if format == IMPORT || format == IMPORT_ADDEND then
      Entry(SignExtend(raw % 0x100, 0x80), WeakFlag(raw, 0x100), raw / 0x200 % 0x80_0000,
            if format == IMPORT then 0 else SignExtend(FromLe(bytes[e + 4..e + 8]), 0x8000_0000))
    else
      Entry(SignExtend(raw % U16_LIMIT, 0x8000), WeakFlag(raw, U16_LIMIT), FromLe(bytes[e + 4..e + 8]),
            SignExtend(FromLe(bytes[e + 8..e + 16]), 0x8000_0000_0000_0000))
  }

  /** What the table keeps of an ordinal: 16 bits, sign-extended. */
  function Wrap16(ordinal: int): int { SignExtend(ordinal % U16_LIMIT, 0x8000) }

  lemma SignExtendExact(v: int, half: int)
    requires half > 0
    ensures -half <= v < half ==> SignExtend(v % (2 * half), half) == v
  {
    if 0 <= v < half {
      DivMod(v, 2 * half, 0, v);
    } else if -half <= v < 0 {
      DivMod(v, 2 * half, -1, v + 2 * half);
    }
  }

  lemma Wrap16Exact(ordinal: int)
    ensures Wrap16(ordinal) == ordinal <==> -0x8000 <= ordinal < 0x8000
  {
    SignExtendExact(ordinal, 0x8000);
  }

  lemma FieldAt(bytes: seq<byte>, at: nat, v: nat, width: nat)
    requires HasAt(bytes, at, Le(v, width)) && v < Pow256(width)
    ensures FromLe(bytes[at..at + width]) == v
  {
    FromLeOfLe(v, width);
  }

  lemma ShortWord(ordinal: nat, weak: nat, name: nat)
    requires ordinal < 0x100 && weak < 2 && name < 0x80_0000
    ensures var w := ordinal + weak * 0x100 + name * 0x200;
            w < U32_LIMIT && w % 0x100 == ordinal && (WeakFlag(w, 0x100) <==> weak == 1) && w / 0x200 % 0x80_0000 == name
  {
    var w := ordinal + weak * 0x100 + name * 0x200;
    DivMod(w, 0x100, weak + name * 2, ordinal);
    DivMod(weak + name * 2, 2, name, weak);
    DivMod(w, 0x200, name, ordinal + weak * 0x100);
  }

  lemma LongWord(ordinal: nat, weak: nat)
    requires ordinal < U16_LIMIT && weak < 2
    ensures var w := ordinal + weak * U16_LIMIT;
            w < U32_LIMIT && w % U16_LIMIT == ordinal && (WeakFlag(w, U16_LIMIT) <==> weak == 1)
  {
    DivMod(ordinal + weak * U16_LIMIT, U16_LIMIT, weak, ordinal);
  }

  /** The import fits what `format` can say beside its ordinal's top bits. */
  predicate EntryFits(imp: ChainedImport, nameOffset: nat, format: nat) {
    && nameOffset < U32_LIMIT && FitsI64(imp.addend)
    && (format != IMPORT_ADDEND64 ==> ShortOrdinal(imp.libOrdinal) && nameOffset <= MAX_SHORT_NAME_OFFSET)
    && (format == IMPORT ==> imp.addend == 0)
    && (format == IMPORT_ADDEND ==> FitsI32(imp.addend))
  }

  lemma ShortEntryReads(bytes: seq<byte>, e: nat, imp: ChainedImport, nameOffset: nat, format: nat)
    requires format in {IMPORT, IMPORT_ADDEND} && EntryFits(imp, nameOffset, format)
    requires HasAt(bytes, e, EntryBytes(imp, nameOffset, format))
    ensures ReadEntry(bytes, e, format) == Entry(imp.libOrdinal, imp.weak, nameOffset, imp.addend)
  {
    Pow256Values();
    var weak := if imp.weak then 1 else 0;
    var w := imp.libOrdinal % 0x100 + weak * 0x100 + nameOffset * 0x200;
    ShortWord(imp.libOrdinal % 0x100, weak, nameOffset);
    SignExtendExact(imp.libOrdinal, 0x80);
    var tail := if format == IMPORT then [] else Le(imp.addend % U32_LIMIT, 4);
    HasAtSplit(bytes, e, Le(w, 4), tail);
    FieldAt(bytes, e, w, 4);
    if format == IMPORT_ADDEND {
      FieldAt(bytes, e + 4, imp.addend % U32_LIMIT, 4);
      SignExtendExact(imp.addend, 0x8000_0000);
    }
  }

  lemma LongEntryReads(bytes: seq<byte>, e: nat, imp: ChainedImport, nameOffset: nat)
    requires EntryFits(imp, nameOffset, IMPORT_ADDEND64)
    requires HasAt(bytes, e, EntryBytes(imp, nameOffset, IMPORT_ADDEND64))
    ensures ReadEntry(bytes, e, IMPORT_ADDEND64) == Entry(Wrap16(imp.libOrdinal), imp.weak, nameOffset, imp.addend)
  {
    Pow256Values();
    hide Le, FromLe, Pow256, HasAt, SignExtend;
    var weak := if imp.weak then 1 else 0;
    var w := imp.libOrdinal % U16_LIMIT + weak * U16_LIMIT;
    LongWord(imp.libOrdinal % U16_LIMIT, weak);
    HasAtSplit(bytes, e, Le(w, 4) + Le(nameOffset, 4), Le(imp.addend % U64_LIMIT, 8));
    HasAtSplit(bytes, e, Le(w, 4), Le(nameOffset, 4));
    FieldAt(bytes, e, w, 4);
    FieldAt(bytes, e + 4, nameOffset, 4);
    FieldAt(bytes, e + 8, imp.addend % U64_LIMIT, 8);
    SignExtendExact(imp.addend, 0x8000_0000_0000_0000);
  }

  // ----- the table ------------------------------------------------------

  /** Entries from import `i` on. */
  function TableFrom(imports: seq<ChainedImport>, offsets: seq<nat>, format: nat, i: nat): (r: seq<byte>)
    requires |offsets| == |imports| && i <= |imports|
    ensures |r| == (|imports| - i) * EntrySize(format)
    decreases |imports| - i
  {
    if i == |imports| then [] else
      EntryStep(|imports| - i, EntrySize(format));
      EntryBytes(imports[i], offsets[i], format) + TableFrom(imports, offsets, format, i + 1)
  }

  /** `read_cstr`: the NUL-terminated UTF-8 string at `offset` of the pool. */
  function PoolString(bytes: seq<byte>, pool: nat, end: nat, offset: nat): Option<seq<byte>>
    requires pool <= end <= |bytes|
  {
    if pool + offset > end then None
    else
      var nul := NulAt(bytes[..end], pool + offset);
      if nul < end && ValidUtf8(bytes[pool + offset..nul]) then Some(bytes[pool + offset..nul]) else None
  }

  /** The import whose entry starts at `e`, unless its name is missing or not UTF-8. */
  function ReadImport(bytes: seq<byte>, e: nat, pool: nat, format: nat, end: nat): Option<ChainedImport>
    requires e + EntrySize(format) <= |bytes| && pool <= end <= |bytes|
  {
    var entry := ReadEntry(bytes, e, format);
    match PoolString(bytes, pool, end, entry.nameOffset)
    case None => None
    case Some(symbol) => Some(ChainedImport(entry.libOrdinal, symbol, entry.addend, entry.weak))
  }

  function Prepend(a: seq<ChainedImport>, r: Result<seq<ChainedImport>, FixupError>): Result<seq<ChainedImport>, FixupError> {
    match r
    case Ok(rest) => Ok(a + rest)
    case Err(e) => Err(e)
  }

  lemma PrependTwice(a: seq<ChainedImport>, b: seq<ChainedImport>, r: Result<seq<ChainedImport>, FixupError>)
    ensures Prepend(a, Prepend(b, r)) == Prepend(a + b, r) && Prepend([], r) == r
  {
    if r.Ok? {
      assert a + (b + r.value) == a + b + r.value && [] + r.value == r.value;
    }
  }

  /** The `count` imports whose entries start at `e`. */
  function DecodeFrom(bytes: seq<byte>, e: nat, pool: nat, count: nat, format: nat, end: nat): Result<seq<ChainedImport>, FixupError>
    requires e + count * EntrySize(format) <= end <= |bytes| && pool <= end
    decreases count
  {
    if count == 0 then Ok([])
    else
      EntryStep(count, EntrySize(format));
      match ReadImport(bytes, e, pool, format, end)
      case None => Err(Truncated)
      case Some(imp) => Prepend([imp], DecodeFrom(bytes, e + EntrySize(format), pool, count - 1, format, end))
  }

  lemma EntryStep(count: nat, size: nat)
    requires count > 0
    ensures count * size == size + (count - 1) * size
  {}

  /** `decode_imports` over a table at `table` and a pool at `pool`, both inside `end`. */
  function DecodeImports(bytes: seq<byte>, table: nat, pool: nat, count: nat, format: nat, end: nat): Result<seq<ChainedImport>, FixupError>
    requires end <= |bytes|
  {
    if !KnownFormat(format) || table + count * EntrySize(format) > end || pool > end then Err(Truncated)
    else DecodeFrom(bytes, table, pool, count, format, end)
  }

  method DecodeImportsLoop(bytes: seq<byte>, table: nat, pool: nat, count: nat, format: nat, end: nat)
    returns (r: Result<seq<ChainedImport>, FixupError>)
    requires end <= |bytes|
    ensures r == DecodeImports(bytes, table, pool, count, format, end)
  {
    if !KnownFormat(format) || table + count * EntrySize(format) > end || pool > end {
      return Err(Truncated);
    }
    r := DecodeEntries(bytes, table, pool, count, format, end);
  }

  /** One entry of a decoding run that has produced `out` so far. */
  ghost predicate Decoding(all: Result<seq<ChainedImport>, FixupError>, out: seq<ChainedImport>,
                           bytes: seq<byte>, e: nat, pool: nat, left: nat, format: nat, end: nat) {
    && e + left * EntrySize(format) <= end <= |bytes| && pool <= end
    && all == Prepend(out, DecodeFrom(bytes, e, pool, left, format, end))
  }

  lemma DecodingStep(all: Result<seq<ChainedImport>, FixupError>, out: seq<ChainedImport>,
                     bytes: seq<byte>, e: nat, pool: nat, left: nat, format: nat, end: nat)
    requires left > 0 && Decoding(all, out, bytes, e, pool, left, format, end)
    ensures e + EntrySize(format) <= end
    ensures var imp := ReadImport(bytes, e, pool, format, end);
            && (imp.None? ==> all == Err(Truncated))
            && (imp.Some? ==> Decoding(all, out + [imp.value], bytes, e + EntrySize(format), pool, left - 1, format, end))
  {
    EntryStep(left, EntrySize(format));
    var imp := ReadImport(bytes, e, pool, format, end);
    if imp.Some? {
      PrependTwice(out, [imp.value], DecodeFrom(bytes, e + EntrySize(format), pool, left - 1, format, end));
    }
  }

  lemma DecodingDone(all: Result<seq<ChainedImport>, FixupError>, out: seq<ChainedImport>,
                     bytes: seq<byte>, e: nat, pool: nat, format: nat, end: nat)
    requires Decoding(all, out, bytes, e, pool, 0, format, end)
    ensures all == Ok(out)
  {
    assert out + [] == out;
  }

  method DecodeEntries(bytes: seq<byte>, table: nat, pool: nat, count: nat, format: nat, end: nat)
    returns (r: Result<seq<ChainedImport>, FixupError>)
    requires table + count * EntrySize(format) <= end <= |bytes| && pool <= end
    ensures r == DecodeFrom(bytes, table, pool, count, format, end)
  {
    ghost var all := DecodeFrom(bytes, table, pool, count, format, end);
    PrependTwice([], [], all);
    ghost var decoding := (out, e: nat, left: nat) => Decoding(all, out, bytes, e, pool, left, format, end);
    assert decoding([], table, count);
    forall out, e: nat, left: nat | left > 0 && decoding(out, e, left)
      ensures StepsTo(decoding, all, out, e, left, bytes, pool, format, end)
    {
      DecodingStep(all, out, bytes, e, pool, left, format, end);
    }
    forall out, e: nat | decoding(out, e, 0) ensures all == Ok(out) {
      DecodingDone(all, out, bytes, e, pool, format, end);
    }
    r := DecodeLoop(bytes, table, pool, count, format, end, all, decoding);
  }

  ghost predicate StepsTo(decoding: (seq<ChainedImport>, nat, nat) -> bool, all: Result<seq<ChainedImport>, FixupError>,
                          out: seq<ChainedImport>, e: nat, left: nat, bytes: seq<byte>, pool: nat, format: nat, end: nat)
  {
    && left > 0 && e + EntrySize(format) <= end <= |bytes| && pool <= end
    && var imp := ReadImport(bytes, e, pool, format, end);
       if imp.None? then all == Err(Truncated) else decoding(out + [imp.value], e + EntrySize(format), left - 1)
  }

  method DecodeLoop(bytes: seq<byte>, table: nat, pool: nat, count: nat, format: nat, end: nat,
                    ghost all: Result<seq<ChainedImport>, FixupError>, ghost decoding: (seq<ChainedImport>, nat, nat) -> bool)
    returns (r: Result<seq<ChainedImport>, FixupError>)
    requires decoding([], table, count)
    requires forall out, e: nat, left: nat {:trigger decoding(out, e, left)} ::
               left > 0 && decoding(out, e, left) ==> StepsTo(decoding, all, out, e, left, bytes, pool, format, end)
    requires forall out, e: nat {:trigger decoding(out, e, 0)} :: decoding(out, e, 0) ==> all == Ok(out)
    ensures r == all
  {
    hide ReadImport, EntrySize;
    var out: seq<ChainedImport> := [];
    var e: nat, left: nat := table, count;
    while left > 0
      invariant decoding(out, e, left)
    {
      assert StepsTo(decoding, all, out, e, left, bytes, pool, format, end);
      var imp := ReadImport(bytes, e, pool, format, end);
      if imp.None? {
        return Err(Truncated);
      }
      e := e + EntrySize(format);
      left := left - 1;
      out := out + [imp.value];
    }
    return Ok(out);
  }

  // ----- building -------------------------------------------------------

  /** Every import's symbol stands NUL-terminated in the pool at its offset. */
  ghost predicate Pooled(pool: seq<byte>, offsets: seq<nat>, imports: seq<ChainedImport>) {
    |offsets| == |imports| && forall i :: 0 <= i < |imports| ==> HasAt(pool, offsets[i], imports[i].symbol + [0])
  }

  /** Lay the names out, each distinct symbol once. */
  method BuildPool(imports: seq<ChainedImport>) returns (pool: seq<byte>, offsets: seq<nat>)
    ensures Pooled(pool, offsets, imports)
    ensures forall i, j :: 0 <= i < j < |imports| && imports[i].symbol == imports[j].symbol ==> offsets[i] == offsets[j]
  {
    pool, offsets := [], [];
    var seen: map<seq<byte>, nat> := map[];
    var k := 0;
    while k < |imports|
      invariant k <= |imports| && Pooled(pool, offsets, imports[..k])
      invariant forall i :: 0 <= i < k ==> imports[i].symbol in seen && seen[imports[i].symbol] == offsets[i]
      invariant forall s :: s in seen ==> HasAt(pool, seen[s], s + [0])
    {
      var symbol := imports[k].symbol;
      if symbol in seen {
        offsets := offsets + [seen[symbol]];
      } else {
        var off := |pool|;
        ghost var before := pool;
        seen := seen[symbol := off];
        pool := pool + symbol;
        pool := pool + [0];
        assert pool == before + (symbol + [0]) + [];
        HasAtMiddle(before, symbol + [0], []);
        forall s | s in seen && s != symbol ensures HasAt(pool, seen[s], s + [0]) {
          HasAtExtend(before, symbol + [0], seen[s], s + [0]);
        }
        offsets := offsets + [off];
      }
      k := k + 1;
    }
    assert imports[..|imports|] == imports;
  }

  /** `build_imports_blob`: the table followed by the pool. It fails exactly when an addend
      does not fit the 32 bits of a format it was not promoted from; a name offset never
      overflows. */
  method BuildImportsBlob(imports: seq<ChainedImport>, requested: nat)
    returns (r: Result<(nat, seq<byte>), FixupError>, ghost pool: seq<byte>, ghost offsets: seq<nat>)
    requires KnownFormat(requested)
    ensures Pooled(pool, offsets, imports)
    ensures var format := ChooseFormat(imports, |pool|, requested);
            && KnownFormat(format)
            && (r.Err? <==> format == IMPORT_ADDEND && exists i :: 0 <= i < |imports| && !FitsI32(imports[i].addend))
            && (r.Ok? ==> r.value == (format, TableFrom(imports, offsets, format, 0) + pool))
  {
    var names, offs := BuildPool(imports);
    pool, offsets := names, offs;
    var format := ChooseFormat(imports, |names|, requested);
    if format == IMPORT_ADDEND {
      var i := 0;
      while i < |imports|
        invariant i <= |imports| && forall j :: 0 <= j < i ==> FitsI32(imports[j].addend)
      {
        if !FitsI32(imports[i].addend) {
          return Err(AddendOverflow(i, imports[i].addend)), pool, offsets;
        }
        i := i + 1;
      }
    }
    var table := BuildTable(imports, offs, format, names);
    return Ok((format, table + names)), pool, offsets;
  }

  /** `table` holds the entries before `i`. */
  ghost predicate Tabled(table: seq<byte>, imports: seq<ChainedImport>, offs: seq<nat>, format: nat, i: nat) {
    |offs| == |imports| && i <= |imports| && table + TableFrom(imports, offs, format, i) == TableFrom(imports, offs, format, 0)
  }

  lemma TabledStep(table: seq<byte>, imports: seq<ChainedImport>, offs: seq<nat>, format: nat, i: nat)
    requires Tabled(table, imports, offs, format, i) && i < |imports|
    ensures Tabled(table + EntryBytes(imports[i], offs[i], format), imports, offs, format, i + 1)
  {
    var entry, rest := EntryBytes(imports[i], offs[i], format), TableFrom(imports, offs, format, i + 1);
    assert TableFrom(imports, offs, format, i) == entry + rest;
    assert table + (entry + rest) == table + entry + rest;
  }

  lemma TabledDone(table: seq<byte>, imports: seq<ChainedImport>, offs: seq<nat>, format: nat)
    requires Tabled(table, imports, offs, format, |imports|)
    ensures table == TableFrom(imports, offs, format, 0)
  {
    assert table + [] == table;
  }

  method BuildTable(imports: seq<ChainedImport>, offs: seq<nat>, format: nat, ghost names: seq<byte>) returns (table: seq<byte>)
    requires Pooled(names, offs, imports) && (format != IMPORT_ADDEND64 ==> |names| <= MAX_SHORT_NAME_OFFSET)
    ensures table == TableFrom(imports, offs, format, 0)
  {
    table := [];
    var i := 0;
    assert [] + TableFrom(imports, offs, format, 0) == TableFrom(imports, offs, format, 0);
    while i < |imports|
      invariant Tabled(table, imports, offs, format, i)
    {
      assert HasAt(names, offs[i], imports[i].symbol + [0]);
      if format != IMPORT_ADDEND64 && offs[i] > MAX_SHORT_NAME_OFFSET {
        assert false;
      }
      TabledStep(table, imports, offs, format, i);
      table := table + EntryBytes(imports[i], offs[i], format);
      i := i + 1;
    }
    TabledDone(table, imports, offs, format);
  }

  // ----- round trip -----------------------------------------------------

  /** The imports as the table keeps them. */
  function Wrapped(imports: seq<ChainedImport>): seq<ChainedImport> {
    if imports == [] then []
    else [imports[0].(libOrdinal := Wrap16(imports[0].libOrdinal))] + Wrapped(imports[1..])
  }

  lemma {:induction false} WrappedExact(imports: seq<ChainedImport>)
    ensures Wrapped(imports) == imports <==> forall i :: 0 <= i < |imports| ==> -0x8000 <= imports[i].libOrdinal < 0x8000
  {
    if imports != [] {
      WrappedExact(imports[1..]);
      Wrap16Exact(imports[0].libOrdinal);
      assert imports == [imports[0]] + imports[1..];
      assert Wrapped(imports)[1..] == Wrapped(imports[1..]);
      assert forall i :: 0 < i < |imports| ==> imports[i] == imports[1..][i - 1];
    }
  }

  lemma PoolStringReads(bytes: seq<byte>, poolAt: nat, end: nat, pool: seq<byte>, offset: nat, symbol: seq<byte>)
    requires PlainName(symbol) && HasAt(pool, offset, symbol + [0])
    requires end <= |bytes| && poolAt + |pool| <= end && HasAt(bytes, poolAt, pool)
    ensures PoolString(bytes, poolAt, end, offset) == Some(symbol)
  {
    var at, s := poolAt + offset, symbol + [0];
    HasAtInside(bytes, poolAt, pool, offset, s);
    assert bytes[..end][at..at + |s|] == bytes[at..at + |s|];
    NulAtEndsName(bytes[..end], at, symbol);
    assert bytes[..end][at..at + |symbol|] == bytes[at..at + |symbol|];
    PlainNameIsUtf8(symbol);
  }

  ghost predicate Importable(imports: seq<ChainedImport>, offsets: seq<nat>, format: nat)
    requires |offsets| == |imports|
  {
    forall i :: 0 <= i < |imports| ==> PlainName(imports[i].symbol) && EntryFits(imports[i], offsets[i], format)
  }

  lemma EntryReads(bytes: seq<byte>, e: nat, imp: ChainedImport, nameOffset: nat, format: nat)
    requires KnownFormat(format) && EntryFits(imp, nameOffset, format)
    requires HasAt(bytes, e, EntryBytes(imp, nameOffset, format))
    ensures ReadEntry(bytes, e, format) == Entry(Wrap16(imp.libOrdinal), imp.weak, nameOffset, imp.addend)
  {
    if format == IMPORT_ADDEND64 {
      LongEntryReads(bytes, e, imp, nameOffset);
    } else {
      ShortEntryReads(bytes, e, imp, nameOffset, format);
      Wrap16Exact(imp.libOrdinal);
    }
  }

  /** Decoding a table and its pool, wherever they stand, gives back the wrapped imports. */
  lemma {:induction false} DecodeFromReads(bytes: seq<byte>, e: nat, poolAt: nat, end: nat, format: nat,
                                           imports: seq<ChainedImport>, offsets: seq<nat>, pool: seq<byte>, i: nat)
    requires KnownFormat(format) && Pooled(pool, offsets, imports) && Importable(imports, offsets, format) && i <= |imports|
    requires end <= |bytes| && e + (|imports| - i) * EntrySize(format) <= end
    requires poolAt + |pool| <= end && HasAt(bytes, poolAt, pool)
    requires HasAt(bytes, e, TableFrom(imports, offsets, format, i))
    ensures DecodeFrom(bytes, e, poolAt, |imports| - i, format, end) == Ok(Wrapped(imports[i..]))
    decreases |imports| - i
  {
    if i < |imports| {
      EntryStep(|imports| - i, EntrySize(format));
      HasAtSplit(bytes, e, EntryBytes(imports[i], offsets[i], format), TableFrom(imports, offsets, format, i + 1));
      DecodeFromReads(bytes, e + EntrySize(format), poolAt, end, format, imports, offsets, pool, i + 1);
      assert HasAt(pool, offsets[i], imports[i].symbol + [0]);
      EntryReads(bytes, e, imports[i], offsets[i], format);
      PoolStringReads(bytes, poolAt, end, pool, offsets[i], imports[i].symbol);
      assert imports[i..][1..] == imports[i + 1..];
    }
  }

  lemma ImportsDecode(bytes: seq<byte>, at: nat, end: nat, imports: seq<ChainedImport>, format: nat, offsets: seq<nat>, pool: seq<byte>)
    requires KnownFormat(format) && Pooled(pool, offsets, imports) && Importable(imports, offsets, format)
    requires HasAt(bytes, at, TableFrom(imports, offsets, format, 0) + pool)
    requires at + |TableFrom(imports, offsets, format, 0)| + |pool| <= end <= |bytes|
    ensures DecodeImports(bytes, at, at + |TableFrom(imports, offsets, format, 0)|, |imports|, format, end) == Ok(Wrapped(imports))
  {
    hide DecodeFrom, TableFrom, Importable, EntrySize, Wrapped;
    var table := TableFrom(imports, offsets, format, 0);
    HasAtSplit(bytes, at, table, pool);
    DecodeFromReads(bytes, at, at + |table|, end, format, imports, offsets, pool, 0);
    assert imports[0..] == imports;
  }

  lemma PooledRoundTrip(bytes: seq<byte>, at: nat, end: nat, imports: seq<ChainedImport>, format: nat, offsets: seq<nat>, pool: seq<byte>)
    requires KnownFormat(format) && Pooled(pool, offsets, imports) && Importable(imports, offsets, format)
    requires HasAt(bytes, at, TableFrom(imports, offsets, format, 0) + pool)
    requires at + |TableFrom(imports, offsets, format, 0)| + |pool| <= end <= |bytes|
    ensures var decoded := DecodeImports(bytes, at, at + |TableFrom(imports, offsets, format, 0)|, |imports|, format, end);
            && decoded == Ok(Wrapped(imports))
            && (decoded == Ok(imports) <==> forall i :: 0 <= i < |imports| ==> -0x8000 <= imports[i].libOrdinal < 0x8000)
  {
    ImportsDecode(bytes, at, end, imports, format, offsets, pool);
    WrappedExact(imports);
  }

  /** The chosen format can hold every import it was not asked to reject. */
  lemma ChosenFits(imports: seq<ChainedImport>, requested: nat, offsets: seq<nat>, pool: seq<byte>)
    requires KnownFormat(requested) && Pooled(pool, offsets, imports) && |pool| < U32_LIMIT
    requires forall i :: 0 <= i < |imports| ==> PlainName(imports[i].symbol) && FitsI64(imports[i].addend)
    requires ChooseFormat(imports, |pool|, requested) == IMPORT_ADDEND ==> forall i :: 0 <= i < |imports| ==> FitsI32(imports[i].addend)
    ensures KnownFormat(ChooseFormat(imports, |pool|, requested))
    ensures Importable(imports, offsets, ChooseFormat(imports, |pool|, requested))
  {
    var format := ChooseFormat(imports, |pool|, requested);
    forall i | 0 <= i < |imports| ensures EntryFits(imports[i], offsets[i], format) {
      assert HasAt(pool, offsets[i], imports[i].symbol + [0]);
    }
  }

  /** Whatever was promoted and however names are shared, the blob decodes to the imports
      with their ordinals wrapped to 16 bits; it decodes to the imports themselves exactly
      when every ordinal is a 16-bit number. */
  lemma ImportsRoundTrip(bytes: seq<byte>, at: nat, end: nat, imports: seq<ChainedImport>, requested: nat,
                         offsets: seq<nat>, pool: seq<byte>)
    requires KnownFormat(requested) && Pooled(pool, offsets, imports) && |pool| < U32_LIMIT
    requires forall i :: 0 <= i < |imports| ==> PlainName(imports[i].symbol) && FitsI64(imports[i].addend)
    requires var format := ChooseFormat(imports, |pool|, requested);
             && (format == IMPORT_ADDEND ==> forall i :: 0 <= i < |imports| ==> FitsI32(imports[i].addend))
             && HasAt(bytes, at, TableFrom(imports, offsets, format, 0) + pool)
             && at + |TableFrom(imports, offsets, format, 0)| + |pool| <= end <= |bytes|
    ensures var format := ChooseFormat(imports, |pool|, requested);
            var decoded := DecodeImports(bytes, at, at + |TableFrom(imports, offsets, format, 0)|, |imports|, format, end);
            && decoded == Ok(Wrapped(imports))
            && (decoded == Ok(imports) <==> forall i :: 0 <= i < |imports| ==> -0x8000 <= imports[i].libOrdinal < 0x8000)
  {
    ChosenFits(imports, requested, offsets, pool);
    PooledRoundTrip(bytes, at, end, imports, ChooseFormat(imports, |pool|, requested), offsets, pool);
  }
}
