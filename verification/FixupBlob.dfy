/** The chained-fixups blob: header, chain starts of every segment, imports; laid out and read. */
module FixupBlob {
  import opened Bytes
  import opened ImportPool

  const FIXUPS_HEADER_SIZE: nat := 32

  // ----- layout ---------------------------------------------------------

  function Pad4(n: nat): (r: nat)
    ensures n <= r < n + 4 && r % 4 == 0
  {
    (n + 3) / 4 * 4
  }

  function Padded4(s: seq<byte>): (r: seq<byte>)
    ensures |r| == Pad4(|s|)
  {
    s + Zeros(Pad4(|s|) - |s|)
  }

  function FirstPayload(payloads: seq<Option<seq<byte>>>): (r: seq<byte>)
    requires payloads != []
    ensures |r| == if payloads[0].Some? then Pad4(|payloads[0].value|) else 0
  {
    if payloads[0].Some? then Padded4(payloads[0].value) else []
  }

  /** The starts_in_segment payloads one after the other, four-aligned. */
  function PayloadBytes(payloads: seq<Option<seq<byte>>>): seq<byte> {
    if payloads == [] then [] else FirstPayload(payloads) + PayloadBytes(payloads[1..])
  }

  /** Where each payload starts, relative to starts_in_image; 0 for a segment without one. */
  function PayloadOffsets(payloads: seq<Option<seq<byte>>>, cursor: nat): (r: seq<nat>)
    ensures |r| == |payloads|
    decreases |payloads|
  {
    if payloads == [] then []
    else [if payloads[0].Some? then cursor else 0] + PayloadOffsets(payloads[1..], cursor + |FirstPayload(payloads)|)
  }

  /** starts_in_image: the count, the offsets and the payloads. */
  function StartsInImage(payloads: seq<Option<seq<byte>>>): seq<byte> {
    Le(|payloads|, 4) + Words(PayloadOffsets(payloads, 4 + 4 * |payloads|)) + PayloadBytes(payloads)
  }

  function BlobHeader(importsOff: nat, symbolsOff: nat, count: nat, format: nat): (r: seq<byte>)
    ensures |r| == FIXUPS_HEADER_SIZE
  {
    Words([0, FIXUPS_HEADER_SIZE, importsOff, symbolsOff, count, format, 0, 0])
  }

  function Blob(payloads: seq<Option<seq<byte>>>, count: nat, tableSize: nat, format: nat, imports: seq<byte>): seq<byte> {
    var starts := StartsInImage(payloads);
    var importsOff := FIXUPS_HEADER_SIZE + |starts|;
    BlobHeader(importsOff, importsOff + tableSize, count, format) + starts + imports
      + Zeros(Pad8(importsOff + |imports|) - (importsOff + |imports|))
  }

  // ----- how many imports a blob holds ----------------------------------

  /** The name offset of the entry at `e`, as the count heuristic reads it. */
  function NameOffsetAt(blob: seq<byte>, e: nat, format: nat): nat
    requires e + EntrySize(format) <= |blob|
  {
    if format == IMPORT || format == IMPORT_ADDEND then FromLe(blob[e..e + 4]) / 0x200 % 0x80_0000 else FromLe(blob[e + 4..e + 8])
  }

  /** `measure_imports_blob` from entry position `e`, with `count` entries already counted. */
  function MeasureFrom(blob: seq<byte>, format: nat, e: nat, count: nat): (n: nat)
    ensures n >= count
    decreases |blob| - e
  {
    if e + EntrySize(format) > |blob| || e + EntrySize(format) + NameOffsetAt(blob, e, format) >= |blob| then count
    else MeasureFrom(blob, format, e + EntrySize(format), count + 1)
  }

  function Measure(blob: seq<byte>, format: nat): nat { MeasureFrom(blob, format, 0, 0) }

  /** The blob `serialize` makes of payloads and imports: it trusts the recount. */
  function SerializedBlob(payloads: seq<Option<seq<byte>>>, format: nat, imports: seq<byte>): seq<byte> {
    Blob(payloads, Measure(imports, format), Measure(imports, format) * EntrySize(format), format, imports)
  }

  method MeasureImportsBlob(blob: seq<byte>, format: nat) returns (count: nat, tableSize: nat)
    ensures count == Measure(blob, format) && tableSize == count * EntrySize(format)
  {
    count := 0;
    var e: nat := 0;
    while true
      invariant e == count * EntrySize(format) && MeasureFrom(blob, format, e, count) == Measure(blob, format)
      decreases |blob| - e
    {
      if e + EntrySize(format) > |blob| || e + EntrySize(format) + NameOffsetAt(blob, e, format) >= |blob| {
        tableSize := e;
        return;
      }
      assert (count + 1) * EntrySize(format) == count * EntrySize(format) + EntrySize(format);
      count, e := count + 1, e + EntrySize(format);
    }
  }

  /** An entry the writer wrote reads back its name offset. */
  lemma WrittenOffset(blob: seq<byte>, e: nat, imp: ChainedImport, nameOffset: nat, format: nat)
    requires KnownFormat(format) && EntryFits(imp, nameOffset, format) && HasAt(blob, e, EntryBytes(imp, nameOffset, format))
    ensures NameOffsetAt(blob, e, format) == nameOffset
  {
    EntryReads(blob, e, imp, nameOffset, format);
  }

  /** A blob whose entries from `i` on start at `e` and whose pool ends it. */
  ghost predicate TableAt(blob: seq<byte>, e: nat, imports: seq<ChainedImport>, offsets: seq<nat>, format: nat, pool: seq<byte>, i: nat) {
    && |offsets| == |imports| && i <= |imports|
    && HasAt(blob, e, TableFrom(imports, offsets, format, i))
    && |blob| == e + (|imports| - i) * EntrySize(format) + |pool|
  }

  lemma TableAtStep(blob: seq<byte>, e: nat, imports: seq<ChainedImport>, offsets: seq<nat>, format: nat, pool: seq<byte>, i: nat)
    requires TableAt(blob, e, imports, offsets, format, pool, i) && i < |imports|
    ensures HasAt(blob, e, EntryBytes(imports[i], offsets[i], format))
    ensures TableAt(blob, e + EntrySize(format), imports, offsets, format, pool, i + 1)
    ensures e + EntrySize(format) + |pool| <= |blob|
    ensures (|imports| - i) * EntrySize(format) == EntrySize(format) + (|imports| - (i + 1)) * EntrySize(format)
  {
    hide EntryBytes, EntrySize;
    EntryStep(|imports| - i, EntrySize(format));
    HasAtSplit(blob, e, EntryBytes(imports[i], offsets[i], format), TableFrom(imports, offsets, format, i + 1));
  }

  lemma MeasureStep(blob: seq<byte>, e: nat, format: nat, count: nat)
    requires e + EntrySize(format) <= |blob| && e + EntrySize(format) + NameOffsetAt(blob, e, format) < |blob|
    ensures MeasureFrom(blob, format, e, count) == MeasureFrom(blob, format, e + EntrySize(format), count + 1)
  {
    hide NameOffsetAt, EntrySize;
  }

  /** The heuristic never stops inside a table the writer wrote. */
  lemma {:induction false} MeasureReaches(imports: seq<ChainedImport>, offsets: seq<nat>, format: nat, pool: seq<byte>, blob: seq<byte>, e: nat, i: nat)
    requires KnownFormat(format) && Pooled(pool, offsets, imports) && Importable(imports, offsets, format) && i <= |imports|
    requires TableAt(blob, e, imports, offsets, format, pool, i)
    ensures MeasureFrom(blob, format, e, i) == MeasureFrom(blob, format, e + (|imports| - i) * EntrySize(format), |imports|)
    decreases |imports| - i
  {
    hide MeasureFrom, NameOffsetAt, EntryBytes, EntrySize, TableAt, KnownFormat;
    if i < |imports| {
      TableAtStep(blob, e, imports, offsets, format, pool, i);
      WrittenOffset(blob, e, imports[i], offsets[i], format);
      assert HasAt(pool, offsets[i], imports[i].symbol + [0]);
      MeasureStep(blob, e, format, i);
      MeasureReaches(imports, offsets, format, pool, blob, e + EntrySize(format), i + 1);
    }
  }

  /** The count is never short of what was written. */
  lemma MeasureAtLeast(imports: seq<ChainedImport>, offsets: seq<nat>, format: nat, pool: seq<byte>)
    requires KnownFormat(format) && Pooled(pool, offsets, imports) && Importable(imports, offsets, format)
    ensures Measure(TableFrom(imports, offsets, format, 0) + pool, format) >= |imports|
  {
    MeasureGoesOn(imports, offsets, format, pool);
  }

  /** The heuristic counts the table and goes on from its end. */
  lemma MeasureGoesOn(imports: seq<ChainedImport>, offsets: seq<nat>, format: nat, pool: seq<byte>)
    requires KnownFormat(format) && Pooled(pool, offsets, imports) && Importable(imports, offsets, format)
    ensures var table := TableFrom(imports, offsets, format, 0);
            Measure(table + pool, format) == MeasureFrom(table + pool, format, |table|, |imports|)
  {
    var table := TableFrom(imports, offsets, format, 0);
    HasAtMiddle([], table, pool);
    assert [] + table + pool == table + pool;
    MeasureReaches(imports, offsets, format, pool, table + pool, 0, 0);
  }

  lemma PoolFollows(table: seq<byte>, pool: seq<byte>, format: nat)
    requires EntrySize(format) <= |pool|
    ensures NameOffsetAt(table + pool, |table|, format) == NameOffsetAt(pool, 0, format)
  {
    var blob := table + pool;
    assert blob[|table|..|table| + 4] == pool[0..4];
    if format != IMPORT && format != IMPORT_ADDEND {
      assert blob[|table| + 4..|table| + 8] == pool[4..8];
    }
  }

  /** It is exact precisely when the first bytes of the pool do not pass for one more entry. */
  lemma MeasureExact(imports: seq<ChainedImport>, offsets: seq<nat>, format: nat, pool: seq<byte>)
    requires KnownFormat(format) && Pooled(pool, offsets, imports) && Importable(imports, offsets, format)
    ensures Measure(TableFrom(imports, offsets, format, 0) + pool, format) == |imports|
            <==> |pool| < EntrySize(format) || |pool| <= EntrySize(format) + NameOffsetAt(pool, 0, format)
  {
    hide NameOffsetAt, EntrySize, Importable;
    MeasureGoesOn(imports, offsets, format, pool);
    if EntrySize(format) <= |pool| {
      PoolFollows(TableFrom(imports, offsets, format, 0), pool, format);
    }
  }

  /** But it can be over: behind two one-letter names and a long one, the pool's first bytes
      pass for a fourth entry. */
  lemma MeasureOvercounts(long: seq<byte>)
    requires |long| == 13000 && PlainName(long)
    ensures var pool := [0x61, 0, 0x62, 0] + long + [0];
            var imports := [ChainedImport(1, [0x61], 0, false), ChainedImport(1, [0x62], 0, false), ChainedImport(1, long, 0, false)];
            && Pooled(pool, [0, 2, 4], imports)
            && Measure(TableFrom(imports, [0, 2, 4], IMPORT, 0) + pool, IMPORT) > |imports|
  {
    var pool: seq<byte> := [0x61, 0, 0x62, 0] + long + [0];
    var imports := [ChainedImport(1, [0x61], 0, false), ChainedImport(1, [0x62], 0, false), ChainedImport(1, long, 0, false)];
    var offsets: seq<nat> := [0, 2, 4];
    assert pool[0..2] == [0x61] + [0] && pool[2..4] == [0x62] + [0] && pool[4..] == long + [0];
    assert HasAt(pool, 0, [0x61] + [0]) && HasAt(pool, 2, [0x62] + [0]) && HasAt(pool, 4, long + [0]);
    assert Importable(imports, offsets, IMPORT);
    var table := TableFrom(imports, offsets, IMPORT, 0);
    var blob := table + pool;
    MeasureGoesOn(imports, offsets, IMPORT, pool);
    assert |table| == 12;
    FourthEntry(blob, table, pool);
  }

  lemma FourthEntry(blob: seq<byte>, table: seq<byte>, pool: seq<byte>)
    requires blob == table + pool && |table| == 12 && |pool| == 13005 && pool[..4] == [0x61, 0, 0x62, 0]
    ensures NameOffsetAt(blob, 12, IMPORT) == 12544
  {
    var s := blob[12..16];
    assert s == pool[..4];
    assert FromLe(s) == 0x61 + 256 * FromLe(s[1..]);
    assert s[1..] == [0, 0x62, 0];
    assert FromLe(s[1..]) == 256 * FromLe(s[1..][1..]);
    assert s[1..][1..] == [0x62, 0];
    assert FromLe([0x62, 0]) == 0x62;
  }
}
