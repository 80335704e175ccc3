/** Re-laying `__LINKEDIT` in canonical order. */
module Canonicalize {
  import opened Bytes
  import opened LoadCommands
  import opened CanonicalLayout

  // ----- reading the command list ---------------------------------------

  /** The `n` commands from `cursor`, unless one is shorter than its header or runs past `end`. */
  function ParseCommands(bytes: seq<byte>, cursor: nat, n: nat, end: nat): (r: Option<seq<seq<byte>>>)
    requires end <= |bytes|
    ensures r.Some? && cursor <= end ==> cursor + |Flat(r.value)| <= end && HasAt(bytes, cursor, Flat(r.value)) && |r.value| == n
    decreases n
  {
    if n == 0 then Some([])
    else if cursor + 8 > end then None
    else
      var size := U32(bytes, cursor + 4);
      if size < 8 || cursor + size > end then None
      else
        match ParseCommands(bytes, cursor + size, n - 1, end)
        case None => None
        case Some(rest) =>
          HasAtJoin(bytes, cursor, bytes[cursor..cursor + size], Flat(rest));
          Some([bytes[cursor..cursor + size]] + rest)
  }

  lemma HasAtJoin(bytes: seq<byte>, at: nat, a: seq<byte>, b: seq<byte>)
    requires HasAt(bytes, at, a) && HasAt(bytes, at + |a|, b)
    ensures HasAt(bytes, at, a + b)
  {
    assert bytes[at..at + |a + b|] == bytes[at..at + |a|] + bytes[at + |a|..at + |a| + |b|];
  }

  /** The file as header, commands and the rest; `None` is a list the pass leaves alone. */
  function Parse(bytes: seq<byte>): (r: Option<Image>)
    ensures r.Some? ==> Encode(r.value) == bytes && |r.value.header| == LC_START
  {
    if |bytes| < LC_START || LC_START + U32(bytes, 20) > |bytes| then None
    else
      match ParseCommands(bytes, LC_START, U32(bytes, 16), LC_START + U32(bytes, 20))
      case None => None
      case Some(cmds) =>
        EncodeParsed(bytes, Flat(cmds));
        Some(Image(bytes[..LC_START], cmds, bytes[LC_START + |Flat(cmds)|..]))
  }

  lemma EncodeParsed(bytes: seq<byte>, flat: seq<byte>)
    requires HasAt(bytes, LC_START, flat)
    ensures bytes[..LC_START] + flat + bytes[LC_START + |flat|..] == bytes
  {}

  lemma {:induction false} ParsesBack(bytes: seq<byte>, cursor: nat, cmds: seq<seq<byte>>, end: nat)
    requires HasAt(bytes, cursor, Flat(cmds)) && cursor + |Flat(cmds)| <= end <= |bytes|
    requires forall i :: 0 <= i < |cmds| ==> IsCommand(cmds[i])
    ensures ParseCommands(bytes, cursor, |cmds|, end) == Some(cmds)
    decreases |cmds|
  {
    if cmds != [] {
      assert IsCommand(cmds[0]);
      HasAtSplit(bytes, cursor, cmds[0], Flat(cmds[1..]));
      CommandWord(bytes, cursor, cmds[0], 4);
      ParsesBack(bytes, cursor + |cmds[0]|, cmds[1..], end);
      assert cmds == [cmds[0]] + cmds[1..];
    }
  }

  lemma {:induction false} ParsedCommands(bytes: seq<byte>, cursor: nat, n: nat, end: nat, i: nat)
    requires end <= |bytes| && ParseCommands(bytes, cursor, n, end).Some? && i < n
    requires |ParseCommands(bytes, cursor, n, end).value| == n
    ensures 8 <= |ParseCommands(bytes, cursor, n, end).value[i]|
    ensures U32(ParseCommands(bytes, cursor, n, end).value[i], 4) == |ParseCommands(bytes, cursor, n, end).value[i]|
    decreases n
  {
    var size := U32(bytes, cursor + 4);
    if i == 0 {
      HasAtMiddle(bytes[..cursor], bytes[cursor..cursor + size], bytes[cursor + size..]);
      CommandWord(bytes, cursor, bytes[cursor..cursor + size], 4);
    } else {
      ParsedCommands(bytes, cursor + size, n - 1, end, i - 1);
    }
  }

  // ----- what is found --------------------------------------------------

  /** "__LINKEDIT" and a NUL. */
  const LINKEDIT_NAME: seq<byte> := [0x5F, 0x5F, 0x4C, 0x49, 0x4E, 0x4B, 0x45, 0x44, 0x49, 0x54, 0]

  predicate IsLinkedit(c: seq<byte>) { TypeOf(c) == LC_SEGMENT_64 && |c| >= 24 && c[8..24][..11] == LINKEDIT_NAME }

  /** The last command that passes; later ones overwrite earlier finds. */
  function LastIndex(cmds: seq<seq<byte>>, p: seq<byte> -> bool): (r: Option<nat>)
    ensures r.Some? ==> r.value < |cmds| && p(cmds[r.value])
  {
    if cmds == [] then None
    else if p(cmds[|cmds| - 1]) then Some(|cmds| - 1)
    else LastIndex(cmds[..|cmds| - 1], p)
  }

  function LastOf(cmds: seq<seq<byte>>, cmd: nat): (r: Option<nat>)
    ensures r.Some? ==> r.value < |cmds| && TypeOf(cmds[r.value]) == cmd
  {
    LastIndex(cmds, c => TypeOf(c) == cmd)
  }

  /** Shapes the pass does not model, and a live code signature. */
  predicate Foreign(c: seq<byte>) {
    || TypeOf(c) in {LC_DYLD_INFO, LC_DYLD_INFO_ONLY, LC_SEGMENT_SPLIT_INFO}
    || (TypeOf(c) == LC_CODE_SIGNATURE && |c| >= 16 && U32(c, 12) != 0)
  }

  /** The commands the pass reads or patches carry all the fields it looks at. */
  predicate Sized(c: seq<byte>) {
    var cmd := TypeOf(c);
    && (cmd == LC_SEGMENT_64 ==> |c| >= 56)
    && (cmd in {LC_DYLD_CHAINED_FIXUPS, LC_DYLD_EXPORTS_TRIE, LC_FUNCTION_STARTS, LC_DATA_IN_CODE, LC_CODE_SIGNATURE} ==> |c| >= 16)
    && (cmd == LC_SYMTAB ==> |c| >= 24)
    && (cmd == LC_DYSYMTAB ==> |c| >= 76)
  }

  /** Two-level-namespace tables, which the pass does not model. */
  predicate OldTables(c: seq<byte>)
    requires |c| >= 76
  {
    U32(c, 32) != 0 || U32(c, 40) != 0 || U32(c, 48) != 0 || U32(c, 64) != 0 || U32(c, 72) != 0
  }

  // ----- the plan -------------------------------------------------------

  /** A blob to lay: the command and field that hold its offset, and its size. */
  datatype Entry = Entry(i: nat, field: nat, off: nat, size: nat)

  function DataEntry(cmds: seq<seq<byte>>, cmd: nat): seq<Entry>
    requires forall i :: 0 <= i < |cmds| ==> Sized(cmds[i])
    requires cmd in {LC_DYLD_CHAINED_FIXUPS, LC_DYLD_EXPORTS_TRIE, LC_FUNCTION_STARTS, LC_DATA_IN_CODE}
  {
    var i := LastOf(cmds, cmd);
    if i.None? then []
    else
      assert Sized(cmds[i.value]);
      [Entry(i.value, 8, U32(cmds[i.value], 8), U32(cmds[i.value], 12))]
  }

  function SymbolEntry(cmds: seq<seq<byte>>): seq<Entry>
    requires forall i :: 0 <= i < |cmds| ==> Sized(cmds[i])
  {
    var i := LastOf(cmds, LC_SYMTAB);
    if i.None? then []
    else
      assert Sized(cmds[i.value]);
      [Entry(i.value, 8, U32(cmds[i.value], 8), U32(cmds[i.value], 12) * 16)]
  }

  function IndirectEntry(cmds: seq<seq<byte>>): seq<Entry>
    requires forall i :: 0 <= i < |cmds| ==> Sized(cmds[i])
  {
    var i := LastOf(cmds, LC_DYSYMTAB);
    if i.None? then []
    else
      assert Sized(cmds[i.value]);
      [Entry(i.value, 56, U32(cmds[i.value], 56), U32(cmds[i.value], 60) * 4)]
  }

  function StringEntry(cmds: seq<seq<byte>>): seq<Entry>
    requires forall i :: 0 <= i < |cmds| ==> Sized(cmds[i])
  {
    var i := LastOf(cmds, LC_SYMTAB);
    if i.None? then []
    else
      assert Sized(cmds[i.value]);
      [Entry(i.value, 16, U32(cmds[i.value], 16), U32(cmds[i.value], 20))]
  }

  /** All blobs in canonical order. */
  function Candidates(cmds: seq<seq<byte>>): seq<Entry>
    requires forall i :: 0 <= i < |cmds| ==> Sized(cmds[i])
  {
    DataEntry(cmds, LC_DYLD_CHAINED_FIXUPS) + DataEntry(cmds, LC_DYLD_EXPORTS_TRIE) + DataEntry(cmds, LC_FUNCTION_STARTS)
      + DataEntry(cmds, LC_DATA_IN_CODE) + SymbolEntry(cmds) + IndirectEntry(cmds) + StringEntry(cmds)
  }

  function NonEmpty(es: seq<Entry>): seq<Entry> {
    if es == [] then [] else (if es[0].size == 0 then [] else [es[0]]) + NonEmpty(es[1..])
  }

  function Plan(cmds: seq<seq<byte>>): seq<Entry>
    requires forall i :: 0 <= i < |cmds| ==> Sized(cmds[i])
  {
    NonEmpty(Candidates(cmds))
  }

  ghost predicate AllSized(cmds: seq<seq<byte>>) { forall i :: 0 <= i < |cmds| ==> Sized(cmds[i]) }

  predicate InBounds(es: seq<Entry>, size: nat) {
    forall k :: 0 <= k < |es| ==> es[k].off + es[k].size <= size
  }

  /** The pass reorders this image; otherwise it leaves every byte alone. */
  predicate Acts(im: Image)
    requires forall i :: 0 <= i < |im.cmds| ==> Sized(im.cmds[i])
  {
    && (forall i :: 0 <= i < |im.cmds| ==> !Foreign(im.cmds[i]))
    && LastIndex(im.cmds, IsLinkedit).Some? && LastOf(im.cmds, LC_SYMTAB).Some? && LastOf(im.cmds, LC_DYLD_CHAINED_FIXUPS).Some?
    && (var d := LastOf(im.cmds, LC_DYSYMTAB); d.Some? ==> Sized(im.cmds[d.value]) && !OldTables(im.cmds[d.value]))
    && InBounds(Plan(im.cmds), |Encode(im)|)
  }

  // ----- the re-laid image ----------------------------------------------

  function Linkedit(im: Image): (le: nat)
    requires AllSized(im.cmds) && Acts(im)
    ensures le < |im.cmds| && IsLinkedit(im.cmds[le]) && |im.cmds[le]| >= 56
  {
    assert Sized(im.cmds[LastIndex(im.cmds, IsLinkedit).value]);
    LastIndex(im.cmds, IsLinkedit).value
  }

  /** Where `__LINKEDIT` starts in the file. */
  function Base(im: Image): nat
    requires AllSized(im.cmds) && Acts(im)
  {
    FromLe(im.cmds[Linkedit(im)][40..48])
  }

  function Blobs(bytes: seq<byte>, es: seq<Entry>): (r: seq<seq<byte>>)
    requires InBounds(es, |bytes|)
    ensures |r| == |es| && forall k :: 0 <= k < |es| ==> r[k] == bytes[es[k].off..es[k].off + es[k].size]
  {
    seq(|es|, (k: nat) requires k < |es| && InBounds(es, |bytes|) => bytes[es[k].off..es[k].off + es[k].size])
  }

  function FieldWrites(es: seq<Entry>, base: nat, starts: seq<nat>): (r: seq<Write>)
    requires |starts| == |es|
    ensures |r| == |es| && forall k :: 0 <= k < |es| ==> r[k] == Write(es[k].i, es[k].field, Le((base + starts[k]) % U32_LIMIT, 4))
  {
    seq(|es|, (k: nat) requires k < |es| == |starts| => Write(es[k].i, es[k].field, Le((base + starts[k]) % U32_LIMIT, 4)))
  }

  function PageUp(n: nat): nat { (n + 0x3FFF) / 0x4000 * 0x4000 }

  /** The new filesize and page-rounded vmsize of `__LINKEDIT`. */
  function SizeWrites(le: nat, size: nat): seq<Write> {
    [Write(le, 48, Le(size, 8)), Write(le, 32, Le(PageUp(size), 8))]
  }

  function NewContent(im: Image): seq<seq<byte>>
    requires AllSized(im.cmds) && Acts(im)
  {
    Blobs(Encode(im), Plan(im.cmds))
  }

  function Writes(im: Image): seq<Write>
    requires AllSized(im.cmds) && Acts(im)
  {
    FieldWrites(Plan(im.cmds), Base(im), Starts(0, NewContent(im))) + SizeWrites(Linkedit(im), |Pack(NewContent(im))|)
  }

  /** `__LINKEDIT` stands behind the list and inside the file. */
  ghost predicate Placed(im: Image) {
    && AllSized(im.cmds) && |im.header| == LC_START
    && (Acts(im) ==> LC_START + |Flat(im.cmds)| <= Base(im) <= |Encode(im)| && LC_START + U32(im.header, 20) <= Base(im))
  }

  // ----- writes touch what they may -------------------------------------

  predicate DataType(cmd: nat) {
    cmd in {LC_DYLD_CHAINED_FIXUPS, LC_DYLD_EXPORTS_TRIE, LC_FUNCTION_STARTS, LC_DATA_IN_CODE}
  }

  /** A field the pass may write in a command. */
  predicate Writable(c: seq<byte>, at: nat, len: nat) {
    || (DataType(TypeOf(c)) && at == 8 && len == 4 && |c| >= 16)
    || (TypeOf(c) == LC_SYMTAB && (at == 8 || at == 16) && len == 4 && |c| >= 24)
    || (TypeOf(c) == LC_DYSYMTAB && at == 56 && len == 4 && |c| >= 76)
    || (IsLinkedit(c) && (at == 32 || at == 48) && len == 8 && |c| >= 56)
  }

  /** A field the pass reads and never writes. */
  predicate ReadOnly(c: seq<byte>, at: nat, len: nat) {
    && at + len <= |c|
    && (|| at + len <= 8
        || (DataType(TypeOf(c)) && at == 12 && len == 4)
        || (TypeOf(c) == LC_CODE_SIGNATURE && at == 12 && len == 4)
        || (TypeOf(c) == LC_SYMTAB && (at == 12 || at == 20) && len == 4)
        || (TypeOf(c) == LC_DYSYMTAB && at in {32, 40, 48, 60, 64, 72} && len == 4)
        || (TypeOf(c) == LC_SEGMENT_64 && ((at == 8 && len == 16) || (at == 40 && len == 8))))
  }

  ghost predicate AllWritable(cmds: seq<seq<byte>>, ws: seq<Write>) {
    forall k :: 0 <= k < |ws| ==> ws[k].i < |cmds| && Writable(cmds[ws[k].i], ws[k].at, |ws[k].data|)
  }

  lemma WritableInside(cmds: seq<seq<byte>>, ws: seq<Write>)
    requires AllWritable(cmds, ws)
    ensures forall k :: 0 <= k < |ws| ==> Inside(cmds, ws[k])
  {}

  lemma ReadOnlyClear(cmds: seq<seq<byte>>, ws: seq<Write>, i: nat, at: nat, len: nat)
    requires AllWritable(cmds, ws) && i < |cmds| && ReadOnly(cmds[i], at, len)
    ensures forall k :: 0 <= k < |ws| ==> Clear(ws[k], i, at, len)
  {
    forall k | 0 <= k < |ws| ensures Clear(ws[k], i, at, len) {
      assert Writable(cmds[ws[k].i], ws[k].at, |ws[k].data|);
    }
  }

  lemma Kept(cmds: seq<seq<byte>>, ws: seq<Write>, i: nat, at: nat, len: nat)
    requires AllWritable(cmds, ws) && i < |cmds| && ReadOnly(cmds[i], at, len)
    ensures forall k :: 0 <= k < |ws| ==> Inside(cmds, ws[k])
    ensures Apply(cmds, ws)[i][at..at + len] == cmds[i][at..at + len]
  {
    WritableInside(cmds, ws);
    ReadOnlyClear(cmds, ws, i, at, len);
    ApplyKeeps(cmds, ws, i, at, len);
  }

  /** A command keeps its size and, however short, its type. */
  lemma ShortKept(cmds: seq<seq<byte>>, ws: seq<Write>, i: nat)
    requires AllWritable(cmds, ws) && i < |cmds|
    ensures forall k :: 0 <= k < |ws| ==> Inside(cmds, ws[k])
    ensures |Apply(cmds, ws)[i]| == |cmds[i]| && TypeOf(Apply(cmds, ws)[i]) == TypeOf(cmds[i])
  {
    WritableInside(cmds, ws);
    if |cmds[i]| >= 4 {
      Kept(cmds, ws, i, 0, 4);
    }
  }

  lemma TypeKept(cmds: seq<seq<byte>>, ws: seq<Write>, i: nat)
    requires AllWritable(cmds, ws) && i < |cmds| && |cmds[i]| >= 8
    ensures forall k :: 0 <= k < |ws| ==> Inside(cmds, ws[k])
    ensures var c := Apply(cmds, ws)[i];
            TypeOf(c) == TypeOf(cmds[i]) && U32(c, 4) == U32(cmds[i], 4) && (IsLinkedit(c) <==> IsLinkedit(cmds[i]))
  {
    Kept(cmds, ws, i, 0, 4);
    Kept(cmds, ws, i, 4, 4);
    if TypeOf(cmds[i]) == LC_SEGMENT_64 && |cmds[i]| >= 24 {
      Kept(cmds, ws, i, 8, 16);
    }
  }
}
