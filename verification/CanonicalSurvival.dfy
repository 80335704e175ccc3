/** Which bytes of a file survive canonicalization. */
module CanonicalSurvival {
  import opened Bytes
  import opened LoadCommands
  import opened CanonicalLayout
  import opened Canonicalize
  import opened CanonicalTheorem
  import AppendRanges

  // ----- one byte of the file varied ------------------------------------

  ghost predicate BehindList(im: Image, o: nat) { |im.header| + |Flat(im.cmds)| <= o < |Encode(im)| }

  /** The file with the byte at `o`, behind the command list, replaced. */
  function WithByte(im: Image, o: nat, v: byte): Image
    requires BehindList(im, o)
  {
    im.(rest := im.rest[o - |im.header| - |Flat(im.cmds)| := v])
  }

  lemma WithByteEncodes(im: Image, o: nat, v: byte)
    requires BehindList(im, o)
    ensures Encode(WithByte(im, o, v)) == Encode(im)[o := v]
  {}

  lemma WithByteActs(im: Image, o: nat, v: byte)
    requires BehindList(im, o) && Placed(im) && Acts(im)
    ensures Placed(WithByte(im, o, v)) && Acts(WithByte(im, o, v)) && Base(WithByte(im, o, v)) == Base(im)
  {
    WithByteEncodes(im, o, v);
    hide Encode, Plan, Flat, Sized;
  }

  /** What the pass makes of the file with `v` at `o`. */
  ghost function CanonWith(im: Image, o: nat, v: byte): seq<byte>
    requires BehindList(im, o) && Placed(im) && Acts(im)
  {
    WithByteActs(im, o, v);
    Encode(Canon(WithByte(im, o, v)))
  }

  ghost predicate ReadsAt(im: Image, o: nat, p: nat, v: byte)
    requires BehindList(im, o) && Placed(im) && Acts(im)
  {
    p < |CanonWith(im, o, v)| && CanonWith(im, o, v)[p] == v
  }

  ghost predicate StandsAt(im: Image, o: nat, p: nat)
    requires BehindList(im, o) && Placed(im) && Acts(im)
  {
    forall v: byte :: ReadsAt(im, o, p, v)
  }

  /** Somewhere in the result stands the byte at `o`, whatever it is. */
  ghost predicate Survives(im: Image, o: nat)
    requires BehindList(im, o) && Placed(im) && Acts(im)
  {
    exists p: nat :: StandsAt(im, o, p)
  }

  ghost predicate Covers(e: Entry, o: nat) { e.off <= o < e.off + e.size }

  ghost predicate Planned(im: Image, o: nat)
    requires AllSized(im.cmds)
  {
    exists k :: 0 <= k < |Plan(im.cmds)| && Covers(Plan(im.cmds)[k], o)
  }

  // ----- a planned byte moves with its blob -----------------------------

  lemma {:induction false} StartsBySize(n: nat, a: seq<seq<byte>>, b: seq<seq<byte>>)
    requires |a| == |b| && forall k :: 0 <= k < |a| ==> |a[k]| == |b[k]|
    ensures Starts(n, a) == Starts(n, b)
    decreases |a|
  {
    if a != [] {
      StartsBySize(Pad8(n) + |a[0]|, a[1..], b[1..]);
    }
  }

  /** The blobs keep their sizes, and those without the byte keep their bytes. */
  lemma ContentWith(im: Image, o: nat, v: byte)
    requires BehindList(im, o) && Placed(im) && Acts(im)
    ensures Placed(WithByte(im, o, v)) && Acts(WithByte(im, o, v)) && WithByte(im, o, v).cmds == im.cmds
    ensures var was, now := NewContent(im), NewContent(WithByte(im, o, v));
            && |now| == |was| == |Plan(im.cmds)|
            && forall k :: 0 <= k < |was| ==> |now[k]| == |was[k]| && (!Covers(Plan(im.cmds)[k], o) ==> now[k] == was[k])
  {
    WithByteActs(im, o, v);
    WithByteEncodes(im, o, v);
    var es, file := Plan(im.cmds), Encode(im);
    assert InBounds(es, |file|);
    hide Encode, Plan, Acts, Placed;
    forall k | 0 <= k < |es|
      ensures |Blobs(file[o := v], es)[k]| == |Blobs(file, es)[k]|
      ensures !Covers(es[k], o) ==> Blobs(file[o := v], es)[k] == Blobs(file, es)[k]
    {
      if !Covers(es[k], o) {
        OutsideSlice(file, o, v, es[k].off, es[k].off + es[k].size);
      }
    }
  }

  lemma OutsideSlice(file: seq<byte>, o: nat, v: byte, lo: nat, hi: nat)
    requires o < |file| && lo <= hi <= |file| && !(lo <= o < hi)
    ensures file[o := v][lo..hi] == file[lo..hi]
  {}

  lemma PlannedSurvives(im: Image, o: nat, k: nat)
    requires BehindList(im, o) && Placed(im) && Acts(im) && k < |Plan(im.cmds)| && Covers(Plan(im.cmds)[k], o)
    ensures Survives(im, o)
  {
    hide Acts, Encode, Plan, Starts, Base, Canon, Flat;
    var e := Plan(im.cmds)[k];
    ContentWith(im, o, 0);
    var p := Base(im) + Starts(0, NewContent(im))[k] + (o - e.off);
    forall v: byte ensures ReadsAt(im, o, p, v) {
      MovedByte(im, o, k, v);
    }
    assert StandsAt(im, o, p);
  }

  lemma MovedByte(im: Image, o: nat, k: nat, v: byte)
    requires BehindList(im, o) && Placed(im) && Acts(im) && k < |Plan(im.cmds)| && Covers(Plan(im.cmds)[k], o)
    ensures k < |NewContent(im)|
    ensures ReadsAt(im, o, Base(im) + Starts(0, NewContent(im))[k] + (o - Plan(im.cmds)[k].off), v)
  {
    hide Acts, Encode, Plan, Starts, Base, Canon, Flat, NewContent;
    var now, e := WithByte(im, o, v), Plan(im.cmds)[k];
    ContentWith(im, o, v);
    StartsBySize(0, NewContent(im), NewContent(now));
    WithByteActs(im, o, v);
    WithByteEncodes(im, o, v);
    BlobStands(now, k);
    var at := Base(im) + Starts(0, NewContent(im))[k];
    assert Encode(Canon(now))[at..at + e.size][o - e.off] == Encode(now)[e.off..e.off + e.size][o - e.off];
  }

  // ----- a byte in front of `__LINKEDIT` stays --------------------------

  lemma FrontSurvives(im: Image, o: nat)
    requires BehindList(im, o) && Placed(im) && Acts(im) && o < Base(im)
    ensures Survives(im, o)
  {
    forall v: byte ensures ReadsAt(im, o, o, v) {
      FrontStays(im, o, v);
    }
    assert StandsAt(im, o, o);
  }

  lemma FrontStays(im: Image, o: nat, v: byte)
    requires BehindList(im, o) && Placed(im) && Acts(im) && o < Base(im)
    ensures ReadsAt(im, o, o, v)
  {
    hide Acts, Encode, Plan, Base, Canon, Flat, Pack, NewContent;
    var now, lo := WithByte(im, o, v), LC_START + |Flat(im.cmds)|;
    WithByteActs(im, o, v);
    WithByteEncodes(im, o, v);
    CanonShape(now);
    assert Encode(Canon(now))[lo..Base(im)][o - lo] == Encode(now)[lo..Base(im)][o - lo];
  }

  // ----- every other byte is lost ---------------------------------------

  lemma LostChangesNothing(im: Image, o: nat, v: byte)
    requires BehindList(im, o) && Placed(im) && Acts(im) && o >= Base(im) && !Planned(im, o)
    ensures CanonWith(im, o, v) == Encode(Canon(im))
  {
    hide Encode, Plan, Flat, Acts, Base, Pack, NewContent, Canon;
    var now := WithByte(im, o, v);
    ContentWith(im, o, v);
    WithByteActs(im, o, v);
    WithByteEncodes(im, o, v);
    forall k | 0 <= k < |Plan(im.cmds)| ensures NewContent(now)[k] == NewContent(im)[k] {
      assert !Covers(Plan(im.cmds)[k], o);
    }
    OutsideSlice(Encode(im), o, v, LC_START + |Flat(im.cmds)|, Base(im));
    CanonSame(im, now);
  }

  /** The pass looks at nothing but header, commands, blobs and what lies between. */
  lemma CanonSame(a: Image, b: Image)
    requires Placed(a) && Acts(a) && Placed(b) && Acts(b)
    requires a.header == b.header && a.cmds == b.cmds && Base(a) == Base(b) && NewContent(a) == NewContent(b)
    requires LC_START + |Flat(a.cmds)| <= Base(a) <= |Encode(a)| == |Encode(b)|
    requires Encode(a)[LC_START + |Flat(a.cmds)|..Base(a)] == Encode(b)[LC_START + |Flat(a.cmds)|..Base(a)]
    ensures Canon(a) == Canon(b)
  {
    hide Encode, Plan, Flat, Acts, Base, Pack, NewContent, Starts, Apply;
    SameLinkedit(a, b);
    assert Writes(a) == Writes(b);
  }

  lemma SameLinkedit(a: Image, b: Image)
    requires AllSized(a.cmds) && a.cmds == b.cmds && Acts(a) && Acts(b)
    ensures Linkedit(a) == Linkedit(b)
  {
    hide Acts;
  }

  /** A byte behind the command list survives the pass if and only if it stands in front of
      `__LINKEDIT` or some blob of the plan covers it. */
  lemma SurvivesExactly(im: Image, o: nat)
    requires BehindList(im, o) && Placed(im) && Acts(im)
    ensures Survives(im, o) <==> o < Base(im) || Planned(im, o)
  {
    hide Acts, Encode, Plan, Base, Canon, Flat;
    if o < Base(im) {
      FrontSurvives(im, o);
    } else if Planned(im, o) {
      var k :| 0 <= k < |Plan(im.cmds)| && Covers(Plan(im.cmds)[k], o);
      PlannedSurvives(im, o, k);
    } else {
      LostChangesNothing(im, o, 0);
      LostChangesNothing(im, o, 1);
      forall p: nat ensures !StandsAt(im, o, p) {
        assert !ReadsAt(im, o, p, 0) || !ReadsAt(im, o, p, 1);
      }
    }
  }

  // ----- a blob of a command the pass does not know ---------------------

  function DataCommand(cmd: nat, off: nat, size: nat): (r: seq<byte>)
    ensures |r| == 16
  {
    Words([cmd, 16, off, size])
  }

  function EmptySymtab(): (r: seq<byte>)
    ensures |r| == 24
  {
    Words([LC_SYMTAB, 24, 0, 0, 0, 0])
  }

  /** `__LINKEDIT` at 160 with 8 bytes of chained fixups and, behind them, 8 bytes of linker
      optimization hints. */
  function HintedFile(): Image {
    Image(AppendRanges.SmallHeader(4, 128),
          [AppendRanges.LinkeditCommand(160), DataCommand(LC_DYLD_CHAINED_FIXUPS, 160, 8), EmptySymtab(),
           DataCommand(LC_LINKER_OPTIMIZATION_HINT, 168, 8)],
          Zeros(16))
  }

  lemma WordOf(c: seq<byte>, ws: seq<nat>, k: nat)
    requires c == Words(ws) && k < |ws| && ws[k] < U32_LIMIT
    ensures U32(c, 4 * k) == ws[k]
  {
    hide *;
    AppendRanges.WholeAt(c);
    WordStands(c, 0, ws, k);
    AppendRanges.U32At(c, 4 * k, ws[k]);
  }

  lemma DataCommandIs(cmd: nat, off: nat, size: nat)
    requires cmd < U32_LIMIT && off < U32_LIMIT && size < U32_LIMIT
    ensures var c := DataCommand(cmd, off, size);
            IsCommand(c) && TypeOf(c) == cmd && U32(c, 8) == off && U32(c, 12) == size
  {
    var ws := [cmd, 16, off, size];
    var c := DataCommand(cmd, off, size);
    WordOf(c, ws, 0);
    WordOf(c, ws, 1);
    WordOf(c, ws, 2);
    WordOf(c, ws, 3);
  }

  lemma EmptySymtabIs()
    ensures var c := EmptySymtab();
            IsCommand(c) && TypeOf(c) == LC_SYMTAB && U32(c, 8) == U32(c, 12) == U32(c, 16) == U32(c, 20) == 0
  {
    var ws := [LC_SYMTAB, 24, 0, 0, 0, 0];
    var c := EmptySymtab();
    WordOf(c, ws, 0);
    WordOf(c, ws, 1);
    WordOf(c, ws, 2);
    WordOf(c, ws, 3);
    WordOf(c, ws, 4);
    WordOf(c, ws, 5);
  }

  /** The four commands of the file, as far as the pass looks at them. */
  ghost predicate Hinted(cmds: seq<seq<byte>>) {
    && |cmds| == 4 && Commands(cmds) && |cmds[0]| == 72 && |cmds[1]| == 16 && |cmds[2]| == 24 && |cmds[3]| == 16
    && TypeOf(cmds[0]) == LC_SEGMENT_64 && IsLinkedit(cmds[0]) && FromLe(cmds[0][40..48]) == 160
    && TypeOf(cmds[1]) == LC_DYLD_CHAINED_FIXUPS && U32(cmds[1], 8) == 160 && U32(cmds[1], 12) == 8
    && TypeOf(cmds[2]) == LC_SYMTAB && U32(cmds[2], 8) == U32(cmds[2], 12) == U32(cmds[2], 16) == U32(cmds[2], 20) == 0
    && TypeOf(cmds[3]) == LC_LINKER_OPTIMIZATION_HINT && U32(cmds[3], 8) == 168 && U32(cmds[3], 12) == 8
  }

  lemma LinkeditIsNamed(le: nat)
    requires le < U64_LIMIT
    ensures var c := AppendRanges.LinkeditCommand(le);
            |c| == 72 && IsCommand(c) && TypeOf(c) == LC_SEGMENT_64 && IsLinkedit(c) && FromLe(c[40..48]) == le
  {
    var c := AppendRanges.LinkeditCommand(le);
    AppendRanges.LinkeditIsCommand(le);
    AppendRanges.LinkeditPieces(le);
    hide AppendRanges.LinkeditCommand, Le, TypeOf;
    assert c[8..24][..11] == LINKEDIT_NAME;
  }

  lemma HintedCommands()
    ensures Hinted(HintedFile().cmds)
  {
    hide *;
    var a, b, c, d := AppendRanges.LinkeditCommand(160), DataCommand(LC_DYLD_CHAINED_FIXUPS, 160, 8), EmptySymtab(),
      DataCommand(LC_LINKER_OPTIMIZATION_HINT, 168, 8);
    HintedConsts();
    LinkeditIsNamed(160);
    DataCommandIs(LC_DYLD_CHAINED_FIXUPS, 160, 8);
    EmptySymtabIs();
    DataCommandIs(LC_LINKER_OPTIMIZATION_HINT, 168, 8);
    HintedOf(a, b, c, d);
    HintedList();
  }

  lemma HintedConsts()
    ensures 168 < U32_LIMIT < U64_LIMIT && LC_DYLD_CHAINED_FIXUPS < U32_LIMIT && LC_LINKER_OPTIMIZATION_HINT < U32_LIMIT
  {}

  lemma HintedList()
    ensures HintedFile().cmds == [AppendRanges.LinkeditCommand(160), DataCommand(LC_DYLD_CHAINED_FIXUPS, 160, 8), EmptySymtab(),
                                  DataCommand(LC_LINKER_OPTIMIZATION_HINT, 168, 8)]
  {
    hide AppendRanges.LinkeditCommand, DataCommand, EmptySymtab, Zeros;
  }

  lemma HintedOf(a: seq<byte>, b: seq<byte>, c: seq<byte>, d: seq<byte>)
    requires |a| == 72 && IsCommand(a) && TypeOf(a) == LC_SEGMENT_64 && IsLinkedit(a) && FromLe(a[40..48]) == 160
    requires |b| == 16 && IsCommand(b) && TypeOf(b) == LC_DYLD_CHAINED_FIXUPS && U32(b, 8) == 160 && U32(b, 12) == 8
    requires |c| == 24 && IsCommand(c) && TypeOf(c) == LC_SYMTAB && U32(c, 8) == U32(c, 12) == U32(c, 16) == U32(c, 20) == 0
    requires |d| == 16 && IsCommand(d) && TypeOf(d) == LC_LINKER_OPTIMIZATION_HINT && U32(d, 8) == 168 && U32(d, 12) == 8
    ensures Hinted([a, b, c, d])
  {
    hide IsCommand, TypeOf, U32, IsLinkedit, FromLe;
  }

  lemma LastOfFour(cmds: seq<seq<byte>>, p: seq<byte> -> bool)
    requires |cmds| == 4
    ensures LastIndex(cmds, p)
            == if p(cmds[3]) then Some(3) else if p(cmds[2]) then Some(2) else if p(cmds[1]) then Some(1) else if p(cmds[0]) then Some(0) else None
  {
    var c3, c2, c1 := cmds[..3], cmds[..3][..2], cmds[..3][..2][..1];
    assert c3[2] == cmds[2] && c2[1] == cmds[1] && c1[0] == cmds[0] && c1[..0] == [];
    assert LastIndex(c1, p) == if p(cmds[0]) then Some(0) else None;
    assert LastIndex(c2, p) == if p(cmds[1]) then Some(1) else LastIndex(c1, p);
    assert LastIndex(c3, p) == if p(cmds[2]) then Some(2) else LastIndex(c2, p);
  }

  lemma LastTypeOfFour(cmds: seq<seq<byte>>, cmd: nat)
    requires |cmds| == 4
    ensures LastOf(cmds, cmd)
            == if TypeOf(cmds[3]) == cmd then Some(3) else if TypeOf(cmds[2]) == cmd then Some(2)
               else if TypeOf(cmds[1]) == cmd then Some(1) else if TypeOf(cmds[0]) == cmd then Some(0) else None
  {
    hide TypeOf;
    LastOfFour(cmds, c => TypeOf(c) == cmd);
  }

  lemma HintedShapes(cmds: seq<seq<byte>>)
    requires Hinted(cmds)
    ensures AllSized(cmds) && forall i :: 0 <= i < |cmds| ==> !Foreign(cmds[i])
  {
    hide U32, FromLe, IsLinkedit, TypeOf, IsCommand;
    forall i | 0 <= i < |cmds| ensures Sized(cmds[i]) && !Foreign(cmds[i]) {
      assert i == 0 || i == 1 || i == 2 || i == 3;
    }
  }

  lemma HintedLasts(cmds: seq<seq<byte>>)
    requires Hinted(cmds)
    ensures LastIndex(cmds, IsLinkedit) == Some(0) && LastOf(cmds, LC_SYMTAB) == Some(2) && LastOf(cmds, LC_DYLD_CHAINED_FIXUPS) == Some(1)
    ensures LastOf(cmds, LC_DYLD_EXPORTS_TRIE) == LastOf(cmds, LC_FUNCTION_STARTS) == LastOf(cmds, LC_DATA_IN_CODE) == None
    ensures LastOf(cmds, LC_DYSYMTAB) == None
  {
    NoLinkedits(cmds);
    hide U32, FromLe, IsLinkedit, TypeOf, LastOf, LastIndex, IsCommand;
    LastOfFour(cmds, IsLinkedit);
    LastTypeOfFour(cmds, LC_DYLD_CHAINED_FIXUPS);
    LastTypeOfFour(cmds, LC_DYLD_EXPORTS_TRIE);
    LastTypeOfFour(cmds, LC_FUNCTION_STARTS);
    LastTypeOfFour(cmds, LC_DATA_IN_CODE);
    LastTypeOfFour(cmds, LC_SYMTAB);
    LastTypeOfFour(cmds, LC_DYSYMTAB);
  }

  lemma HintedPlan(cmds: seq<seq<byte>>)
    requires Hinted(cmds)
    ensures AllSized(cmds) && (forall i :: 0 <= i < |cmds| ==> !Foreign(cmds[i]))
    ensures LastIndex(cmds, IsLinkedit) == Some(0) && LastOf(cmds, LC_SYMTAB) == Some(2) && LastOf(cmds, LC_DYLD_CHAINED_FIXUPS) == Some(1)
    ensures LastOf(cmds, LC_DYSYMTAB) == None && Plan(cmds) == [Entry(1, 8, 160, 8)]
  {
    hide *;
    HintedShapes(cmds);
    HintedLasts(cmds);
    HintedEntries(cmds);
    HintedCandidates(cmds);
    OneNonEmpty(Entry(1, 8, 160, 8), Entry(2, 8, 0, 0), Entry(2, 16, 0, 0));
    PlanIs(cmds);
  }

  lemma PlanIs(cmds: seq<seq<byte>>)
    requires AllSized(cmds)
    ensures Plan(cmds) == NonEmpty(Candidates(cmds))
  {
    hide NonEmpty, Candidates;
  }

  lemma HintedEntries(cmds: seq<seq<byte>>)
    requires Hinted(cmds) && AllSized(cmds)
    requires LastOf(cmds, LC_SYMTAB) == Some(2) && LastOf(cmds, LC_DYLD_CHAINED_FIXUPS) == Some(1) && LastOf(cmds, LC_DYSYMTAB) == None
    requires LastOf(cmds, LC_DYLD_EXPORTS_TRIE) == LastOf(cmds, LC_FUNCTION_STARTS) == LastOf(cmds, LC_DATA_IN_CODE) == None
    ensures DataEntry(cmds, LC_DYLD_CHAINED_FIXUPS) == [Entry(1, 8, 160, 8)] && DataEntry(cmds, LC_DYLD_EXPORTS_TRIE) == []
    ensures DataEntry(cmds, LC_FUNCTION_STARTS) == [] && DataEntry(cmds, LC_DATA_IN_CODE) == []
    ensures SymbolEntry(cmds) == [Entry(2, 8, 0, 0)] && IndirectEntry(cmds) == [] && StringEntry(cmds) == [Entry(2, 16, 0, 0)]
  {
    hide LastOf, U32, FromLe, IsLinkedit, TypeOf, IsCommand, Sized;
  }

  lemma HintedCandidates(cmds: seq<seq<byte>>)
    requires AllSized(cmds)
    requires DataEntry(cmds, LC_DYLD_CHAINED_FIXUPS) == [Entry(1, 8, 160, 8)] && DataEntry(cmds, LC_DYLD_EXPORTS_TRIE) == []
    requires DataEntry(cmds, LC_FUNCTION_STARTS) == [] && DataEntry(cmds, LC_DATA_IN_CODE) == []
    requires SymbolEntry(cmds) == [Entry(2, 8, 0, 0)] && IndirectEntry(cmds) == [] && StringEntry(cmds) == [Entry(2, 16, 0, 0)]
    ensures Candidates(cmds) == [Entry(1, 8, 160, 8), Entry(2, 8, 0, 0), Entry(2, 16, 0, 0)]
  {
    hide DataEntry, SymbolEntry, IndirectEntry, StringEntry, Sized;
  }

  lemma NoLinkedits(cmds: seq<seq<byte>>)
    requires Hinted(cmds)
    ensures !IsLinkedit(cmds[1]) && !IsLinkedit(cmds[2]) && !IsLinkedit(cmds[3])
  {
    hide U32, FromLe;
  }

  lemma OneNonEmpty(a: Entry, b: Entry, c: Entry)
    requires a.size > 0 && b.size == c.size == 0
    ensures NonEmpty([a, b, c]) == [a]
  {
    assert [a, b, c][1..] == [b, c] && [b, c][1..] == [c] && [c][1..] == [];
    assert NonEmpty([c]) == [] && NonEmpty([b, c]) == [];
  }

  lemma HintedFits()
    ensures var im := HintedFile();
            Hinted(im.cmds) && WellFormed(im) && |im.header| == LC_START && |Flat(im.cmds)| == 128 && |Encode(im)| == 176
  {
    hide AppendRanges.LinkeditCommand, AppendRanges.SmallHeader, DataCommand, EmptySymtab, U32, TypeOf, FromLe, IsLinkedit, Zeros, Flat, IsCommand;
    var im := HintedFile();
    HintedCommands();
    AppendRanges.SmallHeaderIs(4, 128);
    FlatFour(im.cmds);
  }

  lemma FlatFour(cmds: seq<seq<byte>>)
    requires |cmds| == 4
    ensures |Flat(cmds)| == |cmds[0]| + |cmds[1]| + |cmds[2]| + |cmds[3]|
  {
    assert |Flat(cmds[1..][1..][1..])| == |cmds[3]| + |Flat([])|;
    assert |Flat(cmds[1..][1..])| == |cmds[2]| + |Flat(cmds[1..][1..][1..])|;
    assert |Flat(cmds[1..])| == |cmds[1]| + |Flat(cmds[1..][1..])|;
  }

  lemma HintedActs(im: Image)
    requires Hinted(im.cmds) && WellFormed(im) && |Flat(im.cmds)| == 128 && |Encode(im)| == 176
    ensures AllSized(im.cmds) && Placed(im) && Acts(im) && Linkedit(im) == 0 && Base(im) == 160 && Plan(im.cmds) == [Entry(1, 8, 160, 8)]
  {
    HintedPlan(im.cmds);
    hide U32, TypeOf, Flat, Encode, Plan, Foreign, IsLinkedit, OldTables, Sized, LastOf, LastIndex;
  }

  lemma OneBlobPacked(blob: seq<byte>)
    requires |blob| == 8
    ensures |Pack([blob])| == 8
  {
    var none: seq<byte> := [];
    assert Padded(none) == [] && [blob][1..] == [];
    assert PackAfter(none, [blob]) == PackAfter(Padded(none) + blob, []);
    assert Padded(none) + blob == blob;
  }

  lemma HintedCanon(im: Image)
    requires Hinted(im.cmds) && AllSized(im.cmds) && Placed(im) && Acts(im)
    requires Linkedit(im) == 0 && Base(im) == 160 && Plan(im.cmds) == [Entry(1, 8, 160, 8)]
    ensures |Encode(Canon(im))| == 168 && |Canon(im).cmds| == 4 && Canon(im).cmds[3] == im.cmds[3]
  {
    hide *;
    HintedLast(im);
    var ws, c, out := Writes(im), im.cmds[3], Canon(im).cmds;
    HintedPacks(im);
    CanonShape(im);
    CanonApplies(im);
    HintedWrites(im);
    ApplyKeeps(im.cmds, ws, 3, 0, 16);
    assert out[3] == out[3][0..16] && c[0..16] == c;
  }

  lemma HintedPacks(im: Image)
    requires Placed(im) && Acts(im) && Plan(im.cmds) == [Entry(1, 8, 160, 8)]
    ensures |Pack(NewContent(im))| == 8
  {
    var blobs := NewContent(im);
    hide Encode, Plan, Pack;
    assert blobs == [blobs[0]] && |blobs[0]| == 8;
    OneBlobPacked(blobs[0]);
  }

  lemma HintedWrites(im: Image)
    requires Placed(im) && Acts(im) && Linkedit(im) == 0 && Plan(im.cmds) == [Entry(1, 8, 160, 8)]
    ensures forall k :: 0 <= k < |Writes(im)| ==> Clear(Writes(im)[k], 3, 0, 16)
  {
    hide Acts, Encode, Plan, Pack, Base, Le;
  }

  /** The hints' bytes are lost, and their command still names them, past the end of the file. */
  lemma HintsAreDropped()
    ensures var im := HintedFile();
            && WellFormed(im) && Placed(im) && Acts(im) && |Flat(im.cmds)| == 128 && |Encode(im)| == 176 && |Encode(Canon(im))| == 168
            && |im.cmds| == 4 && |im.cmds[3]| == 16 && TypeOf(im.cmds[3]) == LC_LINKER_OPTIMIZATION_HINT
            && U32(im.cmds[3], 8) == 168 && U32(im.cmds[3], 12) == 8 && |Canon(im).cmds| == 4 && Canon(im).cmds[3] == im.cmds[3]
            && forall o :: 168 <= o < 176 ==> BehindList(im, o) && !Survives(im, o)
  {
    hide *;
    var im := HintedFile();
    HintedFits();
    HintedActs(im);
    HintedCanon(im);
    HintedLast(im);
    forall o | 168 <= o < 176 ensures BehindList(im, o) && !Survives(im, o) {
      NotPlanned(im, o);
      SurvivesExactly(im, o);
    }
  }

  lemma HintedLast(im: Image)
    requires Hinted(im.cmds)
    ensures |im.cmds| == 4 && |im.cmds[3]| == 16 && TypeOf(im.cmds[3]) == LC_LINKER_OPTIMIZATION_HINT
    ensures U32(im.cmds[3], 8) == 168 && U32(im.cmds[3], 12) == 8
  {
    hide U32, TypeOf, IsLinkedit, FromLe;
  }

  lemma NotPlanned(im: Image, o: nat)
    requires 168 <= o < 176 && |im.header| == LC_START && |Flat(im.cmds)| == 128 && |Encode(im)| == 176
    requires AllSized(im.cmds) && Plan(im.cmds) == [Entry(1, 8, 160, 8)]
    ensures BehindList(im, o) && !Planned(im, o)
  {
    hide Plan, Flat, Encode;
  }
}
