/** Growing `__TEXT` on the bytes of the load commands. */
module GrowthBytes {
  import opened Bytes
  import opened LoadCommands
  import opened AppendImage
  import opened SegmentTable
  import Arithmetic

  const LC_MAIN: nat := 0x8000_0028

  // ----- one field ------------------------------------------------------

  /** A nonzero field of `w` bytes gains `delta`; zero means "no data". */
  function AddAt(b: seq<byte>, at: nat, w: nat, delta: nat): (r: seq<byte>)
    requires at + w <= |b|
    ensures |r| == |b|
  {
    var v := FromLe(b[at..at + w]);
    if v == 0 then b else Overwritten(b, at, Le(v + delta, w))
  }

  method AddInPlace(buf: array<byte>, at: nat, w: nat, delta: nat)
    requires at + w <= buf.Length
    modifies buf
    ensures buf[..] == AddAt(old(buf[..]), at, w, delta)
  {
    var v := FromLe(buf[at..at + w]);
    assert buf[..][at..at + w] == buf[at..at + w];
    if v != 0 {
      Store(buf, at, Le(v + delta, w));
    }
  }

  method Store(buf: array<byte>, at: nat, data: seq<byte>)
    requires at + |data| <= buf.Length
    modifies buf
    ensures buf[..] == Overwritten(old(buf[..]), at, data)
  {
    forall i | 0 <= i < |data| {
      buf[at + i] := data[i];
    }
    assert buf[..] == Overwritten(old(buf[..]), at, data);
  }

  lemma {:induction false} LeTruncates(v: nat, w: nat)
    ensures FromLe(Le(v, w)) == v % Pow256(w)
  {
    if w > 0 {
      LeTruncates(v / 256, w - 1);
      assert Le(v, w)[1..] == Le(v / 256, w - 1);
      var p := Pow256(w - 1);
      var q, m := v / 256 / p, v / 256 % p;
      assert v == 256 * (v / 256) + v % 256 && v / 256 == q * p + m;
      assert q * (256 * p) == 256 * (q * p);
      Arithmetic.DivMod(v, 256 * p, q, 256 * m + v % 256);
    }
  }

  /** What the field and the fields apart from it read as. */
  lemma AddAtField(b: seq<byte>, at: nat, w: nat, delta: nat, k: nat, kw: nat)
    requires at + w <= |b| && k + kw <= |b| && ((k == at && kw == w) || at + w <= k || k + kw <= at)
    ensures var v, now := FromLe(b[k..k + kw]), FromLe(AddAt(b, at, w, delta)[k..k + kw]);
            if k == at && kw == w then now == if v == 0 then 0 else (v + delta) % Pow256(w) else now == v
  {
    var r := AddAt(b, at, w, delta);
    if k == at && kw == w {
      LeTruncates(FromLe(b[at..at + w]) + delta, w);
      assert FromLe(b[at..at + w]) != 0 ==> r[k..k + kw] == Le(FromLe(b[at..at + w]) + delta, w);
    } else {
      assert r[k..k + kw] == b[k..k + kw];
    }
  }

  /** Adding inside a slice. */
  lemma AddAtInside(b: seq<byte>, from: nat, to: nat, k: nat, w: nat, delta: nat)
    requires from <= to <= |b| && from + k + w <= to
    ensures AddAt(b, from + k, w, delta) == Overwritten(b, from, AddAt(b[from..to], k, w, delta))
  {
    hide FromLe, Le, Overwritten;
    SliceOfSlice(b, from, to, k, w);
    OverwrittenItself(b, from, to);
    InnerOverwrite(b, from, b[from..to], k, Le(FromLe(b[from + k..from + k + w]) + delta, w));
  }

  lemma OverwrittenItself(b: seq<byte>, from: nat, to: nat)
    requires from <= to <= |b|
    ensures Overwritten(b, from, b[from..to]) == b
  {}

  lemma SliceOfSlice(b: seq<byte>, from: nat, to: nat, k: nat, w: nat)
    requires from <= to <= |b| && from + k + w <= to
    ensures b[from..to][k..k + w] == b[from + k..from + k + w]
  {
    var inner, outer := b[from..to][k..k + w], b[from + k..from + k + w];
    assert forall i :: 0 <= i < w ==> inner[i] == b[from + k + i] == outer[i];
  }

  /** Writing inside what was written at `at`. */
  lemma InnerOverwrite(b: seq<byte>, at: nat, x: seq<byte>, k: nat, data: seq<byte>)
    requires at + |x| <= |b| && k + |data| <= |x|
    ensures Overwritten(Overwritten(b, at, x), at + k, data) == Overwritten(b, at, Overwritten(x, k, data))
  {}

  lemma OverwrittenTwice(b: seq<byte>, at: nat, x: seq<byte>, y: seq<byte>)
    requires |x| == |y| && at + |x| <= |b|
    ensures Overwritten(b, at, x)[at..at + |x|] == x
    ensures Overwritten(Overwritten(b, at, x), at, y) == Overwritten(b, at, y)
  {}

  // ----- sections -------------------------------------------------------

  function GrowSectionBytes(s: seq<byte>, delta: nat, threshold: nat): (r: seq<byte>)
    requires |s| == SECT_SIZE
    ensures |r| == |s|
  {
    if U64(s, 32) < threshold then s
    else AddAt(AddAt(AddAt(s, 32, 8, delta), 48, 4, delta), 56, 4, delta)
  }

  /** The `i`-th section grown. */
  function NextTable(c: seq<byte>, delta: nat, threshold: nat, i: nat, n: nat): (r: seq<byte>)
    requires i < n && SEG_HEADER + n * SECT_SIZE <= |c|
    ensures |r| == |c|
  {
    SlotFits(c, i, n);
    Overwritten(c, Slot(i), GrowSectionBytes(c[Slot(i)..Slot(i) + SECT_SIZE], delta, threshold))
  }

  /** The sections from the `i`-th on. */
  function GrowTable(c: seq<byte>, delta: nat, threshold: nat, i: nat, n: nat): (r: seq<byte>)
    requires i <= n && SEG_HEADER + n * SECT_SIZE <= |c|
    ensures |r| == |c|
    decreases n - i
  {
    if i == n then c
    else
      GrowTable(NextTable(c, delta, threshold, i, n), delta, threshold, i + 1, n)
  }

  // ----- commands -------------------------------------------------------

  predicate StraddlesAt(c: seq<byte>, gp: nat)
    requires |c| >= SEG_HEADER
  {
    U64(c, 40) <= gp < U64(c, 40) + U64(c, 48)
  }

  /** Two fields of the segment header. */
  function AddPair(c: seq<byte>, a: nat, b: nat, delta: nat): (r: seq<byte>)
    requires a + 8 <= |c| && b + 8 <= |c|
    ensures |r| == |c|
  {
    AddAt(AddAt(c, a, 8, delta), b, 8, delta)
  }

  function GrowSegment(c: seq<byte>, gp: nat, delta: nat, insertVaddr: nat): (r: seq<byte>)
    requires TableFits(c)
    ensures |r| == |c|
  {
    var n := U32(c, 64);
    if StraddlesAt(c, gp) then GrowTable(AddPair(c, 32, 48, delta), delta, insertVaddr, 0, n)
    else if U64(c, 24) >= insertVaddr then GrowTable(AddPair(c, 24, 40, delta), delta, 0, 0, n)
    else c
  }

  /** `LC_MAIN` holds the file offset of the entry point. */
  function GrowMain(c: seq<byte>, gp: nat, delta: nat): (r: seq<byte>)
    ensures |r| == |c|
  {
    if |c| >= 16 && U64(c, 8) >= gp then Overwritten(c, 8, Le(U64(c, 8) + delta, 8)) else c
  }

  function GrowBytes(c: seq<byte>, gp: nat, delta: nat, insertVaddr: nat): (r: seq<byte>)
    ensures |r| == |c|
  {
    if TypeOf(c) == LC_SEGMENT_64 then if TableFits(c) then GrowSegment(c, gp, delta, insertVaddr) else c
    else if TypeOf(c) == LC_MAIN then GrowMain(c, gp, delta)
    else BumpFields(c, OffsetFields(TypeOf(c), |c|), delta)
  }

  function Grower(gp: nat, delta: nat, insertVaddr: nat): seq<byte> -> seq<byte> { c => GrowBytes(c, gp, delta, insertVaddr) }

  /** The address of the growth point, from the first segment whose file range holds it; a
      malformed size ends the search. */
  function InsertVaddrFrom(b: seq<byte>, cursor: nat, end: nat, gp: nat): nat
    requires end <= |b|
    decreases end - cursor
  {
    if cursor + 8 > end then gp
    else
      var size := U32(b, cursor + 4);
      if size == 0 || cursor + size > end then gp
      else if U32(b, cursor) == LC_SEGMENT_64 && cursor + 56 <= end && U64(b, cursor + 40) <= gp < U64(b, cursor + 40) + U64(b, cursor + 48)
      then U64(b, cursor + 24) + (gp - U64(b, cursor + 40))
      else InsertVaddrFrom(b, cursor + size, end, gp)
  }

  ghost function GrowCommands(b: seq<byte>, end: nat, gp: nat, delta: nat): Result<seq<byte>, WriteError>
    requires LC_START <= end <= |b|
  {
    PatchFrom(b, LC_START, end, Grower(gp, delta, InsertVaddrFrom(b, LC_START, end, gp)))
  }

  // ----- in place -------------------------------------------------------

  method FindInsertVaddr(buf: array<byte>, end: nat, gp: nat) returns (v: nat)
    requires LC_START <= end <= buf.Length
    ensures v == InsertVaddrFrom(buf[..], LC_START, end, gp)
  {
    var cursor := LC_START;
    while cursor + 8 <= end
      invariant InsertVaddrFrom(buf[..], cursor, end, gp) == InsertVaddrFrom(buf[..], LC_START, end, gp)
      decreases end - cursor
    {
      var cmd, size := U32(buf[..], cursor), U32(buf[..], cursor + 4);
      if size == 0 || cursor + size > end {
        return gp;
      }
      if cmd == LC_SEGMENT_64 && cursor + 56 <= end {
        var vmaddr, fileoff, filesize := U64(buf[..], cursor + 24), U64(buf[..], cursor + 40), U64(buf[..], cursor + 48);
        if fileoff <= gp && gp < fileoff + filesize {
          return vmaddr + (gp - fileoff);
        }
      }
      cursor := cursor + size;
    }
    return gp;
  }

  lemma SectionOverwritten(b: seq<byte>, sec: nat, delta: nat, threshold: nat)
    requires sec + SECT_SIZE <= |b|
    ensures var s := b[sec..sec + SECT_SIZE];
            Overwritten(b, sec, GrowSectionBytes(s, delta, threshold))
            == if U64(s, 32) < threshold then b
               else AddAt(AddAt(AddAt(b, sec + 32, 8, delta), sec + 48, 4, delta), sec + 56, 4, delta)
  {
    var s := b[sec..sec + SECT_SIZE];
    if U64(s, 32) < threshold {
      assert b == b[..sec] + s + b[sec + SECT_SIZE..];
    } else {
      var s1 := AddAt(s, 32, 8, delta);
      var s2 := AddAt(s1, 48, 4, delta);
      var b1 := Overwritten(b, sec, s1);
      var b2 := Overwritten(b, sec, s2);
      AddAtInside(b, sec, sec + SECT_SIZE, 32, 8, delta);
      OverwrittenTwice(b, sec, s1, s2);
      AddAtInside(b1, sec, sec + SECT_SIZE, 48, 4, delta);
      OverwrittenTwice(b, sec, s2, AddAt(s2, 56, 4, delta));
      AddAtInside(b2, sec, sec + SECT_SIZE, 56, 4, delta);
    }
  }

  method GrowSectionInPlace(buf: array<byte>, sec: nat, delta: nat, threshold: nat)
    requires sec + SECT_SIZE <= buf.Length
    modifies buf
    ensures buf[..] == Overwritten(old(buf[..]), sec, GrowSectionBytes(old(buf[sec..sec + SECT_SIZE]), delta, threshold))
  {
    hide AddAt, GrowSectionBytes;
    SectionOverwritten(buf[..], sec, delta, threshold);
    assert buf[..][sec..sec + SECT_SIZE] == buf[sec..sec + SECT_SIZE];
    var addr := U64(buf[sec..sec + SECT_SIZE], 32);
    if addr < threshold {
      return;
    }
    AddInPlace(buf, sec + 32, 8, delta);
    AddInPlace(buf, sec + 48, 4, delta);
    AddInPlace(buf, sec + 56, 4, delta);
  }

  /** `shift_segment_sections` on the segment command at `at`. */
  method ShiftSegmentSections(buf: array<byte>, at: nat, size: nat, delta: nat, threshold: nat)
    requires at + size <= buf.Length && TableFits(buf[at..at + size])
    modifies buf
    ensures var c := old(buf[at..at + size]);
            buf[..] == Overwritten(old(buf[..]), at, GrowTable(c, delta, threshold, 0, U32(c, 64)))
  {
    hide TableFits, GrowSectionBytes, GrowTable, NextTable, Overwritten, U32, Slot;
    ghost var was, c := buf[..], buf[at..at + size];
    TableHolds(c);
    var n := U32(buf[at..at + size], 64);
    ghost var now := c;
    OverwrittenItself(was, at, at + size);
    var i := 0;
    while i < n
      invariant i <= n && |now| == size && buf[..] == Overwritten(was, at, now)
      invariant GrowTable(now, delta, threshold, i, n) == GrowTable(c, delta, threshold, 0, n)
    {
      TableStep(was, at, now, delta, threshold, i, n);
      GrowSectionInPlace(buf, at + Slot(i), delta, threshold);
      now := NextTable(now, delta, threshold, i, n);
      i := i + 1;
    }
    TableDone(now, delta, threshold, n);
  }

  lemma TableDone(c: seq<byte>, delta: nat, threshold: nat, n: nat)
    requires SEG_HEADER + n * SECT_SIZE <= |c|
    ensures GrowTable(c, delta, threshold, n, n) == c
  {}

  lemma TableStep(was: seq<byte>, at: nat, now: seq<byte>, delta: nat, threshold: nat, i: nat, n: nat)
    requires at + |now| <= |was| && i < n && SEG_HEADER + n * SECT_SIZE <= |now|
    ensures var b := Overwritten(was, at, now);
            && at + Slot(i) + SECT_SIZE <= |was|
            && Overwritten(b, at + Slot(i), GrowSectionBytes(b[at + Slot(i)..at + Slot(i) + SECT_SIZE], delta, threshold))
               == Overwritten(was, at, NextTable(now, delta, threshold, i, n))
    ensures GrowTable(now, delta, threshold, i, n) == GrowTable(NextTable(now, delta, threshold, i, n), delta, threshold, i + 1, n)
  {
    hide GrowSectionBytes;
    SlotFits(now, i, n);
    var b, s := Overwritten(was, at, now), now[Slot(i)..Slot(i) + SECT_SIZE];
    assert b[at..at + |now|] == now;
    SliceOfSlice(b, at, at + |now|, Slot(i), SECT_SIZE);
    InnerOverwrite(was, at, now, Slot(i), GrowSectionBytes(s, delta, threshold));
  }

  lemma TableHolds(c: seq<byte>)
    requires TableFits(c)
    ensures |c| >= SEG_HEADER && SEG_HEADER + U32(c, 64) * SECT_SIZE <= |c|
  {}

  method AddPairInPlace(buf: array<byte>, at: nat, size: nat, a: nat, b: nat, delta: nat)
    requires at + size <= buf.Length && a + 8 <= size && b + 8 <= size
    modifies buf
    ensures buf[..] == Overwritten(old(buf[..]), at, AddPair(old(buf[at..at + size]), a, b, delta))
  {
    hide AddAt, Overwritten;
    ghost var was, c := buf[..], buf[at..at + size];
    AddInPlace(buf, at + a, 8, delta);
    AddInPlace(buf, at + b, 8, delta);
    ghost var once := AddAt(c, a, 8, delta);
    AddAtInside(was, at, at + size, a, 8, delta);
    OverwrittenTwice(was, at, once, AddAt(once, b, 8, delta));
    AddAtInside(Overwritten(was, at, once), at, at + size, b, 8, delta);
  }

  /** The pair lies in front of the section count. */
  lemma PairKeepsCount(c: seq<byte>, a: nat, b: nat, delta: nat)
    requires a + 8 <= 64 && b + 8 <= 64 && TableFits(c)
    ensures TableFits(AddPair(c, a, b, delta)) && U32(AddPair(c, a, b, delta), 64) == U32(c, 64)
  {
    hide AddAt;
    AddAtField(c, a, 8, delta, 64, 4);
    AddAtField(AddAt(c, a, 8, delta), b, 8, delta, 64, 4);
  }

  method GrowSegmentInPlace(buf: array<byte>, at: nat, size: nat, gp: nat, delta: nat, insertVaddr: nat)
    requires at + size <= buf.Length && TableFits(buf[at..at + size])
    modifies buf
    ensures buf[..] == Overwritten(old(buf[..]), at, GrowSegment(old(buf[at..at + size]), gp, delta, insertVaddr))
  {
    hide AddPair, GrowTable, TableFits, Overwritten;
    ghost var was, c := buf[..], buf[at..at + size];
    TableHolds(c);
    var vmaddr, fileoff, filesize := U64(buf[at..at + size], 24), U64(buf[at..at + size], 40), U64(buf[at..at + size], 48);
    if fileoff <= gp && gp < fileoff + filesize {
      AddPairInPlace(buf, at, size, 32, 48, delta);
      PairStands(was, at, c, 32, 48, delta, insertVaddr);
      ShiftSegmentSections(buf, at, size, delta, insertVaddr);
    } else if vmaddr >= insertVaddr {
      AddPairInPlace(buf, at, size, 24, 40, delta);
      PairStands(was, at, c, 24, 40, delta, 0);
      ShiftSegmentSections(buf, at, size, delta, 0);
    } else {
      OverwrittenItself(was, at, at + size);
    }
  }

  lemma PairStands(was: seq<byte>, at: nat, c: seq<byte>, a: nat, b: nat, delta: nat, threshold: nat)
    requires at + |c| <= |was| && a + 8 <= 64 && b + 8 <= 64 && TableFits(c)
    ensures var now := AddPair(c, a, b, delta);
            && |c| >= SEG_HEADER && SEG_HEADER + U32(c, 64) * SECT_SIZE <= |c|
            && TableFits(now) && U32(now, 64) == U32(c, 64)
            && Overwritten(was, at, now)[at..at + |c|] == now
            && Overwritten(Overwritten(was, at, now), at, GrowTable(now, delta, threshold, 0, U32(c, 64)))
               == Overwritten(was, at, GrowTable(now, delta, threshold, 0, U32(c, 64)))
  {
    hide AddPair, GrowTable;
    PairKeepsCount(c, a, b, delta);
    var now := AddPair(c, a, b, delta);
    OverwrittenTwice(was, at, now, GrowTable(now, delta, threshold, 0, U32(c, 64)));
  }

  method BumpOneInPlace(buf: array<byte>, at: nat, delta: nat)
    requires at + 4 <= buf.Length
    modifies buf
    ensures buf[..] == BumpField(old(buf[..]), at, delta)
  {
    var v := FromLe(buf[at..at + 4]);
    assert buf[..][at..at + 4] == buf[at..at + 4];
    if v != 0 {
      Store(buf, at, Le((v + delta) % U32_LIMIT, 4));
    }
  }

  method BumpInPlace(buf: array<byte>, at: nat, size: nat, fields: seq<nat>, delta: nat)
    requires at + size <= buf.Length && forall i :: 0 <= i < |fields| ==> fields[i] + 4 <= size
    modifies buf
    ensures buf[..] == Overwritten(old(buf[..]), at, BumpFields(old(buf[at..at + size]), fields, delta))
  {
    ghost var was, c := buf[..], buf[at..at + size];
    ghost var now := c;
    hide BumpField, BumpFields, Overwritten;
    OverwrittenItself(was, at, at + size);
    assert fields[0..] == fields;
    var i := 0;
    while i < |fields|
      invariant i <= |fields| && |now| == size && buf[..] == Overwritten(was, at, now)
      invariant BumpFields(now, fields[i..], delta) == BumpFields(c, fields, delta)
    {
      BumpStep(now, fields, i, delta);
      BumpInside(was, at, now, fields[i], delta);
      BumpOneInPlace(buf, at + fields[i], delta);
      now := BumpField(now, fields[i], delta);
      i := i + 1;
    }
    BumpDone(now, fields, delta);
  }

  lemma BumpDone(c: seq<byte>, fields: seq<nat>, delta: nat)
    ensures BumpFields(c, fields[|fields|..], delta) == c
  {}

  lemma BumpIsOverwrite(c: seq<byte>, at: nat, delta: nat)
    requires at + 4 <= |c|
    ensures BumpField(c, at, delta) == if U32(c, at) == 0 then c else Overwritten(c, at, Le((U32(c, at) + delta) % U32_LIMIT, 4))
  {}

  lemma BumpInside(was: seq<byte>, at: nat, now: seq<byte>, k: nat, delta: nat)
    requires at + |now| <= |was| && k + 4 <= |now|
    ensures BumpField(Overwritten(was, at, now), at + k, delta) == Overwritten(was, at, BumpField(now, k, delta))
  {
    hide BumpField, Overwritten, Le, FromLe;
    var b := Overwritten(was, at, now);
    BumpIsOverwrite(b, at + k, delta);
    BumpIsOverwrite(now, k, delta);
    OverwrittenTwice(was, at, now, now);
    SliceOfSlice(b, at, at + |now|, k, 4);
    InnerOverwrite(was, at, now, k, Le((U32(now, k) + delta) % U32_LIMIT, 4));
  }

  lemma BumpStep(now: seq<byte>, fields: seq<nat>, i: nat, delta: nat)
    requires i < |fields|
    ensures BumpFields(now, fields[i..], delta) == BumpFields(BumpField(now, fields[i], delta), fields[i + 1..], delta)
  {
    hide BumpField;
    assert fields[i..][1..] == fields[i + 1..];
  }

  method GrowMainInPlace(buf: array<byte>, at: nat, size: nat, gp: nat, delta: nat)
    requires at + size <= buf.Length
    modifies buf
    ensures buf[..] == Overwritten(old(buf[..]), at, GrowMain(old(buf[at..at + size]), gp, delta))
  {
    hide Overwritten, Le, FromLe;
    ghost var was := buf[..];
    var c := buf[at..at + size];
    OverwrittenItself(was, at, at + size);
    if size >= 16 {
      var entryoff := U64(c, 8);
      if entryoff >= gp {
        InnerOverwrite(was, at, c, 8, Le(entryoff + delta, 8));
        Store(buf, at + 8, Le(entryoff + delta, 8));
      }
    }
  }

  /** One command of the walk. */
  method GrowCommandInPlace(buf: array<byte>, at: nat, size: nat, gp: nat, delta: nat, insertVaddr: nat)
    requires at + size <= buf.Length
    modifies buf
    ensures buf[..] == Overwritten(old(buf[..]), at, GrowBytes(old(buf[at..at + size]), gp, delta, insertVaddr))
  {
    hide TableFits, GrowSegment, GrowMain, BumpFields, OffsetFields, Overwritten;
    ghost var was := buf[..];
    var c := buf[at..at + size];
    OverwrittenItself(was, at, at + size);
    if TypeOf(c) == LC_SEGMENT_64 {
      if TableFits(c) {
        GrowSegmentInPlace(buf, at, size, gp, delta, insertVaddr);
      }
    } else if TypeOf(c) == LC_MAIN {
      GrowMainInPlace(buf, at, size, gp, delta);
    } else {
      FieldsSpread(TypeOf(c), size);
      BumpInPlace(buf, at, size, OffsetFields(TypeOf(c), size), delta);
    }
  }

  lemma WalkStep(b: seq<byte>, cursor: nat, end: nat, patch: seq<byte> -> seq<byte>)
    requires cursor + 8 <= end <= |b| && KeepsSize(patch)
    ensures var size := FromLe(b[cursor + 4..cursor + 8]);
            PatchFrom(b, cursor, end, patch)
            == if size == 0 || cursor + size > end then Err(InvalidCmdsize(size, cursor))
               else PatchFrom(Overwritten(b, cursor, patch(b[cursor..cursor + size])), cursor + size, end, patch)
  {}

  lemma WalkDone(b: seq<byte>, cursor: nat, end: nat, patch: seq<byte> -> seq<byte>)
    requires cursor + 8 > end && end <= |b| && KeepsSize(patch)
    ensures PatchFrom(b, cursor, end, patch) == Ok(b)
  {}

  /** `apply_growth_to_load_commands`. */
  method ApplyGrowth(buf: array<byte>, end: nat, gp: nat, delta: nat) returns (r: Result<(), WriteError>)
    requires LC_START <= end <= buf.Length
    modifies buf
    ensures r.Err? ==> GrowCommands(old(buf[..]), end, gp, delta) == Err(r.error)
    ensures r.Ok? ==> GrowCommands(old(buf[..]), end, gp, delta) == Ok(buf[..])
  {
    hide GrowBytes, InsertVaddrFrom, PatchFrom, Overwritten;
    var insertVaddr := FindInsertVaddr(buf, end, gp);
    ghost var was, patch := buf[..], Grower(gp, delta, insertVaddr);
    var cursor := LC_START;
    while cursor + 8 <= end
      invariant PatchFrom(buf[..], cursor, end, patch) == PatchFrom(was, LC_START, end, patch)
      decreases end - cursor
    {
      var size := FromLe(buf[cursor + 4..cursor + 8]);
      assert buf[..][cursor + 4..cursor + 8] == buf[cursor + 4..cursor + 8];
      WalkStep(buf[..], cursor, end, patch);
      if size == 0 || cursor + size > end {
        return Err(InvalidCmdsize(size, cursor));
      }
      assert buf[..][cursor..cursor + size] == buf[cursor..cursor + size];
      GrowCommandInPlace(buf, cursor, size, gp, delta, insertVaddr);
      cursor := cursor + size;
    }
    WalkDone(buf[..], cursor, end, patch);
    return Ok(());
  }
}
