/** Compact unwind tables: the in-place shift of every image offset. */
module UnwindInfo {
  import opened Bytes

  datatype UnwindError =
    | PastEnd(at: nat)
    | UnsupportedVersion
    | OffsetOverflow
    | PageHeader
    | UnknownPageKind(kind: nat)
    | MalformedLsda

  const UNWIND_SECTION_VERSION: nat := 1
  const REGULAR: nat := 2
  const COMPRESSED: nat := 3

  // ----- one field ------------------------------------------------------

  function Read(b: seq<byte>, at: nat): (r: Result<nat, UnwindError>)
    ensures r.Ok? <==> at + 4 <= |b|
  {
    if at + 4 <= |b| then Ok(FromLe(b[at..at + 4])) else Err(PastEnd(at))
  }

  function Half(b: seq<byte>, at: nat): (r: Result<nat, UnwindError>)
    ensures r.Ok? <==> at + 2 <= |b|
  {
    if at + 2 <= |b| then Ok(FromLe(b[at..at + 2])) else Err(PageHeader)
  }

  /** `shift_at`. */
  function ShiftAt(b: seq<byte>, at: nat, gp: nat, delta: nat): (r: Result<seq<byte>, UnwindError>)
    ensures r.Ok? ==> |r.value| == |b| && at + 4 <= |b|
  {
    match Read(b, at)
    case Err(e) => Err(e)
    case Ok(v) =>
      if v < gp then Ok(b)
      else if v + delta >= U32_LIMIT then Err(OffsetOverflow)
      else Ok(b[..at] + Le(v + delta, 4) + b[at + 4..])
  }

  function ShiftList(b: seq<byte>, ats: seq<nat>, gp: nat, delta: nat): (r: Result<seq<byte>, UnwindError>)
    ensures r.Ok? ==> |r.value| == |b|
    decreases |ats|
  {
    if ats == [] then Ok(b)
    else
      match ShiftAt(b, ats[0], gp, delta)
      case Err(e) => Err(e)
      case Ok(next) => ShiftList(next, ats[1..], gp, delta)
  }

  function Strided(at: nat, step: nat, count: nat): (r: seq<nat>)
    ensures |r| == count
    decreases count
  {
    if count == 0 then [] else [at] + Strided(at + step, step, count - 1)
  }

  // ----- the whole section ----------------------------------------------

  /** The second-level page and LSDA offsets of every index entry. */
  function ReadEntries(b: seq<byte>, e: nat, count: nat): (r: Result<seq<(nat, nat)>, UnwindError>)
    ensures r.Ok? ==> |r.value| == count
    decreases count
  {
    if count == 0 then Ok([])
    else
      match Read(b, e + 4)
      case Err(x) => Err(x)
      case Ok(page) =>
        match Read(b, e + 8)
        case Err(x) => Err(x)
        case Ok(lsda) =>
          match ReadEntries(b, e + 12, count - 1)
          case Err(x) => Err(x)
          case Ok(rest) => Ok([(page, lsda)] + rest)
  }

  /** The absolute fields of a second-level page: a regular page's function offsets. */
  function PageFields(b: seq<byte>, page: nat): Result<seq<nat>, UnwindError> {
    match Read(b, page)
    case Err(e) => Err(e)
    case Ok(kind) =>
      if kind == REGULAR then
        match Half(b, page + 4)
        case Err(e) => Err(e)
        case Ok(first) =>
          match Half(b, page + 6)
          case Err(e) => Err(e)
          case Ok(count) => Ok(Strided(page + first, 8, count))
      else if kind == COMPRESSED then Ok([])
      else Err(UnknownPageKind(kind))
  }

  /** One index entry: its function offset, then its page. */
  function ShiftEntry(b: seq<byte>, e: nat, page: nat, gp: nat, delta: nat): Result<seq<byte>, UnwindError> {
    match ShiftAt(b, e, gp, delta)
    case Err(x) => Err(x)
    case Ok(next) =>
      if page == 0 then Ok(next)
      else
        match PageFields(next, page)
        case Err(x) => Err(x)
        case Ok(fields) => ShiftList(next, fields, gp, delta)
  }

  function ShiftEntries(b: seq<byte>, e: nat, entries: seq<(nat, nat)>, gp: nat, delta: nat): Result<seq<byte>, UnwindError>
    decreases |entries|
  {
    if entries == [] then Ok(b)
    else
      match ShiftEntry(b, e, entries[0].0, gp, delta)
      case Err(x) => Err(x)
      case Ok(next) => ShiftEntries(next, e + 12, entries[1..], gp, delta)
  }

  /** The LSDA records: two words each, from the first entry's offset to the last's. */
  function LsdaFields(entries: seq<(nat, nat)>): Result<seq<nat>, UnwindError> {
    if entries == [] then Ok([])
    else
      var start, end := entries[0].1, entries[|entries| - 1].1;
      if end < start || (end - start) % 8 != 0 then Err(MalformedLsda)
      else Ok(Strided(start, 4, (end - start) / 4))
  }

  function ShiftTables(b: seq<byte>, indexOff: nat, indexCount: nat, gp: nat, delta: nat): Result<seq<byte>, UnwindError> {
    match ReadEntries(b, indexOff, indexCount)
    case Err(e) => Err(e)
    case Ok(entries) =>
      match ShiftEntries(b, indexOff, entries, gp, delta)
      case Err(e) => Err(e)
      case Ok(next) =>
        match LsdaFields(entries)
        case Err(e) => Err(e)
        case Ok(fields) => ShiftList(next, fields, gp, delta)
  }

  datatype Header = Header(personalityOff: nat, personalityCount: nat, indexOff: nat, indexCount: nat)

  function ReadHeader(b: seq<byte>): Result<Header, UnwindError> {
    if Read(b, 0).Err? then Err(Read(b, 0).error)
    else if Read(b, 0).value != UNWIND_SECTION_VERSION then Err(UnsupportedVersion)
    else if Read(b, 12).Err? then Err(Read(b, 12).error)
    else if Read(b, 16).Err? then Err(Read(b, 16).error)
    else if Read(b, 20).Err? then Err(Read(b, 20).error)
    else if Read(b, 24).Err? then Err(Read(b, 24).error)
    else Ok(Header(Read(b, 12).value, Read(b, 16).value, Read(b, 20).value, Read(b, 24).value))
  }

  function ShiftUnwind(b: seq<byte>, gp: nat, delta: nat): Result<seq<byte>, UnwindError> {
    match ReadHeader(b)
    case Err(e) => Err(e)
    case Ok(h) =>
      match ShiftList(b, Strided(h.personalityOff, 4, h.personalityCount), gp, delta)
      case Err(e) => Err(e)
      case Ok(next) => ShiftTables(next, h.indexOff, h.indexCount, gp, delta)
  }

  // ----- in place -------------------------------------------------------

  /** The section now holds what `spec` says, or the pass stopped with its error. */
  ghost predicate Achieves(section: seq<byte>, r: Result<(), UnwindError>, spec: Result<seq<byte>, UnwindError>) {
    && (r.Ok? ==> spec == Ok(section))
    && (r.Err? ==> spec == Err(r.error))
  }

  method ShiftAtInPlace(section: array<byte>, at: nat, gp: nat, delta: nat) returns (r: Result<(), UnwindError>)
    modifies section
    ensures Achieves(section[..], r, ShiftAt(old(section[..]), at, gp, delta))
  {
    if at + 4 > section.Length {
      return Err(PastEnd(at));
    }
    var v := FromLe(section[at..at + 4]);
    assert section[..][at..at + 4] == section[at..at + 4];
    if v >= gp {
      if v + delta >= U32_LIMIT {
        return Err(OffsetOverflow);
      }
      var word := Le(v + delta, 4);
      forall i | 0 <= i < 4 {
        section[at + i] := word[i];
      }
      assert section[..] == old(section[..])[..at] + word + old(section[..])[at + 4..];
    }
    return Ok(());
  }

  method ShiftStrided(section: array<byte>, start: nat, step: nat, count: nat, gp: nat, delta: nat) returns (r: Result<(), UnwindError>)
    modifies section
    ensures Achieves(section[..], r, ShiftList(old(section[..]), Strided(start, step, count), gp, delta))
  {
    ghost var goal := ShiftList(section[..], Strided(start, step, count), gp, delta);
    var at: nat, left: nat := start, count;
    while left > 0
      invariant ShiftList(section[..], Strided(at, step, left), gp, delta) == goal
    {
      assert Strided(at, step, left)[1..] == Strided(at + step, step, left - 1);
      r := ShiftAtInPlace(section, at, gp, delta);
      if r.Err? {
        return;
      }
      at, left := at + step, left - 1;
    }
    return Ok(());
  }

  method CollectEntries(section: array<byte>, indexOff: nat, count: nat) returns (r: Result<seq<(nat, nat)>, UnwindError>)
    ensures r == ReadEntries(section[..], indexOff, count)
  {
    var entries: seq<(nat, nat)> := [];
    var e: nat, left: nat := indexOff, count;
    ghost var goal := ReadEntries(section[..], indexOff, count);
    ReadMore([], goal);
    while left > 0
      invariant |entries| + left == count
      invariant Behind(entries, ReadEntries(section[..], e, left)) == goal
    {
      if e + 8 > section.Length {
        return Err(PastEnd(e + 4));
      }
      if e + 12 > section.Length {
        return Err(PastEnd(e + 8));
      }
      var entry := (FromLe(section[e + 4..e + 8]), FromLe(section[e + 8..e + 12]));
      assert section[..][e + 4..e + 8] == section[e + 4..e + 8] && section[..][e + 8..e + 12] == section[e + 8..e + 12];
      BehindOne(entries, entry, ReadEntries(section[..], e + 12, left - 1));
      entries := entries + [entry];
      e, left := e + 12, left - 1;
    }
    assert entries + [] == entries;
    return Ok(entries);
  }

  function Behind(a: seq<(nat, nat)>, r: Result<seq<(nat, nat)>, UnwindError>): Result<seq<(nat, nat)>, UnwindError> {
    match r
    case Err(e) => Err(e)
    case Ok(rest) => Ok(a + rest)
  }

  lemma ReadMore(a: seq<(nat, nat)>, r: Result<seq<(nat, nat)>, UnwindError>)
    requires a == []
    ensures Behind(a, r) == r
  {
    if r.Ok? {
      assert a + r.value == r.value;
    }
  }

  lemma BehindOne(a: seq<(nat, nat)>, x: (nat, nat), r: Result<seq<(nat, nat)>, UnwindError>)
    ensures Behind(a, Behind([x], r)) == Behind(a + [x], r)
  {
    if r.Ok? {
      assert a + ([x] + r.value) == a + [x] + r.value;
    }
  }

  method ShiftEntryInPlace(section: array<byte>, e: nat, page: nat, gp: nat, delta: nat) returns (r: Result<(), UnwindError>)
    modifies section
    ensures Achieves(section[..], r, ShiftEntry(old(section[..]), e, page, gp, delta))
  {
    r := ShiftAtInPlace(section, e, gp, delta);
    if r.Err? || page == 0 {
      return;
    }
    if page + 4 > section.Length {
      return Err(PastEnd(page));
    }
    var kind := FromLe(section[page..page + 4]);
    assert section[..][page..page + 4] == section[page..page + 4];
    if kind == REGULAR {
      if page + 8 > section.Length {
        return Err(PageHeader);
      }
      var first, count := FromLe(section[page + 4..page + 6]), FromLe(section[page + 6..page + 8]);
      assert section[..][page + 4..page + 6] == section[page + 4..page + 6];
      assert section[..][page + 6..page + 8] == section[page + 6..page + 8];
      r := ShiftStrided(section, page + first, 8, count, gp, delta);
    } else if kind != COMPRESSED {
      return Err(UnknownPageKind(kind));
    }
  }

  method ShiftTablesInPlace(section: array<byte>, indexOff: nat, indexCount: nat, gp: nat, delta: nat) returns (r: Result<(), UnwindError>)
    modifies section
    ensures Achieves(section[..], r, ShiftTables(old(section[..]), indexOff, indexCount, gp, delta))
  {
    var read := CollectEntries(section, indexOff, indexCount);
    if read.Err? {
      return Err(read.error);
    }
    var entries := read.value;
    ghost var goal := ShiftEntries(section[..], indexOff, entries, gp, delta);
    var i, e: nat := 0, indexOff;
    assert entries[0..] == entries;
    while i < |entries|
      invariant i <= |entries|
      invariant ShiftEntries(section[..], e, entries[i..], gp, delta) == goal
    {
      assert entries[i..][1..] == entries[i + 1..];
      r := ShiftEntryInPlace(section, e, entries[i].0, gp, delta);
      if r.Err? {
        return;
      }
      i, e := i + 1, e + 12;
    }
    if |entries| > 0 {
      var start, end := entries[0].1, entries[|entries| - 1].1;
      if end < start || (end - start) % 8 != 0 {
        return Err(MalformedLsda);
      }
      r := ShiftStrided(section, start, 4, (end - start) / 4, gp, delta);
    } else {
      r := Ok(());
    }
  }

  /** `shift_unwind_info`. */
  method ShiftUnwindInfo(section: array<byte>, gp: nat, delta: nat) returns (r: Result<(), UnwindError>)
    modifies section
    ensures Achieves(section[..], r, ShiftUnwind(old(section[..]), gp, delta))
  {
    var header := ReadHeader(section[..]);
    if header.Err? {
      return Err(header.error);
    }
    var h := header.value;
    r := ShiftStrided(section, h.personalityOff, 4, h.personalityCount, gp, delta);
    if r.Err? {
      return;
    }
    r := ShiftTablesInPlace(section, h.indexOff, h.indexCount, gp, delta);
  }
}
