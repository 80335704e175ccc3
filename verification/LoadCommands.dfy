/** The load-command list of a 64-bit Mach-O file as raw bytes: finding, removing and
    inserting commands without moving anything behind the header padding. */
module LoadCommands {
  import opened Bytes

  datatype WriteError =
    | TooShort
    | InvalidCmdsize(size: nat, at: nat)
    | NoLinkedit
    | Overlap
    | NoHeaderpad

  const LC_START: nat := 32

  const LC_SEGMENT_64: nat := 0x19
  const LC_SYMTAB: nat := 0x2
  const LC_DYSYMTAB: nat := 0xB
  const LC_DYLD_INFO: nat := 0x22
  const LC_DYLD_INFO_ONLY: nat := 0x8000_0022
  const LC_DYLD_CHAINED_FIXUPS: nat := 0x8000_0034
  const LC_DYLD_EXPORTS_TRIE: nat := 0x8000_0033
  const LC_FUNCTION_STARTS: nat := 0x26
  const LC_DATA_IN_CODE: nat := 0x29
  const LC_CODE_SIGNATURE: nat := 0x1D
  const LC_SEGMENT_SPLIT_INFO: nat := 0x1E
  const LC_DYLIB_CODE_SIGN_DRS: nat := 0x2B
  const LC_LINKER_OPTIMIZATION_HINT: nat := 0x2E

  function U32(bytes: seq<byte>, at: nat): nat
    requires at + 4 <= |bytes|
  {
    FromLe(bytes[at..at + 4])
  }

  // ----- raw operations -------------------------------------------------

  /** A test on a command: its type word and its bytes. */
  type Test = (nat, seq<byte>) -> bool

  /** The first command from `cursor` on that passes `p`. */
  function FindCommand(bytes: seq<byte>, cursor: nat, end: nat, p: Test): (r: Result<Option<nat>, WriteError>)
    requires end <= |bytes|
    ensures r.Ok? && r.value.Some? ==> cursor <= r.value.value && r.value.value + 8 <= end && r.value.value + U32(bytes, r.value.value + 4) <= end
    decreases end - cursor
  {
    if cursor + 8 > end then Ok(None)
    else
      var size := U32(bytes, cursor + 4);
      if size == 0 || cursor + size > end then Err(InvalidCmdsize(size, cursor))
      else if p(U32(bytes, cursor), bytes[cursor..cursor + size]) then Ok(Some(cursor))
      else FindCommand(bytes, cursor + size, end, p)
  }

  method FindFirst(bytes: seq<byte>, start: nat, end: nat, p: Test) returns (r: Result<Option<nat>, WriteError>)
    requires end <= |bytes|
    ensures r == FindCommand(bytes, start, end, p)
  {
    var cursor := start;
    while cursor + 8 <= end
      invariant FindCommand(bytes, cursor, end, p) == FindCommand(bytes, start, end, p)
      decreases end - cursor
    {
      var cmd, cmdsize := FromLe(bytes[cursor..cursor + 4]), FromLe(bytes[cursor + 4..cursor + 8]);
      if cmdsize == 0 || cursor + cmdsize > end {
        return Err(InvalidCmdsize(cmdsize, cursor));
      }
      if p(cmd, bytes[cursor..cursor + cmdsize]) {
        return Ok(Some(cursor));
      }
      cursor := cursor + cmdsize;
    }
    return Ok(None);
  }

  function PatchedHeader(h: seq<byte>, ncmds: nat, sizeofcmds: nat): (r: seq<byte>)
    requires |h| >= 24
    ensures |r| == |h|
  {
    h[..16] + Le(ncmds, 4) + Le(sizeofcmds, 4) + h[24..]
  }

  /** The bytes at `at..at + size` go, everything up to `end` closes up and zeros fill the gap. */
  function Removed(bytes: seq<byte>, at: nat, size: nat, end: nat): (r: seq<byte>)
    requires at + size <= end <= |bytes|
    ensures |r| == |bytes|
  {
    bytes[..at] + bytes[at + size..end] + Zeros(size) + bytes[end..]
  }

  /** `lc` goes in at `at`; as many bytes behind `end` make room for it. */
  function Inserted(bytes: seq<byte>, at: nat, lc: seq<byte>, end: nat): (r: seq<byte>)
    requires at <= end && end + |lc| <= |bytes|
    ensures |r| == |bytes|
  {
    bytes[..at] + lc + bytes[at..end] + bytes[end + |lc|..]
  }

  method PatchCounts(bytes: seq<byte>, ncmds: nat, sizeofcmds: nat) returns (out: seq<byte>)
    requires |bytes| >= 24
    ensures out == PatchedHeader(bytes, ncmds, sizeofcmds)
  {
    var a, b := Le(ncmds, 4), Le(sizeofcmds, 4);
    out := bytes[..16] + a + bytes[20..];
    assert out[..20] == bytes[..16] + a && out[24..] == bytes[24..];
    out := out[..20] + b + out[24..];
  }

  method DrainAndRefill(bytes: seq<byte>, at: nat, size: nat, end: nat) returns (out: seq<byte>)
    requires at + size <= end <= |bytes|
    ensures out == Removed(bytes, at, size, end)
  {
    out := bytes[..at] + bytes[at + size..];
    var newEnd := end - size;
    assert out[..newEnd] == bytes[..at] + bytes[at + size..end] && out[newEnd..] == bytes[end..];
    out := out[..newEnd] + Zeros(size) + out[newEnd..];
  }

  method SpliceAndDrain(bytes: seq<byte>, at: nat, lc: seq<byte>, end: nat) returns (out: seq<byte>)
    requires at <= end && end + |lc| <= |bytes|
    ensures out == Inserted(bytes, at, lc, end)
  {
    out := bytes[..at] + lc + bytes[at..];
    var newEnd := end + |lc|;
    assert out[..newEnd] == bytes[..at] + lc + bytes[at..end] && out[newEnd + |lc|..] == bytes[end + |lc|..];
    out := out[..newEnd] + out[newEnd + |lc|..];
  }

  /** The file is long enough for the list its header announces. */
  predicate ListFits(bytes: seq<byte>) {
    |bytes| >= 24 ==> LC_START + U32(bytes, 20) <= |bytes|
  }

  /** Removes the first command that passes `p`: the freed size and the new bytes. */
  function Strip(bytes: seq<byte>, p: Test): (r: Result<(nat, seq<byte>), WriteError>)
    requires ListFits(bytes)
    ensures r.Ok? ==> |r.value.1| == |bytes|
  {
    if |bytes| < 24 then Err(TooShort)
    else
      var end := LC_START + U32(bytes, 20);
      match FindCommand(bytes, LC_START, end, p)
      case Err(e) => Err(e)
      case Ok(None) => Ok((0, bytes))
      case Ok(Some(at)) =>
        var size := U32(bytes, at + 4);
        Ok((size, PatchedHeader(Removed(bytes, at, size, end), (U32(bytes, 16) + U32_LIMIT - 1) % U32_LIMIT, U32(bytes, 20) - size)))
  }

  /** The drain-and-refill of both `strip` functions. */
  method StripFirst(bytes: seq<byte>, p: Test) returns (r: Result<nat, WriteError>, out: seq<byte>)
    requires ListFits(bytes)
    ensures r.Err? ==> Strip(bytes, p) == Err(r.error) && out == bytes
    ensures r.Ok? ==> Strip(bytes, p) == Ok((r.value, out))
  {
    hide Removed, PatchedHeader, FindCommand;
    out := bytes;
    if |bytes| < 24 {
      return Err(TooShort), out;
    }
    var ncmds, sizeofcmds := FromLe(bytes[16..20]), FromLe(bytes[20..24]);
    var end := LC_START + sizeofcmds;
    var found := FindFirst(bytes, LC_START, end, p);
    if found.Err? {
      return Err(found.error), out;
    }
    if found.value.None? {
      return Ok(0), out;
    }
    var at := found.value.value;
    var size := FromLe(bytes[at + 4..at + 8]);
    out := DrainAndRefill(out, at, size, end);
    out := PatchCounts(out, (ncmds + U32_LIMIT - 1) % U32_LIMIT, sizeofcmds - size);
    return Ok(size), out;
  }

  function OfType(cmd: nat): Test { (c, _) => c == cmd }

  /** `find_insert_offset_for_lc`. */
  function InsertOffset(bytes: seq<byte>, end: nat): (r: Result<nat, WriteError>)
    requires LC_START <= end <= |bytes|
    ensures r.Ok? ==> LC_START <= r.value <= end
  {
    match FindCommand(bytes, LC_START, end, OfType(LC_CODE_SIGNATURE))
    case Err(e) => Err(e)
    case Ok(None) => Ok(end)
    case Ok(Some(at)) => Ok(at)
  }

  function Flat(cmds: seq<seq<byte>>): seq<byte> {
    if cmds == [] then [] else cmds[0] + Flat(cmds[1..])
  }

  /** Splices `lcs` in before the code signature, or last. */
  function Inject(bytes: seq<byte>, lcs: seq<seq<byte>>): (r: Result<seq<byte>, WriteError>)
    requires ListFits(bytes) && (|bytes| >= 24 ==> LC_START + U32(bytes, 20) + |Flat(lcs)| <= |bytes|)
    ensures r.Ok? ==> |r.value| == |bytes|
  {
    if |bytes| < 24 then Err(TooShort)
    else
      var end := LC_START + U32(bytes, 20);
      match InsertOffset(bytes, end)
      case Err(e) => Err(e)
      case Ok(at) => Ok(PatchedHeader(Inserted(bytes, at, Flat(lcs), end), U32(bytes, 16) + |lcs|, U32(bytes, 20) + |Flat(lcs)|))
  }

  method Concatenate(lcs: seq<seq<byte>>) returns (splice: seq<byte>)
    ensures splice == Flat(lcs)
  {
    splice := [];
    var k := 0;
    while k < |lcs|
      invariant k <= |lcs| && splice + Flat(lcs[k..]) == Flat(lcs)
    {
      assert lcs[k..][1..] == lcs[k + 1..];
      assert splice + (lcs[k] + Flat(lcs[k + 1..])) == splice + lcs[k] + Flat(lcs[k + 1..]);
      splice := splice + lcs[k];
      k := k + 1;
    }
    assert lcs[k..] == [];
    assert splice + Flat([]) == splice;
  }

  method InjectAll(bytes: seq<byte>, lcs: seq<seq<byte>>) returns (r: Result<(), WriteError>, out: seq<byte>)
    requires ListFits(bytes) && (|bytes| >= 24 ==> LC_START + U32(bytes, 20) + |Flat(lcs)| <= |bytes|)
    ensures r.Err? ==> Inject(bytes, lcs) == Err(r.error) && out == bytes
    ensures r.Ok? ==> Inject(bytes, lcs) == Ok(out)
  {
    out := bytes;
    if |bytes| < 24 {
      return Err(TooShort), out;
    }
    var ncmds, sizeofcmds := FromLe(bytes[16..20]), FromLe(bytes[20..24]);
    var end := LC_START + sizeofcmds;
    var found := FindFirst(bytes, LC_START, end, OfType(LC_CODE_SIGNATURE));
    if found.Err? {
      return Err(found.error), out;
    }
    var at := if found.value.Some? then found.value.value else end;
    var splice := Concatenate(lcs);
    out := SpliceAndDrain(out, at, splice, end);
    out := PatchCounts(out, ncmds + |lcs|, sizeofcmds + |splice|);
    return Ok(()), out;
  }

  // ----- files as header, commands and the rest -------------------------

  datatype Image = Image(header: seq<byte>, cmds: seq<seq<byte>>, rest: seq<byte>)

  function Encode(im: Image): seq<byte> { im.header + Flat(im.cmds) + im.rest }

  predicate IsCommand(c: seq<byte>) { 8 <= |c| < U32_LIMIT && U32(c, 4) == |c| }

  ghost predicate Commands(cmds: seq<seq<byte>>) {
    forall i :: 0 <= i < |cmds| ==> IsCommand(cmds[i])
  }

  /** The header counts the commands and their bytes. */
  ghost predicate WellFormed(im: Image) {
    && |im.header| == LC_START && Commands(im.cmds)
    && |im.cmds| < U32_LIMIT && |Flat(im.cmds)| < U32_LIMIT
    && U32(im.header, 16) == |im.cmds| && U32(im.header, 20) == |Flat(im.cmds)|
  }

  /** The type word of a command. */
  function TypeOf(c: seq<byte>): nat { if |c| >= 4 then U32(c, 0) else 0 }

  function FirstIndex(cmds: seq<seq<byte>>, p: Test): (r: Option<nat>)
    ensures r.Some? ==> r.value < |cmds|
  {
    if cmds == [] then None
    else if p(TypeOf(cmds[0]), cmds[0]) then Some(0)
    else
      match FirstIndex(cmds[1..], p)
      case None => None
      case Some(i) => Some(i + 1)
  }

  /** It is the first command that passes. */
  lemma {:induction false} FirstIndexIs(cmds: seq<seq<byte>>, p: Test, k: nat)
    requires k <= |cmds| && forall i :: 0 <= i < k ==> !p(TypeOf(cmds[i]), cmds[i])
    ensures k < |cmds| && p(TypeOf(cmds[k]), cmds[k]) ==> FirstIndex(cmds, p) == Some(k)
    ensures k == |cmds| ==> FirstIndex(cmds, p) == None
    decreases |cmds|
  {
    if k > 0 {
      assert !p(TypeOf(cmds[0]), cmds[0]);
      assert forall i :: 0 <= i < k - 1 ==> cmds[1..][i] == cmds[i + 1];
      FirstIndexIs(cmds[1..], p, k - 1);
    }
  }

  lemma CommandWord(bytes: seq<byte>, at: nat, c: seq<byte>, k: nat)
    requires HasAt(bytes, at, c) && k + 4 <= |c|
    ensures U32(bytes, at + k) == U32(c, k)
  {
    var x, y := bytes[at + k..at + k + 4], c[k..k + 4];
    forall j | 0 <= j < 4 ensures x[j] == y[j] {
      HasAtIndex(bytes, at, c, k + j);
    }
    assert x == y;
  }

  lemma FindStep(bytes: seq<byte>, cursor: nat, end: nat, p: Test, c: seq<byte>)
    requires HasAt(bytes, cursor, c) && IsCommand(c) && cursor + |c| <= end <= |bytes|
    ensures FindCommand(bytes, cursor, end, p)
            == if p(TypeOf(c), c) then Ok(Some(cursor)) else FindCommand(bytes, cursor + |c|, end, p)
  {
    CommandWord(bytes, cursor, c, 0);
    CommandWord(bytes, cursor, c, 4);
  }

  lemma FlatPrefix(cmds: seq<seq<byte>>, i: nat)
    requires i < |cmds|
    ensures Flat(cmds[..i + 1]) == cmds[0] + Flat(cmds[1..][..i])
  {
    assert cmds[..i + 1][1..] == cmds[1..][..i];
  }

  /** Where the first passing command starts when the list starts at `cursor`. */
  function PositionOf(cmds: seq<seq<byte>>, p: Test, cursor: nat): Option<nat> {
    if cmds == [] then None
    else if p(TypeOf(cmds[0]), cmds[0]) then Some(cursor)
    else PositionOf(cmds[1..], p, cursor + |cmds[0]|)
  }

  lemma {:induction false} PositionIs(cmds: seq<seq<byte>>, p: Test, cursor: nat)
    ensures PositionOf(cmds, p, cursor) == match FirstIndex(cmds, p) case None => None case Some(i) => Some(cursor + |Flat(cmds[..i])|)
    decreases |cmds|
  {
    if cmds != [] {
      assert cmds[..0] == [];
      if !p(TypeOf(cmds[0]), cmds[0]) {
        PositionIs(cmds[1..], p, cursor + |cmds[0]|);
        var rest := FirstIndex(cmds[1..], p);
        if rest.Some? {
          FlatPrefix(cmds, rest.value);
        }
      }
    }
  }

  lemma FindNothing(bytes: seq<byte>, cursor: nat, p: Test)
    requires cursor <= |bytes|
    ensures FindCommand(bytes, cursor, cursor, p) == Ok(None)
  {}

  lemma {:induction false} FindReaches(bytes: seq<byte>, cursor: nat, cmds: seq<seq<byte>>, p: Test)
    requires HasAt(bytes, cursor, Flat(cmds)) && Commands(cmds)
    ensures FindCommand(bytes, cursor, cursor + |Flat(cmds)|, p) == Ok(PositionOf(cmds, p, cursor))
    decreases |cmds|
  {
    hide FindCommand, IsCommand, HasAt, TypeOf;
    HasAtSlice(bytes, cursor, Flat(cmds));
    if cmds == [] {
      FindNothing(bytes, cursor, p);
    } else {
      HasAtSplit(bytes, cursor, cmds[0], Flat(cmds[1..]));
      assert IsCommand(cmds[0]);
      FindStep(bytes, cursor, cursor + |Flat(cmds)|, p, cmds[0]);
      if !p(TypeOf(cmds[0]), cmds[0]) {
        FindReaches(bytes, cursor + |cmds[0]|, cmds[1..], p);
      }
    }
  }

  /** Walking the list stops at the first command that passes. */
  lemma FindWalks(bytes: seq<byte>, cursor: nat, cmds: seq<seq<byte>>, p: Test)
    requires HasAt(bytes, cursor, Flat(cmds)) && Commands(cmds)
    ensures FindCommand(bytes, cursor, cursor + |Flat(cmds)|, p)
            == Ok(match FirstIndex(cmds, p) case None => None case Some(i) => Some(cursor + |Flat(cmds[..i])|))
  {
    FindReaches(bytes, cursor, cmds, p);
    PositionIs(cmds, p, cursor);
  }

  lemma {:induction false} FlatSum(a: seq<seq<byte>>, b: seq<seq<byte>>)
    ensures Flat(a + b) == Flat(a) + Flat(b)
    decreases |a|
  {
    if a == [] {
      assert a + b == b;
    } else {
      assert (a + b)[1..] == a[1..] + b;
      FlatSum(a[1..], b);
    }
  }

  lemma FlatOne(c: seq<byte>)
    ensures Flat([c]) == c
  {
    assert [c][1..] == [];
  }

  lemma FlatSplit(cmds: seq<seq<byte>>, k: nat)
    requires k <= |cmds|
    ensures Flat(cmds) == Flat(cmds[..k]) + Flat(cmds[k..])
  {
    assert cmds == cmds[..k] + cmds[k..];
    FlatSum(cmds[..k], cmds[k..]);
  }

  lemma FlatTail(cmds: seq<seq<byte>>, i: nat)
    requires i < |cmds|
    ensures Flat(cmds[i..]) == cmds[i] + Flat(cmds[i + 1..])
  {
    assert cmds[i..][1..] == cmds[i + 1..];
  }

  lemma Regroup(a: seq<byte>, b: seq<byte>, c: seq<byte>)
    ensures a + (b + c) == a + b + c
  {}

  lemma FlatAround(cmds: seq<seq<byte>>, i: nat)
    requires i < |cmds|
    ensures Flat(cmds) == Flat(cmds[..i]) + cmds[i] + Flat(cmds[i + 1..])
  {
    FlatSplit(cmds, i);
    FlatTail(cmds, i);
    Regroup(Flat(cmds[..i]), cmds[i], Flat(cmds[i + 1..]));
  }

  // ----- removing -------------------------------------------------------

  function Without(cmds: seq<seq<byte>>, i: nat): seq<seq<byte>>
    requires i < |cmds|
  {
    cmds[..i] + cmds[i + 1..]
  }

  function Stripped(im: Image, i: nat): Image
    requires i < |im.cmds| && |im.header| >= 24 && |Flat(im.cmds)| >= |im.cmds[i]|
  {
    Image(PatchedHeader(im.header, |im.cmds| - 1, |Flat(im.cmds)| - |im.cmds[i]|),
          Without(im.cmds, i), Zeros(|im.cmds[i]|) + im.rest)
  }

  lemma EncodedHeader(im: Image)
    requires WellFormed(im)
    ensures ListFits(Encode(im)) && |Encode(im)| >= 32
    ensures U32(Encode(im), 16) == |im.cmds| && U32(Encode(im), 20) == |Flat(im.cmds)|
    ensures HasAt(Encode(im), LC_START, Flat(im.cmds))
  {
    var bytes := Encode(im);
    assert bytes[16..20] == im.header[16..20] && bytes[20..24] == im.header[20..24];
    HasAtMiddle(im.header, Flat(im.cmds), im.rest);
  }

  lemma RemovedEncodes(im: Image, i: nat)
    requires WellFormed(im) && i < |im.cmds|
    ensures |Flat(im.cmds[..i])| + |im.cmds[i]| <= |Flat(im.cmds)|
    ensures Removed(Encode(im), LC_START + |Flat(im.cmds[..i])|, |im.cmds[i]|, LC_START + |Flat(im.cmds)|)
            == im.header + Flat(Without(im.cmds, i)) + (Zeros(|im.cmds[i]|) + im.rest)
  {
    var a, c, b := Flat(im.cmds[..i]), im.cmds[i], Flat(im.cmds[i + 1..]);
    FlatAround(im.cmds, i);
    FlatSum(im.cmds[..i], im.cmds[i + 1..]);
    RemovedMiddle(im.header, a, c, b, im.rest);
  }

  lemma RemovedMiddle(h: seq<byte>, a: seq<byte>, c: seq<byte>, b: seq<byte>, rest: seq<byte>)
    ensures Removed(h + (a + c + b) + rest, |h| + |a|, |c|, |h| + |a| + |c| + |b|) == h + (a + b) + (Zeros(|c|) + rest)
  {
    var bytes := h + (a + c + b) + rest;
    assert bytes[..|h| + |a|] == h + a;
    assert bytes[|h| + |a| + |c|..|h| + |a| + |c| + |b|] == b;
    assert bytes[|h| + |a| + |c| + |b|..] == rest;
  }

  lemma PatchedEncodes(h: seq<byte>, tail: seq<byte>, n: nat, s: nat)
    requires |h| >= 24
    ensures PatchedHeader(h + tail, n, s) == PatchedHeader(h, n, s) + tail
  {}

  lemma FoundCommand(im: Image, i: nat)
    requires WellFormed(im) && i < |im.cmds|
    ensures var at := LC_START + |Flat(im.cmds[..i])|;
            at + |im.cmds[i]| <= LC_START + |Flat(im.cmds)| <= |Encode(im)| && U32(Encode(im), at + 4) == |im.cmds[i]| >= 8
  {
    assert IsCommand(im.cmds[i]);
    FlatAround(im.cmds, i);
    CommandInFile(im, i);
    CommandWord(Encode(im), LC_START + |Flat(im.cmds[..i])|, im.cmds[i], 4);
  }

  lemma StrippedEncodes(im: Image, i: nat)
    requires WellFormed(im) && i < |im.cmds|
    ensures var at, end := LC_START + |Flat(im.cmds[..i])|, LC_START + |Flat(im.cmds)|;
            && at + |im.cmds[i]| <= end <= |Encode(im)|
            && PatchedHeader(Removed(Encode(im), at, |im.cmds[i]|, end), |im.cmds| - 1, |Flat(im.cmds)| - |im.cmds[i]|)
               == Encode(Stripped(im, i))
  {
    RemovedEncodes(im, i);
    var c := im.cmds[i];
    var list, pad := Flat(Without(im.cmds, i)), Zeros(|c|) + im.rest;
    Regroup(im.header, list, pad);
    PatchedEncodes(im.header, list + pad, |im.cmds| - 1, |Flat(im.cmds)| - |c|);
    Regroup(PatchedHeader(im.header, |im.cmds| - 1, |Flat(im.cmds)| - |c|), list, pad);
  }

  /** The walk over a file's list finds command `i`. */
  lemma StripFinds(im: Image, p: Test, i: nat) returns (at: nat)
    requires WellFormed(im) && FirstIndex(im.cmds, p) == Some(i)
    ensures LC_START + |Flat(im.cmds)| <= |Encode(im)|
    ensures FindCommand(Encode(im), LC_START, LC_START + |Flat(im.cmds)|, p) == Ok(Some(at))
    ensures at == LC_START + |Flat(im.cmds[..i])| && U32(Encode(im), at + 4) == |im.cmds[i]|
    ensures at + |im.cmds[i]| <= LC_START + |Flat(im.cmds)|
  {
    hide Flat, FindCommand, FirstIndex, Encode;
    at := LC_START + |Flat(im.cmds[..i])|;
    EncodedHeader(im);
    FindWalks(Encode(im), LC_START, im.cmds, p);
    FoundCommand(im, i);
  }

  /** Stripping a file removes the first command that passes and pads behind the shorter list. */
  lemma StripEncodes(im: Image, p: Test, i: nat)
    requires WellFormed(im) && FirstIndex(im.cmds, p) == Some(i)
    ensures ListFits(Encode(im)) && |Flat(im.cmds)| >= |im.cmds[i]|
    ensures Strip(Encode(im), p) == Ok((|im.cmds[i]|, Encode(Stripped(im, i))))
  {
    hide Encode, Stripped, Strip, FirstIndex, FindCommand, Flat;
    EncodedHeader(im);
    var at := StripFinds(im, p, i);
    StrippedEncodes(im, i);
    StripsTo(Encode(im), p, at, |im.cmds[i]|, |im.cmds|, |Flat(im.cmds)|, Encode(Stripped(im, i)));
  }

  lemma StripNothing(im: Image, p: Test)
    requires WellFormed(im) && FirstIndex(im.cmds, p) == None
    ensures ListFits(Encode(im)) && Strip(Encode(im), p) == Ok((0, Encode(im)))
  {
    EncodedHeader(im);
    FindWalks(Encode(im), LC_START, im.cmds, p);
  }

  lemma StripsTo(bytes: seq<byte>, p: Test, at: nat, size: nat, ncmds: nat, sizeofcmds: nat, out: seq<byte>)
    requires ListFits(bytes) && |bytes| >= 24 && U32(bytes, 16) == ncmds && U32(bytes, 20) == sizeofcmds
    requires FindCommand(bytes, LC_START, LC_START + sizeofcmds, p) == Ok(Some(at)) && U32(bytes, at + 4) == size
    requires 0 < ncmds <= U32_LIMIT && at + size <= LC_START + sizeofcmds
    requires PatchedHeader(Removed(bytes, at, size, LC_START + sizeofcmds), ncmds - 1, sizeofcmds - size) == out
    ensures Strip(bytes, p) == Ok((size, out))
  {
    hide FindCommand, U32, Removed, PatchedHeader;
    assert (ncmds + U32_LIMIT - 1) % U32_LIMIT == ncmds - 1;
  }

  lemma CommandInFile(im: Image, i: nat)
    requires |im.header| == LC_START && i < |im.cmds|
    ensures HasAt(Encode(im), LC_START + |Flat(im.cmds[..i])|, im.cmds[i])
  {
    FlatAround(im.cmds, i);
    var a, b := Flat(im.cmds[..i]), Flat(im.cmds[i + 1..]);
    assert Encode(im) == (im.header + a) + im.cmds[i] + (b + im.rest);
    HasAtMiddle(im.header + a, im.cmds[i], b + im.rest);
  }

  lemma PatchedFields(h: seq<byte>, n: nat, s: nat)
    requires |h| >= 24 && n < U32_LIMIT && s < U32_LIMIT
    ensures U32(PatchedHeader(h, n, s), 16) == n && U32(PatchedHeader(h, n, s), 20) == s
  {
    var g := PatchedHeader(h, n, s);
    assert g[16..20] == Le(n, 4) && g[20..24] == Le(s, 4);
    Pow256Values();
    FromLeOfLe(n, 4);
    FromLeOfLe(s, 4);
  }

  /** Header and list agree after every removal. */
  lemma StrippedWellFormed(im: Image, i: nat)
    requires WellFormed(im) && i < |im.cmds|
    ensures |Flat(im.cmds)| >= |im.cmds[i]| && WellFormed(Stripped(im, i))
  {
    FlatAround(im.cmds, i);
    FlatSum(im.cmds[..i], im.cmds[i + 1..]);
    var s := Stripped(im, i);
    PatchedFields(im.header, |im.cmds| - 1, |Flat(im.cmds)| - |im.cmds[i]|);
    forall j | 0 <= j < |s.cmds| ensures IsCommand(s.cmds[j]) {
      assert s.cmds[j] == if j < i then im.cmds[j] else im.cmds[j + 1];
    }
  }

  // ----- inserting ------------------------------------------------------

  /** Where new commands go: before the first code signature, or last. */
  function InsertIndex(cmds: seq<seq<byte>>): (k: nat)
    ensures k <= |cmds|
  {
    match FirstIndex(cmds, OfType(LC_CODE_SIGNATURE))
    case None => |cmds|
    case Some(i) => i
  }

  function With(cmds: seq<seq<byte>>, k: nat, lcs: seq<seq<byte>>): seq<seq<byte>>
    requires k <= |cmds|
  {
    cmds[..k] + lcs + cmds[k..]
  }

  function InjectedAt(im: Image, k: nat, lcs: seq<seq<byte>>): Image
    requires |im.header| >= 24 && |Flat(lcs)| <= |im.rest| && k <= |im.cmds|
  {
    Image(PatchedHeader(im.header, |im.cmds| + |lcs|, |Flat(im.cmds)| + |Flat(lcs)|), With(im.cmds, k, lcs), im.rest[|Flat(lcs)|..])
  }

  function Injected(im: Image, lcs: seq<seq<byte>>): Image
    requires |im.header| >= 24 && |Flat(lcs)| <= |im.rest|
  {
    InjectedAt(im, InsertIndex(im.cmds), lcs)
  }

  lemma InsertedMiddle(h: seq<byte>, a: seq<byte>, lc: seq<byte>, b: seq<byte>, rest: seq<byte>)
    requires |lc| <= |rest|
    ensures Inserted(h + (a + b) + rest, |h| + |a|, lc, |h| + |a| + |b|) == h + (a + lc + b) + rest[|lc|..]
  {
    var bytes := h + (a + b) + rest;
    assert bytes[..|h| + |a|] == h + a;
    assert bytes[|h| + |a|..|h| + |a| + |b|] == b;
    assert bytes[|h| + |a| + |b| + |lc|..] == rest[|lc|..];
  }

  lemma WithFlat(cmds: seq<seq<byte>>, k: nat, lcs: seq<seq<byte>>)
    requires k <= |cmds|
    ensures Flat(With(cmds, k, lcs)) == Flat(cmds[..k]) + Flat(lcs) + Flat(cmds[k..])
  {
    FlatSum(cmds[..k] + lcs, cmds[k..]);
    FlatSum(cmds[..k], lcs);
  }

  lemma InsertedPatched(h: seq<byte>, a: seq<byte>, lc: seq<byte>, b: seq<byte>, rest: seq<byte>, n: nat, s: nat,
                        flat: seq<byte>, longer: seq<byte>, at: nat, end: nat)
    requires |h| >= 24 && |lc| <= |rest| && flat == a + b && longer == a + lc + b
    requires at == |h| + |a| && end == |h| + |flat|
    ensures PatchedHeader(Inserted(h + flat + rest, at, lc, end), n, s) == PatchedHeader(h, n, s) + longer + rest[|lc|..]
  {
    InsertedMiddle(h, a, lc, b, rest);
    var pad := rest[|lc|..];
    Regroup(h, longer, pad);
    PatchedEncodes(h, longer + pad, n, s);
    Regroup(PatchedHeader(h, n, s), longer, pad);
  }

  lemma InjectedEncodes(im: Image, lcs: seq<seq<byte>>, k: nat, at: nat, end: nat)
    requires |im.header| == LC_START && |Flat(lcs)| <= |im.rest| && k <= |im.cmds|
    requires at == LC_START + |Flat(im.cmds[..k])| && end == LC_START + |Flat(im.cmds)|
    ensures at <= end && end + |Flat(lcs)| <= |Encode(im)|
    ensures PatchedHeader(Inserted(Encode(im), at, Flat(lcs), end), |im.cmds| + |lcs|, |Flat(im.cmds)| + |Flat(lcs)|)
            == Encode(InjectedAt(im, k, lcs))
  {
    hide Flat;
    hide With;
    hide Inserted;
    hide PatchedHeader;
    FlatSplit(im.cmds, k);
    WithFlat(im.cmds, k, lcs);
    InsertedPatched(im.header, Flat(im.cmds[..k]), Flat(lcs), Flat(im.cmds[k..]), im.rest, |im.cmds| + |lcs|,
                    |Flat(im.cmds)| + |Flat(lcs)|, Flat(im.cmds), Flat(With(im.cmds, k, lcs)), at, end);
  }

  lemma InsertsAt(im: Image)
    requires WellFormed(im)
    ensures |Encode(im)| >= LC_START + |Flat(im.cmds)|
    ensures InsertOffset(Encode(im), LC_START + |Flat(im.cmds)|) == Ok(LC_START + |Flat(im.cmds[..InsertIndex(im.cmds)])|)
  {
    EncodedHeader(im);
    FindWalks(Encode(im), LC_START, im.cmds, OfType(LC_CODE_SIGNATURE));
    assert im.cmds[..|im.cmds|] == im.cmds;
  }

  lemma InjectAtEncodes(im: Image, lcs: seq<seq<byte>>, k: nat, at: nat)
    requires |im.header| == LC_START && |Flat(lcs)| <= |im.rest| && k <= |im.cmds| && |Encode(im)| >= LC_START + |Flat(im.cmds)|
    requires U32(Encode(im), 16) == |im.cmds| && U32(Encode(im), 20) == |Flat(im.cmds)|
    requires InsertOffset(Encode(im), LC_START + |Flat(im.cmds)|) == Ok(at) && at == LC_START + |Flat(im.cmds[..k])|
    ensures ListFits(Encode(im)) && LC_START + U32(Encode(im), 20) + |Flat(lcs)| <= |Encode(im)|
    ensures Inject(Encode(im), lcs) == Ok(Encode(InjectedAt(im, k, lcs)))
  {
    InjectedEncodes(im, lcs, k, at, LC_START + |Flat(im.cmds)|);
    InjectsTo(Encode(im), lcs, at, |im.cmds|, |Flat(im.cmds)|, Encode(InjectedAt(im, k, lcs)));
  }

  /** Injecting into a file inserts the commands and eats as much of the padding. */
  lemma InjectEncodes(im: Image, lcs: seq<seq<byte>>)
    requires WellFormed(im) && |Flat(lcs)| <= |im.rest|
    ensures ListFits(Encode(im)) && LC_START + U32(Encode(im), 20) + |Flat(lcs)| <= |Encode(im)|
    ensures Inject(Encode(im), lcs) == Ok(Encode(Injected(im, lcs)))
  {
    EncodedHeader(im);
    InsertsAt(im);
    var k := InsertIndex(im.cmds);
    InjectAtEncodes(im, lcs, k, LC_START + |Flat(im.cmds[..k])|);
  }

  lemma InjectsTo(bytes: seq<byte>, lcs: seq<seq<byte>>, at: nat, ncmds: nat, sizeofcmds: nat, out: seq<byte>)
    requires ListFits(bytes) && |bytes| >= 24 && U32(bytes, 16) == ncmds && U32(bytes, 20) == sizeofcmds
    requires LC_START + sizeofcmds + |Flat(lcs)| <= |bytes|
    requires InsertOffset(bytes, LC_START + sizeofcmds) == Ok(at)
    requires PatchedHeader(Inserted(bytes, at, Flat(lcs), LC_START + sizeofcmds), ncmds + |lcs|, sizeofcmds + |Flat(lcs)|) == out
    ensures Inject(bytes, lcs) == Ok(out)
  {}

  lemma WithCommands(cmds: seq<seq<byte>>, k: nat, lcs: seq<seq<byte>>)
    requires k <= |cmds| && Commands(cmds) && Commands(lcs)
    ensures Commands(With(cmds, k, lcs))
  {
    var all := With(cmds, k, lcs);
    forall j | 0 <= j < |all| ensures IsCommand(all[j]) {
      assert all[j] == if j < k then cmds[j] else if j < k + |lcs| then lcs[j - k] else cmds[j - |lcs|];
    }
  }

  /** Header and list agree after every injection. */
  lemma InjectedWellFormed(im: Image, lcs: seq<seq<byte>>)
    requires WellFormed(im) && Commands(lcs) && |Flat(lcs)| <= |im.rest|
    requires |im.cmds| + |lcs| < U32_LIMIT && |Flat(im.cmds)| + |Flat(lcs)| < U32_LIMIT
    ensures WellFormed(Injected(im, lcs))
  {
    var k := InsertIndex(im.cmds);
    hide InsertIndex;
    hide Flat;
    FlatSplit(im.cmds, k);
    WithFlat(im.cmds, k, lcs);
    PatchedFields(im.header, |im.cmds| + |lcs|, |Flat(im.cmds)| + |Flat(lcs)|);
    WithCommands(im.cmds, k, lcs);
  }
}
