/** The whole append: content keeps its bytes, and commands reach it where it went. */
module AppendImage {
  import opened Bytes
  import opened LoadCommands
  import opened AppendSegment

  // ----- moving __LINKEDIT ----------------------------------------------

  function RoundUp(v: nat): (r: nat)
    ensures v <= r < v + APPEND_PAGE_ALIGN && r % APPEND_PAGE_ALIGN == 0
  {
    (v + APPEND_PAGE_ALIGN - 1) / APPEND_PAGE_ALIGN * APPEND_PAGE_ALIGN
  }

  /** Where `__LINKEDIT` goes once the payload stands at its old place. */
  function NewLinkedit(le: nat, payload: seq<byte>): (r: nat)
    ensures r >= le + |payload|
  {
    RoundUp(le + |payload|)
  }

  function Relocated(bytes: seq<byte>, le: nat, leSize: nat, payload: seq<byte>): (r: seq<byte>)
    requires le + leSize <= |bytes|
    ensures |r| == NewLinkedit(le, payload) + leSize
  {
    bytes[..le] + payload + Zeros(NewLinkedit(le, payload) - le - |payload|) + bytes[le..le + leSize]
  }

  lemma FourSlices(out: seq<byte>, a: seq<byte>, b: seq<byte>, c: seq<byte>, d: seq<byte>)
    requires |out| == |a| + |b| + |c| + |d|
    requires forall i :: 0 <= i < |a| ==> out[i] == a[i]
    requires forall i :: 0 <= i < |b| ==> out[|a| + i] == b[i]
    requires forall i :: 0 <= i < |c| ==> out[|a| + |b| + i] == c[i]
    requires forall i :: 0 <= i < |d| ==> out[|a| + |b| + |c| + i] == d[i]
    ensures out == a + b + c + d
  {}

  method Relocate(bytes: seq<byte>, le: nat, leSize: nat, payload: seq<byte>) returns (out: seq<byte>)
    requires le + leSize <= |bytes|
    ensures out == Relocated(bytes, le, leSize, payload)
  {
    var newLe, n := NewLinkedit(le, payload), |payload|;
    hide NewLinkedit, Zeros;
    var buffer := new byte[newLe + leSize](_ => 0);
    forall i | 0 <= i < le { buffer[i] := bytes[i]; }
    forall i | 0 <= i < n { buffer[le + i] := payload[i]; }
    forall i | 0 <= i < leSize { buffer[newLe + i] := bytes[le + i]; }
    out := buffer[..];
    FourSlices(out, bytes[..le], payload, Zeros(newLe - le - n), bytes[le..le + leSize]);
  }

  // ----- following it in the load commands ------------------------------

  /** A nonzero u32 offset field gains `shift`, truncated; zero means "no data". */
  function BumpField(c: seq<byte>, at: nat, shift: nat): (r: seq<byte>)
    ensures |r| == |c|
  {
    if at + 4 > |c| || U32(c, at) == 0 then c
    else c[..at] + Le((U32(c, at) + shift) % U32_LIMIT, 4) + c[at + 4..]
  }

  function BumpFields(c: seq<byte>, ats: seq<nat>, shift: nat): (r: seq<byte>)
    ensures |r| == |c|
    decreases |ats|
  {
    if ats == [] then c else BumpFields(BumpField(c, ats[0], shift), ats[1..], shift)
  }

  /** The file-offset fields of a command that points into `__LINKEDIT`. */
  function OffsetFields(cmd: nat, size: nat): seq<nat> {
    if (cmd == LC_DYLD_INFO || cmd == LC_DYLD_INFO_ONLY) && size >= 48 then [8, 16, 24, 32, 40]
    else if (cmd == LC_DYLD_CHAINED_FIXUPS || cmd == LC_DYLD_EXPORTS_TRIE || cmd == LC_FUNCTION_STARTS
             || cmd == LC_DATA_IN_CODE || cmd == LC_CODE_SIGNATURE) && size >= 16 then [8]
    else if cmd == LC_SYMTAB && size >= 24 then [8, 16]
    else if cmd == LC_DYSYMTAB && size >= 76 then [32, 40, 48, 56, 64, 72]
    else []
  }

  function U64(c: seq<byte>, at: nat): nat
    requires at + 8 <= |c|
  {
    FromLe(c[at..at + 8])
  }

  function PatchCommand(c: seq<byte>, le: nat, shift: nat): (r: seq<byte>)
    ensures |r| == |c|
  {
    if TypeOf(c) == LC_SEGMENT_64 then
      if |c| >= 48 && U64(c, 40) == le && le != 0 then c[..40] + Le((le + shift) % U64_LIMIT, 8) + c[48..] else c
    else BumpFields(c, OffsetFields(TypeOf(c), |c|), shift)
  }

  ghost predicate KeepsSize(patch: seq<byte> -> seq<byte>) {
    forall c :: |patch(c)| == |c|
  }

  /** Every command of the list, patched where it stands. */
  ghost function PatchFrom(bytes: seq<byte>, cursor: nat, end: nat, patch: seq<byte> -> seq<byte>): Result<seq<byte>, WriteError>
    requires end <= |bytes| && KeepsSize(patch)
    decreases end - cursor
  {
    if cursor + 8 > end then Ok(bytes)
    else
      var size := U32(bytes, cursor + 4);
      if size == 0 || cursor + size > end then Err(InvalidCmdsize(size, cursor))
      else PatchFrom(bytes[..cursor] + patch(bytes[cursor..cursor + size]) + bytes[cursor + size..], cursor + size, end, patch)
  }

  function Patcher(le: nat, shift: nat): seq<byte> -> seq<byte> { c => PatchCommand(c, le, shift) }

  ghost function ShiftCommands(bytes: seq<byte>, cursor: nat, end: nat, le: nat, shift: nat): Result<seq<byte>, WriteError>
    requires end <= |bytes|
  {
    PatchFrom(bytes, cursor, end, Patcher(le, shift))
  }

  method PatchLoop(bytes: seq<byte>, end: nat, patch: seq<byte> -> seq<byte>) returns (r: Result<(), WriteError>, out: seq<byte>)
    requires LC_START <= end <= |bytes| && KeepsSize(patch)
    ensures r.Err? ==> PatchFrom(bytes, LC_START, end, patch) == Err(r.error)
    ensures r.Ok? ==> PatchFrom(bytes, LC_START, end, patch) == Ok(out)
  {
    out := bytes;
    var cursor := LC_START;
    while cursor + 8 <= end
      invariant |out| == |bytes|
      invariant PatchFrom(out, cursor, end, patch) == PatchFrom(bytes, LC_START, end, patch)
      decreases end - cursor
    {
      var size := FromLe(out[cursor + 4..cursor + 8]);
      if size == 0 || cursor + size > end {
        return Err(InvalidCmdsize(size, cursor)), out;
      }
      out := out[..cursor] + patch(out[cursor..cursor + size]) + out[cursor + size..];
      cursor := cursor + size;
    }
    return Ok(()), out;
  }

  /** `shift_linkedit_offsets`. */
  method ShiftLinkeditOffsets(bytes: seq<byte>, end: nat, le: nat, shift: nat) returns (r: Result<(), WriteError>, out: seq<byte>)
    requires LC_START <= end <= |bytes|
    ensures r.Err? ==> ShiftCommands(bytes, LC_START, end, le, shift) == Err(r.error)
    ensures r.Ok? ==> ShiftCommands(bytes, LC_START, end, le, shift) == Ok(out)
  {
    r, out := PatchLoop(bytes, end, Patcher(le, shift));
  }

  function PatchAll(cmds: seq<seq<byte>>, patch: seq<byte> -> seq<byte>): (r: seq<seq<byte>>)
    ensures |r| == |cmds|
  {
    if cmds == [] then [] else [patch(cmds[0])] + PatchAll(cmds[1..], patch)
  }

  lemma {:induction false} PatchAllHas(cmds: seq<seq<byte>>, patch: seq<byte> -> seq<byte>, c: seq<byte>)
    requires c in cmds
    ensures patch(c) in PatchAll(cmds, patch)
    decreases |cmds|
  {
    if cmds[0] != c {
      PatchAllHas(cmds[1..], patch, c);
    }
  }

  lemma {:induction false} BumpKeeps(c: seq<byte>, ats: seq<nat>, shift: nat, k: nat)
    requires k <= |c| && forall i :: 0 <= i < |ats| ==> ats[i] >= k
    ensures BumpFields(c, ats, shift)[..k] == c[..k]
    decreases |ats|
  {
    if ats != [] {
      var next := BumpField(c, ats[0], shift);
      assert next[..k] == c[..k];
      BumpKeeps(next, ats[1..], shift, k);
    }
  }

  /** A patched command keeps its type and size. */
  lemma PatchKeepsCommand(c: seq<byte>, le: nat, shift: nat)
    requires IsCommand(c)
    ensures IsCommand(PatchCommand(c, le, shift)) && TypeOf(PatchCommand(c, le, shift)) == TypeOf(c)
  {
    var p := PatchCommand(c, le, shift);
    if TypeOf(c) == LC_SEGMENT_64 {
      assert p[..8] == c[..8];
    } else {
      BumpKeeps(c, OffsetFields(TypeOf(c), |c|), shift, 8);
    }
    assert p[..8][0..4] == p[0..4] && p[..8][4..8] == p[4..8];
    assert c[..8][0..4] == c[0..4] && c[..8][4..8] == c[4..8];
  }

  lemma {:induction false} PatchAllCommands(cmds: seq<seq<byte>>, patch: seq<byte> -> seq<byte>)
    requires Commands(cmds) && forall c :: IsCommand(c) ==> IsCommand(patch(c)) && |patch(c)| == |c|
    ensures Commands(PatchAll(cmds, patch)) && |Flat(PatchAll(cmds, patch))| == |Flat(cmds)|
    decreases |cmds|
  {
    if cmds != [] {
      assert IsCommand(cmds[0]);
      PatchAllCommands(cmds[1..], patch);
      assert PatchAll(cmds, patch)[1..] == PatchAll(cmds[1..], patch);
    }
  }

  lemma PatchStep(pre: seq<byte>, c: seq<byte>, post: seq<byte>, end: nat, patch: seq<byte> -> seq<byte>)
    requires KeepsSize(patch) && IsCommand(c) && |pre| + |c| <= end <= |pre + c + post|
    ensures PatchFrom(pre + c + post, |pre|, end, patch) == PatchFrom(pre + patch(c) + post, |pre| + |c|, end, patch)
  {
    var bytes := pre + c + post;
    HasAtMiddle(pre, c, post);
    CommandWord(bytes, |pre|, c, 4);
    assert bytes[..|pre|] == pre && bytes[|pre|..|pre| + |c|] == c && bytes[|pre| + |c|..] == post;
  }

  lemma RegroupInner(pre: seq<byte>, c: seq<byte>, flat: seq<byte>, post: seq<byte>)
    ensures pre + (c + flat) + post == pre + c + (flat + post) == (pre + c) + flat + post
  {}

  lemma PatchHead(pre: seq<byte>, c: seq<byte>, flat: seq<byte>, post: seq<byte>, end: nat, patch: seq<byte> -> seq<byte>)
    requires KeepsSize(patch) && IsCommand(c) && end == |pre| + |c| + |flat|
    ensures PatchFrom(pre + (c + flat) + post, |pre|, end, patch) == PatchFrom((pre + patch(c)) + flat + post, |pre| + |c|, end, patch)
  {
    RegroupInner(pre, c, flat, post);
    PatchStep(pre, c, flat + post, end, patch);
    RegroupInner(pre, patch(c), flat, post);
  }

  lemma PatchNothing(pre: seq<byte>, post: seq<byte>, patch: seq<byte> -> seq<byte>)
    requires KeepsSize(patch)
    ensures PatchFrom(pre + Flat([]) + post, |pre|, |pre| + |Flat([])|, patch) == Ok(pre + Flat(PatchAll([], patch)) + post)
  {}

  /** Patching a file patches each command of its list and nothing else. */
  lemma {:induction false} PatchWalks(pre: seq<byte>, cmds: seq<seq<byte>>, post: seq<byte>, patch: seq<byte> -> seq<byte>)
    requires Commands(cmds) && KeepsSize(patch)
    ensures PatchFrom(pre + Flat(cmds) + post, |pre|, |pre| + |Flat(cmds)|, patch)
            == Ok(pre + Flat(PatchAll(cmds, patch)) + post)
    decreases |cmds|
  {
    hide PatchFrom, PatchAll;
    if cmds == [] {
      PatchNothing(pre, post, patch);
    } else {
      assert IsCommand(cmds[0]);
      PatchHead(pre, cmds[0], Flat(cmds[1..]), post, |pre| + |Flat(cmds)|, patch);
      PatchWalks(pre + patch(cmds[0]), cmds[1..], post, patch);
      PatchAllFlat(cmds, patch);
      RegroupInner(pre, patch(cmds[0]), Flat(PatchAll(cmds[1..], patch)), post);
    }
  }

  lemma PatchAllFlat(cmds: seq<seq<byte>>, patch: seq<byte> -> seq<byte>)
    requires cmds != []
    ensures Flat(PatchAll(cmds, patch)) == patch(cmds[0]) + Flat(PatchAll(cmds[1..], patch))
  {
    assert PatchAll(cmds, patch)[1..] == PatchAll(cmds[1..], patch);
  }

  // ----- a patched field reaches the moved bytes ------------------------

  lemma BumpFieldAt(c: seq<byte>, at: nat, shift: nat, k: nat)
    requires k + 4 <= |c| && (at == k || at + 4 <= k || k + 4 <= at)
    ensures U32(BumpField(c, at, shift), k) == if at == k && U32(c, k) != 0 then (U32(c, k) + shift) % U32_LIMIT else U32(c, k)
  {
    var r := BumpField(c, at, shift);
    if at + 4 <= |c| && U32(c, at) != 0 {
      if at == k {
        assert r[k..k + 4] == Le((U32(c, at) + shift) % U32_LIMIT, 4);
        Pow256Values();
        FromLeOfLe((U32(c, at) + shift) % U32_LIMIT, 4);
      } else {
        assert r[k..k + 4] == c[k..k + 4];
      }
    }
  }

  ghost predicate Spread(ats: seq<nat>) {
    forall i, j :: 0 <= i < j < |ats| ==> ats[i] + 4 <= ats[j]
  }

  /** Each listed field gains `shift` once; zero stays zero. */
  lemma {:induction false} BumpedField(c: seq<byte>, ats: seq<nat>, shift: nat, i: nat)
    requires Spread(ats) && i < |ats| && ats[i] + 4 <= |c|
    ensures U32(BumpFields(c, ats, shift), ats[i]) == if U32(c, ats[i]) != 0 then (U32(c, ats[i]) + shift) % U32_LIMIT else 0
    decreases |ats|
  {
    var next := BumpField(c, ats[0], shift);
    var rest := ats[1..];
    assert Spread(rest) by {
      assert forall k :: 0 <= k < |rest| ==> rest[k] == ats[k + 1];
    }
    BumpFieldAt(c, ats[0], shift, ats[i]);
    if i == 0 {
      assert forall k :: 0 <= k < |rest| ==> rest[k] >= ats[0] + 4;
      BumpKeeps(next, rest, shift, ats[0] + 4);
      assert BumpFields(next, rest, shift)[..ats[0] + 4][ats[0]..] == next[..ats[0] + 4][ats[0]..];
      assert BumpFields(next, rest, shift)[ats[0]..ats[0] + 4] == next[ats[0]..ats[0] + 4];
    } else {
      BumpedField(next, rest, shift, i - 1);
    }
  }

  lemma FieldsSpread(cmd: nat, size: nat)
    ensures Spread(OffsetFields(cmd, size)) && forall i :: 0 <= i < |OffsetFields(cmd, size)| ==> OffsetFields(cmd, size)[i] + 4 <= size
  {}

  /** An offset field of a patched command has moved with `__LINKEDIT`. */
  lemma PatchedField(c: seq<byte>, le: nat, shift: nat, i: nat)
    requires IsCommand(c) && i < |OffsetFields(TypeOf(c), |c|)| && TypeOf(c) != LC_SEGMENT_64
    ensures var at := OffsetFields(TypeOf(c), |c|)[i];
            && at + 4 <= |c|
            && (0 < U32(c, at) && U32(c, at) + shift < U32_LIMIT ==> U32(PatchCommand(c, le, shift), at) == U32(c, at) + shift)
            && (U32(c, at) == 0 ==> U32(PatchCommand(c, le, shift), at) == 0)
  {
    hide OffsetFields, BumpFields, PatchCommand, Spread, U32, TypeOf;
    PatchIsBump(c, le, shift);
    FieldsSpread(TypeOf(c), |c|);
    BumpedField(c, OffsetFields(TypeOf(c), |c|), shift, i);
  }

  lemma PatchIsBump(c: seq<byte>, le: nat, shift: nat)
    requires TypeOf(c) != LC_SEGMENT_64
    ensures PatchCommand(c, le, shift) == BumpFields(c, OffsetFields(TypeOf(c), |c|), shift)
  {
    hide OffsetFields, BumpFields;
  }
}
