/** `canonicalize_linkedit` on bytes. */
module CanonicalPass {
  import opened Bytes
  import opened LoadCommands
  import opened CanonicalLayout
  import opened Canonicalize
  import opened CanonicalTheorem
  import opened CanonicalSettles

  // ----- the command walk -----------------------------------------------

  function After(done: seq<seq<byte>>, r: Option<seq<seq<byte>>>): Option<seq<seq<byte>>> {
    match r
    case None => None
    case Some(rest) => Some(done + rest)
  }

  lemma AfterOne(done: seq<seq<byte>>, c: seq<byte>, r: Option<seq<seq<byte>>>)
    ensures After(done, After([c], r)) == After(done + [c], r)
    ensures After([], r) == r
  {
    if r.Some? {
      assert done + ([c] + r.value) == done + [c] + r.value;
      assert [] + r.value == r.value;
    }
  }

  ghost predicate PositionsOf(ats: seq<nat>, cmds: seq<seq<byte>>) {
    |ats| == |cmds| && forall i :: 0 <= i < |cmds| ==> ats[i] == LC_START + |Flat(cmds[..i])|
  }

  lemma PositionsGrow(ats: seq<nat>, cmds: seq<seq<byte>>, c: seq<byte>)
    requires PositionsOf(ats, cmds)
    ensures PositionsOf(ats + [LC_START + |Flat(cmds)|], cmds + [c]) && |Flat(cmds + [c])| == |Flat(cmds)| + |c|
  {
    var now := cmds + [c];
    forall i | 0 <= i < |now| ensures (ats + [LC_START + |Flat(cmds)|])[i] == LC_START + |Flat(now[..i])| {
      if i < |cmds| {
        assert now[..i] == cmds[..i];
      } else {
        assert now[..i] == cmds;
      }
    }
    FlatSum(cmds, [c]);
    FlatOne(c);
  }

  /** One command of the walk. */
  lemma CollectStep(bytes: seq<byte>, cmds: seq<seq<byte>>, cursor: nat, left: nat, end: nat, all: Option<seq<seq<byte>>>)
    requires cursor <= end <= |bytes| && left > 0 && all == After(cmds, ParseCommands(bytes, cursor, left, end))
    ensures cursor + 8 > end ==> all == None
    ensures cursor + 8 <= end ==>
              var size := U32(bytes, cursor + 4);
              && (size < 8 || cursor + size > end ==> all == None)
              && (size >= 8 && cursor + size <= end ==>
                    && all == After(cmds + [bytes[cursor..cursor + size]], ParseCommands(bytes, cursor + size, left - 1, end))
                    && (all.Some? ==> bytes[cursor..cursor + size] in all.value))
  {
    if cursor + 8 <= end {
      var size := U32(bytes, cursor + 4);
      if size >= 8 && cursor + size <= end {
        AfterOne(cmds, bytes[cursor..cursor + size], ParseCommands(bytes, cursor + size, left - 1, end));
      }
    }
  }

  lemma CollectDone(bytes: seq<byte>, cmds: seq<seq<byte>>, cursor: nat, end: nat, all: Option<seq<seq<byte>>>)
    requires end <= |bytes| && all == After(cmds, ParseCommands(bytes, cursor, 0, end))
    ensures all == Some(cmds)
  {
    assert cmds + [] == cmds;
  }

  /** Collects the commands and where they stand; gives up on a malformed list and on the
      first command of a foreign shape. */
  method Collect(bytes: seq<byte>, n: nat, end: nat) returns (r: Option<(seq<seq<byte>>, seq<nat>)>)
    requires LC_START <= end <= |bytes|
    ensures r.Some? ==> ParseCommands(bytes, LC_START, n, end) == Some(r.value.0) && PositionsOf(r.value.1, r.value.0)
    ensures r.Some? ==> forall i :: 0 <= i < |r.value.0| ==> !Foreign(r.value.0[i])
    ensures r.None? ==> ParseCommands(bytes, LC_START, n, end).None?
                        || exists c :: c in ParseCommands(bytes, LC_START, n, end).value && Foreign(c)
  {
    hide After, Foreign, ParseCommands;
    var cmds: seq<seq<byte>>, ats: seq<nat> := [], [];
    var cursor: nat, left: nat := LC_START, n;
    ghost var all := ParseCommands(bytes, LC_START, n, end);
    AfterOne([], [], all);
    while left > 0
      invariant cursor == LC_START + |Flat(cmds)| <= end && PositionsOf(ats, cmds)
      invariant all == After(cmds, ParseCommands(bytes, cursor, left, end))
      invariant forall i :: 0 <= i < |cmds| ==> !Foreign(cmds[i])
    {
      CollectStep(bytes, cmds, cursor, left, end, all);
      if cursor + 8 > end {
        return None;
      }
      var size := FromLe(bytes[cursor + 4..cursor + 8]);
      if size < 8 || cursor + size > end {
        return None;
      }
      var c := bytes[cursor..cursor + size];
      PositionsGrow(ats, cmds, c);
      if Foreign(c) {
        return None;
      }
      cmds, ats := cmds + [c], ats + [cursor];
      cursor, left := cursor + size, left - 1;
    }
    CollectDone(bytes, cmds, cursor, end, all);
    return Some((cmds, ats));
  }

  // ----- patching in place ----------------------------------------------

  /** Writing inside a command of a file writes inside that command. */
  lemma WriteInFile(im: Image, w: Write)
    requires |im.header| == LC_START && Inside(im.cmds, w)
    ensures var p := LC_START + |Flat(im.cmds[..w.i])| + w.at;
            && p + |w.data| <= |Encode(im)|
            && Overwritten(Encode(im), p, w.data) == Encode(im.(cmds := im.cmds[w.i := Overwritten(im.cmds[w.i], w.at, w.data)]))
  {
    var c, d := im.cmds[w.i], Overwritten(im.cmds[w.i], w.at, w.data);
    var now := im.cmds[w.i := d];
    FlatAround(im.cmds, w.i);
    FlatAround(now, w.i);
    assert now[..w.i] == im.cmds[..w.i] && now[w.i + 1..] == im.cmds[w.i + 1..];
    OverwriteMiddle(im.header, Flat(im.cmds[..w.i]), c, Flat(im.cmds[w.i + 1..]), im.rest, w.at, w.data);
  }

  lemma OverwriteMiddle(h: seq<byte>, a: seq<byte>, c: seq<byte>, b: seq<byte>, rest: seq<byte>, at: nat, data: seq<byte>)
    requires at + |data| <= |c|
    ensures Overwritten(h + (a + c + b) + rest, |h| + |a| + at, data) == h + (a + Overwritten(c, at, data) + b) + rest
  {
    var file, p := h + (a + c + b) + rest, |h| + |a| + at;
    assert file[..p] == h + a + c[..at];
    assert file[p + |data|..] == c[at + |data|..] + b + rest;
  }

  lemma SamePositions(ats: seq<nat>, cmds: seq<seq<byte>>, i: nat, d: seq<byte>)
    requires PositionsOf(ats, cmds) && i < |cmds| && |d| == |cmds[i]|
    ensures PositionsOf(ats, cmds[i := d])
  {
    var now := cmds[i := d];
    forall j | 0 <= j < |now| ensures ats[j] == LC_START + |Flat(now[..j])| {
      FlatSizes(now[..j], cmds[..j]);
    }
  }

  method PatchFile(bytes: seq<byte>, ats: seq<nat>, ws: seq<Write>, ghost im: Image) returns (out: seq<byte>)
    requires |im.header| == LC_START && bytes == Encode(im) && PositionsOf(ats, im.cmds)
    requires forall k :: 0 <= k < |ws| ==> Inside(im.cmds, ws[k])
    ensures out == Encode(im.(cmds := Apply(im.cmds, ws)))
  {
    out := bytes;
    ghost var cur := im.cmds;
    var k := 0;
    while k < |ws|
      invariant k <= |ws| && |cur| == |im.cmds| && out == Encode(im.(cmds := cur)) && PositionsOf(ats, cur)
      invariant forall j :: 0 <= j < |ws[k..]| ==> Inside(cur, ws[k..][j])
      invariant Apply(cur, ws[k..]) == Apply(im.cmds, ws)
    {
      ghost var left := ws[k..];
      assert left[0] == ws[k] && left[1..] == ws[k + 1..] && Inside(cur, left[0]);
      InsideRest(cur, left);
      var w := ws[k];
      WriteInFile(im.(cmds := cur), w);
      SamePositions(ats, cur, w.i, Overwritten(cur[w.i], w.at, w.data));
      out := Overwritten(out, ats[w.i] + w.at, w.data);
      cur := cur[w.i := Overwritten(cur[w.i], w.at, w.data)];
      k := k + 1;
    }
    assert ws[k..] == [];
  }

  // ----- the pass -------------------------------------------------------

  /** The file cut at `__LINKEDIT`, with the packed blobs appended. */
  lemma CutAndExtended(im: Image)
    requires Placed(im) && Acts(im)
    ensures var cut := Image(im.header, im.cmds, Encode(im)[LC_START + |Flat(im.cmds)|..Base(im)] + Pack(NewContent(im)));
            Encode(im)[..Base(im)] + Pack(NewContent(im)) == Encode(cut)
  {
    hide Acts;
    hide NewContent;
    hide Pack;
    CutOf(im.header, Flat(im.cmds), im.rest, Base(im), Pack(NewContent(im)));
  }

  lemma CutOf(h: seq<byte>, flat: seq<byte>, rest: seq<byte>, base: nat, packed: seq<byte>)
    requires |h| + |flat| <= base <= |h + flat + rest|
    ensures (h + flat + rest)[..base] + packed == h + flat + ((h + flat + rest)[|h| + |flat|..base] + packed)
  {
    var file := h + flat + rest;
    assert file[..base] == h + flat + file[|h| + |flat|..base];
  }

  method Relay(bytes: seq<byte>, ats: seq<nat>, im: Image) returns (out: seq<byte>)
    requires Placed(im) && Acts(im) && bytes == Encode(im) && PositionsOf(ats, im.cmds)
    ensures out == Encode(Canon(im))
  {
    hide Starts, Pack, Encode, FieldWrites, SizeWrites, PositionsOf;
    var blobs := NewContent(im);
    var packed, starts := PackBlobs(blobs);
    var base := FromLe(im.cmds[LastIndex(im.cmds, IsLinkedit).value][40..48]);
    out := bytes[..base] + packed;
    CutAndExtended(im);
    WritesGood(im);
    WritableInside(im.cmds, Writes(im));
    ghost var cut := Image(im.header, im.cmds, Encode(im)[LC_START + |Flat(im.cmds)|..base] + packed);
    var ws := FieldWrites(Plan(im.cmds), base, starts) + SizeWrites(LastIndex(im.cmds, IsLinkedit).value, |packed|);
    out := PatchFile(out, ats, ws, cut);
  }

  /** `canonicalize_linkedit`: leaves alone what it does not model, otherwise re-lays. */
  method CanonicalizeLinkedit(bytes: seq<byte>) returns (out: seq<byte>)
    requires Parse(bytes).Some? ==> Placed(Parse(bytes).value)
    ensures Parse(bytes).None? ==> out == bytes
    ensures Parse(bytes).Some? ==>
              var im := Parse(bytes).value;
              AllSized(im.cmds) && out == if Acts(im) then Encode(Canon(im)) else bytes
  {
    if |bytes| < 32 {
      return bytes;
    }
    var ncmds, sizeofcmds := FromLe(bytes[16..20]), FromLe(bytes[20..24]);
    var end := LC_START + sizeofcmds;
    if end > |bytes| {
      return bytes;
    }
    var found := Collect(bytes, ncmds, end);
    if found.None? {
      return bytes;
    }
    var (cmds, ats) := found.value;
    var im := Image(bytes[..LC_START], cmds, bytes[LC_START + |Flat(cmds)|..]);
    assert Parse(bytes) == Some(im);
    if !Acts(im) {
      return bytes;
    }
    out := Relay(bytes, ats, im);
  }

  lemma ParsedIs(bytes: seq<byte>, im: Image)
    requires Parse(bytes) == Some(im)
    ensures AllHeaded(im.cmds) && Commands(im.cmds) && |im.header| == LC_START
    ensures U32(bytes, 20) == U32(im.header, 20)
  {
    var end := LC_START + U32(bytes, 20);
    forall i | 0 <= i < |im.cmds| ensures |im.cmds[i]| >= 8 && IsCommand(im.cmds[i]) {
      ParsedCommands(bytes, LC_START, U32(bytes, 16), end, i);
      FromLeBound(im.cmds[i][4..8]);
      Pow256Values();
    }
    assert im.header == bytes[..LC_START];
    assert bytes[..LC_START][20..24] == bytes[20..24];
  }

  lemma CanonCommands(im: Image)
    requires Placed(im) && Acts(im) && AllHeaded(im.cmds) && Commands(im.cmds)
    ensures Commands(Canon(im).cmds)
  {
    TypesKept(im);
    var out := Canon(im);
    hide Canon;
    hide Acts;
    forall i | 0 <= i < |out.cmds| ensures IsCommand(out.cmds[i]) {
      assert SameKind(im.cmds[i], out.cmds[i]) && IsCommand(im.cmds[i]);
    }
  }

  /** Whatever the first pass did, a second pass over the file it wrote changes no byte. */
  lemma SecondPassIsIdentity(bytes: seq<byte>, im: Image)
    requires Parse(bytes) == Some(im) && Placed(im) && Acts(im) && |Encode(Canon(im))| < U32_LIMIT
    ensures Parse(Encode(Canon(im))) == Some(Canon(im)) && Placed(Canon(im)) && Acts(Canon(im))
    ensures Encode(Canon(Canon(im))) == Encode(Canon(im))
  {
    hide Acts;
    hide Canon;
    ParsedIs(bytes, im);
    Settles(im);
    CanonCommands(im);
    CanonShape(im);
    ReParses(bytes, im, Canon(im));
  }

  lemma ReParses(bytes: seq<byte>, im: Image, out: Image)
    requires Parse(bytes) == Some(im) && out.header == im.header && |out.cmds| == |im.cmds| && |Flat(out.cmds)| == |Flat(im.cmds)|
    requires LC_START + U32(bytes, 20) <= |Encode(out)| && Commands(out.cmds)
    ensures Parse(Encode(out)) == Some(out)
  {
    hide ParseCommands, Flat;
    var now, end := Encode(out), LC_START + U32(bytes, 20);
    assert now[16..20] == im.header[16..20] == bytes[16..20] && now[20..24] == im.header[20..24] == bytes[20..24];
    HasAtMiddle(out.header, Flat(out.cmds), out.rest);
    ParsesBack(now, LC_START, out.cmds, end);
    assert now[..LC_START] == out.header && now[LC_START + |Flat(out.cmds)|..] == out.rest;
  }
}
