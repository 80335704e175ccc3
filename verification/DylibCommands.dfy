/** Adding and removing library dependencies in the load-command list. */
module DylibCommands {
  import opened Bytes
  import opened LoadCommands

  const LC_LOAD_DYLIB: nat := 0xC
  const LC_LOAD_WEAK_DYLIB: nat := 0x8000_0018
  const LC_REEXPORT_DYLIB: nat := 0x8000_001F
  const LC_LOAD_UPWARD_DYLIB: nat := 0x8000_0023

  predicate IsDylibLoad(cmd: nat) {
    cmd == LC_LOAD_DYLIB || cmd == LC_LOAD_WEAK_DYLIB || cmd == LC_REEXPORT_DYLIB || cmd == LC_LOAD_UPWARD_DYLIB
  }

  /** `dylib_command_size`: header, path and NUL, rounded up to eight. */
  function CommandSize(path: seq<byte>): (n: nat)
    ensures n % 8 == 0 && 24 + |path| + 1 <= n < 24 + |path| + 9
  {
    (24 + |path| + 1 + 7) / 8 * 8
  }

  function DylibHeader(size: nat): (r: seq<byte>)
    ensures |r| == 24
  {
    Le(LC_LOAD_DYLIB, 4) + Le(size, 4) + Le(24, 4) + Le(2, 4) + Le(0x1_0000, 4) + Le(0x1_0000, 4)
  }

  /** `build_dylib_command`. */
  function DylibCommand(path: seq<byte>): (r: seq<byte>)
    ensures |r| == CommandSize(path)
  {
    DylibHeader(CommandSize(path)) + path + Zeros(CommandSize(path) - 24 - |path|)
  }

  /** The path a dylib-loading command names, unless it is not UTF-8 or out of the command. */
  function PathOf(cmd: nat, c: seq<byte>): Option<seq<byte>> {
    if !IsDylibLoad(cmd) || |c| < 24 then None
    else
      var nameOff := U32(c, 8);
      if nameOff >= |c| then None
      else
        var name := c[nameOff..NulAt(c, nameOff)];
        if ValidUtf8(name) then Some(name) else None
  }

  function Names(path: seq<byte>): Test { (cmd: nat, c: seq<byte>) => PathOf(cmd, c) == Some(path) }

  /** `strip_lc_load_dylib`'s copy-down and zero-fill. */
  method CloseUp(bytes: seq<byte>, at: nat, size: nat, end: nat) returns (out: seq<byte>)
    requires at + size <= end <= |bytes|
    ensures out == Removed(bytes, at, size, end)
  {
    out := bytes[..at] + bytes[at + size..end] + bytes[end - size..];
    assert out[..end - size] == bytes[..at] + bytes[at + size..end] && out[end..] == bytes[end..];
    out := out[..end - size] + Zeros(size) + out[end..];
  }

  /** The removal loop over any test on a command. */
  method StripByCopy(bytes: seq<byte>, p: Test) returns (r: Result<Option<nat>, WriteError>, out: seq<byte>)
    requires ListFits(bytes)
    ensures r.Err? ==> Strip(bytes, p) == Err(r.error) && out == bytes
    ensures r.Ok? && r.value.None? ==> Strip(bytes, p) == Ok((0, out)) && out == bytes
    ensures r.Ok? && r.value.Some? ==> Strip(bytes, p) == Ok((r.value.value, out))
  {
    out := bytes;
    if |bytes| < 24 {
      return Err(TooShort), out;
    }
    var ncmds, sizeofcmds := FromLe(bytes[16..20]), FromLe(bytes[20..24]);
    var found := FindFirst(bytes, LC_START, LC_START + sizeofcmds, p);
    if found.Err? {
      return Err(found.error), out;
    }
    if found.value.None? {
      return Ok(None), out;
    }
    var at := found.value.value;
    var size := FromLe(bytes[at + 4..at + 8]);
    out := CloseUp(out, at, size, LC_START + sizeofcmds);
    out := PatchCounts(out, (ncmds + U32_LIMIT - 1) % U32_LIMIT, sizeofcmds - size);
    return Ok(Some(size)), out;
  }

  /** `strip_lc_load_dylib`. */
  method StripLcLoadDylib(bytes: seq<byte>, path: seq<byte>) returns (r: Result<Option<nat>, WriteError>, out: seq<byte>)
    requires ListFits(bytes)
    ensures r.Err? ==> Strip(bytes, Names(path)) == Err(r.error) && out == bytes
    ensures r.Ok? && r.value.None? ==> Strip(bytes, Names(path)) == Ok((0, out)) && out == bytes
    ensures r.Ok? && r.value.Some? ==> Strip(bytes, Names(path)) == Ok((r.value.value, out))
  {
    r, out := StripByCopy(bytes, Names(path));
  }

  /** `inject_lc_load_dylibs`. */
  method InjectLcLoadDylibs(bytes: seq<byte>, deps: seq<seq<byte>>) returns (r: Result<(), WriteError>, out: seq<byte>)
    requires ListFits(bytes) && (|bytes| >= 24 ==> LC_START + U32(bytes, 20) + |Flat(Built(deps))| <= |bytes|)
    ensures r.Err? ==> Inject(bytes, Built(deps)) == Err(r.error) && out == bytes
    ensures r.Ok? ==> Inject(bytes, Built(deps)) == Ok(out)
  {
    r, out := InjectAll(bytes, Built(deps));
  }

  function Built(deps: seq<seq<byte>>): (r: seq<seq<byte>>)
    ensures |r| == |deps|
  {
    seq(|deps|, (i: nat) requires i < |deps| => DylibCommand(deps[i]))
  }

  // ----- a built command names its path ---------------------------------

  predicate NulFree(path: seq<byte>) {
    forall i :: 0 <= i < |path| ==> path[i] != 0
  }

  lemma BuiltWords(path: seq<byte>)
    requires CommandSize(path) < U32_LIMIT
    ensures var c := DylibCommand(path);
            U32(c, 0) == LC_LOAD_DYLIB && U32(c, 4) == |c| && U32(c, 8) == 24 && IsCommand(c)
  {
    var size := CommandSize(path);
    var c := DylibCommand(path);
    hide Le, FromLe, Zeros;
    assert c[0..4] == Le(LC_LOAD_DYLIB, 4) && c[4..8] == Le(size, 4) && c[8..12] == Le(24, 4);
    U32ReadsBack(LC_LOAD_DYLIB);
    U32ReadsBack(size);
    U32ReadsBack(24);
  }

  lemma NulAtIs(c: seq<byte>, from: nat, end: nat)
    requires from <= end < |c| && c[end] == 0 && forall i :: from <= i < end ==> c[i] != 0
    ensures NulAt(c, from) == end
  {}

  /** Exactly a NUL-free UTF-8 path can be read back from its command. */
  lemma BuiltNames(path: seq<byte>)
    requires CommandSize(path) < U32_LIMIT
    ensures Names(path)(TypeOf(DylibCommand(path)), DylibCommand(path)) <==> NulFree(path) && ValidUtf8(path)
  {
    var c := DylibCommand(path);
    BuiltWords(path);
    assert forall i :: 0 <= i < |path| ==> c[24 + i] == path[i];
    assert c[24 + |path|] == 0;
    if NulFree(path) {
      NulAtIs(c, 24, 24 + |path|);
      assert c[24..24 + |path|] == path;
    } else {
      var k :| 0 <= k < |path| && path[k] == 0;
      assert c[24 + k] == 0;
      var end := NulAt(c, 24);
      assert end <= 24 + k;
      assert |c[24..end]| < |path|;
    }
  }

  // ----- inject, then strip ---------------------------------------------

  lemma PatchedBack(h: seq<byte>, n: nat, s: nat)
    requires |h| >= 24
    ensures PatchedHeader(PatchedHeader(h, n, s), U32(h, 16), U32(h, 20)) == h
  {
    hide PatchedHeader;
    PatchedTwice(h, n, s, U32(h, 16), U32(h, 20));
    PatchedSame(h);
  }

  lemma PatchedTwice(h: seq<byte>, n: nat, s: nat, n2: nat, s2: nat)
    requires |h| >= 24
    ensures PatchedHeader(PatchedHeader(h, n, s), n2, s2) == PatchedHeader(h, n2, s2)
  {
    hide Le;
    var g := PatchedHeader(h, n, s);
    assert g[..16] == h[..16] && g[24..] == h[24..];
  }

  lemma PatchedSame(h: seq<byte>)
    requires |h| >= 24
    ensures PatchedHeader(h, U32(h, 16), U32(h, 20)) == h
  {
    LeOfFromLe(h[16..20]);
    LeOfFromLe(h[20..24]);
    hide Le, FromLe;
    assert h == h[..16] + h[16..20] + h[20..24] + h[24..];
  }

  /** No command before the insertion point names the path. */
  ghost predicate NotYetNamed(cmds: seq<seq<byte>>, path: seq<byte>) {
    forall i :: 0 <= i < InsertIndex(cmds) ==> !Names(path)(TypeOf(cmds[i]), cmds[i])
  }

  lemma InjectedIsFirst(cmds: seq<seq<byte>>, path: seq<byte>)
    requires NotYetNamed(cmds, path) && NulFree(path) && ValidUtf8(path) && CommandSize(path) < U32_LIMIT
    ensures var k := InsertIndex(cmds);
            var now := With(cmds, k, [DylibCommand(path)]);
            && FirstIndex(now, Names(path)) == Some(k) && now[k] == DylibCommand(path) && Without(now, k) == cmds
  {
    var k := InsertIndex(cmds);
    var now := With(cmds, k, [DylibCommand(path)]);
    assert forall i :: 0 <= i < k ==> now[i] == cmds[i];
    BuiltNames(path);
    hide NulFree, ValidUtf8, CommandSize, DylibCommand, InsertIndex;
    FirstIndexIs(now, Names(path), k);
  }

  ghost predicate Roomy(im: Image, path: seq<byte>) {
    && CommandSize(path) <= |im.rest|
    && |im.cmds| + 1 < U32_LIMIT && |Flat(im.cmds)| + CommandSize(path) < U32_LIMIT
  }

  /** What stripping the injected command leaves: the old file, its eaten padding zeroed. */
  lemma StrippedAgain(im: Image, path: seq<byte>, now: Image, k: nat)
    requires WellFormed(im) && Roomy(im, path) && k == InsertIndex(im.cmds)
    requires |Flat([DylibCommand(path)])| == CommandSize(path) && now == Injected(im, [DylibCommand(path)])
    requires WellFormed(now) && k < |now.cmds| && now.cmds[k] == DylibCommand(path) && Without(now.cmds, k) == im.cmds
    requires |Flat(now.cmds)| == |Flat(im.cmds)| + CommandSize(path)
    ensures Stripped(now, k) == Image(im.header, im.cmds, Zeros(CommandSize(path)) + im.rest[CommandSize(path)..])
  {
    PatchedBack(im.header, |im.cmds| + 1, |Flat(im.cmds)| + CommandSize(path));
  }

  lemma EncodeInjective(h: seq<byte>, f: seq<byte>, rest: seq<byte>, pad: seq<byte>)
    requires |pad| <= |rest|
    ensures h + f + (pad + rest[|pad|..]) == h + f + rest <==> rest[..|pad|] == pad
  {
    var a, b := h + f + (pad + rest[|pad|..]), h + f + rest;
    var n := |h| + |f|;
    assert a[n..n + |pad|] == pad && b[n..n + |pad|] == rest[..|pad|];
    if rest[..|pad|] == pad {
      assert rest == pad + rest[|pad|..];
    }
  }

  /** Adding a dependency and removing it again gives back the file byte for byte, exactly
      when the padding it went into was zero; header and list agree in between. */
  lemma InjectThenStrip(im: Image, path: seq<byte>)
    requires WellFormed(im) && Roomy(im, path) && NotYetNamed(im.cmds, path) && NulFree(path) && ValidUtf8(path)
    ensures var size := CommandSize(path);
            var now := Encode(Injected(im, [DylibCommand(path)]));
            && |Flat([DylibCommand(path)])| == size && WellFormed(Injected(im, [DylibCommand(path)]))
            && ListFits(Encode(im)) && LC_START + U32(Encode(im), 20) + size <= |Encode(im)|
            && Inject(Encode(im), [DylibCommand(path)]) == Ok(now)
            && ListFits(now) && Strip(now, Names(path)).Ok? && Strip(now, Names(path)).value.0 == size
            && (Strip(now, Names(path)).value.1 == Encode(im) <==> im.rest[..size] == Zeros(size))
  {
    var c := DylibCommand(path);
    FlatOne(c);
    BuiltWords(path);
    InjectEncodes(im, [c]);
    InjectedWellFormed(im, [c]);
    var now, k := Injected(im, [c]), InsertIndex(im.cmds);
    InjectedIsFirst(im.cmds, path);
    FlatSplit(im.cmds, k);
    WithFlat(im.cmds, k, [c]);
    StripEncodes(now, Names(path), k);
    StrippedAgain(im, path, now, k);
    EncodeInjective(im.header, Flat(im.cmds), im.rest, Zeros(CommandSize(path)));
  }

  /** An empty list in front of padding of ones: stripping the injected command leaves zeros. */
  lemma PaddingIsEaten()
    ensures var im, path: seq<byte> := Image(Zeros(LC_START), [], Ones(40)), [0x61];
            && WellFormed(im) && Roomy(im, path) && NotYetNamed(im.cmds, path) && NulFree(path) && ValidUtf8(path)
            && var now := Encode(Injected(im, [DylibCommand(path)]));
               ListFits(now) && Strip(now, Names(path)).Ok? && Strip(now, Names(path)).value.1 != Encode(im)
  {
    var im, path: seq<byte> := Image(Zeros(LC_START), [], Ones(40)), [0x61];
    ZeroHeader(im.header);
    assert ValidUtf8(path[1..]);
    assert CommandSize(path) == 32;
    InjectThenStrip(im, path);
    assert im.rest[..32][0] == 1 && Zeros(32)[0] == 0;
  }

  function Ones(n: nat): (r: seq<byte>)
    ensures |r| == n && forall i :: 0 <= i < n ==> r[i] == 1
  {
    seq(n, (_: nat) => 1 as byte)
  }

  lemma ZeroHeader(h: seq<byte>)
    requires h == Zeros(LC_START)
    ensures U32(h, 16) == 0 && U32(h, 20) == 0
  {
    assert h[16..20] == [0, 0, 0, 0] && h[20..24] == [0, 0, 0, 0];
    assert FromLe([0, 0]) == 0 && FromLe([0, 0, 0, 0]) == 0;
  }
}
