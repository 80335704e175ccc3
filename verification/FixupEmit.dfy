/** Emitting a chained-fixups blob piece by piece into a zeroed buffer. */
module FixupEmit {
  import opened Bytes
  import opened FixupBlob

  /** `done` is written, the rest is still zero. */
  ghost predicate Filled(out: seq<byte>, done: seq<byte>) {
    |done| <= |out| && out == done + Zeros(|out| - |done|)
  }

  lemma FillNext(out: seq<byte>, done: seq<byte>, s: seq<byte>)
    requires Filled(out, done) && |done| + |s| <= |out|
    ensures Filled(Overwritten(out, |done|, s), done + s)
  {
    assert out[..|done|] == done;
    assert out[|done| + |s|..] == Zeros(|out| - |done| - |s|);
    assert done + s + Zeros(|out| - |done| - |s|) == (done + s) + Zeros(|out| - |done| - |s|);
  }

  lemma FillPadding(out: seq<byte>, done: seq<byte>, n: nat)
    requires Filled(out, done) && |done| + n <= |out|
    ensures Filled(out, done + Zeros(n))
  {
    assert Zeros(|out| - |done|) == Zeros(n) + Zeros(|out| - |done| - n);
    assert done + (Zeros(n) + Zeros(|out| - |done| - n)) == done + Zeros(n) + Zeros(|out| - |done| - n);
  }

  lemma {:induction false} WordsSnoc(ws: seq<nat>, w: nat)
    ensures Words(ws + [w]) == Words(ws) + Le(w, 4)
    decreases |ws|
  {
    if ws == [] {
      assert ws + [w] == [w];
      assert Words([w]) == Le(w, 4) + Words([]);
    } else {
      assert (ws + [w])[1..] == ws[1..] + [w];
      WordsSnoc(ws[1..], w);
    }
  }

  /** Write words one after the other behind `done`. */
  method PutWords(buffer: seq<byte>, ghost done: seq<byte>, at: nat, ws: seq<nat>) returns (out: seq<byte>)
    requires Filled(buffer, done) && at == |done| && at + 4 * |ws| <= |buffer|
    ensures |out| == |buffer| && Filled(out, done + Words(ws))
  {
    hide Filled, Words, Overwritten;
    out := buffer;
    var k := 0;
    assert done + Words([]) == done by {
      NoWords();
    }
    assert ws[..0] == [];
    while k < |ws|
      invariant k <= |ws| && |out| == |buffer| && Filled(out, done + Words(ws[..k]))
    {
      assert ws[..k + 1] == ws[..k] + [ws[k]];
      WordsSnoc(ws[..k], ws[k]);
      FillNext(out, done + Words(ws[..k]), Le(ws[k], 4));
      assert done + Words(ws[..k]) + Le(ws[k], 4) == done + (Words(ws[..k]) + Le(ws[k], 4));
      out := Overwritten(out, at + 4 * k, Le(ws[k], 4));
      k := k + 1;
    }
    assert ws[..|ws|] == ws;
  }

  lemma NoWords()
    ensures Words([]) == []
  {}

  // ----- offsets --------------------------------------------------------

  lemma PadFromAligned(cursor: nat, n: nat)
    requires cursor % 4 == 0
    ensures (cursor + n + 3) / 4 * 4 == cursor + Pad4(n)
  {
    var q := cursor / 4;
    assert cursor == 4 * q;
  }

  /** Lay the payloads out behind the offset table: their offsets, and where the imports start. */
  method LayOut(payloads: seq<Option<seq<byte>>>) returns (offsets: seq<nat>, importsOff: nat)
    ensures offsets == PayloadOffsets(payloads, 4 + 4 * |payloads|)
    ensures importsOff == FIXUPS_HEADER_SIZE + 4 + 4 * |payloads| + |PayloadBytes(payloads)|
  {
    hide PayloadOffsets, PayloadBytes, FirstPayload;
    offsets := [];
    var cursor: nat := FIXUPS_HEADER_SIZE + 4 + 4 * |payloads|;
    var k := 0;
    assert payloads[0..] == payloads;
    assert [] + PayloadOffsets(payloads, 4 + 4 * |payloads|) == PayloadOffsets(payloads, 4 + 4 * |payloads|);
    while k < |payloads|
      invariant k <= |payloads| && cursor % 4 == 0 && cursor >= FIXUPS_HEADER_SIZE
      invariant offsets + PayloadOffsets(payloads[k..], cursor - FIXUPS_HEADER_SIZE) == PayloadOffsets(payloads, 4 + 4 * |payloads|)
      invariant cursor + |PayloadBytes(payloads[k..])| == FIXUPS_HEADER_SIZE + 4 + 4 * |payloads| + |PayloadBytes(payloads)|
    {
      LayStep(payloads, k, cursor - FIXUPS_HEADER_SIZE, offsets);
      if payloads[k].Some? {
        offsets := offsets + [cursor - FIXUPS_HEADER_SIZE];
        PadFromAligned(cursor, |payloads[k].value|);
        cursor := (cursor + |payloads[k].value| + 3) / 4 * 4;
      } else {
        offsets := offsets + [0];
      }
      k := k + 1;
    }
    LayEnd(payloads, cursor - FIXUPS_HEADER_SIZE);
    assert offsets + [] == offsets;
    importsOff := cursor;
  }

  lemma LayStep(payloads: seq<Option<seq<byte>>>, k: nat, cursor: nat, offsets: seq<nat>)
    requires k < |payloads|
    ensures |PayloadBytes(payloads[k..])| == |FirstPayload(payloads[k..])| + |PayloadBytes(payloads[k + 1..])|
    ensures offsets + PayloadOffsets(payloads[k..], cursor)
            == offsets + [if payloads[k].Some? then cursor else 0] + PayloadOffsets(payloads[k + 1..], cursor + |FirstPayload(payloads[k..])|)
  {
    hide FirstPayload;
    assert payloads[k..][1..] == payloads[k + 1..];
    var head: nat := if payloads[k].Some? then cursor else 0;
    var tail := PayloadOffsets(payloads[k + 1..], cursor + |FirstPayload(payloads[k..])|);
    assert offsets + ([head] + tail) == offsets + [head] + tail;
  }

  lemma LayEnd(payloads: seq<Option<seq<byte>>>, cursor: nat)
    ensures PayloadOffsets(payloads[|payloads|..], cursor) == [] && PayloadBytes(payloads[|payloads|..]) == []
  {}

  // ----- payloads -------------------------------------------------------

  lemma PayloadStep(done: seq<byte>, payloads: seq<Option<seq<byte>>>, k: nat)
    requires k < |payloads|
    ensures done + PayloadBytes(payloads[k..]) == done + FirstPayload(payloads[k..]) + PayloadBytes(payloads[k + 1..])
  {
    hide FirstPayload;
    assert payloads[k..][1..] == payloads[k + 1..];
    assert done + (FirstPayload(payloads[k..]) + PayloadBytes(payloads[k + 1..])) == done + FirstPayload(payloads[k..]) + PayloadBytes(payloads[k + 1..]);
  }

  lemma OffsetStep(payloads: seq<Option<seq<byte>>>, k: nat, cursor: nat)
    requires k < |payloads|
    ensures PayloadOffsets(payloads[k..], cursor)[0] == (if payloads[k].Some? then cursor else 0)
    ensures PayloadOffsets(payloads[k..], cursor)[1..] == PayloadOffsets(payloads[k + 1..], cursor + |FirstPayload(payloads[k..])|)
  {
    hide Zeros;
    assert payloads[k..][1..] == payloads[k + 1..];
  }

  lemma FillPayload(out: seq<byte>, done: seq<byte>, payloads: seq<Option<seq<byte>>>, k: nat)
    requires k < |payloads| && Filled(out, done) && |done| + |FirstPayload(payloads[k..])| <= |out|
    ensures payloads[k].None? ==> Filled(out, done + FirstPayload(payloads[k..]))
    ensures payloads[k].Some? ==>
              && |done| + |payloads[k].value| <= |out|
              && Filled(Overwritten(out, |done|, payloads[k].value), done + FirstPayload(payloads[k..]))
  {
    hide Filled, Overwritten, Zeros;
    if payloads[k].Some? {
      var p := payloads[k].value;
      FillNext(out, done, p);
      FillPadding(Overwritten(out, |done|, p), done + p, Pad4(|p|) - |p|);
      assert done + p + Zeros(Pad4(|p|) - |p|) == done + (p + Zeros(Pad4(|p|) - |p|));
    } else {
      assert done + [] == done;
    }
  }

  /** Copy each payload to its offset from `origin`. */
  method PutPayloads(buffer: seq<byte>, ghost before: seq<byte>, origin: nat, offsets: seq<nat>, payloads: seq<Option<seq<byte>>>) returns (out: seq<byte>)
    requires Filled(buffer, before) && |before| >= origin && |before| + |PayloadBytes(payloads)| <= |buffer|
    requires offsets == PayloadOffsets(payloads, |before| - origin)
    ensures |out| == |buffer| && Filled(out, before + PayloadBytes(payloads))
  {
    hide Filled, Overwritten, PayloadBytes, PayloadOffsets, FirstPayload;
    out := buffer;
    ghost var done := before;
    var k := 0;
    assert payloads[0..] == payloads && offsets[0..] == offsets;
    while k < |payloads|
      invariant k <= |payloads| && |out| == |buffer| && Filled(out, done) && |done| >= origin
      invariant done + PayloadBytes(payloads[k..]) == before + PayloadBytes(payloads)
      invariant offsets[k..] == PayloadOffsets(payloads[k..], |done| - origin)
    {
      PayloadStep(done, payloads, k);
      OffsetStep(payloads, k, |done| - origin);
      FillPayload(out, done, payloads, k);
      if payloads[k].Some? {
        assert offsets[k] == offsets[k..][0] == |done| - origin;
        out := Overwritten(out, offsets[k] + origin, payloads[k].value);
      }
      done := done + FirstPayload(payloads[k..]);
      assert offsets[k..][1..] == offsets[k + 1..];
      k := k + 1;
    }
    LayEnd(payloads, |done| - origin);
    assert done + [] == done;
  }

  // ----- everything -----------------------------------------------------

  /** The last part of `serialize`: every piece is copied to its place in a zeroed buffer. */
  method Emit(payloads: seq<Option<seq<byte>>>, count: nat, tableSize: nat, format: nat, imports: seq<byte>) returns (out: seq<byte>)
    ensures out == Blob(payloads, count, tableSize, format, imports)
  {
    var offsets, importsOff := LayOut(payloads);
    out := Zeros(Pad8(importsOff + |imports|));
    assert Filled(out, []);
    var header: seq<nat> := [0, FIXUPS_HEADER_SIZE, importsOff, importsOff + tableSize, count, format, 0];
    out := PutWords(out, [], 0, header);
    ghost var done := ReservedWord(out, importsOff, importsOff + tableSize, count, format);
    out := PutWords(out, done, FIXUPS_HEADER_SIZE, [|payloads|]);
    done := done + Words([|payloads|]);
    out := PutWords(out, done, FIXUPS_HEADER_SIZE + 4, offsets);
    done := done + Words(offsets);
    out := PutPayloads(out, done, FIXUPS_HEADER_SIZE, offsets, payloads);
    done := done + PayloadBytes(payloads);
    FillNext(out, done, imports);
    out := Overwritten(out, importsOff, imports);
    Assembled(out, payloads, count, tableSize, format, imports);
  }

  /** The header's last word is reserved and stays zero. */
  lemma ReservedWord(out: seq<byte>, importsOff: nat, symbolsOff: nat, count: nat, format: nat) returns (done: seq<byte>)
    requires Filled(out, [] + Words([0, FIXUPS_HEADER_SIZE, importsOff, symbolsOff, count, format, 0])) && |out| >= FIXUPS_HEADER_SIZE
    ensures done == BlobHeader(importsOff, symbolsOff, count, format) && Filled(out, done)
  {
    hide Filled, Words;
    var ws: seq<nat> := [0, FIXUPS_HEADER_SIZE, importsOff, symbolsOff, count, format, 0];
    assert [] + Words(ws) == Words(ws);
    FillPadding(out, Words(ws), 4);
    WordsSnoc(ws, 0);
    assert ws + [0] == [0, FIXUPS_HEADER_SIZE, importsOff, symbolsOff, count, format, 0, 0];
    ZeroWord();
    done := Words(ws) + Zeros(4);
  }

  lemma ZeroWord()
    ensures Le(0, 4) == Zeros(4)
  {
    assert Le(0, 1) == [0] && Le(0, 2) == [0, 0] && Le(0, 3) == [0, 0, 0];
  }

  lemma Regroup(a: seq<byte>, b: seq<byte>, c: seq<byte>, d: seq<byte>)
    ensures a + b + c + d == a + (b + c + d)
  {}

  lemma OneWord(w: nat)
    ensures Words([w]) == Le(w, 4)
  {
    assert Words([w]) == Le(w, 4) + Words([]);
  }

  lemma Assembled(out: seq<byte>, payloads: seq<Option<seq<byte>>>, count: nat, tableSize: nat, format: nat, imports: seq<byte>)
    requires var importsOff := FIXUPS_HEADER_SIZE + 4 + 4 * |payloads| + |PayloadBytes(payloads)|;
             && |out| == Pad8(importsOff + |imports|)
             && Filled(out, BlobHeader(importsOff, importsOff + tableSize, count, format) + Words([|payloads|])
                            + Words(PayloadOffsets(payloads, 4 + 4 * |payloads|)) + PayloadBytes(payloads) + imports)
    ensures out == Blob(payloads, count, tableSize, format, imports)
  {
    hide BlobHeader, PayloadOffsets, PayloadBytes, Zeros, Words, Le, Pad8;
    var importsOff := FIXUPS_HEADER_SIZE + 4 + 4 * |payloads| + |PayloadBytes(payloads)|;
    var header, offsets, rest := BlobHeader(importsOff, importsOff + tableSize, count, format), PayloadOffsets(payloads, 4 + 4 * |payloads|), PayloadBytes(payloads);
    OneWord(|payloads|);
    Regroup(header, Le(|payloads|, 4), Words(offsets), rest);
  }
}
