/** ULEB128 as the export-trie code writes and reads it (section 7.6 of DWARF Version 5). */
module Uleb128 {
  import opened Bytes

  datatype UlebError = Truncated | ShiftOverflow

  function Encode(v: nat): (s: seq<byte>)
    ensures |s| >= 1
  {
    if v < 128 then [v] else [128 + v % 128] + Encode(v / 128)
  }

  function Pow128(n: nat): (p: nat)
    ensures p > 0
  {
    if n == 0 then 1 else 128 * Pow128(n - 1)
  }

  /** What the reader computes from `at`, having consumed `i` bytes worth `acc`.
      The shift is `7 * i`; bits shifted past the 64th are lost, and an eleventh
      byte is an error. Yields the value and the cursor after it. */
  function Read(bytes: seq<byte>, at: nat, i: nat, acc: nat): (r: Result<(nat, nat), UlebError>)
    requires i <= 9 ==> acc < Pow128(i)
    ensures r.Ok? ==> r.value.0 < U64_LIMIT && at < r.value.1 <= |bytes|
    decreases |bytes| - at
  {
    if at >= |bytes| then Err(Truncated)
    else if 7 * i >= 64 then Err(ShiftOverflow)
    else
      var acc' := acc + (bytes[at] % 128 * Pow128(i)) % U64_LIMIT;
      ReadStays(acc, bytes[at] % 128, i);
      if bytes[at] < 128 then Ok((acc', at + 1)) else Read(bytes, at + 1, i + 1, acc')
  }

  /** Each step keeps the value inside the bits read so far, and inside 64 bits. */
  lemma ReadStays(acc: nat, low: nat, i: nat)
    requires i <= 9 && acc < Pow128(i) && low < 128
    ensures var acc' := acc + (low * Pow128(i)) % U64_LIMIT;
            acc' < U64_LIMIT && (i < 9 ==> acc' < Pow128(i + 1))
  {
    Pow128Of9();
    var p := Pow128(i);
    if i < 9 {
      Pow128Mono(i + 1, 9);
      MulUpper(low, 127, p);
      SmallMod(low * p);
    } else {
      assert low * p == (low / 2) * U64_LIMIT + (low % 2) * p;
    }
  }

  lemma MulUpper(a: nat, b: nat, p: nat)
    requires a <= b
    ensures 0 <= a * p <= b * p
  {}

  lemma SmallMod(x: nat)
    requires x < U64_LIMIT
    ensures x % U64_LIMIT == x
  {}

  method WriteUleb128(out: seq<byte>, v: nat) returns (r: seq<byte>)
    ensures r == out + Encode(v)
  {
    r := out;
    var value := v;
    while true
      invariant r + Encode(value) == out + Encode(v)
      decreases value
    {
      var b := value % 128;
      ghost var before, was := r, value;
      value := value / 128;
      if value != 0 {
        r := r + [128 + b];
        assert before + Encode(was) == r + Encode(value);
      } else {
        r := r + [b];
        return;
      }
    }
  }

  method ReadUleb128(bytes: seq<byte>, cursor: nat) returns (r: Result<(nat, nat), UlebError>)
    ensures r == Read(bytes, cursor, 0, 0)
  {
    var result: nat, shift: nat, i: nat, at: nat := 0, 0, 0, cursor;
    var scale: nat := 1;
    while true
      invariant shift == 7 * i && scale == Pow128(i)
      invariant i <= 9 ==> result < Pow128(i)
      invariant Read(bytes, at, i, result) == Read(bytes, cursor, 0, 0)
      decreases |bytes| - at
    {
      if at >= |bytes| {
        return Err(Truncated);
      }
      var b := bytes[at];
      at := at + 1;
      if shift >= 64 {
        return Err(ShiftOverflow);
      }
      ReadStays(result, b % 128, i);
      result := result + (b % 128 * scale) % U64_LIMIT;
      if b < 128 {
        return Ok((result, at));
      }
      shift, scale, i := shift + 7, scale * 128, i + 1;
    }
  }

  method Uleb128Size(v: nat) returns (size: nat)
    ensures size == |Encode(v)|
  {
    size := 1;
    var value := v;
    while value >= 128
      invariant size + |Encode(value)| == 1 + |Encode(v)|
    {
      size := size + 1;
      value := value / 128;
    }
  }

  // ----- laws -----------------------------------------------------------

  lemma Pow128Of9()
    ensures Pow128(9) * 2 == U64_LIMIT
    ensures Pow128(10) > U64_LIMIT
  {
    assert Pow128(3) == 0x20_0000;
    assert Pow128(6) == 128 * (128 * (128 * Pow128(3))) == 0x400_0000_0000;
    assert Pow128(9) == 128 * (128 * (128 * Pow128(6))) == 0x8000_0000_0000_0000;
  }

  lemma {:induction false} Pow128Mono(i: nat, j: nat)
    requires i <= j
    ensures Pow128(i) <= Pow128(j)
    decreases j
  {
    if i < j {
      Pow128Mono(i, j - 1);
    }
  }

  /** One more byte: `low` lands at weight 128^i, and only the last byte ends the number. */
  lemma ReadByte(bytes: seq<byte>, at: nat, i: nat, acc: nat, low: nat)
    requires i <= 9 && acc < Pow128(i) && at < |bytes| && bytes[at] % 128 == low && low * Pow128(i) < U64_LIMIT
    ensures var acc' := acc + low * Pow128(i);
            && (i < 9 ==> acc' < Pow128(i + 1))
            && (bytes[at] < 128 ==> Read(bytes, at, i, acc) == Ok((acc', at + 1)))
            && (bytes[at] >= 128 && i < 9 ==> Read(bytes, at, i, acc) == Read(bytes, at + 1, i + 1, acc'))
  {
    hide Pow128;
    SmallMod(low * Pow128(i));
    ReadStays(acc, low, i);
    if i == 9 {
      assert 7 * i < 64;
    }
  }

  /** Decoding from the middle of a number: `rest` is still to be read at weight 128^i. */
  lemma {:induction false} ReadRest(bytes: seq<byte>, at: nat, i: nat, acc: nat, rest: nat)
    requires i <= 9 ==> acc < Pow128(i)
    requires HasAt(bytes, at, Encode(rest))
    requires rest * Pow128(i) < U64_LIMIT && (rest > 0 || i == 0)
    ensures Read(bytes, at, i, acc) == Ok((acc + rest * Pow128(i), at + |Encode(rest)|))
    decreases rest
  {
    if i > 0 {
      TenBytesAtMost(i, rest);
    }
    var low, high := rest % 128, rest / 128;
    EncodedByte(bytes, at, rest);
    MulSplit(low, high, Pow128(i));
    NextPower(i);
    hide Read, Pow128, Encode, HasAt;
    ReadByte(bytes, at, i, acc, low);
    if rest >= 128 {
      TenBytesAtMost(i + 1, high);
      ReadRest(bytes, at + 1, i + 1, acc + low * Pow128(i), high);
    }
  }

  lemma NextPower(i: nat)
    ensures Pow128(i + 1) == 128 * Pow128(i)
  {}

  /** The first byte of an encoding, and what follows it. */
  lemma EncodedByte(bytes: seq<byte>, at: nat, v: nat)
    requires HasAt(bytes, at, Encode(v))
    ensures at < |bytes| && bytes[at] == if v < 128 then v else 128 + v % 128
    ensures v < 128 ==> |Encode(v)| == 1
    ensures v >= 128 ==> HasAt(bytes, at + 1, Encode(v / 128)) && |Encode(v)| == 1 + |Encode(v / 128)|
  {
    HasAtIndex(bytes, at, Encode(v), 0);
    if v >= 128 {
      HasAtSplit(bytes, at, [128 + v % 128], Encode(v / 128));
    }
  }

  lemma TenBytesAtMost(i: nat, rest: nat)
    requires rest > 0 && rest * Pow128(i) < U64_LIMIT
    ensures i <= 9
  {
    Pow128Of9();
    MulLower(rest, Pow128(i));
    if i >= 10 {
      Pow128Mono(10, i);
    }
  }

  lemma MulLower(a: nat, p: nat)
    requires a > 0
    ensures a * p >= p
  {}

  lemma MulSplit(low: nat, high: nat, p: nat)
    ensures (low + 128 * high) * p == low * p + high * (128 * p)
    ensures 0 <= low * p && 0 <= high * (128 * p)
  {}

  /** The reader returns every u64 the writer wrote, wherever it stands. */
  lemma ReadOfEncode(bytes: seq<byte>, at: nat, v: nat)
    requires HasAt(bytes, at, Encode(v)) && v < U64_LIMIT
    ensures Read(bytes, at, 0, 0) == Ok((v, at + |Encode(v)|))
  {
    ReadRest(bytes, at, 0, 0, v);
  }

  lemma {:induction false} SizeMono(a: nat, b: nat)
    requires a <= b
    ensures |Encode(a)| <= |Encode(b)|
    decreases b
  {
    if a >= 128 {
      SizeMono(a / 128, b / 128);
    }
  }

  /** A number takes at most `k` bytes exactly when it is below 128^k. */
  lemma {:induction false} SizeBound(v: nat, k: nat)
    requires k > 0
    ensures |Encode(v)| <= k <==> v < Pow128(k)
    decreases v
  {
    if k == 1 {
      assert Pow128(1) == 128;
    } else if v >= 128 {
      SizeBound(v / 128, k - 1);
    } else {
      Pow128Mono(1, k);
      assert Pow128(1) == 128;
    }
  }
}
