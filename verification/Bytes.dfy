/** Bytes, little-endian fields, slices of a byte buffer and the UTF-8 check every
    string reader of the rewriter goes through. */
module Bytes {

  type byte = x: int | 0 <= x < 256
  type u16 = x: int | 0 <= x < 0x1_0000
  type u32 = x: int | 0 <= x < 0x1_0000_0000
  type u64 = x: int | 0 <= x < 0x1_0000_0000_0000_0000

  const U16_LIMIT: nat := 0x1_0000
  const U32_LIMIT: nat := 0x1_0000_0000
  const U64_LIMIT: nat := 0x1_0000_0000_0000_0000

  datatype Option<+T> = None | Some(value: T)

  datatype Result<+T, +E> = Ok(value: T) | Err(error: E)

  // ----- slices ---------------------------------------------------------

  /** `s` sits in `bytes` starting at offset `at`. */
  ghost predicate HasAt<T>(bytes: seq<T>, at: nat, s: seq<T>) {
    at + |s| <= |bytes| && bytes[at..at + |s|] == s
  }

  lemma HasAtIndex<T>(bytes: seq<T>, at: nat, s: seq<T>, i: nat)
    requires HasAt(bytes, at, s) && i < |s|
    ensures bytes[at + i] == s[i]
  {
    assert bytes[at..at + |s|][i] == s[i];
  }

  lemma HasAtSplit<T>(bytes: seq<T>, at: nat, s: seq<T>, t: seq<T>)
    requires HasAt(bytes, at, s + t)
    ensures HasAt(bytes, at, s) && HasAt(bytes, at + |s|, t)
  {
    var whole := bytes[at..at + |s + t|];
    assert whole[..|s|] == s && whole[|s|..] == t;
    assert bytes[at..at + |s|] == whole[..|s|];
    assert bytes[at + |s|..at + |s| + |t|] == whole[|s|..];
  }

  lemma HasAtSlice<T>(bytes: seq<T>, at: nat, s: seq<T>)
    requires HasAt(bytes, at, s)
    ensures at + |s| <= |bytes| && bytes[at..at + |s|] == s
  {}

  lemma HasAtMiddle<T>(pre: seq<T>, s: seq<T>, post: seq<T>)
    ensures HasAt(pre + s + post, |pre|, s)
  {
    assert (pre + s + post)[|pre|..|pre| + |s|] == s;
  }

  lemma HasAtInside<T>(bytes: seq<T>, at: nat, outer: seq<T>, offset: nat, s: seq<T>)
    requires HasAt(bytes, at, outer) && HasAt(outer, offset, s)
    ensures HasAt(bytes, at + offset, s)
  {
    var t := bytes[at + offset..at + offset + |s|];
    forall k | 0 <= k < |s| ensures t[k] == s[k] {
      HasAtIndex(bytes, at, outer, offset + k);
      HasAtIndex(outer, offset, s, k);
    }
  }

  lemma HasAtExtend<T>(a: seq<T>, b: seq<T>, at: nat, s: seq<T>)
    requires HasAt(a, at, s)
    ensures HasAt(a + b, at, s)
  {
    assert (a + b)[at..at + |s|] == a[at..at + |s|];
  }

  function Zeros(n: nat): (r: seq<byte>)
    ensures |r| == n && forall i :: 0 <= i < n ==> r[i] == 0
  {
    seq(n, (_: nat) => 0 as byte)
  }

  function Pad8(n: nat): (r: nat)
    ensures n <= r < n + 8 && r % 8 == 0
    ensures n % 8 == 0 ==> r == n
  {
    (n + 7) / 8 * 8
  }

  function Overwritten(c: seq<byte>, at: nat, data: seq<byte>): (r: seq<byte>)
    requires at + |data| <= |c|
    ensures |r| == |c|
  {
    c[..at] + data + c[at + |data|..]
  }

  function PrefixSum(sizes: seq<nat>, i: nat): nat
    requires i <= |sizes|
  {
    if i == 0 then 0 else PrefixSum(sizes, i - 1) + sizes[i - 1]
  }

  /** The first `i` chunks, one after the other. */
  ghost function Joined<T>(chunks: seq<seq<T>>, i: nat): seq<T>
    requires i <= |chunks|
  {
    if i == 0 then [] else Joined(chunks, i - 1) + chunks[i - 1]
  }

  ghost predicate SizesOf<T>(sizes: seq<nat>, chunks: seq<seq<T>>) {
    |sizes| == |chunks| && forall i :: 0 <= i < |chunks| ==> sizes[i] == |chunks[i]|
  }

  lemma {:induction false} JoinedSize<T>(chunks: seq<seq<T>>, sizes: seq<nat>, i: nat)
    requires SizesOf(sizes, chunks) && i <= |chunks|
    ensures |Joined(chunks, i)| == PrefixSum(sizes, i)
  {
    if i > 0 {
      JoinedSize(chunks, sizes, i - 1);
    }
  }

  /** Chunk `i` starts where the sizes before it end. */
  lemma {:induction false} JoinedHasChunk<T>(chunks: seq<seq<T>>, sizes: seq<nat>, i: nat, n: nat)
    requires SizesOf(sizes, chunks) && i < n <= |chunks|
    ensures HasAt(Joined(chunks, n), PrefixSum(sizes, i), chunks[i])
    decreases n
  {
    if i == n - 1 {
      JoinedSize(chunks, sizes, i);
      assert Joined(chunks, n)[PrefixSum(sizes, i)..] == chunks[i];
    } else {
      JoinedHasChunk(chunks, sizes, i, n - 1);
      HasAtExtend(Joined(chunks, n - 1), chunks[n - 1], PrefixSum(sizes, i), chunks[i]);
    }
  }

  // ----- little-endian fields -------------------------------------------

  function Pow256(n: nat): (p: nat)
    ensures p > 0
  {
    if n == 0 then 1 else 256 * Pow256(n - 1)
  }

  /** The low `width` bytes of `v`, least significant first: the truncating
      `(v as uN).to_le_bytes()`. */
  function Le(v: nat, width: nat): (s: seq<byte>)
    ensures |s| == width
  {
    if width == 0 then [] else [v % 256] + Le(v / 256, width - 1)
  }

  function FromLe(s: seq<byte>): nat {
    if s == [] then 0 else s[0] + 256 * FromLe(s[1..])
  }

  lemma {:induction false} FromLeBound(s: seq<byte>)
    ensures FromLe(s) < Pow256(|s|)
  {
    if s != [] {
      FromLeBound(s[1..]);
    }
  }

  /** Reading back a written field gives the value modulo the field's width. */
  lemma {:induction false} FromLeOfLe(v: nat, width: nat)
    requires v < Pow256(width)
    ensures FromLe(Le(v, width)) == v
  {
    if width > 0 {
      assert v / 256 < Pow256(width - 1);
      FromLeOfLe(v / 256, width - 1);
      assert Le(v, width)[1..] == Le(v / 256, width - 1);
    }
  }

  lemma {:induction false} LeOfFromLe(s: seq<byte>)
    ensures Le(FromLe(s), |s|) == s
  {
    if s != [] {
      LeOfFromLe(s[1..]);
      assert FromLe(s) % 256 == s[0] && FromLe(s) / 256 == FromLe(s[1..]);
    }
  }

  lemma Pow256Values()
    ensures Pow256(1) == 256
    ensures Pow256(2) == U16_LIMIT
    ensures Pow256(4) == U32_LIMIT
    ensures Pow256(8) == U64_LIMIT
  {
    assert Pow256(1) == 256;
    assert Pow256(2) == 0x1_0000;
    assert Pow256(3) == 0x100_0000;
    assert Pow256(4) == 0x1_0000_0000;
    assert Pow256(5) == 0x100_0000_0000;
    assert Pow256(6) == 0x1_0000_0000_0000;
    assert Pow256(7) == 0x100_0000_0000_0000;
  }

  /** Reading back a written 32-bit field. */
  lemma U32ReadsBack(v: nat)
    requires v < U32_LIMIT
    ensures v % U32_LIMIT == v && FromLe(Le(v, 4)) == v
  {
    Pow256Values();
    FromLeOfLe(v, 4);
  }

  /** 32-bit words one after the other. */
  function Words(ws: seq<nat>): (r: seq<byte>)
    ensures |r| == 4 * |ws|
  {
    if ws == [] then [] else Le(ws[0], 4) + Words(ws[1..])
  }

  lemma {:induction false} WordStands(bytes: seq<byte>, at: nat, ws: seq<nat>, k: nat)
    requires HasAt(bytes, at, Words(ws)) && k < |ws|
    ensures HasAt(bytes, at + 4 * k, Le(ws[k], 4))
    decreases |ws|
  {
    HasAtSplit(bytes, at, Le(ws[0], 4), Words(ws[1..]));
    if k > 0 {
      WordStands(bytes, at + 4, ws[1..], k - 1);
    }
  }

  // ----- UTF-8 ----------------------------------------------------------

  predicate IsContinuation(b: byte) { 0x80 <= b < 0xC0 }

  /** Well-formed UTF-8 (RFC 3629, section 4): the condition `str::from_utf8` checks. */
  predicate ValidUtf8(s: seq<byte>) {
    if s == [] then true
    else if s[0] < 0x80 then ValidUtf8(s[1..])
    else if 0xC2 <= s[0] <= 0xDF then
      |s| >= 2 && IsContinuation(s[1]) && ValidUtf8(s[2..])
    else if 0xE0 <= s[0] <= 0xEF then
      && |s| >= 3 && IsContinuation(s[1]) && IsContinuation(s[2])
      && (s[0] == 0xE0 ==> s[1] >= 0xA0)
      && (s[0] == 0xED ==> s[1] < 0xA0)
      && ValidUtf8(s[3..])
    else if 0xF0 <= s[0] <= 0xF4 then
      && |s| >= 4 && IsContinuation(s[1]) && IsContinuation(s[2]) && IsContinuation(s[3])
      && (s[0] == 0xF0 ==> s[1] >= 0x90)
      && (s[0] == 0xF4 ==> s[1] < 0x90)
      && ValidUtf8(s[4..])
    else false
  }

  /** NUL-free ASCII: the names linkers emit for symbols. */
  predicate PlainName(s: seq<byte>) {
    forall i :: 0 <= i < |s| ==> 1 <= s[i] < 0x80
  }

  lemma {:induction false} PlainNameIsUtf8(s: seq<byte>)
    requires PlainName(s)
    ensures ValidUtf8(s)
  {
    if s != [] {
      PlainNameIsUtf8(s[1..]);
    }
  }

  /** Index of the first NUL at or after `from`, or `|bytes|`. */
  function NulAt(bytes: seq<byte>, from: nat): (end: nat)
    requires from <= |bytes|
    ensures from <= end <= |bytes|
    ensures forall i :: from <= i < end ==> bytes[i] != 0
    ensures end < |bytes| ==> bytes[end] == 0
    decreases |bytes| - from
  {
    if from == |bytes| || bytes[from] == 0 then from else NulAt(bytes, from + 1)
  }

  lemma NulAtEndsName(bytes: seq<byte>, at: nat, name: seq<byte>)
    requires PlainName(name) && HasAt(bytes, at, name + [0])
    ensures at <= |bytes| && NulAt(bytes, at) == at + |name|
    ensures bytes[at..at + |name|] == name
  {
    HasAtSplit(bytes, at, name, [0]);
    HasAtIndex(bytes, at + |name|, [0], 0);
    var end := NulAt(bytes, at);
    if end < at + |name| {
      HasAtIndex(bytes, at, name, end - at);
    }
  }
}
