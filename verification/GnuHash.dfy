/** Building a `.gnu.hash` section, and what a dynamic linker finds in it. */
module GnuHash {
  import opened Bytes

  /** A hashable dynsym entry. */
  datatype Symbol = Symbol(dynsymIndex: nat, name: seq<byte>)

  // ----- hashing --------------------------------------------------------

  function HashFrom(name: seq<byte>, h: nat): (r: nat)
    requires h < U32_LIMIT
    ensures r < U32_LIMIT
    decreases |name|
  {
    if name == [] then h else HashFrom(name[1..], (h * 33 + name[0]) % U32_LIMIT)
  }

  function Hash(name: seq<byte>): (r: nat)
    ensures r < U32_LIMIT
  {
    HashFrom(name, 5381)
  }

  /** `gnu_hash`. */
  method ComputeHash(name: seq<byte>) returns (h: nat)
    ensures h == Hash(name)
  {
    h := 5381;
    var k := 0;
    assert name[0..] == name;
    while k < |name|
      invariant k <= |name| && h < U32_LIMIT && HashFrom(name[k..], h) == Hash(name)
    {
      assert name[k..][1..] == name[k + 1..];
      h := (h * 33 + name[k]) % U32_LIMIT;
      k := k + 1;
    }
  }

  // ----- bits -----------------------------------------------------------

  predicate Bit(w: nat, k: nat) { if k == 0 then w % 2 == 1 else Bit(w / 2, k - 1) }

  /** `w | (1 << k)`. */
  function SetBit(w: nat, k: nat): nat { if k == 0 then w / 2 * 2 + 1 else 2 * SetBit(w / 2, k - 1) + w % 2 }

  lemma {:induction false} BitOfSet(w: nat, k: nat, j: nat)
    ensures Bit(SetBit(w, k), j) <==> j == k || Bit(w, j)
    decreases k
  {
    var r := SetBit(w, k);
    if k == 0 {
      assert r / 2 == w / 2 && r % 2 == 1;
    } else {
      assert r / 2 == SetBit(w / 2, k - 1) && r % 2 == w % 2;
      if j > 0 {
        BitOfSet(w / 2, k - 1, j - 1);
      }
    }
  }

  function Pow2(n: nat): (p: nat)
    ensures p > 0
  {
    if n == 0 then 1 else 2 * Pow2(n - 1)
  }

  lemma {:induction false} SetBitBound(w: nat, k: nat, n: nat)
    requires w < Pow2(n) && k < n
    ensures SetBit(w, k) < Pow2(n)
    decreases k
  {
    if k > 0 {
      SetBitBound(w / 2, k - 1, n - 1);
    }
  }

  lemma Pow2Of64()
    ensures Pow2(64) == U64_LIMIT
  {
    assert Pow2(8) == 0x100;
    Pow2Sum(8, 8);
    Pow2Sum(16, 16);
    Pow2Sum(32, 32);
  }

  lemma {:induction false} Pow2Sum(a: nat, b: nat)
    ensures Pow2(a + b) == Pow2(a) * Pow2(b)
    decreases a
  {
    if a > 0 {
      Pow2Sum(a - 1, b);
      assert Pow2(a) * Pow2(b) == 2 * (Pow2(a - 1) * Pow2(b));
    }
  }

  // ----- the bloom filter -----------------------------------------------

  /** Which word and bits a hash uses; `& (bloomSize - 1)` of a power of two is a remainder. */
  function BloomWord(h: nat, size: nat): (r: nat)
    requires size > 0
    ensures r < size
  {
    h / 64 % size
  }

  function BitA(h: nat): (r: nat)
    ensures r < 64
  {
    h % 64
  }

  function BitB(h: nat, shift: nat): (r: nat)
    ensures r < 64
  {
    h / Pow2(shift) % 64
  }

  function Marked(bloom: seq<nat>, h: nat, shift: nat): (r: seq<nat>)
    requires |bloom| > 0
    ensures |r| == |bloom|
  {
    var i := BloomWord(h, |bloom|);
    bloom[i := SetBit(SetBit(bloom[i], BitA(h)), BitB(h, shift))]
  }

  function MarkAll(bloom: seq<nat>, hashes: seq<nat>, shift: nat): (r: seq<nat>)
    requires |bloom| > 0
    ensures |r| == |bloom|
    decreases |hashes|
  {
    if hashes == [] then bloom else MarkAll(Marked(bloom, hashes[0], shift), hashes[1..], shift)
  }

  predicate Passes(bloom: seq<nat>, h: nat, shift: nat)
    requires |bloom| > 0
  {
    var w := bloom[BloomWord(h, |bloom|)];
    Bit(w, BitA(h)) && Bit(w, BitB(h, shift))
  }

  ghost predicate Words64(ws: seq<nat>) { forall i :: 0 <= i < |ws| ==> ws[i] < U64_LIMIT }

  lemma MarkedBound(bloom: seq<nat>, h: nat, shift: nat)
    requires |bloom| > 0 && Words64(bloom)
    ensures Words64(Marked(bloom, h, shift))
  {
    Pow2Of64();
    var w := bloom[BloomWord(h, |bloom|)];
    SetBitBound(w, BitA(h), 64);
    SetBitBound(SetBit(w, BitA(h)), BitB(h, shift), 64);
  }

  lemma MarkedPasses(bloom: seq<nat>, h: nat, g: nat, shift: nat)
    requires |bloom| > 0
    ensures h == g || Passes(bloom, g, shift) ==> Passes(Marked(bloom, h, shift), g, shift)
  {
    var w := bloom[BloomWord(h, |bloom|)];
    var v := SetBit(w, BitA(h));
    BitOfSet(w, BitA(h), BitA(g));
    BitOfSet(w, BitA(h), BitB(g, shift));
    BitOfSet(v, BitB(h, shift), BitA(g));
    BitOfSet(v, BitB(h, shift), BitB(g, shift));
  }

  /** The filter never rejects a hash it was built from. */
  lemma {:induction false} BloomPasses(bloom: seq<nat>, hashes: seq<nat>, shift: nat, g: nat)
    requires |bloom| > 0 && (g in hashes || Passes(bloom, g, shift))
    ensures Passes(MarkAll(bloom, hashes, shift), g, shift)
    decreases |hashes|
  {
    if hashes != [] {
      MarkedPasses(bloom, hashes[0], g, shift);
      BloomPasses(Marked(bloom, hashes[0], shift), hashes[1..], shift, g);
    }
  }

  lemma {:induction false} MarkAllBound(bloom: seq<nat>, hashes: seq<nat>, shift: nat)
    requires |bloom| > 0 && Words64(bloom)
    ensures Words64(MarkAll(bloom, hashes, shift))
    decreases |hashes|
  {
    if hashes != [] {
      MarkedBound(bloom, hashes[0], shift);
      MarkAllBound(Marked(bloom, hashes[0], shift), hashes[1..], shift);
    }
  }

  // ----- buckets and chains ---------------------------------------------

  function Hashes(symbols: seq<Symbol>): (r: seq<nat>)
    ensures |r| == |symbols| && forall i :: 0 <= i < |symbols| ==> r[i] == Hash(symbols[i].name)
  {
    seq(|symbols|, (i: nat) requires i < |symbols| => Hash(symbols[i].name))
  }

  function BucketOf(h: nat, nbuckets: nat): (r: nat)
    requires nbuckets > 0
    ensures r < nbuckets
  {
    h % nbuckets
  }

  /** A run of equal buckets starts at `i`. */
  predicate RunStarts(hashes: seq<nat>, nbuckets: nat, i: nat)
    requires nbuckets > 0 && i < |hashes|
  {
    i == 0 || BucketOf(hashes[i - 1], nbuckets) != BucketOf(hashes[i], nbuckets)
  }

  /** A run of equal buckets ends at `i`. */
  predicate RunEnds(hashes: seq<nat>, nbuckets: nat, i: nat)
    requires nbuckets > 0 && i < |hashes|
  {
    i + 1 == |hashes| || BucketOf(hashes[i + 1], nbuckets) != BucketOf(hashes[i], nbuckets)
  }

  /** Bucket `b` after the first `n` symbols: the dynsym index of its latest run, or 0. */
  function BucketAfter(symbols: seq<Symbol>, hashes: seq<nat>, nbuckets: nat, b: nat, n: nat): nat
    requires nbuckets > 0 && |hashes| == |symbols| && n <= |symbols|
  {
    if n == 0 then 0
    else if BucketOf(hashes[n - 1], nbuckets) == b && RunStarts(hashes, nbuckets, n - 1) then symbols[n - 1].dynsymIndex
    else BucketAfter(symbols, hashes, nbuckets, b, n - 1)
  }

  function Buckets(symbols: seq<Symbol>, hashes: seq<nat>, nbuckets: nat): (r: seq<nat>)
    requires nbuckets > 0 && |hashes| == |symbols|
    ensures |r| == nbuckets && forall b :: 0 <= b < nbuckets ==> r[b] == BucketAfter(symbols, hashes, nbuckets, b, |symbols|)
  {
    seq(nbuckets, (b: nat) => BucketAfter(symbols, hashes, nbuckets, b, |symbols|))
  }

  /** The hash with its low bit telling the end of the bucket. */
  function ChainWord(hashes: seq<nat>, nbuckets: nat, i: nat): nat
    requires nbuckets > 0 && i < |hashes|
  {
    hashes[i] - hashes[i] % 2 + if RunEnds(hashes, nbuckets, i) then 1 else 0
  }

  function Chains(hashes: seq<nat>, nbuckets: nat): (r: seq<nat>)
    requires nbuckets > 0
    ensures |r| == |hashes| && forall i :: 0 <= i < |hashes| ==> r[i] == ChainWord(hashes, nbuckets, i)
  {
    seq(|hashes|, (i: nat) requires i < |hashes| => ChainWord(hashes, nbuckets, i))
  }

  // ----- the section ----------------------------------------------------

  /** Words one after the other, `width` bytes each. */
  function Packed(ws: seq<nat>, width: nat): (r: seq<byte>)
    ensures |r| == |ws| * width
  {
    if ws == [] then [] else Le(ws[0], width) + Packed(ws[1..], width)
  }

  lemma {:induction false} PackedHas(ws: seq<nat>, width: nat, k: nat)
    requires k < |ws|
    ensures HasAt(Packed(ws, width), k * width, Le(ws[k], width))
    decreases |ws|
  {
    if k == 0 {
      assert Packed(ws, width)[0..width] == Le(ws[0], width);
    } else {
      PackedHas(ws[1..], width, k - 1);
      assert (k - 1) * width + width == k * width;
      HasAtMiddle(Le(ws[0], width), Packed(ws[1..], width), []);
      assert Le(ws[0], width) + Packed(ws[1..], width) + [] == Packed(ws, width);
      HasAtInside(Packed(ws, width), width, Packed(ws[1..], width), (k - 1) * width, Le(ws[k], width));
    }
  }

  function Header(nbuckets: nat, base: nat, bloomSize: nat, shift: nat): (r: seq<byte>)
    ensures |r| == 16
  {
    Le(nbuckets, 4) + Le(base, 4) + Le(bloomSize, 4) + Le(shift, 4)
  }

  function ZeroWords(n: nat): (r: seq<nat>)
    ensures |r| == n && forall i :: 0 <= i < n ==> r[i] == 0
  {
    seq(n, (_: nat) => 0)
  }

  function Section(symbols: seq<Symbol>, base: nat, nbuckets: nat, bloomSize: nat, shift: nat): seq<byte>
    requires nbuckets > 0 && bloomSize > 0
  {
    var hashes := Hashes(symbols);
    Header(nbuckets, base, bloomSize, shift) + Packed(MarkAll(ZeroWords(bloomSize), hashes, shift), 8)
      + Packed(Buckets(symbols, hashes, nbuckets), 4) + Packed(Chains(hashes, nbuckets), 4)
  }
}
