/** The dynamic linker's lookup in a built `.gnu.hash` section finds exactly the listed names. */
module GnuLookup {
  import opened Bytes
  import opened GnuHash

  // ----- building -------------------------------------------------------

  method PackWords(ws: seq<nat>, width: nat) returns (r: seq<byte>)
    ensures r == Packed(ws, width)
  {
    r := [];
    var k := 0;
    while k < |ws|
      invariant k <= |ws| && r + Packed(ws[k..], width) == Packed(ws, width)
    {
      assert ws[k..][1..] == ws[k + 1..];
      assert r + (Le(ws[k], width) + Packed(ws[k + 1..], width)) == r + Le(ws[k], width) + Packed(ws[k + 1..], width);
      r := r + Le(ws[k], width);
      k := k + 1;
    }
    assert ws[k..] == [] && r + [] == r;
  }

  method FillBloom(hashes: seq<nat>, size: nat, shift: nat) returns (bloom: seq<nat>)
    requires size > 0
    ensures bloom == MarkAll(ZeroWords(size), hashes, shift)
  {
    bloom := ZeroWords(size);
    var k := 0;
    assert hashes[0..] == hashes;
    while k < |hashes|
      invariant k <= |hashes| && |bloom| == size
      invariant MarkAll(bloom, hashes[k..], shift) == MarkAll(ZeroWords(size), hashes, shift)
    {
      assert hashes[k..][1..] == hashes[k + 1..];
      var i := hashes[k] / 64 % size;
      bloom := bloom[i := SetBit(SetBit(bloom[i], hashes[k] % 64), hashes[k] / Pow2(shift) % 64)];
      k := k + 1;
    }
  }

  method FillBuckets(symbols: seq<Symbol>, hashes: seq<nat>, nbuckets: nat) returns (buckets: seq<nat>)
    requires nbuckets > 0 && |hashes| == |symbols|
    ensures buckets == Buckets(symbols, hashes, nbuckets)
  {
    buckets := ZeroWords(nbuckets);
    var current: Option<nat> := None;
    var i := 0;
    while i < |symbols|
      invariant i <= |symbols| && |buckets| == nbuckets
      invariant current == if i == 0 then None else Some(BucketOf(hashes[i - 1], nbuckets))
      invariant forall b :: 0 <= b < nbuckets ==> buckets[b] == BucketAfter(symbols, hashes, nbuckets, b, i)
    {
      var bucket := hashes[i] % nbuckets;
      if current != Some(bucket) {
        buckets := buckets[bucket := symbols[i].dynsymIndex];
        current := Some(bucket);
      }
      i := i + 1;
    }
  }

  method FillChains(hashes: seq<nat>, nbuckets: nat) returns (chains: seq<nat>)
    requires nbuckets > 0
    ensures chains == Chains(hashes, nbuckets)
  {
    chains := [];
    var i := 0;
    while i < |hashes|
      invariant i <= |hashes| && |chains| == i
      invariant forall j :: 0 <= j < i ==> chains[j] == hashes[j] - hashes[j] % 2
    {
      chains := chains + [hashes[i] - hashes[i] % 2];
      i := i + 1;
    }
    i := 0;
    while i < |hashes|
      invariant i <= |hashes| && |chains| == |hashes|
      invariant forall j :: 0 <= j < |hashes| ==> chains[j] == if j < i then ChainWord(hashes, nbuckets, j) else hashes[j] - hashes[j] % 2
    {
      var next := if i + 1 < |hashes| then Some(hashes[i + 1] % nbuckets) else None;
      if next != Some(hashes[i] % nbuckets) {
        chains := chains[i := chains[i] + 1];
      }
      i := i + 1;
    }
  }

  method HashAll(symbols: seq<Symbol>) returns (hashes: seq<nat>)
    ensures hashes == Hashes(symbols)
  {
    hashes := [];
    var i := 0;
    while i < |symbols|
      invariant i <= |symbols| && |hashes| == i && forall j :: 0 <= j < i ==> hashes[j] == Hash(symbols[j].name)
    {
      var h := ComputeHash(symbols[i].name);
      hashes := hashes + [h];
      i := i + 1;
    }
  }

  /** `build_gnu_hash`. */
  method BuildGnuHash(symbols: seq<Symbol>, base: nat, nbuckets: nat, bloomSize: nat, shift: nat) returns (bytes: seq<byte>)
    requires nbuckets > 0 && bloomSize > 0 && (exists n: nat :: bloomSize == Pow2(n)) && shift < 32
    ensures bytes == Section(symbols, base, nbuckets, bloomSize, shift)
  {
    var hashes := HashAll(symbols);
    bytes := Header(nbuckets, base, bloomSize, shift);
    var bloom := FillBloom(hashes, bloomSize, shift);
    var bloomBytes := PackWords(bloom, 8);
    var buckets := FillBuckets(symbols, hashes, nbuckets);
    var chains := FillChains(hashes, nbuckets);
    var bucketBytes := PackWords(buckets, 4);
    var chainBytes := PackWords(chains, 4);
    bytes := bytes + bloomBytes + bucketBytes + chainBytes;
  }

  // ----- the loader -----------------------------------------------------

  function W4(bytes: seq<byte>, at: nat): nat { if at + 4 <= |bytes| then FromLe(bytes[at..at + 4]) else 0 }

  function W8(bytes: seq<byte>, at: nat): nat { if at + 8 <= |bytes| then FromLe(bytes[at..at + 8]) else 0 }

  /** Walk the chain from dynsym index `ix`; `names` is the string table by dynsym index. */
  function Walk(bytes: seq<byte>, chains: nat, base: nat, ix: nat, name: seq<byte>, names: nat -> seq<byte>): Option<nat>
    requires base <= ix
    decreases |bytes| - chains - 4 * (ix - base)
  {
    var at := chains + 4 * (ix - base);
    if at + 4 > |bytes| then None
    else if W4(bytes, at) / 2 == Hash(name) / 2 && names(ix) == name then Some(ix)
    else if W4(bytes, at) % 2 == 1 then None
    else Walk(bytes, chains, base, ix + 1, name, names)
  }

  function Lookup(bytes: seq<byte>, name: seq<byte>, names: nat -> seq<byte>): Option<nat> {
    var nbuckets, base, bloomSize, shift := W4(bytes, 0), W4(bytes, 4), W4(bytes, 8), W4(bytes, 12);
    var h := Hash(name);
    if nbuckets == 0 || bloomSize == 0 then None
    else
      var word := W8(bytes, 16 + 8 * BloomWord(h, bloomSize));
      if !(Bit(word, BitA(h)) && Bit(word, BitB(h, shift))) then None
      else
        var start := W4(bytes, 16 + 8 * bloomSize + 4 * BucketOf(h, nbuckets));
        if start < base || start == 0 then None
        else Walk(bytes, 16 + 8 * bloomSize + 4 * nbuckets, base, start, name, names)
  }

  // ----- reading the section back ---------------------------------------

  lemma ReadInside4(bytes: seq<byte>, at: nat, packed: seq<byte>, off: nat, v: nat)
    requires HasAt(bytes, at, packed) && HasAt(packed, off, Le(v, 4)) && v < U32_LIMIT
    ensures W4(bytes, at + off) == v && at + off + 4 <= |bytes|
  {
    HasAtInside(bytes, at, packed, off, Le(v, 4));
    U32ReadsBack(v);
  }

  lemma ReadInside8(bytes: seq<byte>, at: nat, packed: seq<byte>, off: nat, v: nat)
    requires HasAt(bytes, at, packed) && HasAt(packed, off, Le(v, 8)) && v < U64_LIMIT
    ensures W8(bytes, at + off) == v
  {
    HasAtInside(bytes, at, packed, off, Le(v, 8));
    Pow256Values();
    FromLeOfLe(v, 8);
  }

  lemma ReadPacked4(bytes: seq<byte>, at: nat, ws: seq<nat>, k: nat)
    requires HasAt(bytes, at, Packed(ws, 4)) && k < |ws| && ws[k] < U32_LIMIT
    ensures W4(bytes, at + 4 * k) == ws[k] && at + 4 * k + 4 <= |bytes|
  {
    hide *;
    PackedHas(ws, 4, k);
    ReadInside4(bytes, at, Packed(ws, 4), k * 4, ws[k]);
  }

  lemma ReadPacked8(bytes: seq<byte>, at: nat, ws: seq<nat>, k: nat)
    requires HasAt(bytes, at, Packed(ws, 8)) && k < |ws| && ws[k] < U64_LIMIT
    ensures W8(bytes, at + 8 * k) == ws[k]
  {
    hide *;
    PackedHas(ws, 8, k);
    ReadInside8(bytes, at, Packed(ws, 8), k * 8, ws[k]);
  }

  ghost predicate Fits(symbols: seq<Symbol>, base: nat, nbuckets: nat, bloomSize: nat, shift: nat) {
    && 0 < nbuckets < U32_LIMIT && 0 < bloomSize < U32_LIMIT && shift < 32
    && 0 < base && base + |symbols| < U32_LIMIT
    && forall i :: 0 <= i < |symbols| ==> symbols[i].dynsymIndex == base + i
  }

  /** What the loader reads where. */
  ghost predicate Reads(bytes: seq<byte>, symbols: seq<Symbol>, base: nat, nbuckets: nat, bloomSize: nat, shift: nat)
    requires nbuckets > 0 && bloomSize > 0
  {
    var hashes := Hashes(symbols);
    var chains := 16 + 8 * bloomSize + 4 * nbuckets;
    && HeaderAt(bytes, nbuckets, base, bloomSize, shift) && BloomAt(bytes, 16, hashes, bloomSize, shift)
    && BucketsAt(bytes, 16 + 8 * bloomSize, symbols, hashes, nbuckets) && ChainsAt(bytes, chains, hashes, nbuckets)
    && |bytes| == chains + 4 * |symbols|
  }

  ghost predicate HeaderAt(bytes: seq<byte>, nbuckets: nat, base: nat, bloomSize: nat, shift: nat) {
    W4(bytes, 0) == nbuckets && W4(bytes, 4) == base && W4(bytes, 8) == bloomSize && W4(bytes, 12) == shift
  }

  ghost predicate BloomAt(bytes: seq<byte>, at: nat, hashes: seq<nat>, bloomSize: nat, shift: nat)
    requires bloomSize > 0
  {
    forall i :: 0 <= i < bloomSize ==> W8(bytes, at + 8 * i) == MarkAll(ZeroWords(bloomSize), hashes, shift)[i]
  }

  ghost predicate BucketsAt(bytes: seq<byte>, at: nat, symbols: seq<Symbol>, hashes: seq<nat>, nbuckets: nat)
    requires nbuckets > 0 && |hashes| == |symbols|
  {
    forall b :: 0 <= b < nbuckets ==> W4(bytes, at + 4 * b) == Buckets(symbols, hashes, nbuckets)[b]
  }

  ghost predicate ChainsAt(bytes: seq<byte>, at: nat, hashes: seq<nat>, nbuckets: nat)
    requires nbuckets > 0
  {
    forall i :: 0 <= i < |hashes| ==> W4(bytes, at + 4 * i) == ChainWord(hashes, nbuckets, i)
  }

  lemma HeaderReads(bytes: seq<byte>, nbuckets: nat, base: nat, bloomSize: nat, shift: nat)
    requires HasAt(bytes, 0, Header(nbuckets, base, bloomSize, shift))
    requires nbuckets < U32_LIMIT && base < U32_LIMIT && bloomSize < U32_LIMIT && shift < U32_LIMIT
    ensures HeaderAt(bytes, nbuckets, base, bloomSize, shift)
  {
    var a, b, c, d := Le(nbuckets, 4), Le(base, 4), Le(bloomSize, 4), Le(shift, 4);
    assert Header(nbuckets, base, bloomSize, shift) == a + (b + (c + d));
    HasAtSplit(bytes, 0, a, b + (c + d));
    HasAtSplit(bytes, 4, b, c + d);
    HasAtSplit(bytes, 8, c, d);
    U32ReadsBack(nbuckets);
    U32ReadsBack(base);
    U32ReadsBack(bloomSize);
    U32ReadsBack(shift);
  }

  lemma {:induction false} BucketBound(symbols: seq<Symbol>, hashes: seq<nat>, nbuckets: nat, b: nat, n: nat)
    requires nbuckets > 0 && |hashes| == |symbols| && n <= |symbols|
    requires forall i :: 0 <= i < |symbols| ==> symbols[i].dynsymIndex < U32_LIMIT
    ensures BucketAfter(symbols, hashes, nbuckets, b, n) < U32_LIMIT
  {
    if n > 0 {
      BucketBound(symbols, hashes, nbuckets, b, n - 1);
    }
  }

  lemma BloomReads(bytes: seq<byte>, at: nat, hashes: seq<nat>, bloomSize: nat, shift: nat, i: nat)
    requires i < bloomSize && HasAt(bytes, at, Packed(MarkAll(ZeroWords(bloomSize), hashes, shift), 8))
    ensures W8(bytes, at + 8 * i) == MarkAll(ZeroWords(bloomSize), hashes, shift)[i]
  {
    MarkAllBound(ZeroWords(bloomSize), hashes, shift);
    ReadPacked8(bytes, at, MarkAll(ZeroWords(bloomSize), hashes, shift), i);
  }

  lemma BucketReads(bytes: seq<byte>, at: nat, symbols: seq<Symbol>, hashes: seq<nat>, nbuckets: nat, b: nat)
    requires b < nbuckets && |hashes| == |symbols| && HasAt(bytes, at, Packed(Buckets(symbols, hashes, nbuckets), 4))
    requires forall i :: 0 <= i < |symbols| ==> symbols[i].dynsymIndex < U32_LIMIT
    ensures W4(bytes, at + 4 * b) == Buckets(symbols, hashes, nbuckets)[b]
  {
    BucketBound(symbols, hashes, nbuckets, b, |symbols|);
    ReadPacked4(bytes, at, Buckets(symbols, hashes, nbuckets), b);
  }

  lemma ChainReads(bytes: seq<byte>, at: nat, hashes: seq<nat>, nbuckets: nat, i: nat)
    requires nbuckets > 0 && i < |hashes| && hashes[i] < U32_LIMIT && HasAt(bytes, at, Packed(Chains(hashes, nbuckets), 4))
    ensures W4(bytes, at + 4 * i) == ChainWord(hashes, nbuckets, i)
  {
    ReadPacked4(bytes, at, Chains(hashes, nbuckets), i);
  }

  /** The four tables stand one after the other. */
  lemma SectionParts(symbols: seq<Symbol>, base: nat, nbuckets: nat, bloomSize: nat, shift: nat)
    requires nbuckets > 0 && bloomSize > 0
    ensures var bytes, hashes := Section(symbols, base, nbuckets, bloomSize, shift), Hashes(symbols);
            && HasAt(bytes, 0, Header(nbuckets, base, bloomSize, shift))
            && HasAt(bytes, 16, Packed(MarkAll(ZeroWords(bloomSize), hashes, shift), 8))
            && HasAt(bytes, 16 + 8 * bloomSize, Packed(Buckets(symbols, hashes, nbuckets), 4))
            && HasAt(bytes, 16 + 8 * bloomSize + 4 * nbuckets, Packed(Chains(hashes, nbuckets), 4))
            && |bytes| == 16 + 8 * bloomSize + 4 * nbuckets + 4 * |symbols|
  {
    var hashes := Hashes(symbols);
    var h, p := Header(nbuckets, base, bloomSize, shift), Packed(MarkAll(ZeroWords(bloomSize), hashes, shift), 8);
    var q, r := Packed(Buckets(symbols, hashes, nbuckets), 4), Packed(Chains(hashes, nbuckets), 4);
    assert Section(symbols, base, nbuckets, bloomSize, shift) == h + p + q + r;
    hide Section, Packed, Header, HasAt, MarkAll, Buckets, Chains;
    FourParts(h, p, q, r);
  }

  lemma SectionReads(symbols: seq<Symbol>, base: nat, nbuckets: nat, bloomSize: nat, shift: nat)
    requires Fits(symbols, base, nbuckets, bloomSize, shift)
    ensures Reads(Section(symbols, base, nbuckets, bloomSize, shift), symbols, base, nbuckets, bloomSize, shift)
  {
    FitsPositive(symbols, base, nbuckets, bloomSize, shift);
    hide *;
    var bytes := Section(symbols, base, nbuckets, bloomSize, shift);
    SectionParts(symbols, base, nbuckets, bloomSize, shift);
    HashesBounded(symbols);
    PartsRead(bytes, symbols, base, nbuckets, bloomSize, shift, Hashes(symbols));
    PartsMakeReads(bytes, symbols, base, nbuckets, bloomSize, shift);
  }

  lemma PartsMakeReads(bytes: seq<byte>, symbols: seq<Symbol>, base: nat, nbuckets: nat, bloomSize: nat, shift: nat)
    requires 0 < nbuckets && 0 < bloomSize && |bytes| == 16 + 8 * bloomSize + 4 * nbuckets + 4 * |symbols|
    requires var hashes := Hashes(symbols);
             && HeaderAt(bytes, nbuckets, base, bloomSize, shift) && BloomAt(bytes, 16, hashes, bloomSize, shift)
             && BucketsAt(bytes, 16 + 8 * bloomSize, symbols, hashes, nbuckets)
             && ChainsAt(bytes, 16 + 8 * bloomSize + 4 * nbuckets, hashes, nbuckets)
    ensures Reads(bytes, symbols, base, nbuckets, bloomSize, shift)
  {
    hide HeaderAt, BloomAt, BucketsAt, ChainsAt, Hashes;
  }

  lemma FitsPositive(symbols: seq<Symbol>, base: nat, nbuckets: nat, bloomSize: nat, shift: nat)
    requires Fits(symbols, base, nbuckets, bloomSize, shift)
    ensures 0 < base < U32_LIMIT && 0 < nbuckets < U32_LIMIT && 0 < bloomSize < U32_LIMIT && shift < 32
    ensures forall i :: 0 <= i < |symbols| ==> symbols[i].dynsymIndex < U32_LIMIT
  {}

  lemma HashesBounded(symbols: seq<Symbol>)
    ensures |Hashes(symbols)| == |symbols| && forall i :: 0 <= i < |symbols| ==> Hashes(symbols)[i] < U32_LIMIT
  {
    hide Hash;
  }

  lemma PartsRead(bytes: seq<byte>, symbols: seq<Symbol>, base: nat, nbuckets: nat, bloomSize: nat, shift: nat, hashes: seq<nat>)
    requires 0 < nbuckets < U32_LIMIT && 0 < bloomSize < U32_LIMIT && shift < U32_LIMIT && base < U32_LIMIT && |hashes| == |symbols|
    requires (forall i :: 0 <= i < |symbols| ==> symbols[i].dynsymIndex < U32_LIMIT) && forall i :: 0 <= i < |hashes| ==> hashes[i] < U32_LIMIT
    requires HasAt(bytes, 0, Header(nbuckets, base, bloomSize, shift))
    requires HasAt(bytes, 16, Packed(MarkAll(ZeroWords(bloomSize), hashes, shift), 8))
    requires HasAt(bytes, 16 + 8 * bloomSize, Packed(Buckets(symbols, hashes, nbuckets), 4))
    requires HasAt(bytes, 16 + 8 * bloomSize + 4 * nbuckets, Packed(Chains(hashes, nbuckets), 4))
    ensures HeaderAt(bytes, nbuckets, base, bloomSize, shift) && BloomAt(bytes, 16, hashes, bloomSize, shift)
    ensures BucketsAt(bytes, 16 + 8 * bloomSize, symbols, hashes, nbuckets) && ChainsAt(bytes, 16 + 8 * bloomSize + 4 * nbuckets, hashes, nbuckets)
  {
    hide *;
    HeaderReads(bytes, nbuckets, base, bloomSize, shift);
    AllBloomReads(bytes, 16, hashes, bloomSize, shift);
    AllBucketsRead(bytes, 16 + 8 * bloomSize, symbols, hashes, nbuckets);
    AllChainsRead(bytes, 16 + 8 * bloomSize + 4 * nbuckets, hashes, nbuckets);
  }

  lemma AllBloomReads(bytes: seq<byte>, at: nat, hashes: seq<nat>, bloomSize: nat, shift: nat)
    requires bloomSize > 0 && HasAt(bytes, at, Packed(MarkAll(ZeroWords(bloomSize), hashes, shift), 8))
    ensures BloomAt(bytes, at, hashes, bloomSize, shift)
  {
    hide Packed, W8, HasAt, MarkAll;
    forall i | 0 <= i < bloomSize ensures W8(bytes, at + 8 * i) == MarkAll(ZeroWords(bloomSize), hashes, shift)[i] {
      BloomReads(bytes, at, hashes, bloomSize, shift, i);
    }
  }

  lemma AllBucketsRead(bytes: seq<byte>, at: nat, symbols: seq<Symbol>, hashes: seq<nat>, nbuckets: nat)
    requires nbuckets > 0 && |hashes| == |symbols| && HasAt(bytes, at, Packed(Buckets(symbols, hashes, nbuckets), 4))
    requires forall i :: 0 <= i < |symbols| ==> symbols[i].dynsymIndex < U32_LIMIT
    ensures BucketsAt(bytes, at, symbols, hashes, nbuckets)
  {
    hide Packed, W4, HasAt, Buckets;
    forall b | 0 <= b < nbuckets ensures W4(bytes, at + 4 * b) == Buckets(symbols, hashes, nbuckets)[b] {
      BucketReads(bytes, at, symbols, hashes, nbuckets, b);
    }
  }

  lemma AllChainsRead(bytes: seq<byte>, at: nat, hashes: seq<nat>, nbuckets: nat)
    requires nbuckets > 0 && HasAt(bytes, at, Packed(Chains(hashes, nbuckets), 4))
    requires forall i :: 0 <= i < |hashes| ==> hashes[i] < U32_LIMIT
    ensures ChainsAt(bytes, at, hashes, nbuckets)
  {
    hide Packed, W4, HasAt, Chains, ChainWord;
    forall i | 0 <= i < |hashes| ensures W4(bytes, at + 4 * i) == ChainWord(hashes, nbuckets, i) {
      ChainReads(bytes, at, hashes, nbuckets, i);
    }
  }

  lemma FourParts(h: seq<byte>, p: seq<byte>, q: seq<byte>, r: seq<byte>)
    ensures var s := h + p + q + r;
            && HasAt(s, 0, h) && HasAt(s, |h|, p) && HasAt(s, |h| + |p|, q) && HasAt(s, |h| + |p| + |q|, r)
  {
    assert h + p + q + r == [] + h + (p + q + r);
    assert h + p + q + r == h + p + (q + r);
    assert h + p + q + r == (h + p) + q + r;
    assert h + p + q + r == (h + p + q) + r + [];
    HasAtMiddle([], h, p + q + r);
    HasAtMiddle(h, p, q + r);
    HasAtMiddle(h + p, q, r);
    HasAtMiddle(h + p + q, r, []);
  }

  // ----- runs of a bucket -----------------------------------------------

  /** Between a foreign entry and one of bucket `b` a run of `b` starts. */
  lemma {:induction false} StartBetween(hashes: seq<nat>, nbuckets: nat, m: nat, k: nat) returns (s: nat)
    requires nbuckets > 0 && m < k < |hashes| && BucketOf(hashes[m], nbuckets) != BucketOf(hashes[k], nbuckets)
    ensures m < s <= k && RunStarts(hashes, nbuckets, s) && BucketOf(hashes[s], nbuckets) == BucketOf(hashes[k], nbuckets)
    decreases k
  {
    if RunStarts(hashes, nbuckets, k) {
      s := k;
    } else {
      s := StartBetween(hashes, nbuckets, m, k - 1);
    }
  }

  lemma {:induction false} StartOfRun(hashes: seq<nat>, nbuckets: nat, k: nat) returns (s: nat)
    requires nbuckets > 0 && k < |hashes|
    ensures s <= k && RunStarts(hashes, nbuckets, s)
    ensures forall j :: s <= j <= k ==> BucketOf(hashes[j], nbuckets) == BucketOf(hashes[k], nbuckets)
    decreases k
  {
    if RunStarts(hashes, nbuckets, k) {
      s := k;
    } else {
      s := StartOfRun(hashes, nbuckets, k - 1);
    }
  }

  lemma {:induction false} EndOfRun(hashes: seq<nat>, nbuckets: nat, k: nat) returns (e: nat)
    requires nbuckets > 0 && k < |hashes|
    ensures k <= e < |hashes| && RunEnds(hashes, nbuckets, e)
    ensures forall j :: k <= j < e ==> !RunEnds(hashes, nbuckets, j)
    ensures forall j :: k <= j <= e ==> BucketOf(hashes[j], nbuckets) == BucketOf(hashes[k], nbuckets)
    decreases |hashes| - k
  {
    if RunEnds(hashes, nbuckets, k) {
      e := k;
    } else {
      e := EndOfRun(hashes, nbuckets, k + 1);
    }
  }

  /** The bucket names the start of its last run. */
  lemma {:induction false} BucketIsLastStart(symbols: seq<Symbol>, hashes: seq<nat>, nbuckets: nat, s: nat, n: nat)
    requires nbuckets > 0 && |hashes| == |symbols| && s < n <= |symbols| && RunStarts(hashes, nbuckets, s)
    requires forall j :: s < j < n && BucketOf(hashes[j], nbuckets) == BucketOf(hashes[s], nbuckets) ==> !RunStarts(hashes, nbuckets, j)
    ensures BucketAfter(symbols, hashes, nbuckets, BucketOf(hashes[s], nbuckets), n) == symbols[s].dynsymIndex
    decreases n
  {
    if n - 1 > s {
      BucketIsLastStart(symbols, hashes, nbuckets, s, n - 1);
    }
  }

  /** An empty bucket says 0. */
  lemma {:induction false} EmptyBucket(symbols: seq<Symbol>, hashes: seq<nat>, nbuckets: nat, b: nat, n: nat)
    requires nbuckets > 0 && |hashes| == |symbols| && n <= |symbols|
    ensures BucketAfter(symbols, hashes, nbuckets, b, n) == 0
            || exists s :: 0 <= s < n && RunStarts(hashes, nbuckets, s) && BucketOf(hashes[s], nbuckets) == b
                           && BucketAfter(symbols, hashes, nbuckets, b, n) == symbols[s].dynsymIndex
    decreases n
  {
    if n > 0 && !(BucketOf(hashes[n - 1], nbuckets) == b && RunStarts(hashes, nbuckets, n - 1)) {
      EmptyBucket(symbols, hashes, nbuckets, b, n - 1);
    }
  }

  // ----- walking a run --------------------------------------------------

  ghost predicate NamesAre(names: nat -> seq<byte>, symbols: seq<Symbol>, base: nat) {
    forall i :: 0 <= i < |symbols| ==> names(base + i) == symbols[i].name
  }

  ghost predicate Distinct(symbols: seq<Symbol>) {
    forall i, j :: 0 <= i < j < |symbols| ==> symbols[i].name != symbols[j].name
  }

  lemma ChainHalf(hashes: seq<nat>, nbuckets: nat, i: nat)
    requires nbuckets > 0 && i < |hashes|
    ensures ChainWord(hashes, nbuckets, i) / 2 == hashes[i] / 2
    ensures ChainWord(hashes, nbuckets, i) % 2 == 1 <==> RunEnds(hashes, nbuckets, i)
  {}

  /** The chain from `s` first ends at `e`. */
  ghost predicate RunsTo(hashes: seq<nat>, nbuckets: nat, s: nat, e: nat)
    requires nbuckets > 0
  {
    s <= e < |hashes| && RunEnds(hashes, nbuckets, e) && forall j :: s <= j < e ==> !RunEnds(hashes, nbuckets, j)
  }

  /** The walk from entry `j` sees the entries up to the run's end `e`, and no other. */
  lemma {:induction false} WalkSees(bytes: seq<byte>, symbols: seq<Symbol>, base: nat, nbuckets: nat, bloomSize: nat, shift: nat,
                                    name: seq<byte>, names: nat -> seq<byte>, j: nat, e: nat)
    requires nbuckets > 0 && bloomSize > 0 && Reads(bytes, symbols, base, nbuckets, bloomSize, shift)
    requires NamesAre(names, symbols, base) && Distinct(symbols) && RunsTo(Hashes(symbols), nbuckets, j, e)
    ensures var found := Walk(bytes, 16 + 8 * bloomSize + 4 * nbuckets, base, base + j, name, names);
            && (forall k :: j <= k <= e && symbols[k].name == name ==> found == Some(base + k))
            && ((forall k :: j <= k <= e ==> symbols[k].name != name) ==> found == None)
    decreases e - j
  {
    var hashes := Hashes(symbols);
    ChainHalf(hashes, nbuckets, j);
    assert W4(bytes, 16 + 8 * bloomSize + 4 * nbuckets + 4 * j) == ChainWord(hashes, nbuckets, j);
    assert names(base + j) == symbols[j].name;
    if symbols[j].name != name && j < e {
      WalkSees(bytes, symbols, base, nbuckets, bloomSize, shift, name, names, j + 1, e);
    }
  }

  // ----- the lookup is exact --------------------------------------------

  /** No later run of the same bucket starts after `k`. */
  ghost predicate InLastRun(hashes: seq<nat>, nbuckets: nat, k: nat)
    requires nbuckets > 0 && k < |hashes|
  {
    forall j :: k < j < |hashes| && BucketOf(hashes[j], nbuckets) == BucketOf(hashes[k], nbuckets) ==> !RunStarts(hashes, nbuckets, j)
  }

  /** Each bucket's entries are contiguous. */
  ghost predicate Contiguous(hashes: seq<nat>, nbuckets: nat)
    requires nbuckets > 0
  {
    forall k :: 0 <= k < |hashes| ==> InLastRun(hashes, nbuckets, k)
  }

  lemma OneBucketIsContiguous(hashes: seq<nat>)
    ensures Contiguous(hashes, 1)
  {
    forall j | 0 < j < |hashes| ensures !RunStarts(hashes, 1, j) {
      assert BucketOf(hashes[j - 1], 1) == 0 == BucketOf(hashes[j], 1);
    }
  }

  lemma LookupUnfolds(bytes: seq<byte>, name: seq<byte>, names: nat -> seq<byte>, base: nat, nbuckets: nat, bloomSize: nat, shift: nat,
                      h: nat, word: nat, start: nat)
    requires nbuckets > 0 && bloomSize > 0 && h == Hash(name)
    requires W4(bytes, 0) == nbuckets && W4(bytes, 4) == base && W4(bytes, 8) == bloomSize && W4(bytes, 12) == shift
    requires word == W8(bytes, 16 + 8 * BloomWord(h, bloomSize))
    requires start == W4(bytes, 16 + 8 * bloomSize + 4 * BucketOf(h, nbuckets))
    ensures Lookup(bytes, name, names) ==
            if !(Bit(word, BitA(h)) && Bit(word, BitB(h, shift))) then None
            else if start < base || start == 0 then None
            else Walk(bytes, 16 + 8 * bloomSize + 4 * nbuckets, base, start, name, names)
  {}

  /** The words a lookup of hash `h` reads before its walk. */
  lemma LookupReads(bytes: seq<byte>, symbols: seq<Symbol>, base: nat, nbuckets: nat, bloomSize: nat, shift: nat, h: nat)
    requires 0 < nbuckets && 0 < bloomSize && Reads(bytes, symbols, base, nbuckets, bloomSize, shift)
    ensures W4(bytes, 0) == nbuckets && W4(bytes, 4) == base && W4(bytes, 8) == bloomSize && W4(bytes, 12) == shift
    ensures W8(bytes, 16 + 8 * BloomWord(h, bloomSize)) == MarkAll(ZeroWords(bloomSize), Hashes(symbols), shift)[BloomWord(h, bloomSize)]
    ensures W4(bytes, 16 + 8 * bloomSize + 4 * BucketOf(h, nbuckets))
            == BucketAfter(symbols, Hashes(symbols), nbuckets, BucketOf(h, nbuckets), |symbols|)
  {
    var b := BucketOf(h, nbuckets);
    assert W4(bytes, 16 + 8 * bloomSize + 4 * b) == Buckets(symbols, Hashes(symbols), nbuckets)[b];
  }

  /** The loader passes the filter for a listed hash and starts where the bucket says. */
  lemma LookupStarts(bytes: seq<byte>, symbols: seq<Symbol>, base: nat, nbuckets: nat, bloomSize: nat, shift: nat,
                     name: seq<byte>, names: nat -> seq<byte>, start: nat)
    requires 0 < nbuckets && 0 < bloomSize && 0 < base && Reads(bytes, symbols, base, nbuckets, bloomSize, shift)
    requires start == BucketAfter(symbols, Hashes(symbols), nbuckets, BucketOf(Hash(name), nbuckets), |symbols|)
    ensures Hash(name) in Hashes(symbols) ==>
              Lookup(bytes, name, names)
              == if start < base then None else Walk(bytes, 16 + 8 * bloomSize + 4 * nbuckets, base, start, name, names)
    ensures Lookup(bytes, name, names) == None
            || (start >= base && Lookup(bytes, name, names) == Walk(bytes, 16 + 8 * bloomSize + 4 * nbuckets, base, start, name, names))
  {
    hide *;
    var h := Hash(name);
    var word := MarkAll(ZeroWords(bloomSize), Hashes(symbols), shift)[BloomWord(h, bloomSize)];
    LookupReads(bytes, symbols, base, nbuckets, bloomSize, shift, h);
    LookupUnfolds(bytes, name, names, base, nbuckets, bloomSize, shift, h, word, start);
    if h in Hashes(symbols) {
      ListedPasses(Hashes(symbols), bloomSize, shift, h);
    }
  }

  lemma ListedPasses(hashes: seq<nat>, bloomSize: nat, shift: nat, h: nat)
    requires bloomSize > 0 && h in hashes
    ensures var word := MarkAll(ZeroWords(bloomSize), hashes, shift)[BloomWord(h, bloomSize)];
            Bit(word, BitA(h)) && Bit(word, BitB(h, shift))
  {
    BloomPasses(ZeroWords(bloomSize), hashes, shift, h);
  }

  /** The last run of a listed name's bucket, which the bucket points at. */
  lemma LastRun(symbols: seq<Symbol>, base: nat, nbuckets: nat, bloomSize: nat, shift: nat, k: nat) returns (s: nat, e: nat)
    requires Fits(symbols, base, nbuckets, bloomSize, shift) && k < |symbols|
    ensures s <= e < |symbols| && (InLastRun(Hashes(symbols), nbuckets, k) <==> s <= k <= e)
    ensures BucketAfter(symbols, Hashes(symbols), nbuckets, BucketOf(Hash(symbols[k].name), nbuckets), |symbols|) == base + s
    ensures RunsTo(Hashes(symbols), nbuckets, s, e)
    ensures Hash(symbols[k].name) in Hashes(symbols)
  {
    var hashes := Hashes(symbols);
    assert hashes[k] == Hash(symbols[k].name);
    s := LastStart(hashes, nbuckets, k);
    BucketIsLastStart(symbols, hashes, nbuckets, s, |symbols|);
    e := EndOfRun(hashes, nbuckets, s);
    RunHolds(hashes, nbuckets, s, e, k);
  }

  /** A listed name's lookup is the walk from its bucket's start. */
  lemma LookupIsWalk(bytes: seq<byte>, symbols: seq<Symbol>, base: nat, nbuckets: nat, bloomSize: nat, shift: nat,
                     name: seq<byte>, names: nat -> seq<byte>, s: nat)
    requires 0 < nbuckets && 0 < bloomSize && 0 < base && Reads(bytes, symbols, base, nbuckets, bloomSize, shift)
    requires BucketAfter(symbols, Hashes(symbols), nbuckets, BucketOf(Hash(name), nbuckets), |symbols|) == base + s
    requires Hash(name) in Hashes(symbols)
    ensures Lookup(bytes, name, names) == Walk(bytes, 16 + 8 * bloomSize + 4 * nbuckets, base, base + s, name, names)
  {
    hide *;
    LookupStarts(bytes, symbols, base, nbuckets, bloomSize, shift, name, names, base + s);
  }

  /** The walk along a run finds a listed name exactly when the run holds it. */
  lemma WalkOwnName(bytes: seq<byte>, symbols: seq<Symbol>, base: nat, nbuckets: nat, bloomSize: nat, shift: nat,
                    names: nat -> seq<byte>, k: nat, s: nat, e: nat)
    requires nbuckets > 0 && bloomSize > 0 && Reads(bytes, symbols, base, nbuckets, bloomSize, shift)
    requires NamesAre(names, symbols, base) && Distinct(symbols) && RunsTo(Hashes(symbols), nbuckets, s, e) && k < |symbols|
    ensures Walk(bytes, 16 + 8 * bloomSize + 4 * nbuckets, base, base + s, symbols[k].name, names)
            == if s <= k <= e then Some(base + k) else None
  {
    assert e < |Hashes(symbols)| && forall j :: 0 <= j < |symbols| && symbols[j].name == symbols[k].name ==> j == k;
    hide *;
    WalkSees(bytes, symbols, base, nbuckets, bloomSize, shift, symbols[k].name, names, s, e);
  }

  /** The loader walks exactly the last run of a listed name's bucket. */
  lemma WalksLastRun(bytes: seq<byte>, symbols: seq<Symbol>, base: nat, nbuckets: nat, bloomSize: nat, shift: nat,
                     names: nat -> seq<byte>, k: nat) returns (s: nat, e: nat)
    requires Fits(symbols, base, nbuckets, bloomSize, shift) && Reads(bytes, symbols, base, nbuckets, bloomSize, shift)
    requires NamesAre(names, symbols, base) && Distinct(symbols) && k < |symbols|
    ensures s <= e < |symbols| && (InLastRun(Hashes(symbols), nbuckets, k) <==> s <= k <= e)
    ensures Lookup(bytes, symbols[k].name, names) == if s <= k <= e then Some(base + k) else None
  {
    hide *;
    FitsPositive(symbols, base, nbuckets, bloomSize, shift);
    s, e := LastRun(symbols, base, nbuckets, bloomSize, shift, k);
    LookupIsWalk(bytes, symbols, base, nbuckets, bloomSize, shift, symbols[k].name, names, s);
    WalkOwnName(bytes, symbols, base, nbuckets, bloomSize, shift, names, k, s, e);
  }

  lemma RunHolds(hashes: seq<nat>, nbuckets: nat, s: nat, e: nat, k: nat)
    requires nbuckets > 0 && s <= e < |hashes| && k < |hashes| && RunEnds(hashes, nbuckets, e)
    requires RunStarts(hashes, nbuckets, s) && BucketOf(hashes[s], nbuckets) == BucketOf(hashes[k], nbuckets)
    requires forall j :: s < j < |hashes| && BucketOf(hashes[j], nbuckets) == BucketOf(hashes[k], nbuckets) ==> !RunStarts(hashes, nbuckets, j)
    requires forall j :: s <= j <= e ==> BucketOf(hashes[j], nbuckets) == BucketOf(hashes[s], nbuckets)
    ensures InLastRun(hashes, nbuckets, k) <==> s <= k <= e
  {
    if InLastRun(hashes, nbuckets, k) {
      InRun(hashes, nbuckets, s, e, k);
    }
  }

  /** A listed name is found at its index exactly when it lies in its bucket's last run. */
  lemma ListedName(symbols: seq<Symbol>, base: nat, nbuckets: nat, bloomSize: nat, shift: nat, names: nat -> seq<byte>, k: nat)
    requires Fits(symbols, base, nbuckets, bloomSize, shift) && NamesAre(names, symbols, base) && Distinct(symbols) && k < |symbols|
    ensures var found := Lookup(Section(symbols, base, nbuckets, bloomSize, shift), symbols[k].name, names);
            found == if InLastRun(Hashes(symbols), nbuckets, k) then Some(base + k) else None
  {
    SectionReads(symbols, base, nbuckets, bloomSize, shift);
    var s, e := WalksLastRun(Section(symbols, base, nbuckets, bloomSize, shift), symbols, base, nbuckets, bloomSize, shift, names, k);
  }

  lemma {:induction false} LastStartUpTo(hashes: seq<nat>, nbuckets: nat, k: nat, n: nat) returns (s: nat)
    requires nbuckets > 0 && k < n <= |hashes|
    ensures s < n && RunStarts(hashes, nbuckets, s) && BucketOf(hashes[s], nbuckets) == BucketOf(hashes[k], nbuckets)
    ensures forall j :: s < j < n && BucketOf(hashes[j], nbuckets) == BucketOf(hashes[k], nbuckets) ==> !RunStarts(hashes, nbuckets, j)
    decreases n
  {
    if BucketOf(hashes[n - 1], nbuckets) == BucketOf(hashes[k], nbuckets) && RunStarts(hashes, nbuckets, n - 1) {
      s := n - 1;
    } else if k == n - 1 {
      s := LastStartUpTo(hashes, nbuckets, k - 1, n - 1);
    } else {
      s := LastStartUpTo(hashes, nbuckets, k, n - 1);
    }
  }

  lemma LastStart(hashes: seq<nat>, nbuckets: nat, k: nat) returns (s: nat)
    requires nbuckets > 0 && k < |hashes|
    ensures s < |hashes| && RunStarts(hashes, nbuckets, s) && BucketOf(hashes[s], nbuckets) == BucketOf(hashes[k], nbuckets)
    ensures forall j :: s < j < |hashes| && BucketOf(hashes[j], nbuckets) == BucketOf(hashes[k], nbuckets) ==> !RunStarts(hashes, nbuckets, j)
  {
    s := LastStartUpTo(hashes, nbuckets, k, |hashes|);
  }

  lemma InRun(hashes: seq<nat>, nbuckets: nat, s: nat, e: nat, k: nat)
    requires nbuckets > 0 && s <= e < |hashes| && k < |hashes| && InLastRun(hashes, nbuckets, k)
    requires RunStarts(hashes, nbuckets, s) && BucketOf(hashes[s], nbuckets) == BucketOf(hashes[k], nbuckets)
    requires forall j :: s < j < |hashes| && BucketOf(hashes[j], nbuckets) == BucketOf(hashes[k], nbuckets) ==> !RunStarts(hashes, nbuckets, j)
    requires RunEnds(hashes, nbuckets, e)
    ensures s <= k <= e
  {
    if k > e {
      var r := StartBetween(hashes, nbuckets, e + 1, k);
    }
  }

  /** A bucket says 0 or points at a run. */
  lemma BucketRun(symbols: seq<Symbol>, base: nat, nbuckets: nat, bloomSize: nat, shift: nat, b: nat) returns (start: nat, s: nat, e: nat)
    requires Fits(symbols, base, nbuckets, bloomSize, shift)
    ensures start == BucketAfter(symbols, Hashes(symbols), nbuckets, b, |symbols|)
    ensures start == 0 || (start == base + s && RunsTo(Hashes(symbols), nbuckets, s, e))
  {
    var hashes := Hashes(symbols);
    start, s, e := BucketAfter(symbols, hashes, nbuckets, b, |symbols|), 0, 0;
    EmptyBucket(symbols, hashes, nbuckets, b, |symbols|);
    if start != 0 {
      s :| 0 <= s < |symbols| && RunStarts(hashes, nbuckets, s) && BucketOf(hashes[s], nbuckets) == b && start == symbols[s].dynsymIndex;
      e := EndOfRun(hashes, nbuckets, s);
    }
  }

  /** No other name is found, contiguous buckets or not. */
  lemma UnlistedName(symbols: seq<Symbol>, base: nat, nbuckets: nat, bloomSize: nat, shift: nat, name: seq<byte>, names: nat -> seq<byte>)
    requires Fits(symbols, base, nbuckets, bloomSize, shift) && NamesAre(names, symbols, base) && Distinct(symbols)
    requires forall i :: 0 <= i < |symbols| ==> symbols[i].name != name
    ensures Lookup(Section(symbols, base, nbuckets, bloomSize, shift), name, names) == None
  {
    hide *;
    FitsPositive(symbols, base, nbuckets, bloomSize, shift);
    var bytes := Section(symbols, base, nbuckets, bloomSize, shift);
    SectionReads(symbols, base, nbuckets, bloomSize, shift);
    var start, s, e := BucketRun(symbols, base, nbuckets, bloomSize, shift, BucketOf(Hash(name), nbuckets));
    if start != 0 {
      WalkMisses(bytes, symbols, base, nbuckets, bloomSize, shift, name, names, s, e);
    }
    LookupMisses(bytes, symbols, base, nbuckets, bloomSize, shift, name, names, start);
  }

  lemma LookupMisses(bytes: seq<byte>, symbols: seq<Symbol>, base: nat, nbuckets: nat, bloomSize: nat, shift: nat,
                     name: seq<byte>, names: nat -> seq<byte>, start: nat)
    requires 0 < nbuckets && 0 < bloomSize && 0 < base && Reads(bytes, symbols, base, nbuckets, bloomSize, shift)
    requires start == BucketAfter(symbols, Hashes(symbols), nbuckets, BucketOf(Hash(name), nbuckets), |symbols|)
    requires start >= base ==> Walk(bytes, 16 + 8 * bloomSize + 4 * nbuckets, base, start, name, names) == None
    ensures Lookup(bytes, name, names) == None
  {
    hide *;
    LookupStarts(bytes, symbols, base, nbuckets, bloomSize, shift, name, names, start);
  }

  lemma WalkMisses(bytes: seq<byte>, symbols: seq<Symbol>, base: nat, nbuckets: nat, bloomSize: nat, shift: nat,
                   name: seq<byte>, names: nat -> seq<byte>, s: nat, e: nat)
    requires nbuckets > 0 && bloomSize > 0 && Reads(bytes, symbols, base, nbuckets, bloomSize, shift)
    requires NamesAre(names, symbols, base) && Distinct(symbols) && RunsTo(Hashes(symbols), nbuckets, s, e)
    requires forall i :: 0 <= i < |symbols| ==> symbols[i].name != name
    ensures Walk(bytes, 16 + 8 * bloomSize + 4 * nbuckets, base, base + s, name, names) == None
  {
    assert e < |Hashes(symbols)|;
    hide *;
    WalkSees(bytes, symbols, base, nbuckets, bloomSize, shift, name, names, s, e);
  }

  /** With contiguous buckets the lookup is exact. */
  lemma LookupExact(symbols: seq<Symbol>, base: nat, nbuckets: nat, bloomSize: nat, shift: nat, name: seq<byte>, names: nat -> seq<byte>, k: nat)
    requires Fits(symbols, base, nbuckets, bloomSize, shift) && NamesAre(names, symbols, base) && Distinct(symbols)
    requires Contiguous(Hashes(symbols), nbuckets)
    ensures Lookup(Section(symbols, base, nbuckets, bloomSize, shift), name, names) == Some(base + k)
            <==> k < |symbols| && symbols[k].name == name
  {
    hide Section;
    hide Lookup;
    if i :| 0 <= i < |symbols| && symbols[i].name == name {
      ListedName(symbols, base, nbuckets, bloomSize, shift, names, i);
    } else {
      UnlistedName(symbols, base, nbuckets, bloomSize, shift, name, names);
    }
  }

  /** Three one-byte names whose hashes alternate between two buckets: the loader misses the
      first, as its bucket points behind it. */
  lemma SplitBucketMisses(names: nat -> seq<byte>)
    requires names(1) == [1] && names(2) == [2] && names(3) == [3]
    ensures var symbols := [Symbol(1, [1]), Symbol(2, [2]), Symbol(3, [3])];
            && Fits(symbols, 1, 2, 1, 6) && NamesAre(names, symbols, 1) && Distinct(symbols)
            && Lookup(Section(symbols, 1, 2, 1, 6), [1], names) == None
  {
    var symbols := [Symbol(1, [1]), Symbol(2, [2]), Symbol(3, [3])];
    hide Lookup, Section, Hash, InLastRun;
    HashOfByte(1);
    HashOfByte(2);
    HashOfByte(3);
    SplitRun(Hashes(symbols));
    ListedName(symbols, 1, 2, 1, 6, names, 0);
  }

  lemma SplitRun(hashes: seq<nat>)
    requires hashes == [177574, 177575, 177576]
    ensures !InLastRun(hashes, 2, 0)
  {
    assert BucketOf(hashes[2], 2) == BucketOf(hashes[0], 2) && RunStarts(hashes, 2, 2);
  }

  lemma HashOfByte(c: byte)
    ensures Hash([c]) == 177573 + c
  {
    assert Hash([c]) == HashFrom([c][1..], (5381 * 33 + c) % U32_LIMIT);
  }
}
