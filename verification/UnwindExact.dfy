/** When unwind lookup survives the shift: exactly when no compressed page that starts in front
    of the growth point reaches behind it. */
module UnwindExact {
  import opened Bytes
  import opened Growth
  import opened UnwindInfo
  import opened UnwindLookup

  // ----- orderly sections -----------------------------------------------

  function EntryWord(b: seq<byte>, page: nat, j: nat): nat { Word(b, page + Short(b, page + 4) + 4 * j) }

  /** The encoding of the last of a compressed page's first `n` entries. */
  function LastCoding(b: seq<byte>, page: nat, n: nat): Option<nat> {
    if n == 0 then None else EncodingAt(b, page, EntryWord(b, page, n - 1) / 0x100_0000)
  }

  /** The page's functions ascend, end before the next page's, and each has another encoding
      than the one in front of it; a page starts where nothing has an encoding. */
  ghost predicate Telling(b: seq<byte>, base: nat, page: nat, next: nat) {
    var key, n := CompressedKey(b, base, page), Short(b, page + 6);
    && (forall i, j :: 0 <= i < j < n ==> key(i) < key(j))
    && (n > 0 ==> key(n - 1) <= next)
    && forall k :: 0 < k <= n ==> LastCoding(b, page, k) != LastCoding(b, page, k - 1)
  }

  /** The index ascends to its sentinel, which has no page, and every compressed page tells its
      entries apart. */
  ghost predicate Orderly(b: seq<byte>, l: Layout) {
    var key := IndexKey(b, l.header.indexOff);
    && Climbs(key, |l.entries|)
    && (l.entries != [] ==> l.entries[|l.entries| - 1].0 == 0)
    && forall i :: 0 <= i < |l.entries| - 1 && l.entries[i].0 != 0 && Word(b, l.entries[i].0) == COMPRESSED ==>
         Telling(b, key(i), l.entries[i].0, key(i + 1))
  }

  // ----- a page across the growth point ---------------------------------

  ghost predicate CommonApart(b: seq<byte>, fields: seq<nat>) {
    forall k :: 0 <= k < Word(b, 8) ==> Untouched(fields, Word(b, 4) + 4 * k, 4)
  }

  lemma {:induction false} FindLastIs(key: nat -> nat, n: nat, pc: nat, i: nat)
    requires i < n && key(i) <= pc && forall j :: i < j < n ==> key(j) > pc
    ensures FindLast(key, n, pc) == Some(i)
  {
    if i < n - 1 {
      FindLastIs(key, n - 1, pc, i);
    }
  }

  /** In front of the last of `n` ascending keys lies the one before it, if there is one. */
  lemma FindBeforeLast(key: nat -> nat, n: nat)
    requires n > 0 && key(n - 1) > 0 && forall i, j :: 0 <= i < j < n ==> key(i) < key(j)
    ensures FindLast(key, n, key(n - 1) - 1) == if n == 1 then None else Some(n - 2)
  {
    if n > 1 {
      assert key(n - 2) < key(n - 1);
      FindLastIs(key, n, key(n - 1) - 1, n - 2);
    }
  }

  /** A compressed page finds `pc` as the last of its first `n` entries. */
  ghost predicate FoundInPage(b: seq<byte>, base: nat, page: nat, pc: nat, n: nat) {
    && Word(b, page) == COMPRESSED
    && FindLast(CompressedKey(b, base, page), Short(b, page + 6), pc) == if n == 0 then None else Some(n - 1)
  }

  /** The index finds `pc` at entry `i`, which has a page and is not the sentinel. */
  ghost predicate FoundInIndex(b: seq<byte>, indexOff: nat, count: nat, i: nat, page: nat, pc: nat) {
    && Word(b, 20) == indexOff && Word(b, 24) == count && i + 1 < count && Word(b, indexOff + 12 * i + 4) == page != 0
    && FindLast(IndexKey(b, indexOff), count, pc) == Some(i)
  }

  lemma PageFinds(b: seq<byte>, base: nat, page: nat, pc: nat, n: nat)
    requires FoundInPage(b, base, page, pc, n)
    ensures PageLookup(b, base, page, pc) == LastCoding(b, page, n)
  {
    hide Word, Short, FindLast, EncodingAt;
  }

  lemma LookupFinds(b: seq<byte>, indexOff: nat, count: nat, i: nat, page: nat, pc: nat)
    requires FoundInIndex(b, indexOff, count, i, page, pc)
    ensures Lookup(b, pc) == PageLookup(b, Word(b, indexOff + 12 * i), page, pc)
  {
    hide Word, PageLookup, FindLast;
  }

  /** A page that starts in front of the growth point and reaches past it: `pc` is the address in
      front of its last function. */
  ghost predicate Across(b: seq<byte>, base: nat, page: nat, gp: nat, pc: nat) {
    var n := Short(b, page + 6);
    && Word(b, page) == COMPRESSED && base < gp <= pc && n > 0
    && CompressedKey(b, base, page)(n - 1) == pc + 1
  }

  lemma AcrossWhenNotClear(b: seq<byte>, base: nat, page: nat, next: nat, gp: nat) returns (pc: nat)
    requires Telling(b, base, page, next) && !PageClear(b, base, page, gp)
    ensures Across(b, base, page, gp, pc) && pc < next
  {
    var key, n := CompressedKey(b, base, page), Short(b, page + 6);
    var j :| 0 <= j < n && key(j) > gp;
    assert j < n - 1 ==> key(j) < key(n - 1);
    pc := key(n - 1) - 1;
  }

  /** The page still has its old keys and encodings, so the moved address is found behind the last
      of them. */
  lemma AcrossPage(b: seq<byte>, c: seq<byte>, base: nat, page: nat, next: nat, fields: seq<nat>, gp: nat, delta: nat, pc: nat)
    requires SameOutside(b, c, fields) && PageApart(b, page, fields) && Word(c, 4) == Word(b, 4) && Word(c, 8) == Word(b, 8)
    requires CommonApart(b, fields)
    requires Telling(b, base, page, next) && Across(b, base, page, gp, pc) && delta > 0
    ensures PageLookup(b, base, page, pc) == LastCoding(b, page, Short(b, page + 6) - 1)
    ensures PageLookup(c, base, page, pc + delta) == LastCoding(b, page, Short(b, page + 6))
  {
    hide *;
    var n := Short(b, page + 6);
    AcrossKeys(b, base, page, gp, pc);
    LastEntryStays(b, c, page, fields);
    BeforeLastKey(b, base, page, next, gp, pc);
    LastKey(c, base, page, n, pc + delta);
    PageFinds(b, base, page, pc, n - 1);
    PageFinds(c, base, page, pc + delta, n);
  }

  lemma AcrossKeys(b: seq<byte>, base: nat, page: nat, gp: nat, pc: nat)
    requires Across(b, base, page, gp, pc)
    ensures Word(b, page) == COMPRESSED && base < gp <= pc && Short(b, page + 6) > 0
    ensures CompressedKey(b, base, page)(Short(b, page + 6) - 1) == pc + 1
    ensures base + EntryWord(b, page, Short(b, page + 6) - 1) % 0x100_0000 == pc + 1
  {
    hide Word, Short;
  }

  lemma LastKey(c: seq<byte>, base: nat, page: nat, n: nat, pc: nat)
    requires Word(c, page) == COMPRESSED && n > 0 && Short(c, page + 6) == n && base + EntryWord(c, page, n - 1) % 0x100_0000 <= pc
    ensures FoundInPage(c, base, page, pc, n)
  {
    hide Word, Short, FindLast;
    FindLastIs(CompressedKey(c, base, page), n, pc, n - 1);
  }

  lemma BeforeLastKey(b: seq<byte>, base: nat, page: nat, next: nat, gp: nat, pc: nat)
    requires Telling(b, base, page, next) && Across(b, base, page, gp, pc)
    ensures Short(b, page + 6) > 0 && FoundInPage(b, base, page, pc, Short(b, page + 6) - 1)
  {
    hide Word, Short, FindLast, LastCoding;
    FindBeforeLast(CompressedKey(b, base, page), Short(b, page + 6));
  }

  /** The shift leaves a compressed page's kind, its last entry and that entry's encoding. */
  lemma LastEntryStays(b: seq<byte>, c: seq<byte>, page: nat, fields: seq<nat>)
    requires SameOutside(b, c, fields) && PageApart(b, page, fields) && Word(c, 4) == Word(b, 4) && Word(c, 8) == Word(b, 8)
    requires CommonApart(b, fields)
    requires Word(b, page) == COMPRESSED && Short(b, page + 6) > 0
    ensures var n := Short(b, page + 6);
            && Word(c, page) == COMPRESSED && Short(c, page + 6) == n
            && EntryWord(c, page, n - 1) == EntryWord(b, page, n - 1) && LastCoding(c, page, n) == LastCoding(b, page, n)
  {
    hide Word, Short, EncodingAt;
    var n := Short(b, page + 6);
    PageHeaderWords(b, c, fields, page);
    SameWord(b, c, fields, page + Short(b, page + 4) + 4 * (n - 1));
    EncodingStays(b, c, fields, page, EntryWord(b, page, n - 1) / 0x100_0000);
  }

  /** Across the growth point the lookup goes wrong: the address in front of the page's last
      function is found as that function. */
  lemma AcrossMisses(b: seq<byte>, c: seq<byte>, l: Layout, gp: nat, delta: nat, i: nat, pc: nat)
    requires IsLayout(b, l) && FieldsMoved(b, c, Fields(l), gp, delta) && Apart(b, l) && Orderly(b, l) && delta > 0
    requires i + 1 < |l.entries| && l.entries[i].0 != 0
    requires Across(b, Word(b, l.header.indexOff + 12 * i), l.entries[i].0, gp, pc) && pc < Word(b, l.header.indexOff + 12 * (i + 1))
    ensures var page, n := l.entries[i].0, Short(b, l.entries[i].0 + 6);
            && n > 0
            && Lookup(b, pc) == LastCoding(b, page, n - 1) && Lookup(c, Phi(pc, gp, delta)) == LastCoding(b, page, n)
  {
    hide *;
    var indexOff, page, base := l.header.indexOff, l.entries[i].0, Word(b, l.header.indexOff + 12 * i);
    var next := AcrossSetting(b, c, l, gp, delta, i, pc);
    AcrossKeys(b, base, page, gp, pc);
    PhiValues(base, pc, gp, delta);
    AcrossPage(b, c, base, page, next, Fields(l), gp, delta, pc);
    LookupFinds(b, indexOff, |l.entries|, i, page, pc);
    LookupFinds(c, indexOff, |l.entries|, i, page, pc + delta);
  }

  lemma PhiValues(base: nat, pc: nat, gp: nat, delta: nat)
    requires base < gp <= pc
    ensures Phi(base, gp, delta) == base && Phi(pc, gp, delta) == pc + delta
  {}

  /** What both sections hold of index entry `i`, and that both find it. */
  lemma AcrossSetting(b: seq<byte>, c: seq<byte>, l: Layout, gp: nat, delta: nat, i: nat, pc: nat) returns (next: nat)
    requires IsLayout(b, l) && FieldsMoved(b, c, Fields(l), gp, delta) && Apart(b, l) && Orderly(b, l)
    requires i + 1 < |l.entries| && l.entries[i].0 != 0
    requires Across(b, Word(b, l.header.indexOff + 12 * i), l.entries[i].0, gp, pc) && pc < Word(b, l.header.indexOff + 12 * (i + 1))
    ensures var indexOff, page := l.header.indexOff, l.entries[i].0;
            && SameOutside(b, c, Fields(l)) && PageApart(b, page, Fields(l)) && Word(c, 4) == Word(b, 4) && Word(c, 8) == Word(b, 8)
            && CommonApart(b, Fields(l))
            && Telling(b, Word(b, indexOff + 12 * i), page, next)
            && Word(c, indexOff + 12 * i) == Phi(Word(b, indexOff + 12 * i), gp, delta)
            && FoundInIndex(b, indexOff, |l.entries|, i, page, pc)
            && FoundInIndex(c, indexOff, |l.entries|, i, page, Phi(pc, gp, delta))
  {
    hide Word, FindLast, IsLayout, Fields, Short, Telling, Phi, PageApart, Untouched;
    var indexOff, count := IndexMoved(b, c, l, gp, delta, pc);
    var key := IndexKey(b, indexOff);
    IndexEntryMoved(b, c, l, gp, delta, i);
    HeaderWords(b, c, l);
    next := key(i + 1);
    AcrossKeys(b, key(i), l.entries[i].0, gp, pc);
    IndexFinds(key, count, i, pc);
  }

  lemma IndexFinds(key: nat -> nat, count: nat, i: nat, pc: nat)
    requires Climbs(key, count) && i + 1 < count && key(i) <= pc < key(i + 1)
    ensures FindLast(key, count, pc) == Some(i)
  {
    forall j | i < j < count ensures key(j) > pc {
      assert j > i + 1 ==> key(i + 1) <= key(j);
    }
    FindLastIs(key, count, pc, i);
  }

  /** A compressed page in front of the sentinel that is not clear is entered in the index and tells
      its entries apart. */
  lemma PageNotClear(b: seq<byte>, l: Layout, gp: nat) returns (i: nat)
    requires Orderly(b, l) && !Clear(b, l, gp)
    ensures i + 1 < |l.entries| && l.entries[i].0 != 0 && !PageClear(b, Word(b, l.header.indexOff + 12 * i), l.entries[i].0, gp)
    ensures Telling(b, Word(b, l.header.indexOff + 12 * i), l.entries[i].0, Word(b, l.header.indexOff + 12 * (i + 1)))
  {
    hide Word, Telling;
    i :| 0 <= i < |l.entries| && l.entries[i].0 != 0 && !PageClear(b, Word(b, l.header.indexOff + 12 * i), l.entries[i].0, gp);
    var key := IndexKey(b, l.header.indexOff);
    assert Telling(b, key(i), l.entries[i].0, key(i + 1));
  }

  lemma LastDiffers(b: seq<byte>, base: nat, page: nat, next: nat)
    requires Telling(b, base, page, next) && Short(b, page + 6) > 0
    ensures LastCoding(b, page, Short(b, page + 6)) != LastCoding(b, page, Short(b, page + 6) - 1)
  {
    hide Word, Short, LastCoding;
  }

  lemma NotClearMisses(b: seq<byte>, c: seq<byte>, l: Layout, gp: nat, delta: nat) returns (pc: nat)
    requires IsLayout(b, l) && FieldsMoved(b, c, Fields(l), gp, delta) && Apart(b, l) && Orderly(b, l) && delta > 0
    requires !Clear(b, l, gp)
    ensures Lookup(c, Phi(pc, gp, delta)) != Lookup(b, pc)
  {
    hide *;
    var i := PageNotClear(b, l, gp);
    var base, next := Word(b, l.header.indexOff + 12 * i), Word(b, l.header.indexOff + 12 * (i + 1));
    pc := AcrossWhenNotClear(b, base, l.entries[i].0, next, gp);
    AcrossMisses(b, c, l, gp, delta, i, pc);
    LastDiffers(b, base, l.entries[i].0, next);
  }

  /** Every moved address finds what the address found before, if and only if no compressed page
      runs across the growth point. */
  lemma LookupExact(b: seq<byte>, l: Layout, gp: nat, delta: nat)
    requires IsLayout(b, l) && Disjoint(Fields(l)) && Apart(b, l) && Orderly(b, l) && delta > 0
    requires ShiftUnwind(b, gp, delta).Ok?
    ensures (forall pc: nat :: Lookup(ShiftUnwind(b, gp, delta).value, Phi(pc, gp, delta)) == Lookup(b, pc)) <==> Clear(b, l, gp)
  {
    assert Controlled(l.header.indexOff, l.entries, Fields(l));
    hide *;
    var c := ShiftUnwind(b, gp, delta).value;
    PassMovesFields(b, l, gp, delta);
    if Clear(b, l, gp) {
      forall pc: nat ensures Lookup(c, Phi(pc, gp, delta)) == Lookup(b, pc) {
        UnwindLookup.MovedLookup(b, c, l, gp, delta, pc);
      }
    } else {
      var pc := NotClearMisses(b, c, l, gp, delta);
    }
  }

  // ----- a section that goes wrong --------------------------------------

  /** Header; an index of one page from 0 and a sentinel at 64; the page: compressed, its two
      entries 12 bytes and its two encodings 20 bytes in, functions at 0 and 32 with encodings
      7 and 9. */
  function SplitPage(): seq<byte> {
    Words([1, 0, 0, 0, 0, 28, 2] + [0, 52, 80] + [64, 0, 80] + [3, 0x2_000C, 0x2_0014, 0, 0x100_0020, 7, 9])
  }

  lemma HalfReads(v: nat)
    ensures Le(v, 2) == [v % 256, v / 256 % 256] && FromLe(Le(v, 2)) == v % U16_LIMIT
  {
    assert Le(v / 256, 1) == [v / 256 % 256] + Le(v / 256 / 256, 0);
    assert Le(v, 2) == [v % 256] + Le(v / 256, 1);
    assert Le(v, 2)[1..] == Le(v / 256, 1) && Le(v / 256, 1)[1..] == [];
    assert FromLe(Le(v / 256, 1)) == v / 256 % 256;
  }

  lemma WordIsHalves(v: nat)
    ensures Le(v, 4) == Le(v, 2) + Le(v / 256 / 256, 2)
  {
    HalfReads(v);
    assert Le(v, 4) == [v % 256] + ([v / 256 % 256] + Le(v / 256 / 256, 2));
  }

  lemma WordAtReads(b: seq<byte>, at: nat, v: nat)
    requires HasAt(b, at, Le(v, 4)) && v < U32_LIMIT
    ensures Word(b, at) == v
  {
    U32ReadsBack(v);
  }

  lemma ShortAtReads(b: seq<byte>, at: nat, v: nat)
    requires HasAt(b, at, Le(v, 2))
    ensures Short(b, at) == v % U16_LIMIT
  {
    HalfReads(v);
  }

  lemma WordsRead(b: seq<byte>, ws: seq<nat>, k: nat)
    requires b == Words(ws) && k < |ws| && ws[k] < U32_LIMIT
    ensures Word(b, 4 * k) == ws[k] && Short(b, 4 * k) == ws[k] % U16_LIMIT && Short(b, 4 * k + 2) == ws[k] / U16_LIMIT
  {
    hide Word, Short, Le, FromLe, Words, HasAt;
    assert HasAt(b, 0, Words(ws)) by {
      WholeAt(b);
    }
    WordStands(b, 0, ws, k);
    WordAtReads(b, 4 * k, ws[k]);
    HalvesRead(b, 4 * k, ws[k]);
  }

  lemma WholeAt(b: seq<byte>)
    ensures HasAt(b, 0, b)
  {}

  lemma HalvesRead(b: seq<byte>, at: nat, v: nat)
    requires HasAt(b, at, Le(v, 4)) && v < U32_LIMIT
    ensures Short(b, at) == v % U16_LIMIT && Short(b, at + 2) == v / U16_LIMIT
  {
    hide Short, Le, HasAt;
    assert v / 256 / 256 == v / U16_LIMIT < U16_LIMIT;
    WordIsHalves(v);
    HasAtSplit(b, at, Le(v, 2), Le(v / 256 / 256, 2));
    ShortAtReads(b, at, v);
    ShortAtReads(b, at + 2, v / 256 / 256);
  }

  /** What the section's words are. */
  ghost predicate Sampled(b: seq<byte>) {
    && |b| == 80
    && Word(b, 0) == 1 && Word(b, 4) == Word(b, 8) == Word(b, 12) == Word(b, 16) == 0 && Word(b, 20) == 28 && Word(b, 24) == 2
    && Word(b, 28) == 0 && Word(b, 32) == 52 && Word(b, 36) == 80
    && Word(b, 40) == 64 && Word(b, 44) == 0 && Word(b, 48) == 80
    && Word(b, 52) == COMPRESSED && Short(b, 56) == 12 && Short(b, 58) == 2 && Short(b, 60) == 20 && Short(b, 62) == 2
    && Word(b, 64) == 0 && Word(b, 68) == 0x100_0020 && Word(b, 72) == 7 && Word(b, 76) == 9
  }

  ghost predicate WordIs(b: seq<byte>, ws: seq<nat>, k: nat) {
    && k < |ws| && Word(b, 4 * k) == ws[k]
    && Short(b, 4 * k) == ws[k] % U16_LIMIT && Short(b, 4 * k + 2) == ws[k] / U16_LIMIT
  }

  lemma SplitPageSampled()
    ensures Sampled(SplitPage())
  {
    var ws: seq<nat> := [1, 0, 0, 0, 0, 28, 2] + [0, 52, 80] + [64, 0, 80] + [3, 0x2_000C, 0x2_0014, 0, 0x100_0020, 7, 9];
    var b := SplitPage();
    assert |ws| == 20 && |b| == 80;
    hide Words, Word, Short, SplitPage, WordIs;
    forall k: nat | k < 20 ensures WordIs(b, ws, k) {
      WordsRead(b, ws, k);
      WordIsSo(b, ws, k);
    }
    SampledByWords(b, ws);
  }

  lemma WordIsSo(b: seq<byte>, ws: seq<nat>, k: nat)
    requires k < |ws| && Word(b, 4 * k) == ws[k] && Short(b, 4 * k) == ws[k] % U16_LIMIT && Short(b, 4 * k + 2) == ws[k] / U16_LIMIT
    ensures WordIs(b, ws, k)
  {}

  lemma SampledByWords(b: seq<byte>, ws: seq<nat>)
    requires |b| == 80 && forall k: nat :: k < 20 ==> WordIs(b, ws, k)
    requires ws == [1, 0, 0, 0, 0, 28, 2] + [0, 52, 80] + [64, 0, 80] + [3, 0x2_000C, 0x2_0014, 0, 0x100_0020, 7, 9]
    ensures Sampled(b)
  {
    hide Word, Short;
    assert WordIs(b, ws, 0) && WordIs(b, ws, 1) && WordIs(b, ws, 2) && WordIs(b, ws, 3) && WordIs(b, ws, 4);
    assert WordIs(b, ws, 5) && WordIs(b, ws, 6) && WordIs(b, ws, 7) && WordIs(b, ws, 8) && WordIs(b, ws, 9);
    assert WordIs(b, ws, 10) && WordIs(b, ws, 11) && WordIs(b, ws, 12) && WordIs(b, ws, 13) && WordIs(b, ws, 14);
    assert WordIs(b, ws, 15) && WordIs(b, ws, 16) && WordIs(b, ws, 17) && WordIs(b, ws, 18) && WordIs(b, ws, 19);
  }

  function SampleLayout(): Layout {
    Layout(Header(0, 0, 28, 2), [(52, 80), (0, 80)], [], [28, 40], [])
  }

  lemma ReadIsWord(b: seq<byte>, at: nat)
    requires at + 4 <= |b|
    ensures Read(b, at) == Ok(Word(b, at))
  {}

  lemma SampleHeader(b: seq<byte>)
    requires Sampled(b)
    ensures ReadHeader(b) == Ok(SampleLayout().header)
  {
    ReadIsWord(b, 0);
    ReadIsWord(b, 12);
    ReadIsWord(b, 16);
    ReadIsWord(b, 20);
    ReadIsWord(b, 24);
    hide Word, Read;
  }

  lemma NextEntry(b: seq<byte>, e: nat, count: nat, entry: (nat, nat), rest: seq<(nat, nat)>)
    requires Read(b, e + 4) == Ok(entry.0) && Read(b, e + 8) == Ok(entry.1) && ReadEntries(b, e + 12, count) == Ok(rest)
    ensures ReadEntries(b, e, count + 1) == Ok([entry] + rest)
  {}

  lemma SampleEntries(b: seq<byte>)
    requires Sampled(b)
    ensures ReadEntries(b, 28, 2) == Ok(SampleLayout().entries)
  {
    ReadIsWord(b, 32);
    ReadIsWord(b, 36);
    ReadIsWord(b, 44);
    ReadIsWord(b, 48);
    var none: seq<(nat, nat)>, last: seq<(nat, nat)> := [], [(0, 80)];
    assert ReadEntries(b, 52, 0) == Ok(none);
    NextEntry(b, 40, 0, (0, 80), none);
    assert [(0, 80)] + none == last;
    NextEntry(b, 28, 1, (52, 80), last);
    assert [(52, 80)] + last == SampleLayout().entries;
  }

  lemma NextFields(b: seq<byte>, e: nat, entry: (nat, nat), rest: seq<(nat, nat)>, first: seq<nat>, more: seq<nat>)
    requires EntryFields(b, e, entry.0) == Ok(first) && EntriesFields(b, e + 12, rest) == Ok(more)
    ensures EntriesFields(b, e, [entry] + rest) == Ok(first + more)
  {
    assert ([entry] + rest)[1..] == rest;
  }

  lemma SampleFields(b: seq<byte>)
    requires Sampled(b)
    ensures EntriesFields(b, 28, SampleLayout().entries) == Ok([28, 40])
  {
    ReadIsWord(b, 52);
    var none: seq<nat>, first: seq<nat>, more: seq<nat> := [], [28], [40];
    var end: seq<(nat, nat)>, last: seq<(nat, nat)> := [], [(0, 80)];
    assert PageFields(b, 52) == Ok(none);
    assert EntriesFields(b, 52, end) == Ok(none);
    assert EntryFields(b, 40, 0) == Ok(more);
    NextFields(b, 40, (0, 80), end, more, none);
    assert [(0, 80)] + end == last && more + none == more;
    assert EntryFields(b, 28, 52) == Ok(first) by {
      assert first + none == first;
    }
    NextFields(b, 28, (52, 80), last, first, more);
    assert [(52, 80)] + last == SampleLayout().entries && first + more == [28, 40];
  }

  lemma SampleIsLayout(b: seq<byte>)
    requires Sampled(b)
    ensures IsLayout(b, SampleLayout())
  {
    SampleHeader(b);
    SampleEntries(b);
    SampleFields(b);
    hide Sampled;
  }

  /** The section's fields are the two functions of its index; nothing else overlaps them. */
  lemma SampleApart(b: seq<byte>)
    requires Sampled(b)
    ensures Apart(b, SampleLayout()) && Disjoint(Fields(SampleLayout()))
    ensures Controlled(28, SampleLayout().entries, Fields(SampleLayout()))
  {
    var l := SampleLayout();
    assert Fields(l) == [28, 40];
    assert EntriesControlled(52, l.entries[1..][1..], [28, 40]);
    assert EntriesControlled(40, l.entries[1..], [28, 40]);
    hide Word, Short;
    assert PageApart(b, 52, Fields(l));
  }

  lemma SampleOrderly(b: seq<byte>)
    requires Sampled(b)
    ensures Orderly(b, SampleLayout()) && Across(b, 0, 52, 16, 31)
    ensures LastCoding(b, 52, 1) == Some(7) && LastCoding(b, 52, 2) == Some(9)
  {
    hide Word, Short;
    var key := CompressedKey(b, 0, 52);
    assert key(0) == 0 && key(1) == 32;
    assert LastCoding(b, 52, 0) == None && LastCoding(b, 52, 1) == Some(7) && LastCoding(b, 52, 2) == Some(9);
    assert Telling(b, 0, 52, 64);
  }

  lemma SampleShifts(b: seq<byte>)
    requires Sampled(b)
    ensures ShiftUnwind(b, 16, 16).Ok?
  {
    var l := SampleLayout();
    SampleIsLayout(b);
    SampleApart(b);
    PassIsList(b, l, 16, 16);
    ReadIsWord(b, 28);
    ReadIsWord(b, 40);
    hide Word, Short, FromLe, Apart, IsLayout;
    var ats: seq<nat> := [28, 40];
    assert ShiftAt(b, 28, 16, 16) == Ok(b) && ShiftAt(b, 40, 16, 16).Ok?;
    assert ats[1..] == [40] && ats[1..][1..] == [];
    assert ShiftList(b, ats[1..], 16, 16).Ok?;
  }

  /** Growing by 16 at 16: the last address in front of the function at 32 had encoding 7. Its new
      address is found in that function, with encoding 9. */
  lemma SplitPageMisses()
    ensures var b := SplitPage();
            && ShiftUnwind(b, 16, 16).Ok? && Lookup(b, 31) == Some(7)
            && Lookup(ShiftUnwind(b, 16, 16).value, Phi(31, 16, 16)) == Some(9)
  {
    hide *;
    var b, l := SplitPage(), SampleLayout();
    SplitPageSampled();
    SampleIsLayout(b);
    SampleApart(b);
    SampleOrderly(b);
    SampleShifts(b);
    SampleValues(b);
    PassMovesFields(b, l, 16, 16);
    AcrossMisses(b, ShiftUnwind(b, 16, 16).value, l, 16, 16, 0, 31);
  }

  lemma SampleValues(b: seq<byte>)
    requires Sampled(b)
    ensures var l := SampleLayout();
            && l.header.indexOff == 28 && |l.entries| == 2 && l.entries[0].0 == 52
            && Word(b, 28 + 12 * 0) == 0 && Word(b, 28 + 12 * 1) == 64 && Short(b, 52 + 6) == 2
  {
    hide Word, Short;
  }
}
