/** Unwind lookup commutes with the shift: after growth, the moved program counter finds the
    encoding the old one found. */
module UnwindLookup {
  import opened Bytes
  import opened Growth
  import opened UnwindInfo

  // ----- the fields that move -------------------------------------------

  function EntryFields(b: seq<byte>, e: nat, page: nat): Result<seq<nat>, UnwindError> {
    if page == 0 then Ok([e])
    else
      match PageFields(b, page)
      case Err(x) => Err(x)
      case Ok(fields) => Ok([e] + fields)
  }

  function EntriesFields(b: seq<byte>, e: nat, entries: seq<(nat, nat)>): Result<seq<nat>, UnwindError>
    decreases |entries|
  {
    if entries == [] then Ok([])
    else
      match EntryFields(b, e, entries[0].0)
      case Err(x) => Err(x)
      case Ok(first) =>
        match EntriesFields(b, e + 12, entries[1..])
        case Err(x) => Err(x)
        case Ok(rest) => Ok(first + rest)
  }

  /** Where the absolute image offsets of a section stand. */
  datatype Layout = Layout(header: Header, entries: seq<(nat, nat)>, personalities: seq<nat>, index: seq<nat>, lsdas: seq<nat>)

  function Fields(l: Layout): seq<nat> { l.personalities + l.index + l.lsdas }

  ghost predicate IsLayout(b: seq<byte>, l: Layout) {
    && ReadHeader(b) == Ok(l.header)
    && ReadEntries(b, l.header.indexOff, l.header.indexCount) == Ok(l.entries)
    && l.personalities == Strided(l.header.personalityOff, 4, l.header.personalityCount)
    && EntriesFields(b, l.header.indexOff, l.entries) == Ok(l.index)
    && LsdaFields(l.entries) == Ok(l.lsdas)
  }

  // ----- what a list of shifts does -------------------------------------

  ghost predicate Outside(fields: seq<nat>, k: nat) {
    forall p :: p in fields ==> k < p || p + 4 <= k
  }

  /** No field overlaps the `len` bytes at `at`. */
  ghost predicate Untouched(fields: seq<nat>, at: nat, len: nat) {
    forall p :: p in fields ==> p + 4 <= at || at + len <= p
  }

  /** The two sections differ at most inside the fields. */
  ghost predicate SameOutside(b: seq<byte>, c: seq<byte>, fields: seq<nat>) {
    |b| == |c| && forall k :: 0 <= k < |b| && Outside(fields, k) ==> c[k] == b[k]
  }

  lemma SameSlice(b: seq<byte>, c: seq<byte>, fields: seq<nat>, at: nat, len: nat, from: nat, to: nat)
    requires SameOutside(b, c, fields) && Untouched(fields, at, len) && at <= from <= to <= at + len && to <= |b|
    ensures c[from..to] == b[from..to]
  {
    forall k | from <= k < to ensures c[k] == b[k] {
      assert Outside(fields, k);
    }
  }

  lemma ShiftAtKeeps(b: seq<byte>, at: nat, fields: seq<nat>, gp: nat, delta: nat)
    requires ShiftAt(b, at, gp, delta).Ok? && at in fields
    ensures SameOutside(b, ShiftAt(b, at, gp, delta).value, fields)
  {
    var next := ShiftAt(b, at, gp, delta).value;
    forall k | 0 <= k < |b| && Outside(fields, k) ensures next[k] == b[k] {
      assert k < at || at + 4 <= k;
    }
  }

  lemma {:induction false} ListKeepsOutside(b: seq<byte>, ats: seq<nat>, fields: seq<nat>, gp: nat, delta: nat)
    requires ShiftList(b, ats, gp, delta).Ok? && forall p :: p in ats ==> p in fields
    ensures SameOutside(b, ShiftList(b, ats, gp, delta).value, fields)
    decreases |ats|
  {
    if ats != [] {
      var next := ShiftAt(b, ats[0], gp, delta).value;
      ShiftAtKeeps(b, ats[0], fields, gp, delta);
      ListKeepsOutside(next, ats[1..], fields, gp, delta);
    }
  }

  lemma {:induction false} ListOfSum(b: seq<byte>, x: seq<nat>, y: seq<nat>, gp: nat, delta: nat)
    ensures var first := ShiftList(b, x, gp, delta);
            && (first.Err? ==> ShiftList(b, x + y, gp, delta) == first)
            && (first.Ok? ==> ShiftList(b, x + y, gp, delta) == ShiftList(first.value, y, gp, delta))
    decreases |x|
  {
    if x == [] {
      assert x + y == y;
    } else {
      assert (x + y)[1..] == x[1..] + y;
      var next := ShiftAt(b, x[0], gp, delta);
      if next.Ok? {
        ListOfSum(next.value, x[1..], y, gp, delta);
      }
    }
  }

  ghost predicate Disjoint(fields: seq<nat>) {
    forall i, j :: 0 <= i < j < |fields| ==> fields[i] + 4 <= fields[j] || fields[j] + 4 <= fields[i]
  }

  function Word(b: seq<byte>, at: nat): nat { if at + 4 <= |b| then FromLe(b[at..at + 4]) else 0 }

  function Short(b: seq<byte>, at: nat): nat { if at + 2 <= |b| then FromLe(b[at..at + 2]) else 0 }

  lemma ShiftAtWord(b: seq<byte>, at: nat, gp: nat, delta: nat)
    requires ShiftAt(b, at, gp, delta).Ok?
    ensures at + 4 <= |b| && Word(ShiftAt(b, at, gp, delta).value, at) == Phi(Word(b, at), gp, delta)
  {
    var next := ShiftAt(b, at, gp, delta).value;
    var v := Word(b, at);
    if v >= gp {
      assert next[at..at + 4] == Le(v + delta, 4);
      Pow256Values();
      FromLeOfLe(v + delta, 4);
    }
  }

  /** With disjoint fields each one moves exactly once. */
  lemma {:induction false} ListMovesOnce(b: seq<byte>, ats: seq<nat>, gp: nat, delta: nat, i: nat)
    requires Disjoint(ats) && ShiftList(b, ats, gp, delta).Ok? && i < |ats|
    ensures ats[i] + 4 <= |b| && Word(ShiftList(b, ats, gp, delta).value, ats[i]) == Phi(Word(b, ats[i]), gp, delta)
    decreases |ats|
  {
    var next := ShiftAt(b, ats[0], gp, delta).value;
    var rest := ats[1..];
    assert Disjoint(rest) by {
      assert forall k :: 0 <= k < |rest| ==> rest[k] == ats[k + 1];
    }
    var done := ShiftList(next, rest, gp, delta).value;
    if i == 0 {
      ShiftAtWord(b, ats[0], gp, delta);
      ListKeepsOutside(next, rest, rest, gp, delta);
      assert Untouched(rest, ats[0], 4);
      SameSlice(next, done, rest, ats[0], 4, ats[0], ats[0] + 4);
    } else {
      ListMovesOnce(next, rest, gp, delta, i - 1);
      ShiftAtKeeps(b, ats[0], [ats[0]], gp, delta);
      assert Untouched([ats[0]], ats[i], 4);
      SameSlice(b, next, [ats[0]], ats[i], 4, ats[i], ats[i] + 4);
    }
  }

  // ----- the pass is one list of shifts ---------------------------------

  ghost predicate EntryControlled(e: nat, page: nat, fields: seq<nat>) {
    Untouched(fields, e + 4, 8) && (page != 0 ==> Untouched(fields, page, 8))
  }

  ghost predicate EntriesControlled(e: nat, entries: seq<(nat, nat)>, fields: seq<nat>)
    decreases |entries|
  {
    entries == [] || (EntryControlled(e, entries[0].0, fields) && EntriesControlled(e + 12, entries[1..], fields))
  }

  /** No field overlaps the header, an index entry's two section offsets or a page header. */
  ghost predicate Controlled(indexOff: nat, entries: seq<(nat, nat)>, fields: seq<nat>) {
    Untouched(fields, 0, 28) && EntriesControlled(indexOff, entries, fields)
  }

  lemma {:induction false} EntryIsControlled(e: nat, entries: seq<(nat, nat)>, fields: seq<nat>, i: nat)
    requires EntriesControlled(e, entries, fields) && i < |entries|
    ensures EntryControlled(e + 12 * i, entries[i].0, fields)
    decreases |entries|
  {
    if i > 0 {
      EntryIsControlled(e + 12, entries[1..], fields, i - 1);
    }
  }

  lemma SameRead(b: seq<byte>, c: seq<byte>, fields: seq<nat>, at: nat, len: nat, k: nat)
    requires SameOutside(b, c, fields) && Untouched(fields, at, len) && at <= k
    ensures k + 4 <= at + len ==> Read(c, k) == Read(b, k) && Word(c, k) == Word(b, k)
    ensures k + 2 <= at + len ==> Half(c, k) == Half(b, k) && Short(c, k) == Short(b, k)
  {
    if k + 4 <= at + len && k + 4 <= |b| {
      SameSlice(b, c, fields, at, len, k, k + 4);
    }
    if k + 2 <= at + len && k + 2 <= |b| {
      SameSlice(b, c, fields, at, len, k, k + 2);
    }
  }

  lemma SamePage(b: seq<byte>, c: seq<byte>, fields: seq<nat>, page: nat)
    requires SameOutside(b, c, fields) && Untouched(fields, page, 8)
    ensures PageFields(c, page) == PageFields(b, page)
  {
    SameRead(b, c, fields, page, 8, page);
    SameRead(b, c, fields, page, 8, page + 4);
    SameRead(b, c, fields, page, 8, page + 6);
  }

  lemma {:induction false} SameEntries(b: seq<byte>, c: seq<byte>, fields: seq<nat>, e: nat, count: nat)
    requires SameOutside(b, c, fields) && ReadEntries(b, e, count).Ok?
    requires EntriesControlled(e, ReadEntries(b, e, count).value, fields)
    ensures ReadEntries(c, e, count) == ReadEntries(b, e, count)
    decreases count
  {
    if count > 0 {
      var entries := ReadEntries(b, e, count).value;
      assert entries[1..] == ReadEntries(b, e + 12, count - 1).value;
      SameRead(b, c, fields, e + 4, 8, e + 4);
      SameRead(b, c, fields, e + 4, 8, e + 8);
      SameEntries(b, c, fields, e + 12, count - 1);
    }
  }

  lemma SameTrans(a: seq<byte>, b: seq<byte>, c: seq<byte>, fields: seq<nat>)
    requires SameOutside(a, b, fields) && SameOutside(b, c, fields)
    ensures SameOutside(a, c, fields)
  {}

  /** One entry's pass, seen from the original section. */
  lemma EntryStatic(b: seq<byte>, cur: seq<byte>, e: nat, page: nat, fields: seq<nat>, gp: nat, delta: nat)
    requires SameOutside(b, cur, fields) && EntryControlled(e, page, fields)
    requires EntryFields(b, e, page).Ok? && forall p :: p in EntryFields(b, e, page).value ==> p in fields
    ensures ShiftEntry(cur, e, page, gp, delta) == ShiftList(cur, EntryFields(b, e, page).value, gp, delta)
  {
    var mine := EntryFields(b, e, page).value;
    assert mine[0] == e && e in fields;
    ListOfSum(cur, [e], mine[1..], gp, delta);
    assert mine == [e] + mine[1..];
    assert [e][1..] == [];
    var next := ShiftAt(cur, e, gp, delta);
    if next.Ok? && page != 0 {
      assert ShiftList(cur, [e], gp, delta) == next;
      ListKeepsOutside(cur, [e], fields, gp, delta);
      SameTrans(b, cur, next.value, fields);
      SamePage(b, next.value, fields, page);
    }
  }

  lemma {:induction false} EntriesStatic(b: seq<byte>, cur: seq<byte>, e: nat, entries: seq<(nat, nat)>, fields: seq<nat>, gp: nat, delta: nat)
    requires SameOutside(b, cur, fields) && EntriesControlled(e, entries, fields)
    requires EntriesFields(b, e, entries).Ok? && forall p :: p in EntriesFields(b, e, entries).value ==> p in fields
    ensures ShiftEntries(cur, e, entries, gp, delta) == ShiftList(cur, EntriesFields(b, e, entries).value, gp, delta)
    decreases |entries|
  {
    if entries != [] {
      var first, rest := EntryFields(b, e, entries[0].0).value, EntriesFields(b, e + 12, entries[1..]).value;
      assert forall p :: p in first ==> p in first + rest;
      assert forall p :: p in rest ==> p in first + rest;
      EntryStatic(b, cur, e, entries[0].0, fields, gp, delta);
      ListOfSum(cur, first, rest, gp, delta);
      var next := ShiftList(cur, first, gp, delta);
      if next.Ok? {
        ListKeepsOutside(cur, first, fields, gp, delta);
        SameTrans(b, cur, next.value, fields);
        EntriesStatic(b, next.value, e + 12, entries[1..], fields, gp, delta);
      }
    }
  }

  /** If no field overlaps the control words the pass reads, it is exactly the list of
      shifts of the fields found in the original section. */
  lemma PassIsList(b: seq<byte>, l: Layout, gp: nat, delta: nat)
    requires IsLayout(b, l) && Controlled(l.header.indexOff, l.entries, Fields(l))
    ensures ShiftUnwind(b, gp, delta) == ShiftList(b, Fields(l), gp, delta)
  {
    hide ShiftAt, ShiftEntries, ReadEntries, EntriesFields, Strided, SameOutside, Untouched, LsdaFields, EntriesControlled;
    var all := Fields(l);
    assert forall p :: p in l.personalities ==> p in all;
    assert forall p :: p in l.index ==> p in all;
    ListOfSum(b, l.personalities, l.index + l.lsdas, gp, delta);
    assert all == l.personalities + (l.index + l.lsdas);
    var next := ShiftList(b, l.personalities, gp, delta);
    if next.Ok? {
      ListKeepsOutside(b, l.personalities, all, gp, delta);
      SameEntries(b, next.value, all, l.header.indexOff, l.header.indexCount);
      EntriesStatic(b, next.value, l.header.indexOff, l.entries, all, gp, delta);
      ListOfSum(next.value, l.index, l.lsdas, gp, delta);
    }
  }

  // ----- looking up an address ------------------------------------------

  /** The last of `n` keys at most `pc`. */
  function FindLast(key: nat -> nat, n: nat, pc: nat): (r: Option<nat>)
    ensures r.Some? ==> r.value < n && key(r.value) <= pc && forall j :: r.value < j < n ==> key(j) > pc
    ensures r.None? ==> forall j :: 0 <= j < n ==> key(j) > pc
  {
    if n == 0 then None else if key(n - 1) <= pc then Some(n - 1) else FindLast(key, n - 1, pc)
  }

  lemma {:induction false} FindLastAgrees(f: nat -> nat, g: nat -> nat, n: nat, pc: nat, qc: nat)
    requires forall j :: 0 <= j < n ==> (f(j) <= pc <==> g(j) <= qc)
    ensures FindLast(f, n, pc) == FindLast(g, n, qc)
  {
    if n > 0 {
      FindLastAgrees(f, g, n - 1, pc, qc);
    }
  }

  function IndexKey(b: seq<byte>, indexOff: nat): nat -> nat { i => Word(b, indexOff + 12 * i) }

  function RegularKey(b: seq<byte>, page: nat): nat -> nat { j => Word(b, page + Short(b, page + 4) + 8 * j) }

  /** Compressed entries are 24-bit offsets from the index entry's function. */
  function CompressedKey(b: seq<byte>, base: nat, page: nat): nat -> nat {
    j => base + Word(b, page + Short(b, page + 4) + 4 * j) % 0x100_0000
  }

  /** An encoding by its 8-bit number: first the common ones, then the page's own. */
  function EncodingAt(b: seq<byte>, page: nat, number: nat): Option<nat> {
    var common := Word(b, 8);
    if number < common then Some(Word(b, Word(b, 4) + 4 * number))
    else if number - common < Short(b, page + 10) then Some(Word(b, page + Short(b, page + 8) + 4 * (number - common)))
    else None
  }

  /** The unwind encoding of `pc` inside the page of an index entry. */
  function PageLookup(b: seq<byte>, base: nat, page: nat, pc: nat): Option<nat> {
    var first, count := Short(b, page + 4), Short(b, page + 6);
    if Word(b, page) == REGULAR then
      match FindLast(RegularKey(b, page), count, pc)
      case None => None
      case Some(j) => Some(Word(b, page + first + 8 * j + 4))
    else if Word(b, page) == COMPRESSED then
      match FindLast(CompressedKey(b, base, page), count, pc)
      case None => None
      case Some(j) => EncodingAt(b, page, Word(b, page + first + 4 * j) / 0x100_0000)
    else None
  }

  /** What an unwinder finds for the image offset `pc`; the last index entry is a sentinel. */
  function Lookup(b: seq<byte>, pc: nat): Option<nat> {
    var indexOff, count := Word(b, 20), Word(b, 24);
    match FindLast(IndexKey(b, indexOff), count, pc)
    case None => None
    case Some(i) =>
      var page := Word(b, indexOff + 12 * i + 4);
      if i + 1 == count || page == 0 then None else PageLookup(b, Word(b, indexOff + 12 * i), page, pc)
  }

  // ----- well-formed sections -------------------------------------------

  /** The page's own words are no field. */
  ghost predicate PageApart(b: seq<byte>, page: nat, fields: seq<nat>) {
    var first, count := Short(b, page + 4), Short(b, page + 6);
    && (Word(b, page) == REGULAR ==> forall j :: 0 <= j < count ==> Untouched(fields, page + first + 8 * j + 4, 4))
    && (Word(b, page) == COMPRESSED ==>
          && Untouched(fields, page, 12)
          && (forall j :: 0 <= j < count ==> Untouched(fields, page + first + 4 * j, 4))
          && (forall k :: 0 <= k < Short(b, page + 10) ==> Untouched(fields, page + Short(b, page + 8) + 4 * k, 4)))
  }

  /** No compressed function lies past the growth point when the page starts in front of it. */
  ghost predicate PageClear(b: seq<byte>, base: nat, page: nat, gp: nat) {
    Word(b, page) == COMPRESSED ==>
      base >= gp || forall j :: 0 <= j < Short(b, page + 6) ==> CompressedKey(b, base, page)(j) <= gp
  }

  /** No header, page, entry or encoding overlaps a field. */
  ghost predicate Apart(b: seq<byte>, l: Layout) {
    var fields := Fields(l);
    && Controlled(l.header.indexOff, l.entries, fields)
    && (forall k :: 0 <= k < Word(b, 8) ==> Untouched(fields, Word(b, 4) + 4 * k, 4))
    && forall i {:trigger l.entries[i]} :: 0 <= i < |l.entries| && l.entries[i].0 != 0 ==> PageApart(b, l.entries[i].0, fields)
  }

  ghost predicate Clear(b: seq<byte>, l: Layout, gp: nat) {
    forall i {:trigger l.entries[i]} :: 0 <= i < |l.entries| && l.entries[i].0 != 0 ==>
      PageClear(b, Word(b, l.header.indexOff + 12 * i), l.entries[i].0, gp)
  }

  /** The section `c` is `b` with every field moved. */
  ghost predicate FieldsMoved(b: seq<byte>, c: seq<byte>, fields: seq<nat>, gp: nat, delta: nat) {
    && SameOutside(b, c, fields)
    && forall p :: p in fields ==> Word(c, p) == Phi(Word(b, p), gp, delta)
  }

  lemma PassMovesFields(b: seq<byte>, l: Layout, gp: nat, delta: nat)
    requires IsLayout(b, l) && Controlled(l.header.indexOff, l.entries, Fields(l)) && Disjoint(Fields(l))
    requires ShiftUnwind(b, gp, delta).Ok?
    ensures FieldsMoved(b, ShiftUnwind(b, gp, delta).value, Fields(l), gp, delta)
  {
    PassIsList(b, l, gp, delta);
    ListKeepsOutside(b, Fields(l), Fields(l), gp, delta);
    forall p | p in Fields(l) ensures Word(ShiftUnwind(b, gp, delta).value, p) == Phi(Word(b, p), gp, delta) {
      var i :| 0 <= i < |Fields(l)| && Fields(l)[i] == p;
      ListMovesOnce(b, Fields(l), gp, delta, i);
    }
  }

  // ----- where the keys are ---------------------------------------------

  lemma {:induction false} StridedHas(at: nat, step: nat, count: nat, k: nat)
    requires k < count
    ensures at + k * step in Strided(at, step, count)
    decreases count
  {
    if k > 0 {
      StridedHas(at + step, step, count - 1, k - 1);
      assert at + step + (k - 1) * step == at + k * step;
    }
  }

  lemma {:induction false} EntriesAt(b: seq<byte>, e: nat, count: nat, i: nat)
    requires ReadEntries(b, e, count).Ok? && i < count
    ensures ReadEntries(b, e, count).value[i] == (Word(b, e + 12 * i + 4), Word(b, e + 12 * i + 8))
    decreases count
  {
    if i > 0 {
      EntriesAt(b, e + 12, count - 1, i - 1);
    }
  }

  /** Entry `i`'s function offset and its regular page's function offsets are fields. */
  lemma {:induction false} EntryKeysAreFields(b: seq<byte>, e: nat, entries: seq<(nat, nat)>, i: nat)
    requires EntriesFields(b, e, entries).Ok? && i < |entries|
    ensures EntryFields(b, e + 12 * i, entries[i].0).Ok?
    ensures forall p :: p in EntryFields(b, e + 12 * i, entries[i].0).value ==> p in EntriesFields(b, e, entries).value
    decreases |entries|
  {
    if i > 0 {
      EntryKeysAreFields(b, e + 12, entries[1..], i - 1);
    }
  }

  lemma RegularKeyIsField(b: seq<byte>, e: nat, page: nat, j: nat)
    requires EntryFields(b, e, page).Ok? && page != 0 && Word(b, page) == REGULAR && j < Short(b, page + 6)
    ensures page + Short(b, page + 4) + 8 * j in EntryFields(b, e, page).value
  {
    StridedHas(page + Short(b, page + 4), 8, Short(b, page + 6), j);
    assert EntryFields(b, e, page).value == [e] + Strided(page + Short(b, page + 4), 8, Short(b, page + 6));
  }

  lemma FieldsOfEntry(b: seq<byte>, l: Layout, i: nat)
    requires IsLayout(b, l) && i < |l.entries|
    ensures EntryFields(b, l.header.indexOff + 12 * i, l.entries[i].0).Ok?
    ensures forall p :: p in EntryFields(b, l.header.indexOff + 12 * i, l.entries[i].0).value ==> p in Fields(l)
  {
    EntryKeysAreFields(b, l.header.indexOff, l.entries, i);
    assert forall p :: p in l.index ==> p in Fields(l);
  }

  lemma IndexKeyIsField(b: seq<byte>, l: Layout, i: nat)
    requires IsLayout(b, l) && i < |l.entries|
    ensures l.header.indexOff + 12 * i in Fields(l)
  {
    FieldsOfEntry(b, l, i);
    assert EntryFields(b, l.header.indexOff + 12 * i, l.entries[i].0).value[0] == l.header.indexOff + 12 * i;
  }

  // ----- the lookup commutes --------------------------------------------

  lemma PhiMono(a: nat, pc: nat, gp: nat, delta: nat)
    ensures Phi(a, gp, delta) <= Phi(pc, gp, delta) <==> a <= pc
  {}

  lemma SameWord(b: seq<byte>, c: seq<byte>, fields: seq<nat>, at: nat)
    requires SameOutside(b, c, fields) && Untouched(fields, at, 4)
    ensures Word(c, at) == Word(b, at)
  {
    SameRead(b, c, fields, at, 4, at);
  }

  lemma HeaderWords(b: seq<byte>, c: seq<byte>, l: Layout)
    requires IsLayout(b, l) && SameOutside(b, c, Fields(l)) && Untouched(Fields(l), 0, 28)
    ensures Word(c, 4) == Word(b, 4) && Word(c, 8) == Word(b, 8)
    ensures Word(c, 20) == Word(b, 20) == l.header.indexOff && Word(c, 24) == Word(b, 24) == l.header.indexCount
  {
    SameRead(b, c, Fields(l), 0, 28, 4);
    SameRead(b, c, Fields(l), 0, 28, 8);
    SameRead(b, c, Fields(l), 0, 28, 20);
    SameRead(b, c, Fields(l), 0, 28, 24);
  }

  lemma PageHeaderWords(b: seq<byte>, c: seq<byte>, fields: seq<nat>, page: nat)
    requires SameOutside(b, c, fields) && Untouched(fields, page, 8)
    ensures Word(c, page) == Word(b, page) && Short(c, page + 4) == Short(b, page + 4) && Short(c, page + 6) == Short(b, page + 6)
  {
    SameRead(b, c, fields, page, 8, page);
    SameRead(b, c, fields, page, 8, page + 4);
    SameRead(b, c, fields, page, 8, page + 6);
  }

  /** A compressed function address moves with its code exactly when its page's base moves
      or it lies before the growth point itself. */
  lemma CompressedKeyMoves(base: nat, relative: nat, gp: nat, delta: nat)
    requires delta > 0
    ensures Phi(base, gp, delta) + relative == Phi(base + relative, gp, delta) <==> base >= gp || base + relative < gp
  {}

  lemma EncodingStays(b: seq<byte>, c: seq<byte>, fields: seq<nat>, page: nat, number: nat)
    requires SameOutside(b, c, fields) && Untouched(fields, page, 12) && Word(c, 4) == Word(b, 4) && Word(c, 8) == Word(b, 8)
    requires forall k :: 0 <= k < Word(b, 8) ==> Untouched(fields, Word(b, 4) + 4 * k, 4)
    requires forall k :: 0 <= k < Short(b, page + 10) ==> Untouched(fields, page + Short(b, page + 8) + 4 * k, 4)
    ensures EncodingAt(c, page, number) == EncodingAt(b, page, number)
  {
    SameRead(b, c, fields, page, 12, page + 8);
    SameRead(b, c, fields, page, 12, page + 10);
    var common := Word(b, 8);
    if number < common {
      SameWord(b, c, fields, Word(b, 4) + 4 * number);
    } else if number - common < Short(b, page + 10) {
      SameWord(b, c, fields, page + Short(b, page + 8) + 4 * (number - common));
    }
  }

  lemma RegularKeys(b: seq<byte>, c: seq<byte>, page: nat, fields: seq<nat>, gp: nat, delta: nat, pc: nat)
    requires FieldsMoved(b, c, fields, gp, delta) && Short(c, page + 4) == Short(b, page + 4)
    requires forall j: nat :: j < Short(b, page + 6) ==> page + Short(b, page + 4) + 8 * j in fields
    ensures FindLast(RegularKey(c, page), Short(b, page + 6), Phi(pc, gp, delta)) == FindLast(RegularKey(b, page), Short(b, page + 6), pc)
  {
    var f, g := RegularKey(b, page), RegularKey(c, page);
    forall j: nat | j < Short(b, page + 6) ensures f(j) <= pc <==> g(j) <= Phi(pc, gp, delta) {
      RegularKeyMoves(b, c, page, fields, gp, delta, j);
      PhiMono(f(j), pc, gp, delta);
    }
    hide RegularKey, FieldsMoved, Word, Short, FindLast;
    FindLastAgrees(f, g, Short(b, page + 6), pc, Phi(pc, gp, delta));
  }

  lemma RegularKeyMoves(b: seq<byte>, c: seq<byte>, page: nat, fields: seq<nat>, gp: nat, delta: nat, j: nat)
    requires FieldsMoved(b, c, fields, gp, delta) && Short(c, page + 4) == Short(b, page + 4)
    requires page + Short(b, page + 4) + 8 * j in fields
    ensures RegularKey(c, page)(j) == Phi(RegularKey(b, page)(j), gp, delta)
  {}

  /** Two regular pages that find the same entry, with the same encoding word, agree. */
  lemma RegularAgree(b: seq<byte>, c: seq<byte>, base: nat, newBase: nat, page: nat, pc: nat, newPc: nat)
    requires Word(b, page) == Word(c, page) == REGULAR
    requires Short(c, page + 4) == Short(b, page + 4) && Short(c, page + 6) == Short(b, page + 6)
    requires FindLast(RegularKey(c, page), Short(b, page + 6), newPc) == FindLast(RegularKey(b, page), Short(b, page + 6), pc)
    requires var found := FindLast(RegularKey(b, page), Short(b, page + 6), pc);
             found.Some? ==>
               Word(c, page + Short(b, page + 4) + 8 * found.value + 4) == Word(b, page + Short(b, page + 4) + 8 * found.value + 4)
    ensures PageLookup(c, newBase, page, newPc) == PageLookup(b, base, page, pc)
  {}

  lemma RegularCommutes(b: seq<byte>, c: seq<byte>, base: nat, page: nat, fields: seq<nat>, gp: nat, delta: nat, pc: nat)
    requires FieldsMoved(b, c, fields, gp, delta) && Untouched(fields, page, 8) && Word(b, page) == REGULAR
    requires PageApart(b, page, fields) && PageClear(b, base, page, gp)
    requires forall j: nat :: j < Short(b, page + 6) ==> page + Short(b, page + 4) + 8 * j in fields
    ensures PageLookup(c, Phi(base, gp, delta), page, Phi(pc, gp, delta)) == PageLookup(b, base, page, pc)
  {
    hide PageLookup, FindLast;
    PageHeaderWords(b, c, fields, page);
    RegularKeys(b, c, page, fields, gp, delta, pc);
    var found := FindLast(RegularKey(b, page), Short(b, page + 6), pc);
    if found.Some? {
      SameWord(b, c, fields, page + Short(b, page + 4) + 8 * found.value + 4);
    }
    RegularAgree(b, c, base, Phi(base, gp, delta), page, pc, Phi(pc, gp, delta));
  }

  lemma CompressedKeys(b: seq<byte>, c: seq<byte>, base: nat, page: nat, fields: seq<nat>, gp: nat, delta: nat, pc: nat)
    requires FieldsMoved(b, c, fields, gp, delta) && Word(b, page) == COMPRESSED
    requires PageApart(b, page, fields) && PageClear(b, base, page, gp) && Short(c, page + 4) == Short(b, page + 4)
    ensures FindLast(CompressedKey(c, Phi(base, gp, delta), page), Short(b, page + 6), Phi(pc, gp, delta))
            == FindLast(CompressedKey(b, base, page), Short(b, page + 6), pc)
  {
    var first, count := Short(b, page + 4), Short(b, page + 6);
    var f, g := CompressedKey(b, base, page), CompressedKey(c, Phi(base, gp, delta), page);
    forall j | 0 <= j < count ensures f(j) <= pc <==> g(j) <= Phi(pc, gp, delta) {
      SameWord(b, c, fields, page + first + 4 * j);
      assert base >= gp || f(j) <= gp;
      PhiMono(f(j), pc, gp, delta);
    }
    FindLastAgrees(f, g, count, pc, Phi(pc, gp, delta));
  }

  lemma CompressedCommutes(b: seq<byte>, c: seq<byte>, base: nat, page: nat, fields: seq<nat>, gp: nat, delta: nat, pc: nat)
    requires FieldsMoved(b, c, fields, gp, delta) && Word(b, page) == COMPRESSED
    requires PageApart(b, page, fields) && PageClear(b, base, page, gp) && Word(c, 4) == Word(b, 4) && Word(c, 8) == Word(b, 8)
    requires forall k :: 0 <= k < Word(b, 8) ==> Untouched(fields, Word(b, 4) + 4 * k, 4)
    ensures PageLookup(c, Phi(base, gp, delta), page, Phi(pc, gp, delta)) == PageLookup(b, base, page, pc)
  {
    assert Untouched(fields, page, 8);
    PageHeaderWords(b, c, fields, page);
    CompressedKeys(b, c, base, page, fields, gp, delta, pc);
    var found := FindLast(CompressedKey(b, base, page), Short(b, page + 6), pc);
    if found.Some? {
      var at := page + Short(b, page + 4) + 4 * found.value;
      SameWord(b, c, fields, at);
      EncodingStays(b, c, fields, page, Word(b, at) / 0x100_0000);
    }
    CompressedAgree(b, c, base, Phi(base, gp, delta), page, pc, Phi(pc, gp, delta));
  }

  /** Two compressed pages that find the same entry, with the same encoding, agree. */
  lemma CompressedAgree(b: seq<byte>, c: seq<byte>, base: nat, newBase: nat, page: nat, pc: nat, newPc: nat)
    requires Word(b, page) == Word(c, page) == COMPRESSED
    requires Short(c, page + 4) == Short(b, page + 4) && Short(c, page + 6) == Short(b, page + 6)
    requires FindLast(CompressedKey(c, newBase, page), Short(b, page + 6), newPc) == FindLast(CompressedKey(b, base, page), Short(b, page + 6), pc)
    requires var found := FindLast(CompressedKey(b, base, page), Short(b, page + 6), pc);
             found.Some? ==>
               var at := page + Short(b, page + 4) + 4 * found.value;
               Word(c, at) == Word(b, at) && EncodingAt(c, page, Word(b, at) / 0x100_0000) == EncodingAt(b, page, Word(b, at) / 0x100_0000)
    ensures PageLookup(c, newBase, page, newPc) == PageLookup(b, base, page, pc)
  {}

  ghost predicate IndexKeysListed(indexOff: nat, count: nat, fields: seq<nat>) {
    forall i: nat :: i < count ==> indexOff + 12 * i in fields
  }

  lemma IndexKeysAreFields(b: seq<byte>, l: Layout)
    requires IsLayout(b, l)
    ensures IndexKeysListed(l.header.indexOff, l.header.indexCount, Fields(l))
  {
    forall i: nat | i < l.header.indexCount ensures l.header.indexOff + 12 * i in Fields(l) {
      IndexKeyIsField(b, l, i);
    }
  }

  lemma IndexCommutes(b: seq<byte>, c: seq<byte>, indexOff: nat, count: nat, fields: seq<nat>, gp: nat, delta: nat, pc: nat)
    requires FieldsMoved(b, c, fields, gp, delta) && IndexKeysListed(indexOff, count, fields)
    ensures FindLast(IndexKey(c, indexOff), count, Phi(pc, gp, delta)) == FindLast(IndexKey(b, indexOff), count, pc)
  {
    var f, g := IndexKey(b, indexOff), IndexKey(c, indexOff);
    forall i | 0 <= i < count ensures f(i) <= pc <==> g(i) <= Phi(pc, gp, delta) {
      assert indexOff + 12 * i in fields;
      PhiMono(f(i), pc, gp, delta);
    }
    FindLastAgrees(f, g, count, pc, Phi(pc, gp, delta));
  }

  lemma PageCommutes(b: seq<byte>, c: seq<byte>, l: Layout, gp: nat, delta: nat, pc: nat, i: nat)
    requires IsLayout(b, l) && FieldsMoved(b, c, Fields(l), gp, delta) && Apart(b, l) && Clear(b, l, gp)
    requires i < |l.entries| && l.entries[i].0 != 0
    ensures var base := Word(b, l.header.indexOff + 12 * i);
            PageLookup(c, Phi(base, gp, delta), l.entries[i].0, Phi(pc, gp, delta)) == PageLookup(b, base, l.entries[i].0, pc)
  {
    hide Word, Short, PageLookup, FindLast, Phi, IsLayout, Fields;
    var base, page := Word(b, l.header.indexOff + 12 * i), l.entries[i].0;
    EntryIsControlled(l.header.indexOff, l.entries, Fields(l), i);
    HeaderWords(b, c, l);
    PageHeaderWords(b, c, Fields(l), page);
    assert PageApart(b, page, Fields(l)) && PageClear(b, base, page, gp);
    if Word(b, page) == REGULAR {
      FieldsOfEntry(b, l, i);
      forall j: nat | j < Short(b, page + 6) ensures page + Short(b, page + 4) + 8 * j in Fields(l) {
        RegularKeyIsField(b, l.header.indexOff + 12 * i, page, j);
      }
      RegularCommutes(b, c, base, page, Fields(l), gp, delta, pc);
    } else if Word(b, page) == COMPRESSED {
      CompressedCommutes(b, c, base, page, Fields(l), gp, delta, pc);
    } else {
      UnknownPage(b, base, page, pc);
      UnknownPage(c, Phi(base, gp, delta), page, Phi(pc, gp, delta));
    }
  }

  lemma UnknownPage(b: seq<byte>, base: nat, page: nat, pc: nat)
    requires Word(b, page) != REGULAR && Word(b, page) != COMPRESSED
    ensures PageLookup(b, base, page, pc) == None
  {}

  lemma IndexEntryMoved(b: seq<byte>, c: seq<byte>, l: Layout, gp: nat, delta: nat, i: nat)
    requires IsLayout(b, l) && FieldsMoved(b, c, Fields(l), gp, delta) && Controlled(l.header.indexOff, l.entries, Fields(l))
    requires i < |l.entries|
    ensures var e := l.header.indexOff + 12 * i;
            && Word(b, e + 4) == Word(c, e + 4) == l.entries[i].0
            && Word(c, e) == Phi(Word(b, e), gp, delta)
  {
    var e := l.header.indexOff + 12 * i;
    IndexKeyIsField(b, l, i);
    EntriesAt(b, l.header.indexOff, l.header.indexCount, i);
    EntryIsControlled(l.header.indexOff, l.entries, Fields(l), i);
    SameRead(b, c, Fields(l), e + 4, 8, e + 4);
  }

  /** The index of the moved section finds the same entry, and its page the same encoding. */
  lemma IndexMoved(b: seq<byte>, c: seq<byte>, l: Layout, gp: nat, delta: nat, pc: nat) returns (indexOff: nat, count: nat)
    requires IsLayout(b, l) && FieldsMoved(b, c, Fields(l), gp, delta) && Apart(b, l)
    ensures indexOff == l.header.indexOff && count == l.header.indexCount == |l.entries|
    ensures indexOff == Word(b, 20) == Word(c, 20) && count == Word(b, 24) == Word(c, 24)
    ensures FindLast(IndexKey(c, indexOff), count, Phi(pc, gp, delta)) == FindLast(IndexKey(b, indexOff), count, pc)
  {
    HeaderWords(b, c, l);
    IndexKeysAreFields(b, l);
    indexOff, count := l.header.indexOff, l.header.indexCount;
    IndexCommutes(b, c, indexOff, count, Fields(l), gp, delta, pc);
  }

  /** Entry `i` keeps its page and moves its function; the page's lookup commutes. */
  lemma EntryMoved(b: seq<byte>, c: seq<byte>, l: Layout, gp: nat, delta: nat, pc: nat, i: nat)
    requires IsLayout(b, l) && FieldsMoved(b, c, Fields(l), gp, delta) && Apart(b, l) && Clear(b, l, gp) && i < |l.entries|
    ensures EntryAgrees(b, c, gp, delta, pc, l.header.indexOff + 12 * i)
  {
    IndexEntryMoved(b, c, l, gp, delta, i);
    if l.entries[i].0 != 0 {
      PageCommutes(b, c, l, gp, delta, pc, i);
    }
  }

  ghost predicate EntryAgrees(b: seq<byte>, c: seq<byte>, gp: nat, delta: nat, pc: nat, e: nat) {
    && Word(c, e + 4) == Word(b, e + 4) && Word(c, e) == Phi(Word(b, e), gp, delta)
    && (Word(b, e + 4) != 0 ==>
          PageLookup(c, Phi(Word(b, e), gp, delta), Word(b, e + 4), Phi(pc, gp, delta)) == PageLookup(b, Word(b, e), Word(b, e + 4), pc))
  }

  lemma MovedLookup(b: seq<byte>, c: seq<byte>, l: Layout, gp: nat, delta: nat, pc: nat)
    requires IsLayout(b, l) && FieldsMoved(b, c, Fields(l), gp, delta) && Apart(b, l) && Clear(b, l, gp)
    ensures Lookup(c, Phi(pc, gp, delta)) == Lookup(b, pc)
  {
    var indexOff, count := IndexMoved(b, c, l, gp, delta, pc);
    var found := FindLast(IndexKey(b, indexOff), count, pc);
    if found.Some? {
      EntryMoved(b, c, l, gp, delta, pc, found.value);
    }
    LookupAgrees(b, c, indexOff, count, found, gp, delta, pc);
  }

  /** Two sections whose index finds the same entry, with the same page, agree. */
  lemma LookupAgrees(b: seq<byte>, c: seq<byte>, indexOff: nat, count: nat, found: Option<nat>, gp: nat, delta: nat, pc: nat)
    requires indexOff == Word(b, 20) == Word(c, 20) && count == Word(b, 24) == Word(c, 24)
    requires FindLast(IndexKey(c, indexOff), count, Phi(pc, gp, delta)) == FindLast(IndexKey(b, indexOff), count, pc) == found
    requires found.Some? ==> EntryAgrees(b, c, gp, delta, pc, indexOff + 12 * found.value)
    ensures Lookup(c, Phi(pc, gp, delta)) == Lookup(b, pc)
  {
    hide Word, FindLast, IndexKey, PageLookup, Phi;
  }

  /** Looking up the moved address after the shift finds what looking up the old one found. */
  lemma LookupCommutes(b: seq<byte>, l: Layout, gp: nat, delta: nat, pc: nat)
    requires IsLayout(b, l) && Disjoint(Fields(l)) && Apart(b, l) && Clear(b, l, gp)
    requires ShiftUnwind(b, gp, delta).Ok?
    ensures Lookup(ShiftUnwind(b, gp, delta).value, Phi(pc, gp, delta)) == Lookup(b, pc)
  {
    PassMovesFields(b, l, gp, delta);
    MovedLookup(b, ShiftUnwind(b, gp, delta).value, l, gp, delta, pc);
  }

  /** Keys that ascend still ascend: the index and every regular page stay sorted. */
  lemma FieldsStaySorted(b: seq<byte>, l: Layout, gp: nat, delta: nat, p: nat, q: nat)
    requires IsLayout(b, l) && Controlled(l.header.indexOff, l.entries, Fields(l)) && Disjoint(Fields(l))
    requires ShiftUnwind(b, gp, delta).Ok? && p in Fields(l) && q in Fields(l)
    ensures Word(ShiftUnwind(b, gp, delta).value, p) <= Word(ShiftUnwind(b, gp, delta).value, q) <==> Word(b, p) <= Word(b, q)
  {
    PassMovesFields(b, l, gp, delta);
    PhiMono(Word(b, p), Word(b, q), gp, delta);
  }

  // ----- a page across the growth point ---------------------------------

  ghost predicate Climbs(key: nat -> nat, n: nat) {
    forall i, j :: 0 <= i < j < n ==> key(i) <= key(j)
  }

  /** Keys that stay put while addresses move still find every address if and only if none lies
      past the growth point. */
  lemma UnmovedKeys(key: nat -> nat, n: nat, gp: nat, delta: nat)
    requires Climbs(key, n) && delta > 0
    ensures (forall pc: nat :: FindLast(key, n, Phi(pc, gp, delta)) == FindLast(key, n, pc)) <==> forall j :: 0 <= j < n ==> key(j) <= gp
  {
    if forall j :: 0 <= j < n ==> key(j) <= gp {
      forall pc: nat ensures FindLast(key, n, Phi(pc, gp, delta)) == FindLast(key, n, pc) {
        FindLastAgrees(key, key, n, pc, Phi(pc, gp, delta));
      }
    } else {
      var j :| 0 <= j < n && key(j) > gp;
      var pc: nat := key(j) - 1;
      assert FindLast(key, n, Phi(pc, gp, delta)) != FindLast(key, n, pc);
    }
  }

  /** The entries of a compressed page, in ascending order, are found by every moved address if
      and only if the page starts at or behind the growth point or none of its functions lies
      past it. */
  lemma CompressedPageCommutes(b: seq<byte>, c: seq<byte>, base: nat, page: nat, fields: seq<nat>, gp: nat, delta: nat)
    requires FieldsMoved(b, c, fields, gp, delta) && Untouched(fields, page, 8) && delta > 0
    requires forall j :: 0 <= j < Short(b, page + 6) ==> Untouched(fields, page + Short(b, page + 4) + 4 * j, 4)
    requires Climbs(CompressedKey(b, base, page), Short(b, page + 6))
    ensures Short(c, page + 6) == Short(b, page + 6)
    ensures (forall pc: nat :: FindLast(CompressedKey(c, Phi(base, gp, delta), page), Short(b, page + 6), Phi(pc, gp, delta))
                               == FindLast(CompressedKey(b, base, page), Short(b, page + 6), pc))
            <==> base >= gp || forall j :: 0 <= j < Short(b, page + 6) ==> CompressedKey(b, base, page)(j) <= gp
  {
    PageHeaderWords(b, c, fields, page);
    var first, count := Short(b, page + 4), Short(b, page + 6);
    var f, g := CompressedKey(b, base, page), CompressedKey(c, Phi(base, gp, delta), page);
    forall j: nat | j < count ensures g(j) == f(j) + (Phi(base, gp, delta) - base) {
      SameWord(b, c, fields, page + first + 4 * j);
    }
    MovedKeys(f, g, count, gp, delta, base);
  }

  lemma MovedKeys(f: nat -> nat, g: nat -> nat, n: nat, gp: nat, delta: nat, base: nat)
    requires Climbs(f, n) && delta > 0 && forall j: nat :: j < n ==> f(j) >= base && g(j) == f(j) + (Phi(base, gp, delta) - base)
    ensures (forall pc: nat :: FindLast(g, n, Phi(pc, gp, delta)) == FindLast(f, n, pc)) <==> base >= gp || forall j :: 0 <= j < n ==> f(j) <= gp
  {
    if base >= gp {
      forall pc: nat ensures FindLast(g, n, Phi(pc, gp, delta)) == FindLast(f, n, pc) {
        FindLastAgrees(f, g, n, pc, Phi(pc, gp, delta));
      }
    } else {
      UnmovedKeys(f, n, gp, delta);
      forall pc: nat ensures FindLast(g, n, Phi(pc, gp, delta)) == FindLast(f, n, Phi(pc, gp, delta)) {
        FindLastAgrees(f, g, n, Phi(pc, gp, delta), Phi(pc, gp, delta));
      }
    }
  }

  // ----- personalities and language-specific data -----------------------

  function Personality(b: seq<byte>, k: nat): nat { Word(b, Word(b, 12) + 4 * k) }

  /** The data recorded for the function at `func` among `n` records. */
  function LsdaFrom(b: seq<byte>, at: nat, n: nat, func: nat): Option<nat>
    decreases n
  {
    if n == 0 then None else if Word(b, at) == func then Some(Word(b, at + 4)) else LsdaFrom(b, at + 8, n - 1, func)
  }

  /** The language-specific data of a function; the index says where the records are. */
  function Lsda(b: seq<byte>, func: nat): Option<nat> {
    var indexOff, count := Word(b, 20), Word(b, 24);
    if count == 0 then None
    else
      var start, end := Word(b, indexOff + 8), Word(b, indexOff + 12 * (count - 1) + 8);
      if end < start then None else LsdaFrom(b, start, (end - start) / 8, func)
  }

  function PhiOf(r: Option<nat>, gp: nat, delta: nat): Option<nat> {
    if r.None? then None else Some(Phi(r.value, gp, delta))
  }

  ghost predicate RecordsListed(at: nat, n: nat, fields: seq<nat>) {
    forall j: nat :: j < n ==> at + 8 * j in fields && at + 8 * j + 4 in fields
  }

  lemma {:induction false} LsdaFromMoves(b: seq<byte>, c: seq<byte>, at: nat, n: nat, func: nat, fields: seq<nat>, gp: nat, delta: nat)
    requires FieldsMoved(b, c, fields, gp, delta) && RecordsListed(at, n, fields)
    ensures LsdaFrom(c, at, n, Phi(func, gp, delta)) == PhiOf(LsdaFrom(b, at, n, func), gp, delta)
    decreases n
  {
    if n > 0 {
      assert at + 8 * 0 in fields && at + 8 * 0 + 4 in fields;
      forall j: nat | j < n - 1 ensures at + 8 + 8 * j in fields && at + 8 + 8 * j + 4 in fields {
        assert at + 8 * (j + 1) in fields && at + 8 * (j + 1) + 4 in fields;
      }
      hide Word;
      LsdaFromMoves(b, c, at + 8, n - 1, func, fields, gp, delta);
    }
  }

  lemma RecordsAreFields(l: Layout, start: nat, end: nat)
    requires LsdaFields(l.entries) == Ok(l.lsdas) && l.entries != []
    requires start == l.entries[0].1 && end == l.entries[|l.entries| - 1].1
    ensures start <= end && RecordsListed(start, (end - start) / 8, Fields(l))
  {
    forall j: nat | j < (end - start) / 8 ensures start + 8 * j in Fields(l) && start + 8 * j + 4 in Fields(l) {
      StridedHas(start, 4, (end - start) / 4, 2 * j);
      StridedHas(start, 4, (end - start) / 4, 2 * j + 1);
      assert start + 2 * j * 4 in l.lsdas && start + (2 * j + 1) * 4 in l.lsdas;
    }
  }

  /** Where an index entry says its data starts has not changed. */
  lemma DataOffsetStays(b: seq<byte>, c: seq<byte>, l: Layout, i: nat)
    requires IsLayout(b, l) && SameOutside(b, c, Fields(l)) && Controlled(l.header.indexOff, l.entries, Fields(l)) && i < |l.entries|
    ensures Word(b, l.header.indexOff + 12 * i + 8) == Word(c, l.header.indexOff + 12 * i + 8) == l.entries[i].1
  {
    var e := l.header.indexOff + 12 * i;
    EntriesAt(b, l.header.indexOff, l.header.indexCount, i);
    EntryIsControlled(l.header.indexOff, l.entries, Fields(l), i);
    SameRead(b, c, Fields(l), e + 4, 8, e + 8);
  }

  /** Every personality slot moves, and the data found for a moved function is the moved data
      of the function. */
  lemma HandlersMove(b: seq<byte>, l: Layout, gp: nat, delta: nat, k: nat, func: nat)
    requires IsLayout(b, l) && Disjoint(Fields(l)) && Controlled(l.header.indexOff, l.entries, Fields(l)) && ShiftUnwind(b, gp, delta).Ok?
    ensures var c := ShiftUnwind(b, gp, delta).value;
            && (k < Word(b, 16) ==> Personality(c, k) == Phi(Personality(b, k), gp, delta))
            && Lsda(c, Phi(func, gp, delta)) == PhiOf(Lsda(b, func), gp, delta)
  {
    var c := ShiftUnwind(b, gp, delta).value;
    PassMovesFields(b, l, gp, delta);
    if k < Word(b, 16) {
      PersonalityMoves(b, c, l, gp, delta, k);
    }
    LsdaMoves(b, c, l, gp, delta, func);
  }

  lemma PersonalityMoves(b: seq<byte>, c: seq<byte>, l: Layout, gp: nat, delta: nat, k: nat)
    requires IsLayout(b, l) && FieldsMoved(b, c, Fields(l), gp, delta) && Untouched(Fields(l), 0, 28) && k < Word(b, 16)
    ensures Personality(c, k) == Phi(Personality(b, k), gp, delta)
  {
    SameRead(b, c, Fields(l), 0, 28, 12);
    StridedHas(l.header.personalityOff, 4, l.header.personalityCount, k);
    assert l.header.personalityOff + k * 4 in l.personalities;
  }

  lemma LsdaUnfolds(b: seq<byte>, indexOff: nat, count: nat, start: nat, end: nat, func: nat)
    requires Word(b, 20) == indexOff && Word(b, 24) == count > 0 && start <= end
    requires Word(b, indexOff + 8) == start && Word(b, indexOff + 12 * (count - 1) + 8) == end
    ensures Lsda(b, func) == LsdaFrom(b, start, (end - start) / 8, func)
  {}

  lemma LsdaMoves(b: seq<byte>, c: seq<byte>, l: Layout, gp: nat, delta: nat, func: nat)
    requires IsLayout(b, l) && FieldsMoved(b, c, Fields(l), gp, delta) && Controlled(l.header.indexOff, l.entries, Fields(l))
    ensures Lsda(c, Phi(func, gp, delta)) == PhiOf(Lsda(b, func), gp, delta)
  {
    hide Word, LsdaFrom, RecordsListed, ReadHeader, ReadEntries, EntriesFields, LsdaFields, Strided, EntriesControlled, Untouched, Fields, Phi;
    HeaderWords(b, c, l);
    if l.entries != [] {
      DataOffsetStays(b, c, l, 0);
      DataOffsetStays(b, c, l, |l.entries| - 1);
      var start, end := l.entries[0].1, l.entries[|l.entries| - 1].1;
      RecordsAreFields(l, start, end);
      hide Lsda;
      LsdaUnfolds(b, l.header.indexOff, |l.entries|, start, end, func);
      LsdaUnfolds(c, l.header.indexOff, |l.entries|, start, end, Phi(func, gp, delta));
      LsdaFromMoves(b, c, start, (end - start) / 8, func, Fields(l), gp, delta);
    }
  }
}
