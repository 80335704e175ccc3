/** A second canonicalization changes nothing; the pass on bytes. */
module CanonicalSettles {
  import opened Bytes
  import opened LoadCommands
  import opened CanonicalLayout
  import opened Canonicalize
  import opened CanonicalTheorem

  // ----- the list reads the same ----------------------------------------

  lemma {:induction false} LastIndexSame(a: seq<seq<byte>>, b: seq<seq<byte>>, p: seq<byte> -> bool)
    requires |a| == |b| && forall i :: 0 <= i < |a| ==> (p(a[i]) <==> p(b[i]))
    ensures LastIndex(a, p) == LastIndex(b, p)
    decreases |a|
  {
    if a != [] {
      LastIndexSame(a[..|a| - 1], b[..|b| - 1], p);
    }
  }

  /** The patched commands have the types, sizes and read-only fields of the old ones. */
  lemma TypesKept(im: Image)
    requires Placed(im) && Acts(im)
    ensures var out := Canon(im);
            && |out.cmds| == |im.cmds| && AllSized(out.cmds)
            && (forall i :: 0 <= i < |im.cmds| ==> |out.cmds[i]| == |im.cmds[i]|)
            && (forall i :: 0 <= i < |im.cmds| && |im.cmds[i]| >= 8 ==> SameKind(im.cmds[i], out.cmds[i]))
  {
    var ws, out := Writes(im), Canon(im);
    WritesGood(im);
    WritableInside(im.cmds, ws);
    forall i | 0 <= i < |im.cmds| ensures |im.cmds[i]| >= 8 ==> SameKind(im.cmds[i], out.cmds[i]) {
      if |im.cmds[i]| >= 8 {
        TypeKept(im.cmds, ws, i);
      }
    }
    forall i | 0 <= i < |im.cmds| ensures Sized(out.cmds[i]) {
      assert Sized(im.cmds[i]);
      ShortStays(im, i);
    }
  }

  ghost predicate SameKind(c: seq<byte>, d: seq<byte>) {
    |c| == |d| >= 8 && TypeOf(c) == TypeOf(d) && U32(c, 4) == U32(d, 4) && (IsLinkedit(c) <==> IsLinkedit(d))
  }

  /** A command too short to hold a field is never written. */
  lemma ShortStays(im: Image, i: nat)
    requires Placed(im) && Acts(im) && i < |im.cmds|
    ensures |Canon(im).cmds[i]| == |im.cmds[i]| && TypeOf(Canon(im).cmds[i]) == TypeOf(im.cmds[i])
  {
    hide Canon, Acts, Writes, Apply, AllWritable, Inside, Base;
    CanonApplies(im);
    ShortKept(im.cmds, Writes(im), i);
  }

  ghost predicate AllHeaded(cmds: seq<seq<byte>>) { forall i :: 0 <= i < |cmds| ==> |cmds[i]| >= 8 }

  lemma LastsKept(im: Image)
    requires Placed(im) && Acts(im) && AllHeaded(im.cmds)
    ensures LastIndex(Canon(im).cmds, IsLinkedit) == LastIndex(im.cmds, IsLinkedit)
    ensures forall cmd {:trigger LastOf(im.cmds, cmd)} :: LastOf(Canon(im).cmds, cmd) == LastOf(im.cmds, cmd)
  {
    TypesKept(im);
    var out := Canon(im);
    hide Canon, Acts, Placed;
    forall i | 0 <= i < |im.cmds| ensures SameKind(im.cmds[i], out.cmds[i]) {}
    LastsSame(im.cmds, out.cmds);
  }

  lemma LastsSame(a: seq<seq<byte>>, b: seq<seq<byte>>)
    requires |a| == |b| && forall i :: 0 <= i < |a| ==> SameKind(a[i], b[i])
    ensures LastIndex(b, IsLinkedit) == LastIndex(a, IsLinkedit)
    ensures forall cmd {:trigger LastOf(a, cmd)} :: LastOf(b, cmd) == LastOf(a, cmd)
  {
    hide IsLinkedit, TypeOf;
    LastIndexSame(b, a, IsLinkedit);
    forall cmd ensures LastOf(b, cmd) == LastOf(a, cmd) {
      LastIndexSame(b, a, c => TypeOf(c) == cmd);
    }
  }

  lemma ReadsKept(im: Image, i: nat, at: nat)
    requires Placed(im) && Acts(im) && i < |im.cmds| && ReadOnly(im.cmds[i], at, 4)
    ensures at + 4 <= |Canon(im).cmds[i]| && U32(Canon(im).cmds[i], at) == U32(im.cmds[i], at)
  {
    CanonApplies(im);
    Kept(im.cmds, Writes(im), i, at, 4);
  }

  // ----- the plan reads the same, at the new offsets --------------------

  /** The entries with the offsets `cmds` holds now. */
  function Reread(cmds: seq<seq<byte>>, es: seq<Entry>): (r: seq<Entry>)
    ensures |r| == |es|
    ensures forall k :: 0 <= k < |es| ==> r[k] == RereadOne(cmds, es[k])
  {
    if es == [] then [] else [RereadOne(cmds, es[0])] + Reread(cmds, es[1..])
  }

  function RereadOne(cmds: seq<seq<byte>>, e: Entry): Entry {
    if e.i < |cmds| && e.field + 4 <= |cmds[e.i]| then e.(off := U32(cmds[e.i], e.field)) else e
  }

  lemma {:induction false} RereadSum(cmds: seq<seq<byte>>, a: seq<Entry>, b: seq<Entry>)
    ensures Reread(cmds, a + b) == Reread(cmds, a) + Reread(cmds, b)
    decreases |a|
  {
    if a == [] {
      assert a + b == b;
    } else {
      assert (a + b)[1..] == a[1..] + b;
      RereadSum(cmds, a[1..], b);
    }
  }

  lemma {:induction false} RereadNonEmpty(cmds: seq<seq<byte>>, es: seq<Entry>)
    ensures NonEmpty(Reread(cmds, es)) == Reread(cmds, NonEmpty(es))
    decreases |es|
  {
    if es != [] {
      RereadNonEmpty(cmds, es[1..]);
    }
  }

  lemma DataReread(im: Image, cmd: nat)
    requires Placed(im) && Acts(im) && AllHeaded(im.cmds) && DataType(cmd) && AllSized(Canon(im).cmds)
    ensures DataEntry(Canon(im).cmds, cmd) == Reread(Canon(im).cmds, DataEntry(im.cmds, cmd))
  {
    hide Canon, Acts;
    LastsKept(im);
    var i := LastOf(im.cmds, cmd);
    if i.Some? {
      assert Sized(im.cmds[i.value]);
      ReadsKept(im, i.value, 12);
    }
  }

  lemma TablesReread(im: Image)
    requires Placed(im) && Acts(im) && AllHeaded(im.cmds) && AllSized(Canon(im).cmds)
    ensures SymbolEntry(Canon(im).cmds) == Reread(Canon(im).cmds, SymbolEntry(im.cmds))
    ensures StringEntry(Canon(im).cmds) == Reread(Canon(im).cmds, StringEntry(im.cmds))
    ensures IndirectEntry(Canon(im).cmds) == Reread(Canon(im).cmds, IndirectEntry(im.cmds))
  {
    hide Canon, Acts, U32, LastOf;
    LastsKept(im);
    var i, d := LastOf(im.cmds, LC_SYMTAB), LastOf(im.cmds, LC_DYSYMTAB);
    if i.Some? {
      assert Sized(im.cmds[i.value]);
      ReadsKept(im, i.value, 12);
      ReadsKept(im, i.value, 20);
    }
    if d.Some? {
      assert Sized(im.cmds[d.value]);
      ReadsKept(im, d.value, 60);
    }
  }

  lemma CandidatesReread(im: Image)
    requires Placed(im) && Acts(im) && AllHeaded(im.cmds) && AllSized(Canon(im).cmds)
    ensures Candidates(Canon(im).cmds) == Reread(Canon(im).cmds, Candidates(im.cmds))
  {
    var out, cmds := Canon(im).cmds, im.cmds;
    DataReread(im, LC_DYLD_CHAINED_FIXUPS);
    DataReread(im, LC_DYLD_EXPORTS_TRIE);
    DataReread(im, LC_FUNCTION_STARTS);
    DataReread(im, LC_DATA_IN_CODE);
    TablesReread(im);
    RereadSeven(out, DataEntry(cmds, LC_DYLD_CHAINED_FIXUPS), DataEntry(cmds, LC_DYLD_EXPORTS_TRIE), DataEntry(cmds, LC_FUNCTION_STARTS),
                DataEntry(cmds, LC_DATA_IN_CODE), SymbolEntry(cmds), IndirectEntry(cmds), StringEntry(cmds));
  }

  lemma RereadSeven(cmds: seq<seq<byte>>, a: seq<Entry>, b: seq<Entry>, c: seq<Entry>, d: seq<Entry>, e: seq<Entry>, f: seq<Entry>, g: seq<Entry>)
    ensures Reread(cmds, a + b + c + d + e + f + g)
            == Reread(cmds, a) + Reread(cmds, b) + Reread(cmds, c) + Reread(cmds, d) + Reread(cmds, e) + Reread(cmds, f) + Reread(cmds, g)
  {
    RereadSum(cmds, a + b + c + d + e + f, g);
    RereadSum(cmds, a + b + c + d + e, f);
    RereadSum(cmds, a + b + c + d, e);
    RereadSum(cmds, a + b + c, d);
    RereadSum(cmds, a + b, c);
    RereadSum(cmds, a, b);
  }

  /** The second pass plans the same blobs at the offsets the first one gave them. */
  lemma PlanReread(im: Image)
    requires Placed(im) && Acts(im) && AllHeaded(im.cmds) && AllSized(Canon(im).cmds)
    ensures Plan(Canon(im).cmds) == Reread(Canon(im).cmds, Plan(im.cmds))
  {
    CandidatesReread(im);
    RereadNonEmpty(Canon(im).cmds, Candidates(im.cmds));
  }

  // ----- the second pass ------------------------------------------------

  lemma SecondEntry(im: Image, k: nat)
    requires Placed(im) && Acts(im) && AllHeaded(im.cmds) && AllSized(Canon(im).cmds) && |Encode(Canon(im))| < U32_LIMIT
    requires k < |Plan(im.cmds)|
    ensures |Plan(Canon(im).cmds)| == |Plan(im.cmds)|
    ensures var e, d := Plan(im.cmds)[k], Plan(Canon(im).cmds)[k];
            && d == e.(off := Base(im) + Starts(0, NewContent(im))[k])
            && d.off + d.size <= |Encode(Canon(im))|
            && Encode(Canon(im))[d.off..d.off + d.size] == NewContent(im)[k]
  {
    hide Canon, Acts, Base, Encode, Plan, Starts, Sized;
    PlanReread(im);
    BlobMoves(im, k);
  }

  /** No command looks foreign after the pass. */
  lemma NativeAgain(im: Image, i: nat)
    requires Placed(im) && Acts(im) && i < |im.cmds| && AllHeaded(im.cmds)
    ensures i < |Canon(im).cmds| && !Foreign(Canon(im).cmds[i])
  {
    hide Canon, Plan, Encode, LastIndex, LastOf, Base;
    TypesKept(im);
    assert SameKind(im.cmds[i], Canon(im).cmds[i]) && !Foreign(im.cmds[i]) && Sized(im.cmds[i]);
    if TypeOf(im.cmds[i]) == LC_CODE_SIGNATURE {
      ReadsKept(im, i, 12);
    }
  }

  /** The dynamic symbol table keeps its tables empty. */
  lemma TablesAgain(im: Image, d: nat)
    requires Placed(im) && Acts(im) && AllHeaded(im.cmds) && LastOf(im.cmds, LC_DYSYMTAB) == Some(d) && d < |im.cmds|
    ensures d < |Canon(im).cmds| && Sized(Canon(im).cmds[d]) && !OldTables(Canon(im).cmds[d])
  {
    hide Canon, Plan, Encode, LastIndex, Base, Foreign, LastOf;
    TypesKept(im);
    assert Sized(im.cmds[d]) && Sized(Canon(im).cmds[d]);
    LastHasType(im.cmds, LC_DYSYMTAB, d);
    ReadsKept(im, d, 32);
    ReadsKept(im, d, 40);
    ReadsKept(im, d, 48);
    ReadsKept(im, d, 64);
    ReadsKept(im, d, 72);
  }

  lemma LastHasType(cmds: seq<seq<byte>>, cmd: nat, i: nat)
    requires LastOf(cmds, cmd) == Some(i)
    ensures i < |cmds| && TypeOf(cmds[i]) == cmd
  {}

  lemma BoundsAgain(im: Image)
    requires Placed(im) && Acts(im) && AllHeaded(im.cmds) && AllSized(Canon(im).cmds) && |Encode(Canon(im))| < U32_LIMIT
    ensures InBounds(Plan(Canon(im).cmds), |Encode(Canon(im))|)
  {
    PlanReread(im);
    hide Canon, Acts, Base, Encode, Plan, Starts, Sized, Reread;
    forall k | 0 <= k < |Plan(Canon(im).cmds)| ensures Plan(Canon(im).cmds)[k].off + Plan(Canon(im).cmds)[k].size <= |Encode(Canon(im))| {
      SecondEntry(im, k);
    }
  }

  lemma ActsAgain(im: Image)
    requires Placed(im) && Acts(im) && AllHeaded(im.cmds) && |Encode(Canon(im))| < U32_LIMIT
    ensures AllSized(Canon(im).cmds) && Acts(Canon(im)) && Linkedit(Canon(im)) == Linkedit(im)
  {
    hide Canon, Plan, Encode, LastIndex, LastOf, Base, Foreign, Sized, OldTables, InBounds;
    TypesKept(im);
    LastsKept(im);
    forall i | 0 <= i < |Canon(im).cmds| ensures !Foreign(Canon(im).cmds[i]) {
      NativeAgain(im, i);
    }
    var d := LastOf(im.cmds, LC_DYSYMTAB);
    if d.Some? {
      TablesAgain(im, d.value);
    }
    BoundsAgain(im);
  }

  lemma BaseField(im: Image)
    requires Placed(im) && Acts(im)
    ensures |Canon(im).cmds| == |im.cmds| && |Canon(im).cmds[Linkedit(im)]| == |im.cmds[Linkedit(im)]|
    ensures Canon(im).cmds[Linkedit(im)][40..48] == im.cmds[Linkedit(im)][40..48]
  {
    hide Canon, Acts, Writes, Apply, AllWritable, Inside, Base, Linkedit;
    CanonApplies(im);
    ShortKept(im.cmds, Writes(im), Linkedit(im));
    Kept(im.cmds, Writes(im), Linkedit(im), 40, 8);
  }

  lemma BaseKept(im: Image)
    requires Placed(im) && Acts(im) && AllHeaded(im.cmds) && |Encode(Canon(im))| < U32_LIMIT
    ensures AllSized(Canon(im).cmds) && Acts(Canon(im)) && Base(Canon(im)) == Base(im) && Placed(Canon(im))
  {
    ActsAgain(im);
    BaseField(im);
    CanonShape(im);
    hide Acts;
    hide Encode;
    hide Canon;
  }

  lemma SameWrites(im: Image)
    requires Placed(im) && Acts(im) && AllHeaded(im.cmds) && |Encode(Canon(im))| < U32_LIMIT
    ensures Placed(Canon(im)) && Acts(Canon(im))
    ensures NewContent(Canon(im)) == NewContent(im) && Writes(Canon(im)) == Writes(im)
  {
    BaseKept(im);
    ActsAgain(im);
    SameContent(im);
    SameFields(im);
    hide Canon, Acts, Base, Linkedit, NewContent, Plan, Pack, Starts;
  }

  /** The second pass copies the same blobs. */
  lemma SameContent(im: Image)
    requires Placed(im) && Acts(im) && AllHeaded(im.cmds) && |Encode(Canon(im))| < U32_LIMIT
    requires AllSized(Canon(im).cmds) && Acts(Canon(im))
    ensures NewContent(Canon(im)) == NewContent(im)
  {
    PlanReread(im);
    hide Canon, Acts, Base, Encode, Plan, Reread, Starts, AllHeaded, NewContent, Blobs;
    ContentSizes(im);
    ContentSizes(Canon(im));
    var a, b := NewContent(Canon(im)), NewContent(im);
    forall k | 0 <= k < |b| ensures a[k] == b[k] {
      SecondContent(im, k);
    }
  }

  lemma ContentSizes(im: Image)
    requires AllSized(im.cmds) && Acts(im)
    ensures |NewContent(im)| == |Plan(im.cmds)|
  {
    hide Plan, Encode;
  }

  lemma SecondContent(im: Image, k: nat)
    requires Placed(im) && Acts(im) && AllHeaded(im.cmds) && |Encode(Canon(im))| < U32_LIMIT
    requires AllSized(Canon(im).cmds) && Acts(Canon(im)) && k < |Plan(im.cmds)|
    ensures k < |NewContent(Canon(im))| && NewContent(Canon(im))[k] == NewContent(im)[k]
  {
    hide Canon, Base, Encode, Plan, Reread, Starts, AllHeaded;
    SecondEntry(im, k);
  }

  /** The second pass writes the same offsets. */
  lemma SameFields(im: Image)
    requires Placed(im) && Acts(im) && AllHeaded(im.cmds) && |Encode(Canon(im))| < U32_LIMIT
    requires AllSized(Canon(im).cmds)
    ensures |Plan(Canon(im).cmds)| == |Plan(im.cmds)|
    ensures FieldWrites(Plan(Canon(im).cmds), Base(im), Starts(0, NewContent(im))) == FieldWrites(Plan(im.cmds), Base(im), Starts(0, NewContent(im)))
  {
    PlanReread(im);
    hide Canon, Acts, Base, Encode, Plan, Reread, Starts, Sized;
    var es, ds, starts := Plan(im.cmds), Plan(Canon(im).cmds), Starts(0, NewContent(im));
    var v, w := FieldWrites(es, Base(im), starts), FieldWrites(ds, Base(im), starts);
    forall k | 0 <= k < |es| ensures v[k] == w[k] {
      SecondEntry(im, k);
    }
  }

  lemma StandingWrites(im: Image)
    requires Placed(im) && Acts(im)
    ensures forall k :: 0 <= k < |Writes(im)| ==> Inside(Canon(im).cmds, Writes(im)[k])
    ensures Apply(Canon(im).cmds, Writes(im)) == Canon(im).cmds
  {
    var ws := Writes(im);
    WritesGood(im);
    WritableInside(im.cmds, ws);
    var cmds := Apply(im.cmds, ws);
    assert Canon(im).cmds == cmds;
    hide Writes;
    hide Canon;
    forall k | 0 <= k < |ws| ensures Inside(cmds, ws[k]) && HasAt(cmds[ws[k].i], ws[k].at, ws[k].data) {
      ApplyStands(im.cmds, ws, k);
    }
    ApplyStanding(cmds, ws);
  }

  lemma RestStays(im: Image)
    requires Placed(im) && Acts(im)
    ensures |Flat(Canon(im).cmds)| == |Flat(im.cmds)| && LC_START + |Flat(im.cmds)| <= Base(im) <= |Encode(Canon(im))|
    ensures Canon(im).rest == Encode(Canon(im))[LC_START + |Flat(im.cmds)|..Base(im)] + Pack(NewContent(im))
  {
    CanonShape(im);
  }

  /** One pass settles the file: run again, it changes nothing. */
  lemma Settles(im: Image)
    requires Placed(im) && Acts(im) && AllHeaded(im.cmds) && |Encode(Canon(im))| < U32_LIMIT
    ensures Placed(Canon(im)) && Acts(Canon(im)) && Canon(Canon(im)) == Canon(im)
  {
    var out := Canon(im);
    SameWrites(im);
    BaseKept(im);
    RestStays(im);
    StandingWrites(im);
    SecondPass(im, out);
  }

  lemma SecondPass(im: Image, out: Image)
    requires Placed(im) && Acts(im) && Placed(out) && Acts(out) && out.header == im.header
    requires Writes(out) == Writes(im) && NewContent(out) == NewContent(im) && Base(out) == Base(im)
    requires |Flat(out.cmds)| == |Flat(im.cmds)| && LC_START + |Flat(im.cmds)| <= Base(im) <= |Encode(out)|
    requires forall k :: 0 <= k < |Writes(im)| ==> Inside(out.cmds, Writes(im)[k])
    requires Apply(out.cmds, Writes(im)) == out.cmds
    requires out.rest == Encode(out)[LC_START + |Flat(im.cmds)|..Base(im)] + Pack(NewContent(im))
    ensures Canon(out) == out
  {
    hide Encode;
    hide Writes;
    hide NewContent;
    hide Acts;
  }
}
