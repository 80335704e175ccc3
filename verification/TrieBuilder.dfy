/** `build`: sort, insert, settle the offsets, encode. */
module TrieBuilder {
  import opened Bytes
  import opened NameOrder
  import opened TrieTree
  import opened TrieBuild
  import opened TrieListing
  import opened FixedPoint
  import opened TrieLayout
  import opened TrieConvergence
  import opened ExportTrie
  import opened TrieRoundTrip

  // ----- sorting by name ------------------------------------------------

  function Place(e: Export, es: seq<Export>): seq<Export> {
    if es == [] || !Before(es[0].name, e.name) then [e] + es else [es[0]] + Place(e, es[1..])
  }

  /** The stable sort by name that precedes insertion. */
  function SortByName(es: seq<Export>): seq<Export> {
    if es == [] then [] else Place(es[0], SortByName(es[1..]))
  }

  ghost predicate NameSorted(es: seq<Export>) {
    forall i, j :: 0 <= i < j < |es| ==> !Before(es[j].name, es[i].name)
  }

  lemma {:induction false} PlaceMembers(e: Export, es: seq<Export>)
    ensures multiset(Place(e, es)) == multiset(es) + multiset{e}
    ensures Place(e, es) != [] && (Place(e, es)[0] == e || (es != [] && Place(e, es)[0] == es[0]))
  {
    if es != [] && Before(es[0].name, e.name) {
      PlaceMembers(e, es[1..]);
      assert es == [es[0]] + es[1..];
    }
  }

  lemma {:induction false} PlaceSorted(e: Export, es: seq<Export>)
    requires NameSorted(es)
    ensures NameSorted(Place(e, es))
  {
    if es == [] || !Before(es[0].name, e.name) {
      forall j | 0 <= j < |es| ensures !Before(es[j].name, e.name) {
        if Before(es[j].name, e.name) {
          BeforeTotal(es[0].name, es[j].name);
          if es[0].name != es[j].name {
            BeforeTransitive(es[0].name, es[j].name, e.name);
          }
        }
      }
    } else {
      PlaceSorted(e, es[1..]);
      PlaceMembers(e, es[1..]);
      var rest := Place(e, es[1..]);
      forall j | 0 <= j < |rest| ensures !Before(rest[j].name, es[0].name) {
        assert rest[j] in multiset(rest);
        if rest[j] == e {
          if Before(e.name, es[0].name) {
            BeforeTransitive(e.name, es[0].name, e.name);
            BeforeIrreflexive(e.name);
          }
        } else {
          assert rest[j] in multiset(es[1..]);
        }
      }
    }
  }

  lemma {:induction false} SortByNameSorts(es: seq<Export>)
    ensures NameSorted(SortByName(es)) && multiset(SortByName(es)) == multiset(es)
  {
    if es != [] {
      SortByNameSorts(es[1..]);
      PlaceSorted(es[0], SortByName(es[1..]));
      PlaceMembers(es[0], SortByName(es[1..]));
      assert es == [es[0]] + es[1..];
    }
  }

  // ----- what a list of insertions denotes -------------------------------

  /** The last binding of `q`: later insertions replace earlier ones. */
  ghost function Latest(es: seq<Export>, q: Name): Option<TerminalInfo> {
    if es == [] then None
    else if es[|es| - 1].name == q then Some(es[|es| - 1].info)
    else Latest(es[..|es| - 1], q)
  }

  /** Of each run of equal names, the last. */
  function LastOfRuns(es: seq<Export>): seq<Export> {
    if |es| <= 1 then es
    else if es[0].name == es[1].name then LastOfRuns(es[1..])
    else [es[0]] + LastOfRuns(es[1..])
  }

  /** The exports a trie built from `es` holds, in the order it lists them. */
  function Canonical(es: seq<Export>): seq<Export> {
    LastOfRuns(SortByName(es))
  }

  lemma {:induction false} LatestFromFront(es: seq<Export>, q: Name)
    requires es != []
    ensures Latest(es, q) == if Latest(es[1..], q).Some? then Latest(es[1..], q)
                             else if es[0].name == q then Some(es[0].info) else None
  {
    var last := |es| - 1;
    if last > 0 {
      assert es[1..][..last - 1] == es[..last][1..];
      LatestFromFront(es[..last], q);
    }
  }

  lemma {:induction false} LatestIsMember(es: seq<Export>, q: Name)
    ensures Latest(es, q).Some? ==> exists i :: 0 <= i < |es| && es[i].name == q
    ensures Latest(es, q).None? ==> forall i :: 0 <= i < |es| ==> es[i].name != q
  {
    if es != [] {
      LatestIsMember(es[..|es| - 1], q);
    }
  }

  lemma {:induction false} LastOfRunsNames(es: seq<Export>, i: nat)
    requires i < |LastOfRuns(es)|
    ensures LastOfRuns(es)[i] in es
  {
    if |es| > 1 {
      if es[0].name == es[1].name {
        LastOfRunsNames(es[1..], i);
      } else if i > 0 {
        LastOfRunsNames(es[1..], i - 1);
      }
    }
  }

  /** On a sorted list the survivors are strictly sorted and are exactly the latest bindings. */
  lemma {:induction false} LastOfRunsIsLatest(es: seq<Export>)
    requires NameSorted(es)
    ensures StrictlySorted(Names(LastOfRuns(es)))
    ensures forall q, info :: Export(q, info) in LastOfRuns(es) <==> Latest(es, q) == Some(info)
  {
    if |es| <= 1 {
      forall q, info ensures Export(q, info) in LastOfRuns(es) <==> Latest(es, q) == Some(info) {
        assert |es| == 1 ==> es[..0] == [] && es[0] == Export(es[0].name, es[0].info);
      }
    } else {
      var rest := LastOfRuns(es[1..]);
      LastOfRunsIsLatest(es[1..]);
      forall q ensures Latest(es, q) == if Latest(es[1..], q).Some? then Latest(es[1..], q)
                                        else if es[0].name == q then Some(es[0].info) else None {
        LatestFromFront(es, q);
      }
      if es[0].name == es[1].name {
        LatestIsMember(es[1..], es[0].name);
        assert es[1..][0].name == es[0].name;
      } else {
        forall i | 0 <= i < |rest| ensures Before(es[0].name, rest[i].name) {
          LastOfRunsNames(es[1..], i);
          var x :| 0 <= x < |es[1..]| && es[1..][x] == rest[i];
          HeadBefore(es, x + 1);
        }
        assert Latest(es[1..], es[0].name).None? by {
          LatestIsMember(es[1..], es[0].name);
          forall x | 0 <= x < |es[1..]| ensures es[1..][x].name != es[0].name {
            HeadBefore(es, x + 1);
            BeforeIrreflexive(es[0].name);
          }
        }
        forall q, info ensures Export(q, info) in LastOfRuns(es) <==> Latest(es, q) == Some(info) {
          assert es[0] == Export(es[0].name, es[0].info);
          BeforeIrreflexive(es[0].name);
        }
      }
    }
  }

  lemma HeadBefore(es: seq<Export>, x: nat)
    requires NameSorted(es) && |es| > 1 && es[0].name != es[1].name && 0 < x < |es|
    ensures Before(es[0].name, es[x].name)
  {
    BeforeTotal(es[0].name, es[1].name);
    if x > 1 {
      BeforeTotal(es[1].name, es[x].name);
      if es[1].name != es[x].name {
        BeforeTransitive(es[0].name, es[1].name, es[x].name);
      }
    }
  }

  /** With distinct names nothing is dropped: the trie lists the exports in name order. */
  lemma CanonicalOfDistinct(es: seq<Export>)
    requires forall i, j :: 0 <= i < j < |es| ==> es[i].name != es[j].name
    ensures multiset(Canonical(es)) == multiset(es) && StrictlySorted(Names(Canonical(es)))
  {
    SortByNameSorts(es);
    LastOfRunsIsLatest(SortByName(es));
    SortedNeighboursDiffer(es);
    LastOfRunsKeeps(SortByName(es));
  }

  lemma {:induction false} LastOfRunsKeeps(es: seq<Export>)
    requires forall i :: 0 <= i < |es| - 1 ==> es[i].name != es[i + 1].name
    ensures LastOfRuns(es) == es
  {
    if |es| > 1 {
      assert es[0].name != es[0 + 1].name;
      forall i | 0 <= i < |es[1..]| - 1 ensures es[1..][i].name != es[1..][i + 1].name {
        assert es[i + 1].name != es[i + 1 + 1].name;
      }
      LastOfRunsKeeps(es[1..]);
      assert es == [es[0]] + es[1..];
    }
  }

  lemma DistinctNamesOnce(es: seq<Export>, e: Export)
    requires forall i, j :: 0 <= i < j < |es| ==> es[i].name != es[j].name
    ensures multiset(es)[e] <= 1
  {
    if e in es {
      var x :| 0 <= x < |es| && es[x] == e;
      assert es == es[..x] + [e] + es[x + 1..];
      assert e !in es[..x] && e !in es[x + 1..];
    }
  }

  lemma SortedNeighboursDiffer(es: seq<Export>)
    requires forall i, j :: 0 <= i < j < |es| ==> es[i].name != es[j].name
    ensures forall i :: 0 <= i < |SortByName(es)| - 1 ==> SortByName(es)[i].name != SortByName(es)[i + 1].name
  {
    SortByNameSorts(es);
    var s := SortByName(es);
    forall i | 0 <= i < |s| - 1 ensures s[i].name != s[i + 1].name {
      assert s[i] in multiset(s) && s[i + 1] in multiset(s);
      assert s[i] in es && s[i + 1] in es;
      DistinctNamesOnce(es, s[i]);
      NeighboursTwice(s, i);
    }
  }

  lemma NeighboursTwice(s: seq<Export>, i: nat)
    requires i + 1 < |s|
    ensures s[i] == s[i + 1] ==> multiset(s)[s[i]] >= 2
  {
    if s[i] == s[i + 1] {
      assert s == s[..i] + [s[i], s[i]] + s[i + 2..];
      assert multiset([s[i], s[i]])[s[i]] == 2;
    }
  }

  // ----- build ----------------------------------------------------------

  ghost predicate PlainNames(es: seq<Export>) {
    forall i :: 0 <= i < |es| ==> PlainName(es[i].name)
  }

  /** `t` is a radix tree whose map is the latest binding of each name in `sorted`, with
      children in ascending order and no idle nodes. */
  ghost predicate TreeOf(t: Shape, sorted: seq<Export>) {
    && Radix(t) && InRange(t.nodes) && AllBushy(t) && Ascending(t)
    && forall q :: Lookup(t.nodes, q) == Latest(sorted, q)
  }

  lemma NextNameIsLast(t: Shape, sorted: seq<Export>, j: nat)
    requires NameSorted(sorted) && j < |sorted| && TreeOf(t, sorted[..j])
    ensures ReadyFor(t, 0, sorted[j].name) && NoneAfter(t, t.paths[0] + sorted[j].name)
    ensures t.paths[0] + sorted[j].name == sorted[j].name
  {
    assert Bushy(t, 0);
    assert t.paths[0] + sorted[j].name == sorted[j].name;
    forall x | 0 <= x < |t.nodes| && t.nodes[x].terminal.Some?
      ensures t.paths[x] == sorted[j].name || Before(t.paths[x], sorted[j].name)
    {
      LookupIffNode(t, t.paths[x], t.nodes[x].terminal.value);
      LatestIsMember(sorted[..j], t.paths[x]);
      var y :| 0 <= y < |sorted[..j]| && sorted[..j][y].name == t.paths[x];
      BeforeTotal(sorted[y].name, sorted[j].name);
    }
  }

  lemma TreeGrows(t: Shape, r: Shape, sorted: seq<Export>, j: nat)
    requires NameSorted(sorted) && j < |sorted| && TreeOf(t, sorted[..j])
    requires Inserted(t, r, 0, sorted[j].name, sorted[j].info)
    ensures TreeOf(r, sorted[..j + 1])
  {
    NextNameIsLast(t, sorted, j);
    assert sorted[..j + 1][..j] == sorted[..j];
  }

  method BuildTree(sorted: seq<Export>) returns (tree: Tree)
    requires NameSorted(sorted) && PlainNames(sorted)
    ensures tree.Valid() && TreeOf(tree.View(), sorted)
  {
    tree := new Tree();
    var j := 0;
    while j < |sorted|
      invariant j <= |sorted| && tree.Valid() && fresh(tree) && TreeOf(tree.View(), sorted[..j])
    {
      ghost var t := tree.View();
      tree.Insert(0, sorted[j].name, sorted[j].info);
      TreeGrows(t, tree.View(), sorted, j);
      j := j + 1;
    }
    assert sorted[..|sorted|] == sorted;
  }

  method EncodeAll(nodes: seq<TrieNode>, offsets: Table) returns (out: seq<byte>)
    requires InRange(nodes) && |offsets| == |nodes|
    ensures out == Blob(nodes, offsets)
  {
    out := [];
    ghost var chunks := NodeChunks(nodes, offsets);
    for i := 0 to |nodes|
      invariant out == Joined(chunks, i)
    {
      out := EncodeNode(nodes[i], offsets, out);
    }
  }

  lemma TableLength(nodes: seq<TrieNode>, k: nat)
    requires InRange(nodes)
    ensures |Iterate(nodes, k)| == |nodes|
  {
    RoundMonotone(nodes);
    TimesLength(Round(nodes), |nodes|, k);
  }

  ghost predicate RegularExports(es: seq<Export>) {
    forall i :: 0 <= i < |es| ==> Regular(es[i].info)
  }

  /** `build`. Its blob is the encoding of a radix tree for the exports under the 16th
      offset table; when that table is self-consistent, and in particular for every blob
      of at most 2 MiB, the blob parses back to the exports in name order. */
  method Build(exports: seq<Export>) returns (blob: seq<byte>, ghost t: Shape)
    requires PlainNames(exports)
    ensures exports == [] ==> blob == []
    ensures exports != [] ==>
              && TreeOf(t, SortByName(exports)) && |Iterate(t.nodes, 16)| == |t.nodes|
              && blob == Blob(t.nodes, Iterate(t.nodes, 16))
              && (RegularExports(exports) && |blob| < U64_LIMIT && SelfConsistent(t.nodes, Iterate(t.nodes, 16))
                  ==> ParseOutcome(blob, |blob|) == Done(Canonical(exports)))
    ensures RegularExports(exports) && |blob| <= 0x20_0000 ==> ParseOutcome(blob, |blob|) == Done(Canonical(exports))
  {
    t := Shape([], [], []);
    if exports == [] {
      return [], t;
    }
    var sorted := SortByName(exports);
    SortedKeeps(exports);
    var tree := BuildTree(sorted);
    t := tree.View();
    var offsets := SettleOffsets(tree.nodes);
    TableLength(t.nodes, 16);
    blob := EncodeAll(tree.nodes, offsets);
    BuiltRoundTrip(exports, t);
  }

  lemma SortedKeeps(es: seq<Export>)
    ensures NameSorted(SortByName(es))
    ensures PlainNames(es) ==> PlainNames(SortByName(es))
    ensures RegularExports(es) ==> RegularExports(SortByName(es))
  {
    SortByNameSorts(es);
    var s := SortByName(es);
    forall i | 0 <= i < |s| ensures exists x :: 0 <= x < |es| && es[x] == s[i] {
      assert s[i] in multiset(s);
      assert s[i] in es;
    }
  }

  lemma TreeOfRegular(t: Shape, sorted: seq<Export>)
    requires TreeOf(t, sorted) && RegularExports(sorted)
    ensures AllRegular(t)
  {
    forall i | 0 <= i < |t.nodes| && t.nodes[i].terminal.Some? ensures Regular(t.nodes[i].terminal.value) {
      LookupIffNode(t, t.paths[i], t.nodes[i].terminal.value);
      LatestValueMember(sorted, t.paths[i]);
    }
  }

  lemma {:induction false} LatestValueMember(es: seq<Export>, q: Name)
    ensures Latest(es, q).Some? ==> exists i :: 0 <= i < |es| && es[i].info == Latest(es, q).value
  {
    if es != [] {
      LatestValueMember(es[..|es| - 1], q);
    }
  }

  lemma TreeOfDenotes(t: Shape, es: seq<Export>)
    requires TreeOf(t, SortByName(es))
    ensures StrictlySorted(Names(Canonical(es))) && Denotes(t, Canonical(es))
  {
    SortByNameSorts(es);
    LastOfRunsIsLatest(SortByName(es));
  }

  /** What `build` wrote parses back whenever its table settled, and its table always
      settles when the blob is no longer than 2 MiB. */
  lemma BuiltRoundTrip(exports: seq<Export>, t: Shape)
    requires TreeOf(t, SortByName(exports)) && |Iterate(t.nodes, 16)| == |t.nodes|
    ensures var blob := Blob(t.nodes, Iterate(t.nodes, 16));
            && (RegularExports(exports) && |blob| < U64_LIMIT && SelfConsistent(t.nodes, Iterate(t.nodes, 16))
                ==> ParseOutcome(blob, |blob|) == Done(Canonical(exports)))
            && (|blob| <= 0x20_0000 ==> SelfConsistent(t.nodes, Iterate(t.nodes, 16)))
  {
    var offs := Iterate(t.nodes, 16);
    var blob := Blob(t.nodes, offs);
    if |blob| <= 0x20_0000 {
      TableBelowBlob(t);
      SettlesWithinCap(t);
    }
    if RegularExports(exports) && |blob| < U64_LIMIT && SelfConsistent(t.nodes, offs) {
      SortedKeeps(exports);
      TreeOfRegular(t, SortByName(exports));
      TreeOfDenotes(t, exports);
      EncodedParses(t, offs, Canonical(exports));
    }
  }

  /** No entry of the final table lies past the blob it produced. */
  lemma TableBelowBlob(t: Shape)
    requires Radix(t) && InRange(t.nodes) && |Iterate(t.nodes, 16)| == |t.nodes|
    ensures forall i :: 0 <= i < |t.nodes| ==> Iterate(t.nodes, 16)[i] < |Blob(t.nodes, Iterate(t.nodes, 16))|
  {
    RoundMonotone(t.nodes);
    TimesLength(Round(t.nodes), |t.nodes|, 15);
    TimesAscend(Round(t.nodes), |t.nodes|, 15, 16);
    StartsBelowBlob(t, Iterate(t.nodes, 15), Iterate(t.nodes, 16));
  }

  lemma StartsBelowBlob(t: Shape, a: Table, b: Table)
    requires Radix(t) && InRange(t.nodes) && |a| == |t.nodes| && b == Layout(t.nodes, a) && Leq(a, b)
    ensures forall i :: 0 <= i < |t.nodes| ==> b[i] < |Blob(t.nodes, b)|
  {
    var sizes := Sizes(t.nodes, b);
    JoinedSize(NodeChunks(t.nodes, b), sizes, |t.nodes|);
    SizesMono(t.nodes, a, b);
    forall i | 0 <= i < |t.nodes| ensures b[i] < |Blob(t.nodes, b)| {
      PrefixSumMono(Sizes(t.nodes, a), sizes, i);
      BushyNodeSize(t, i, b);
      PrefixSumGrows(sizes, i + 1, |t.nodes|);
    }
  }
}
