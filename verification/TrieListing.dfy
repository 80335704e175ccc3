/** The depth-first listing of a radix tree: every node once, names ascending. */
module TrieListing {
  import opened Bytes
  import opened NameOrder
  import opened TrieTree
  import opened TrieBuild

  datatype Export = Export(name: Name, info: TerminalInfo)

  // ----- preorder -------------------------------------------------------

  /** Node ids in the order the parser visits them. */
  ghost function Preorder(t: Shape, i: nat): (ids: seq<nat>)
    requires Radix(t) && i < |t.nodes|
    ensures |ids| >= 1 && IdsInRange(t, ids)
    decreases Longest(t.paths) - |t.paths[i]|, 1, 0
  {
    [i] + PreorderFrom(t, i, 0)
  }

  ghost function PreorderFrom(t: Shape, i: nat, k: nat): (ids: seq<nat>)
    requires Radix(t) && i < |t.nodes| && k <= |t.nodes[i].children|
    ensures IdsInRange(t, ids)
    decreases Longest(t.paths) - |t.paths[i]|, 0, |t.nodes[i].children| - k
  {
    if k == |t.nodes[i].children| then []
    else
      assert EdgeOk(t, i, k);
      Preorder(t, t.nodes[i].children[k].target) + PreorderFrom(t, i, k + 1)
  }

  ghost predicate IdsInRange(t: Shape, ids: seq<nat>) {
    forall x :: 0 <= x < |ids| ==> ids[x] < |t.nodes|
  }

  ghost function PathsOf(t: Shape, ids: seq<nat>): seq<Name>
    requires |t.paths| == |t.nodes| && IdsInRange(t, ids)
  {
    seq(|ids|, (x: nat) requires x < |ids| => t.paths[ids[x]])
  }

  /** Everything listed under node `i` lies in range and below `i`'s path. */
  lemma {:induction false} PreorderBelow(t: Shape, i: nat, x: nat)
    requires Radix(t) && i < |t.nodes| && x < |Preorder(t, i)|
    ensures Preorder(t, i)[x] < |t.nodes| && t.paths[i] <= t.paths[Preorder(t, i)[x]]
    decreases Longest(t.paths) - |t.paths[i]|, 1, 0
  {
    if x > 0 {
      PreorderFromBelow(t, i, 0, x - 1);
    }
  }

  /** ... and below one of the edges from slot `k` on. */
  lemma {:induction false} PreorderFromBelow(t: Shape, i: nat, k: nat, x: nat)
    requires Radix(t) && i < |t.nodes| && k <= |t.nodes[i].children| && x < |PreorderFrom(t, i, k)|
    ensures PreorderFrom(t, i, k)[x] < |t.nodes|
    ensures exists l :: k <= l < |t.nodes[i].children| && t.paths[i] + t.nodes[i].children[l].text <= t.paths[PreorderFrom(t, i, k)[x]]
    decreases Longest(t.paths) - |t.paths[i]|, 0, |t.nodes[i].children| - k
  {
    assert EdgeOk(t, i, k);
    var first := Preorder(t, t.nodes[i].children[k].target);
    if x < |first| {
      PreorderBelow(t, t.nodes[i].children[k].target, x);
    } else {
      PreorderFromBelow(t, i, k + 1, x - |first|);
    }
  }

  /** With children in ascending order the listing spells strictly ascending names. */
  lemma {:induction false} PreorderSorted(t: Shape, i: nat)
    requires Radix(t) && Ascending(t) && i < |t.nodes|
    ensures StrictlySorted(PathsOf(t, Preorder(t, i)))
    decreases Longest(t.paths) - |t.paths[i]|, 1, 0
  {
    PreorderFromSorted(t, i, 0);
    var rest := PreorderFrom(t, i, 0);
    forall x | 0 <= x < |rest| ensures Before(t.paths[i], t.paths[rest[x]]) {
      PreorderFromBelow(t, i, 0, x);
      var l :| 0 <= l < |t.nodes[i].children| && t.paths[i] + t.nodes[i].children[l].text <= t.paths[rest[x]];
      assert EdgeOk(t, i, l);
      assert t.paths[i] < t.paths[rest[x]];
      PrefixBefore(t.paths[i], t.paths[rest[x]]);
    }
    assert PathsOf(t, Preorder(t, i)) == [t.paths[i]] + PathsOf(t, rest);
  }

  lemma {:induction false} PreorderFromSorted(t: Shape, i: nat, k: nat)
    requires Radix(t) && Ascending(t) && i < |t.nodes| && k <= |t.nodes[i].children|
    ensures StrictlySorted(PathsOf(t, PreorderFrom(t, i, k)))
    decreases Longest(t.paths) - |t.paths[i]|, 0, |t.nodes[i].children| - k
  {
    if k < |t.nodes[i].children| {
      assert EdgeOk(t, i, k);
      var child := t.nodes[i].children[k].target;
      PreorderSorted(t, child);
      PreorderFromSorted(t, i, k + 1);
      var first, rest := Preorder(t, child), PreorderFrom(t, i, k + 1);
      forall x, y | 0 <= x < |first| && 0 <= y < |rest| ensures Before(t.paths[first[x]], t.paths[rest[y]]) {
        PreorderBelow(t, child, x);
        PreorderFromBelow(t, i, k + 1, y);
        var l :| k + 1 <= l < |t.nodes[i].children| && t.paths[i] + t.nodes[i].children[l].text <= t.paths[rest[y]];
        SiblingsOrder(t, i, k, l, t.paths[first[x]], t.paths[rest[y]]);
      }
      assert PathsOf(t, PreorderFrom(t, i, k)) == PathsOf(t, first) + PathsOf(t, rest);
      StrictlySortedConcat(PathsOf(t, first), PathsOf(t, rest));
    }
  }

  /** Names through an earlier edge come before names through a later one. */
  lemma SiblingsOrder(t: Shape, i: nat, k: nat, l: nat, a: Name, b: Name)
    requires Radix(t) && Ascending(t) && i < |t.nodes| && k < l < |t.nodes[i].children|
    requires t.paths[i] + t.nodes[i].children[k].text <= a
    requires t.paths[i] + t.nodes[i].children[l].text <= b
    ensures Before(a, b)
  {
    assert EdgeOk(t, i, k) && EdgeOk(t, i, l) && AscendingNode(t.nodes[i]);
    var p := t.paths[i];
    var e, f := t.nodes[i].children[k].text, t.nodes[i].children[l].text;
    assert a == p + a[|p|..] && b == p + b[|p|..];
    assert a[|p|] == (p + e)[|p|] == e[0] && b[|p|] == (p + f)[|p|] == f[0];
    BeforeUnderPrefix(p, a[|p|..], b[|p|..]);
  }

  /** A listed node's children are listed too. */
  lemma {:induction false} PreorderClosed(t: Shape, i: nat, j: nat, k: nat)
    requires Radix(t) && i < |t.nodes| && j < |t.nodes| && k < |t.nodes[j].children|
    requires j in Preorder(t, i)
    ensures t.nodes[j].children[k].target in Preorder(t, i)
    decreases Longest(t.paths) - |t.paths[i]|, 1, 0
  {
    if j == i {
      ChildListed(t, i, 0, k);
    } else {
      PreorderFromClosed(t, i, 0, j, k);
    }
  }

  lemma {:induction false} PreorderFromClosed(t: Shape, i: nat, from: nat, j: nat, k: nat)
    requires Radix(t) && i < |t.nodes| && from <= |t.nodes[i].children|
    requires j < |t.nodes| && k < |t.nodes[j].children| && j in PreorderFrom(t, i, from)
    ensures t.nodes[j].children[k].target in PreorderFrom(t, i, from)
    decreases Longest(t.paths) - |t.paths[i]|, 0, |t.nodes[i].children| - from
  {
    assert EdgeOk(t, i, from);
    var child := t.nodes[i].children[from].target;
    if j in Preorder(t, child) {
      PreorderClosed(t, child, j, k);
    } else {
      PreorderFromClosed(t, i, from + 1, j, k);
    }
  }

  lemma {:induction false} ChildListed(t: Shape, i: nat, from: nat, k: nat)
    requires Radix(t) && i < |t.nodes| && from <= k < |t.nodes[i].children|
    ensures t.nodes[i].children[k].target in PreorderFrom(t, i, from)
    decreases k - from
  {
    assert EdgeOk(t, i, from);
    if from < k {
      ChildListed(t, i, from + 1, k);
    }
  }

  /** The listing from the root reaches every node. */
  lemma {:induction false} PreorderCovers(t: Shape, j: nat)
    requires Radix(t) && j < |t.nodes|
    ensures j in Preorder(t, 0)
    decreases |t.paths[j]|
  {
    if j != 0 {
      assert ParentOk(t, j);
      var i, k := t.parents[j].0, t.parents[j].1;
      assert EdgeOk(t, i, k);
      PreorderCovers(t, i);
      PreorderClosed(t, 0, i, k);
    }
  }

  /** ... and lists it once, so it is no longer than the node list. */
  lemma PreorderLength(t: Shape)
    requires Radix(t) && Ascending(t)
    ensures |Preorder(t, 0)| <= |t.nodes|
  {
    var ids := Preorder(t, 0);
    PreorderSorted(t, 0);
    StrictlySortedDistinct(PathsOf(t, ids));
    forall x, y | 0 <= x < y < |ids| ensures ids[x] != ids[y] {
      assert PathsOf(t, ids)[x] != PathsOf(t, ids)[y];
    }
    DistinctBelow(ids, 0, |t.nodes|);
  }

  // ----- the exports the listing carries --------------------------------

  ghost function Listed(t: Shape, ids: seq<nat>): seq<Export>
    requires |t.paths| == |t.nodes| && IdsInRange(t, ids)
  {
    if ids == [] then []
    else
      assert IdsInRange(t, ids[1..]);
      (match t.nodes[ids[0]].terminal
       case None => []
       case Some(info) => [Export(t.paths[ids[0]], info)]) + Listed(t, ids[1..])
  }

  lemma {:induction false} ListedConcat(t: Shape, a: seq<nat>, b: seq<nat>)
    requires |t.paths| == |t.nodes| && IdsInRange(t, a) && IdsInRange(t, b) && IdsInRange(t, a + b)
    ensures Listed(t, a + b) == Listed(t, a) + Listed(t, b)
  {
    if a == [] {
      assert a + b == b;
    } else {
      assert (a + b)[1..] == a[1..] + b;
      ListedConcat(t, a[1..], b);
    }
  }

  lemma {:induction false} ListedIff(t: Shape, ids: seq<nat>, e: Export)
    requires |t.paths| == |t.nodes| && IdsInRange(t, ids)
    ensures e in Listed(t, ids) <==>
            exists x :: 0 <= x < |ids| && t.paths[ids[x]] == e.name && t.nodes[ids[x]].terminal == Some(e.info)
  {
    if ids != [] {
      ListedIff(t, ids[1..], e);
      if x :| 0 <= x < |ids| && t.paths[ids[x]] == e.name && t.nodes[ids[x]].terminal == Some(e.info) {
        if x > 0 {
          assert ids[1..][x - 1] == ids[x];
        }
      }
      if y :| 0 <= y < |ids[1..]| && t.paths[ids[1..][y]] == e.name && t.nodes[ids[1..][y]].terminal == Some(e.info) {
        assert ids[y + 1] == ids[1..][y];
      }
    }
  }

  function Names(es: seq<Export>): (names: seq<Name>)
    ensures |names| == |es| && forall i :: 0 <= i < |es| ==> names[i] == es[i].name
  {
    seq(|es|, (i: nat) requires i < |es| => es[i].name)
  }

  lemma {:induction false} ListedSorted(t: Shape, ids: seq<nat>)
    requires |t.paths| == |t.nodes| && IdsInRange(t, ids) && StrictlySorted(PathsOf(t, ids))
    ensures StrictlySorted(Names(Listed(t, ids)))
  {
    if ids != [] {
      forall x, y | 0 <= x < y < |ids[1..]| ensures Before(PathsOf(t, ids[1..])[x], PathsOf(t, ids[1..])[y]) {
        assert PathsOf(t, ids)[x + 1] == PathsOf(t, ids[1..])[x] && PathsOf(t, ids)[y + 1] == PathsOf(t, ids[1..])[y];
      }
      ListedSorted(t, ids[1..]);
      var rest := Listed(t, ids[1..]);
      forall j | 0 <= j < |rest| ensures Before(t.paths[ids[0]], rest[j].name) {
        ListedIff(t, ids[1..], rest[j]);
        var x :| 0 <= x < |ids[1..]| && t.paths[ids[1..][x]] == rest[j].name && t.nodes[ids[1..][x]].terminal == Some(rest[j].info);
        assert PathsOf(t, ids)[0] == t.paths[ids[0]] && PathsOf(t, ids)[x + 1] == rest[j].name;
      }
    }
  }

  /** Two strictly sorted export lists with the same members are the same list. */
  lemma {:induction false} SortedListsEqual(a: seq<Export>, b: seq<Export>)
    requires StrictlySorted(Names(a)) && StrictlySorted(Names(b))
    requires forall e :: e in a <==> e in b
    ensures a == b
  {
    assert (a != [] ==> a[0] in a) && (b != [] ==> b[0] in b);
    if a != [] && b != [] {
      HeadsEqual(a, b);
      forall e ensures e in a[1..] <==> e in b[1..] {
        TailMember(a, e);
        TailMember(b, e);
      }
      TailSorted(a);
      TailSorted(b);
      SortedListsEqual(a[1..], b[1..]);
      assert a == [a[0]] + a[1..] && b == [b[0]] + b[1..];
    }
  }

  lemma HeadsEqual(a: seq<Export>, b: seq<Export>)
    requires StrictlySorted(Names(a)) && StrictlySorted(Names(b)) && a != [] && b != []
    requires forall e :: e in a <==> e in b
    ensures a[0] == b[0]
  {
    assert a[0] in b && b[0] in a;
    var x :| 0 <= x < |b| && b[x] == a[0];
    var y :| 0 <= y < |a| && a[y] == b[0];
    if x > 0 && y > 0 {
      assert Before(Names(b)[0], Names(b)[x]) && Before(Names(a)[0], Names(a)[y]);
      BeforeTransitive(a[0].name, b[0].name, a[0].name);
      BeforeIrreflexive(a[0].name);
    }
  }

  lemma TailMember(a: seq<Export>, e: Export)
    requires StrictlySorted(Names(a)) && a != []
    ensures e in a[1..] <==> e in a && e != a[0]
  {
    if e in a[1..] {
      var x :| 0 <= x < |a[1..]| && a[1..][x] == e;
      assert a[x + 1] == e && Before(Names(a)[0], Names(a)[x + 1]);
      BeforeIrreflexive(e.name);
    }
    if e in a && e != a[0] {
      var x :| 0 <= x < |a| && a[x] == e;
      assert a[1..][x - 1] == e;
    }
  }

  lemma TailSorted(a: seq<Export>)
    requires StrictlySorted(Names(a)) && a != []
    ensures StrictlySorted(Names(a[1..]))
  {
    forall i, j | 0 <= i < j < |a[1..]| ensures Before(Names(a[1..])[i], Names(a[1..])[j]) {
      assert Names(a)[i + 1] == Names(a[1..])[i] && Names(a)[j + 1] == Names(a[1..])[j];
    }
  }

  /** Listing an ascending tree gives back exactly the map it denotes, in name order. */
  lemma ListingIsMap(t: Shape, es: seq<Export>)
    requires Radix(t) && Ascending(t) && InRange(t.nodes) && StrictlySorted(Names(es))
    requires forall q, info :: Lookup(t.nodes, q) == Some(info) <==> Export(q, info) in es
    ensures Listed(t, Preorder(t, 0)) == es
  {
    var ids := Preorder(t, 0);
    PreorderSorted(t, 0);
    ListedSorted(t, ids);
    forall e ensures e in Listed(t, ids) <==> e in es {
      ListedIff(t, ids, e);
      LookupIffNode(t, e.name, e.info);
      assert e == Export(e.name, e.info);
      if e in es {
        assert Lookup(t.nodes, e.name) == Some(e.info);
        var j :| 0 <= j < |t.nodes| && t.paths[j] == e.name && t.nodes[j].terminal == Some(e.info);
        PreorderCovers(t, j);
        var x :| 0 <= x < |ids| && ids[x] == j;
      }
    }
    SortedListsEqual(Listed(t, ids), es);
  }
}
