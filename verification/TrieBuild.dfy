/** Inserting symbols into the radix tree, and what each insertion does to the map
    the tree denotes. */
module TrieBuild {
  import opened Bytes
  import opened NameOrder
  import opened TrieTree

  function CommonPrefixLen(a: Name, b: Name): (c: nat)
    ensures c <= |a| && c <= |b| && a[..c] == b[..c]
    ensures c < |a| && c < |b| ==> a[c] != b[c]
  {
    if a == [] || b == [] || a[0] != b[0] then 0
    else
      var c := CommonPrefixLen(a[1..], b[1..]);
      assert a[..c + 1] == [a[0]] + a[1..][..c] && b[..c + 1] == [b[0]] + b[1..][..c];
      c + 1
  }

  // ----- the three edits an insertion can make --------------------------

  ghost function WithTerminal(t: Shape, idx: nat, info: TerminalInfo): Shape
    requires Radix(t) && idx < |t.nodes|
  {
    t.(nodes := t.nodes[idx := t.nodes[idx].(terminal := Some(info))])
  }

  ghost function WithLeaf(t: Shape, idx: nat, name: Name, info: TerminalInfo): Shape
    requires Radix(t) && idx < |t.nodes|
  {
    var node := t.nodes[idx];
    Shape(t.nodes[idx := node.(children := node.children + [Edge(name, |t.nodes|)])] + [TrieNode(Some(info), [])],
          t.paths + [t.paths[idx] + name],
          t.parents + [(idx, |node.children|)])
  }

  ghost function WithSplit(t: Shape, idx: nat, ci: nat, common: nat): Shape
    requires Radix(t) && idx < |t.nodes| && ci < |t.nodes[idx].children|
    requires common < |t.nodes[idx].children[ci].text|
  {
    var node := t.nodes[idx];
    var edge := node.children[ci];
    assert EdgeOk(t, idx, ci);
    Shape(t.nodes[idx := node.(children := node.children[ci := Edge(edge.text[..common], |t.nodes|)])]
            + [TrieNode(None, [Edge(edge.text[common..], edge.target)])],
          t.paths + [t.paths[idx] + edge.text[..common]],
          t.parents[edge.target := (|t.nodes|, 0)] + [(idx, ci)])
  }

  /** No child of `idx` shares a first byte with `name`. */
  ghost predicate NoneShares(node: TrieNode, name: Name, upTo: nat)
    requires upTo <= |node.children|
  {
    forall k :: 0 <= k < upTo ==> CommonPrefixLen(node.children[k].text, name) == 0
  }

  lemma TerminalKeepsRadix(t: Shape, idx: nat, info: TerminalInfo)
    requires Radix(t) && idx < |t.nodes|
    ensures Radix(WithTerminal(t, idx, info))
  {
    var r := WithTerminal(t, idx, info);
    forall i, k | 0 <= i < |r.nodes| && 0 <= k < |r.nodes[i].children| ensures EdgeOk(r, i, k) {
      assert EdgeOk(t, i, k);
    }
    forall c | 0 < c < |r.nodes| ensures ParentOk(r, c) {
      assert ParentOk(t, c);
    }
    forall i | 0 <= i < |r.nodes| ensures SiblingsDiffer(r.nodes[i]) {
      assert SiblingsDiffer(t.nodes[i]);
    }
  }

  lemma PlainConcat(a: Name, b: Name)
    requires PlainName(a) && PlainName(b)
    ensures PlainName(a + b)
  {}

  lemma LeafKeepsRadix(t: Shape, idx: nat, name: Name, info: TerminalInfo)
    requires Radix(t) && idx < |t.nodes| && name != [] && PlainName(name)
    requires NoneShares(t.nodes[idx], name, |t.nodes[idx].children|)
    ensures Radix(WithLeaf(t, idx, name, info))
  {
    var r := WithLeaf(t, idx, name, info);
    var n := |t.nodes|;
    PlainConcat(t.paths[idx], name);
    forall i, k | 0 <= i < |r.nodes| && 0 <= k < |r.nodes[i].children| ensures EdgeOk(r, i, k) {
      if i < n && k < |t.nodes[i].children| {
        assert EdgeOk(t, i, k);
      }
    }
    forall c | 0 < c < |r.nodes| ensures ParentOk(r, c) {
      if c < n {
        assert ParentOk(t, c);
      }
    }
    forall i | 0 <= i < |r.nodes| ensures SiblingsDiffer(r.nodes[i]) {
      if i < n {
        assert SiblingsDiffer(t.nodes[i]);
      }
    }
  }

  lemma SplitKeepsRadix(t: Shape, idx: nat, ci: nat, common: nat)
    requires Radix(t) && idx < |t.nodes| && ci < |t.nodes[idx].children|
    requires 0 < common < |t.nodes[idx].children[ci].text|
    ensures Radix(WithSplit(t, idx, ci, common))
  {
    var r := WithSplit(t, idx, ci, common);
    var n := |t.nodes|;
    var edge := t.nodes[idx].children[ci];
    assert EdgeOk(t, idx, ci);
    assert edge.text == edge.text[..common] + edge.text[common..];
    assert t.paths[edge.target] == t.paths[idx] + edge.text[..common] + edge.text[common..];
    assert forall x :: 0 <= x < |r.paths[n]| ==> r.paths[n][x] == t.paths[edge.target][x];
    forall i, k | 0 <= i < |r.nodes| && 0 <= k < |r.nodes[i].children| ensures EdgeOk(r, i, k) {
      if i < n {
        assert EdgeOk(t, i, k);
      }
    }
    forall c | 0 < c < |r.nodes| ensures ParentOk(r, c) {
      if c < n {
        assert ParentOk(t, c);
      }
    }
    forall i | 0 <= i < |r.nodes| ensures SiblingsDiffer(r.nodes[i]) {
      if i < n {
        assert SiblingsDiffer(t.nodes[i]);
      }
    }
  }

  /** If `r` only differs from `t` at the node for `full`, and new nodes end nothing
      else, every other name is looked up as before. */
  lemma LookupElsewhere(t: Shape, r: Shape, full: Name, q: Name)
    requires Radix(t) && Radix(r) && InRange(t.nodes) && InRange(r.nodes)
    requires t.paths <= r.paths && q != full
    requires forall j :: 0 <= j < |t.nodes| && t.paths[j] != full ==> r.nodes[j].terminal == t.nodes[j].terminal
    requires forall j :: |t.nodes| <= j < |r.nodes| ==> r.paths[j] == full || r.nodes[j].terminal.None?
    ensures Lookup(r.nodes, q) == Lookup(t.nodes, q)
  {
    var w, x := Walk(t.nodes, 0, q), Walk(r.nodes, 0, q);
    if w.Some? {
      WalkIffPath(t, q, w.value);
      WalkIffPath(r, q, w.value);
    } else if x.Some? {
      WalkIffPath(r, q, x.value);
      if x.value < |t.nodes| {
        WalkIffPath(t, q, x.value);
      }
    }
  }

  /** The denoted map of `r` is that of `t` with `full` bound to `info`. */
  ghost predicate Updated(t: Shape, r: Shape, full: Name, info: TerminalInfo)
    requires InRange(t.nodes) && InRange(r.nodes) && |t.nodes| > 0 && |r.nodes| > 0
  {
    forall q :: Lookup(r.nodes, q) == if q == full then Some(info) else Lookup(t.nodes, q)
  }

  lemma EditUpdates(t: Shape, r: Shape, full: Name, info: TerminalInfo, at: nat)
    requires Radix(t) && Radix(r) && InRange(t.nodes) && InRange(r.nodes)
    requires t.paths <= r.paths && at < |r.nodes|
    requires r.paths[at] == full && r.nodes[at].terminal == Some(info)
    requires forall j :: 0 <= j < |t.nodes| && j != at ==> r.nodes[j].terminal == t.nodes[j].terminal
    requires forall j :: |t.nodes| <= j < |r.nodes| && j != at ==> r.nodes[j].terminal.None?
    ensures Updated(t, r, full, info)
  {
    forall q ensures Lookup(r.nodes, q) == if q == full then Some(info) else Lookup(t.nodes, q) {
      if q == full {
        LookupIffNode(r, q, info);
      } else {
        LookupElsewhere(t, r, full, q);
      }
    }
  }

  /** Splitting an edge changes no lookup. */
  lemma SplitKeepsMap(t: Shape, idx: nat, ci: nat, common: nat, q: Name)
    requires Radix(t) && InRange(t.nodes) && idx < |t.nodes| && ci < |t.nodes[idx].children|
    requires 0 < common < |t.nodes[idx].children[ci].text|
    ensures var r := WithSplit(t, idx, ci, common);
            Radix(r) && InRange(r.nodes) && Lookup(r.nodes, q) == Lookup(t.nodes, q)
  {
    SplitKeepsRadix(t, idx, ci, common);
    var r := WithSplit(t, idx, ci, common);
    RadixInRange(r);
    LookupElsewhere(t, r, q + [0], q);
  }

  // ----- shape facts the encoder and the ordering rely on ----------------

  /** A node that is not the root ends a name or branches. */
  ghost predicate Bushy(t: Shape, i: nat)
    requires i < |t.nodes|
  {
    i == 0 || t.nodes[i].terminal.Some? || |t.nodes[i].children| >= 2
  }

  ghost predicate AllBushy(t: Shape) {
    forall i :: 0 <= i < |t.nodes| ==> Bushy(t, i)
  }

  /** `AllBushy`, except that a freshly split node `idx` is about to receive `name`. */
  ghost predicate ReadyFor(t: Shape, idx: nat, name: Name)
    requires idx < |t.nodes|
  {
    && (forall i :: 0 <= i < |t.nodes| && i != idx ==> Bushy(t, i))
    && (Bushy(t, idx) || (|t.nodes[idx].children| > 0 && NoneShares(t.nodes[idx], name, |t.nodes[idx].children|)))
  }

  ghost predicate AscendingNode(node: TrieNode)
    requires TextsNonEmpty(node)
  {
    forall k, l :: 0 <= k < l < |node.children| ==> node.children[k].text[0] < node.children[l].text[0]
  }

  ghost predicate Ascending(t: Shape)
    requires Radix(t)
  {
    forall i :: 0 <= i < |t.nodes| ==> SiblingsDiffer(t.nodes[i]) && AscendingNode(t.nodes[i])
  }

  /** No name bound so far comes after `full`. */
  ghost predicate NoneAfter(t: Shape, full: Name)
    requires |t.paths| == |t.nodes|
  {
    forall j :: 0 <= j < |t.nodes| && t.nodes[j].terminal.Some? ==> t.paths[j] == full || Before(t.paths[j], full)
  }

  ghost function Longest(paths: seq<Name>): (m: nat)
    ensures forall i :: 0 <= i < |paths| ==> |paths[i]| <= m
  {
    if paths == [] then 0
    else
      var m := Longest(paths[1..]);
      assert forall i :: 0 < i < |paths| ==> paths[i] == paths[1..][i - 1];
      if |paths[0]| > m then |paths[0]| else m
  }

  /** Below every node some name ends. */
  lemma {:induction false} SubtreeEndsAName(t: Shape, i: nat, except: nat) returns (j: nat)
    requires Radix(t) && 0 < i < |t.nodes| && except < |t.nodes|
    requires |t.paths[except]| < |t.paths[i]|
    requires forall x :: 0 <= x < |t.nodes| && x != except ==> Bushy(t, x)
    ensures j < |t.nodes| && t.nodes[j].terminal.Some? && t.paths[i] <= t.paths[j]
    decreases Longest(t.paths) - |t.paths[i]|
  {
    if t.nodes[i].terminal.Some? {
      j := i;
    } else {
      assert Bushy(t, i) && EdgeOk(t, i, 0);
      j := SubtreeEndsAName(t, t.nodes[i].children[0].target, except);
    }
  }

  /** A name that none comes after opens its new edge after all of its siblings. */
  lemma LeafGoesLast(t: Shape, idx: nat, name: Name, k: nat)
    requires Radix(t) && idx < |t.nodes| && k < |t.nodes[idx].children| && name != []
    requires ReadyFor(t, idx, name) && NoneShares(t.nodes[idx], name, |t.nodes[idx].children|)
    requires NoneAfter(t, t.paths[idx] + name)
    ensures t.nodes[idx].children[k].text != [] && t.nodes[idx].children[k].text[0] < name[0]
  {
    assert EdgeOk(t, idx, k);
    var edge := t.nodes[idx].children[k];
    var j := SubtreeEndsAName(t, edge.target, idx);
    assert t.paths[j] == t.paths[idx] + t.paths[j][|t.paths[idx]|..];
    BeforeUnderPrefix(t.paths[idx], t.paths[j][|t.paths[idx]|..], name);
    assert t.paths[j][|t.paths[idx]|] == t.paths[edge.target][|t.paths[idx]|] == edge.text[0];
    assert CommonPrefixLen(edge.text, name) == 0;
  }

  lemma SplitReady(t: Shape, idx: nat, ci: nat, common: nat, name: Name)
    requires Radix(t) && idx < |t.nodes| && ci < |t.nodes[idx].children|
    requires 0 < common < |t.nodes[idx].children[ci].text|
    requires common == CommonPrefixLen(t.nodes[idx].children[ci].text, name)
    ensures var r := WithSplit(t, idx, ci, common);
            ReadyFor(t, idx, name) ==> ReadyFor(r, |t.nodes|, name[common..])
  {
    var r := WithSplit(t, idx, ci, common);
    if ReadyFor(t, idx, name) {
      assert !NoneShares(t.nodes[idx], name, |t.nodes[idx].children|);
      forall i | 0 <= i < |r.nodes| && i != |t.nodes| ensures Bushy(r, i) {
        assert Bushy(t, i);
      }
    }
  }

  lemma SplitAscends(t: Shape, idx: nat, ci: nat, common: nat)
    requires Radix(t) && Ascending(t) && idx < |t.nodes| && ci < |t.nodes[idx].children|
    requires 0 < common < |t.nodes[idx].children[ci].text|
    requires Radix(WithSplit(t, idx, ci, common))
    ensures Ascending(WithSplit(t, idx, ci, common))
  {
    var r := WithSplit(t, idx, ci, common);
    forall i | 0 <= i < |r.nodes| ensures AscendingNode(r.nodes[i]) {
      if i < |t.nodes| {
        assert AscendingNode(t.nodes[i]);
      }
    }
  }

  lemma LeafReady(t: Shape, idx: nat, name: Name, info: TerminalInfo)
    requires Radix(t) && idx < |t.nodes| && name != [] && PlainName(name)
    requires NoneShares(t.nodes[idx], name, |t.nodes[idx].children|)
    ensures var r := WithLeaf(t, idx, name, info);
            && Radix(r)
            && (ReadyFor(t, idx, name) ==> AllBushy(r))
            && (ReadyFor(t, idx, name) && Ascending(t) && NoneAfter(t, t.paths[idx] + name) ==> Ascending(r))
  {
    LeafKeepsRadix(t, idx, name, info);
    var r := WithLeaf(t, idx, name, info);
    var n := |t.nodes|;
    if ReadyFor(t, idx, name) {
      forall i | 0 <= i < |r.nodes| ensures Bushy(r, i) {
        if i < n && i != idx {
          assert Bushy(t, i);
        }
      }
      if Ascending(t) && NoneAfter(t, t.paths[idx] + name) {
        forall i | 0 <= i < |r.nodes| ensures AscendingNode(r.nodes[i]) {
          if i < n {
            assert AscendingNode(t.nodes[i]);
          }
          if i == idx {
            forall k | 0 <= k < |t.nodes[idx].children|
              ensures t.nodes[idx].children[k].text[0] < name[0]
            {
              LeafGoesLast(t, idx, name, k);
            }
          }
        }
      }
    }
  }

  /** What one insertion of `name` under node `idx` of `t` achieves: the result is a radix
      tree whose map is the old one with the full name bound to `info`; it stays bushy,
      and children stay in ascending order when names arrive in ascending order. */
  ghost predicate Inserted(t: Shape, r: Shape, idx: nat, name: Name, info: TerminalInfo)
    requires Radix(t) && InRange(t.nodes) && idx < |t.nodes|
  {
    && Radix(r) && InRange(r.nodes) && t.paths <= r.paths
    && Updated(t, r, t.paths[idx] + name, info)
    && (ReadyFor(t, idx, name) ==> AllBushy(r))
    && (ReadyFor(t, idx, name) && Ascending(t) && NoneAfter(t, t.paths[idx] + name) ==> Ascending(r))
  }

  lemma TerminalInserts(t: Shape, idx: nat, info: TerminalInfo)
    requires Radix(t) && InRange(t.nodes) && idx < |t.nodes|
    ensures Inserted(t, WithTerminal(t, idx, info), idx, [], info)
  {
    var r := WithTerminal(t, idx, info);
    TerminalKeepsRadix(t, idx, info);
    RadixInRange(r);
    assert t.paths[idx] + [] == t.paths[idx];
    EditUpdates(t, r, t.paths[idx], info, idx);
    if ReadyFor(t, idx, []) {
      forall i | 0 <= i < |r.nodes| ensures Bushy(r, i) {
        assert i != idx ==> Bushy(t, i);
      }
    }
    if Ascending(t) {
      forall i | 0 <= i < |r.nodes| ensures AscendingNode(r.nodes[i]) {
        assert AscendingNode(t.nodes[i]);
      }
    }
  }

  lemma LeafInserts(t: Shape, idx: nat, name: Name, info: TerminalInfo)
    requires Radix(t) && InRange(t.nodes) && idx < |t.nodes| && name != [] && PlainName(name)
    requires NoneShares(t.nodes[idx], name, |t.nodes[idx].children|)
    ensures Inserted(t, WithLeaf(t, idx, name, info), idx, name, info)
  {
    var r := WithLeaf(t, idx, name, info);
    LeafKeepsRadix(t, idx, name, info);
    RadixInRange(r);
    EditUpdates(t, r, t.paths[idx] + name, info, |t.nodes|);
    LeafReady(t, idx, name, info);
  }

  /** Inserting the remainder under a child whose whole label matches. */
  lemma DescentInserts(t: Shape, r: Shape, idx: nat, ci: nat, name: Name, info: TerminalInfo)
    requires Radix(t) && InRange(t.nodes) && idx < |t.nodes| && ci < |t.nodes[idx].children|
    requires t.nodes[idx].children[ci].text != [] && t.nodes[idx].children[ci].text <= name
    requires var edge := t.nodes[idx].children[ci]; Inserted(t, r, edge.target, name[|edge.text|..], info)
    ensures Inserted(t, r, idx, name, info)
  {
    var edge := t.nodes[idx].children[ci];
    assert EdgeOk(t, idx, ci);
    var rest := name[|edge.text|..];
    assert name == edge.text + rest;
    assert t.paths[edge.target] + rest == t.paths[idx] + name;
    assert CommonPrefixLen(edge.text, name) > 0;
    if ReadyFor(t, idx, name) {
      assert !NoneShares(t.nodes[idx], name, |t.nodes[idx].children|);
      assert ReadyFor(t, edge.target, rest);
    }
  }

  /** Inserting the remainder under the node that a split created. */
  lemma SplitInserts(t: Shape, r: Shape, idx: nat, ci: nat, common: nat, name: Name, info: TerminalInfo)
    requires Radix(t) && InRange(t.nodes) && idx < |t.nodes| && ci < |t.nodes[idx].children|
    requires 0 < common < |t.nodes[idx].children[ci].text|
    requires common == CommonPrefixLen(t.nodes[idx].children[ci].text, name)
    requires var mid := WithSplit(t, idx, ci, common);
             Radix(mid) && InRange(mid.nodes) && Inserted(mid, r, |t.nodes|, name[common..], info)
    ensures Inserted(t, r, idx, name, info)
  {
    hide Lookup, ReadyFor, Ascending, AllBushy, CommonPrefixLen;
    var mid := WithSplit(t, idx, ci, common);
    assert name == name[..common] + name[common..];
    assert mid.paths[|t.nodes|] + name[common..] == t.paths[idx] + name;
    forall q ensures Lookup(mid.nodes, q) == Lookup(t.nodes, q) {
      SplitKeepsMap(t, idx, ci, common, q);
    }
    SplitReady(t, idx, ci, common, name);
    if Ascending(t) {
      SplitAscends(t, idx, ci, common);
    }
  }

  // ----- the tree -------------------------------------------------------

  class Tree {
    var nodes: seq<TrieNode>
    ghost var paths: seq<Name>
    ghost var parents: seq<(nat, nat)>

    ghost function View(): Shape
      reads this
    {
      Shape(nodes, paths, parents)
    }

    ghost predicate Valid()
      reads this
    {
      Radix(View()) && InRange(nodes)
    }

    /** The empty tree with its root, node 0. */
    constructor ()
      ensures Valid() && nodes == [TrieNode(None, [])]
      ensures forall q :: Lookup(nodes, q).None?
    {
      nodes := [TrieNode(None, [])];
      paths := [[]];
      parents := [(0, 0)];
    }

    method NewNode() returns (id: nat)
      modifies this`nodes
      ensures id == |old(nodes)| && nodes == old(nodes) + [TrieNode(None, [])]
    {
      id := |nodes|;
      nodes := nodes + [TrieNode(None, [])];
    }

    /** Bind the name spelled by node `idx` followed by `name`. */
    method Insert(idx: nat, name: Name, info: TerminalInfo)
      requires Valid() && idx < |nodes| && PlainName(name)
      modifies this
      ensures Valid() && Inserted(old(View()), View(), idx, name, info)
      decreases |name|
    {
      ghost var t := View();
      if name == [] {
        nodes := nodes[idx := nodes[idx].(terminal := Some(info))];
        TerminalInserts(t, idx, info);
        return;
      }
      var ci := 0;
      while ci < |nodes[idx].children|
        invariant View() == t && ci <= |nodes[idx].children|
        invariant NoneShares(t.nodes[idx], name, ci)
      {
        var edge := nodes[idx].children[ci];
        assert EdgeOk(t, idx, ci);
        var common := CommonPrefixLen(edge.text, name);
        if common == 0 {
          ci := ci + 1;
          continue;
        }
        if common == |edge.text| {
          Insert(edge.target, name[common..], info);
          DescentInserts(t, View(), idx, ci, name, info);
          return;
        }
        var intermediate := NewNode();
        nodes := nodes[intermediate := nodes[intermediate].(children := [Edge(edge.text[common..], edge.target)])];
        nodes := nodes[idx := nodes[idx].(children := nodes[idx].children[ci := Edge(edge.text[..common], intermediate)])];
        paths := paths + [paths[idx] + edge.text[..common]];
        parents := parents[edge.target := (intermediate, 0)] + [(idx, ci)];
        assert View() == WithSplit(t, idx, ci, common);
        SplitKeepsRadix(t, idx, ci, common);
        RadixInRange(View());
        Insert(intermediate, name[common..], info);
        SplitInserts(t, View(), idx, ci, common, name, info);
        return;
      }
      var leaf := NewNode();
      nodes := nodes[leaf := nodes[leaf].(terminal := Some(info))];
      nodes := nodes[idx := nodes[idx].(children := nodes[idx].children + [Edge(name, leaf)])];
      paths := paths + [paths[idx] + name];
      parents := parents + [(idx, |t.nodes[idx].children|)];
      assert View() == WithLeaf(t, idx, name, info);
      LeafInserts(t, idx, name, info);
    }
  }
}
