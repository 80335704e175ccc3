/** The mutable radix tree behind the export-trie builder: nodes live in one list and
    point at each other by index; an insertion may split an edge in place. */
module TrieTree {
  import opened Bytes
  import opened NameOrder

  datatype TerminalInfo = TerminalInfo(flags: u64, address: u64)

  datatype Edge = Edge(text: Name, target: nat)

  datatype TrieNode = TrieNode(terminal: Option<TerminalInfo>, children: seq<Edge>)

  /** A node list with the ghost facts that make it a tree: the full name spelled on
      the way to each node, and each node's only incoming edge as (node, slot). */
  datatype Shape = Shape(nodes: seq<TrieNode>, paths: seq<Name>, parents: seq<(nat, nat)>)

  // ----- the invariant --------------------------------------------------

  ghost predicate EdgeOk(t: Shape, i: nat, k: nat)
    requires |t.paths| == |t.parents| == |t.nodes|
    requires i < |t.nodes| && k < |t.nodes[i].children|
  {
    var e := t.nodes[i].children[k];
    && e.text != []
    && 0 < e.target < |t.nodes|
    && t.paths[e.target] == t.paths[i] + e.text
    && t.parents[e.target] == (i, k)
  }

  ghost predicate ParentOk(t: Shape, c: nat)
    requires |t.parents| == |t.nodes| && c < |t.nodes|
  {
    && t.parents[c].0 < |t.nodes|
    && t.parents[c].1 < |t.nodes[t.parents[c].0].children|
    && t.nodes[t.parents[c].0].children[t.parents[c].1].target == c
  }

  ghost predicate TextsNonEmpty(node: TrieNode) {
    forall k :: 0 <= k < |node.children| ==> node.children[k].text != []
  }

  ghost predicate SiblingsDiffer(node: TrieNode) {
    && TextsNonEmpty(node)
    && forall k, l :: 0 <= k < l < |node.children| ==> node.children[k].text[0] != node.children[l].text[0]
  }

  /** The radix-tree invariant: non-empty labels that spell the paths, every non-root
      node hanging from exactly one edge, and siblings told apart by their first byte. */
  ghost predicate Radix(t: Shape) {
    && |t.paths| == |t.parents| == |t.nodes| > 0
    && t.paths[0] == []
    && (forall c :: 0 <= c < |t.nodes| ==> PlainName(t.paths[c]))
    && (forall i, k :: 0 <= i < |t.nodes| && 0 <= k < |t.nodes[i].children| ==> EdgeOk(t, i, k))
    && (forall c :: 0 < c < |t.nodes| ==> ParentOk(t, c))
    && (forall i :: 0 <= i < |t.nodes| ==> SiblingsDiffer(t.nodes[i]))
  }

  // ----- what the tree denotes ------------------------------------------

  ghost predicate InRange(nodes: seq<TrieNode>) {
    forall i, k :: 0 <= i < |nodes| && 0 <= k < |nodes[i].children| ==>
      nodes[i].children[k].target < |nodes|
  }

  /** The first slot from `k` on whose text starts `q`, or the number of slots. */
  function FindEdge(children: seq<Edge>, q: Name, k: nat): (r: nat)
    requires k <= |children|
    ensures k <= r <= |children|
    ensures r < |children| ==> children[r].text != [] && children[r].text <= q
    ensures forall j :: k <= j < r ==> !(children[j].text != [] && children[j].text <= q)
    decreases |children| - k
  {
    if k == |children| then k
    else if children[k].text != [] && children[k].text <= q then k
    else FindEdge(children, q, k + 1)
  }

  /** The loader's walk: follow the edge that spells the next part of `q`. */
  ghost function Walk(nodes: seq<TrieNode>, i: nat, q: Name): (r: Option<nat>)
    requires InRange(nodes) && i < |nodes|
    ensures r.Some? ==> r.value < |nodes|
    decreases |q|
  {
    if q == [] then Some(i)
    else
      var k := FindEdge(nodes[i].children, q, 0);
      if k == |nodes[i].children| then None
      else Walk(nodes, nodes[i].children[k].target, q[|nodes[i].children[k].text|..])
  }

  /** What a lookup of `q` from the root finds. */
  ghost function Lookup(nodes: seq<TrieNode>, q: Name): Option<TerminalInfo>
    requires InRange(nodes) && |nodes| > 0
  {
    match Walk(nodes, 0, q)
    case None => None
    case Some(i) => nodes[i].terminal
  }

  lemma RadixInRange(t: Shape)
    requires Radix(t)
    ensures InRange(t.nodes)
  {
    forall i, k | 0 <= i < |t.nodes| && 0 <= k < |t.nodes[i].children|
      ensures t.nodes[i].children[k].target < |t.nodes|
    {
      assert EdgeOk(t, i, k);
    }
  }

  /** A walk ends at a node whose path is what was spelled. */
  lemma {:induction false} WalkSpells(t: Shape, i: nat, q: Name)
    requires Radix(t) && InRange(t.nodes) && i < |t.nodes|
    ensures Walk(t.nodes, i, q).Some? ==> t.paths[Walk(t.nodes, i, q).value] == t.paths[i] + q
    decreases |q|
  {
    if q == [] {
      assert t.paths[i] + q == t.paths[i];
    } else {
      var children := t.nodes[i].children;
      var k := FindEdge(children, q, 0);
      if k < |children| {
        assert EdgeOk(t, i, k);
        var text := children[k].text;
        WalkSpells(t, children[k].target, q[|text|..]);
        assert q == text + q[|text|..];
        assert t.paths[i] + q == t.paths[i] + text + q[|text|..];
      }
    }
  }

  /** Only one slot can start a name that begins with its text. */
  lemma FindEdgeIs(node: TrieNode, k: nat, rest: Name)
    requires SiblingsDiffer(node) && k < |node.children|
    ensures FindEdge(node.children, node.children[k].text + rest, 0) == k
  {
    var text := node.children[k].text;
    var r := FindEdge(node.children, text + rest, 0);
    assert text <= text + rest && (text + rest)[0] == text[0];
  }

  /** Walking a name that passes through node `j` continues from `j`. */
  lemma {:induction false} WalkThrough(t: Shape, i: nat, a: Name, b: Name, j: nat)
    requires Radix(t) && InRange(t.nodes) && i < |t.nodes| && j < |t.nodes|
    requires Walk(t.nodes, i, a) == Some(j)
    ensures Walk(t.nodes, i, a + b) == Walk(t.nodes, j, b)
    decreases |a|
  {
    if a == [] {
      assert a + b == b;
    } else {
      var node := t.nodes[i];
      var k := FindEdge(node.children, a, 0);
      var text := node.children[k].text;
      var rest := a[|text|..];
      assert a == text + rest;
      assert a + b == text + (rest + b);
      FindEdgeIs(node, k, rest + b);
      assert (a + b)[|text|..] == rest + b;
      WalkThrough(t, node.children[k].target, rest, b, j);
    }
  }

  /** Every node is where its path leads, so the loader can reach all of them. */
  lemma {:induction false} WalkReaches(t: Shape, j: nat)
    requires Radix(t) && InRange(t.nodes) && j < |t.nodes|
    ensures Walk(t.nodes, 0, t.paths[j]) == Some(j)
    decreases |t.paths[j]|
  {
    if j != 0 {
      assert ParentOk(t, j);
      var (i, k) := t.parents[j];
      assert EdgeOk(t, i, k);
      var text := t.nodes[i].children[k].text;
      WalkReaches(t, i);
      WalkThrough(t, 0, t.paths[i], text, i);
      FindEdgeIs(t.nodes[i], k, []);
      assert text + [] == text;
      assert Walk(t.nodes, j, text[|text|..]) == Some(j);
    }
  }

  /** The walk from the root reaches `j` exactly on `j`'s path; paths are distinct. */
  lemma WalkIffPath(t: Shape, q: Name, j: nat)
    requires Radix(t) && InRange(t.nodes) && j < |t.nodes|
    ensures Walk(t.nodes, 0, q) == Some(j) <==> t.paths[j] == q
  {
    WalkReaches(t, j);
    WalkSpells(t, 0, q);
    assert Walk(t.nodes, 0, q).Some? ==> t.paths[Walk(t.nodes, 0, q).value] == q;
  }

  /** Two trees that agree node by node on where names end denote the same map. */
  lemma LookupIffNode(t: Shape, q: Name, info: TerminalInfo)
    requires Radix(t) && InRange(t.nodes)
    ensures Lookup(t.nodes, q) == Some(info) <==>
            exists j :: 0 <= j < |t.nodes| && t.paths[j] == q && t.nodes[j].terminal == Some(info)
  {
    var w := Walk(t.nodes, 0, q);
    if w.Some? {
      WalkIffPath(t, q, w.value);
    }
    forall j | 0 <= j < |t.nodes| && t.paths[j] == q
      ensures w == Some(j)
    {
      WalkIffPath(t, q, j);
    }
  }

  /** Sibling labels start with different bytes of a 127-letter alphabet, so the child
      count always fits the single byte it is written to. */
  lemma ChildCountFits(t: Shape, i: nat)
    requires Radix(t) && i < |t.nodes|
    ensures |t.nodes[i].children| <= 127
  {
    var children := t.nodes[i].children;
    var firsts := seq(|children|, (k: nat) requires k < |children| => if children[k].text == [] then 0 else children[k].text[0]);
    forall k | 0 <= k < |children| ensures 1 <= firsts[k] < 128 {
      assert EdgeOk(t, i, k);
      var e := children[k];
      assert t.paths[e.target][|t.paths[i]|] == e.text[0];
    }
    forall k, l | 0 <= k < l < |children| ensures firsts[k] != firsts[l] {
      assert EdgeOk(t, i, k) && EdgeOk(t, i, l);
    }
    DistinctBelow(firsts, 1, 128);
  }

  /** A list of distinct numbers in [lo, hi) has at most hi - lo of them. */
  lemma {:induction false} DistinctBelow(s: seq<int>, lo: int, hi: int)
    requires lo <= hi
    requires forall k :: 0 <= k < |s| ==> lo <= s[k] < hi
    requires forall k, l :: 0 <= k < l < |s| ==> s[k] != s[l]
    ensures |s| <= hi - lo
    decreases hi - lo
  {
    if s != [] {
      assert lo <= s[0] < hi;
      if k :| 0 <= k < |s| && s[k] == hi - 1 {
        DistinctBelow(s[..k] + s[k + 1..], lo, hi - 1);
      } else {
        DistinctBelow(s, lo, hi - 1);
      }
    }
  }
}
