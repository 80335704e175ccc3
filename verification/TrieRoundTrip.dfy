/** The export trie that `build` writes parses back to the exports it was built from. */
module TrieRoundTrip {
  import opened Bytes
  import opened NameOrder
  import opened TrieTree
  import opened TrieBuild
  import opened TrieListing
  import opened FixedPoint
  import opened TrieLayout
  import opened TrieConvergence
  import opened ExportTrie

  // ----- the encoded trie -----------------------------------------------

  ghost function NodeChunks(nodes: seq<TrieNode>, offs: Table): (r: seq<seq<byte>>)
    requires InRange(nodes) && |offs| == |nodes|
    ensures |r| == |nodes| && forall i :: 0 <= i < |nodes| ==> r[i] == NodeBytes(nodes[i], offs)
  {
    seq(|nodes|, (i: nat) requires i < |nodes| => NodeBytes(nodes[i], offs))
  }

  /** All nodes, one after the other. */
  ghost function Blob(nodes: seq<TrieNode>, offs: Table): seq<byte>
    requires InRange(nodes) && |offs| == |nodes|
  {
    Joined(NodeChunks(nodes, offs), |nodes|)
  }

  // ----- reading an encoded node ----------------------------------------

  /** Neither a re-export (0x08) nor a stub-and-resolver (0x10). */
  predicate Regular(info: TerminalInfo) {
    info.flags / 8 % 2 == 0 && info.flags / 16 % 2 == 0
  }

  ghost function ChildRecords(children: seq<Edge>, offs: Table, k: nat): seq<(Name, nat)>
    requires TargetsIn(children, |offs|) && k <= |children|
    decreases |children| - k
  {
    if k == |children| then [] else [(children[k].text, offs[children[k].target])] + ChildRecords(children, offs, k + 1)
  }

  ghost predicate Fits(offs: Table) {
    forall i :: 0 <= i < |offs| ==> offs[i] < U64_LIMIT
  }

  lemma ReadEdge(bytes: seq<byte>, at: nat, text: Name, offset: nat)
    requires PlainName(text) && offset < U64_LIMIT
    requires HasAt(bytes, at, text + [0] + Uleb128.Encode(offset))
    ensures CString(bytes, at) == Ok((text, at + |text| + 1))
    ensures Uleb(bytes, at + |text| + 1) == Ok((offset, at + |text + [0] + Uleb128.Encode(offset)|))
  {
    HasAtSplit(bytes, at, text + [0], Uleb128.Encode(offset));
    NulAtEndsName(bytes, at, text);
    PlainNameIsUtf8(text);
    Uleb128.ReadOfEncode(bytes, at + |text| + 1, offset);
  }

  lemma {:induction false} ReadChildrenOf(bytes: seq<byte>, at: nat, children: seq<Edge>, offs: Table, k: nat)
    requires TargetsIn(children, |offs|) && Fits(offs) && k <= |children|
    requires forall l :: 0 <= l < |children| ==> PlainName(children[l].text)
    requires HasAt(bytes, at, EdgeBytes(children, offs, k))
    ensures Children(bytes, at, |children| - k) == Ok(ChildRecords(children, offs, k))
    decreases |children| - k
  {
    hide Children, ChildRecords, EdgeBytes, HasAt;
    if k == |children| {
      ReadNoChildren(bytes, at, children, offs);
    } else {
      var record := FirstEdge(bytes, at, children, offs, k);
      ReadChildrenOf(bytes, at + |record|, children, offs, k + 1);
      ReadFirstChild(bytes, at, children[k].text, offs[children[k].target], |children| - k, ChildRecords(children, offs, k + 1));
    }
  }

  lemma ReadNoChildren(bytes: seq<byte>, at: nat, children: seq<Edge>, offs: Table)
    requires TargetsIn(children, |offs|)
    ensures Children(bytes, at, 0) == Ok(ChildRecords(children, offs, |children|))
  {}

  /** One child in front of children already read. */
  lemma ReadFirstChild(bytes: seq<byte>, at: nat, text: Name, offset: nat, count: nat, rest: seq<(Name, nat)>)
    requires PlainName(text) && offset < U64_LIMIT && count > 0
    requires HasAt(bytes, at, text + [0] + Uleb128.Encode(offset))
    requires Children(bytes, at + |text + [0] + Uleb128.Encode(offset)|, count - 1) == Ok(rest)
    ensures Children(bytes, at, count) == Ok([(text, offset)] + rest)
  {
    hide Children, CString, Uleb, HasAt, Uleb128.Encode;
    ReadEdge(bytes, at, text, offset);
    ChildrenStep(bytes, at, count);
  }

  /** The edge of slot `k`, and the edges behind it. */
  lemma FirstEdge(bytes: seq<byte>, at: nat, children: seq<Edge>, offs: Table, k: nat) returns (record: seq<byte>)
    requires TargetsIn(children, |offs|) && k < |children| && HasAt(bytes, at, EdgeBytes(children, offs, k))
    ensures record == children[k].text + [0] + Uleb128.Encode(offs[children[k].target])
    ensures HasAt(bytes, at, record) && HasAt(bytes, at + |record|, EdgeBytes(children, offs, k + 1))
    ensures ChildRecords(children, offs, k) == [(children[k].text, offs[children[k].target])] + ChildRecords(children, offs, k + 1)
  {
    hide Uleb128.Encode, HasAt;
    record := children[k].text + [0] + Uleb128.Encode(offs[children[k].target]);
    HasAtSplit(bytes, at, record, EdgeBytes(children, offs, k + 1));
  }

  lemma ChildrenStep(bytes: seq<byte>, at: nat, count: nat)
    requires count > 0 && CString(bytes, at).Ok? && Uleb(bytes, CString(bytes, at).value.1).Ok?
    requires Children(bytes, Uleb(bytes, CString(bytes, at).value.1).value.1, count - 1).Ok?
    ensures var (text, at1) := CString(bytes, at).value;
            var (offset, at2) := Uleb(bytes, at1).value;
            Children(bytes, at, count) == Ok([(text, offset)] + Children(bytes, at2, count - 1).value)
  {}

  lemma U64Size(v: nat)
    requires v < U64_LIMIT
    ensures |Uleb128.Encode(v)| <= 10
  {
    Uleb128.Pow128Of9();
    Uleb128.SizeBound(v, 10);
  }

  lemma ReadTerminalOf(bytes: seq<byte>, at: nat, info: TerminalInfo)
    requires Regular(info) && HasAt(bytes, at, Uleb128.Encode(info.flags) + Uleb128.Encode(info.address))
    ensures Terminal(bytes, at) == Ok(info)
  {
    HasAtSplit(bytes, at, Uleb128.Encode(info.flags), Uleb128.Encode(info.address));
    Uleb128.ReadOfEncode(bytes, at, info.flags);
    Uleb128.ReadOfEncode(bytes, at + |Uleb128.Encode(info.flags)|, info.address);
  }

  /** An encoded node reads back with its children's offsets. */
  lemma ReadNodeOf(bytes: seq<byte>, at: nat, node: TrieNode, offs: Table)
    requires Encodable(node, offs) && HasAt(bytes, at, NodeBytes(node, offs))
    ensures ReadNode(bytes, at) == Ok(RecordOf(node, offs))
  {
    var size, p := ReadPieces(bytes, at, node, offs);
    ReadNodeFrom(bytes, at, size, p, node.terminal, |node.children|, ChildRecords(node.children, offs, 0));
  }

  ghost predicate Encodable(node: TrieNode, offs: Table) {
    && TargetsIn(node.children, |offs|) && Fits(offs) && |node.children| < 256
    && (forall l :: 0 <= l < |node.children| ==> PlainName(node.children[l].text))
    && (node.terminal.Some? ==> Regular(node.terminal.value))
  }

  lemma ReadPieces(bytes: seq<byte>, at: nat, node: TrieNode, offs: Table) returns (size: nat, p: nat)
    requires Encodable(node, offs) && HasAt(bytes, at, NodeBytes(node, offs))
    ensures size < U64_LIMIT && at < |bytes| && Uleb(bytes, at) == Ok((size, p))
    ensures size > 0 <==> node.terminal.Some?
    ensures node.terminal.Some? ==> Terminal(bytes, p) == Ok(node.terminal.value)
    ensures p + size < |bytes| && bytes[p + size] == |node.children|
    ensures Children(bytes, p + size + 1, |node.children|) == Ok(ChildRecords(node.children, offs, 0))
  {
    hide HasAt, NodeBytes, EdgeBytes, TerminalBytes, Uleb, Terminal, Children, ChildRecords;
    size := |TerminalBytes(node)|;
    p := ReadHeader(bytes, at, node, offs);
    TerminalSize(node);
    ReadTerminalIfAny(bytes, p, node);
    ReadChildrenOf(bytes, p + size + 1, node.children, offs, 0);
  }

  lemma ReadHeader(bytes: seq<byte>, at: nat, node: TrieNode, offs: Table) returns (p: nat)
    requires TargetsIn(node.children, |offs|) && |node.children| < 256 && HasAt(bytes, at, NodeBytes(node, offs))
    ensures at < |bytes| && Uleb(bytes, at) == Ok((|TerminalBytes(node)|, p))
    ensures HasAt(bytes, p, TerminalBytes(node))
    ensures p + |TerminalBytes(node)| < |bytes| && bytes[p + |TerminalBytes(node)|] == |node.children|
    ensures HasAt(bytes, p + |TerminalBytes(node)| + 1, EdgeBytes(node.children, offs, 0))
  {
    var tb := TerminalBytes(node);
    TerminalSize(node);
    p := at + |Uleb128.Encode(|tb|)|;
    NodePieces(bytes, at, Uleb128.Encode(|tb|), tb, [|node.children| % 256], EdgeBytes(node.children, offs, 0));
    Uleb128.ReadOfEncode(bytes, at, |tb|);
  }

  lemma ReadTerminalIfAny(bytes: seq<byte>, at: nat, node: TrieNode)
    requires node.terminal.Some? ==> Regular(node.terminal.value)
    requires HasAt(bytes, at, TerminalBytes(node))
    ensures node.terminal.Some? ==> Terminal(bytes, at) == Ok(node.terminal.value)
  {
    if node.terminal.Some? {
      ReadTerminalOf(bytes, at, node.terminal.value);
    }
  }

  lemma TerminalSize(node: TrieNode)
    ensures |TerminalBytes(node)| <= 20 && (|TerminalBytes(node)| > 0 <==> node.terminal.Some?)
  {
    if node.terminal.Some? {
      U64Size(node.terminal.value.flags);
      U64Size(node.terminal.value.address);
    }
  }

  lemma NodePieces(bytes: seq<byte>, at: nat, size: seq<byte>, tb: seq<byte>, count: seq<byte>, edges: seq<byte>)
    requires HasAt(bytes, at, size + tb + count + edges) && |count| == 1
    ensures HasAt(bytes, at, size) && HasAt(bytes, at + |size|, tb)
    ensures at + |size| + |tb| < |bytes| && bytes[at + |size| + |tb|] == count[0]
    ensures HasAt(bytes, at + |size| + |tb| + 1, edges)
  {
    HasAtSplit(bytes, at, size + tb + count, edges);
    HasAtSplit(bytes, at, size + tb, count);
    HasAtSplit(bytes, at, size, tb);
    HasAtIndex(bytes, at + |size| + |tb|, count, 0);
  }

  /** `ReadNode` put together from its pieces. */
  lemma ReadNodeFrom(bytes: seq<byte>, off: nat, size: nat, at: nat, terminal: Option<TerminalInfo>,
                     count: nat, children: seq<(Name, nat)>)
    requires size < U64_LIMIT && off < |bytes| && Uleb(bytes, off) == Ok((size, at))
    requires size > 0 <==> terminal.Some?
    requires terminal.Some? ==> Terminal(bytes, at) == Ok(terminal.value)
    requires at + size < |bytes| && bytes[at + size] == count
    requires Children(bytes, at + size + 1, count) == Ok(children)
    ensures ReadNode(bytes, off) == Ok(NodeRecord(terminal, children))
  {}

  ghost function RecordOf(node: TrieNode, offs: Table): NodeRecord
    requires TargetsIn(node.children, |offs|)
  {
    NodeRecord(node.terminal, ChildRecords(node.children, offs, 0))
  }

  // ----- parsing a whole subtree ----------------------------------------

  ghost predicate ReadsNode(t: Shape, read: NodeReader, offs: Table, i: nat)
    requires i < |t.nodes| == |offs|
  {
    TargetsIn(t.nodes[i].children, |offs|) && read(offs[i]) == Ok(RecordOf(t.nodes[i], offs))
  }

  /** Every node of the tree can be read at its offset. */
  ghost predicate Readable(t: Shape, read: NodeReader, offs: Table) {
    |offs| == |t.nodes| && forall i :: 0 <= i < |t.nodes| ==> ReadsNode(t, read, offs, i)
  }

  /** The parser loop seen from outside: what a stack, an output and a number of rounds
      come to. */
  type Runner = (seq<(nat, Name)>, seq<Export>, nat) -> Outcome

  /** One round of `run` pops the top node and stacks its children. */
  ghost predicate Pops(run: Runner, read: NodeReader, stack: seq<(nat, Name)>, off: nat, prefix: Name, out: seq<Export>, rounds: nat) {
    read(off).Ok? ==>
      run(stack + [(off, prefix)], out, rounds + 1) ==
      run(stack + Stacked(prefix, read(off).value.children), AddTerminal(out, prefix, read(off).value.terminal), rounds)
  }

  ghost predicate AlwaysPops(run: Runner, read: NodeReader) {
    forall stack, off, prefix, out, rounds :: Pops(run, read, stack, off, prefix, out, rounds)
  }

  /** From the offset of node `i` the parser emits exactly the listing below it. */
  lemma {:induction false} ParseSubtree(t: Shape, run: Runner, read: NodeReader, offs: Table, i: nat,
                                        stack: seq<(nat, Name)>, out: seq<Export>, rounds: nat)
    requires Radix(t) && Readable(t, read, offs) && AlwaysPops(run, read) && i < |t.nodes|
    ensures run(stack + [(offs[i], t.paths[i])], out, rounds + |Preorder(t, i)|)
            == run(stack, out + Listed(t, Preorder(t, i)), rounds)
    decreases Longest(t.paths) - |t.paths[i]|, 1, 0
  {
    assert ReadsNode(t, read, offs, i);
    var rest := PreorderFrom(t, i, 0);
    var out' := AddTerminal(out, t.paths[i], t.nodes[i].terminal);
    assert Pops(run, read, stack, offs[i], t.paths[i], out, rounds + |rest|);
    ParseSiblings(t, run, read, offs, i, 0, stack, out', rounds);
    assert Preorder(t, i) == [i] + rest && Preorder(t, i)[1..] == rest;
    assert out' + Listed(t, rest) == out + Listed(t, Preorder(t, i));
  }

  lemma {:induction false} ParseSiblings(t: Shape, run: Runner, read: NodeReader, offs: Table, i: nat, k: nat,
                                         stack: seq<(nat, Name)>, out: seq<Export>, rounds: nat)
    requires Radix(t) && Readable(t, read, offs) && AlwaysPops(run, read)
    requires i < |t.nodes| && k <= |t.nodes[i].children| && TargetsIn(t.nodes[i].children, |offs|)
    ensures run(stack + Stacked(t.paths[i], ChildRecords(t.nodes[i].children, offs, k)), out, rounds + |PreorderFrom(t, i, k)|)
            == run(stack, out + Listed(t, PreorderFrom(t, i, k)), rounds)
    decreases Longest(t.paths) - |t.paths[i]|, 0, |t.nodes[i].children| - k
  {
    var children := t.nodes[i].children;
    if k == |children| {
      assert stack + Stacked(t.paths[i], []) == stack;
      assert out + [] == out;
    } else {
      assert EdgeOk(t, i, k);
      var child := children[k].target;
      var first, later := Preorder(t, child), PreorderFrom(t, i, k + 1);
      var below := stack + Stacked(t.paths[i], ChildRecords(children, offs, k + 1));
      StackedStep(t, offs, i, k, stack);
      ListedStep(t, i, k, out);
      ParseSubtree(t, run, read, offs, child, below, out, rounds + |later|);
      ParseSiblings(t, run, read, offs, i, k + 1, stack, out + Listed(t, first), rounds);
    }
  }

  lemma ListedStep(t: Shape, i: nat, k: nat, out: seq<Export>)
    requires Radix(t) && i < |t.nodes| && k < |t.nodes[i].children|
    requires t.nodes[i].children[k].target < |t.nodes|
    ensures out + Listed(t, PreorderFrom(t, i, k)) ==
            out + Listed(t, Preorder(t, t.nodes[i].children[k].target)) + Listed(t, PreorderFrom(t, i, k + 1))
    ensures |PreorderFrom(t, i, k)| == |Preorder(t, t.nodes[i].children[k].target)| + |PreorderFrom(t, i, k + 1)|
  {
    ListedConcat(t, Preorder(t, t.nodes[i].children[k].target), PreorderFrom(t, i, k + 1));
  }

  lemma StackedStep(t: Shape, offs: Table, i: nat, k: nat, stack: seq<(nat, Name)>)
    requires Radix(t) && |offs| == |t.nodes| && i < |t.nodes| && k < |t.nodes[i].children|
    requires TargetsIn(t.nodes[i].children, |offs|)
    ensures var children := t.nodes[i].children;
            stack + Stacked(t.paths[i], ChildRecords(children, offs, k)) ==
            stack + Stacked(t.paths[i], ChildRecords(children, offs, k + 1))
              + [(offs[children[k].target], t.paths[children[k].target])]
  {
    assert EdgeOk(t, i, k);
    var children := t.nodes[i].children;
    assert ChildRecords(children, offs, k)[1..] == ChildRecords(children, offs, k + 1);
  }

  // ----- the round trip -------------------------------------------------

  ghost predicate AllRegular(t: Shape) {
    forall i :: 0 <= i < |t.nodes| && t.nodes[i].terminal.Some? ==> Regular(t.nodes[i].terminal.value)
  }

  /** A self-consistent table makes every node readable at its own offset. */
  lemma SelfConsistentReadable(t: Shape, offs: Table)
    requires Radix(t) && InRange(t.nodes) && AllRegular(t)
    requires SelfConsistent(t.nodes, offs) && |Blob(t.nodes, offs)| < U64_LIMIT
    ensures Readable(t, ReaderOf(Blob(t.nodes, offs)), offs)
  {
    var bytes := Blob(t.nodes, offs);
    OffsetsInside(t.nodes, offs);
    forall i | 0 <= i < |t.nodes| ensures ReadsNode(t, ReaderOf(bytes), offs, i) {
      NodeStandsAt(t.nodes, offs, i);
      NodeReadable(t, bytes, offs, i);
    }
  }

  lemma NodeReadable(t: Shape, bytes: seq<byte>, offs: Table, i: nat)
    requires Radix(t) && InRange(t.nodes) && AllRegular(t)
    requires |offs| == |t.nodes| && Fits(offs) && i < |t.nodes|
    requires HasAt(bytes, offs[i], NodeBytes(t.nodes[i], offs))
    ensures ReadsNode(t, ReaderOf(bytes), offs, i)
  {
    ChildCountFits(t, i);
    forall k | 0 <= k < |t.nodes[i].children| ensures PlainName(t.nodes[i].children[k].text) {
      TextPlain(t, i, k);
    }
    ReadNodeOf(bytes, offs[i], t.nodes[i], offs);
  }

  /** With a self-consistent table each node's bytes stand at its own offset. */
  lemma NodeStandsAt(nodes: seq<TrieNode>, offs: Table, i: nat)
    requires InRange(nodes) && SelfConsistent(nodes, offs) && i < |nodes|
    ensures HasAt(Blob(nodes, offs), offs[i], NodeBytes(nodes[i], offs))
  {
    JoinedHasChunk(NodeChunks(nodes, offs), Sizes(nodes, offs), i, |nodes|);
    assert offs[i] == Starts(Sizes(nodes, offs))[i];
  }

  lemma OffsetsInside(nodes: seq<TrieNode>, offs: Table)
    requires InRange(nodes) && SelfConsistent(nodes, offs)
    ensures forall i :: 0 <= i < |nodes| ==> offs[i] <= |Blob(nodes, offs)|
  {
    var sizes := Sizes(nodes, offs);
    JoinedSize(NodeChunks(nodes, offs), sizes, |nodes|);
    forall i | 0 <= i < |nodes| ensures offs[i] <= |Blob(nodes, offs)| {
      PrefixSumGrows(sizes, i, |nodes|);
      assert offs[i] == Starts(sizes)[i];
    }
  }

  lemma TextPlain(t: Shape, i: nat, k: nat)
    requires Radix(t) && i < |t.nodes| && k < |t.nodes[i].children|
    ensures PlainName(t.nodes[i].children[k].text)
  {
    assert EdgeOk(t, i, k);
    var e := t.nodes[i].children[k];
    forall x | 0 <= x < |e.text| ensures 1 <= e.text[x] < 0x80 {
      assert t.paths[e.target][|t.paths[i]| + x] == e.text[x];
    }
  }

  lemma {:induction false} PrefixSumAtLeast(sizes: seq<nat>, i: nat)
    requires i <= |sizes| && forall k :: 0 <= k < |sizes| ==> sizes[k] >= 2
    ensures PrefixSum(sizes, i) >= i
  {
    if i > 0 {
      PrefixSumAtLeast(sizes, i - 1);
    }
  }

  /** One parser round per node is enough, so the blob's length bounds the rounds. */
  lemma RoundsSuffice(t: Shape, offs: Table)
    requires Radix(t) && InRange(t.nodes) && Ascending(t) && |offs| == |t.nodes|
    ensures 0 < |Preorder(t, 0)| <= |Blob(t.nodes, offs)|
  {
    PreorderLength(t);
    var sizes := Sizes(t.nodes, offs);
    forall i | 0 <= i < |t.nodes| ensures sizes[i] >= 2 {
      BushyNodeSize(t, i, offs);
    }
    PrefixSumAtLeast(sizes, |t.nodes|);
    JoinedSize(NodeChunks(t.nodes, offs), sizes, |t.nodes|);
  }

  ghost predicate Denotes(t: Shape, es: seq<Export>)
    requires InRange(t.nodes) && |t.nodes| > 0
  {
    forall q, info :: Lookup(t.nodes, q) == Some(info) <==> Export(q, info) in es
  }

  /** Parsing what a self-consistent table encodes lists the tree's map in name order. */
  lemma EncodedParses(t: Shape, offs: Table, es: seq<Export>)
    requires Radix(t) && InRange(t.nodes) && Ascending(t) && AllRegular(t)
    requires SelfConsistent(t.nodes, offs) && |Blob(t.nodes, offs)| < U64_LIMIT
    requires StrictlySorted(Names(es)) && Denotes(t, es)
    ensures ParseOutcome(Blob(t.nodes, offs), |Blob(t.nodes, offs)|) == Done(es)
  {
    var blob := Blob(t.nodes, offs);
    SelfConsistentReadable(t, offs);
    RoundsSuffice(t, offs);
    ListingIsMap(t, es);
    assert offs[0] == Starts(Sizes(t.nodes, offs))[0] == 0;
    ParseFromRoot(t, ReaderOf(blob), offs, |blob|, es);
  }

  lemma ParseFromRoot(t: Shape, read: NodeReader, offs: Table, rounds: nat, es: seq<Export>)
    requires Radix(t) && Readable(t, read, offs) && offs[0] == 0 && |Preorder(t, 0)| <= rounds
    requires Listed(t, Preorder(t, 0)) == es
    ensures Run(read, [(0, [])], [], rounds) == Done(es)
  {
    var run: Runner := (stack: seq<(nat, Name)>, out: seq<Export>, left: nat) => Run(read, stack, out, left);
    forall stack, off, prefix, out, left ensures Pops(run, read, stack, off, prefix, out, left) {
      RunStep(read, stack, off, prefix, out, left);
    }
    ParseSubtree(t, run, read, offs, 0, [], [], rounds - |Preorder(t, 0)|);
    assert [] + [(offs[0], t.paths[0])] == [(0, [])];
    assert [] + es == es;
  }
}
