/** Node encodings, and the fixed point between child offsets and encoded sizes. */
module TrieLayout {
  import opened Bytes
  import opened TrieTree
  import opened FixedPoint
  import Uleb128

  // ----- node encodings -------------------------------------------------

  function TerminalBytes(node: TrieNode): seq<byte> {
    match node.terminal
    case None => []
    case Some(info) => Uleb128.Encode(info.flags) + Uleb128.Encode(info.address)
  }

  ghost predicate TargetsIn(children: seq<Edge>, n: nat) {
    forall k :: 0 <= k < |children| ==> children[k].target < n
  }

  /** The edges from slot `k` on: label, NUL, absolute child offset. */
  ghost function EdgeBytes(children: seq<Edge>, offs: seq<nat>, k: nat): seq<byte>
    requires TargetsIn(children, |offs|) && k <= |children|
    decreases |children| - k
  {
    if k == |children| then []
    else children[k].text + [0] + Uleb128.Encode(offs[children[k].target]) + EdgeBytes(children, offs, k + 1)
  }

  ghost function NodeBytes(node: TrieNode, offs: seq<nat>): seq<byte>
    requires TargetsIn(node.children, |offs|)
  {
    var tb := TerminalBytes(node);
    Uleb128.Encode(|tb|) + tb + [|node.children| % 256] + EdgeBytes(node.children, offs, 0)
  }

  method EncodeTerminalBytes(node: TrieNode) returns (buf: seq<byte>)
    ensures buf == TerminalBytes(node)
  {
    buf := [];
    if node.terminal.Some? {
      buf := Uleb128.WriteUleb128(buf, node.terminal.value.flags);
      buf := Uleb128.WriteUleb128(buf, node.terminal.value.address);
    }
  }

  /** The size the offset loop predicts is the size the encoder emits. */
  method EncodedNodeSize(node: TrieNode, offsets: seq<nat>) returns (size: nat)
    requires TargetsIn(node.children, |offsets|)
    ensures size == |NodeBytes(node, offsets)|
  {
    var tb := EncodeTerminalBytes(node);
    size := Uleb128.Uleb128Size(|tb|);
    size := size + |tb|;
    size := size + 1;
    var k := 0;
    while k < |node.children|
      invariant k <= |node.children|
      invariant size + |EdgeBytes(node.children, offsets, k)| == |NodeBytes(node, offsets)|
    {
      size := size + |node.children[k].text| + 1;
      var w := Uleb128.Uleb128Size(offsets[node.children[k].target]);
      size := size + w;
      k := k + 1;
    }
  }

  lemma EdgeStep(r: seq<byte>, children: seq<Edge>, offsets: seq<nat>, k: nat)
    requires TargetsIn(children, |offsets|) && k < |children|
    ensures r + EdgeBytes(children, offsets, k)
            == r + children[k].text + [0] + Uleb128.Encode(offsets[children[k].target]) + EdgeBytes(children, offsets, k + 1)
  {
    hide Uleb128.Encode;
    var t, z, u, rest := children[k].text, [0], Uleb128.Encode(offsets[children[k].target]), EdgeBytes(children, offsets, k + 1);
    assert EdgeBytes(children, offsets, k) == t + z + u + rest;
    assert r + (t + z + u + rest) == r + t + z + u + rest;
  }

  method EncodeNode(node: TrieNode, offsets: seq<nat>, out: seq<byte>) returns (r: seq<byte>)
    requires TargetsIn(node.children, |offsets|)
    ensures r == out + NodeBytes(node, offsets)
  {
    hide EdgeBytes, Uleb128.Encode;
    var tb := EncodeTerminalBytes(node);
    r := Uleb128.WriteUleb128(out, |tb|);
    r := r + tb;
    r := r + [|node.children| % 256];
    var k := 0;
    while k < |node.children|
      invariant k <= |node.children|
      invariant r + EdgeBytes(node.children, offsets, k) == out + NodeBytes(node, offsets)
    {
      EdgeStep(r, node.children, offsets, k);
      var offset := offsets[node.children[k].target];
      r := r + node.children[k].text;
      r := r + [0];
      r := Uleb128.WriteUleb128(r, offset);
      k := k + 1;
    }
    EdgesEnd(r, node.children, offsets);
  }

  lemma EdgesEnd(r: seq<byte>, children: seq<Edge>, offsets: seq<nat>)
    requires TargetsIn(children, |offsets|)
    ensures r + EdgeBytes(children, offsets, |children|) == r
  {}

  // ----- offset tables --------------------------------------------------

  ghost function Sizes(nodes: seq<TrieNode>, offs: seq<nat>): (r: seq<nat>)
    requires InRange(nodes) && |offs| == |nodes|
    ensures |r| == |nodes| && forall i :: 0 <= i < |nodes| ==> r[i] == |NodeBytes(nodes[i], offs)|
  {
    seq(|nodes|, (i: nat) requires i < |nodes| => |NodeBytes(nodes[i], offs)|)
  }

  ghost function Starts(sizes: seq<nat>): (r: seq<nat>)
    ensures |r| == |sizes| && forall i :: 0 <= i < |sizes| ==> r[i] == PrefixSum(sizes, i)
  {
    seq(|sizes|, (i: nat) requires i < |sizes| => PrefixSum(sizes, i))
  }

  /** Where each node starts when nodes are encoded with the table `offs`. */
  ghost function Layout(nodes: seq<TrieNode>, offs: seq<nat>): (r: seq<nat>)
    requires InRange(nodes) && |offs| == |nodes|
    ensures |r| == |nodes|
  {
    Starts(Sizes(nodes, offs))
  }

  /** One round of the offset loop as a map on tables. */
  ghost function Round(nodes: seq<TrieNode>): Table -> Table
    requires InRange(nodes)
  {
    (offs: Table) => if |offs| == |nodes| then Layout(nodes, offs) else offs
  }

  /** The table after `k` uncapped rounds, from the all-zero guess. */
  ghost function Iterate(nodes: seq<TrieNode>, k: nat): Table
    requires InRange(nodes)
  {
    Times(Round(nodes), |nodes|, k)
  }

  ghost predicate SelfConsistent(nodes: seq<TrieNode>, offs: seq<nat>)
    requires InRange(nodes)
  {
    |offs| == |nodes| && Layout(nodes, offs) == offs
  }

  lemma OneMoreSize(sizes: seq<nat>, i: nat)
    requires i < |sizes|
    ensures PrefixSum(sizes, i + 1) == PrefixSum(sizes, i) + sizes[i]
  {}

  lemma NoSizes(sizes: seq<nat>)
    ensures PrefixSum(sizes, 0) == 0
  {}

  /** One round of the loop in `build`: sizes from the old table, starts into the new. */
  method NextOffsets(nodes: seq<TrieNode>, offsets: seq<nat>) returns (newOffsets: seq<nat>)
    requires InRange(nodes) && |offsets| == |nodes|
    ensures newOffsets == Layout(nodes, offsets)
  {
    hide NodeBytes, PrefixSum;
    NoSizes(Sizes(nodes, offsets));
    var n := |nodes|;
    newOffsets := ZeroTable(n);
    var cursor: nat := 0;
    ghost var sizes := Sizes(nodes, offsets);
    for i := 0 to n
      invariant |newOffsets| == n && cursor == PrefixSum(sizes, i)
      invariant forall j :: 0 <= j < i ==> newOffsets[j] == PrefixSum(sizes, j)
    {
      OneMoreSize(sizes, i);
      newOffsets := newOffsets[i := cursor];
      var size := EncodedNodeSize(nodes[i], offsets);
      cursor := cursor + size;
    }
  }

  /** The capped loop: at most 16 rounds, left early when a round changes nothing. */
  method SettleOffsets(nodes: seq<TrieNode>) returns (offsets: seq<nat>)
    requires InRange(nodes)
    ensures offsets == Iterate(nodes, 16)
  {
    offsets := ZeroTable(|nodes|);
    for round := 0 to 16
      invariant |offsets| == |nodes| && offsets == Iterate(nodes, round)
    {
      var newOffsets := NextOffsets(nodes, offsets);
      assert newOffsets == Iterate(nodes, round + 1);
      if newOffsets == offsets {
        FixedStays(Round(nodes), |nodes|, round, 16);
        return;
      }
      offsets := newOffsets;
    }
  }

  // ----- the iterates ascend to the least self-consistent table ----------

  /** Edge targets of the first `i` nodes, in encoding order. */
  ghost function TargetsOf(nodes: seq<TrieNode>, i: nat): seq<nat>
    requires i <= |nodes|
  {
    if i == 0 then [] else TargetsOf(nodes, i - 1) + NodeTargets(nodes[i - 1], 0)
  }

  ghost function NodeTargets(node: TrieNode, k: nat): (r: seq<nat>)
    requires k <= |node.children|
    ensures |r| == |node.children| - k
    ensures forall j :: 0 <= j < |r| ==> r[j] == node.children[k + j].target
    decreases |node.children| - k
  {
    if k == |node.children| then [] else [node.children[k].target] + NodeTargets(node, k + 1)
  }

  /** What the first `i` nodes take without their offset fields. */
  ghost function FixedSize(nodes: seq<TrieNode>, i: nat): nat
    requires i <= |nodes|
  {
    if i == 0 then 0 else FixedSize(nodes, i - 1) + NodeFixed(nodes[i - 1])
  }

  ghost function NodeFixed(node: TrieNode): nat {
    var tb := |TerminalBytes(node)|;
    |Uleb128.Encode(tb)| + tb + 1 + TextSize(node.children, 0)
  }

  ghost function TextSize(children: seq<Edge>, k: nat): nat
    requires k <= |children|
    decreases |children| - k
  {
    if k == |children| then 0 else |children[k].text| + 1 + TextSize(children, k + 1)
  }

  /** The bytes the offset fields for `targets` take. */
  ghost function OffsetSizes(offs: seq<nat>, targets: seq<nat>): nat
    requires forall j :: 0 <= j < |targets| ==> targets[j] < |offs|
  {
    if targets == [] then 0
    else
      assert forall j :: 0 <= j < |targets[1..]| ==> targets[1..][j] == targets[j + 1];
      |Uleb128.Encode(offs[targets[0]])| + OffsetSizes(offs, targets[1..])
  }

  ghost predicate AllBelow(s: seq<nat>, n: nat) {
    forall j :: 0 <= j < |s| ==> s[j] < n
  }

  lemma {:induction false} OffsetSizesConcat(offs: seq<nat>, a: seq<nat>, b: seq<nat>)
    requires AllBelow(a, |offs|) && AllBelow(b, |offs|)
    ensures OffsetSizes(offs, a + b) == OffsetSizes(offs, a) + OffsetSizes(offs, b)
  {
    if a == [] {
      assert a + b == b;
    } else {
      assert (a + b)[1..] == a[1..] + b;
      OffsetSizesConcat(offs, a[1..], b);
    }
  }

  lemma {:induction false} EdgeBytesSize(node: TrieNode, offs: seq<nat>, k: nat)
    requires TargetsIn(node.children, |offs|) && k <= |node.children|
    ensures |EdgeBytes(node.children, offs, k)| == TextSize(node.children, k) + OffsetSizes(offs, NodeTargets(node, k))
    decreases |node.children| - k
  {
    if k < |node.children| {
      EdgeBytesSize(node, offs, k + 1);
      assert NodeTargets(node, k)[1..] == NodeTargets(node, k + 1);
    }
  }

  lemma TargetsOfBelow(nodes: seq<TrieNode>, i: nat)
    requires InRange(nodes) && i <= |nodes|
    ensures AllBelow(TargetsOf(nodes, i), |nodes|)
  {
    if i > 0 {
      TargetsOfBelow(nodes, i - 1);
    }
  }

  lemma NodeSizeSplits(node: TrieNode, offs: seq<nat>)
    requires TargetsIn(node.children, |offs|)
    ensures |NodeBytes(node, offs)| == NodeFixed(node) + OffsetSizes(offs, NodeTargets(node, 0))
  {
    EdgeBytesSize(node, offs, 0);
  }

  /** A start is a fixed part plus the offset fields before it. */
  lemma {:induction false} StartSplits(nodes: seq<TrieNode>, offs: seq<nat>, i: nat)
    requires InRange(nodes) && |offs| == |nodes| && i <= |nodes|
    ensures AllBelow(TargetsOf(nodes, i), |offs|)
    ensures PrefixSum(Sizes(nodes, offs), i) == FixedSize(nodes, i) + OffsetSizes(offs, TargetsOf(nodes, i))
  {
    hide *;
    TargetsOfBelow(nodes, i);
    if i == 0 {
      NothingBefore(nodes, offs);
    } else {
      TargetsOfBelow(nodes, i - 1);
      StartSplits(nodes, offs, i - 1);
      OneMoreNode(nodes, offs, i);
    }
  }

  lemma NothingBefore(nodes: seq<TrieNode>, offs: seq<nat>)
    requires InRange(nodes) && |offs| == |nodes|
    ensures PrefixSum(Sizes(nodes, offs), 0) == FixedSize(nodes, 0) + OffsetSizes(offs, TargetsOf(nodes, 0))
  {}

  lemma OneMoreNode(nodes: seq<TrieNode>, offs: seq<nat>, i: nat)
    requires InRange(nodes) && |offs| == |nodes| && 0 < i <= |nodes| && AllBelow(TargetsOf(nodes, i), |offs|) && AllBelow(TargetsOf(nodes, i - 1), |offs|)
    requires PrefixSum(Sizes(nodes, offs), i - 1) == FixedSize(nodes, i - 1) + OffsetSizes(offs, TargetsOf(nodes, i - 1))
    ensures PrefixSum(Sizes(nodes, offs), i) == FixedSize(nodes, i) + OffsetSizes(offs, TargetsOf(nodes, i))
  {
    hide NodeFixed, NodeBytes, OffsetSizes, TargetsOf;
    TargetsGrow(nodes, offs, i);
  }

  lemma TargetsGrow(nodes: seq<TrieNode>, offs: seq<nat>, i: nat)
    requires InRange(nodes) && |offs| == |nodes| && 0 < i <= |nodes| && AllBelow(TargetsOf(nodes, i - 1), |offs|)
    ensures AllBelow(TargetsOf(nodes, i), |offs|) && TargetsIn(nodes[i - 1].children, |offs|)
    ensures OffsetSizes(offs, TargetsOf(nodes, i)) + NodeFixed(nodes[i - 1])
            == OffsetSizes(offs, TargetsOf(nodes, i - 1)) + |NodeBytes(nodes[i - 1], offs)|
  {
    hide NodeFixed, NodeBytes, OffsetSizes;
    TargetsOfBelow(nodes, i);
    NodeSizeSplits(nodes[i - 1], offs);
    OffsetSizesConcat(offs, TargetsOf(nodes, i - 1), NodeTargets(nodes[i - 1], 0));
  }

  lemma {:induction false} OffsetSizesMono(a: seq<nat>, b: seq<nat>, targets: seq<nat>)
    requires Leq(a, b) && AllBelow(targets, |a|)
    ensures OffsetSizes(a, targets) <= OffsetSizes(b, targets)
  {
    if targets != [] {
      OffsetSizesMono(a, b, targets[1..]);
      Uleb128.SizeMono(a[targets[0]], b[targets[0]]);
    }
  }

  lemma {:induction false} PrefixSumMono(a: seq<nat>, b: seq<nat>, i: nat)
    requires Leq(a, b) && i <= |a|
    ensures PrefixSum(a, i) <= PrefixSum(b, i)
  {
    if i > 0 {
      PrefixSumMono(a, b, i - 1);
    }
  }

  lemma {:induction false} PrefixSumGrows(sizes: seq<nat>, i: nat, j: nat)
    requires i <= j <= |sizes|
    ensures PrefixSum(sizes, i) <= PrefixSum(sizes, j)
    decreases j
  {
    if i < j {
      PrefixSumGrows(sizes, i, j - 1);
    }
  }

  lemma SizesMono(nodes: seq<TrieNode>, a: seq<nat>, b: seq<nat>)
    requires InRange(nodes) && |a| == |nodes| && Leq(a, b)
    ensures Leq(Sizes(nodes, a), Sizes(nodes, b))
  {
    forall i | 0 <= i < |nodes| ensures Sizes(nodes, a)[i] <= Sizes(nodes, b)[i] {
      NodeSizeSplits(nodes[i], a);
      NodeSizeSplits(nodes[i], b);
      OffsetSizesMono(a, b, NodeTargets(nodes[i], 0));
    }
  }

  lemma LayoutMono(nodes: seq<TrieNode>, a: seq<nat>, b: seq<nat>)
    requires InRange(nodes) && |a| == |nodes| && Leq(a, b)
    ensures Leq(Layout(nodes, a), Layout(nodes, b))
  {
    SizesMono(nodes, a, b);
    forall i | 0 <= i < |nodes| ensures Layout(nodes, a)[i] <= Layout(nodes, b)[i] {
      PrefixSumMono(Sizes(nodes, a), Sizes(nodes, b), i);
    }
  }

  lemma RoundMonotone(nodes: seq<TrieNode>)
    requires InRange(nodes)
    ensures Monotone(Round(nodes), |nodes|)
  {
    forall a: Table, b: Table | |a| == |nodes| && Leq(a, b)
      ensures |Round(nodes)(a)| == |nodes| && Leq(Round(nodes)(a), Round(nodes)(b))
    {
      LayoutMono(nodes, a, b);
    }
  }

  // ----- the uncapped loop terminates -----------------------------------

  /** Offset fields grow so slowly that `c` bytes plus one per 128^c covers any number. */
  lemma {:induction false} SizeBeyond(v: nat, c: nat, q: nat)
    requires v < (q + 1) * Uleb128.Pow128(c)
    ensures |Uleb128.Encode(v)| <= c + 1 + q
  {
    if c == 0 {
      SizeAtMost(v);
    } else if v >= 128 {
      var x := (q + 1) * Uleb128.Pow128(c - 1);
      assert v < 128 * x;
      SizeBeyond(v / 128, c - 1, q);
    }
  }

  lemma {:induction false} SizeAtMost(v: nat)
    ensures |Uleb128.Encode(v)| <= 1 + v
  {
    if v >= 128 {
      SizeAtMost(v / 128);
    }
  }

  lemma {:induction false} PowExceeds(e: nat)
    ensures Uleb128.Pow128(e + 1) > 2 * e
  {
    if e > 0 {
      PowExceeds(e - 1);
    }
  }

  lemma {:induction false} OffsetSizesBound(offs: seq<nat>, targets: seq<nat>, s: nat)
    requires AllBelow(targets, |offs|)
    requires forall j :: 0 <= j < |offs| ==> |Uleb128.Encode(offs[j])| <= s
    ensures OffsetSizes(offs, targets) <= |targets| * s
  {
    if targets != [] {
      OffsetSizesBound(offs, targets[1..], s);
      assert |targets| * s == |targets[1..]| * s + s;
    }
  }

  /** A bound no iterate exceeds. */
  ghost function Ceiling(nodes: seq<TrieNode>): nat {
    var edges := |TargetsOf(nodes, |nodes|)|;
    2 * (FixedSize(nodes, |nodes|) + edges * (edges + 2))
  }

  lemma CeilingHolds(nodes: seq<TrieNode>, offs: seq<nat>)
    requires InRange(nodes) && |offs| == |nodes|
    requires AllAtMost(offs, Ceiling(nodes))
    ensures AllAtMost(Layout(nodes, offs), Ceiling(nodes))
  {
    hide AllAtMost, TargetsOf, Sizes, NodeBytes, InRange, Starts;
    var targets := TargetsOf(nodes, |nodes|);
    var e, top := |targets|, Ceiling(nodes);
    var q := HalfBound(e, top);
    FieldsAtMost(offs, top, e + 1, q);
    StartSplits(nodes, offs, |nodes|);
    OffsetSizesBound(offs, targets, e + 2 + q);
    CeilingArithmetic(e, q, FixedSize(nodes, |nodes|), top, OffsetSizes(offs, targets));
    StartsAtMost(Sizes(nodes, offs), top);
  }

  lemma StartsAtMost(sizes: seq<nat>, top: nat)
    requires PrefixSum(sizes, |sizes|) <= top
    ensures AllAtMost(Starts(sizes), top)
  {
    forall i | 0 <= i < |sizes| ensures Starts(sizes)[i] <= top {
      PrefixSumGrows(sizes, i, |sizes|);
    }
  }

  lemma FieldsAtMost(offs: seq<nat>, top: nat, c: nat, q: nat)
    requires AllAtMost(offs, top) && top < (q + 1) * Uleb128.Pow128(c)
    ensures forall j :: 0 <= j < |offs| ==> |Uleb128.Encode(offs[j])| <= c + 1 + q
  {
    SizeBeyond(top, c, q);
    forall j | 0 <= j < |offs| ensures |Uleb128.Encode(offs[j])| <= c + 1 + q {
      Uleb128.SizeMono(offs[j], top);
    }
  }

  lemma CeilingArithmetic(e: nat, q: nat, fixedPart: nat, top: nat, sizes: nat)
    requires sizes <= e * (e + 2 + q) && top == 2 * (fixedPart + e * (e + 2)) && 2 * (e * q) <= top
    ensures fixedPart + sizes <= top
  {
    var x, y := e * (e + 2), e * q;
    assert e * (e + 2 + q) == x + y;
  }

  lemma HalfBound(e: nat, top: nat) returns (q: nat)
    ensures top < (q + 1) * Uleb128.Pow128(e + 1)
    ensures 2 * (e * q) <= top
  {
    PowExceeds(e);
    q := Quotient(top, Uleb128.Pow128(e + 1));
    MulLeq(2 * e, Uleb128.Pow128(e + 1), q);
    assert (2 * e) * q == 2 * (e * q);
  }

  lemma Quotient(top: nat, p: nat) returns (q: nat)
    requires p > 0
    ensures q * p <= top < (q + 1) * p
  {
    q := top / p;
    assert top == p * q + top % p;
    assert (q + 1) * p == q * p + p;
  }

  lemma MulLeq(a: nat, b: nat, q: nat)
    requires a <= b
    ensures a * q <= b * q
  {}

  /** Without the cap the loop always settles, on the least self-consistent table. */
  lemma UncappedLoopSettles(nodes: seq<TrieNode>) returns (k: nat)
    requires InRange(nodes)
    ensures SelfConsistent(nodes, Iterate(nodes, k))
    ensures forall fix :: SelfConsistent(nodes, fix) ==> Leq(Iterate(nodes, k), fix)
  {
    var f := Round(nodes);
    RoundMonotone(nodes);
    assert Bounded(f, |nodes|, Ceiling(nodes)) by {
      forall a: Table | |a| == |nodes| && AllAtMost(a, Ceiling(nodes)) ensures AllAtMost(f(a), Ceiling(nodes)) {
        CeilingHolds(nodes, a);
      }
    }
    k := Settles(f, |nodes|, Ceiling(nodes));
    forall fix | SelfConsistent(nodes, fix) ensures Leq(Iterate(nodes, k), fix) {
      assert f(fix) == fix;
    }
  }
}
