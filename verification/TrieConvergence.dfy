/** For tables below 2 MiB the capped offset loop always has rounds to spare: a node whose
    offset crosses 128 or 16384 pushes later nodes by one byte, and nodes are at least four
    bytes apart, so crossings die out geometrically. */
module TrieConvergence {
  import opened Bytes
  import opened TrieTree
  import opened TrieBuild
  import opened FixedPoint
  import opened TrieLayout

  // ----- nodes are at least four bytes apart ----------------------------

  /** Starts of a trie layout: the root at 0, later nodes four or more bytes apart. */
  ghost predicate Spaced(offs: Table) {
    && (|offs| > 0 ==> offs[0] == 0)
    && (|offs| > 1 ==> offs[1] >= 2)
    && forall i, j :: 0 < i <= j < |offs| ==> offs[j] >= offs[i] + 4 * (j - i)
  }

  lemma BushyNodeSize(t: Shape, i: nat, offs: Table)
    requires Radix(t) && InRange(t.nodes) && i < |t.nodes| && |offs| == |t.nodes|
    ensures |NodeBytes(t.nodes[i], offs)| >= 2
    ensures i > 0 && Bushy(t, i) ==> |NodeBytes(t.nodes[i], offs)| >= 4
  {
    var node := t.nodes[i];
    NodeSizeSplits(node, offs);
    if i > 0 && Bushy(t, i) && node.terminal.None? {
      TwoTexts(node.children);
    }
  }

  lemma TwoTexts(children: seq<Edge>)
    requires |children| >= 2
    ensures TextSize(children, 0) >= 2
  {
    assert TextSize(children, 0) == |children[0].text| + 1 + TextSize(children, 1);
    assert TextSize(children, 1) == |children[1].text| + 1 + TextSize(children, 2);
  }

  lemma {:induction false} PrefixSumSpaced(sizes: seq<nat>, i: nat, j: nat)
    requires 0 < i <= j < |sizes|
    requires forall k :: 0 < k < |sizes| ==> sizes[k] >= 4
    ensures PrefixSum(sizes, j) >= PrefixSum(sizes, i) + 4 * (j - i)
    decreases j
  {
    if i < j {
      PrefixSumSpaced(sizes, i, j - 1);
    }
  }

  lemma LayoutSpaced(t: Shape, offs: Table)
    requires Radix(t) && InRange(t.nodes) && AllBushy(t) && |offs| == |t.nodes|
    ensures Spaced(Layout(t.nodes, offs))
  {
    var sizes := Sizes(t.nodes, offs);
    forall i | 0 <= i < |t.nodes| ensures sizes[i] >= 2 && (i > 0 ==> sizes[i] >= 4) {
      assert Bushy(t, i);
      BushyNodeSize(t, i, offs);
    }
    var starts := Starts(sizes);
    if |starts| > 1 {
      assert PrefixSum(sizes, 1) == PrefixSum(sizes, 0) + sizes[0];
    }
    forall i, j | 0 < i <= j < |starts| ensures starts[j] >= starts[i] + 4 * (j - i) {
      PrefixSumSpaced(sizes, i, j);
    }
  }

  // ----- where offset fields grow ---------------------------------------

  /** How many leading entries are below `t`. */
  ghost function Boundary(offs: Table, t: nat): (b: nat)
    ensures b <= |offs|
    ensures forall i :: 0 <= i < b ==> offs[i] < t
    ensures b < |offs| ==> offs[b] >= t
  {
    if offs == [] || offs[0] >= t then 0
    else
      var b := Boundary(offs[1..], t);
      assert forall i :: 0 < i < |offs| ==> offs[i] == offs[1..][i - 1];
      b + 1
  }

  lemma BoundarySplits(offs: Table, t: nat, i: nat)
    requires Spaced(offs) && i < |offs|
    ensures offs[i] < t <==> i < Boundary(offs, t)
  {}

  /** At most 33 nodes of a layout start below 128, at most 4097 below 16384. */
  lemma BoundaryAtMost(offs: Table, t: nat)
    requires Spaced(offs) && |offs| > 0 && t > 0
    ensures 1 <= Boundary(offs, t) && 4 * Boundary(offs, t) <= t + 5
  {
    BoundarySplits(offs, t, 0);
    var b := Boundary(offs, t);
    assert b > 1 ==> offs[b - 1] >= offs[1] + 4 * (b - 2);
  }

  /** The nodes below either boundary, each counted once for each. */
  ghost function Below(offs: Table): nat { Boundary(offs, 128) + Boundary(offs, 16384) }

  // ----- each edge target is named once ---------------------------------

  ghost predicate Distinct(s: seq<nat>) {
    forall i, j :: 0 <= i < j < |s| ==> s[i] != s[j]
  }

  lemma NodeTargetsParents(t: Shape, i: nat, j: nat)
    requires Radix(t) && i < |t.nodes| && j < |NodeTargets(t.nodes[i], 0)|
    ensures NodeTargets(t.nodes[i], 0)[j] < |t.nodes|
    ensures t.parents[NodeTargets(t.nodes[i], 0)[j]] == (i, j)
  {
    assert EdgeOk(t, i, j);
  }

  lemma {:induction false} TargetsDistinct(t: Shape, i: nat)
    requires Radix(t) && InRange(t.nodes) && i <= |t.nodes|
    ensures Distinct(TargetsOf(t.nodes, i)) && AllBelow(TargetsOf(t.nodes, i), |t.nodes|)
    ensures forall j :: 0 <= j < |TargetsOf(t.nodes, i)| ==> t.parents[TargetsOf(t.nodes, i)[j]].0 < i
  {
    TargetsOfBelow(t.nodes, i);
    if i > 0 {
      TargetsDistinct(t, i - 1);
      var a, b := TargetsOf(t.nodes, i - 1), NodeTargets(t.nodes[i - 1], 0);
      forall j | 0 <= j < |b| ensures b[j] < |t.nodes| && t.parents[b[j]] == (i - 1, j) {
        NodeTargetsParents(t, i - 1, j);
      }
      var s := a + b;
      forall x, y | 0 <= x < y < |s| ensures s[x] != s[y] {
        if y >= |a| {
          assert t.parents[s[y]] == (i - 1, y - |a|);
        }
      }
    }
  }

  // ----- what crossings cost --------------------------------------------

  /** The entries of `s` in [lo, hi). */
  ghost function Within(s: seq<nat>, lo: nat, hi: nat): (r: seq<nat>)
    ensures forall j :: 0 <= j < |r| ==> lo <= r[j] < hi && r[j] in s
  {
    if s == [] then []
    else (if lo <= s[0] < hi then [s[0]] else []) + Within(s[1..], lo, hi)
  }

  lemma {:induction false} WithinDistinct(s: seq<nat>, lo: nat, hi: nat)
    requires Distinct(s) && lo <= hi
    ensures Distinct(Within(s, lo, hi)) && |Within(s, lo, hi)| <= hi - lo
  {
    WithinKeepsDistinct(s, lo, hi);
    DistinctBelow(Within(s, lo, hi), lo, hi);
  }

  lemma {:induction false} WithinKeepsDistinct(s: seq<nat>, lo: nat, hi: nat)
    requires Distinct(s)
    ensures Distinct(Within(s, lo, hi))
  {
    if s != [] {
      WithinKeepsDistinct(s[1..], lo, hi);
      assert s[0] !in s[1..];
    }
  }

  ghost predicate Small(offs: Table) {
    forall i :: 0 <= i < |offs| ==> offs[i] < 0x20_0000
  }

  lemma SmallSize(v: nat)
    requires v < 0x20_0000
    ensures |Uleb128.Encode(v)| == 1 + (if v < 128 then 0 else 1) + (if v < 16384 then 0 else 1)
  {
    assert Uleb128.Pow128(2) == 128 * Uleb128.Pow128(1) == 16384;
    assert Uleb128.Pow128(3) == 0x20_0000;
    Uleb128.SizeBound(v, 1);
    Uleb128.SizeBound(v, 2);
    Uleb128.SizeBound(v, 3);
  }

  /** The targets that cross `t` between two tables. */
  ghost function Crossed(a: Table, b: Table, t: nat, targets: seq<nat>): nat {
    |Within(targets, Boundary(b, t), Boundary(a, t))|
  }

  /** Between two tables an offset field grows only where its target crosses a boundary. */
  lemma {:induction false} CrossingsCost(a: Table, b: Table, targets: seq<nat>)
    requires |a| == |b| && Spaced(a) && Spaced(b) && Small(a) && Small(b) && Leq(a, b) && AllBelow(targets, |a|)
    ensures OffsetSizes(b, targets) == OffsetSizes(a, targets) + Crossed(a, b, 128, targets) + Crossed(a, b, 16384, targets)
  {
    if targets != [] {
      CrossingsCost(a, b, targets[1..]);
      SmallSize(a[targets[0]]);
      SmallSize(b[targets[0]]);
      CrossedFirst(a, b, 128, targets);
      CrossedFirst(a, b, 16384, targets);
    }
  }

  lemma CrossedFirst(a: Table, b: Table, t: nat, targets: seq<nat>)
    requires |a| == |b| && Spaced(a) && Spaced(b) && targets != [] && targets[0] < |a|
    ensures Crossed(a, b, t, targets)
            == Crossed(a, b, t, targets[1..]) + if a[targets[0]] < t <= b[targets[0]] then 1 else 0
  {
    BoundarySplits(a, t, targets[0]);
    BoundarySplits(b, t, targets[0]);
  }

  lemma BoundaryFalls(a: Table, b: Table, t: nat)
    requires Leq(a, b) && Spaced(a) && Spaced(b)
    ensures Boundary(b, t) <= Boundary(a, t)
  {
    if Boundary(a, t) < Boundary(b, t) {
      BoundarySplits(b, t, Boundary(a, t));
    }
  }

  /** One round moves no start further than the number of crossings in the round before. */
  lemma RoundMoves(t: Shape, a: Table, b: Table, i: nat)
    requires Radix(t) && InRange(t.nodes) && |a| == |t.nodes| && i < |t.nodes|
    requires Leq(a, b) && Spaced(a) && Spaced(b) && Small(a) && Small(b)
    ensures Below(b) <= Below(a)
    ensures Layout(t.nodes, b)[i] <= Layout(t.nodes, a)[i] + (Below(a) - Below(b))
  {
    BoundaryFalls(a, b, 128);
    BoundaryFalls(a, b, 16384);
    var targets := TargetsOf(t.nodes, i);
    StartSplits(t.nodes, a, i);
    StartSplits(t.nodes, b, i);
    TargetsDistinct(t, i);
    CrossingsCost(a, b, targets);
    WithinDistinct(targets, Boundary(b, 128), Boundary(a, 128));
    WithinDistinct(targets, Boundary(b, 16384), Boundary(a, 16384));
  }

  /** Crossings cost movement: of `n` nodes that have crossed, the first has moved by at least
      `4 * n - 3` bytes. */
  lemma CrossingsCostBytes(a: Table, b: Table, t: nat, far: nat)
    requires Leq(a, b) && Spaced(a) && Spaced(b) && t > 0
    requires forall i :: 0 <= i < |a| ==> b[i] <= a[i] + far
    ensures Boundary(b, t) <= Boundary(a, t) && 4 * (Boundary(a, t) - Boundary(b, t)) <= far + 3
  {
    BoundaryFalls(a, b, t);
    var i, j := Boundary(b, t), Boundary(a, t);
    if i < j {
      BoundarySplits(b, t, 0);
      assert a[j - 1] < t <= b[i];
      assert a[j - 1] >= a[i] + 4 * (j - 1 - i);
    }
  }

  // ----- runs of the loop -----------------------------------------------

  /** Successive tables of the uncapped loop. */
  ghost predicate Trace(nodes: seq<TrieNode>, x: seq<Table>)
    requires InRange(nodes)
  {
    IsRun(Round(nodes), |nodes|, x)
  }

  lemma TraceLayout(nodes: seq<TrieNode>, x: seq<Table>, k: nat)
    requires InRange(nodes) && Trace(nodes, x) && 0 < k < |x| && |x[k - 1]| == |nodes|
    ensures x[k] == Layout(nodes, x[k - 1])
  {
    assert x[k] == Round(nodes)(x[k - 1]);
  }

  lemma TraceAscends(nodes: seq<TrieNode>, x: seq<Table>, k: nat, m: nat)
    requires InRange(nodes) && Trace(nodes, x) && k <= m < |x|
    ensures |x[k]| == |nodes| && Leq(x[k], x[m])
  {
    RoundMonotone(nodes);
    RunAscends(Round(nodes), |nodes|, x, k, m);
  }

  lemma SmallBelow(a: Table, b: Table)
    requires Leq(a, b) && Small(b)
    ensures Small(a)
  {}

  lemma TraceFacts(t: Shape, x: seq<Table>, k: nat)
    requires Radix(t) && InRange(t.nodes) && AllBushy(t) && Trace(t.nodes, x) && 0 < k < |x|
    requires Small(x[|x| - 1])
    ensures Spaced(x[k]) && Small(x[k]) && Leq(x[k - 1], x[k])
    ensures |x[k - 1]| == |t.nodes| && x[k] == Layout(t.nodes, x[k - 1])
  {
    TraceAscends(t.nodes, x, k - 1, k);
    TraceAscends(t.nodes, x, k, |x| - 1);
    TraceLayout(t.nodes, x, k);
    SmallBelow(x[k], x[|x| - 1]);
    LayoutSpaced(t, x[k - 1]);
  }

  /** Three rounds move no start further than the crossings in the three rounds before. */
  lemma TraceMoves(t: Shape, x: seq<Table>, r: nat, i: nat)
    requires Radix(t) && InRange(t.nodes) && AllBushy(t) && Trace(t.nodes, x) && Small(x[|x| - 1])
    requires 2 <= r < |x| - 3 && i < |t.nodes| && forall k :: 0 <= k < |x| ==> |x[k]| == |t.nodes|
    ensures Below(x[r + 2]) <= Below(x[r - 1])
    ensures x[r + 3][i] <= x[r][i] + (Below(x[r - 1]) - Below(x[r + 2]))
  {
    forall k | r <= k <= r + 2 ensures Below(x[k]) <= Below(x[k - 1]) && x[k + 1][i] <= x[k][i] + (Below(x[k - 1]) - Below(x[k])) {
      TraceFacts(t, x, k - 1);
      TraceFacts(t, x, k);
      TraceFacts(t, x, k + 1);
      RoundMoves(t, x[k - 1], x[k], i);
    }
    assert x[r + 1][i] <= x[r][i] + (Below(x[r - 1]) - Below(x[r]));
  }

  /** The crossings of three rounds, four bytes each, are paid for by those of the three rounds
      that started one earlier. */
  lemma CrossingsShrink(t: Shape, x: seq<Table>, r: nat, b: nat)
    requires Radix(t) && InRange(t.nodes) && AllBushy(t) && Trace(t.nodes, x) && Small(x[|x| - 1])
    requires 2 <= r < |x| - 3 && b > 0
    ensures Below(x[r + 2]) <= Below(x[r - 1]) && Boundary(x[r + 3], b) <= Boundary(x[r], b)
    ensures 4 * (Boundary(x[r], b) - Boundary(x[r + 3], b)) <= Below(x[r - 1]) - Below(x[r + 2]) + 3
  {
    hide Boundary, Below, Trace, Small, AllBushy, InRange, Leq, Spaced, Layout;
    forall k | 0 <= k < |x| ensures |x[k]| == |t.nodes| {
      TraceAscends(t.nodes, x, k, k);
    }
    TraceAscends(t.nodes, x, r, r + 3);
    TraceFacts(t, x, r);
    TraceFacts(t, x, r + 3);
    assert t.nodes != [];
    TraceMoves(t, x, r, 0);
    forall i | 0 <= i < |t.nodes| ensures x[r + 3][i] <= x[r][i] + (Below(x[r - 1]) - Below(x[r + 2])) {
      TraceMoves(t, x, r, i);
    }
    CrossingsCostBytes(x[r], x[r + 3], b, Below(x[r - 1]) - Below(x[r + 2]));
  }

  /** The crossings of the three rounds from `r` on, from the counts below 128 and below 16384. */
  function Three(p: seq<int>, q: seq<int>, r: nat): int
    requires r + 3 < |p| == |q|
  {
    p[r] + q[r] - p[r + 3] - q[r + 3]
  }

  /** Three rounds of crossings at either boundary are a quarter of three rounds of both. */
  ghost predicate FallsSlowly(p: seq<int>, q: seq<int>, r: nat)
    requires 0 < r && r + 3 < |p| == |q|
  {
    && 4 * (p[r] - p[r + 3]) <= Three(p, q, r - 1) + 3
    && 4 * (q[r] - q[r + 3]) <= Three(p, q, r - 1) + 3
  }

  ghost predicate Counted(p: seq<int>, q: seq<int>) {
    && |p| == |q| == 14
    && (forall r :: 2 <= r <= 10 ==> FallsSlowly(p, q, r))
    && (forall r :: 1 <= r <= 13 ==> 0 <= p[r] <= 33 && 0 <= q[r] <= 4097)
  }

  lemma ThreeFalls(p: seq<int>, q: seq<int>, r: nat, most: nat)
    requires Counted(p, q) && 2 <= r <= 10 && Three(p, q, r - 1) <= most
    ensures Three(p, q, r) <= 2 * ((most + 3) / 4) && Three(p, q, r) <= 33 + (most + 3) / 4
  {
    assert FallsSlowly(p, q, r);
  }

  /** From round 10 on at most two nodes cross a boundary. */
  lemma BoundariesRest(p: seq<int>, q: seq<int>)
    requires Counted(p, q)
    ensures Three(p, q, 10) <= 2
  {
    assert Three(p, q, 1) <= 4130;
    hide *;
    ThreeFalls(p, q, 2, 4130);
    ThreeFalls(p, q, 3, 1066);
    ThreeFalls(p, q, 4, 300);
    ThreeFalls(p, q, 5, 108);
    ThreeFalls(p, q, 6, 54);
    ThreeFalls(p, q, 7, 28);
    ThreeFalls(p, q, 8, 14);
    ThreeFalls(p, q, 9, 8);
    ThreeFalls(p, q, 10, 4);
  }

  lemma TraceCounts(t: Shape, x: seq<Table>) returns (p: seq<int>, q: seq<int>)
    requires Radix(t) && InRange(t.nodes) && AllBushy(t) && Trace(t.nodes, x) && |x| == 17 && Small(x[16])
    ensures Counted(p, q) && forall k :: 0 <= k < 14 ==> p[k] + q[k] == Below(x[k])
  {
    hide Boundary, Trace, Small, AllBushy, Radix, InRange;
    p := seq(14, (k: nat) requires k < 17 => Boundary(x[k], 128));
    q := seq(14, (k: nat) requires k < 17 => Boundary(x[k], 16384));
    forall r | 2 <= r <= 10 ensures FallsSlowly(p, q, r) {
      CrossingsShrink(t, x, r, 128);
      CrossingsShrink(t, x, r, 16384);
    }
    forall r | 1 <= r <= 13 ensures 0 <= p[r] <= 33 && 0 <= q[r] <= 4097 {
      TraceCount(t, x, r);
    }
  }

  lemma TraceCount(t: Shape, x: seq<Table>, r: nat)
    requires Radix(t) && InRange(t.nodes) && AllBushy(t) && Trace(t.nodes, x) && Small(x[|x| - 1]) && 0 < r < |x|
    ensures Boundary(x[r], 128) <= 33 && Boundary(x[r], 16384) <= 4097
  {
    TraceFacts(t, x, r);
    assert t.nodes != [];
    BoundaryAtMost(x[r], 128);
    BoundaryAtMost(x[r], 16384);
  }

  lemma TraceBelowFalls(t: Shape, x: seq<Table>, r: nat)
    requires Radix(t) && InRange(t.nodes) && AllBushy(t) && Trace(t.nodes, x) && Small(x[|x| - 1]) && 0 < r < |x| - 1
    ensures Below(x[r + 1]) <= Below(x[r])
  {
    TraceFacts(t, x, r);
    TraceFacts(t, x, r + 1);
    BoundaryFalls(x[r], x[r + 1], 128);
    BoundaryFalls(x[r], x[r + 1], 16384);
  }

  /** One of the rounds 12 to 14 changes nothing. */
  lemma RoundFourteenChangesNothing(t: Shape, x: seq<Table>)
    requires Radix(t) && InRange(t.nodes) && AllBushy(t) && Trace(t.nodes, x) && |x| == 17 && Small(x[16])
    ensures x[12] == x[11] || x[13] == x[12] || x[14] == x[13]
  {
    hide Trace, Small, AllBushy, Radix, InRange, Below, Counted;
    var p, q := TraceCounts(t, x);
    BoundariesRest(p, q);
    CountedLength(p, q);
    TraceBelowFalls(t, x, 10);
    TraceBelowFalls(t, x, 11);
    TraceBelowFalls(t, x, 12);
    var k: nat := if Below(x[10]) == Below(x[11]) then 10 else if Below(x[11]) == Below(x[12]) then 11 else 12;
    StillRound(t, x, k);
  }

  lemma CountedLength(p: seq<int>, q: seq<int>)
    requires Counted(p, q)
    ensures |p| == |q| == 14
  {}

  /** A round after one without crossings changes nothing. */
  lemma StillRound(t: Shape, x: seq<Table>, k: nat)
    requires Radix(t) && InRange(t.nodes) && AllBushy(t) && Trace(t.nodes, x) && Small(x[|x| - 1])
    requires 1 <= k < |x| - 2 && Below(x[k]) == Below(x[k + 1])
    ensures x[k + 2] == x[k + 1]
  {
    hide *;
    TraceFacts(t, x, k);
    TraceFacts(t, x, k + 1);
    TraceFacts(t, x, k + 2);
    NothingMoves(t, x[k], x[k + 1]);
  }

  lemma NothingMoves(t: Shape, a: Table, b: Table)
    requires Radix(t) && InRange(t.nodes) && |a| == |t.nodes| && b == Layout(t.nodes, a)
    requires Leq(a, b) && Spaced(a) && Spaced(b) && Small(a) && Small(b) && Below(a) == Below(b)
    requires Leq(b, Layout(t.nodes, b))
    ensures Layout(t.nodes, b) == b
  {
    hide Boundary, Below, Radix, InRange, Layout, Small, Spaced;
    var now := Layout(t.nodes, b);
    forall i | 0 <= i < |t.nodes| ensures now[i] == b[i] {
      RoundMoves(t, a, b, i);
    }
  }

  /** If the table reached after 16 rounds is below 2 MiB, the loop left by `break` with rounds
      to spare: round 14 at the latest changed nothing. */
  lemma SettlesWithinCap(t: Shape)
    requires Radix(t) && InRange(t.nodes) && AllBushy(t)
    requires Small(Iterate(t.nodes, 16))
    ensures Iterate(t.nodes, 14) == Iterate(t.nodes, 13)
    ensures SelfConsistent(t.nodes, Iterate(t.nodes, 16))
  {
    hide Small, AllBushy, Radix, Round, SelfConsistent;
    RoundMonotone(t.nodes);
    TimesLength(Round(t.nodes), |t.nodes|, 16);
    var x := RunOf(Round(t.nodes), |t.nodes|, 16);
    RoundFourteenChangesNothing(t, x);
    var k: nat := if x[12] == x[11] then 11 else if x[13] == x[12] then 12 else 13;
    assert Iterate(t.nodes, k + 1) == Iterate(t.nodes, k);
    FixedStays(Round(t.nodes), |t.nodes|, k, 13);
    FixedStays(Round(t.nodes), |t.nodes|, k, 14);
    FixedStays(Round(t.nodes), |t.nodes|, k, 16);
    FixedIsConsistent(t.nodes, Iterate(t.nodes, 16));
  }

  lemma FixedIsConsistent(nodes: seq<TrieNode>, offs: Table)
    requires InRange(nodes) && |offs| == |nodes| && Round(nodes)(offs) == offs
    ensures SelfConsistent(nodes, offs)
  {}
}
