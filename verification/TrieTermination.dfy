/** When the export-trie parser ends: exactly when it meets no cycle before it fails. */
module TrieTermination {
  import opened Bytes
  import opened NameOrder
  import opened TrieTree
  import opened TrieListing
  import opened ExportTrie

  // ----- more rounds change nothing -------------------------------------

  lemma {:induction false} RunStable(read: NodeReader, stack: seq<(nat, Name)>, out: seq<Export>, r: nat)
    requires Run(read, stack, out, r) != StillRunning
    ensures Run(read, stack, out, r + 1) == Run(read, stack, out, r)
    decreases r
  {
    if stack != [] {
      var (off, prefix) := stack[|stack| - 1];
      if read(off).Ok? {
        var node := read(off).value;
        RunStable(read, stack[..|stack| - 1] + Stacked(prefix, node.children), AddTerminal(out, prefix, node.terminal), r - 1);
      }
    }
  }

  /** An outcome stays at every larger number of rounds. */
  lemma {:induction false} RunStays(read: NodeReader, stack: seq<(nat, Name)>, out: seq<Export>, r: nat, later: nat)
    requires Run(read, stack, out, r) != StillRunning && r <= later
    ensures Run(read, stack, out, later) == Run(read, stack, out, r)
    decreases later
  {
    if r < later {
      RunStays(read, stack, out, r, later - 1);
      RunStable(read, stack, out, later - 1);
    }
  }

  /** `parse` gives one answer, however many rounds it is allowed beyond those it needs. */
  lemma OutcomeStays(bytes: seq<byte>, r: nat, later: nat)
    requires ParseOutcome(bytes, r) != StillRunning && r <= later
    ensures ParseOutcome(bytes, later) == ParseOutcome(bytes, r)
  {
    if bytes != [] {
      RunStays(ReaderOf(bytes), [(0, [])], [], r, later);
    }
  }

  // ----- visiting to a depth --------------------------------------------

  /** What a depth-first visit that gives up below a depth comes to first. */
  datatype Visit = Complete | Fails | Deep

  ghost function VisitNode(read: NodeReader, off: nat, d: nat): Visit
    decreases d, 0
  {
    if d == 0 then Deep
    else
      match read(off)
      case Err(_) => Fails
      case Ok(node) => VisitAll(read, node.children, d - 1)
  }

  ghost function VisitAll(read: NodeReader, cs: seq<(Name, nat)>, d: nat): Visit
    decreases d, |cs| + 1
  {
    if cs == [] then Complete
    else
      match VisitNode(read, cs[0].1, d)
      case Complete => VisitAll(read, cs[1..], d)
      case Fails => Fails
      case Deep => Deep
  }

  lemma {:induction false} NodeStable(read: NodeReader, off: nat, d: nat)
    requires VisitNode(read, off, d) != Deep
    ensures VisitNode(read, off, d + 1) == VisitNode(read, off, d)
    decreases d, 0
  {
    if read(off).Ok? {
      AllStable(read, read(off).value.children, d - 1);
    }
  }

  lemma {:induction false} AllStable(read: NodeReader, cs: seq<(Name, nat)>, d: nat)
    requires VisitAll(read, cs, d) != Deep
    ensures VisitAll(read, cs, d + 1) == VisitAll(read, cs, d)
    decreases d, |cs| + 1
  {
    if cs != [] {
      NodeStable(read, cs[0].1, d);
      if VisitNode(read, cs[0].1, d) == Complete {
        AllStable(read, cs[1..], d);
      }
    }
  }

  lemma {:induction false} NodeStays(read: NodeReader, off: nat, d: nat, deeper: nat)
    requires VisitNode(read, off, d) != Deep && d <= deeper
    ensures VisitNode(read, off, deeper) == VisitNode(read, off, d)
    decreases deeper
  {
    if d < deeper {
      NodeStays(read, off, d, deeper - 1);
      NodeStable(read, off, deeper - 1);
    }
  }

  // ----- the visit and the parser ---------------------------------------

  /** After `n` more rounds the parser is done with what was on top of `stack`. */
  ghost predicate Consumed(read: NodeReader, whole: seq<(nat, Name)>, out: seq<Export>, n: nat, stack: seq<(nat, Name)>, after: seq<Export>) {
    forall r: nat :: Run(read, whole, out, r + n) == Run(read, stack, after, r)
  }

  lemma ConsumedTwice(read: NodeReader, a: seq<(nat, Name)>, out: seq<Export>, n: nat, b: seq<(nat, Name)>, mid: seq<Export>, m: nat, c: seq<(nat, Name)>, after: seq<Export>)
    requires Consumed(read, a, out, n, b, mid) && Consumed(read, b, mid, m, c, after)
    ensures Consumed(read, a, out, n + m, c, after)
  {
    hide Run;
    forall r: nat ensures Run(read, a, out, r + (n + m)) == Run(read, c, after, r) {
      assert Run(read, a, out, (r + m) + n) == Run(read, b, mid, r + m);
    }
  }

  lemma PopConsumes(read: NodeReader, stack: seq<(nat, Name)>, off: nat, prefix: Name, out: seq<Export>)
    requires read(off).Ok?
    ensures Consumed(read, stack + [(off, prefix)], out, 1, stack + Stacked(prefix, read(off).value.children),
                     AddTerminal(out, prefix, read(off).value.terminal))
  {
    forall r: nat ensures Run(read, stack + [(off, prefix)], out, r + 1)
                          == Run(read, stack + Stacked(prefix, read(off).value.children), AddTerminal(out, prefix, read(off).value.terminal), r) {
      RunStep(read, stack, off, prefix, out, r);
    }
  }

  /** A node whose subtree is complete is consumed. */
  lemma {:induction false} CompleteRuns(read: NodeReader, stack: seq<(nat, Name)>, off: nat, prefix: Name, out: seq<Export>, d: nat)
    returns (n: nat, after: seq<Export>)
    requires VisitNode(read, off, d) == Complete
    ensures n >= 1 && Consumed(read, stack + [(off, prefix)], out, n, stack, after)
    decreases d, 0
  {
    hide Run, Consumed, Stacked, AddTerminal;
    PopConsumes(read, stack, off, prefix, out);
    var node := read(off).value;
    var mid := AddTerminal(out, prefix, node.terminal);
    n, after := AllCompleteRun(read, stack, prefix, node.children, mid, d - 1);
    ConsumedTwice(read, stack + [(off, prefix)], out, 1, stack + Stacked(prefix, node.children), mid, n, stack, after);
    n := 1 + n;
  }

  lemma {:induction false} AllCompleteRun(read: NodeReader, stack: seq<(nat, Name)>, prefix: Name, cs: seq<(Name, nat)>, out: seq<Export>, d: nat)
    returns (n: nat, after: seq<Export>)
    requires VisitAll(read, cs, d) == Complete
    ensures Consumed(read, stack + Stacked(prefix, cs), out, n, stack, after)
    decreases d, |cs| + 1
  {
    hide Run;
    if cs == [] {
      n, after := 0, out;
      assert stack + Stacked(prefix, cs) == stack;
    } else {
      hide Consumed;
      var rest := stack + Stacked(prefix, cs[1..]);
      assert stack + Stacked(prefix, cs) == rest + [(cs[0].1, prefix + cs[0].0)];
      var k, mid := CompleteRuns(read, rest, cs[0].1, prefix + cs[0].0, out, d);
      n, after := AllCompleteRun(read, stack, prefix, cs[1..], mid, d);
      ConsumedTwice(read, stack + Stacked(prefix, cs), out, k, rest, mid, n, stack, after);
      n := k + n;
    }
  }

  lemma AfterRounds(read: NodeReader, whole: seq<(nat, Name)>, out: seq<Export>, n: nat, stack: seq<(nat, Name)>, after: seq<Export>, r: nat)
    requires Consumed(read, whole, out, n, stack, after)
    ensures Run(read, whole, out, r + n) == Run(read, stack, after, r)
  {}

  /** A failing node makes the parser fail. */
  lemma {:induction false} FailingRuns(read: NodeReader, stack: seq<(nat, Name)>, off: nat, prefix: Name, out: seq<Export>, d: nat) returns (n: nat)
    requires VisitNode(read, off, d) == Fails
    ensures Run(read, stack + [(off, prefix)], out, n).Failed?
    decreases d, 0
  {
    hide Run, Stacked, AddTerminal;
    RunStep(read, stack, off, prefix, out, 0);
    n := 1;
    if read(off).Ok? {
      var node := read(off).value;
      n := AllFailingRun(read, stack, prefix, node.children, AddTerminal(out, prefix, node.terminal), d - 1);
      RunStep(read, stack, off, prefix, out, n);
      n := n + 1;
    }
  }

  lemma {:induction false} AllFailingRun(read: NodeReader, stack: seq<(nat, Name)>, prefix: Name, cs: seq<(Name, nat)>, out: seq<Export>, d: nat) returns (n: nat)
    requires VisitAll(read, cs, d) == Fails
    ensures Run(read, stack + Stacked(prefix, cs), out, n).Failed?
    decreases d, |cs| + 1
  {
    hide Run, Consumed;
    var rest := stack + Stacked(prefix, cs[1..]);
    assert stack + Stacked(prefix, cs) == rest + [(cs[0].1, prefix + cs[0].0)];
    if VisitNode(read, cs[0].1, d) == Fails {
      n := FailingRuns(read, rest, cs[0].1, prefix + cs[0].0, out, d);
    } else {
      var k, mid := CompleteRuns(read, rest, cs[0].1, prefix + cs[0].0, out, d);
      n := AllFailingRun(read, stack, prefix, cs[1..], mid, d);
      AfterRounds(read, stack + Stacked(prefix, cs), out, k, rest, mid, n);
      n := n + k;
    }
  }

  /** A visit that goes deeper than `d` keeps the parser running for `d` rounds. */
  lemma {:induction false} DeepRuns(read: NodeReader, stack: seq<(nat, Name)>, off: nat, prefix: Name, out: seq<Export>, d: nat, r: nat)
    requires VisitNode(read, off, d) == Deep && r <= d
    ensures Run(read, stack + [(off, prefix)], out, r) == StillRunning
    decreases d, 0
  {
    hide Run, Stacked, AddTerminal;
    if r == 0 {
      RunEnds(read, stack + [(off, prefix)], out);
    } else {
      var node := read(off).value;
      AllDeepRun(read, stack, prefix, node.children, AddTerminal(out, prefix, node.terminal), d - 1, r - 1);
      RunStep(read, stack, off, prefix, out, r - 1);
    }
  }

  lemma {:induction false} AllDeepRun(read: NodeReader, stack: seq<(nat, Name)>, prefix: Name, cs: seq<(Name, nat)>, out: seq<Export>, d: nat, r: nat)
    requires VisitAll(read, cs, d) == Deep && r <= d
    ensures Run(read, stack + Stacked(prefix, cs), out, r) == StillRunning
    decreases d, |cs| + 1
  {
    hide Run, Consumed;
    var rest := stack + Stacked(prefix, cs[1..]);
    assert stack + Stacked(prefix, cs) == rest + [(cs[0].1, prefix + cs[0].0)];
    if VisitNode(read, cs[0].1, d) == Deep {
      DeepRuns(read, rest, cs[0].1, prefix + cs[0].0, out, d, r);
    } else {
      var k, mid := CompleteRuns(read, rest, cs[0].1, prefix + cs[0].0, out, d);
      if r >= k {
        AllDeepRun(read, stack, prefix, cs[1..], mid, d, r - k);
        AfterRounds(read, stack + Stacked(prefix, cs), out, k, rest, mid, r - k);
      } else {
        assert cs[1..] != [];
        assert rest != [];
        AfterRounds(read, stack + Stacked(prefix, cs), out, k, rest, mid, 0);
        RunEnds(read, rest, mid);
        if Run(read, stack + Stacked(prefix, cs), out, r) != StillRunning {
          RunStays(read, stack + Stacked(prefix, cs), out, r, k);
        }
      }
    }
  }

  ghost predicate Ends(read: NodeReader, off: nat) {
    exists d: nat :: VisitNode(read, off, d) != Deep
  }

  ghost predicate Finishes(read: NodeReader, off: nat) {
    exists d: nat :: VisitNode(read, off, d) == Complete
  }

  /** The parser ends exactly when the visit does, and is done exactly when it completes. */
  lemma ParserVisits(read: NodeReader, off: nat)
    ensures (exists r: nat :: Run(read, [(off, [])], [], r) != StillRunning) <==> Ends(read, off)
    ensures (exists r: nat :: Run(read, [(off, [])], [], r).Done?) <==> Finishes(read, off)
  {
    hide Run, VisitNode;
    if Ends(read, off) {
      var d: nat :| VisitNode(read, off, d) != Deep;
      var n := EndingRun(read, off, d);
    }
    if Finishes(read, off) {
      var d: nat :| VisitNode(read, off, d) == Complete;
      var n := EndingRun(read, off, d);
    }
    forall r: nat | Run(read, [(off, [])], [], r) != StillRunning
      ensures VisitNode(read, off, r) != Deep && (Run(read, [(off, [])], [], r).Done? ==> VisitNode(read, off, r) == Complete)
    {
      OutcomeVisits(read, off, r);
    }
  }

  lemma OutcomeVisits(read: NodeReader, off: nat, r: nat)
    requires Run(read, [(off, [])], [], r) != StillRunning
    ensures VisitNode(read, off, r) != Deep
    ensures Run(read, [(off, [])], [], r).Done? ==> VisitNode(read, off, r) == Complete
  {
    hide Run, VisitNode;
    var top: seq<(nat, Name)> := [(off, [])];
    assert [] + top == top;
    if VisitNode(read, off, r) == Deep {
      DeepRuns(read, [], off, [], [], r, r);
    } else {
      var n := EndingRun(read, off, r);
      SameOutcome(read, off, r, n);
    }
  }

  /** A visit that ends gives the parser's outcome. */
  lemma EndingRun(read: NodeReader, off: nat, d: nat) returns (n: nat)
    requires VisitNode(read, off, d) != Deep
    ensures Run(read, [(off, [])], [], n) != StillRunning
    ensures Run(read, [(off, [])], [], n).Done? <==> VisitNode(read, off, d) == Complete
  {
    var top: seq<(nat, Name)> := [(off, [])];
    assert [] + top == top;
    if VisitNode(read, off, d) == Complete {
      var k, after := CompleteRuns(read, [], off, [], [], d);
      AfterRounds(read, [(off, [])], [], k, [], after, 0);
      n := k;
    } else {
      n := FailingRuns(read, [], off, [], [], d);
    }
  }

  lemma SameOutcome(read: NodeReader, off: nat, a: nat, b: nat)
    requires Run(read, [(off, [])], [], a) != StillRunning && Run(read, [(off, [])], [], b) != StillRunning
    ensures Run(read, [(off, [])], [], a) == Run(read, [(off, [])], [], b)
  {
    if a <= b {
      RunStays(read, [(off, [])], [], a, b);
    } else {
      RunStays(read, [(off, [])], [], b, a);
    }
  }

  // ----- paths ----------------------------------------------------------

  type Relation = (nat, nat) -> bool

  ghost predicate Chain(rel: Relation, p: seq<nat>) {
    |p| >= 1 && forall i :: 0 <= i < |p| - 1 ==> rel(p[i], p[i + 1])
  }

  ghost predicate Reaches(rel: Relation, a: nat, b: nat) {
    exists p: seq<nat> :: Chain(rel, p) && p[0] == a && p[|p| - 1] == b
  }

  /** A path of one step or more leads from `x` back to `x`. */
  ghost predicate OnCycle(rel: Relation, x: nat) {
    exists p: seq<nat> :: Chain(rel, p) && |p| >= 2 && p[0] == x == p[|p| - 1]
  }

  ghost predicate MeetsCycle(rel: Relation, a: nat) {
    exists x: nat :: Reaches(rel, a, x) && OnCycle(rel, x)
  }

  lemma ReachesSelf(rel: Relation, a: nat)
    ensures Reaches(rel, a, a)
  {
    assert Chain(rel, [a]);
  }

  lemma ReachesFrom(rel: Relation, a: nat, b: nat, c: nat)
    requires rel(a, b) && Reaches(rel, b, c)
    ensures Reaches(rel, a, c)
  {
    var p: seq<nat> :| Chain(rel, p) && p[0] == b && p[|p| - 1] == c;
    var q := [a] + p;
    forall i | 0 <= i < |q| - 1 ensures rel(q[i], q[i + 1]) {
      if i > 0 {
        assert q[i] == p[i - 1] && q[i + 1] == p[i];
      }
    }
    assert Chain(rel, q) && q[0] == a && q[|q| - 1] == c;
  }

  /** A path through more than `bound` numbers below `bound` repeats one and so meets a cycle. */
  lemma LongChainCycles(rel: Relation, p: seq<nat>, bound: nat)
    requires Chain(rel, p) && |p| > bound && forall i :: 0 <= i < |p| ==> p[i] < bound
    ensures MeetsCycle(rel, p[0])
  {
    if forall i, j :: 0 <= i < j < |p| ==> p[i] != p[j] {
      DistinctBelow(p, 0, bound);
    } else {
      var i, j :| 0 <= i < j < |p| && p[i] == p[j];
      var lead, loop := p[..i + 1], p[i..j + 1];
      assert Chain(rel, lead) && lead[0] == p[0] && lead[|lead| - 1] == p[i];
      assert Chain(rel, loop) && loop[0] == p[i] == loop[|loop| - 1];
      assert Reaches(rel, p[0], p[i]) && OnCycle(rel, p[i]);
    }
  }

  // ----- the graph of a blob --------------------------------------------

  /** Slot `k` of node `a`, which reads, leads to `b`. */
  ghost predicate Slot(read: NodeReader, a: nat, k: nat, b: nat) {
    read(a).Ok? && k < |read(a).value.children| && read(a).value.children[k].1 == b
  }

  ghost predicate IsChild(read: NodeReader, a: nat, b: nat) {
    exists k: nat :: Slot(read, a, k, b)
  }

  ghost function Descent(read: NodeReader): Relation {
    (a: nat, b: nat) => IsChild(read, a, b)
  }

  /** Below `x` everything reads and nothing repeats. */
  ghost predicate Clean(read: NodeReader, x: nat) {
    && (forall y: nat :: Reaches(Descent(read), x, y) ==> read(y).Ok?)
    && !MeetsCycle(Descent(read), x)
  }

  /** The parser gets from `a` to its child `b`: what the slots before it hold is clean. */
  ghost predicate Enters(read: NodeReader, a: nat, b: nat) {
    exists k: nat :: Slot(read, a, k, b) && forall j :: 0 <= j < k ==> Clean(read, read(a).value.children[j].1)
  }

  ghost function Entered(read: NodeReader): Relation {
    (a: nat, b: nat) => Enters(read, a, b)
  }

  ghost predicate Bounded(read: NodeReader, bound: nat) {
    forall off: nat :: read(off).Ok? ==> off < bound
  }

  // ----- complete is clean ----------------------------------------------

  lemma {:induction false} AllOfThem(read: NodeReader, cs: seq<(Name, nat)>, d: nat)
    ensures VisitAll(read, cs, d) == Complete <==> forall k :: 0 <= k < |cs| ==> VisitNode(read, cs[k].1, d) == Complete
    decreases |cs|
  {
    hide VisitNode;
    if cs != [] {
      AllOfThem(read, cs[1..], d);
      assert forall k :: 0 < k < |cs| ==> cs[k] == cs[1..][k - 1];
      if VisitAll(read, cs, d) == Complete {
        forall k | 0 <= k < |cs| ensures VisitNode(read, cs[k].1, d) == Complete {
          assert k > 0 ==> cs[k] == cs[1..][k - 1];
        }
      }
    }
  }

  /** From a complete node every path stays complete, with less depth to go. */
  lemma {:induction false} CompleteDown(read: NodeReader, p: seq<nat>, i: nat, d: nat)
    requires Chain(Descent(read), p) && i < |p| && VisitNode(read, p[0], d) == Complete
    ensures i < d && VisitNode(read, p[i], d - i) == Complete
    decreases i
  {
    if i > 0 {
      CompleteDown(read, p, i - 1, d);
      assert Descent(read)(p[i - 1], p[i - 1 + 1]);
      ChildComplete(read, p[i - 1], p[i], d - (i - 1));
    }
  }

  lemma ChildComplete(read: NodeReader, a: nat, b: nat, d: nat)
    requires VisitNode(read, a, d) == Complete && IsChild(read, a, b)
    ensures d > 1 && VisitNode(read, b, d - 1) == Complete
  {
    var k: nat :| Slot(read, a, k, b);
    AllOfThem(read, read(a).value.children, d - 1);
  }

  lemma {:induction false} CompleteNotOnCycle(read: NodeReader, x: nat, d: nat)
    requires VisitNode(read, x, d) == Complete
    ensures !OnCycle(Descent(read), x)
    decreases d
  {
    if OnCycle(Descent(read), x) {
      var p: seq<nat> :| Chain(Descent(read), p) && |p| >= 2 && p[0] == x == p[|p| - 1];
      CompleteDown(read, p, |p| - 1, d);
      CompleteNotOnCycle(read, x, d - (|p| - 1));
    }
  }

  lemma CompleteIsClean(read: NodeReader, x: nat, d: nat)
    requires VisitNode(read, x, d) == Complete
    ensures Clean(read, x)
  {
    forall y: nat | Reaches(Descent(read), x, y) ensures read(y).Ok? && !OnCycle(Descent(read), y) {
      var p: seq<nat> :| Chain(Descent(read), p) && p[0] == x && p[|p| - 1] == y;
      CompleteDown(read, p, |p| - 1, d);
      CompleteNotOnCycle(read, y, d - (|p| - 1));
    }
  }

  /** A failing visit has met a node that does not read. */
  lemma {:induction false} FailsSomewhere(read: NodeReader, x: nat, d: nat) returns (y: nat)
    requires VisitNode(read, x, d) == Fails
    ensures Reaches(Descent(read), x, y) && read(y).Err?
    decreases d
  {
    if read(x).Err? {
      y := x;
      ReachesSelf(Descent(read), x);
    } else {
      var k := FirstFailing(read, read(x).value.children, d - 1);
      var c := read(x).value.children[k].1;
      y := FailsSomewhere(read, c, d - 1);
      assert Slot(read, x, k, c);
      ReachesFrom(Descent(read), x, c, y);
    }
  }

  lemma {:induction false} FirstFailing(read: NodeReader, cs: seq<(Name, nat)>, d: nat) returns (k: nat)
    requires VisitAll(read, cs, d) == Fails
    ensures k < |cs| && VisitNode(read, cs[k].1, d) == Fails
    decreases |cs|
  {
    hide VisitNode;
    k := 0;
    if VisitNode(read, cs[0].1, d) == Complete {
      k := FirstFailing(read, cs[1..], d);
      k := k + 1;
    }
  }

  // ----- deep visits meet cycles ----------------------------------------

  /** The first child that is not complete is the deep one. */
  lemma {:induction false} FirstDeep(read: NodeReader, cs: seq<(Name, nat)>, d: nat) returns (k: nat)
    requires VisitAll(read, cs, d) == Deep
    ensures k < |cs| && VisitNode(read, cs[k].1, d) == Deep && forall j :: 0 <= j < k ==> VisitNode(read, cs[j].1, d) == Complete
    decreases |cs|
  {
    hide VisitNode;
    k := 0;
    if VisitNode(read, cs[0].1, d) == Complete {
      k := FirstDeep(read, cs[1..], d);
      forall j | 0 <= j < k + 1 ensures VisitNode(read, cs[j].1, d) == Complete {
        assert j > 0 ==> cs[j] == cs[1..][j - 1];
      }
      k := k + 1;
    }
  }

  /** A visit deeper than `d` has entered a path of `d` nodes that read. */
  lemma {:induction false} DeepPath(read: NodeReader, x: nat, d: nat) returns (p: seq<nat>)
    requires d > 0 && VisitNode(read, x, d) == Deep
    ensures |p| == d && p[0] == x && Chain(Entered(read), p) && forall i :: 0 <= i < d ==> read(p[i]).Ok?
    decreases d
  {
    p := [x];
    if d > 1 {
      var k := FirstDeep(read, read(x).value.children, d - 1);
      var c := read(x).value.children[k].1;
      forall j | 0 <= j < k ensures Clean(read, read(x).value.children[j].1) {
        CompleteIsClean(read, read(x).value.children[j].1, d - 1);
      }
      assert Slot(read, x, k, c);
      assert Enters(read, x, c);
      var q := DeepPath(read, c, d - 1);
      ChainFront(Entered(read), x, q);
      p := [x] + q;
    } else {
      assert Chain(Entered(read), p);
    }
  }

  lemma ChainFront(rel: Relation, x: nat, q: seq<nat>)
    requires Chain(rel, q) && rel(x, q[0])
    ensures Chain(rel, [x] + q)
  {
    var p := [x] + q;
    forall i | 0 <= i < |p| - 1 ensures rel(p[i], p[i + 1]) {
      if i > 0 {
        assert p[i] == q[i - 1] && p[i + 1] == q[i];
      }
    }
  }

  lemma DeepMeetsCycle(read: NodeReader, x: nat, bound: nat)
    requires Bounded(read, bound) && VisitNode(read, x, bound + 1) == Deep
    ensures MeetsCycle(Entered(read), x)
  {
    var p := DeepPath(read, x, bound + 1);
    LongChainCycles(Entered(read), p, bound);
  }

  /** What the parser enters is a child. */
  lemma EnteredIsChild(read: NodeReader, x: nat)
    requires MeetsCycle(Entered(read), x)
    ensures MeetsCycle(Descent(read), x)
  {
    var y: nat :| Reaches(Entered(read), x, y) && OnCycle(Entered(read), y);
    var p: seq<nat> :| Chain(Entered(read), p) && p[0] == x && p[|p| - 1] == y;
    var q: seq<nat> :| Chain(Entered(read), q) && |q| >= 2 && q[0] == y == q[|q| - 1];
    ChainOfDescent(read, p);
    ChainOfDescent(read, q);
    assert Reaches(Descent(read), x, y) && OnCycle(Descent(read), y);
  }

  lemma ChainOfDescent(read: NodeReader, p: seq<nat>)
    requires Chain(Entered(read), p)
    ensures Chain(Descent(read), p)
  {
    forall i | 0 <= i < |p| - 1 ensures Descent(read)(p[i], p[i + 1]) {
      assert Entered(read)(p[i], p[i + 1]);
      var k: nat :| Slot(read, p[i], k, p[i + 1]) && forall j :: 0 <= j < k ==> Clean(read, read(p[i]).value.children[j].1);
    }
  }

  /** Clean subtrees are finished, and only they. */
  lemma CleanFinishes(read: NodeReader, x: nat, bound: nat)
    requires Bounded(read, bound)
    ensures Clean(read, x) <==> Finishes(read, x)
    ensures Clean(read, x) ==> VisitNode(read, x, bound + 1) == Complete
  {
    if Finishes(read, x) {
      var d: nat :| VisitNode(read, x, d) == Complete;
      CompleteIsClean(read, x, d);
    }
    if Clean(read, x) {
      if VisitNode(read, x, bound + 1) == Deep {
        DeepMeetsCycle(read, x, bound);
        EnteredIsChild(read, x);
      } else if VisitNode(read, x, bound + 1) == Fails {
        var y := FailsSomewhere(read, x, bound + 1);
      }
    }
  }

  // ----- entered cycles never end ---------------------------------------

  /** While the entered child is deep the node is. */
  lemma DeepBelow(read: NodeReader, a: nat, b: nat, d: nat, bound: nat)
    requires Bounded(read, bound) && Enters(read, a, b) && VisitNode(read, b, d) == Deep
    ensures VisitNode(read, a, d + 1) == Deep
  {
    var k: nat :| Slot(read, a, k, b) && forall j :: 0 <= j < k ==> Clean(read, read(a).value.children[j].1);
    forall j | 0 <= j < k ensures VisitNode(read, read(a).value.children[j].1, d) != Fails {
      CleanNeverFails(read, read(a).value.children[j].1, d, bound);
    }
    DeepChild(read, read(a).value.children, k, d);
  }

  lemma CleanNeverFails(read: NodeReader, x: nat, d: nat, bound: nat)
    requires Clean(read, x)
    ensures VisitNode(read, x, d) != Fails
  {
    if VisitNode(read, x, d) == Fails {
      var y := FailsSomewhere(read, x, d);
    }
  }

  lemma {:induction false} DeepChild(read: NodeReader, cs: seq<(Name, nat)>, k: nat, d: nat)
    requires k < |cs| && VisitNode(read, cs[k].1, d) == Deep && forall j :: 0 <= j < k ==> VisitNode(read, cs[j].1, d) != Fails
    ensures VisitAll(read, cs, d) == Deep
    decreases k
  {
    hide VisitNode;
    if k > 0 {
      forall j | 0 <= j < k - 1 ensures VisitNode(read, cs[1..][j].1, d) != Fails {
        assert cs[1..][j] == cs[j + 1];
      }
      DeepChild(read, cs[1..], k - 1, d);
    }
  }

  /** Along an entered path depth only adds up. */
  lemma {:induction false} DeepUp(read: NodeReader, p: seq<nat>, i: nat, d: nat, bound: nat)
    requires Bounded(read, bound) && Chain(Entered(read), p) && i < |p| && VisitNode(read, p[|p| - 1], d) == Deep
    ensures VisitNode(read, p[i], d + (|p| - 1 - i)) == Deep
    decreases |p| - i
  {
    if i < |p| - 1 {
      DeepUp(read, p, i + 1, d, bound);
      assert Entered(read)(p[i], p[i + 1]);
      DeepBelow(read, p[i], p[i + 1], d + (|p| - 1 - (i + 1)), bound);
    }
  }

  /** A node on an entered cycle is deeper than any depth. */
  lemma {:induction false} CycleIsDeep(read: NodeReader, x: nat, p: seq<nat>, d: nat, bound: nat)
    requires Bounded(read, bound) && Chain(Entered(read), p) && |p| >= 2 && p[0] == x == p[|p| - 1]
    ensures VisitNode(read, x, d) == Deep
    decreases d
  {
    if d > 0 {
      CycleIsDeep(read, x, p, d - 1, bound);
      DeepUp(read, p, 0, d - 1, bound);
      ShallowerDeep(read, x, d, d - 1 + (|p| - 1));
    }
  }

  lemma ShallowerDeep(read: NodeReader, x: nat, d: nat, deeper: nat)
    requires VisitNode(read, x, deeper) == Deep && d <= deeper
    ensures VisitNode(read, x, d) == Deep
  {
    if VisitNode(read, x, d) != Deep {
      NodeStays(read, x, d, deeper);
    }
  }

  /** The visit ends if and only if it enters no cycle. */
  lemma EndsIff(read: NodeReader, x: nat, bound: nat)
    requires Bounded(read, bound)
    ensures Ends(read, x) <==> !MeetsCycle(Entered(read), x)
  {
    if MeetsCycle(Entered(read), x) {
      var y: nat :| Reaches(Entered(read), x, y) && OnCycle(Entered(read), y);
      var p: seq<nat> :| Chain(Entered(read), p) && p[0] == x && p[|p| - 1] == y;
      var q: seq<nat> :| Chain(Entered(read), q) && |q| >= 2 && q[0] == y == q[|q| - 1];
      forall d: nat ensures VisitNode(read, x, d) == Deep {
        CycleIsDeep(read, y, q, d, bound);
        DeepUp(read, p, 0, d, bound);
        ShallowerDeep(read, x, d, d + (|p| - 1));
      }
    } else if VisitNode(read, x, bound + 1) == Deep {
      DeepMeetsCycle(read, x, bound);
    }
  }

  // ----- the parser -----------------------------------------------------

  lemma ReadsInside(bytes: seq<byte>)
    ensures Bounded(ReaderOf(bytes), |bytes|)
  {}

  /** `parse` ends if and only if it enters no cycle: no node it gets to, over siblings that are
      clean, leads it back to itself. It returns exports if and only if everything below the
      root reads and nothing there repeats. */
  lemma ParseEnds(bytes: seq<byte>)
    requires bytes != []
    ensures (exists r: nat :: ParseOutcome(bytes, r) != StillRunning) <==> !MeetsCycle(Entered(ReaderOf(bytes)), 0)
    ensures (exists r: nat :: ParseOutcome(bytes, r).Done?) <==> Clean(ReaderOf(bytes), 0)
  {
    var read := ReaderOf(bytes);
    ReadsInside(bytes);
    ParserVisits(read, 0);
    EndsIff(read, 0, |bytes|);
    CleanFinishes(read, 0, |bytes|);
    hide *;
    OutcomeIsRun(bytes);
    if r: nat :| ParseOutcome(bytes, r) != StillRunning {
      assert Run(read, [(0, [])], [], r) != StillRunning;
    }
    if r: nat :| ParseOutcome(bytes, r).Done? {
      assert Run(read, [(0, [])], [], r).Done?;
    }
    if r: nat :| Run(read, [(0, [])], [], r) != StillRunning {
      assert ParseOutcome(bytes, r) != StillRunning;
    }
    if r: nat :| Run(read, [(0, [])], [], r).Done? {
      assert ParseOutcome(bytes, r).Done?;
    }
  }

  lemma OutcomeIsRun(bytes: seq<byte>)
    requires bytes != []
    ensures forall r: nat :: ParseOutcome(bytes, r) == Run(ReaderOf(bytes), [(0, [])], [], r)
  {}

  /** When every node that can be reached reads, `parse` ends if and only if no node that can be
      reached reaches itself. */
  lemma ReadableEnds(bytes: seq<byte>)
    requires bytes != [] && forall y: nat :: Reaches(Descent(ReaderOf(bytes)), 0, y) ==> ReadNode(bytes, y).Ok?
    ensures (exists r: nat :: ParseOutcome(bytes, r) != StillRunning)
            <==> !exists x: nat :: Reaches(Descent(ReaderOf(bytes)), 0, x) && OnCycle(Descent(ReaderOf(bytes)), x)
  {
    var read := ReaderOf(bytes);
    ParseEnds(bytes);
    ReadsInside(bytes);
    EndsIff(read, 0, |bytes|);
    if MeetsCycle(Entered(read), 0) {
      EnteredIsChild(read, 0);
    } else {
      var d: nat :| VisitNode(read, 0, d) != Deep;
      if VisitNode(read, 0, d) == Fails {
        var y := FailsSomewhere(read, 0, d);
      } else {
        CompleteIsClean(read, 0, d);
      }
    }
  }

  /** A cycle the parser does not get to: node 0 is its own second child, but the first lies
      outside the blob. */
  lemma CycleNotEntered()
    ensures var bytes := [0, 2, 0x61, 0, 0x7F, 0x62, 0, 0];
            OnCycle(Descent(ReaderOf(bytes)), 0) && ParseOutcome(bytes, 2) == Failed(NodePastEnd)
  {
    var bytes: seq<byte> := [0, 2, 0x61, 0, 0x7F, 0x62, 0, 0];
    var read := ReaderOf(bytes);
    TwoChildren(bytes);
    assert Slot(read, 0, 1, 0);
    assert Descent(read)(0, 0) && Chain(Descent(read), [0, 0]);
    assert read(0x7F) == Err(NodePastEnd);
    hide *;
    OutcomeIsRun(bytes);
    FirstChildFails(read, 0, ([0x61], 0x7F), ([0x62], 0), NodePastEnd);
  }

  /** A first child that does not read ends the parser in its second round. */
  lemma FirstChildFails(read: NodeReader, off: nat, a: (Name, nat), b: (Name, nat), e: TrieError)
    requires read(off) == Ok(NodeRecord(None, [a, b])) && read(a.1) == Err(e)
    ensures Run(read, [(off, [])], [], 2) == Failed(e)
  {
    hide Run;
    var top: seq<(nat, Name)>, rest: seq<(nat, Name)> := [(off, [])], [(b.1, [] + b.0)];
    assert [] + top == top;
    StackedTwo(a, b);
    RunStep(read, [], off, [], [], 1);
    RunStep(read, rest, a.1, [] + a.0, [], 0);
    assert [] + (rest + [(a.1, [] + a.0)]) == rest + [(a.1, [] + a.0)];
  }

  lemma StackedTwo(a: (Name, nat), b: (Name, nat))
    ensures Stacked([], [a, b]) == [(b.1, [] + b.0)] + [(a.1, [] + a.0)]
  {
    assert [a, b][1..] == [b] && [b][1..] == [];
    assert Stacked([], []) == [];
    assert Stacked([], [b]) == Stacked([], []) + [(b.1, [] + b.0)];
    assert Stacked([], [a, b]) == Stacked([], [b]) + [(a.1, [] + a.0)];
  }

  lemma TwoChildren(bytes: seq<byte>)
    requires bytes == [0, 2, 0x61, 0, 0x7F, 0x62, 0, 0]
    ensures ReadNode(bytes, 0) == Ok(NodeRecord(None, [([0x61], 0x7F), ([0x62], 0)]))
  {
    assert Uleb128.Pow128(0) == 1;
    assert Uleb(bytes, 0) == Ok((0, 1)) && Uleb(bytes, 4) == Ok((0x7F, 5)) && Uleb(bytes, 7) == Ok((0, 8));
    assert NulAt(bytes, 2) == NulAt(bytes, 3) == 3 && NulAt(bytes, 5) == NulAt(bytes, 6) == 6;
    assert bytes[2..3] == [0x61] && bytes[5..6] == [0x62] && ValidUtf8([0x61]) && ValidUtf8([0x62]);
    assert CString(bytes, 2) == Ok(([0x61], 4)) && CString(bytes, 5) == Ok(([0x62], 7));
    OnlyChild(bytes, 5, [0x62], 7, 0, 8);
    MoreChildren(bytes, 2, [0x61], 4, 0x7F, 5, 1, [([0x62], 0)]);
    var a: (Name, nat), b: (Name, nat) := ([0x61], 0x7F), ([0x62], 0);
    assert [a] + [b] == [a, b];
    assert bytes[1] == 2;
  }

  lemma MoreChildren(bytes: seq<byte>, at: nat, text: Name, at1: nat, offset: u64, at2: nat, more: nat, rest: seq<(Name, nat)>)
    requires CString(bytes, at) == Ok((text, at1)) && Uleb(bytes, at1) == Ok((offset, at2)) && ExportTrie.Children(bytes, at2, more) == Ok(rest)
    ensures ExportTrie.Children(bytes, at, more + 1) == Ok([(text, offset as nat)] + rest)
  {}
}
