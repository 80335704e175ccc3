/** Iterating a monotone map on tables of numbers from the all-zero table. */
module FixedPoint {

  type Table = seq<nat>

  ghost predicate Leq(a: Table, b: Table) {
    |a| == |b| && forall i :: 0 <= i < |a| ==> a[i] <= b[i]
  }

  ghost predicate AllAtMost(a: Table, top: nat) {
    forall i :: 0 <= i < |a| ==> a[i] <= top
  }

  function ZeroTable(n: nat): (r: Table)
    ensures |r| == n && forall i :: 0 <= i < n ==> r[i] == 0
  {
    seq(n, (i: nat) => 0)
  }

  /** `f` maps tables of length `n` to such tables and respects the pointwise order. */
  ghost predicate Monotone(f: Table -> Table, n: nat) {
    forall a, b {:trigger Leq(f(a), f(b))} :: |a| == n && Leq(a, b) ==> |f(a)| == n && Leq(f(a), f(b))
  }

  lemma MonotoneAt(f: Table -> Table, n: nat, a: Table, b: Table)
    requires Monotone(f, n) && |a| == n && Leq(a, b)
    ensures |f(a)| == n && Leq(f(a), f(b))
  {}

  /** `f` keeps tables below `top`. */
  ghost predicate Bounded(f: Table -> Table, n: nat, top: nat) {
    forall a {:trigger AllAtMost(f(a), top)} :: |a| == n && AllAtMost(a, top) ==> AllAtMost(f(a), top)
  }

  ghost function Times(f: Table -> Table, n: nat, k: nat): Table {
    if k == 0 then ZeroTable(n) else f(Times(f, n, k - 1))
  }

  lemma {:induction false} TimesLength(f: Table -> Table, n: nat, k: nat)
    requires Monotone(f, n)
    ensures |Times(f, n, k)| == n
  {
    if k > 0 {
      TimesLength(f, n, k - 1);
      MonotoneAt(f, n, Times(f, n, k - 1), Times(f, n, k - 1));
    }
  }

  /** The iterates ascend. */
  lemma {:induction false} TimesAscend(f: Table -> Table, n: nat, k: nat, m: nat)
    requires Monotone(f, n) && k <= m
    ensures |Times(f, n, k)| == n && Leq(Times(f, n, k), Times(f, n, m))
  {
    TimesLength(f, n, m);
    if k > 0 {
      TimesAscend(f, n, k - 1, m - 1);
      MonotoneAt(f, n, Times(f, n, k - 1), Times(f, n, m - 1));
    }
  }

  /** Every iterate lies below every fixed point. */
  lemma {:induction false} TimesBelow(f: Table -> Table, n: nat, k: nat, fix: Table)
    requires Monotone(f, n) && |fix| == n && f(fix) == fix
    ensures Leq(Times(f, n, k), fix)
  {
    if k > 0 {
      TimesLength(f, n, k - 1);
      TimesBelow(f, n, k - 1, fix);
      MonotoneAt(f, n, Times(f, n, k - 1), fix);
    }
  }

  /** A round that changes nothing is the last that could. */
  lemma {:induction false} FixedStays(f: Table -> Table, n: nat, k: nat, m: nat)
    requires k <= m && Times(f, n, k + 1) == Times(f, n, k)
    ensures Times(f, n, m) == Times(f, n, k) && f(Times(f, n, m)) == Times(f, n, m)
    decreases m
  {
    if k < m {
      FixedStays(f, n, k, m - 1);
    }
  }

  /** The first tables of an iteration, as a list. */
  ghost predicate IsRun(f: Table -> Table, n: nat, x: seq<Table>) {
    && |x| > 0 && x[0] == ZeroTable(n)
    && forall k :: 0 < k < |x| ==> x[k] == f(x[k - 1])
  }

  lemma {:induction false} RunOf(f: Table -> Table, n: nat, m: nat) returns (x: seq<Table>)
    ensures IsRun(f, n, x) && |x| == m + 1
    ensures forall k :: 0 <= k <= m ==> x[k] == Times(f, n, k)
  {
    if m == 0 {
      x := [ZeroTable(n)];
    } else {
      var y := RunOf(f, n, m - 1);
      x := y + [f(y[m - 1])];
    }
  }

  lemma {:induction false} RunAscends(f: Table -> Table, n: nat, x: seq<Table>, k: nat, m: nat)
    requires Monotone(f, n) && IsRun(f, n, x) && k <= m < |x|
    ensures |x[k]| == |x[m]| == n && Leq(x[k], x[m])
  {
    if k > 0 {
      RunAscends(f, n, x, k - 1, m - 1);
      MonotoneAt(f, n, x[k - 1], x[m - 1]);
    } else if m > 0 {
      RunAscends(f, n, x, 0, m - 1);
      MonotoneAt(f, n, x[m - 1], x[m - 1]);
    }
  }

  ghost function Sum(s: Table): nat {
    if s == [] then 0 else s[0] + Sum(s[1..])
  }

  lemma {:induction false} SumGrows(a: Table, b: Table)
    requires Leq(a, b)
    ensures Sum(a) <= Sum(b) && (a != b ==> Sum(a) < Sum(b))
  {
    if a != [] {
      SumGrows(a[1..], b[1..]);
      assert a == [a[0]] + a[1..] && b == [b[0]] + b[1..];
    }
  }

  lemma {:induction false} SumBound(s: Table, top: nat)
    requires AllAtMost(s, top)
    ensures Sum(s) <= |s| * top
  {
    if s != [] {
      SumBound(s[1..], top);
      assert |s| * top == |s[1..]| * top + top;
    }
  }

  lemma {:induction false} SettledOrGrown(f: Table -> Table, n: nat, k: nat)
    requires Monotone(f, n)
    ensures (exists j :: 0 <= j < k && Times(f, n, j + 1) == Times(f, n, j)) || Sum(Times(f, n, k)) >= k
  {
    if k > 0 {
      SettledOrGrown(f, n, k - 1);
      TimesAscend(f, n, k - 1, k);
      SumGrows(Times(f, n, k - 1), Times(f, n, k));
      assert Times(f, n, k - 1 + 1) == Times(f, n, k);
    }
  }

  lemma {:induction false} TimesBounded(f: Table -> Table, n: nat, k: nat, top: nat)
    requires Monotone(f, n)
    requires Bounded(f, n, top)
    ensures |Times(f, n, k)| == n && AllAtMost(Times(f, n, k), top)
  {
    TimesLength(f, n, k);
    if k > 0 {
      TimesBounded(f, n, k - 1, top);
    }
  }

  /** A bounded monotone map is iterated to its least fixed point in finitely many rounds. */
  lemma Settles(f: Table -> Table, n: nat, top: nat) returns (k: nat)
    requires Monotone(f, n)
    requires Bounded(f, n, top)
    ensures |Times(f, n, k)| == n && f(Times(f, n, k)) == Times(f, n, k)
    ensures forall fix :: |fix| == n && f(fix) == fix ==> Leq(Times(f, n, k), fix)
  {
    var m := n * top + 1;
    SettledOrGrown(f, n, m);
    TimesBounded(f, n, m, top);
    SumBound(Times(f, n, m), top);
    k :| 0 <= k < m && Times(f, n, k + 1) == Times(f, n, k);
    TimesLength(f, n, k);
    forall fix | |fix| == n && f(fix) == fix ensures Leq(Times(f, n, k), fix) {
      TimesBelow(f, n, k, fix);
    }
  }
}
