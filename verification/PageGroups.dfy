/** Grouping a list by an ascending key: equal keys are contiguous runs. */
module PageGroups {

  ghost predicate Ascending(keys: seq<nat>) {
    forall i, j :: 0 <= i < j < |keys| ==> keys[i] <= keys[j]
  }

  /** How many keys come before key `p`. */
  ghost function FirstOf(keys: seq<nat>, p: nat): (n: nat)
    ensures n <= |keys|
  {
    if keys == [] || keys[0] >= p then 0 else 1 + FirstOf(keys[1..], p)
  }

  lemma {:induction false} FirstOfSplits(keys: seq<nat>, p: nat, i: nat)
    requires Ascending(keys) && i < |keys|
    ensures keys[i] < p <==> i < FirstOf(keys, p)
  {
    if keys[0] < p && i > 0 {
      FirstOfSplits(keys[1..], p, i - 1);
    }
  }

  lemma FirstOfMono(keys: seq<nat>, p: nat)
    requires Ascending(keys)
    ensures FirstOf(keys, p) <= FirstOf(keys, p + 1)
  {
    var i := FirstOf(keys, p + 1);
    if i < |keys| {
      FirstOfSplits(keys, p + 1, i);
      FirstOfSplits(keys, p, i);
    }
  }

  lemma FirstOfAll(keys: seq<nat>, p: nat)
    requires Ascending(keys) && forall i :: 0 <= i < |keys| ==> keys[i] < p
    ensures FirstOf(keys, p) == |keys|
  {
    if FirstOf(keys, p) < |keys| {
      FirstOfSplits(keys, p, FirstOf(keys, p));
    }
  }

  /** Index `i` lies in the run of its own key, and only there. */
  lemma RunOwns(keys: seq<nat>, p: nat, i: nat)
    requires Ascending(keys) && i < |keys|
    ensures keys[i] == p <==> FirstOf(keys, p) <= i < FirstOf(keys, p + 1)
  {
    FirstOfSplits(keys, p, i);
    FirstOfSplits(keys, p + 1, i);
  }

  /** The elements whose key is `p`. */
  ghost function Run<T>(xs: seq<T>, keys: seq<nat>, p: nat): seq<T>
    requires |xs| == |keys| && Ascending(keys)
  {
    FirstOfMono(keys, p);
    xs[FirstOf(keys, p)..FirstOf(keys, p + 1)]
  }

  /** From a page's first element the list is its run followed by the later pages. */
  lemma RunThenRest<T>(xs: seq<T>, keys: seq<nat>, p: nat)
    requires |xs| == |keys| && Ascending(keys)
    ensures xs[FirstOf(keys, p)..] == Run(xs, keys, p) + xs[FirstOf(keys, p + 1)..]
  {
    FirstOfMono(keys, p);
  }

  lemma {:induction false} FirstOfSnoc(keys: seq<nat>, x: nat, p: nat)
    requires Ascending(keys + [x])
    ensures FirstOf(keys + [x], p) == if x < p then |keys| + 1 else FirstOf(keys, p)
  {
    var all := keys + [x];
    assert all[|keys|] == x;
    if keys != [] {
      assert all[0] == keys[0] && all[1..] == keys[1..] + [x];
      FirstOfSnoc(keys[1..], x, p);
    }
  }

  lemma AscendingPrefix(keys: seq<nat>, x: nat)
    requires Ascending(keys + [x])
    ensures Ascending(keys) && forall i :: 0 <= i < |keys| ==> keys[i] <= x
  {
    var all := keys + [x];
    assert all[|keys|] == x && forall i :: 0 <= i < |keys| ==> all[i] == keys[i];
  }

  lemma RunSnoc<T>(xs: seq<T>, keys: seq<nat>, x: T, key: nat, p: nat)
    requires |xs| == |keys| && Ascending(keys + [key]) && Ascending(keys)
    ensures Run(xs + [x], keys + [key], p) == if key == p then Run(xs, keys, p) + [x] else Run(xs, keys, p)
  {
    AscendingPrefix(keys, key);
    FirstOfSnoc(keys, key, p);
    FirstOfSnoc(keys, key, p + 1);
    FirstOfMono(keys, p);
    if key <= p {
      FirstOfAll(keys, p + 1);
    }
    if key < p {
      FirstOfAll(keys, p);
    }
  }

  ghost predicate Grouped<T>(groups: map<nat, seq<T>>, xs: seq<T>, keys: seq<nat>)
    requires |xs| == |keys| && Ascending(keys)
  {
    forall p :: (p in groups <==> Run(xs, keys, p) != []) && (p in groups ==> groups[p] == Run(xs, keys, p))
  }

  /** One more element joins its group. */
  lemma GroupedSnoc<T>(groups: map<nat, seq<T>>, xs: seq<T>, keys: seq<nat>, x: T, key: nat)
    requires |xs| == |keys| && Ascending(keys + [key]) && Ascending(keys) && Grouped(groups, xs, keys)
    ensures Grouped(groups[key := (if key in groups then groups[key] else []) + [x]], xs + [x], keys + [key])
  {
    hide Run, Ascending;
    forall p ensures Run(xs + [x], keys + [key], p) == if key == p then Run(xs, keys, p) + [x] else Run(xs, keys, p) {
      RunSnoc(xs, keys, x, key, p);
    }
  }

  /** `entry(key).or_default().push(x)` over the list. */
  method Group<T>(xs: seq<T>, keys: seq<nat>) returns (groups: map<nat, seq<T>>)
    requires |xs| == |keys| && Ascending(keys)
    ensures Grouped(groups, xs, keys)
    ensures forall i :: 0 <= i < |keys| ==> keys[i] in groups
  {
    groups := map[];
    var j := 0;
    while j < |xs|
      invariant j <= |xs| && Grouped(groups, xs[..j], keys[..j])
    {
      var key := keys[j];
      assert xs[..j + 1] == xs[..j] + [xs[j]] && keys[..j + 1] == keys[..j] + [key];
      GroupedSnoc(groups, xs[..j], keys[..j], xs[j], key);
      groups := groups[key := (if key in groups then groups[key] else []) + [xs[j]]];
      j := j + 1;
    }
    assert xs[..|xs|] == xs && keys[..|keys|] == keys;
    forall i | 0 <= i < |keys| ensures keys[i] in groups {
      RunOwns(keys, keys[i], i);
    }
  }
}
