/** Byte-wise lexicographic order on symbol names, and strictly sorted lists. */
module NameOrder {
  import opened Bytes

  type Name = seq<byte>

  predicate Before(a: Name, b: Name) {
    b != [] && (a == [] || a[0] < b[0] || (a[0] == b[0] && Before(a[1..], b[1..])))
  }

  lemma {:induction false} BeforeIrreflexive(a: Name)
    ensures !Before(a, a)
  {
    if a != [] {
      BeforeIrreflexive(a[1..]);
    }
  }

  lemma {:induction false} BeforeTransitive(a: Name, b: Name, c: Name)
    requires Before(a, b) && Before(b, c)
    ensures Before(a, c)
  {
    if a != [] && a[0] == b[0] == c[0] {
      BeforeTransitive(a[1..], b[1..], c[1..]);
    }
  }

  lemma {:induction false} BeforeTotal(a: Name, b: Name)
    ensures a == b || Before(a, b) || Before(b, a)
  {
    if a != [] && b != [] && a[0] == b[0] {
      BeforeTotal(a[1..], b[1..]);
      assert a == [a[0]] + a[1..] && b == [b[0]] + b[1..];
    }
  }

  lemma {:induction false} BeforeUnderPrefix(p: Name, a: Name, b: Name)
    ensures Before(p + a, p + b) == Before(a, b)
  {
    if p == [] {
      assert p + a == a && p + b == b;
    } else {
      assert (p + a)[1..] == p[1..] + a && (p + b)[1..] == p[1..] + b;
      BeforeUnderPrefix(p[1..], a, b);
    }
  }

  lemma PrefixBefore(a: Name, b: Name)
    requires a < b
    ensures Before(a, b)
  {
    assert b == a + b[|a|..] && a == a + [];
    BeforeUnderPrefix(a, [], b[|a|..]);
  }

  ghost predicate StrictlySorted(names: seq<Name>) {
    forall i, j :: 0 <= i < j < |names| ==> Before(names[i], names[j])
  }

  lemma StrictlySortedConcat(a: seq<Name>, b: seq<Name>)
    requires StrictlySorted(a) && StrictlySorted(b)
    requires forall i, j :: 0 <= i < |a| && 0 <= j < |b| ==> Before(a[i], b[j])
    ensures StrictlySorted(a + b)
  {}

  lemma StrictlySortedDistinct(names: seq<Name>)
    requires StrictlySorted(names)
    ensures forall i, j :: 0 <= i < j < |names| ==> names[i] != names[j]
  {
    forall i, j | 0 <= i < j < |names| ensures names[i] != names[j] {
      BeforeIrreflexive(names[i]);
    }
  }
}
