/** Packing `__LINKEDIT` blobs and patching command fields: the parts of canonicalization. */
module CanonicalLayout {
  import opened Bytes

  // ----- packing --------------------------------------------------------

  function Padded(s: seq<byte>): (r: seq<byte>)
    ensures |r| == Pad8(|s|) && r[..|s|] == s
  {
    s + Zeros(Pad8(|s|) - |s|)
  }

  /** The blobs laid after `done`, each on the next multiple of eight, padded at the end. */
  function PackAfter(done: seq<byte>, blobs: seq<seq<byte>>): (r: seq<byte>)
    ensures |r| % 8 == 0
    decreases |blobs|
  {
    if blobs == [] then Padded(done) else PackAfter(Padded(done) + blobs[0], blobs[1..])
  }

  /** Where each blob starts when `n` bytes are already laid. */
  function Starts(n: nat, blobs: seq<seq<byte>>): (r: seq<nat>)
    ensures |r| == |blobs|
    decreases |blobs|
  {
    if blobs == [] then [] else [Pad8(n)] + Starts(Pad8(n) + |blobs[0]|, blobs[1..])
  }

  function Pack(blobs: seq<seq<byte>>): seq<byte> { PackAfter([], blobs) }

  lemma {:induction false} PackExtends(done: seq<byte>, blobs: seq<seq<byte>>)
    ensures |done| <= |PackAfter(done, blobs)| && PackAfter(done, blobs)[..|done|] == done
    decreases |blobs|
  {
    if blobs != [] {
      var next := Padded(done) + blobs[0];
      PackExtends(next, blobs[1..]);
      var all := PackAfter(next, blobs[1..]);
      assert all[..|done|] == all[..|next|][..|done|];
      assert next[..|done|] == Padded(done)[..|done|];
    }
  }

  /** Every blob stands at its start, on a multiple of eight and clear of its neighbours. */
  lemma {:induction false} PackedAt(done: seq<byte>, blobs: seq<seq<byte>>, k: nat)
    requires k < |blobs|
    ensures Starts(|done|, blobs)[k] % 8 == 0 && Starts(|done|, blobs)[k] >= |done|
    ensures HasAt(PackAfter(done, blobs), Starts(|done|, blobs)[k], blobs[k])
    ensures k + 1 < |blobs| ==> Starts(|done|, blobs)[k] + |blobs[k]| <= Starts(|done|, blobs)[k + 1]
    decreases |blobs|
  {
    var next := Padded(done) + blobs[0];
    var all := PackAfter(next, blobs[1..]);
    if k == 0 {
      PackExtends(next, blobs[1..]);
      assert all[Pad8(|done|)..|next|] == all[..|next|][Pad8(|done|)..] == blobs[0];
      if |blobs| > 1 {
        assert Starts(|done|, blobs)[1] == Starts(|next|, blobs[1..])[0];
      }
    } else {
      PackedAt(next, blobs[1..], k - 1);
      assert Starts(|done|, blobs)[k] == Starts(|next|, blobs[1..])[k - 1];
      if k + 1 < |blobs| {
        assert Starts(|done|, blobs)[k + 1] == Starts(|next|, blobs[1..])[k];
      }
    }
  }

  /** Blobs in order: an earlier one ends where a later one starts, or before. */
  lemma {:induction false} PackedInOrder(blobs: seq<seq<byte>>, j: nat, k: nat)
    requires j < k < |blobs|
    ensures Starts(0, blobs)[j] + |blobs[j]| <= Starts(0, blobs)[k]
    decreases k
  {
    PackedAt([], blobs, j);
    if j + 1 < k {
      PackedInOrder(blobs, j, k - 1);
      PackedAt([], blobs, k - 1);
    }
  }

  method PackBlobs(blobs: seq<seq<byte>>) returns (packed: seq<byte>, starts: seq<nat>)
    ensures packed == Pack(blobs) && starts == Starts(0, blobs)
  {
    packed, starts := [], [];
    var k := 0;
    while k < |blobs|
      invariant k <= |blobs|
      invariant PackAfter(packed, blobs[k..]) == Pack(blobs)
      invariant starts + Starts(|packed|, blobs[k..]) == Starts(0, blobs)
    {
      assert blobs[k..][1..] == blobs[k + 1..];
      var padded := PadInPlace(packed);
      assert starts + ([|padded|] + Starts(|padded| + |blobs[k]|, blobs[k + 1..]))
             == starts + [|padded|] + Starts(|padded| + |blobs[k]|, blobs[k + 1..]);
      starts := starts + [|padded|];
      packed := padded + blobs[k];
      k := k + 1;
    }
    assert blobs[k..] == [] && starts + [] == starts;
    packed := PadInPlace(packed);
  }

  method PadInPlace(s: seq<byte>) returns (r: seq<byte>)
    ensures r == Padded(s)
  {
    r := s;
    while |r| % 8 != 0
      invariant |s| <= |r| <= Pad8(|s|) && r == s + Zeros(|r| - |s|)
      decreases Pad8(|s|) - |r|
    {
      assert s + Zeros(|r| - |s|) + [0] == s + Zeros(|r| + 1 - |s|);
      r := r + [0];
    }
  }

  // ----- writes into commands -------------------------------------------

  /** Overwrites part of command `i`. */
  datatype Write = Write(i: nat, at: nat, data: seq<byte>)

  ghost predicate Inside(cmds: seq<seq<byte>>, w: Write) {
    w.i < |cmds| && w.at + |w.data| <= |cmds[w.i]|
  }

  lemma InsideRest(cmds: seq<seq<byte>>, ws: seq<Write>)
    requires ws != [] && Inside(cmds, ws[0]) && forall k :: 0 <= k < |ws| ==> Inside(cmds, ws[k])
    ensures var now := cmds[ws[0].i := Overwritten(cmds[ws[0].i], ws[0].at, ws[0].data)];
            forall k :: 0 <= k < |ws[1..]| ==> Inside(now, ws[1..][k])
  {
    assert Inside(cmds, ws[0]);
    forall k | 0 <= k < |ws[1..]| ensures Inside(cmds[ws[0].i := Overwritten(cmds[ws[0].i], ws[0].at, ws[0].data)], ws[1..][k]) {
      assert Inside(cmds, ws[k + 1]);
    }
  }

  function Apply(cmds: seq<seq<byte>>, ws: seq<Write>): (r: seq<seq<byte>>)
    requires forall k :: 0 <= k < |ws| ==> Inside(cmds, ws[k])
    ensures |r| == |cmds| && forall i :: 0 <= i < |cmds| ==> |r[i]| == |cmds[i]|
    decreases |ws|
  {
    if ws == [] then cmds
    else
      var w := ws[0];
      assert Inside(cmds, ws[0]);
      InsideRest(cmds, ws);
      Apply(cmds[w.i := Overwritten(cmds[w.i], w.at, w.data)], ws[1..])
  }

  /** The write leaves the `len` bytes at `at` of command `i` alone. */
  ghost predicate Clear(w: Write, i: nat, at: nat, len: nat) {
    w.i != i || w.at + |w.data| <= at || at + len <= w.at
  }

  ghost predicate Apart(ws: seq<Write>) {
    forall j, k :: 0 <= j < k < |ws| ==> Clear(ws[k], ws[j].i, ws[j].at, |ws[j].data|)
  }

  lemma OverwrittenKeeps(c: seq<byte>, at: nat, data: seq<byte>, from: nat, len: nat)
    requires at + |data| <= |c| && from + len <= |c| && (at + |data| <= from || from + len <= at)
    ensures Overwritten(c, at, data)[from..from + len] == c[from..from + len]
  {}

  lemma {:induction false} ApplyKeeps(cmds: seq<seq<byte>>, ws: seq<Write>, i: nat, at: nat, len: nat)
    requires forall k :: 0 <= k < |ws| ==> Inside(cmds, ws[k])
    requires i < |cmds| && at + len <= |cmds[i]| && forall k :: 0 <= k < |ws| ==> Clear(ws[k], i, at, len)
    ensures Apply(cmds, ws)[i][at..at + len] == cmds[i][at..at + len]
    decreases |ws|
  {
    if ws != [] {
      var w := ws[0];
      var next := cmds[w.i := Overwritten(cmds[w.i], w.at, w.data)];
      assert forall k :: 0 <= k < |ws[1..]| ==> ws[1..][k] == ws[k + 1];
      assert Clear(w, i, at, len);
      if w.i == i {
        OverwrittenKeeps(cmds[i], w.at, w.data, at, len);
      }
      ApplyKeeps(next, ws[1..], i, at, len);
    }
  }

  /** With disjoint writes, every write stands in the end. */
  lemma {:induction false} ApplyStands(cmds: seq<seq<byte>>, ws: seq<Write>, k: nat)
    requires (forall j :: 0 <= j < |ws| ==> Inside(cmds, ws[j])) && Apart(ws) && k < |ws|
    ensures HasAt(Apply(cmds, ws)[ws[k].i], ws[k].at, ws[k].data)
    decreases |ws|
  {
    var w := ws[0];
    var next := cmds[w.i := Overwritten(cmds[w.i], w.at, w.data)];
    var rest := ws[1..];
    assert forall j :: 0 <= j < |rest| ==> rest[j] == ws[j + 1];
    if k == 0 {
      ApplyKeeps(next, rest, w.i, w.at, |w.data|);
      assert next[w.i][w.at..w.at + |w.data|] == w.data;
    } else {
      ApplyStands(next, rest, k - 1);
    }
  }

  lemma OverwrittenSame(c: seq<byte>, at: nat, data: seq<byte>)
    requires HasAt(c, at, data)
    ensures Overwritten(c, at, data) == c
  {
    assert c == c[..at] + c[at..at + |data|] + c[at + |data|..];
  }

  /** Writing what already stands changes nothing. */
  lemma {:induction false} ApplyStanding(cmds: seq<seq<byte>>, ws: seq<Write>)
    requires forall k :: 0 <= k < |ws| ==> Inside(cmds, ws[k]) && HasAt(cmds[ws[k].i], ws[k].at, ws[k].data)
    ensures Apply(cmds, ws) == cmds
    decreases |ws|
  {
    if ws != [] {
      var w := ws[0];
      OverwrittenSame(cmds[w.i], w.at, w.data);
      assert cmds[w.i := cmds[w.i]] == cmds;
      assert forall k :: 0 <= k < |ws[1..]| ==> ws[1..][k] == ws[k + 1];
      ApplyStanding(cmds, ws[1..]);
    }
  }
}
