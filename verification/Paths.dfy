/** Display paths: the names along a parent walk, joined with slashes and split again. */
module Paths {
  import opened Common
  import opened Tree

  // ---------------------------------------------------------------- strings

  /** Joins segments with single slashes. */
  function JoinSlash(segs: seq<string>): string {
    if |segs| == 0 then ""
    else if |segs| == 1 then segs[0]
    else segs[0] + "/" + JoinSlash(segs[1..])
  }

  /** Splits at every slash; the result is never empty. */
  function Split(s: string): (r: seq<string>)
    ensures |r| > 0
  {
    if s == "" then [""]
    else
      var r := Split(s[1..]);
      if s[0] == '/' then [""] + r else [[s[0]] + r[0]] + r[1..]
  }

  function NonEmpty(segs: seq<string>): seq<string> {
    if segs == [] then []
    else if segs[0] == "" then NonEmpty(segs[1..])
    else [segs[0]] + NonEmpty(segs[1..])
  }

  /** The segments a path names, empty ones dropped. */
  function Segments(path: string): seq<string> {
    NonEmpty(Split(path))
  }

  function DisplayPath(segs: seq<string>): string {
    "/" + JoinSlash(segs)
  }

  ghost predicate PlainName(name: string) {
    name != "" && '/' !in name
  }

  lemma {:induction false} SplitPrefix(a: string, b: string)
    requires '/' !in a
    ensures Split(a) == [a]
    ensures Split(a + "/" + b) == [a] + Split(b)
  {
    if a == "" {
      assert a + "/" + b == "/" + b;
      assert ("/" + b)[1..] == b;
    } else {
      SplitPrefix(a[1..], b);
      assert (a + "/" + b)[1..] == a[1..] + "/" + b;
      assert [a[0]] + a[1..] == a;
    }
  }

  lemma {:induction false} SplitJoin(segs: seq<string>)
    requires segs != [] && forall i :: 0 <= i < |segs| ==> '/' !in segs[i]
    ensures Split(JoinSlash(segs)) == segs
  {
    if |segs| == 1 {
      SplitPrefix(segs[0], "");
    } else {
      SplitJoin(segs[1..]);
      SplitPrefix(segs[0], JoinSlash(segs[1..]));
    }
  }

  lemma {:induction false} NonEmptyKeeps(segs: seq<string>)
    requires forall i :: 0 <= i < |segs| ==> segs[i] != ""
    ensures NonEmpty(segs) == segs
  {
    if segs != [] {
      NonEmptyKeeps(segs[1..]);
    }
  }

  /** Splitting undoes joining for plain names. */
  lemma SegmentsOfDisplayPath(segs: seq<string>)
    requires segs != [] && forall i :: 0 <= i < |segs| ==> PlainName(segs[i])
    ensures Segments(DisplayPath(segs)) == segs
  {
    SplitJoin(segs);
    SplitPrefix("", JoinSlash(segs));
    assert "" + "/" + JoinSlash(segs) == DisplayPath(segs);
    NonEmptyKeeps(segs);
    assert ([""] + segs)[1..] == segs;
  }

  lemma {:induction false} SplitAtSlash(a: string, b: string)
    ensures Split(a + "/" + b) == Split(a) + Split(b)
  {
    if a == "" {
      assert "" + "/" + b == "/" + b && ("/" + b)[1..] == b;
    } else {
      SplitAtSlash(a[1..], b);
      SplitRest(a, "/" + b);
      assert a + ("/" + b) == a + "/" + b && a[1..] + ("/" + b) == a[1..] + "/" + b;
      HeadJoined(a[0], Split(a[1..]), Split(b));
    }
  }

  lemma SplitRest(a: string, rest: string)
    requires a != ""
    ensures var r := Split(a[1..] + rest);
      Split(a + rest) == if a[0] == '/' then [""] + r else [[a[0]] + r[0]] + r[1..]
  {
    assert (a + rest)[1..] == a[1..] + rest;
  }

  lemma HeadJoined(c: char, r: seq<string>, s: seq<string>)
    requires r != []
    ensures [[c] + (r + s)[0]] + (r + s)[1..] == [[c] + r[0]] + r[1..] + s
    ensures [""] + (r + s) == [""] + r + s
  {
    assert (r + s)[1..] == r[1..] + s;
  }

  lemma {:induction false} NonEmptyAppend(a: seq<string>, b: seq<string>)
    ensures NonEmpty(a + b) == NonEmpty(a) + NonEmpty(b)
  {
    if a == [] {
      assert a + b == b;
    } else {
      NonEmptyAppend(a[1..], b);
      assert (a + b)[1..] == a[1..] + b && (a + b)[0] == a[0];
      assert [a[0]] + NonEmpty(a[1..]) + NonEmpty(b) == [a[0]] + (NonEmpty(a[1..]) + NonEmpty(b));
    }
  }

  /** A slash separates, and slashes at the ends or in a row add no segment: with plain names this fixes the split. */
  lemma SegmentsAtSlash(a: string, b: string, name: string)
    requires PlainName(name)
    ensures Segments("") == [] && Segments(name) == [name] && Segments(a + "/" + b) == Segments(a) + Segments(b)
  {
    SplitAtSlash(a, b);
    NonEmptyAppend(Split(a), Split(b));
    SplitPrefix(name, "");
    assert NonEmpty([name][1..]) == [];
  }

  // ---------------------------------------------------------------- names along a walk

  ghost predicate IsRootWalk(t: Nodes, n: NodeId, k: nat) {
    Up(t, n, k).Some? && Up(t, n, k).value in t && t[Up(t, n, k).value].parent.None?
  }

  /** The names on the walk of `k` steps up from `n`, topmost first. */
  ghost function NamesUp(t: Nodes, n: NodeId, k: nat): seq<string>
    requires Up(t, n, k).Some?
    decreases k
  {
    if k == 0 then [t[n].name] else NamesUp(t, t[n].parent.value, k - 1) + [t[n].name]
  }

  ghost predicate NameAt(t: Nodes, n: NodeId, k: nat, i: nat)
    requires Up(t, n, k).Some? && i <= k
  {
    var a := Up(t, n, k - i);
    a.Some? && a.value in t && i < |NamesUp(t, n, k)| && NamesUp(t, n, k)[i] == t[a.value].name
  }

  lemma {:induction false} NamesUpAt(t: Nodes, n: NodeId, k: nat)
    requires Up(t, n, k).Some?
    ensures |NamesUp(t, n, k)| == k + 1
    ensures forall i: nat :: i <= k ==> NameAt(t, n, k, i)
    decreases k
  {
    if k > 0 {
      var p := t[n].parent.value;
      NamesUpAt(t, p, k - 1);
      forall i: nat | i <= k ensures NameAt(t, n, k, i) {
        if i < k {
          assert NameAt(t, p, k - 1, i);
        }
      }
    }
  }

  /** `x` is live under live ancestors and `segs` are its names from the root down. */
  ghost predicate LiveNamed(t: Nodes, x: NodeId, segs: seq<string>)
    decreases |segs|
  {
    && |segs| > 0 && x in t && t[x].Live() && t[x].name == segs[|segs| - 1]
    && if |segs| == 1 then t[x].parent.None?
       else t[x].parent.Some? && LiveNamed(t, t[x].parent.value, segs[..|segs| - 1])
  }

  /** Under the live-name indexes a segment list names at most one node. */
  lemma {:induction false} LiveNamedUnique(t: Nodes, x: NodeId, y: NodeId, segs: seq<string>)
    requires forall a, b :: a in t && b in t && a != b && t[a].Live() && t[b].Live() && t[a].parent == t[b].parent
               ==> t[a].name != t[b].name
    requires LiveNamed(t, x, segs) && LiveNamed(t, y, segs)
    ensures x == y
    decreases |segs|
  {
    if |segs| > 1 {
      LiveNamedUnique(t, t[x].parent.value, t[y].parent.value, segs[..|segs| - 1]);
    }
  }

  /** Every prefix of a resolvable segment list is resolvable. */
  lemma {:induction false} LiveNamedPrefix(t: Nodes, x: NodeId, segs: seq<string>, i: nat) returns (y: NodeId)
    requires LiveNamed(t, x, segs) && 0 < i <= |segs|
    ensures LiveNamed(t, y, segs[..i])
    decreases |segs|
  {
    if i == |segs| {
      assert segs[..i] == segs;
      y := x;
    } else {
      y := LiveNamedPrefix(t, t[x].parent.value, segs[..|segs| - 1], i);
      assert segs[..|segs| - 1][..i] == segs[..i];
    }
  }
}
