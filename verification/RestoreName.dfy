/** Collision names for restored rows: `name`, `base (2).ext`, `base (3).ext`, ... */
module RestoreName {
  import opened Common
  import opened Numerals

  /** Where the extension of a slash-free name starts; the length when it has none. */
  function LastDot(name: string): (i: int)
    ensures -1 <= i < |name|
    ensures i >= 0 ==> name[i] == '.'
  {
    if name == "" then -1
    else if name[|name| - 1] == '.' then |name| - 1
    else LastDot(name[..|name| - 1])
  }

  /** path.extname for a name without slashes: a leading dot and the name `..` start no extension. */
  function ExtName(name: string): string {
    var i := LastDot(name);
    if i <= 0 || name == ".." then "" else name[i..]
  }

  function Candidate(name: string, i: nat): string {
    var ext := ExtName(name);
    name[..|name| - |ext|] + " (" + Decimal(i) + ")" + ext
  }

  /** The text from the last dot on stays at the end, and the number follows the rest of the name. */
  lemma CandidateKeepsExtension(name: string, d: nat, i: nat)
    requires 0 < d < |name| && name[d] == '.' && '.' !in name[d + 1..] && name != ".."
    ensures Candidate(name, i) == name[..d] + " (" + Decimal(i) + ")" + name[d..]
  {
    LastDotAt(name, d);
  }

  /** Without a dot, or with a dot at the start alone, there is no extension. */
  lemma CandidateWithoutExtension(name: string, i: nat)
    requires name == ".." || name == "" || '.' !in name[1..]
    ensures Candidate(name, i) == name + " (" + Decimal(i) + ")"
  {
    var d := LastDot(name);
    assert d > 0 ==> name[d] in name[1..] by {
      if d > 0 {
        assert name[1..][d - 1] == '.';
      }
    }
    assert name[..|name|] == name;
  }

  lemma {:induction false} LastDotAt(name: string, d: nat)
    requires d < |name| && name[d] == '.' && '.' !in name[d + 1..]
    ensures LastDot(name) == d
    decreases |name|
  {
    if d < |name| - 1 {
      assert name[|name| - 1] in name[d + 1..] by {
        assert name[d + 1..][|name| - d - 2] == name[|name| - 1];
      }
      assert name[..|name| - 1][d + 1..] == name[d + 1..][..|name| - d - 2];
      LastDotAt(name[..|name| - 1], d);
    }
  }

  lemma CandidateInjective(name: string, i: nat, j: nat)
    requires Candidate(name, i) == Candidate(name, j)
    ensures i == j
  {
    var ext := ExtName(name);
    var head := name[..|name| - |ext|] + " (";
    var tail := ")" + ext;
    assert Candidate(name, i) == head + Decimal(i) + tail;
    assert Candidate(name, j) == head + Decimal(j) + tail;
    assert Decimal(i) == Candidate(name, i)[|head|..|Candidate(name, i)| - |tail|];
    assert Decimal(j) == Candidate(name, j)[|head|..|Candidate(name, j)| - |tail|];
    ValueOfDecimal(i);
    ValueOfDecimal(j);
  }

  ghost function Tried(name: string, i: nat): set<string> {
    set j | 2 <= j < i :: Candidate(name, j)
  }

  lemma CandidatesDiffer(name: string, i: nat, j: nat)
    requires i != j
    ensures Candidate(name, i) != Candidate(name, j)
  {
    if Candidate(name, i) == Candidate(name, j) {
      CandidateInjective(name, i, j);
    }
  }

  lemma TriedNext(name: string, i: nat)
    requires i >= 2
    ensures Tried(name, i + 1) == Tried(name, i) + {Candidate(name, i)} && Candidate(name, i) !in Tried(name, i)
  {
    forall j: nat | 2 <= j < i ensures Candidate(name, j) != Candidate(name, i) {
      CandidatesDiffer(name, j, i);
    }
  }

  /** The candidates tried so far are pairwise different, so there are exactly i - 2 of them. */
  lemma {:induction false} TriedCount(name: string, i: nat)
    requires i >= 2
    ensures |Tried(name, i)| == i - 2
    decreases i
  {
    if i == 2 {
      assert Tried(name, i) == {};
    } else {
      TriedCount(name, i - 1);
      TriedNext(name, i - 1);
    }
  }

  /** Pigeonhole: with the name itself and candidates 2..i-1 all taken, i is at most |taken| + 1. */
  lemma CounterBound(taken: set<string>, name: string, i: nat)
    requires i >= 2 && name in taken && forall j :: 2 <= j < i ==> Candidate(name, j) in taken
    ensures i <= |taken| + 1
  {
    TriedCount(name, i);
    assert forall j :: |Candidate(name, j)| > |name|;
    assert name !in Tried(name, i);
    var all := Tried(name, i) + {name};
    assert all <= taken;
    SubsetSize(all, taken);
  }

  lemma SubsetSize<T>(a: set<T>, b: set<T>)
    requires a <= b
    ensures |a| <= |b|
  {
    assert b == a + (b - a);
  }

  /** The name as it is when free, otherwise the first free candidate. */
  ghost predicate FirstFree(taken: set<string>, name: string, r: string) {
    && r !in taken
    && (name !in taken ==> r == name)
    && (name in taken ==>
          exists i: nat :: (2 <= i <= |taken| + 1 && r == Candidate(name, i)
                            && forall j :: 2 <= j < i ==> Candidate(name, j) in taken))
  }

  /** The first free candidate from `i` on. */
  ghost function FreeIndex(taken: set<string>, name: string, i: nat): (r: nat)
    requires name in taken && i >= 2 && forall j :: 2 <= j < i ==> Candidate(name, j) in taken
    ensures i <= r <= |taken| + 1 && Candidate(name, r) !in taken && forall j :: 2 <= j < r ==>
      Candidate(name, j) in taken
    decreases |taken| + 1 - i
  {
    CounterBound(taken, name, i);
    if Candidate(name, i) !in taken then i
    else
      CounterBound(taken, name, i + 1);
      FreeIndex(taken, name, i + 1)
  }

  ghost function FreeName(taken: set<string>, name: string): (r: string)
    ensures FirstFree(taken, name, r)
  {
    if name !in taken then name else Candidate(name, FreeIndex(taken, name, 2))
  }

  lemma FirstFreeUnique(taken: set<string>, name: string, r: string, q: string)
    requires FirstFree(taken, name, r) && FirstFree(taken, name, q)
    ensures r == q
  {
  }

  /** What restoreNode hands over as claimed names; only an array is ever looked into. */
  datatype Claimed = AsArray(names: seq<string>) | AsSet(members: set<string>)

  method ResolveRestoreName(siblings: set<string>, name: string, claimedNames: Claimed) returns (r: string)
    ensures claimedNames.AsSet? ==> FirstFree(siblings, name, r)
    ensures claimedNames.AsArray? ==> FirstFree(siblings + (set c | c in claimedNames.names), name, r)
  {
    var taken := siblings;
    if claimedNames.AsArray? {
      taken := taken + set c | c in claimedNames.names;
    }
    if name !in taken {
      return name;
    }
    var i := 2;
    while Candidate(name, i) in taken
      invariant i >= 2 && forall j :: 2 <= j < i ==> Candidate(name, j) in taken
      decreases |taken| + 1 - i
    {
      CounterBound(taken, name, i + 1);
      i := i + 1;
    }
    CounterBound(taken, name, i);
    r := Candidate(name, i);
  }
}
