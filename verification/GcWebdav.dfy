/** GC Tier 2 in webdav mode: which remote keys are deleted, in which order, and what a delete takes with it. */
module GcWebdav {
  import opened Common
  import opened Numerals
  import opened Tree
  import opened Paths
  import opened KeptKeys

  // ---------------------------------------------------------------- what one DELETE removes

  predicate EndsWithSlash(key: string) {
    key != "" && key[|key| - 1] == '/'
  }

  /**
   * A collection carries a trailing slash and its DELETE is recursive (section 9.6.1 of RFC 4918);
   * a bare key is a file.
   */
  predicate Covers(key: string, entry: string) {
    entry == key || (EndsWithSlash(key) && key <= entry)
  }

  /** The delete of a directory key takes all that is in the directory, that of a bare key nothing below it. */
  lemma CollectionsAreRecursive(dir: string, rest: string)
    ensures Covers(dir + "/", dir + "/" + rest)
    ensures rest != "" && (dir == "" || dir[|dir| - 1] != '/') ==> !Covers(dir, dir + rest)
  {
    assert dir + "/" <= dir + "/" + rest;
  }

  // ---------------------------------------------------------------- the ancestor-keep filter

  ghost predicate UnderKept(key: string, kept: set<string>) {
    exists d :: IsDirPrefix(d, key) && d in kept && !IsStructural(d)
  }

  method IsUnderKeptDirectory(key: string, kept: set<string>) returns (r: bool)
    ensures r <==> UnderKept(key, kept)
  {
    var idx := IndexOfSlash(key, 1);
    while idx != -1
      invariant idx == -1 || (1 <= idx < |key| && key[idx] == '/')
      invariant forall i :: 1 <= i < (if idx == -1 then |key| else idx) && key[i] == '/' ==>
        (key[..i + 1] !in kept || IsStructural(key[..i + 1]))
      decreases if idx == -1 then 0 else |key| - idx
    {
      var dir := key[..idx] + "/";
      assert dir == key[..idx + 1];
      if dir in kept && !IsStructural(dir) {
        assert IsDirPrefix(dir, key);
        return true;
      }
      idx := IndexOfSlash(key, idx + 1);
    }
    r := false;
  }

  ghost predicate Deletable(key: string, kept: set<string>) {
    key !in kept && !UnderKept(key, kept)
  }

  lemma DirPrefixOrder(d: string, e: string, path: string)
    requires IsDirPrefix(d, path) && IsDirPrefix(e, path) && |d| < |e|
    ensures IsDirPrefix(d, e)
  {
  }

  /** Nothing a deletable key takes with it is kept or lies under a kept non-structural directory. */
  lemma RecursiveDeleteSafe(kept: set<string>, key: string, entry: string)
    requires AncestorClosed(kept) && Deletable(key, kept) && Covers(key, entry)
    ensures entry !in kept && !UnderKept(entry, kept)
  {
    if entry != key {
      assert |key| == 1 ==> key == "/";
      assert entry[|key| - 1] == '/' && key == entry[..|key|];
      assert IsDirPrefix(key, entry);
      if UnderKept(entry, kept) {
        var d :| IsDirPrefix(d, entry) && d in kept && !IsStructural(d);
        if |d| < |key| {
          DirPrefixOrder(d, key, entry);
        } else if |key| < |d| {
          DirPrefixOrder(key, d, entry);
        }
        assert false;
      }
    }
  }

  /** A kept directory and everything inside it survive every Tier 2 delete. */
  lemma KeptDirectorySafe(kept: set<string>, dir: string, key: string, entry: string)
    requires AncestorClosed(kept) && Deletable(key, kept)
    requires dir in kept && EndsWithSlash(dir) && dir <= entry && (entry == dir || !IsStructural(dir)) && |dir| > 1
    ensures !Covers(key, entry)
  {
    if Covers(key, entry) {
      RecursiveDeleteSafe(kept, key, entry);
      if entry != dir {
        assert entry[|dir| - 1] == '/' && dir == entry[..|dir|];
        assert IsDirPrefix(dir, entry);
      }
      assert false;
    }
  }

  lemma NumberedNotStructural(base: string, id: NodeId)
    requires base == "/.wea-tmp/" || base == "/.wea-trash/"
    ensures !IsStructural(base + Decimal(id) + "/") && !IsStructural(base + Decimal(id))
  {
    DecimalHasNoSlash(id);
    var key := base + Decimal(id);
    assert key[|key| - 1] == Decimal(id)[|Decimal(id)| - 1];
    assert (key + "/")[7] == base[7] && (key + "/")[|base|] == Decimal(id)[0];
  }

  /** A trashed row's entry, bare or as a collection with everything inside, survives every Tier 2 delete. */
  lemma TrashCollectionSafe(t: Nodes, orphaned: set<NodeId>, kept: set<string>, id: NodeId, key: string, entry: string)
    requires forall k :: k in kept <==> IsKept(t, orphaned, k)
    requires id in t && !t[id].Live() && Deletable(key, kept)
    requires entry == "/.wea-trash/" + Decimal(id) || "/.wea-trash/" + Decimal(id) + "/" <= entry
    ensures !Covers(key, entry)
  {
    KeptAncestorClosed(t, orphaned, kept);
    var base := "/.wea-trash/";
    var home := base + Decimal(id) + "/";
    assert RowKeeps(t, orphaned, id, home) && home in kept;
    if entry == "/.wea-trash/" + Decimal(id) {
      assert RowKeeps(t, orphaned, id, entry);
      RecursiveKept(kept, key, entry);
    } else {
      NumberedNotStructural(base, id);
      KeptDirectorySafe(kept, home, key, entry);
    }
  }

  lemma RecursiveKept(kept: set<string>, key: string, entry: string)
    requires AncestorClosed(kept) && Deletable(key, kept) && entry in kept
    ensures !Covers(key, entry)
  {
    if Covers(key, entry) {
      RecursiveDeleteSafe(kept, key, entry);
    }
  }

  /** The snapshot of a row that is trashed or in orphaned_node survives, bare or as a collection with its contents. */
  lemma TmpSnapshotSafe(t: Nodes, orphaned: set<NodeId>, kept: set<string>, id: NodeId, key: string, entry: string)
    requires forall k :: k in kept <==> IsKept(t, orphaned, k)
    requires id in t && (!t[id].Live() || id in orphaned) && Deletable(key, kept)
    requires entry == "/.wea-tmp/" + Decimal(id) || "/.wea-tmp/" + Decimal(id) + "/" <= entry
    ensures !Covers(key, entry)
  {
    KeptAncestorClosed(t, orphaned, kept);
    var base := "/.wea-tmp/";
    var home := base + Decimal(id) + "/";
    assert RowKeeps(t, orphaned, id, home) && home in kept;
    if entry == "/.wea-tmp/" + Decimal(id) {
      assert RowKeeps(t, orphaned, id, entry);
      RecursiveKept(kept, key, entry);
    } else {
      NumberedNotStructural(base, id);
      KeptDirectorySafe(kept, home, key, entry);
    }
  }

  // ---------------------------------------------------------------- what is not protected

  ghost predicate ShownInside(t: Nodes, base: string) {
    exists x :: x in t && t[x].Live() && base <= DisplayPath(WalkNames(t, x, {})) + "/"
  }

  lemma NumbersDiffer(base: string, i: NodeId, j: NodeId)
    requires base + Decimal(i) == base + Decimal(j)
    ensures i == j
  {
    assert (base + Decimal(i))[|base|..] == Decimal(i) && (base + Decimal(j))[|base|..] == Decimal(j);
    ValueOfDecimal(i);
    ValueOfDecimal(j);
  }

  /**
   * A snapshot whose row is gone, or live and not in orphaned_node, is collected, and so is a trash entry whose row is
   * gone or live, unless a live row is displayed inside the structural directory.
   */
  lemma ResidueTaken(t: Nodes, orphaned: set<NodeId>, kept: set<string>, id: NodeId)
    requires forall k :: k in kept <==> IsKept(t, orphaned, k)
    ensures !ShownInside(t, "/.wea-tmp/") && (id in t ==> t[id].Live() && id !in orphaned) ==>
      Deletable("/.wea-tmp/" + Decimal(id), kept)
    ensures !ShownInside(t, "/.wea-trash/") && (id in t ==> t[id].Live()) ==>
      Deletable("/.wea-trash/" + Decimal(id), kept)
  {
    NumberedTaken(t, orphaned, kept, id, "/.wea-tmp/");
    NumberedTaken(t, orphaned, kept, id, "/.wea-trash/");
  }

  lemma NumberedTaken(t: Nodes, orphaned: set<NodeId>, kept: set<string>, id: NodeId, base: string)
    requires forall k :: k in kept <==> IsKept(t, orphaned, k)
    requires base == "/.wea-tmp/" || base == "/.wea-trash/"
    ensures !ShownInside(t, base) && (id in t ==> t[id].Live() && (base == "/.wea-tmp/" ==> id !in orphaned)) ==>
      Deletable(base + Decimal(id), kept)
  {
    var key := base + Decimal(id);
    if !ShownInside(t, base) && (id in t ==> t[id].Live() && (base == "/.wea-tmp/" ==> id !in orphaned)) {
      forall d | IsDirPrefix(d, key) ensures IsStructural(d) {
        PrefixOfNumbered(base, id, d);
      }
      forall x | x in t ensures !RowKeeps(t, orphaned, x, key) {
        NotKeptByRow(t, orphaned, x, id, base);
      }
      NumberedNotStructural(base, id);
    }
  }

  /** No row but the one of that number vouches for a numbered key. */
  lemma NotKeptByRow(t: Nodes, orphaned: set<NodeId>, x: NodeId, id: NodeId, base: string)
    requires base == "/.wea-tmp/" || base == "/.wea-trash/"
    requires x in t && !ShownInside(t, base)
    requires x == id ==> t[x].Live() && (base == "/.wea-tmp/" ==> x !in orphaned)
    ensures !RowKeeps(t, orphaned, x, base + Decimal(id))
  {
    var key := base + Decimal(id);
    NoSlashAtEnd(base, id, x);
    if t[x].Live() {
      NotDisplayed(t, x, base, Decimal(id));
    }
    if key == TmpKey(x) {
      SameBase(base, "/.wea-tmp/", id, x);
    }
    if key == TrashKey(x) {
      SameBase(base, "/.wea-trash/", id, x);
    }
  }

  lemma NoSlashAtEnd(base: string, id: NodeId, x: NodeId)
    ensures base + Decimal(id) != TrashKey(x) + "/" && base + Decimal(id) != TmpKey(x) + "/"
  {
    DecimalHasNoSlash(id);
    var key := base + Decimal(id);
    assert key[|key| - 1] == Decimal(id)[|Decimal(id)| - 1];
    assert (TrashKey(x) + "/")[|TrashKey(x)|] == '/' && (TmpKey(x) + "/")[|TmpKey(x)|] == '/';
  }

  lemma NotDisplayed(t: Nodes, x: NodeId, base: string, rest: string)
    requires x in t && t[x].Live() && !ShownInside(t, base)
    ensures var path := DisplayPath(WalkNames(t, x, {}));
      base + rest != path && base + rest != path + "/" && !IsDirPrefix(base + rest, path)
  {
    var path := DisplayPath(WalkNames(t, x, {}));
    assert !(base <= path + "/");
    assert base <= base + rest;
  }

  lemma SameBase(a: string, b: string, i: NodeId, j: NodeId)
    requires a in {"/.wea-tmp/", "/.wea-trash/"} && b in {"/.wea-tmp/", "/.wea-trash/"}
    requires a + Decimal(i) == b + Decimal(j)
    ensures a == b && i == j
  {
    assert (a + Decimal(i))[7] == a[7] && (b + Decimal(j))[7] == b[7];
    NumbersDiffer(a, i, j);
  }

  /** At the top level a bare key is collected exactly when no live file is displayed there. */
  lemma TopLevelTakenIff(t: Nodes, orphaned: set<NodeId>, kept: set<string>, name: string)
    requires forall k :: k in kept <==> IsKept(t, orphaned, k)
    requires PlainName(name)
    ensures Deletable("/" + name, kept)
      <==> !exists x :: x in t && t[x].Live() && t[x].kind == File && DisplayPath(WalkNames(t, x, {})) == "/" + name
  {
    var key := "/" + name;
    assert forall i :: 1 <= i < |key| ==> key[i] == name[i - 1] && key[i] in name;
    assert forall d :: !IsDirPrefix(d, key);
    assert !IsStructural(key) by {
      assert key[|key| - 1] != '/';
    }
    forall x | x in t
      ensures RowKeeps(t, orphaned, x, key)
        <==> t[x].Live() && t[x].kind == File && DisplayPath(WalkNames(t, x, {})) == key
    {
      var path := DisplayPath(WalkNames(t, x, {}));
      assert key[|key| - 1] != '/';
      assert !IsDirPrefix(key, path);
      assert TrashKey(x)[11] == '/' && TmpKey(x)[9] == '/';
    }
  }

  // ---------------------------------------------------------------- bottom-up order

  function CountSlashes(s: string): nat {
    if s == "" then 0 else CountSlashes(s[..|s| - 1]) + if s[|s| - 1] == '/' then 1 else 0
  }

  /** The key without its final slashes. */
  function StripSlashes(s: string): string {
    if EndsWithSlash(s) then StripSlashes(s[..|s| - 1]) else s
  }

  function DepthOf(key: string): nat {
    CountSlashes(StripSlashes(key)) + 1
  }

  lemma {:induction false} CountMonotone(a: string, b: string)
    requires a <= b
    ensures CountSlashes(a) <= CountSlashes(b)
    decreases |b|
  {
    if a != b {
      CountMonotone(a, b[..|b| - 1]);
    }
  }

  lemma {:induction false} StripIsPrefix(s: string)
    ensures StripSlashes(s) <= s
    ensures EndsWithSlash(s) ==> CountSlashes(StripSlashes(s)) < CountSlashes(s)
  {
    if EndsWithSlash(s) {
      StripIsPrefix(s[..|s| - 1]);
    }
  }

  /** Stripping never cuts below a non-slash character. */
  lemma {:induction false} StripKeeps(s: string, i: nat)
    requires i < |s| && s[i] != '/'
    ensures i < |StripSlashes(s)|
  {
    if EndsWithSlash(s) {
      StripKeeps(s[..|s| - 1], i);
    }
  }

  /** A key strictly inside a directory ranks deeper than it, whatever trailing slashes either carries. */
  lemma InsideIsDeeper(dir: string, key: string, i: nat)
    requires EndsWithSlash(dir) && dir <= key && |dir| <= i < |key| && key[i] != '/'
    ensures DepthOf(key) > DepthOf(dir)
  {
    StripKeeps(key, i);
    StripIsPrefix(key);
    assert dir <= StripSlashes(key);
    CountMonotone(dir, StripSlashes(key));
    StripIsPrefix(dir);
  }

  ghost predicate DeepestFirst(s: seq<string>) {
    forall i, j :: 0 <= i < j < |s| ==> DepthOf(s[i]) >= DepthOf(s[j])
  }

  /** Puts the key behind everything at least as deep. */
  method InsertByDepth(ordered: seq<string>, key: string) returns (r: seq<string>)
    requires DeepestFirst(ordered)
    ensures multiset(r) == multiset(ordered) + multiset{key}
    ensures DeepestFirst(r)
  {
    var k := |ordered|;
    while k > 0 && DepthOf(ordered[k - 1]) < DepthOf(key)
      invariant 0 <= k <= |ordered|
      invariant k < |ordered| ==> DepthOf(ordered[k]) < DepthOf(key)
    {
      k := k - 1;
    }
    r := InsertedAt(ordered, key, k);
    InsertedMultiset(ordered, key, k);
    InsertedOrder(ordered, key, k);
  }

  function InsertedAt(ordered: seq<string>, key: string, k: nat): seq<string>
    requires k <= |ordered|
  {
    ordered[..k] + [key] + ordered[k..]
  }

  lemma InsertedMultiset(ordered: seq<string>, key: string, k: nat)
    requires k <= |ordered|
    ensures multiset(InsertedAt(ordered, key, k)) == multiset(ordered) + multiset{key}
  {
    assert ordered == ordered[..k] + ordered[k..];
  }

  lemma InsertedOrder(ordered: seq<string>, key: string, k: nat)
    requires DeepestFirst(ordered) && k <= |ordered|
    requires k < |ordered| ==> DepthOf(ordered[k]) < DepthOf(key)
    requires k > 0 ==> DepthOf(ordered[k - 1]) >= DepthOf(key)
    ensures DeepestFirst(InsertedAt(ordered, key, k))
  {
  }

  /** Stable sort by descending depth. */
  method SortByDepth(keys: seq<string>) returns (ordered: seq<string>)
    ensures multiset(ordered) == multiset(keys)
    ensures DeepestFirst(ordered)
  {
    ordered := [];
    var i := 0;
    while i < |keys|
      invariant 0 <= i <= |keys|
      invariant multiset(ordered) == multiset(keys[..i])
      invariant DeepestFirst(ordered)
    {
      ordered := InsertByDepth(ordered, keys[i]);
      assert keys[..i + 1] == keys[..i] + [keys[i]];
      i := i + 1;
    }
    assert keys[..i] == keys;
  }

  /** In the sorted list everything strictly inside a directory comes before the directory. */
  lemma ChildrenBeforeDirectory(ordered: seq<string>, x: nat, y: nat, i: nat)
    requires DeepestFirst(ordered) && x < |ordered| && y < |ordered|
    requires EndsWithSlash(ordered[y]) && ordered[y] <= ordered[x] && |ordered[y]| <= i < |ordered[x]|
      && ordered[x][i] != '/'
    ensures x < y
  {
    InsideIsDeeper(ordered[y], ordered[x], i);
  }

  // ---------------------------------------------------------------- the tier

  class WebdavStore {
    var entries: set<string>

    constructor (entries: set<string>)
      ensures this.entries == entries
    {
      this.entries := entries;
    }

    method DeleteBlob(key: string)
      modifies this
      ensures entries == set e | e in old(entries) && !Covers(key, e)
    {
      entries := set e | e in entries && !Covers(key, e);
    }
  }

  /** `scanned`, `untracked` and `deleted` are the counters of the report. */
  datatype Tier2Report = Tier2Report(scanned: nat, untracked: nat, deleted: nat, errors: nat)

  /** Removed by some delete that went through. */
  ghost predicate TakenBy(keys: set<string>, entry: string) {
    exists key :: key in keys && Covers(key, entry)
  }

  /** How many positions of the list hold one of the keys. */
  ghost function CountIn(list: seq<string>, keys: set<string>): nat {
    if list == [] then 0 else CountIn(list[..|list| - 1], keys) + if list[|list| - 1] in keys then 1 else 0
  }

  lemma {:induction false} CountInAppend(a: seq<string>, b: seq<string>, keys: set<string>)
    ensures CountIn(a + b, keys) == CountIn(a, keys) + CountIn(b, keys)
  {
    if b == [] {
      assert a + b == a;
    } else {
      CountInAppend(a, b[..|b| - 1], keys);
      assert (a + b)[..|a + b| - 1] == a + b[..|b| - 1];
    }
  }

  lemma CountInWithout(list: seq<string>, i: nat, keys: set<string>)
    requires i < |list|
    ensures CountIn(list, keys) == CountIn(list[..i] + list[i + 1..], keys) + if list[i] in keys then 1 else 0
  {
    assert list == list[..i] + ([list[i]] + list[i + 1..]);
    CountInAppend(list[..i], list[i + 1..], keys);
    CountInAppend(list[..i], [list[i]] + list[i + 1..], keys);
    CountInAppend([list[i]], list[i + 1..], keys);
    assert [list[i]][..0] == [];
  }

  lemma WithoutOne(list: seq<string>, i: nat)
    requires i < |list|
    ensures multiset(list[..i] + list[i + 1..]) == multiset(list) - multiset{list[i]}
  {
    assert list == list[..i] + ([list[i]] + list[i + 1..]);
  }

  /** The order of a list does not matter for the count. */
  lemma {:induction false} CountInPermuted(a: seq<string>, b: seq<string>, keys: set<string>)
    requires multiset(a) == multiset(b)
    ensures CountIn(a, keys) == CountIn(b, keys)
    decreases |a|
  {
    if a == [] {
      assert |multiset(b)| == 0;
    } else {
      var last := |a| - 1;
      assert a[last] in multiset(b);
      var i :| 0 <= i < |b| && b[i] == a[last];
      WithoutOne(a, last);
      WithoutOne(b, i);
      assert a[..last] + a[last + 1..] == a[..last];
      CountInPermuted(a[..last], b[..i] + b[i + 1..], keys);
      CountInWithout(b, i, keys);
    }
  }

  lemma {:induction false} CountInAll(list: seq<string>, keys: set<string>, more: set<string>)
    requires forall key :: key in list ==> (key in keys <==> key in more)
    ensures CountIn(list, keys) == CountIn(list, more)
  {
    if list != [] {
      CountInAll(list[..|list| - 1], keys, more);
    }
  }

  class WebdavGcService {
    const blobStore: WebdavStore

    constructor (blobStore: WebdavStore)
      ensures this.blobStore == blobStore
    {
      this.blobStore := blobStore;
    }

    method SelectDeletable(candidates: seq<string>, kept: set<string>, ghost wanted: set<string>)
        returns (untracked: nat, deletable: seq<string>)
      requires forall key :: key in wanted <==> key in candidates && Deletable(key, kept)
      ensures forall key :: key in deletable <==> key in wanted
      ensures untracked == CountIn(candidates, Elements(candidates) - kept)
      ensures forall keys: set<string> :: CountIn(deletable, keys) == CountIn(candidates, wanted * keys)
    {
      untracked := 0;
      deletable := [];
      ghost var tracked := Elements(candidates) - kept;
      var i := 0;
      while i < |candidates|
        invariant 0 <= i <= |candidates|
        invariant untracked == CountIn(candidates[..i], tracked)
        invariant forall key :: key in deletable <==> key in candidates[..i] && key in wanted
        invariant forall keys: set<string> :: CountIn(deletable, keys) == CountIn(candidates[..i], wanted * keys)
      {
        assert candidates[i] in candidates;
        assert candidates[..i + 1] == candidates[..i] + [candidates[i]] && candidates[..i + 1][..i] == candidates[..i];
        ghost var before := deletable;
        if candidates[i] !in kept {
          untracked := untracked + 1;
          var under := IsUnderKeptDirectory(candidates[i], kept);
          if !under {
            deletable := deletable + [candidates[i]];
            assert deletable[..|deletable| - 1] == before;
          }
        }
        i := i + 1;
      }
      assert candidates[..i] == candidates;
    }

    /**
     * One reconciliation pass; deletes of keys in `fails` throw and are only counted. Every candidate is counted where
     * it belongs.
     */
    method RunTier2(candidates: seq<string>, kept: set<string>, fails: set<string>) returns (report: Tier2Report)
      modifies blobStore
      ensures forall e :: e in blobStore.entries <==>
        (e in old(blobStore.entries) && !TakenBy((set key | key in candidates && Deletable(key, kept)) - fails, e))
      ensures report.scanned == |candidates| && report.untracked == CountIn(candidates, Elements(candidates) - kept)
      ensures report.deleted == CountIn(candidates, (set key | key in candidates && Deletable(key, kept)) - fails)
      ensures report.errors == CountIn(candidates, (set key | key in candidates && Deletable(key, kept)) * fails)
    {
      ghost var wanted := set key | key in candidates && Deletable(key, kept);
      var untracked, deletable := SelectDeletable(candidates, kept, wanted);
      var ordered := SortByDepth(deletable);
      OrderedKeys(ordered, deletable, wanted);
      var deleted, errors := DeleteInOrder(ordered, fails);
      CountInPermuted(ordered, deletable, wanted - fails);
      CountInPermuted(ordered, deletable, wanted * fails);
      CountInAll(ordered, Elements(ordered) - fails, wanted - fails);
      CountInAll(ordered, fails, wanted * fails);
      assert wanted * (wanted - fails) == wanted - fails && wanted * (wanted * fails) == wanted * fails;
      report := Tier2Report(|candidates|, untracked, deleted, errors);
    }

    method DeleteInOrder(ordered: seq<string>, fails: set<string>) returns (deleted: nat, errors: nat)
      modifies blobStore
      ensures forall e :: e in blobStore.entries <==>
        (e in old(blobStore.entries) && !TakenBy(Elements(ordered) - fails, e))
      ensures deleted == CountIn(ordered, Elements(ordered) - fails) && errors == CountIn(ordered, fails)
    {
      deleted, errors := 0, 0;
      var i := 0;
      while i < |ordered|
        invariant 0 <= i <= |ordered|
        invariant deleted == CountIn(ordered[..i], Elements(ordered) - fails) && errors == CountIn(ordered[..i], fails)
        invariant forall e ::
          e in blobStore.entries <==> e in old(blobStore.entries) && !TakenBy(Elements(ordered[..i]) - fails, e)
      {
        ElementsOfPrefix(ordered, i);
        assert ordered[i] in ordered && ordered[..i + 1][..i] == ordered[..i];
        if ordered[i] in fails {
          errors := errors + 1;
          assert Elements(ordered[..i + 1]) - fails == Elements(ordered[..i]) - fails;
        } else {
          blobStore.DeleteBlob(ordered[i]);
          deleted := deleted + 1;
          assert Elements(ordered[..i + 1]) - fails == Elements(ordered[..i]) - fails + {ordered[i]};
        }
        i := i + 1;
      }
      assert ordered[..i] == ordered;
    }
  }

  lemma OrderedKeys(ordered: seq<string>, deletable: seq<string>, wanted: set<string>)
    requires multiset(ordered) == multiset(deletable) && forall key :: key in deletable <==> key in wanted
    ensures Elements(ordered) == wanted
  {
    assert forall key :: key in ordered <==> key in multiset(ordered);
    assert forall key :: key in deletable <==> key in multiset(deletable);
  }

  /** With the database's own kept set, no pass removes a kept key or anything under a kept directory. */
  lemma Tier2KeepsKept(t: Nodes, orphaned: set<NodeId>, kept: set<string>, keys: set<string>, entry: string)
    requires forall k :: k in kept <==> IsKept(t, orphaned, k)
    requires forall key :: key in keys ==> Deletable(key, kept)
    requires entry in kept || UnderKept(entry, kept)
    ensures !TakenBy(keys, entry)
  {
    KeptAncestorClosed(t, orphaned, kept);
    forall key | key in keys ensures !Covers(key, entry) {
      if Covers(key, entry) {
        RecursiveDeleteSafe(kept, key, entry);
      }
    }
  }

  /**
   * The collection of a live directory is never taken, empty or not, nor is anything inside it; only the two structural
   * directories protect nothing but themselves.
   */
  lemma LiveDirectorySafe(t: Nodes, orphaned: set<NodeId>, kept: set<string>, keys: set<string>, n: NodeId, k: nat,
                          entry: string)
    requires forall key :: key in kept <==> IsKept(t, orphaned, key)
    requires forall key :: key in keys ==> Deletable(key, kept)
    requires Acyclic(t) && IsRootWalk(t, n, k) && n in t && t[n].Live() && t[n].kind == Directory
    requires var path := DisplayPath(NamesUp(t, n, k));
      entry == path + "/" || (path + "/" <= entry && path != "/.wea-trash" && path != "/.wea-tmp")
    ensures !TakenBy(keys, entry)
  {
    WalkNamesIsNamesUp(t, n, {}, k);
    var dir := DisplayPath(NamesUp(t, n, k)) + "/";
    assert RowKeeps(t, orphaned, n, dir);
    KeptAncestorClosed(t, orphaned, kept);
    assert DisplayPath(NamesUp(t, n, k)) == dir[..|dir| - 1];
    assert "/.wea-trash/"[..11] == "/.wea-trash" && "/.wea-tmp/"[..9] == "/.wea-tmp";
    forall key | key in keys ensures !Covers(key, entry) {
      KeptDirectorySafe(kept, dir, key, entry);
    }
  }

  /** The display path services resolve for a live file is never taken. */
  lemma LiveFileSafe(t: Nodes, orphaned: set<NodeId>, kept: set<string>, keys: set<string>, n: NodeId, k: nat)
    requires forall key :: key in kept <==> IsKept(t, orphaned, key)
    requires forall key :: key in keys ==> Deletable(key, kept)
    requires Acyclic(t) && IsRootWalk(t, n, k) && n in t && t[n].Live() && t[n].kind == File
    ensures !TakenBy(keys, DisplayPath(NamesUp(t, n, k)))
  {
    WalkNamesIsNamesUp(t, n, {}, k);
    var path := DisplayPath(NamesUp(t, n, k));
    assert RowKeeps(t, orphaned, n, path);
    Tier2KeepsKept(t, orphaned, kept, keys, path);
  }
}
