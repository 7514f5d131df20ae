/** What each collection command changes, field by field, and what its constraints forbid. */
module CollectionEffects {
  import opened Common
  import opened Tree
  import opened Collections
  import opened CollectionUndo
  import opened UndoConstraints

  // ---------------------------------------------------------------- effects

  /** A user's touch pins an unpinned system collection and nothing else. */
  ghost predicate Touched(c: Coll, d: Coll) {
    if c.system && !c.pinned then d.pinned && d.pinnedBy == Some(ByAuto)
    else d.pinned == c.pinned && d.pinnedBy == c.pinnedBy
  }

  /** A name of the properties dialog that differs is taken and locked. */
  ghost predicate NameEffect(cmd: Command, c: Coll, d: Coll) {
    match cmd
    case Rename(name, lockName) => d.name == name && (d.nameLocked <==> c.nameLocked || lockName)
    case UpdateProperties(p) =>
      if p.name.Some? && p.name.value != c.name then d.name == p.name.value && d.nameLocked
      else d.name == c.name && d.nameLocked == c.nameLocked
    case _ => d.name == c.name && d.nameLocked == c.nameLocked
  }

  /** An explicit unpin persists; any other patch touches. */
  ghost predicate PinEffect(cmd: Command, c: Coll, d: Coll) {
    match cmd
    case Pin(pinned) => d.pinned == pinned && d.pinnedBy == (if pinned then Some(ByUser) else None)
    case RemoveItems(_, _) => Touched(c, d)
    case Exclude(_) => Touched(c, d)
    case UpdateProperties(p) =>
      if p.pinned.None? then Touched(c, d)
      else if p.pinned.value == c.pinned then d.pinned == c.pinned && d.pinnedBy == c.pinnedBy
      else d.pinned == p.pinned.value && d.pinnedBy == if d.pinned then Some(ByUser) else None
    case _ => d.pinned == c.pinned && d.pinnedBy == c.pinnedBy
  }

  ghost predicate StatusEffect(cmd: Command, c: Coll, d: Coll) {
    && d.owner == c.owner && d.system == c.system
    && d.archived == (if cmd.Archive? then true else if cmd.Unarchive? then false else c.archived)
    && d.publishMode == match cmd
                        case Publish(mode) => mode
                        case UpdateProperties(p) => if p.publishMode.Some? then p.publishMode.value else c.publishMode
                        case _ => c.publishMode
  }

  /** New members carry the flag of the command, old ones keep theirs but for a publish. */
  ghost predicate ItemEffect(cmd: Command, c: Coll, d: Coll, n: NodeId) {
    match cmd
    case AddItem(m, published) => Member(d, n, if n in c.items then Some(c.items[n]) else
      if n == m then Some(published) else None)
    case AddItems(nodes, published) => Member(d, n, if n in c.items then Some(c.items[n]) else
      if n in nodes then Some(published) else None)
    case RemoveItem(m) => Member(d, n, if n in c.items && n != m then Some(c.items[n]) else None)
    case RemoveItems(stored, _) => Member(d, n, if n in c.items && n !in stored then Some(c.items[n]) else None)
    case PublishItems(nodes, published) => Member(d, n, if n !in c.items then None else
      if n in nodes then Some(published) else Some(c.items[n]))
    case _ => Member(d, n, if n in c.items then Some(c.items[n]) else None)
  }

  ghost predicate Member(d: Coll, n: NodeId, flag: Option<bool>) {
    if flag.Some? then n in d.items && d.items[n] == flag.value else n !in d.items
  }

  ghost predicate ExclusionEffect(cmd: Command, c: Coll, d: Coll, n: NodeId) {
    n in d.exclusions <==>
      match cmd
      case Exclude(m) => n in c.exclusions || n == m
      case RemoveItems(_, exclude) => n in c.exclusions || n in exclude
      case Unexclude(m) => n in c.exclusions && n != m
      case _ => n in c.exclusions
  }

  /** The upsert names a role the user did not have. */
  ghost predicate NewRole(c: Coll, grant: (UserId, Role), u: UserId) {
    grant.0 == u && (u !in c.grants || c.grants[u] != grant.1)
  }

  ghost predicate NoNewRole(c: Coll, upsert: seq<(UserId, Role)>, u: UserId) {
    forall grant :: grant in upsert ==> !NewRole(c, grant, u)
  }

  /** The last entry with a new role for the user. */
  ghost predicate Decides(c: Coll, upsert: seq<(UserId, Role)>, u: UserId, i: int) {
    0 <= i < |upsert| && NewRole(c, upsert[i], u) && NoNewRole(c, upsert[i + 1..], u)
  }

  /** The last listed role that differs from the one before wins; without one the user keeps what `grants` says. */
  ghost predicate LastListedWins(c: Coll, upsert: seq<(UserId, Role)>, grants: map<UserId, Role>,
      after: map<UserId, Role>, u: UserId) {
    && (forall i :: Decides(c, upsert, u, i) ==> u in after && after[u] == upsert[i].1)
    && (NoNewRole(c, upsert, u) ==> Agree(after, grants, u))
  }

  /** Without a new role a revoked user has no grant and any other keeps theirs. */
  ghost predicate GrantEffect(cmd: Command, c: Coll, d: Coll, u: UserId) {
    if cmd.UpdateProperties? then
      LastListedWins(c, cmd.patch.upsert, map v | v in c.grants && v !in cmd.patch.revoke :: c.grants[v], d.grants, u)
    else Agree(d.grants, c.grants, u)
  }

  /** What the command makes of the collection, said of every field. */
  ghost predicate Effect(cmd: Command, c: Coll, d: Coll) {
    && NameEffect(cmd, c, d) && PinEffect(cmd, c, d) && StatusEffect(cmd, c, d)
    && (forall n :: ItemEffect(cmd, c, d, n))
    && (forall n :: ExclusionEffect(cmd, c, d, n))
    && (forall u :: GrantEffect(cmd, c, d, u))
  }

  lemma {:induction false} GrantsUpserted(c: Coll, upsert: seq<(UserId, Role)>, grants: map<UserId, Role>, u: UserId)
    ensures LastListedWins(c, upsert, grants, UpsertGrants(c.grants, grants, upsert), u)
  {
    if upsert != [] {
      var init, last := upsert[..|upsert| - 1], upsert[|upsert| - 1];
      assert upsert == init + [last];
      GrantsUpserted(c, init, grants, u);
      LastUpserted(c, init, last, grants, u);
      WinsWithLast(c, init, last, grants, UpsertGrants(c.grants, grants, init),
        UpsertGrants(c.grants, grants, init + [last]), u);
    }
  }

  lemma LastUpserted(c: Coll, init: seq<(UserId, Role)>, last: (UserId, Role), grants: map<UserId, Role>, u: UserId)
    ensures var before, after := UpsertGrants(c.grants, grants, init), UpsertGrants(c.grants, grants, init + [last]);
      if NewRole(c, last, u) then u in after && after[u] == last.1 else Agree(after, before, u)
  {
    assert (init + [last])[..|init|] == init;
    assert NewRole(c, last, u) <==> last.0 == u && !SameRole(c.grants, last);
  }

  lemma WinsWithLast(c: Coll, init: seq<(UserId, Role)>, last: (UserId, Role), grants: map<UserId, Role>,
      before: map<UserId, Role>, after: map<UserId, Role>, u: UserId)
    requires LastListedWins(c, init, grants, before, u)
    requires if NewRole(c, last, u) then u in after && after[u] == last.1 else Agree(after, before, u)
    ensures LastListedWins(c, init + [last], grants, after, u)
  {
    NoNewWithLast(c, init, last, u);
    forall i | Decides(c, init + [last], u, i) ensures u in after && after[u] == (init + [last])[i].1 {
      DecidesWithLast(c, init, last, u, i);
    }
  }

  lemma DecidesWithLast(c: Coll, init: seq<(UserId, Role)>, last: (UserId, Role), u: UserId, i: int)
    requires Decides(c, init + [last], u, i)
    ensures if NewRole(c, last, u) then i == |init| else Decides(c, init, u, i)
  {
    if i < |init| {
      NoNewWithLast(c, init[i + 1..], last, u);
      assert (init + [last])[i + 1..] == init[i + 1..] + [last];
    }
  }

  lemma NoNewWithLast(c: Coll, init: seq<(UserId, Role)>, last: (UserId, Role), u: UserId)
    ensures NoNewRole(c, init + [last], u) <==> NoNewRole(c, init, u) && !NewRole(c, last, u)
  {
    assert last in init + [last];
    assert forall grant :: grant in init ==> grant in init + [last];
  }

  lemma PatchGrants(p: Patch, c: Coll)
    ensures forall u :: GrantEffect(UpdateProperties(p), c, Patched(p, c), u)
  {
    PatchedFields(p, c);
    var kept := map v | v in c.grants && v !in p.revoke :: c.grants[v];
    assert kept == c.grants - Elements(p.revoke);
    forall u ensures GrantEffect(UpdateProperties(p), c, Patched(p, c), u) {
      GrantsUpserted(c, p.upsert, kept, u);
    }
  }

  lemma PatchFields(p: Patch, c: Coll)
    ensures var cmd, d := UpdateProperties(p), Patched(p, c);
      NameEffect(cmd, c, d) && PinEffect(cmd, c, d) && StatusEffect(cmd, c, d)
      && d.items == c.items && d.exclusions == c.exclusions
  {
    PatchedShape(p, c);
    FieldsShape(p, c);
  }

  lemma PatchEffect(p: Patch, c: Coll)
    ensures Effect(UpdateProperties(p), c, Patched(p, c))
  {
    PatchFields(p, c);
    PatchGrants(p, c);
  }

  lemma AddItemsEffect(c: Coll, nodes: seq<NodeId>, published: bool)
    ensures Effect(AddItems(nodes, published), c, InsertItems(c, nodes, published))
  {
    InsertedItems(c, nodes, published);
  }

  lemma SingleSets(cmd: Command, c: Coll, n: NodeId)
    requires !cmd.AddItems? && !cmd.UpdateProperties?
    ensures ItemEffect(cmd, c, Do(cmd, c), n) && ExclusionEffect(cmd, c, Do(cmd, c), n)
  {
  }

  lemma SingleFields(cmd: Command, c: Coll)
    requires !cmd.AddItems? && !cmd.UpdateProperties?
    ensures var d := Do(cmd, c);
      NameEffect(cmd, c, d) && PinEffect(cmd, c, d) && StatusEffect(cmd, c, d) && d.grants == c.grants
  {
  }

  lemma SingleEffect(cmd: Command, c: Coll)
    requires !cmd.AddItems? && !cmd.UpdateProperties?
    ensures Effect(cmd, c, Do(cmd, c))
  {
    SingleFields(cmd, c);
    forall n ensures ItemEffect(cmd, c, Do(cmd, c), n) && ExclusionEffect(cmd, c, Do(cmd, c), n) {
      SingleSets(cmd, c, n);
    }
  }

  /** Every command has its effect. */
  lemma EffectOfDo(cmd: Command, c: Coll)
    ensures Effect(cmd, c, Do(cmd, c))
  {
    match cmd
    case UpdateProperties(p) => PatchEffect(p, c);
    case AddItems(nodes, published) => AddItemsEffect(c, nodes, published);
    case _ => SingleEffect(cmd, c);
  }

  lemma SameItems(cmd: Command, c: Coll, d: Coll, e: Coll)
    requires forall n :: ItemEffect(cmd, c, d, n) && ItemEffect(cmd, c, e, n)
    ensures d.items == e.items
  {
    forall n ensures (n in d.items <==> n in e.items) && (n in d.items ==> d.items[n] == e.items[n]) {
      assert ItemEffect(cmd, c, d, n) && ItemEffect(cmd, c, e, n);
    }
  }

  lemma SameExclusions(cmd: Command, c: Coll, d: Coll, e: Coll)
    requires forall n :: ExclusionEffect(cmd, c, d, n) && ExclusionEffect(cmd, c, e, n)
    ensures d.exclusions == e.exclusions
  {
    forall n ensures n in d.exclusions <==> n in e.exclusions {
      assert ExclusionEffect(cmd, c, d, n) && ExclusionEffect(cmd, c, e, n);
    }
  }

  lemma SameGrants(cmd: Command, c: Coll, d: Coll, e: Coll)
    requires forall u :: GrantEffect(cmd, c, d, u) && GrantEffect(cmd, c, e, u)
    ensures d.grants == e.grants
  {
    forall u ensures Agree(d.grants, e.grants, u) {
      assert GrantEffect(cmd, c, d, u) && GrantEffect(cmd, c, e, u);
      if cmd.UpdateProperties? {
        OneDecides(c, cmd.patch.upsert, u);
      }
    }
    assert forall u :: u in d.grants ==> Agree(d.grants, e.grants, u);
    assert forall u :: u in e.grants ==> Agree(d.grants, e.grants, u);
  }

  /** The effect says all: no other state has it. */
  lemma EffectIsDo(cmd: Command, c: Coll, d: Coll)
    requires Effect(cmd, c, d)
    ensures d == Do(cmd, c)
  {
    var e := Do(cmd, c);
    EffectOfDo(cmd, c);
    SameItems(cmd, c, d, e);
    SameExclusions(cmd, c, d, e);
    SameGrants(cmd, c, d, e);
  }

  lemma {:induction false} OneDecides(c: Coll, upsert: seq<(UserId, Role)>, u: UserId)
    ensures NoNewRole(c, upsert, u) || exists i :: Decides(c, upsert, u, i)
  {
    if upsert != [] {
      OneDecides(c, upsert[1..], u);
      assert upsert == [upsert[0]] + upsert[1..];
      if i :| Decides(c, upsert[1..], u, i) {
        assert upsert[1..][i + 1..] == upsert[i + 2..];
        assert Decides(c, upsert, u, i + 1);
      } else if NewRole(c, upsert[0], u) {
        assert Decides(c, upsert, u, 0);
      }
    }
  }

  // ---------------------------------------------------------------- refusals

  /** A command is refused exactly when its result would repeat an active name or refer to a missing node. */
  lemma CommandRefusedIff(cmd: Command, c: Coll, env: Env)
    requires CollOk(c, env)
    ensures CommandRefused(cmd, c, env) <==> !CollOk(Do(cmd, c), env)
  {
    match cmd
    case AddItems(nodes, published) => AddItemsRefusedIff(c, nodes, published, env);
    case UpdateProperties(p) => PatchedKeeps(p, c);
    case RemoveItems(stored, exclude) => RemoveItemsRefusedIff(c, stored, exclude, env);
    case _ =>
  }

  /** Said of the effect: what the command would leave breaks a constraint. */
  lemma RefusedIffEffectBreaks(cmd: Command, c: Coll, d: Coll, env: Env)
    requires CollOk(c, env) && Effect(cmd, c, d)
    ensures CommandRefused(cmd, c, env) <==> !CollOk(d, env)
  {
    EffectIsDo(cmd, c, d);
    CommandRefusedIff(cmd, c, env);
  }

  lemma AddItemsRefusedIff(c: Coll, nodes: seq<NodeId>, published: bool, env: Env)
    requires CollOk(c, env)
    ensures CommandRefused(AddItems(nodes, published), c, env) <==> !CollOk(InsertItems(c, nodes, published), env)
  {
    InsertItemsKeys(c, nodes, published);
    var keys := InsertItems(c, nodes, published).items.Keys;
    if n :| n in nodes && Missing(c.items.Keys, n, env) {
      assert n in keys;
    }
  }

  lemma RemoveItemsRefusedIff(c: Coll, stored: seq<NodeId>, exclude: seq<NodeId>, env: Env)
    requires CollOk(c, env)
    ensures CommandRefused(RemoveItems(stored, exclude), c, env) <==> !CollOk(Do(RemoveItems(stored, exclude), c), env)
  {
    var d := Do(RemoveItems(stored, exclude), c);
    assert d.items.Keys <= c.items.Keys && d.exclusions == c.exclusions + Elements(exclude);
    if n :| n in exclude && Missing(c.exclusions, n, env) {
      assert n in d.exclusions;
    }
  }

  /** The same for one inverse: the constraint speaks exactly when what it would leave is against it. */
  lemma InverseRefusedIff(c: Coll, inverse: Inverse, env: Env)
    requires CollOk(c, env)
    ensures InverseRefused(c, inverse, env)
      <==> ApplyInverse(c, inverse).Some? && !CollOk(ApplyInverse(c, inverse).value, env)
  {
  }

  ghost predicate BreaksAt(c: Coll, items: seq<Inverse>, env: Env, i: int) {
    0 < i <= |items| && !CollOk(ApplyItems(c, items[..i]).0, env)
  }

  ghost predicate ItemsBreak(c: Coll, items: seq<Inverse>, env: Env) {
    exists i :: BreaksAt(c, items, env, i)
  }

  /** A list applied item by item is refused exactly when some item would leave the constraints broken. */
  lemma {:induction false} ItemsRefusedIff(c: Coll, items: seq<Inverse>, env: Env)
    requires CollOk(c, env)
    ensures ItemsRefused(c, items, env) <==> ItemsBreak(c, items, env)
  {
    if items != [] {
      var init := items[..|items| - 1];
      ItemsRefusedIff(c, init, env);
      BreaksWithLast(c, items, env);
      if !ItemsBreak(c, init, env) {
        UnbrokenIsOk(c, init, env);
        InverseRefusedIff(ApplyItems(c, init).0, items[|items| - 1], env);
      }
    }
  }

  lemma UnbrokenIsOk(c: Coll, items: seq<Inverse>, env: Env)
    requires CollOk(c, env) && !ItemsBreak(c, items, env)
    ensures CollOk(ApplyItems(c, items).0, env)
  {
    assert items[..|items|] == items;
    assert !BreaksAt(c, items, env, |items|);
  }

  lemma BreaksWithLast(c: Coll, items: seq<Inverse>, env: Env)
    requires items != []
    ensures ItemsBreak(c, items, env)
      <==> ItemsBreak(c, items[..|items| - 1], env) || !CollOk(ApplyItems(c, items).0, env)
  {
    var k := |items| - 1;
    assert items[..|items|] == items;
    forall i ensures BreaksAt(c, items[..k], env, i) <==> i <= k && BreaksAt(c, items, env, i) {
      if 0 < i <= k {
        assert items[..k][..i] == items[..i];
      }
    }
    assert BreaksAt(c, items, env, |items|) <==> !CollOk(ApplyItems(c, items).0, env);
  }

  ghost predicate AtomicBreaksAt(c: Coll, items: seq<Inverse>, env: Env, i: int) {
    0 < i <= |items| && ApplyAtomic(c, items[..i]).Some? && !CollOk(ApplyAtomic(c, items[..i]).value, env)
  }

  ghost predicate AtomicBreaks(c: Coll, items: seq<Inverse>, env: Env) {
    exists i :: AtomicBreaksAt(c, items, env, i)
  }

  lemma {:induction false} AtomicRefusedIff(c: Coll, items: seq<Inverse>, env: Env)
    requires CollOk(c, env)
    ensures AtomicRefused(c, items, env) <==> AtomicBreaks(c, items, env)
  {
    if items != [] {
      var init := items[..|items| - 1];
      AtomicRefusedIff(c, init, env);
      AtomicWithLast(c, items, env);
      if !AtomicBreaks(c, init, env) && ApplyAtomic(c, init).Some? {
        AtomicUnbrokenIsOk(c, init, env);
        InverseRefusedIff(ApplyAtomic(c, init).value, items[|items| - 1], env);
      }
    }
  }

  lemma AtomicUnbrokenIsOk(c: Coll, items: seq<Inverse>, env: Env)
    requires CollOk(c, env) && !AtomicBreaks(c, items, env) && ApplyAtomic(c, items).Some?
    ensures CollOk(ApplyAtomic(c, items).value, env)
  {
    assert items[..|items|] == items;
    assert !AtomicBreaksAt(c, items, env, |items|);
  }

  lemma AtomicWithLast(c: Coll, items: seq<Inverse>, env: Env)
    requires items != []
    ensures AtomicBreaks(c, items, env) <==> (AtomicBreaks(c, items[..|items| - 1], env)
      || (ApplyAtomic(c, items).Some? && !CollOk(ApplyAtomic(c, items).value, env)))
  {
    var k := |items| - 1;
    assert items[..|items|] == items;
    forall i ensures AtomicBreaksAt(c, items[..k], env, i) <==> i <= k && AtomicBreaksAt(c, items, env, i) {
      if 0 < i <= k {
        assert items[..k][..i] == items[..i];
      }
    }
    assert AtomicBreaksAt(c, items, env, |items|)
      <==> ApplyAtomic(c, items).Some? && !CollOk(ApplyAtomic(c, items).value, env);
  }

  // ---------------------------------------------------------------- what is journaled, what an undo counts

  predicate ChangesNothing(p: Patch, c: Coll) {
    && (p.name.Some? ==> p.name.value == c.name)
    && (p.pinned.Some? ==> p.pinned.value == c.pinned)
    && (p.publishMode.Some? ==> p.publishMode.value == c.publishMode)
    && p.revoke == []
    && forall grant :: grant in p.upsert ==> grant.0 in c.grants && c.grants[grant.0] == grant.1
  }

  /** Only a patch that repeats what is there, and revokes nobody, writes no row. */
  lemma UnjournaledIff(cmd: Command, c: Coll)
    ensures !Journaled(cmd, c) <==> cmd.UpdateProperties? && ChangesNothing(cmd.patch, c)
  {
    if cmd.UpdateProperties? {
      UpsertsJournaled(c.grants, cmd.patch.upsert);
      assert |RevokeInverses(c.grants, cmd.patch.revoke)| == |cmd.patch.revoke|;
    }
  }

  lemma {:induction false} UpsertsJournaled(grants: map<UserId, Role>, upsert: seq<(UserId, Role)>)
    ensures UpsertInverses(grants, upsert) == [] <==> forall grant :: grant in upsert ==> SameRole(grants, grant)
  {
    if upsert != [] {
      var init, last := upsert[..|upsert| - 1], upsert[|upsert| - 1];
      UpsertsJournaled(grants, init);
      assert upsert == init + [last];
      assert last in upsert && forall grant :: grant in init ==> grant in upsert;
    }
  }

  /** Dropping members counts each one there once and skips the rest. */
  lemma {:induction false} DropsCounted(c: Coll, nodes: seq<NodeId>)
    ensures ApplyItems(c, DropItems(nodes)).1 == |Elements(nodes) * c.items.Keys|
  {
    if nodes == [] {
      NothingCounted(c);
    } else {
      var init, last := nodes[..|nodes| - 1], nodes[|nodes| - 1];
      assert nodes == init + [last];
      DropsCounted(c, init);
      CountedWithLast(c, init, last);
    }
  }

  lemma NothingCounted(c: Coll)
    ensures ApplyItems(c, DropItems([])).1 == |Elements<NodeId>([]) * c.items.Keys|
  {
    assert Elements<NodeId>([]) * c.items.Keys == {};
  }

  lemma CountedWithLast(c: Coll, init: seq<NodeId>, last: NodeId)
    requires ApplyItems(c, DropItems(init)).1 == |Elements(init) * c.items.Keys|
    ensures ApplyItems(c, DropItems(init + [last])).1 == |Elements(init + [last]) * c.items.Keys|
  {
    LastDropCounted(c, init, last);
    OneMoreMember(Elements(init), c.items.Keys, last);
    assert Elements(init + [last]) == Elements(init) + {last};
  }

  lemma LastDropCounted(c: Coll, init: seq<NodeId>, last: NodeId)
    ensures ApplyItems(c, DropItems(init + [last])).1
      == ApplyItems(c, DropItems(init)).1 + (if last in c.items && last !in Elements(init) then 1 else 0)
  {
    var items := DropItems(init + [last]);
    DroppedItems(c, init);
    assert items[..|items| - 1] == DropItems(init) && items[|items| - 1] == DropItem(last);
  }

  lemma OneMoreMember(before: set<NodeId>, keys: set<NodeId>, n: NodeId)
    ensures |(before + {n}) * keys| == |before * keys| + (if n in keys && n !in before then 1 else 0)
  {
    assert (before + {n}) * keys == if n in keys && n !in before then before * keys + {n} else before * keys;
  }

  /** Right after a batch add the undo counts each new member once; repeated ids are the skipped ones. */
  lemma AddItemsCounted(c: Coll, nodes: seq<NodeId>, published: bool)
    requires exists n :: n in nodes && n !in c.items
    ensures var undo := Apply(Do(AddItems(nodes, published), c), InverseOf(AddItems(nodes, published), c));
      undo.Reverted? && undo.applied == |Elements(nodes) - c.items.Keys|
        && undo.applied + undo.skipped == |NotStored(c, nodes)|
  {
    var added := NotStored(c, nodes);
    NotStoredElements(c, nodes);
    HeadIn(added);
    AddedCounted(c, nodes, added, published);
    AddUndoIs(c, nodes, published);
  }

  lemma AddUndoIs(c: Coll, nodes: seq<NodeId>, published: bool)
    requires NotStored(c, nodes) != []
    ensures var done := ApplyItems(InsertItems(c, nodes, published), DropItems(NotStored(c, nodes)));
      Apply(Do(AddItems(nodes, published), c), InverseOf(AddItems(nodes, published), c))
        == Reverted(done.0, done.1, |NotStored(c, nodes)| - done.1)
  {
    ListApplied(InsertItems(c, nodes, published), DropItems(NotStored(c, nodes)));
  }

  lemma AddedCounted(c: Coll, nodes: seq<NodeId>, added: seq<NodeId>, published: bool)
    requires forall n :: n in added <==> n in nodes && n !in c.items
    ensures ApplyItems(InsertItems(c, nodes, published), DropItems(added)).1 == |Elements(nodes) - c.items.Keys|
  {
    var d := InsertItems(c, nodes, published);
    InsertedItems(c, nodes, published);
    DropsCounted(d, added);
    NewMembers(c.items.Keys, d.items.Keys, nodes, added);
  }

  lemma NewMembers(before: set<NodeId>, after: set<NodeId>, nodes: seq<NodeId>, added: seq<NodeId>)
    requires after == before + Elements(nodes) && forall n :: n in added <==> n in nodes && n !in before
    ensures Elements(added) * after == Elements(nodes) - before
  {
  }

  lemma ListApplied(d: Coll, items: seq<Inverse>)
    requires items != []
    ensures Apply(d, Payload(NoExecutor, items, false))
      == Reverted(ApplyItems(d, items).0, ApplyItems(d, items).1, |items| - ApplyItems(d, items).1)
  {
  }
}
