/** Which undos the constraints refuse: the unique active names of an owner, and the nodes items refer to. */
module UndoConstraints {
  import opened Common
  import opened Tree
  import opened Collections
  import opened CollectionUndo

  /**
   * What can stand against the undo of a restorable command by the time it is undone: the name it brings back is
   * taken by another active collection of the owner, or a node it is about was purged.
   */
  predicate UndoBlocked(cmd: Command, before: Coll, env: Env) {
    match cmd
    case Rename(_, _) => NameRefused(before, before.name, env)
    case Archive => before.name in env.taken
    case AddItem(n, _) => n !in env.nodes
    case RemoveItem(n) => n !in env.nodes
    case RemoveItems(stored, _) => exists n :: n in stored && n !in env.nodes
    case Exclude(n) => n !in env.nodes
    case Unexclude(n) => n !in env.nodes
    case PublishItems(nodes, _) => forall n :: n in nodes && n in before.items ==> n !in env.nodes
    case UpdateProperties(p) => Renamed(p, before) && NameRefused(before, before.name, env)
    case _ => false
  }

  /** The nodes of the collection exist or were purged. */
  predicate Known(c: Coll, nodes: set<NodeId>, gone: set<NodeId>) {
    c.items.Keys + c.exclusions <= nodes + gone
  }

  // ---------------------------------------------------------------- purged nodes

  lemma WithoutTwice(c: Coll, a: set<NodeId>, b: set<NodeId>)
    ensures Without(Without(c, a), b) == Without(c, a + b)
  {
    assert c.items - a - b == c.items - (a + b);
    assert c.exclusions - a - b == c.exclusions - (a + b);
  }

  lemma WithoutNone(c: Coll, nodes: set<NodeId>, gone: set<NodeId>)
    requires c.items.Keys + c.exclusions <= nodes && nodes !! gone
    ensures Without(c, gone) == c
  {
    assert c.items - gone == c.items;
    assert c.exclusions - gone == c.exclusions;
  }

  lemma PutWithout(items: map<NodeId, bool>, nodes: seq<NodeId>, published: bool, gone: set<NodeId>)
    ensures Put(items - gone, nodes, published) - gone == Put(items, nodes, published) - gone
  {
  }

  /** What a command does to the nodes still there does not depend on those purged before. */
  lemma DoWithout(cmd: Command, c: Coll, gone: set<NodeId>)
    ensures Without(Do(cmd, Without(c, gone)), gone) == Without(Do(cmd, c), gone)
  {
    match cmd
    case AddItems(nodes, published) =>
      InsertedItems(c, nodes, published);
      InsertedItems(Without(c, gone), nodes, published);
      PutWithout(c.items, nodes, published, gone);
    case AddItem(n, published) => AddItemWithout(c, n, published, gone);
    case RemoveItem(n) => assert c.items - gone - {n} - gone == c.items - {n} - gone;
    case RemoveItems(stored, exclude) => RemoveItemsWithout(c, stored, exclude, gone);
    case PublishItems(nodes, published) => PublishWithout(c, nodes, published, gone);
    case Exclude(n) => assert (c.exclusions - gone + {n}) - gone == (c.exclusions + {n}) - gone;
    case Unexclude(n) => assert c.exclusions - gone - {n} - gone == c.exclusions - {n} - gone;
    case UpdateProperties(p) => PatchWithout(p, c, gone);
    case _ => FieldsWithout(cmd, c, gone);
  }

  lemma AddItemWithout(c: Coll, n: NodeId, published: bool, gone: set<NodeId>)
    ensures Without(InsertItem(Without(c, gone), n, published), gone) == Without(InsertItem(c, n, published), gone)
  {
    assert InsertItem(Without(c, gone), n, published).items - gone == InsertItem(c, n, published).items - gone;
    assert (c.exclusions - gone) - gone == c.exclusions - gone;
  }

  lemma RemoveItemsWithout(c: Coll, stored: seq<NodeId>, exclude: seq<NodeId>, gone: set<NodeId>)
    ensures var cmd := RemoveItems(stored, exclude);
      Without(Do(cmd, Without(c, gone)), gone) == Without(Do(cmd, c), gone)
  {
    assert c.items - gone - Elements(stored) - gone == c.items - Elements(stored) - gone;
    assert (c.exclusions - gone + Elements(exclude)) - gone == (c.exclusions + Elements(exclude)) - gone;
  }

  lemma PublishWithout(c: Coll, nodes: seq<NodeId>, published: bool, gone: set<NodeId>)
    ensures var cmd := PublishItems(nodes, published);
      Without(Do(cmd, Without(c, gone)), gone) == Without(Do(cmd, c), gone)
  {
    assert SetItemsPublished(Without(c, gone), nodes, published).items - gone
      == SetItemsPublished(c, nodes, published).items - gone;
  }

  lemma FieldsElsewhere(p: Patch, c: Coll, items: map<NodeId, bool>, exclusions: set<NodeId>)
    ensures FieldsPatched(p, c.(items := items, exclusions := exclusions))
         == FieldsPatched(p, c).(items := items, exclusions := exclusions)
    ensures FieldsPatched(p, c).items == c.items && FieldsPatched(p, c).exclusions == c.exclusions
  {
  }

  lemma PatchedElsewhere(p: Patch, c: Coll, items: map<NodeId, bool>, exclusions: set<NodeId>)
    ensures Patched(p, c.(items := items, exclusions := exclusions))
      == Patched(p, c).(items := items, exclusions := exclusions)
    ensures Patched(p, c).items == c.items && Patched(p, c).exclusions == c.exclusions
  {
    FieldsElsewhere(p, c, items, exclusions);
  }

  lemma PatchWithout(p: Patch, c: Coll, gone: set<NodeId>)
    ensures Without(Patched(p, Without(c, gone)), gone) == Without(Patched(p, c), gone)
  {
    PatchedElsewhere(p, c, c.items - gone, c.exclusions - gone);
    WithoutTwice(Patched(p, c), gone, gone);
    assert gone + gone == gone;
  }

  lemma FieldsWithout(cmd: Command, c: Coll, gone: set<NodeId>)
    requires cmd.Rename? || cmd.Pin? || cmd.Publish? || cmd.Archive? || cmd.Unarchive?
    ensures Without(Do(cmd, Without(c, gone)), gone) == Without(Do(cmd, c), gone)
  {
    assert Do(cmd, Without(c, gone)) == Without(Do(cmd, c), gone);
    WithoutTwice(Do(cmd, c), gone, gone);
    assert gone + gone == gone;
  }

  // ---------------------------------------------------------------- constraints of one list

  lemma {:induction false} ItemsRefusedAppend(c: Coll, a: seq<Inverse>, b: seq<Inverse>, env: Env)
    ensures ItemsRefused(c, a + b, env) <==> ItemsRefused(c, a, env) || ItemsRefused(ApplyItems(c, a).0, b, env)
  {
    if b == [] {
      assert a + b == a;
    } else {
      ItemsRefusedAppend(c, a, b[..|b| - 1], env);
      ApplyItemsAppend(c, a, b[..|b| - 1]);
      assert (a + b)[..|a + b| - 1] == a + b[..|b| - 1];
    }
  }

  /** Inverses whose statement meets no constraint. */
  predicate Unconstrained(inverse: Inverse) {
    !inverse.RenameTo? && !inverse.RestoreCollection? && !inverse.PutItem? && !inverse.PutExclusion?
  }

  predicate AllUnconstrained(items: seq<Inverse>) {
    forall i :: 0 <= i < |items| ==> Unconstrained(items[i])
  }

  lemma {:induction false} ItemsAccepted(c: Coll, items: seq<Inverse>, env: Env)
    requires AllUnconstrained(items)
    ensures !ItemsRefused(c, items, env)
  {
    if items != [] {
      ItemsAccepted(c, items[..|items| - 1], env);
      assert Unconstrained(items[|items| - 1]);
    }
  }

  lemma {:induction false} AtomicRefusedAppend(c: Coll, a: seq<Inverse>, b: seq<Inverse>, env: Env)
    requires AllUnconstrained(b)
    ensures AtomicRefused(c, a + b, env) <==> AtomicRefused(c, a, env)
  {
    if b == [] {
      assert a + b == a;
    } else {
      AtomicRefusedAppend(c, a, b[..|b| - 1], env);
      assert (a + b)[..|a + b| - 1] == a + b[..|b| - 1];
      assert Unconstrained(b[|b| - 1]);
    }
  }

  /** Putting a list of items back meets a foreign key exactly when one of the nodes does not exist. */
  lemma {:induction false} PutItemsRefused(c: Coll, nodes: seq<NodeId>, env: Env)
    ensures ItemsRefused(c, PutItems(nodes), env) <==> exists n :: n in nodes && Missing(c.items.Keys, n, env)
  {
    if nodes != [] {
      var init, last := nodes[..|nodes| - 1], nodes[|nodes| - 1];
      assert nodes == init + [last];
      PutItemsRefused(c, init, env);
      PutLastRefused(c, init, last, env);
      MissingWithLast(c.items.Keys, init, last, env);
    }
  }

  lemma PutLastRefused(c: Coll, init: seq<NodeId>, last: NodeId, env: Env)
    ensures ItemsRefused(c, PutItems(init + [last]), env)
      <==> ItemsRefused(c, PutItems(init), env) || Missing(c.items.Keys + Elements(init), last, env)
  {
    var items := PutItems(init + [last]);
    PutItemsApplied(c, init);
    assert items[..|items| - 1] == PutItems(init) && items[|items| - 1] == PutItem(last);
    assert Put(c.items, init, true).Keys == c.items.Keys + Elements(init);
  }

  lemma MissingWithLast(keys: set<NodeId>, init: seq<NodeId>, last: NodeId, env: Env)
    ensures (exists n :: n in init + [last] && Missing(keys, n, env))
      <==> (exists n :: n in init && Missing(keys, n, env)) || Missing(keys + Elements(init), last, env)
  {
    assert last in init + [last];
    assert forall n :: n in init ==> n in init + [last];
    if last in init && Missing(keys, last, env) {
      assert exists n :: n in init && Missing(keys, n, env);
    }
  }

  lemma RemoveItemsRefused(d: Coll, stored: seq<NodeId>, exclude: seq<NodeId>, env: Env)
    ensures ItemsRefused(d, PutItems(stored) + DropExclusions(exclude), env)
      <==> exists n :: n in stored && Missing(d.items.Keys, n, env)
  {
    ItemsRefusedAppend(d, PutItems(stored), DropExclusions(exclude), env);
    ItemsAccepted(ApplyItems(d, PutItems(stored)).0, DropExclusions(exclude), env);
    PutItemsRefused(d, stored, env);
  }

  // ---------------------------------------------------------------- the properties dialog

  predicate FieldInverse(inverse: Inverse) {
    inverse.RenameTo? || inverse.PinTo? || inverse.PublishTo? || inverse.RevokeAccess? || inverse.GrantAccess?
  }

  predicate AllFields(items: seq<Inverse>) {
    forall i :: 0 <= i < |items| ==> FieldInverse(items[i])
  }

  lemma {:induction false} AtomicWithout(c: Coll, items: seq<Inverse>, gone: set<NodeId>)
    requires AllFields(items)
    ensures ApplyAtomic(Without(c, gone), items)
      == if ApplyAtomic(c, items).Some? then Some(Without(ApplyAtomic(c, items).value, gone)) else None
  {
    if items != [] {
      AtomicWithout(c, items[..|items| - 1], gone);
      assert FieldInverse(items[|items| - 1]);
    }
  }

  lemma {:induction false} UpsertKinds(grants: map<UserId, Role>, upsert: seq<(UserId, Role)>)
    ensures forall i :: 0 <= i < |UpsertInverses(grants, upsert)| ==>
      UpsertInverses(grants, upsert)[i].RevokeAccess? || UpsertInverses(grants, upsert)[i].GrantAccess?
  {
    if upsert != [] {
      UpsertKinds(grants, upsert[..|upsert| - 1]);
    }
  }

  lemma RestKinds(p: Patch, c: Coll, fields: seq<Inverse>)
    requires forall i :: 0 <= i < |fields| ==> fields[i].PinTo? || fields[i].PublishTo?
    ensures var rest := fields + (RevokeInverses(c.grants, p.revoke) + UpsertInverses(c.grants, p.upsert));
      AllUnconstrained(rest) && AllFields(rest)
  {
    UpsertKinds(c.grants, p.upsert);
  }

  lemma PatchRefused(p: Patch, c: Coll, d: Coll, env: Env)
    requires d.name != c.name <==> Renamed(p, c)
    ensures AtomicRefused(d, PatchInverses(p, c), env) <==> Renamed(p, c) && NameRefused(d, c.name, env)
    ensures AllFields(PatchInverses(p, c))
  {
    var named := if Renamed(p, c) then [RenameTo(c.name)] else [];
    var fields := (if Repinned(p, c) then [PinTo(c.pinned)] else [])
      + (if Republished(p, c) then [PublishTo(c.publishMode)] else []);
    var rest := fields + (RevokeInverses(c.grants, p.revoke) + UpsertInverses(c.grants, p.upsert));
    RestKinds(p, c, fields);
    assert PatchInverses(p, c) == named + rest;
    AtomicRefusedAppend(d, named, rest, env);
    if Renamed(p, c) {
      assert named[..0] == [];
    }
  }

  lemma PatchUndoneLater(p: Patch, c: Coll, gone: set<NodeId>, env: Env)
    requires Restorable(UpdateProperties(p), c)
    ensures UndoneLater(UpdateProperties(p), c, gone, env)
  {
    var d := Patched(p, c);
    UndoExactIff(UpdateProperties(p), c);
    PatchedFields(p, c);
    PatchRefused(p, c, Without(d, gone), env);
    AtomicWithout(d, PatchInverses(p, c), gone);
  }

  // ---------------------------------------------------------------- every command

  /** Undone after purges the command leaves what is left of the collection before it, unless it is blocked. */
  ghost predicate UndoneLater(cmd: Command, c: Coll, gone: set<NodeId>, env: Env) {
    var undo := Execute(Without(Do(cmd, c), gone), InverseOf(cmd, c), env);
    if UndoBlocked(cmd, c, env) then undo.Refused? else undo.Reverted? && undo.state == Without(c, gone)
  }

  /** The undo of a restorable command succeeds, and exactly, if and only if it is not blocked. */
  lemma UndoLaterIff(cmd: Command, c: Coll, gone: set<NodeId>, env: Env)
    requires Restorable(cmd, c) && env.nodes !! gone && Known(c, env.nodes, gone) && Known(Do(cmd, c), env.nodes, gone)
    ensures UndoneLater(cmd, c, gone, env)
  {
    match cmd
    case AddItems(nodes, published) => AddItemsUndoneLater(c, nodes, published, gone, env);
    case RemoveItems(stored, exclude) => RemoveItemsUndoneLater(c, stored, exclude, gone, env);
    case PublishItems(nodes, published) => PublishItemsUndoneLater(c, nodes, published, gone, env);
    case UpdateProperties(p) => PatchUndoneLater(p, c, gone, env);
    case AddItem(_, _) => ItemUndoneLater(cmd, c, gone, env);
    case RemoveItem(_) => ItemUndoneLater(cmd, c, gone, env);
    case Exclude(_) => ExclusionUndoneLater(cmd, c, gone, env);
    case Unexclude(_) => ExclusionUndoneLater(cmd, c, gone, env);
    case _ => FieldUndoneLater(cmd, c, gone, env);
  }

  lemma SingleExecuted(c: Coll, inverse: Inverse, env: Env)
    ensures Execute(c, Single(inverse), env)
      == if InverseRefused(c, inverse, env) || ApplyInverse(c, inverse).None? then Refused
         else Reverted(ApplyInverse(c, inverse).value, 1, 0)
  {
  }

  lemma FieldUndoneLater(cmd: Command, c: Coll, gone: set<NodeId>, env: Env)
    requires Restorable(cmd, c) && (cmd.Rename? || cmd.Pin? || cmd.Publish? || cmd.Archive? || cmd.Unarchive?)
    ensures UndoneLater(cmd, c, gone, env)
  {
    SingleExecuted(Without(Do(cmd, c), gone), InverseOf(cmd, c).inverse, env);
  }

  lemma ItemUndoneLater(cmd: Command, c: Coll, gone: set<NodeId>, env: Env)
    requires Restorable(cmd, c) && env.nodes !! gone && Known(c, env.nodes, gone) && Known(Do(cmd, c), env.nodes, gone)
    requires cmd.AddItem? || cmd.RemoveItem?
    ensures UndoneLater(cmd, c, gone, env)
  {
    match cmd
    case AddItem(n, published) =>
      assert n in Do(cmd, c).items.Keys;
      assert c.items[n := published] - gone - {n} == c.items - gone;
    case RemoveItem(n) =>
      assert n in c.items.Keys;
      assert n !in gone ==> (c.items - {n} - gone)[n := true] == c.items - gone;
  }

  lemma ExclusionUndoneLater(cmd: Command, c: Coll, gone: set<NodeId>, env: Env)
    requires Restorable(cmd, c) && env.nodes !! gone && Known(c, env.nodes, gone) && Known(Do(cmd, c), env.nodes, gone)
    requires cmd.Exclude? || cmd.Unexclude?
    ensures UndoneLater(cmd, c, gone, env)
  {
    match cmd
    case Exclude(n) =>
      assert n in Do(cmd, c).exclusions;
      assert (c.exclusions + {n}) - gone - {n} == c.exclusions - gone;
    case Unexclude(n) =>
      assert n !in gone ==> (c.exclusions - {n} - gone) + {n} == c.exclusions - gone;
  }

  lemma AddItemsUndoneLater(c: Coll, nodes: seq<NodeId>, published: bool, gone: set<NodeId>, env: Env)
    requires Restorable(AddItems(nodes, published), c)
    ensures UndoneLater(AddItems(nodes, published), c, gone, env)
  {
    var added := NotStored(c, nodes);
    var d := Without(InsertItems(c, nodes, published), gone);
    NotStoredElements(c, nodes);
    InsertedItems(c, nodes, published);
    DroppedItems(d, added);
    ItemsAccepted(d, DropItems(added), env);
    AddedBack(c, nodes, added, published, gone);
    HeadIn(added);
  }

  lemma AddedBack(c: Coll, nodes: seq<NodeId>, added: seq<NodeId>, published: bool, gone: set<NodeId>)
    requires forall n :: n in added <==> n in nodes && n !in c.items
    ensures Put(c.items, nodes, published) - gone - Elements(added) == c.items - gone
  {
  }

  lemma RemoveItemsUndoneLater(c: Coll, stored: seq<NodeId>, exclude: seq<NodeId>, gone: set<NodeId>, env: Env)
    requires Restorable(RemoveItems(stored, exclude), c) && env.nodes !! gone && Known(c, env.nodes, gone)
    ensures UndoneLater(RemoveItems(stored, exclude), c, gone, env)
  {
    var d := Without(Do(RemoveItems(stored, exclude), c), gone);
    var items := PutItems(stored) + DropExclusions(exclude);
    RemoveItemsRefused(d, stored, exclude, env);
    ApplyItemsAppend(d, PutItems(stored), DropExclusions(exclude));
    PutItemsApplied(d, stored);
    DroppedExclusions(d.(items := Put(d.items, stored, true)), exclude);
    RemovedBack(c, stored, exclude, gone, env);
  }

  lemma RemovedBack(c: Coll, stored: seq<NodeId>, exclude: seq<NodeId>, gone: set<NodeId>, env: Env)
    requires Restorable(RemoveItems(stored, exclude), c) && env.nodes !! gone && Known(c, env.nodes, gone)
    ensures (exists n :: n in stored && Missing((c.items - Elements(stored) - gone).Keys, n, env))
      <==> exists n :: n in stored && n !in env.nodes
    ensures (forall n :: n in stored ==> n in env.nodes) ==>
      Put(c.items - Elements(stored) - gone, stored, true) == c.items - gone
    ensures (c.exclusions + Elements(exclude)) - gone - Elements(exclude) == c.exclusions - gone
  {
    forall n | n in stored ensures n !in (c.items - Elements(stored) - gone).Keys {
    }
    assert forall n :: n in stored && n in env.nodes ==> n !in gone;
  }

  lemma PublishItemsUndoneLater(c: Coll, nodes: seq<NodeId>, published: bool, gone: set<NodeId>, env: Env)
    requires Restorable(PublishItems(nodes, published), c) && env.nodes !! gone && Known(c, env.nodes, gone)
    ensures UndoneLater(PublishItems(nodes, published), c, gone, env)
  {
    var d := Without(SetItemsPublished(c, nodes, published), gone);
    PublishedLater(c, nodes, published, gone, env);
    SingleExecuted(d, PublishItemsTo(nodes, !published), env);
  }

  lemma PublishedLater(c: Coll, nodes: seq<NodeId>, published: bool, gone: set<NodeId>, env: Env)
    requires Restorable(PublishItems(nodes, published), c) && env.nodes !! gone && Known(c, env.nodes, gone)
    ensures var d := Without(SetItemsPublished(c, nodes, published), gone);
      && (AnyStored(d, nodes) <==> exists n :: n in nodes && n in c.items && n in env.nodes)
      && SetItemsPublished(d, nodes, !published).items == c.items - gone
  {
    var d := Without(SetItemsPublished(c, nodes, published), gone);
    forall n ensures n in d.items <==> n in c.items && n in env.nodes {
      assert n in c.items ==> n in c.items.Keys + c.exclusions;
    }
  }

  // ---------------------------------------------------------------- the constraints are kept

  /** What the constraints say of one collection among the others. */
  predicate CollOk(c: Coll, env: Env) {
    c.items.Keys <= env.nodes && c.exclusions <= env.nodes && (!c.archived ==> c.name !in env.taken)
  }

  lemma {:induction false} InsertItemsKeys(c: Coll, nodes: seq<NodeId>, published: bool)
    ensures InsertItems(c, nodes, published) == c.(items := InsertItems(c, nodes, published).items)
    ensures InsertItems(c, nodes, published).items.Keys == c.items.Keys + Elements(nodes)
  {
    InsertedItems(c, nodes, published);
  }

  lemma DoKeepsOk(cmd: Command, c: Coll, env: Env)
    requires CollOk(c, env) && !CommandRefused(cmd, c, env)
    ensures CollOk(Do(cmd, c), env) && Do(cmd, c).owner == c.owner
  {
    match cmd
    case AddItems(nodes, published) => InsertItemsKeys(c, nodes, published);
    case RemoveItems(stored, exclude) => RemoveItemsKeepsOk(c, stored, exclude, env);
    case UpdateProperties(p) => PatchKeepsOk(p, c, env);
    case _ =>
  }

  lemma RemoveItemsKeepsOk(c: Coll, stored: seq<NodeId>, exclude: seq<NodeId>, env: Env)
    requires CollOk(c, env) && !CommandRefused(RemoveItems(stored, exclude), c, env)
    ensures CollOk(Do(RemoveItems(stored, exclude), c), env) && Do(RemoveItems(stored, exclude), c).owner == c.owner
  {
  }

  lemma PatchKeepsOk(p: Patch, c: Coll, env: Env)
    requires CollOk(c, env) && !CommandRefused(UpdateProperties(p), c, env)
    ensures CollOk(Patched(p, c), env) && Patched(p, c).owner == c.owner
  {
    PatchedKeeps(p, c);
  }

  lemma PatchedKeeps(p: Patch, c: Coll)
    ensures var d := Patched(p, c);
      d.owner == c.owner && d.archived == c.archived && d.items == c.items && d.exclusions == c.exclusions
      && d.name == if Renamed(p, c) then p.name.value else c.name
  {
    PatchedShape(p, c);
    FieldsShape(p, c);
  }

  lemma InverseKeepsOk(c: Coll, inverse: Inverse, env: Env)
    requires CollOk(c, env) && !InverseRefused(c, inverse, env) && ApplyInverse(c, inverse).Some?
    ensures CollOk(ApplyInverse(c, inverse).value, env) && ApplyInverse(c, inverse).value.owner == c.owner
  {
  }

  lemma {:induction false} ItemsKeepOk(c: Coll, items: seq<Inverse>, env: Env)
    requires CollOk(c, env) && !ItemsRefused(c, items, env)
    ensures CollOk(ApplyItems(c, items).0, env) && ApplyItems(c, items).0.owner == c.owner
  {
    if items != [] {
      ItemsKeepOk(c, items[..|items| - 1], env);
      var done := ApplyItems(c, items[..|items| - 1]).0;
      if ApplyInverse(done, items[|items| - 1]).Some? {
        InverseKeepsOk(done, items[|items| - 1], env);
      }
    }
  }

  lemma {:induction false} AtomicKeepsOk(c: Coll, items: seq<Inverse>, env: Env)
    requires CollOk(c, env) && !AtomicRefused(c, items, env) && ApplyAtomic(c, items).Some?
    ensures CollOk(ApplyAtomic(c, items).value, env) && ApplyAtomic(c, items).value.owner == c.owner
  {
    if items != [] {
      AtomicKeepsOk(c, items[..|items| - 1], env);
      InverseKeepsOk(ApplyAtomic(c, items[..|items| - 1]).value, items[|items| - 1], env);
    }
  }

  /** Whatever payload is executed, the result satisfies the constraints. */
  lemma ExecuteKeepsOk(c: Coll, payload: Payload, env: Env)
    requires CollOk(c, env) && Execute(c, payload, env).Reverted?
    ensures CollOk(Execute(c, payload, env).state, env) && Execute(c, payload, env).state.owner == c.owner
  {
    if payload.items == [] {
      InverseKeepsOk(c, payload.inverse, env);
    } else if payload.atomic {
      AtomicKeepsOk(c, payload.items, env);
    } else {
      ItemsKeepOk(c, payload.items, env);
    }
  }

  /** Right after the command nothing stands against its undo. */
  lemma FreshUndoNotBlocked(cmd: Command, c: Coll, env: Env)
    requires CollOk(c, env) && !CommandRefused(cmd, c, env) && Restorable(cmd, c)
    ensures !UndoBlocked(cmd, c, env)
  {
    if cmd.PublishItems? {
      var n :| n in cmd.nodes && n in c.items;
      assert n in c.items.Keys;
    }
  }
}
