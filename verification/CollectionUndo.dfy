/** Exactly which collection commands their recorded inverse undoes. */
module CollectionUndo {
  import opened Common
  import opened Tree
  import opened Collections

  /** Undoing a change of pin restores who pinned it only for user pins. */
  predicate PlainPin(c: Coll) {
    c.pinnedBy == PinnedByOf(c.pinned)
  }

  predicate NoAutoPin(c: Coll) {
    c.system ==> c.pinned
  }

  /** A new grantee is listed once. */
  predicate NewGranteesOnce(grants: map<UserId, Role>, upsert: seq<(UserId, Role)>) {
    forall i, j :: 0 <= i < j < |upsert| && upsert[i].0 == upsert[j].0 ==> upsert[i].0 in grants
  }

  predicate PatchRestorable(p: Patch, c: Coll) {
    && PatchInverses(p, c) != []
    && (Renamed(p, c) ==> c.nameLocked)
    && (Repinned(p, c) ==> PlainPin(c))
    && (p.pinned.None? ==> NoAutoPin(c))
    && (forall u :: u in p.revoke ==> u in c.grants)
    && NewGranteesOnce(c.grants, p.upsert)
  }

  /** What a caller can check before the command to know that its undo will be exact. */
  predicate Restorable(cmd: Command, c: Coll) {
    match cmd
    case Rename(name, lockName) => name != c.name && (lockName ==> c.nameLocked)
    case Pin(pinned) => pinned != c.pinned && PlainPin(c)
    case Publish(mode) => mode != c.publishMode
    case Archive => !c.archived
    case Unarchive => c.archived
    case AddItem(n, _) => n !in c.items
    case RemoveItem(n) => n in c.items && c.items[n]
    case AddItems(nodes, _) => exists n :: n in nodes && n !in c.items
    case RemoveItems(stored, exclude) =>
      && (stored != [] || exclude != []) && NoAutoPin(c)
      && (forall n :: n in stored ==> n in c.items && c.items[n])
      && (forall n :: n in exclude ==> n !in c.exclusions)
    case Exclude(n) => n !in c.exclusions && NoAutoPin(c)
    case Unexclude(n) => n in c.exclusions
    case PublishItems(nodes, published) => AnyStored(c, nodes) && forall n :: n in nodes && n in c.items ==>
      c.items[n] != published
    case UpdateProperties(p) => PatchRestorable(p, c)
  }

  // ---------------------------------------------------------------- batches of members

  function Put(items: map<NodeId, bool>, nodes: seq<NodeId>, published: bool): map<NodeId, bool> {
    map n | n in items.Keys + Elements(nodes) :: if n in items then items[n] else published
  }

  lemma PutOneMore(items: map<NodeId, bool>, init: seq<NodeId>, n: NodeId, published: bool)
    ensures Put(items, init + [n], published)
      == if n in Put(items, init, published) then Put(items, init, published)
        else Put(items, init, published)[n := published]
  {
  }

  lemma {:induction false} InsertedItems(c: Coll, nodes: seq<NodeId>, published: bool)
    ensures InsertItems(c, nodes, published) == c.(items := Put(c.items, nodes, published))
  {
    if nodes != [] {
      var init := nodes[..|nodes| - 1];
      InsertedItems(c, init, published);
      assert nodes == init + [nodes[|nodes| - 1]];
      PutOneMore(c.items, init, nodes[|nodes| - 1], published);
    } else {
      assert Put(c.items, nodes, published) == c.items;
    }
  }

  /** Dropping a list of members one by one takes out exactly those, duplicates or not. */
  lemma {:induction false} DroppedItems(c: Coll, nodes: seq<NodeId>)
    ensures ApplyItems(c, DropItems(nodes)).0 == c.(items := c.items - Elements(nodes))
  {
    if nodes != [] {
      var init := nodes[..|nodes| - 1];
      DroppedItems(c, init);
      assert DropItems(nodes)[..|nodes| - 1] == DropItems(init);
      assert nodes == init + [nodes[|nodes| - 1]];
      assert Elements(nodes) == Elements(init) + {nodes[|nodes| - 1]};
      assert c.items - Elements(init) - {nodes[|nodes| - 1]} == c.items - Elements(nodes);
      if nodes[|nodes| - 1] !in c.items - Elements(init) {
        assert c.items - Elements(init) == c.items - Elements(nodes);
      }
    } else {
      assert c.items - Elements(nodes) == c.items;
    }
  }

  lemma {:induction false} PutItemsApplied(c: Coll, nodes: seq<NodeId>)
    ensures ApplyItems(c, PutItems(nodes)).0 == c.(items := Put(c.items, nodes, true))
  {
    if nodes != [] {
      var init := nodes[..|nodes| - 1];
      PutItemsApplied(c, init);
      assert PutItems(nodes)[..|nodes| - 1] == PutItems(init);
      assert nodes == init + [nodes[|nodes| - 1]];
      PutOneMore(c.items, init, nodes[|nodes| - 1], true);
    } else {
      assert Put(c.items, nodes, true) == c.items;
    }
  }

  lemma {:induction false} DroppedExclusions(c: Coll, nodes: seq<NodeId>)
    ensures ApplyItems(c, DropExclusions(nodes)).0 == c.(exclusions := c.exclusions - Elements(nodes))
  {
    if nodes != [] {
      var init := nodes[..|nodes| - 1];
      DroppedExclusions(c, init);
      assert DropExclusions(nodes)[..|nodes| - 1] == DropExclusions(init);
      assert nodes == init + [nodes[|nodes| - 1]];
      assert Elements(nodes) == Elements(init) + {nodes[|nodes| - 1]};
      assert c.exclusions - Elements(init) - {nodes[|nodes| - 1]} == c.exclusions - Elements(nodes);
    } else {
      assert c.exclusions - Elements(nodes) == c.exclusions;
    }
  }

  lemma {:induction false} ApplyItemsAppend(c: Coll, a: seq<Inverse>, b: seq<Inverse>)
    ensures ApplyItems(c, a + b).0 == ApplyItems(ApplyItems(c, a).0, b).0
  {
    if b == [] {
      assert a + b == a;
    } else {
      ApplyItemsAppend(c, a, b[..|b| - 1]);
      assert (a + b)[..|a + b| - 1] == a + b[..|b| - 1];
    }
  }

  lemma AddItemsUndone(c: Coll, nodes: seq<NodeId>, published: bool)
    ensures Reversible(AddItems(nodes, published), c) <==> Restorable(AddItems(nodes, published), c)
  {
    var added := NotStored(c, nodes);
    NotStoredElements(c, nodes);
    InsertedItems(c, nodes, published);
    DroppedItems(InsertItems(c, nodes, published), added);
    AddedBack(c.items, nodes, added, published);
    HeadIn(added);
  }

  lemma AddedBack(items: map<NodeId, bool>, nodes: seq<NodeId>, added: seq<NodeId>, published: bool)
    requires forall n :: n in added <==> n in nodes && n !in items
    ensures Put(items, nodes, published) - Elements(added) == items
  {
  }

  lemma RemoveItemsState(c: Coll, stored: seq<NodeId>, exclude: seq<NodeId>)
    ensures var d := Do(RemoveItems(stored, exclude), c);
      ApplyItems(d, PutItems(stored) + DropExclusions(exclude)).0
        == d.(items := Put(c.items - Elements(stored), stored, true),
          exclusions := (c.exclusions + Elements(exclude)) - Elements(exclude))
  {
    var d := Do(RemoveItems(stored, exclude), c);
    ApplyItemsAppend(d, PutItems(stored), DropExclusions(exclude));
    PutItemsApplied(d, stored);
    DroppedExclusions(d.(items := Put(d.items, stored, true)), exclude);
  }

  lemma RemoveItemsUndone(c: Coll, stored: seq<NodeId>, exclude: seq<NodeId>)
    ensures Reversible(RemoveItems(stored, exclude), c) <==> Restorable(RemoveItems(stored, exclude), c)
  {
    RemoveItemsState(c, stored, exclude);
    PutBack(c.items, stored);
    assert (c.exclusions + Elements(exclude)) - Elements(exclude) == c.exclusions
      <==> (forall n :: n in exclude ==> n !in c.exclusions) by {
      if exists n :: n in exclude && n in c.exclusions {
        var n :| n in exclude && n in c.exclusions;
        assert n !in (c.exclusions + Elements(exclude)) - Elements(exclude);
      }
    }
  }

  lemma PutBack(items: map<NodeId, bool>, nodes: seq<NodeId>)
    ensures Put(items - Elements(nodes), nodes, true) == items <==> forall n :: n in nodes ==> n in items && items[n]
  {
  }

  lemma PublishedBack(c: Coll, nodes: seq<NodeId>, published: bool)
    ensures var back := SetItemsPublished(SetItemsPublished(c, nodes, published), nodes, !published);
      back == c <==> forall n :: n in nodes && n in c.items ==> c.items[n] != published
  {
  }

  lemma PublishItemsUndone(c: Coll, nodes: seq<NodeId>, published: bool)
    ensures Reversible(PublishItems(nodes, published), c) <==> Restorable(PublishItems(nodes, published), c)
  {
    assert AnyStored(SetItemsPublished(c, nodes, published), nodes) <==> AnyStored(c, nodes);
    PublishedBack(c, nodes, published);
  }

  // ---------------------------------------------------------------- the properties dialog

  predicate Agree(a: map<UserId, Role>, b: map<UserId, Role>, u: UserId) {
    (u in a <==> u in b) && (u in a ==> a[u] == b[u])
  }

  /** The upsert list changes the role of `u` or adds it. */
  predicate Touches(grants: map<UserId, Role>, upsert: seq<(UserId, Role)>, u: UserId) {
    exists grant :: grant in upsert && grant.0 == u && !SameRole(grants, grant)
  }

  lemma TouchesLast(grants: map<UserId, Role>, init: seq<(UserId, Role)>, last: (UserId, Role), u: UserId)
    ensures Touches(grants, init + [last], u) <==> Touches(grants, init, u) || (last.0 == u && !SameRole(grants, last))
  {
  }

  lemma {:induction false} ApplyAtomicAppend(c: Coll, a: seq<Inverse>, b: seq<Inverse>)
    ensures ApplyAtomic(c, a + b) == if ApplyAtomic(c, a).Some? then ApplyAtomic(ApplyAtomic(c, a).value, b) else None
  {
    if b == [] {
      assert a + b == a;
    } else {
      ApplyAtomicAppend(c, a, b[..|b| - 1]);
      assert (a + b)[..|a + b| - 1] == a + b[..|b| - 1];
    }
  }

  lemma {:induction false} UpsertedGrants(before: map<UserId, Role>, grants: map<UserId, Role>,
      upsert: seq<(UserId, Role)>, u: UserId)
    ensures var after := UpsertGrants(before, grants, upsert);
      if Touches(before, upsert, u) then u in after else Agree(after, grants, u)
  {
    if upsert != [] {
      var init := upsert[..|upsert| - 1];
      UpsertedGrants(before, grants, init, u);
      assert upsert == init + [upsert[|upsert| - 1]];
      TouchesLast(before, init, upsert[|upsert| - 1], u);
    }
  }

  /** What undoing the revocations of `revoke` leaves. */
  ghost predicate RevokesUndone(c: Coll, grants: map<UserId, Role>, revoke: seq<UserId>, back: Option<Coll>) {
    && (back.Some? <==> forall u :: u in revoke ==> u in grants)
    && (back.Some? ==> back.value == c.(grants := back.value.grants))
    && (back.Some? ==>
      forall u :: if u in revoke then Agree(back.value.grants, grants, u) else Agree(back.value.grants, c.grants, u))
  }

  /** Granting back what was revoked works exactly when every revoked user had a grant. */
  lemma {:induction false} RevokesBack(c: Coll, grants: map<UserId, Role>, revoke: seq<UserId>)
    ensures RevokesUndone(c, grants, revoke, ApplyAtomic(c, RevokeInverses(grants, revoke)))
  {
    if revoke != [] {
      var init, last := revoke[..|revoke| - 1], revoke[|revoke| - 1];
      RevokesBack(c, grants, init);
      assert revoke == init + [last];
      RevokeLast(c, grants, init, last);
    }
  }

  lemma RevokeLast(c: Coll, grants: map<UserId, Role>, init: seq<UserId>, last: UserId)
    requires RevokesUndone(c, grants, init, ApplyAtomic(c, RevokeInverses(grants, init)))
    ensures RevokesUndone(c, grants, init + [last], ApplyAtomic(c, RevokeInverses(grants, init + [last])))
  {
    var all := RevokeInverses(grants, init + [last]);
    assert all[..|all| - 1] == RevokeInverses(grants, init);
    assert all[|all| - 1] == GrantAccess(last, if last in grants then Some(grants[last]) else None);
    assert forall u :: u in init + [last] <==> u in init || u == last;
  }

  lemma OnceLast(grants: map<UserId, Role>, init: seq<(UserId, Role)>, last: (UserId, Role))
    ensures NewGranteesOnce(grants, init + [last])
      <==> NewGranteesOnce(grants, init) && (last.0 in grants || forall grant :: grant in init ==> grant.0 != last.0)
  {
    var all := init + [last];
    if NewGranteesOnce(grants, all) {
      forall i, j | 0 <= i < j < |init| && init[i].0 == init[j].0 ensures init[i].0 in grants {
        assert all[i].0 == all[j].0;
      }
      if last.0 !in grants {
        forall grant | grant in init ensures grant.0 != last.0 {
          var i :| 0 <= i < |init| && init[i] == grant;
          assert all[i] == grant && all[|init|] == last;
        }
      }
    }
  }

  /** What undoing the upserts leaves. */
  ghost predicate UpsertsUndone(c: Coll, grants: map<UserId, Role>, upsert: seq<(UserId, Role)>, back: Option<Coll>) {
    && (back.Some? <==> NewGranteesOnce(grants, upsert))
    && (back.Some? ==> back.value == c.(grants := back.value.grants))
    && (back.Some? ==> forall u :: UserBack(c, grants, back.value.grants, upsert, u))
  }

  ghost predicate UserBack(c: Coll, grants: map<UserId, Role>, now: map<UserId, Role>, upsert: seq<(UserId, Role)>,
      u: UserId)
  {
    if Touches(grants, upsert, u) then Agree(now, grants, u) else Agree(now, c.grants, u)
  }

  /** Taking upserts back works exactly when no new grantee was listed twice. */
  lemma {:induction false} UpsertsBack(c: Coll, grants: map<UserId, Role>, upsert: seq<(UserId, Role)>)
    requires forall grant :: grant in upsert && grant.0 !in grants ==> grant.0 in c.grants
    ensures UpsertsUndone(c, grants, upsert, ApplyAtomic(c, UpsertInverses(grants, upsert)))
  {
    if upsert != [] {
      var init, last := upsert[..|upsert| - 1], upsert[|upsert| - 1];
      UpsertsBack(c, grants, init);
      assert upsert == init + [last];
      UpsertLast(c, grants, init, last);
    }
  }

  lemma UpsertLast(c: Coll, grants: map<UserId, Role>, init: seq<(UserId, Role)>, last: (UserId, Role))
    requires last.0 !in grants ==> last.0 in c.grants
    requires UpsertsUndone(c, grants, init, ApplyAtomic(c, UpsertInverses(grants, init)))
    ensures UpsertsUndone(c, grants, init + [last], ApplyAtomic(c, UpsertInverses(grants, init + [last])))
  {
    LastInverse(c, grants, init, last);
    UndoneWithLast(c, grants, init, last, ApplyAtomic(c, UpsertInverses(grants, init)),
                   ApplyAtomic(c, UpsertInverses(grants, init + [last])));
  }

  /** What taking back the last upsert makes of the state the others were taken back in. */
  function LastBack(grants: map<UserId, Role>, last: (UserId, Role), before: Option<Coll>): Option<Coll> {
    if before.None? || SameRole(grants, last) then before
    else ApplyInverse(before.value,
                      if last.0 in grants then GrantAccess(last.0, Some(grants[last.0])) else RevokeAccess(last.0))
  }

  lemma UndoneWithLast(c: Coll, grants: map<UserId, Role>, init: seq<(UserId, Role)>, last: (UserId, Role),
      before: Option<Coll>, back: Option<Coll>)
    requires last.0 !in grants ==> last.0 in c.grants
    requires UpsertsUndone(c, grants, init, before) && back == LastBack(grants, last, before)
    ensures UpsertsUndone(c, grants, init + [last], back)
  {
    OnceLast(grants, init, last);
    if before.Some? {
      assert UserBack(c, grants, before.value.grants, init, last.0);
      NewGranteeThere(c, grants, init, last, before.value);
    }
    if back.Some? {
      forall u ensures UserBack(c, grants, back.value.grants, init + [last], u) {
        assert UserBack(c, grants, before.value.grants, init, u);
        UserWithLast(c, grants, init, last, before.value, back.value, u);
      }
    }
  }

  lemma UserWithLast(c: Coll, grants: map<UserId, Role>, init: seq<(UserId, Role)>, last: (UserId, Role), before: Coll,
      back: Coll, u: UserId)
    requires UserBack(c, grants, before.grants, init, u) && LastBack(grants, last, Some(before)) == Some(back)
    ensures UserBack(c, grants, back.grants, init + [last], u)
  {
    TouchesLast(grants, init, last, u);
    if last.0 != u || SameRole(grants, last) {
      assert Agree(back.grants, before.grants, u);
    } else {
      assert Agree(back.grants, grants, u);
    }
  }

  /** The last upsert adds one inverse, or none when it changed nothing. */
  lemma LastInverse(c: Coll, grants: map<UserId, Role>, init: seq<(UserId, Role)>, last: (UserId, Role))
    ensures ApplyAtomic(c, UpsertInverses(grants, init + [last]))
      == LastBack(grants, last, ApplyAtomic(c, UpsertInverses(grants, init)))
  {
    var all := UpsertInverses(grants, init + [last]);
    assert (init + [last])[..|init|] == init;
    if !SameRole(grants, last) {
      assert all[..|all| - 1] == UpsertInverses(grants, init);
    }
  }

  /** A new grantee still has the grant to revoke exactly when it was not listed before. */
  lemma NewGranteeThere(c: Coll, grants: map<UserId, Role>, init: seq<(UserId, Role)>, last: (UserId, Role), d: Coll)
    requires last.0 !in grants ==> last.0 in c.grants
    requires UserBack(c, grants, d.grants, init, last.0)
    ensures last.0 !in grants ==> (last.0 in d.grants <==> forall grant :: grant in init ==> grant.0 != last.0)
  {
    if last.0 !in grants {
      assert Touches(grants, init, last.0) <==> exists grant :: grant in init && grant.0 == last.0;
    }
  }

  /** Name, pin and publish mode after the field inverses. */
  function FieldsBack(p: Patch, c: Coll, d: Coll): Coll {
    PinBack(Repinned(p, c), c, d.(name := c.name)).(publishMode := c.publishMode)
  }

  lemma FieldsShape(p: Patch, c: Coll)
    ensures var d := FieldsPatched(p, c);
      d == c.(name := if Renamed(p, c) then p.name.value else c.name, nameLocked := Renamed(p, c) || c.nameLocked,
              publishMode := if Republished(p, c) then p.publishMode.value else c.publishMode,
              grants := UpsertGrants(c.grants, c.grants - Elements(p.revoke), p.upsert),
              pinned := if Repinned(p, c) then p.pinned.value else c.pinned, pinnedBy := d.pinnedBy)
  {
  }

  /** The auto-pin touches the pin alone, and not a pin the patch set. */
  lemma PatchedShape(p: Patch, c: Coll)
    ensures var d := Patched(p, c);
      d == FieldsPatched(p, c).(pinned := d.pinned, pinnedBy := d.pinnedBy) && (Repinned(p, c) ==> d.pinned != c.pinned)
  {
    assert Repinned(p, c) ==> FieldsPatched(p, c).pinned == p.pinned.value;
  }

  lemma PatchedFields(p: Patch, c: Coll)
    ensures var d := Patched(p, c);
      && (d.name != c.name <==> Renamed(p, c)) && (d.publishMode != c.publishMode <==> Republished(p, c))
      && (Repinned(p, c) ==> d.pinned != c.pinned)
      && d.grants == UpsertGrants(c.grants, c.grants - Elements(p.revoke), p.upsert)
  {
    PatchedShape(p, c);
    FieldsShape(p, c);
  }

  lemma NameUndone(d: Coll, c: Coll)
    ensures ApplyAtomic(d, if d.name != c.name then [RenameTo(c.name)] else []) == Some(d.(name := c.name))
  {
  }

  lemma ModeUndone(d: Coll, c: Coll)
    ensures ApplyAtomic(d, if d.publishMode != c.publishMode then [PublishTo(c.publishMode)] else [])
      == Some(d.(publishMode := c.publishMode))
  {
  }

  function PinBack(repinned: bool, c: Coll, d: Coll): Coll {
    if repinned then d.(pinned := c.pinned, pinnedBy := PinnedByOf(c.pinned)) else d
  }

  lemma PinUndone(d: Coll, c: Coll, repinned: bool)
    requires repinned ==> d.pinned != c.pinned
    ensures ApplyAtomic(d, if repinned then [PinTo(c.pinned)] else []) == Some(PinBack(repinned, c, d))
  {
  }

  lemma FieldsUndone(p: Patch, c: Coll, d: Coll)
    requires (d.name != c.name <==> Renamed(p, c)) && (d.publishMode != c.publishMode <==> Republished(p, c))
    requires Repinned(p, c) ==> d.pinned != c.pinned
    ensures ApplyAtomic(d, FieldInverses(p, c)) == Some(FieldsBack(p, c, d))
  {
    var named := if d.name != c.name then [RenameTo(c.name)] else [];
    var pinned := if Repinned(p, c) then [PinTo(c.pinned)] else [];
    var moded := if d.publishMode != c.publishMode then [PublishTo(c.publishMode)] else [];
    var d1 := d.(name := c.name);
    var d2 := PinBack(Repinned(p, c), c, d1);
    ApplyAtomicAppend(d, named + pinned, moded);
    ApplyAtomicAppend(d, named, pinned);
    NameUndone(d, c);
    PinUndone(d1, c, Repinned(p, c));
    ModeUndone(d2, c);
    assert FieldInverses(p, c) == named + pinned + moded;
  }

  lemma AgreeEverywhere(a: map<UserId, Role>, b: map<UserId, Role>)
    requires forall u :: Agree(a, b, u)
    ensures a == b
  {
    forall u ensures u in a <==> u in b {
      assert Agree(a, b, u);
    }
    forall u | u in a ensures a[u] == b[u] {
      assert Agree(a, b, u);
    }
  }

  lemma GrantsUndone(c: Coll, x: Coll, revoke: seq<UserId>, upsert: seq<(UserId, Role)>)
    requires x.grants == UpsertGrants(c.grants, c.grants - Elements(revoke), upsert)
    ensures var back := ApplyAtomic(x, RevokeInverses(c.grants, revoke) + UpsertInverses(c.grants, upsert));
      && (back.Some? <==> (forall u :: u in revoke ==> u in c.grants) && NewGranteesOnce(c.grants, upsert))
      && (back.Some? ==> back.value == x.(grants := c.grants))
  {
    ApplyAtomicAppend(x, RevokeInverses(c.grants, revoke), UpsertInverses(c.grants, upsert));
    RevokesBack(x, c.grants, revoke);
    forall u ensures if Touches(c.grants, upsert, u) then u in x.grants
      else Agree(x.grants, c.grants - Elements(revoke), u) {
      UpsertedGrants(c.grants, c.grants - Elements(revoke), upsert, u);
    }
    var y := ApplyAtomic(x, RevokeInverses(c.grants, revoke));
    if y.Some? {
      forall grant | grant in upsert && grant.0 !in c.grants ensures grant.0 in y.value.grants {
        assert Touches(c.grants, upsert, grant.0);
      }
      UpsertsBack(y.value, c.grants, upsert);
      var z := ApplyAtomic(y.value, UpsertInverses(c.grants, upsert));
      if z.Some? {
        forall u ensures Agree(z.value.grants, c.grants, u) {
          assert UserBack(y.value, c.grants, z.value.grants, upsert, u);
          assert u in Elements(revoke) <==> u in revoke;
        }
        AgreeEverywhere(z.value.grants, c.grants);
      }
    }
  }

  lemma PatchApplied(p: Patch, c: Coll, d: Coll)
    requires d == Patched(p, c)
    ensures var back := ApplyAtomic(d, PatchInverses(p, c));
      && (back.Some? <==> (forall u :: u in p.revoke ==> u in c.grants) && NewGranteesOnce(c.grants, p.upsert))
      && (back.Some? ==> back.value == FieldsBack(p, c, d).(grants := c.grants))
  {
    PatchedFields(p, c);
    var x := FieldsBack(p, c, d);
    ApplyAtomicAppend(d, FieldInverses(p, c), RevokeInverses(c.grants, p.revoke) + UpsertInverses(c.grants, p.upsert));
    FieldsUndone(p, c, d);
    GrantsUndone(c, x, p.revoke, p.upsert);
  }

  lemma PatchUndone(p: Patch, c: Coll)
    ensures Reversible(UpdateProperties(p), c) <==> Restorable(UpdateProperties(p), c)
  {
    PatchApplied(p, c, Patched(p, c));
    FieldsExact(p, c, Patched(p, c));
  }

  lemma FieldsExact(p: Patch, c: Coll, d: Coll)
    requires d == Patched(p, c)
    ensures FieldsBack(p, c, d).(grants := c.grants) == c
      <==> (Renamed(p, c) ==> c.nameLocked) && (Repinned(p, c) ==> PlainPin(c)) && (p.pinned.None? ==> NoAutoPin(c))
  {
    FieldsLeft(p, c, d);
  }

  /** What the field inverses do not take back: the name lock and who pinned. */
  lemma FieldsLeft(p: Patch, c: Coll, d: Coll)
    requires d == Patched(p, c)
    ensures FieldsBack(p, c, d).(grants := c.grants)
         == c.(nameLocked := Renamed(p, c) || c.nameLocked,
               pinned := if Repinned(p, c) then c.pinned else d.pinned,
               pinnedBy := if Repinned(p, c) then PinnedByOf(c.pinned) else d.pinnedBy)
  {
    PatchedShape(p, c);
    FieldsShape(p, c);
  }

  // ---------------------------------------------------------------- every command

  /** Undoing a command right away gives the collection back exactly under the condition a caller can check first. */
  lemma UndoExactIff(cmd: Command, c: Coll)
    ensures Reversible(cmd, c) <==> Restorable(cmd, c)
  {
    match cmd
    case AddItems(nodes, published) => AddItemsUndone(c, nodes, published);
    case RemoveItems(stored, exclude) => RemoveItemsUndone(c, stored, exclude);
    case PublishItems(nodes, published) => PublishItemsUndone(c, nodes, published);
    case UpdateProperties(p) => PatchUndone(p, c);
    case AddItem(n, published) => AddItemUndone(c, n, published);
    case RemoveItem(n) => RemoveItemUndone(c, n);
    case Exclude(n) => ExcludeUndone(c, n);
    case Unexclude(n) => UnexcludeUndone(c, n);
    case _ => FieldCommandUndone(cmd, c);
  }

  /**
   * What three undos that do not fail leave behind: a locked name, a user's pin for an automatic one, a published
   * item.
   */
  lemma UndoLosses(c: Coll, name: string, n: NodeId)
    ensures name != c.name && !c.nameLocked ==>
      Apply(Do(Rename(name, true), c), InverseOf(Rename(name, true), c)) == Reverted(c.(nameLocked := true), 1, 0)
    ensures c.pinned && c.pinnedBy == Some(ByAuto) ==>
      Apply(Do(Pin(false), c), InverseOf(Pin(false), c)) == Reverted(c.(pinnedBy := Some(ByUser)), 1, 0)
    ensures n in c.items && !c.items[n] ==>
      Apply(Do(RemoveItem(n), c), InverseOf(RemoveItem(n), c)) == Reverted(c.(items := c.items[n := true]), 1, 0)
  {
    assert n in c.items ==> (c.items - {n})[n := true] == c.items[n := true];
  }

  lemma FieldCommandUndone(cmd: Command, c: Coll)
    requires cmd.Rename? || cmd.Pin? || cmd.Publish? || cmd.Archive? || cmd.Unarchive?
    ensures Reversible(cmd, c) <==> Restorable(cmd, c)
  {
  }

  lemma AddItemUndone(c: Coll, n: NodeId, published: bool)
    ensures Reversible(AddItem(n, published), c) <==> Restorable(AddItem(n, published), c)
  {
  }

  lemma ExcludeUndone(c: Coll, n: NodeId)
    ensures Reversible(Exclude(n), c) <==> Restorable(Exclude(n), c)
  {
  }

  lemma UnexcludeUndone(c: Coll, n: NodeId)
    ensures Reversible(Unexclude(n), c) <==> Restorable(Unexclude(n), c)
  {
  }

  lemma RemoveItemUndone(c: Coll, n: NodeId)
    ensures Reversible(RemoveItem(n), c) <==> Restorable(RemoveItem(n), c)
  {
  }
}
