/** collectionsStore commands, their recorded inverses and the collection undo executor. */
module Collections {
  import opened Common
  import opened Tree

  type UserId = nat

  datatype PublishMode = Ask | Off | Auto

  datatype PinnedBy = ByUser | ByAuto

  datatype Role = Viewer | Editor

  /** `items` holds the stored members with their published flag. */
  datatype Coll = Coll(owner: UserId, name: string, nameLocked: bool, publishMode: PublishMode, pinned: bool,
                       pinnedBy: Option<PinnedBy>, archived: bool, system: bool, items: map<NodeId, bool>,
                       exclusions: set<NodeId>, grants: map<UserId, Role>)

  /**
   * What the constraints look at besides the row itself: the names of the owner's other active collections,
   * and the nodes that exist.
   */
  datatype Env = Env(taken: set<string>, nodes: set<NodeId>)

  datatype Patch = Patch(name: Option<string>, pinned: Option<bool>, publishMode: Option<PublishMode>,
                         revoke: seq<UserId>, upsert: seq<(UserId, Role)>)

  datatype Command =
    | Rename(name: string, lockName: bool)
    | Pin(pinned: bool)
    | Publish(mode: PublishMode)
    | Archive
    | Unarchive
    | AddItem(node: NodeId, published: bool)
    | RemoveItem(node: NodeId)
    | AddItems(nodes: seq<NodeId>, published: bool)
    | RemoveItems(stored: seq<NodeId>, exclude: seq<NodeId>)
    | Exclude(node: NodeId)
    | Unexclude(node: NodeId)
    | PublishItems(nodes: seq<NodeId>, published: bool)
    | UpdateProperties(patch: Patch)

  datatype Inverse =
    | RenameTo(previousName: string)
    | PinTo(pinned: bool)
    | PublishTo(mode: PublishMode)
    | RestoreCollection
    | ArchiveCollection
    | DropItem(node: NodeId)
    | PutItem(node: NodeId)
    | DropExclusion(node: NodeId)
    | PutExclusion(node: NodeId)
    | PublishItemsTo(nodes: seq<NodeId>, published: bool)
    | RevokeAccess(user: UserId)
    | GrantAccess(user: UserId, role: Option<Role>)
    | NoExecutor

  /** What a journal row stores: one inverse, or a list of them that applies item by item or all or nothing. */
  datatype Payload = Payload(inverse: Inverse, items: seq<Inverse>, atomic: bool)

  datatype Undo = Refused | Reverted(state: Coll, applied: nat, skipped: nat)

  // ---------------------------------------------------------------- statements

  function PinnedByOf(pinned: bool): Option<PinnedBy> {
    if pinned then Some(ByUser) else None
  }

  /** setAutoPin: only an unpinned system collection. */
  function AutoPin(c: Coll): Coll {
    if c.system && !c.pinned then c.(pinned := true, pinnedBy := Some(ByAuto)) else c
  }

  function InsertItem(c: Coll, n: NodeId, published: bool): Coll {
    if n in c.items then c else c.(items := c.items[n := published])
  }

  function InsertItems(c: Coll, nodes: seq<NodeId>, published: bool): Coll {
    if nodes == [] then c
      else InsertItem(InsertItems(c, nodes[..|nodes| - 1], published), nodes[|nodes| - 1], published)
  }

  function SetItemsPublished(c: Coll, nodes: seq<NodeId>, published: bool): Coll {
    c.(items := map n | n in c.items :: if n in nodes then published else c.items[n])
  }

  /** What is left of a collection when nodes are purged: their item and exclusion rows go by cascade. */
  function Without(c: Coll, gone: set<NodeId>): Coll {
    c.(items := c.items - gone, exclusions := c.exclusions - gone)
  }

  predicate AnyStored(c: Coll, nodes: seq<NodeId>) {
    exists n :: n in nodes && n in c.items
  }

  // ---------------------------------------------------------------- commands

  function Renamed(p: Patch, c: Coll): bool { p.name.Some? && p.name.value != c.name }

  function Repinned(p: Patch, c: Coll): bool { p.pinned.Some? && p.pinned.value != c.pinned }

  function Republished(p: Patch, c: Coll): bool { p.publishMode.Some? && p.publishMode.value != c.publishMode }

  predicate SameRole(grants: map<UserId, Role>, grant: (UserId, Role)) {
    grant.0 in grants && grants[grant.0] == grant.1
  }

  function UpsertGrants(before: map<UserId, Role>, grants: map<UserId, Role>, upsert: seq<(UserId, Role)>)
    : map<UserId, Role>
  {
    if upsert == [] then grants
    else
      var rest := UpsertGrants(before, grants, upsert[..|upsert| - 1]);
      var grant := upsert[|upsert| - 1];
      if SameRole(before, grant) then rest else rest[grant.0 := grant.1]
  }

  /** Name, mode, grants and pin as the patch says, each only when it differs. */
  function FieldsPatched(p: Patch, c: Coll): Coll {
    var named :=
      c.(name := if Renamed(p, c) then p.name.value else c.name, nameLocked := Renamed(p, c) || c.nameLocked);
    var moded := named.(publishMode := if Republished(p, c) then p.publishMode.value else c.publishMode);
    var granted := moded.(grants := UpsertGrants(c.grants, c.grants - Elements(p.revoke), p.upsert));
    if Repinned(p, c) then granted.(pinned := p.pinned.value, pinnedBy := PinnedByOf(p.pinned.value)) else granted
  }

  function Patched(p: Patch, c: Coll): Coll {
    if p.pinned != Some(false) then AutoPin(FieldsPatched(p, c)) else FieldsPatched(p, c)
  }

  /** The mutation each command runs in its transaction. */
  function Do(cmd: Command, c: Coll): Coll {
    match cmd
    case Rename(name, lockName) => c.(name := name, nameLocked := lockName || c.nameLocked)
    case Pin(pinned) => c.(pinned := pinned, pinnedBy := PinnedByOf(pinned))
    case Publish(mode) => c.(publishMode := mode)
    case Archive => c.(archived := true)
    case Unarchive => c.(archived := false)
    case AddItem(n, published) => InsertItem(c, n, published)
    case RemoveItem(n) => c.(items := c.items - {n})
    case AddItems(nodes, published) => InsertItems(c, nodes, published)
    case RemoveItems(stored, exclude) =>
      AutoPin(c.(items := c.items - Elements(stored), exclusions := c.exclusions + Elements(exclude)))
    case Exclude(n) => AutoPin(c.(exclusions := c.exclusions + {n}))
    case Unexclude(n) => c.(exclusions := c.exclusions - {n})
    case PublishItems(nodes, published) => SetItemsPublished(c, nodes, published)
    case UpdateProperties(p) => Patched(p, c)
  }

  predicate NameRefused(c: Coll, name: string, env: Env) {
    !c.archived && name in env.taken
  }

  predicate Missing(present: set<NodeId>, n: NodeId, env: Env) {
    n !in present && n !in env.nodes
  }

  /** A statement of the command would repeat an active name of the owner, or refer to a node that does not exist. */
  predicate CommandRefused(cmd: Command, c: Coll, env: Env) {
    match cmd
    case Rename(name, _) => NameRefused(c, name, env)
    case Unarchive => c.archived && c.name in env.taken
    case AddItem(n, _) => Missing(c.items.Keys, n, env)
    case AddItems(nodes, _) => exists n :: n in nodes && Missing(c.items.Keys, n, env)
    case RemoveItems(_, exclude) => exists n :: n in exclude && Missing(c.exclusions, n, env)
    case Exclude(n) => Missing(c.exclusions, n, env)
    case UpdateProperties(p) => Renamed(p, c) && NameRefused(c, p.name.value, env)
    case _ => false
  }

  // ---------------------------------------------------------------- recorded inverses

  function NotStored(c: Coll, nodes: seq<NodeId>): seq<NodeId> {
    if nodes == [] then []
    else
      var rest := NotStored(c, nodes[..|nodes| - 1]);
      if nodes[|nodes| - 1] in c.items then rest else rest + [nodes[|nodes| - 1]]
  }

  function RevokeInverses(grants: map<UserId, Role>, revoke: seq<UserId>): seq<Inverse> {
    seq(|revoke|, i requires 0 <= i < |revoke| =>
      GrantAccess(revoke[i], if revoke[i] in grants then Some(grants[revoke[i]]) else None))
  }

  function UpsertInverses(grants: map<UserId, Role>, upsert: seq<(UserId, Role)>): seq<Inverse> {
    if upsert == [] then []
    else
      var rest := UpsertInverses(grants, upsert[..|upsert| - 1]);
      var grant := upsert[|upsert| - 1];
      if SameRole(grants, grant) then rest
      else rest + [if grant.0 in grants then GrantAccess(grant.0, Some(grants[grant.0])) else RevokeAccess(grant.0)]
  }

  function FieldInverses(p: Patch, c: Coll): seq<Inverse> {
    (if Renamed(p, c) then [RenameTo(c.name)] else [])
    + (if Repinned(p, c) then [PinTo(c.pinned)] else [])
    + (if Republished(p, c) then [PublishTo(c.publishMode)] else [])
  }

  function PatchInverses(p: Patch, c: Coll): seq<Inverse> {
    FieldInverses(p, c) + (RevokeInverses(c.grants, p.revoke) + UpsertInverses(c.grants, p.upsert))
  }

  function Single(inverse: Inverse): Payload {
    Payload(inverse, [], false)
  }

  function DropItems(nodes: seq<NodeId>): seq<Inverse> {
    seq(|nodes|, i requires 0 <= i < |nodes| => DropItem(nodes[i]))
  }

  function PutItems(nodes: seq<NodeId>): seq<Inverse> {
    seq(|nodes|, i requires 0 <= i < |nodes| => PutItem(nodes[i]))
  }

  function DropExclusions(nodes: seq<NodeId>): seq<Inverse> {
    seq(|nodes|, i requires 0 <= i < |nodes| => DropExclusion(nodes[i]))
  }

  /** The payload recorded with a command run on `c`. */
  function InverseOf(cmd: Command, c: Coll): Payload {
    match cmd
    case Rename(_, _) => Single(RenameTo(c.name))
    case Pin(pinned) => Single(PinTo(!pinned))
    case Publish(_) => Single(PublishTo(c.publishMode))
    case Archive => Single(RestoreCollection)
    case Unarchive => Single(ArchiveCollection)
    case AddItem(n, _) => Single(DropItem(n))
    case RemoveItem(n) => Single(PutItem(n))
    case AddItems(nodes, _) => Payload(NoExecutor, DropItems(NotStored(c, nodes)), false)
    case RemoveItems(stored, exclude) => Payload(NoExecutor, PutItems(stored) + DropExclusions(exclude), false)
    case Exclude(n) => Single(DropExclusion(n))
    case Unexclude(n) => Single(PutExclusion(n))
    case PublishItems(nodes, published) => Single(PublishItemsTo(nodes, !published))
    case UpdateProperties(p) => Payload(NoExecutor, PatchInverses(p, c), true)
  }

  /** A properties patch that changes nothing writes no journal row. */
  predicate Journaled(cmd: Command, c: Coll) {
    cmd.UpdateProperties? ==> PatchInverses(cmd.patch, c) != []
  }

  // ---------------------------------------------------------------- the undo executor

  /** applyInverseTx; None is an item reported as changed. */
  function ApplyInverse(c: Coll, inverse: Inverse): Option<Coll> {
    match inverse
    case RenameTo(name) => if c.name == name then None else Some(c.(name := name))
    case PinTo(pinned) => if c.pinned == pinned then None
      else Some(c.(pinned := pinned, pinnedBy := PinnedByOf(pinned)))
    case PublishTo(mode) => if c.publishMode == mode then None else Some(c.(publishMode := mode))
    case RestoreCollection => if c.archived then Some(c.(archived := false)) else None
    case ArchiveCollection => if c.archived then None else Some(c.(archived := true))
    case DropItem(n) => if n in c.items then Some(c.(items := c.items - {n})) else None
    case PutItem(n) => if n in c.items then None else Some(c.(items := c.items[n := true]))
    case DropExclusion(n) => if n in c.exclusions then Some(c.(exclusions := c.exclusions - {n})) else None
    case PutExclusion(n) => if n in c.exclusions then None else Some(c.(exclusions := c.exclusions + {n}))
    case PublishItemsTo(nodes, published) => if AnyStored(c, nodes) then Some(SetItemsPublished(c, nodes, published))
      else None
    case RevokeAccess(user) => if user in c.grants then Some(c.(grants := c.grants - {user})) else None
    case GrantAccess(user, role) => if role.Some? then Some(c.(grants := c.grants[user := role.value])) else None
    case NoExecutor => None
  }

  /** The statement of the inverse runs into a constraint, which fails the whole transaction. */
  predicate InverseRefused(c: Coll, inverse: Inverse, env: Env) {
    match inverse
    case RenameTo(name) => c.name != name && NameRefused(c, name, env)
    case RestoreCollection => c.archived && c.name in env.taken
    case PutItem(n) => Missing(c.items.Keys, n, env)
    case PutExclusion(n) => Missing(c.exclusions, n, env)
    case _ => false
  }

  /** Item by item, in list order; skipped items change nothing. */
  function ApplyItems(c: Coll, items: seq<Inverse>): (r: (Coll, nat))
    ensures r.1 <= |items|
  {
    if items == [] then (c, 0)
    else
      var done := ApplyItems(c, items[..|items| - 1]);
      var last := ApplyInverse(done.0, items[|items| - 1]);
      if last.Some? then (last.value, done.1 + 1) else done
  }

  /** All or nothing. */
  function ApplyAtomic(c: Coll, items: seq<Inverse>): Option<Coll> {
    if items == [] then Some(c)
    else
      var done := ApplyAtomic(c, items[..|items| - 1]);
      if done.Some? then ApplyInverse(done.value, items[|items| - 1]) else None
  }

  predicate ItemsRefused(c: Coll, items: seq<Inverse>, env: Env) {
    items != [] &&
    (ItemsRefused(c, items[..|items| - 1], env)
     || InverseRefused(ApplyItems(c, items[..|items| - 1]).0, items[|items| - 1], env))
  }

  predicate AtomicRefused(c: Coll, items: seq<Inverse>, env: Env) {
    items != [] &&
    (AtomicRefused(c, items[..|items| - 1], env)
     || var done := ApplyAtomic(c, items[..|items| - 1]);
       done.Some? && InverseRefused(done.value, items[|items| - 1], env))
  }

  predicate PayloadRefused(c: Coll, payload: Payload, env: Env) {
    if payload.items == [] then !payload.atomic && InverseRefused(c, payload.inverse, env)
    else if payload.atomic then AtomicRefused(c, payload.items, env)
    else ItemsRefused(c, payload.items, env)
  }

  /** applyCollectionInverse against the database; a throw is Refused, whether of the executor or of a constraint. */
  function Execute(c: Coll, payload: Payload, env: Env): Undo {
    if PayloadRefused(c, payload, env) then Refused else Apply(c, payload)
  }

  /** What the executor does when no constraint interferes. */
  function Apply(c: Coll, payload: Payload): Undo {
    if payload.items != [] then
      if payload.atomic then
        var done := ApplyAtomic(c, payload.items);
        if done.Some? then Reverted(done.value, |payload.items|, 0) else Refused
      else
        var done := ApplyItems(c, payload.items);
        Reverted(done.0, done.1, |payload.items| - done.1)
    else if payload.atomic then Refused
    else
      var done := ApplyInverse(c, payload.inverse);
      if done.Some? then Reverted(done.value, 1, 0) else Refused
  }

  /** Executing the recorded inverse right after the command gives the collection back. */
  predicate Reversible(cmd: Command, c: Coll) {
    var undo := Apply(Do(cmd, c), InverseOf(cmd, c));
    undo.Reverted? && undo.state == c
  }

  // ---------------------------------------------------------------- batches, as the transactions run them

  /** The pre-read of a batch add. */
  method SplitMembers(c: Coll, nodes: seq<NodeId>) returns (alreadyMembers: seq<NodeId>, toInsert: seq<NodeId>)
    ensures toInsert == NotStored(c, nodes)
    ensures forall n :: n in alreadyMembers <==> n in nodes && n in c.items
  {
    alreadyMembers, toInsert := [], [];
    for i := 0 to |nodes|
      invariant toInsert == NotStored(c, nodes[..i])
      invariant forall n :: n in alreadyMembers <==> n in nodes[..i] && n in c.items
    {
      assert nodes[..i + 1][..i] == nodes[..i] && nodes[..i + 1] == nodes[..i] + [nodes[i]];
      if nodes[i] in c.items {
        alreadyMembers := alreadyMembers + [nodes[i]];
      } else {
        toInsert := toInsert + [nodes[i]];
      }
    }
    assert nodes[..|nodes|] == nodes;
  }

  /** Inserts row by row, up to a foreign key that fails; `added` are the inserts that changed something. */
  method InsertNew(c: Coll, toInsert: seq<NodeId>, published: bool, env: Env)
    returns (ok: bool, d: Coll, added: seq<NodeId>)
    ensures ok <==> forall n :: n in toInsert ==> !Missing(c.items.Keys, n, env)
    ensures ok ==> d == InsertItems(c, toInsert, published)
    ensures ok ==> NoDup(added) && forall n :: n in added <==> n in toInsert && n !in c.items
  {
    added := [];
    d := c;
    for i := 0 to |toInsert|
      invariant forall n :: n in toInsert[..i] ==> !Missing(c.items.Keys, n, env)
      invariant d == InsertItems(c, toInsert[..i], published)
      invariant NoDup(added) && forall n :: n in added <==> n in toInsert[..i] && n !in c.items
      invariant forall n :: n in d.items <==> n in c.items || n in toInsert[..i]
    {
      var n := toInsert[i];
      assert toInsert[..i + 1][..i] == toInsert[..i] && toInsert[..i + 1] == toInsert[..i] + [n];
      if Missing(d.items.Keys, n, env) {
        assert n in toInsert && n !in toInsert[..i];
        return false, c, [];
      }
      if n !in d.items {
        added := added + [n];
      }
      d := InsertItem(d, n, published);
    }
    assert toInsert[..|toInsert|] == toInsert;
    ok := true;
  }

  /** The whole batch goes in, a repeated id counted once, or a node that does not exist fails it. */
  method RunAddItems(c: Coll, nodes: seq<NodeId>, published: bool, env: Env)
    returns (ok: bool, d: Coll, payload: Payload, alreadyMembers: seq<NodeId>, added: seq<NodeId>)
    ensures ok <==> !CommandRefused(AddItems(nodes, published), c, env)
    ensures payload == InverseOf(AddItems(nodes, published), c)
    ensures ok ==> d == Do(AddItems(nodes, published), c)
    ensures forall n :: n in alreadyMembers <==> n in nodes && n in c.items
    ensures ok ==> NoDup(added) && forall n :: n in added <==> n in nodes && n !in c.items
  {
    var toInsert: seq<NodeId>;
    alreadyMembers, toInsert := SplitMembers(c, nodes);
    payload := Payload(NoExecutor, DropItems(toInsert), false);
    ok, d, added := InsertNew(c, toInsert, published, env);
    InsertNotStored(c, nodes, published);
    NotStoredElements(c, nodes);
    InsertVerdict(c, nodes, toInsert, published, env);
  }

  lemma InsertVerdict(c: Coll, nodes: seq<NodeId>, toInsert: seq<NodeId>, published: bool, env: Env)
    requires forall n :: n in toInsert <==> n in nodes && n !in c.items
    ensures (forall n :: n in toInsert ==> !Missing(c.items.Keys, n, env))
      <==> !CommandRefused(AddItems(nodes, published), c, env)
  {
  }

  lemma {:induction false} NotStoredElements(c: Coll, nodes: seq<NodeId>)
    ensures forall n :: n in NotStored(c, nodes) <==> n in nodes && n !in c.items
  {
    if nodes != [] {
      NotStoredElements(c, nodes[..|nodes| - 1]);
      assert nodes == nodes[..|nodes| - 1] + [nodes[|nodes| - 1]];
    }
  }

  lemma {:induction false} InsertNotStored(c: Coll, nodes: seq<NodeId>, published: bool)
    ensures InsertItems(c, NotStored(c, nodes), published) == InsertItems(c, nodes, published)
    ensures c.items.Keys <= InsertItems(c, nodes, published).items.Keys
  {
    if nodes != [] {
      var rest := NotStored(c, nodes[..|nodes| - 1]);
      InsertNotStored(c, nodes[..|nodes| - 1], published);
      var last := nodes[|nodes| - 1];
      assert (rest + [last])[..|rest|] == rest;
    }
  }

  method DeleteItems(c: Coll, stored: seq<NodeId>) returns (d: Coll, removed: seq<NodeId>)
    ensures d == c.(items := c.items - Elements(stored))
    ensures NoDup(removed) && forall n :: n in removed <==> n in stored && n in c.items
  {
    removed := [];
    d := c;
    assert c.items - Elements(stored[..0]) == c.items;
    for i := 0 to |stored|
      invariant d == c.(items := c.items - Elements(stored[..i]))
      invariant NoDup(removed) && forall n :: n in removed <==> n in stored[..i] && n in c.items
    {
      var n := stored[i];
      ElementsOfPrefix(stored, i);
      assert stored[..i + 1] == stored[..i] + [n];
      if n in d.items {
        removed := removed + [n];
      }
      assert d.items - {n} == c.items - Elements(stored[..i + 1]);
      d := d.(items := d.items - {n});
    }
    assert stored[..|stored|] == stored;
  }

  method InsertExclusions(c: Coll, exclude: seq<NodeId>, env: Env) returns (ok: bool, d: Coll, excluded: seq<NodeId>)
    ensures ok <==> forall n :: n in exclude ==> !Missing(c.exclusions, n, env)
    ensures ok ==> d == c.(exclusions := c.exclusions + Elements(exclude))
    ensures ok ==> NoDup(excluded) && forall n :: n in excluded <==> n in exclude && n !in c.exclusions
  {
    excluded := [];
    d := c;
    assert c.exclusions + Elements(exclude[..0]) == c.exclusions;
    for i := 0 to |exclude|
      invariant forall n :: n in exclude[..i] ==> !Missing(c.exclusions, n, env)
      invariant d == c.(exclusions := c.exclusions + Elements(exclude[..i]))
      invariant NoDup(excluded) && forall n :: n in excluded <==> n in exclude[..i] && n !in c.exclusions
    {
      var n := exclude[i];
      ElementsOfPrefix(exclude, i);
      assert exclude[..i + 1] == exclude[..i] + [n];
      if Missing(d.exclusions, n, env) {
        assert n in exclude && n !in c.exclusions;
        return false, c, [];
      }
      if n !in d.exclusions {
        excluded := excluded + [n];
      }
      assert d.exclusions + {n} == c.exclusions + Elements(exclude[..i + 1]);
      d := d.(exclusions := d.exclusions + {n});
    }
    assert exclude[..|exclude|] == exclude;
    ok := true;
  }

  /** Deletes stored rows and inserts exclusions, then pins an unpinned system collection. */
  method RunRemoveItems(c: Coll, stored: seq<NodeId>, exclude: seq<NodeId>, env: Env)
    returns (ok: bool, d: Coll, removed: seq<NodeId>, excluded: seq<NodeId>)
    ensures ok <==> !CommandRefused(RemoveItems(stored, exclude), c, env)
    ensures ok ==> d == Do(RemoveItems(stored, exclude), c)
    ensures NoDup(removed) && forall n :: n in removed <==> n in stored && n in c.items
    ensures ok ==> NoDup(excluded) && forall n :: n in excluded <==> n in exclude && n !in c.exclusions
  {
    d, removed := DeleteItems(c, stored);
    ok, d, excluded := InsertExclusions(d, exclude, env);
    d := AutoPin(d);
  }

  /** The executor registered for collections: lists item by item, atomic lists stop at the first item not applied. */
  method ApplyCollectionInverse(c: Coll, payload: Payload, env: Env) returns (undo: Undo)
    ensures undo == Execute(c, payload, env)
  {
    var items := payload.items;
    if items != [] {
      var d, applied, i := c, 0, 0;
      while i < |items|
        invariant 0 <= i <= |items| && applied <= i
        invariant Processed(c, items, payload.atomic, env, i, d, applied)
      {
        ProcessItem(c, items, payload.atomic, env, i, d, applied);
        if InverseRefused(d, items[i], env) {
          return Refused;
        }
        var outcome := ApplyInverse(d, items[i]);
        if outcome.None? && payload.atomic {
          return Refused;
        }
        if outcome.Some? {
          d, applied := outcome.value, applied + 1;
        }
        i := i + 1;
      }
      assert items[..|items|] == items;
      return Reverted(d, applied, |items| - applied);
    }
    if payload.atomic || InverseRefused(c, payload.inverse, env) {
      return Refused;
    }
    var outcome := ApplyInverse(c, payload.inverse);
    undo := if outcome.Some? then Reverted(outcome.value, 1, 0) else Refused;
  }

  /** The first `i` items went through and left `d`. */
  ghost predicate Processed(c: Coll, items: seq<Inverse>, atomic: bool, env: Env, i: nat, d: Coll, applied: nat)
    requires i <= |items|
  {
    if atomic then !AtomicRefused(c, items[..i], env) && ApplyAtomic(c, items[..i]) == Some(d) && applied == i
    else !ItemsRefused(c, items[..i], env) && ApplyItems(c, items[..i]) == (d, applied)
  }

  lemma ProcessItem(c: Coll, items: seq<Inverse>, atomic: bool, env: Env, i: nat, d: Coll, applied: nat)
    requires i < |items| && Processed(c, items, atomic, env, i, d, applied)
    ensures var outcome := ApplyInverse(d, items[i]);
      if InverseRefused(d, items[i], env)
        then (if atomic then AtomicRefused(c, items, env) else ItemsRefused(c, items, env))
      else if outcome.None? && atomic then ApplyAtomic(c, items).None?
      else if outcome.None? then Processed(c, items, atomic, env, i + 1, d, applied)
      else Processed(c, items, atomic, env, i + 1, outcome.value, applied + 1)
  {
    assert items[..i + 1][..i] == items[..i];
    RefusalStays(c, items, env, i + 1);
    if atomic && ApplyInverse(d, items[i]).None? {
      AtomicStops(c, items, i + 1);
    }
  }

  lemma {:induction false} AtomicStops(c: Coll, items: seq<Inverse>, i: nat)
    requires i <= |items| && ApplyAtomic(c, items[..i]).None?
    ensures ApplyAtomic(c, items).None?
    decreases |items| - i
  {
    if i < |items| {
      assert items[..i + 1][..i] == items[..i];
      AtomicStops(c, items, i + 1);
    } else {
      assert items[..i] == items;
    }
  }

  /** A constraint hit in the middle of a list fails the list. */
  lemma {:induction false} RefusalStays(c: Coll, items: seq<Inverse>, env: Env, i: nat)
    requires i <= |items|
    ensures AtomicRefused(c, items[..i], env) ==> AtomicRefused(c, items, env)
    ensures ItemsRefused(c, items[..i], env) ==> ItemsRefused(c, items, env)
    decreases |items| - i
  {
    if i < |items| {
      assert items[..i + 1][..i] == items[..i];
      RefusalStays(c, items, env, i + 1);
    } else {
      assert items[..i] == items;
    }
  }
}
