/** configResolver: env, then settings row, then default; and the TTL cache in front of the rows. */
module ConfigResolvers {
  import opened Common

  datatype Tier = T0 | T1 | T2

  datatype Entry = Entry(key: string, tier: Tier, dbOnly: bool, default: Option<string>)

  datatype Source = FromEnv | FromDb | FromDefault

  /** A cached row: None is a row known to be missing. */
  datatype Cached = Cached(value: Option<string>, loadedAt: nat)

  type Cache = map<string, Cached>
  type Env = map<string, string>

  // ---------------------------------------------------------------- answers

  predicate IsSet(value: Option<string>) {
    value.Some? && value.value != ""
  }

  /** What counts as operator-set: never for database-only keys nor for keys mirrored from the database. */
  function EnvValue(e: Entry, env: Env, dbSourced: set<string>): Option<string> {
    if !e.dbOnly && e.key !in dbSourced && e.key in env then Some(env[e.key]) else None
  }

  function Resolve(e: Entry, env: Env, dbSourced: set<string>, row: Option<string>): (Option<string>, Source) {
    var envValue := EnvValue(e, env, dbSourced);
    if IsSet(envValue) then (envValue, FromEnv)
    else if e.tier == T0 then (None, FromEnv)
    else if row.Some? then (row, FromDb)
    else (e.default, FromDefault)
  }

  // ---------------------------------------------------------------- the cache

  function CacheHit(cache: Cache, key: string, now: nat, ttl: nat): Option<Cached> {
    if key in cache && now - cache[key].loadedAt < ttl then Some(cache[key]) else None
  }

  function FillAll(cache: Cache, all: map<string, string>, now: nat): Cache {
    map key | key in cache.Keys + all.Keys :: if key in all then Cached(Some(all[key]), now) else cache[key]
  }

  function Dropped(cache: Cache, keys: Option<seq<string>>): Cache {
    if keys.None? then map[] else cache - Elements(keys.value)
  }

  ghost predicate EntriesUnique(registry: seq<Entry>) {
    forall i, k :: 0 <= i < k < |registry| ==> registry[i].key != registry[k].key
  }

  /** The keys populateT1Env copies: boot-frozen, not database-only, absent from env, with an answer. */
  predicate Mirrored(e: Entry, env: Env, dbSourced: set<string>, cache: Cache) {
    && e.tier == T1 && !e.dbOnly && e.key !in env
    && Resolve(e, env, dbSourced, SyncRow(cache, e.key)).0.Some?
  }

  /** The value of the cached row, or else the built-in default. */
  function RowOrDefault(cache: Cache, e: Entry): Option<string> {
    if e.key in cache && cache[e.key].value.Some? then cache[e.key].value else e.default
  }

  /** The row a synchronous read sees, whatever its age. */
  function SyncRow(cache: Cache, key: string): Option<string> {
    if key in cache then cache[key].value else None
  }

  class ConfigResolver {
    const registry: seq<Entry>
    var env: Env
    var cache: Cache
    var dbSourcedKeys: set<string>

    constructor (registry: seq<Entry>, env: Env)
      ensures this.registry == registry && this.env == env && cache == map[] && dbSourcedKeys == {}
    {
      this.registry, this.env, cache, dbSourcedKeys := registry, env, map[], {};
    }

    method InvalidateCache(keys: Option<seq<string>>)
      modifies this`cache
      ensures cache == Dropped(old(cache), keys)
      ensures forall key :: key in cache <==> (key in old(cache) && keys.Some? && key !in keys.value)
      ensures forall key :: key in cache ==> cache[key] == old(cache)[key]
    {
      if keys.None? {
        cache := map[];
        return;
      }
      var list := keys.value;
      assert old(cache) - Elements(list[..0]) == old(cache);
      for i := 0 to |list|
        invariant cache == old(cache) - Elements(list[..i])
      {
        ElementsOfPrefix(list, i);
        assert old(cache) - Elements(list[..i]) - {list[i]} == old(cache) - Elements(list[..i + 1]);
        cache := cache - {list[i]};
      }
      assert list[..|list|] == list;
    }

    /** The fill loop of loadAll and getEffectiveConfig. */
    method LoadRows(all: map<string, string>, now: nat)
      modifies this`cache
      ensures cache == FillAll(old(cache), all, now)
      ensures forall key :: key in all ==> key in cache && cache[key] == Cached(Some(all[key]), now)
      ensures forall key :: key !in all ==>
        (key in cache <==> key in old(cache)) && (key in cache ==> cache[key] == old(cache)[key])
    {
      var keys := Enumerate(all.Keys);
      for i := 0 to |keys|
        invariant cache.Keys == old(cache).Keys + Elements(keys[..i])
        invariant forall key :: key in cache ==>
          cache[key] == if key in keys[..i] then Cached(Some(all[key]), now) else old(cache)[key]
      {
        assert keys[i] in keys;
        ElementsOfPrefix(keys, i);
        assert keys[..i + 1] == keys[..i] + [keys[i]];
        cache := cache[keys[i] := Cached(Some(all[keys[i]]), now)];
      }
      assert keys[..|keys|] == keys;
    }

    function GetConfigSync(e: Entry): (Option<string>, Source)
      reads this
    {
      Resolve(e, env, dbSourcedKeys, SyncRow(cache, e.key))
    }

    /** Copies boot-frozen values into env and marks them; operator keys stay, and no answer of the resolver changes. */
    method PopulateT1Env() returns (populated: seq<string>)
      requires EntriesUnique(registry)
      modifies this`env, this`dbSourcedKeys
      ensures forall key :: key in old(env) ==> key in env && env[key] == old(env)[key]
      ensures forall key :: key in populated <==>
        (exists e :: e in registry && e.key == key && Mirrored(e, old(env), old(dbSourcedKeys), cache))
      ensures env.Keys == old(env).Keys + Elements(populated)
        && dbSourcedKeys == old(dbSourcedKeys) + Elements(populated)
      ensures forall e :: e in registry ==>
        if e.tier == T1 && !e.dbOnly && e.key !in old(env) && RowOrDefault(cache, e).Some?
        then e.key in populated && env[e.key] == RowOrDefault(cache, e).value else e.key !in populated
      ensures forall e, row :: e in registry ==>
        Resolve(e, env, dbSourcedKeys, row) == Resolve(e, old(env), old(dbSourcedKeys), row)
    {
      populated := [];
      for i := 0 to |registry|
        invariant dbSourcedKeys == old(dbSourcedKeys)
        invariant forall key :: key in old(env) ==> key in env && env[key] == old(env)[key]
        invariant env.Keys == old(env).Keys + Elements(populated)
        invariant forall key :: key in populated <==> MirroredBefore(registry, i, key, old(env), dbSourcedKeys, cache)
        invariant forall k :: 0 <= k < i && registry[k].key in populated ==>
          env[registry[k].key] == RowOrDefault(cache, registry[k]).value
      {
        var e := registry[i];
        assert !MirroredBefore(registry, i, e.key, old(env), dbSourcedKeys, cache);
        MirroredNext(registry, i, old(env), dbSourcedKeys, cache);
        if e.tier == T1 && !e.dbOnly && e.key !in env {
          var value := GetConfigSync(e).0;
          if value.Some? {
            env := env[e.key := value.value];
            assert Elements(populated + [e.key]) == Elements(populated) + {e.key};
            populated := populated + [e.key];
          }
        }
      }
      dbSourcedKeys := dbSourcedKeys + Elements(populated);
      forall key | key in populated ensures key !in old(env) {
      }
      AllMirrored(registry, populated, old(env), old(dbSourcedKeys), cache);
    }
  }

  ghost predicate MirroredBefore(registry: seq<Entry>, i: nat, key: string, env: Env, dbSourced: set<string>,
      cache: Cache)
    requires i <= |registry|
  {
    exists k :: 0 <= k < i && registry[k].key == key && Mirrored(registry[k], env, dbSourced, cache)
  }

  lemma MirroredNext(registry: seq<Entry>, i: nat, env: Env, dbSourced: set<string>, cache: Cache)
    requires i < |registry|
    ensures forall key :: (MirroredBefore(registry, i + 1, key, env, dbSourced, cache)
      <==> (MirroredBefore(registry, i, key, env, dbSourced, cache)
            || (key == registry[i].key && Mirrored(registry[i], env, dbSourced, cache))))
  {
    forall key | MirroredBefore(registry, i, key, env, dbSourced, cache)
      ensures MirroredBefore(registry, i + 1, key, env, dbSourced, cache) {
      var k :| 0 <= k < i && registry[k].key == key && Mirrored(registry[k], env, dbSourced, cache);
      assert 0 <= k < i + 1;
    }
  }

  lemma AllMirrored(registry: seq<Entry>, populated: seq<string>, env: Env, dbSourced: set<string>, cache: Cache)
    requires EntriesUnique(registry)
    requires forall key :: key in populated <==> MirroredBefore(registry, |registry|, key, env, dbSourced, cache)
    ensures forall key :: key in populated <==>
      exists e :: e in registry && e.key == key && Mirrored(e, env, dbSourced, cache)
    ensures forall e :: e in registry ==> (e.key in populated <==>
      e.tier == T1 && !e.dbOnly && e.key !in env && RowOrDefault(cache, e).Some?)
  {
    forall key ensures key in populated
      <==> exists e :: e in registry && e.key == key && Mirrored(e, env, dbSourced, cache) {
      MirroredAll(registry, key, env, dbSourced, cache);
    }
  }

  lemma MirroredAll(registry: seq<Entry>, key: string, env: Env, dbSourced: set<string>, cache: Cache)
    ensures MirroredBefore(registry, |registry|, key, env, dbSourced, cache)
      <==> exists e :: e in registry && e.key == key && Mirrored(e, env, dbSourced, cache)
  {
  }
}
