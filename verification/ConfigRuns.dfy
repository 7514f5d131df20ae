/** Interleaved reads, writes, invalidations and clock steps: how stale can a configuration answer be? */
module ConfigRuns {
  import opened Common
  import opened ConfigResolvers

  /** A read in progress, suspended at its await. */
  datatype Reader =
    | Asked(key: string, stamp: nat)
    | Fetched(key: string, stamp: nat, value: Option<string>)
    | AskedAll
    | FetchedAll(all: map<string, string>, readAt: nat)

  /** `gone` says when a row last stopped holding a value. */
  datatype State = State(db: map<string, string>, gone: map<(string, Option<string>), nat>, cache: Cache,
                         readers: map<nat, Reader>, now: nat)

  datatype Event =
    | Write(key: string, value: Option<string>)
    | Tick(ms: nat)
    | Invalidate(keys: Option<seq<string>>)
    | Hit(key: string, value: Option<string>)
    | Ask(r: nat, key: string)
    | Fetch(r: nat)
    | Fill(r: nat)
    | AskRows(r: nat)
    | FetchRows(r: nat)
    | FillRows(r: nat)

  function RowOf(db: map<string, string>, key: string): Option<string> {
    if key in db then Some(db[key]) else None
  }

  /** One step. A hit answers at once; a miss stamps the clock, reads the store and fills the cache in three steps. */
  ghost predicate Next(s: State, e: Event, u: State, ttl: nat) {
    match e
    case Write(key, value) =>
      u == s.(db := if value.Some? then s.db[key := value.value] else s.db - {key},
              gone := s.gone[(key, RowOf(s.db, key)) := s.now])
    case Tick(ms) => u == s.(now := s.now + ms)
    case Invalidate(keys) => u == s.(cache := Dropped(s.cache, keys))
    case Hit(key, value) => CacheHit(s.cache, key, s.now, ttl).Some? && s.cache[key].value == value && u == s
    case Ask(r, key) =>
      r !in s.readers && CacheHit(s.cache, key, s.now, ttl).None?
        && u == s.(readers := s.readers[r := Asked(key, s.now)])
    case Fetch(r) =>
      r in s.readers && s.readers[r].Asked?
      && u == s.(readers :=
        s.readers[r := Fetched(s.readers[r].key, s.readers[r].stamp, RowOf(s.db, s.readers[r].key))])
    case Fill(r) =>
      r in s.readers && s.readers[r].Fetched?
      && u == s.(cache := s.cache[s.readers[r].key := Cached(s.readers[r].value, s.readers[r].stamp)],
        readers := s.readers - {r})
    case AskRows(r) => r !in s.readers && u == s.(readers := s.readers[r := AskedAll])
    case FetchRows(r) => r in s.readers && s.readers[r].AskedAll?
      && u == s.(readers := s.readers[r := FetchedAll(s.db, s.now)])
    case FillRows(r) =>
      r in s.readers && s.readers[r].FetchedAll?
      && u == s.(cache := FillAll(s.cache, s.readers[r].all, s.now), readers := s.readers - {r})
  }

  /** The row of `key` held `value` at some moment at or after `t`. */
  ghost predicate HeldSince(s: State, key: string, value: Option<string>, t: int) {
    RowOf(s.db, key) == value || ((key, value) in s.gone && s.gone[(key, value)] >= t)
  }

  /** A cached value was in the store at most `lag` before its stamp. */
  ghost predicate CacheHonest(s: State, lag: nat) {
    forall key :: key in s.cache ==>
      s.cache[key].loadedAt <= s.now && HeldSince(s, key, s.cache[key].value, s.cache[key].loadedAt - lag)
  }

  ghost predicate ReaderHonest(s: State, reader: Reader) {
    match reader
    case Asked(_, stamp) => stamp <= s.now
    case Fetched(key, stamp, value) => stamp <= s.now && HeldSince(s, key, value, stamp)
    case AskedAll => true
    case FetchedAll(all, readAt) => readAt <= s.now && forall key :: key in all ==>
      HeldSince(s, key, Some(all[key]), readAt)
  }

  ghost predicate Inv(s: State, lag: nat) {
    CacheHonest(s, lag) && forall r :: r in s.readers ==> ReaderHonest(s, s.readers[r])
  }

  /** No bulk read takes longer than `lag` between the store and the cache. */
  ghost predicate Prompt(s: State, e: Event, lag: nat) {
    e.FillRows? && e.r in s.readers && s.readers[e.r].FetchedAll? ==> s.now - s.readers[e.r].readAt <= lag
  }

  lemma WriteKeepsHeld(s: State, u: State, e: Event, ttl: nat, key: string, value: Option<string>, t: int)
    requires Next(s, e, u, ttl) && HeldSince(s, key, value, t) && t <= s.now
    ensures HeldSince(u, key, value, t)
  {
  }

  lemma StepKeepsReaders(s: State, e: Event, u: State, ttl: nat)
    requires Next(s, e, u, ttl) && forall r :: r in s.readers ==> ReaderHonest(s, s.readers[r])
    ensures forall r :: r in u.readers ==> ReaderHonest(u, u.readers[r])
  {
  }

  lemma StepKeepsInv(s: State, e: Event, u: State, ttl: nat, lag: nat)
    requires Inv(s, lag) && Next(s, e, u, ttl) && Prompt(s, e, lag)
    ensures Inv(u, lag)
  {
    StepKeepsReaders(s, e, u, ttl);
    forall key | key in u.cache
      ensures u.cache[key].loadedAt <= u.now && HeldSince(u, key, u.cache[key].value, u.cache[key].loadedAt - lag)
    {
      if key in s.cache && u.cache[key] == s.cache[key] {
        WriteKeepsHeld(s, u, e, ttl, key, s.cache[key].value, s.cache[key].loadedAt - lag);
      } else {
        var reader := s.readers[e.r];
        assert ReaderHonest(s, reader);
      }
    }
  }

  ghost predicate IsRun(states: seq<State>, events: seq<Event>, ttl: nat) {
    && |states| == |events| + 1 && states[0].cache == map[] && states[0].readers == map[]
    && forall i :: 0 <= i < |events| ==> Next(states[i], events[i], states[i + 1], ttl)
  }

  lemma {:induction false} RunsKeepInv(states: seq<State>, events: seq<Event>, ttl: nat, lag: nat, i: nat)
    requires IsRun(states, events, ttl) && i < |states|
    requires forall k :: 0 <= k < |events| ==> Prompt(states[k], events[k], lag)
    ensures Inv(states[i], lag)
    decreases i
  {
    if i > 0 {
      RunsKeepInv(states, events, ttl, lag, i - 1);
      StepKeepsInv(states[i - 1], events[i - 1], states[i], ttl, lag);
    }
  }

  /** The answer of a read through is a value the store held during the call. */
  ghost predicate AnswersRead(s: State, r: nat) {
    && r in s.readers && s.readers[r].Fetched?
    && HeldSince(s, s.readers[r].key, s.readers[r].value, s.readers[r].stamp)
  }

  /**
   * An answer from the cache was in the store less than ttl + lag ago; an answer read through was in the
   * store while the call ran. Invalidations may land anywhere, also between a store read and its cache fill.
   */
  lemma AnswersFresh(states: seq<State>, events: seq<Event>, ttl: nat, lag: nat, i: nat)
    requires IsRun(states, events, ttl) && i < |events|
    requires forall k :: 0 <= k < |events| ==> Prompt(states[k], events[k], lag)
    ensures events[i].Hit? ==> HeldSince(states[i], events[i].key, events[i].value, states[i].now - ttl - lag + 1)
    ensures events[i].Fill? ==> AnswersRead(states[i], events[i].r)
  {
    RunsKeepInv(states, events, ttl, lag, i);
    assert Next(states[i], events[i], states[i + 1], ttl);
    if events[i].Fill? {
      assert ReaderHonest(states[i], states[i].readers[events[i].r]);
    }
  }

  /** Without bulk reads the bound is the time to live alone. */
  lemma SingleReadsFresh(states: seq<State>, events: seq<Event>, ttl: nat, i: nat)
    requires IsRun(states, events, ttl) && i < |events| && events[i].Hit?
    requires forall k :: 0 <= k < |events| ==> !events[k].FillRows?
    ensures HeldSince(states[i], events[i].key, events[i].value, states[i].now - ttl + 1)
  {
    AnswersFresh(states, events, ttl, 0, i);
  }

  /** Set by the operator: in the environment, not empty, and neither database-only nor mirrored from the database. */
  predicate OperatorSet(e: Entry, env: Env, dbSourced: set<string>) {
    e.key in env && env[e.key] != "" && !e.dbOnly && e.key !in dbSourced
  }

  /**
   * What a read of an entry answers: the operator's value whatever the rows hold; nothing for a bootstrap key; else a
   * value its row held within the bound, or the default where the row was missing within it.
   */
  ghost predicate AnswerFits(s: State, e: Entry, env: Env, dbSourced: set<string>, answer: Option<string>, since: int) {
    if OperatorSet(e, env, dbSourced) then answer == Some(env[e.key])
    else if e.tier == T0 then answer == None
    else
      || (answer.Some? && HeldSince(s, e.key, answer, since))
      || (answer == e.default && HeldSince(s, e.key, None, since))
  }

  /** The read that answers with this step, from the cache or through, found that row. */
  ghost predicate RowRead(s: State, event: Event, key: string, row: Option<string>) {
    || event == Hit(key, row)
    || (event.Fill? && event.r in s.readers && s.readers[event.r].Fetched? && s.readers[event.r].key == key
        && s.readers[event.r].value == row)
  }

  /** How old the row may be: from the start of the call when read through. */
  ghost function ReadSince(s: State, event: Event, ttl: nat, lag: nat): int {
    if event.Fill? && event.r in s.readers && s.readers[event.r].Fetched? then s.readers[event.r].stamp
    else s.now - ttl - lag + 1
  }

  /** In every run, whatever is written meanwhile, answers follow the order of precedence on rows fresh enough. */
  lemma AnswersFollowPrecedence(states: seq<State>, events: seq<Event>, ttl: nat, lag: nat, i: nat, e: Entry, env: Env,
      dbSourced: set<string>, row: Option<string>)
    requires IsRun(states, events, ttl) && i < |events| && RowRead(states[i], events[i], e.key, row)
    requires forall k :: 0 <= k < |events| ==> Prompt(states[k], events[k], lag)
    ensures AnswerFits(states[i], e, env, dbSourced, Resolve(e, env, dbSourced, row).0,
                       ReadSince(states[i], events[i], ttl, lag))
  {
    AnswersFresh(states, events, ttl, lag, i);
  }

  /** The source named with an answer is the one it came from. */
  lemma SourcesNamed(e: Entry, env: Env, dbSourced: set<string>, row: Option<string>)
    ensures Resolve(e, env, dbSourced, row).1 == FromEnv <==> OperatorSet(e, env, dbSourced) || e.tier == T0
    ensures Resolve(e, env, dbSourced, row).1 == FromDb <==>
      !OperatorSet(e, env, dbSourced) && e.tier != T0 && row.Some?
  {
  }

  /** A bulk fill keeps the stamps honest exactly when every row it writes still held its value at the fill. */
  lemma BulkFillHonestIff(s: State, r: nat, u: State, ttl: nat)
    requires Inv(s, 0) && Next(s, FillRows(r), u, ttl)
    ensures CacheHonest(u, 0)
      <==> forall key :: key in s.readers[r].all ==> HeldSince(s, key, Some(s.readers[r].all[key]), s.now)
  {
    var all := s.readers[r].all;
    if CacheHonest(u, 0) {
      forall key | key in all ensures HeldSince(s, key, Some(all[key]), s.now) {
        assert key in u.cache && u.cache[key] == Cached(Some(all[key]), s.now);
        assert HeldSince(u, key, u.cache[key].value, u.cache[key].loadedAt);
      }
    }
  }

  /** A bulk read that takes `lag` after its row was overwritten serves the old row until just before ttl + lag. */
  lemma BulkBoundIsReached(ttl: nat, lag: nat, key: string, was: string, latest: string)
      returns (states: seq<State>, events: seq<Event>)
    requires ttl > 0 && was != latest
    ensures IsRun(states, events, ttl) && forall k :: 0 <= k < |events| ==> Prompt(states[k], events[k], lag)
    ensures |events| > 0 && events[|events| - 1] == Hit(key, Some(was))
    ensures var s := states[|events| - 1];
      RowOf(s.db, key) == Some(latest) && (key, Some(was)) in s.gone
        && s.now - s.gone[(key, Some(was))] == ttl + lag - 1
  {
    var s0 := State(map[key := was], map[], map[], map[], 0);
    var s1 := s0.(readers := map[0 := AskedAll]);
    var s2 := s1.(readers := map[0 := FetchedAll(s0.db, 0)]);
    var s3 := s2.(db := s2.db[key := latest], gone := map[(key, Some(was)) := 0]);
    var s4 := s3.(now := lag);
    var s5 := s4.(cache := map[key := Cached(Some(was), lag)], readers := map[]);
    var s6 := s5.(now := lag + (ttl - 1));
    states := [s0, s1, s2, s3, s4, s5, s6, s6];
    events :=
      [AskRows(0), FetchRows(0), Write(key, Some(latest)), Tick(lag), FillRows(0), Tick(ttl - 1), Hit(key, Some(was))];
    assert s0.readers[0 := AskedAll] == s1.readers;
    assert s1.readers[0 := FetchedAll(s0.db, 0)] == s2.readers;
    assert s4.readers - {0} == map[];
    assert FillAll(map[], map[key := was], lag) == map[key := Cached(Some(was), lag)];
  }
}
