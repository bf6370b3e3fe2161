/** Falco rules: the first one that matches an event decides, and the list of rules is cached
    for a minute per cluster. */
module FalcoRules {
  import opened Wrappers
  import opened Text

  datatype Rule = Rule(id: nat, createdAt: int, deleted: bool, action: string,
    falcoRule: string, image: string, allNamespaces: bool, namespaces: seq<string>,
    allClusters: bool, clusters: set<nat>)

  type Table = map<nat, Rule>

  datatype Event = Event(namespace: Option<string>, rule: string, image: string)

  /** Whether a regular expression matches somewhere in a text. */
  type Matcher = (string, string) -> bool

  // ---------- the rules of a cluster ----------

  /** The cluster 0 asks for the rules of all clusters. */
  predicate IsActive(r: Rule, cluster: nat) {
    !r.deleted && (cluster == 0 || r.allClusters || cluster in r.clusters)
  }

  ghost predicate HasRule(t: Table, cluster: nat, r: Rule) {
    r.id in t && t[r.id] == r && IsActive(r, cluster)
  }

  /** A result of the query: the active rules, each once, in order of creation. Rules created
      at the same instant come in any order. */
  ghost predicate IsActiveList(t: Table, cluster: nat, list: seq<Rule>) {
    && (forall r :: r in list <==> HasRule(t, cluster, r))
    && (forall i, j :: 0 <= i < j < |list| ==> list[i].createdAt <= list[j].createdAt && list[i] != list[j])
  }

  predicate NamesNamespace(namespaces: seq<string>, namespace: string) {
    exists n :: n in namespaces && Trim(n) == Trim(namespace)
  }

  predicate Matches(m: Matcher, r: Rule, e: Event) {
    && (r.allNamespaces || (e.namespace.Some? && NamesNamespace(r.namespaces, e.namespace.value)))
    && (r.falcoRule == "" || m(Trim(r.falcoRule), Trim(e.rule)))
    && (r.image == "" || m(r.image, e.image))
  }

  /** The action of a rule that matches and that no matching rule was created before, or
      nothing when no rule matches. */
  ghost predicate IsVerdict(m: Matcher, t: Table, cluster: nat, e: Event, action: Option<string>) {
    match action
    case Some(a) =>
      exists r :: HasRule(t, cluster, r) && Matches(m, r, e) && r.action == a &&
        forall q :: HasRule(t, cluster, q) && Matches(m, q, e) ==> r.createdAt <= q.createdAt
    case None => forall r :: HasRule(t, cluster, r) ==> !Matches(m, r, e)
  }

  /** Which stored rules are for an event of a cluster: those not deleted, for the cluster or for
      all, whose namespaces, rule name and image, as far as they are given, fit the event. */
  lemma RuleIsFor(m: Matcher, t: Table, cluster: nat, r: Rule, e: Event)
    ensures HasRule(t, cluster, r) && Matches(m, r, e) <==>
      && r.id in t && t[r.id] == r && !r.deleted
      && (cluster == 0 || r.allClusters || cluster in r.clusters)
      && (r.allNamespaces || (e.namespace.Some? && exists n :: n in r.namespaces && Trim(n) == Trim(e.namespace.value)))
      && (r.falcoRule == "" || m(Trim(r.falcoRule), Trim(e.rule)))
      && (r.image == "" || m(r.image, e.image))
  {
  }

  method FirstMatch(m: Matcher, list: seq<Rule>, e: Event) returns (action: Option<string>)
    ensures action == FirstAction(m, list, e)
  {
    for i := 0 to |list|
      invariant FirstAction(m, list[i..], e) == FirstAction(m, list, e)
    {
      if Matches(m, list[i], e) {
        return Some(list[i].action);
      }
    }
    action := None;
  }

  function FirstAction(m: Matcher, list: seq<Rule>, e: Event): Option<string> {
    if list == [] then None
    else if Matches(m, list[0], e) then Some(list[0].action)
    else FirstAction(m, list[1..], e)
  }

  lemma {:induction false} FirstActionFound(m: Matcher, list: seq<Rule>, e: Event) returns (i: nat)
    ensures i <= |list| && forall j :: 0 <= j < i ==> !Matches(m, list[j], e)
    ensures FirstAction(m, list, e) == if i < |list| then Some(list[i].action) else None
    ensures i < |list| ==> Matches(m, list[i], e)
  {
    if list == [] || Matches(m, list[0], e) {
      i := 0;
    } else {
      i := FirstActionFound(m, list[1..], e);
      i := i + 1;
    }
  }

  /** Searching any result of the query gives a right verdict. */
  lemma FirstActionIsVerdict(m: Matcher, t: Table, cluster: nat, list: seq<Rule>, e: Event)
    requires IsActiveList(t, cluster, list)
    ensures IsVerdict(m, t, cluster, e, FirstAction(m, list, e))
  {
    var i := FirstActionFound(m, list, e);
    forall q | HasRule(t, cluster, q) && Matches(m, q, e)
      ensures i < |list| && list[i].createdAt <= q.createdAt
    {
      var k :| 0 <= k < |list| && list[k] == q;
    }
    if i < |list| {
      assert HasRule(t, cluster, list[i]);
    }
  }

  // ---------- the cache ----------

  const CACHE_MS := 60000

  /** Data that is good until some instant. */
  datatype DataCache<T> = DataCache(data_: T, expiresAt: int) {
    static function CacheFor(data: T, now: int, expiresIn: int): DataCache<T> {
      DataCache(data, now + expiresIn)
    }

    predicate Expired(now: int) {
      now >= expiresAt
    }

    function Data(now: int): Option<T> {
      if Expired(now) then None else Some(data_)
    }
  }

  /** What the cache has to offer. Of no rules the query makes `null`, which passes for nothing
      cached. */
  function Offered(cache: DataCache<seq<Rule>>, now: int): Option<seq<Rule>> {
    var list :- cache.Data(now);
    if list == [] then None else Some(list)
  }

  /** A list of rules, the table it was read from, when that was, and when it was stored. */
  datatype Reading = Reading(cluster: nat, table: Table, list: seq<Rule>, readAt: int, storedAt: int)

  ghost function CacheOf(r: Reading): DataCache<seq<Rule>> {
    DataCache(r.list, r.storedAt + CACHE_MS)
  }

  ghost predicate IsReading(r: Reading, cluster: nat) {
    r.cluster == cluster && IsActiveList(r.table, cluster, r.list) && r.readAt <= r.storedAt
  }

  class FalcoService {
    var ruleCache: map<nat, DataCache<seq<Rule>>>
    ghost var readings: seq<Reading>
    ghost var clock: int

    constructor (ghost now: int)
      ensures Valid() && ruleCache == map[] && readings == [] && clock == now
    {
      ruleCache, readings, clock := map[], [], now;
    }

    /** Every cached list was read for its own cluster and stored a minute before it expires. */
    ghost predicate Valid()
      reads this
    {
      && (forall c :: c in ruleCache ==> exists r :: r in readings && IsReading(r, c) && ruleCache[c] == CacheOf(r))
      && (forall r :: r in readings ==> r.storedAt <= clock)
    }

    /** `fromDb` is what the query returns if it is asked, at `readAt`, from a table that then
        stands as `table`; `later` is the clock when the answer is stored. */
    method ListActiveFalcoRulesForCluster(cluster: nat, useCached: bool, now: int, ghost readAt: int, later: int,
        ghost table: Table, fromDb: seq<Rule>) returns (rules: seq<Rule>, ghost reading: Reading)
      requires Valid() && clock <= now <= readAt <= later && IsActiveList(table, cluster, fromDb)
      modifies this
      ensures Valid() && old(readings) <= readings && clock <= later
      ensures reading in readings && IsReading(reading, cluster) && rules == reading.list
      ensures now - CACHE_MS < reading.storedAt <= clock
      ensures (clock == now && reading.storedAt <= now) || reading == Reading(cluster, table, fromDb, readAt, later)
      ensures !useCached || rules == [] ==> reading == Reading(cluster, table, fromDb, readAt, later)
      ensures forall c :: c != cluster ==> (c in ruleCache <==> c in old(ruleCache))
      ensures forall c :: c != cluster && c in ruleCache ==> ruleCache[c] == old(ruleCache)[c]
    {
      hide IsActiveList;
      clock := now;
      if useCached && cluster in ruleCache {
        var cachedData := Offered(ruleCache[cluster], now);
        if cachedData.Some? {
          rules := cachedData.value;
          reading :| reading in readings && IsReading(reading, cluster) && ruleCache[cluster] == CacheOf(reading);
          return;
        }
      }
      rules := fromDb;
      ruleCache := ruleCache[cluster := DataCache<seq<Rule>>.CacheFor(rules, later, CACHE_MS)];
      reading := Reading(cluster, table, rules, readAt, later);
      clock := later;
      readings := readings + [reading];
      assert reading in readings && forall r :: r in old(readings) ==> r in readings;
    }

    /** The verdict is right for the table as some reading of this cluster found it: one that
        was stored less than a minute before now, or the one made for this check. */
    method CheckRules(m: Matcher, cluster: nat, e: Event, now: int, ghost readAt: int, later: int,
        ghost table: Table, fromDb: seq<Rule>) returns (action: Option<string>)
      requires Valid() && clock <= now <= readAt <= later && IsActiveList(table, cluster, fromDb)
      modifies this
      ensures Valid() && old(readings) <= readings && clock <= later
      ensures exists r :: && r in readings && IsReading(r, cluster) && IsVerdict(m, r.table, cluster, e, action)
                          && ((now - CACHE_MS < r.storedAt <= now) ||
                              r == Reading(cluster, table, fromDb, readAt, later))
    {
      var rules;
      ghost var reading;
      rules, reading := ListActiveFalcoRulesForCluster(cluster, true, now, readAt, later, table, fromDb);
      action := FirstMatch(m, rules, e);
      FirstActionIsVerdict(m, reading.table, cluster, rules, e);
    }
  }

  // ---------- runs with overlapping requests ----------

  /** What happens at one instant: somebody changes the rules, a request reads them from the
      database, a request that has read them stores them in the cache, or a request finds
      them there. A request that reads is answered with what it read. */
  datatype Action = Edit(table: Table) | Read(cluster: nat, list: seq<Rule>) | Store(pending: nat) | Hit(cluster: nat)

  /** A list on its way into the cache, and one in it, with the steps that read and stored it. */
  datatype Pending = Pending(cluster: nat, list: seq<Rule>, readStep: nat)

  datatype Entry = Entry(list: seq<Rule>, readStep: nat, storeStep: nat, cache: DataCache<seq<Rule>>)

  datatype State = State(table: Table, cache: map<nat, Entry>, pending: seq<Pending>)

  ghost predicate Enabled(s: State, a: Action, now: int) {
    match a
    case Edit(_) => true
    case Read(cluster, list) => IsActiveList(s.table, cluster, list)
    case Store(i) => i < |s.pending|
    case Hit(cluster) => cluster in s.cache && Offered(s.cache[cluster].cache, now).Some?
  }

  ghost function Next(s: State, a: Action, now: int, step: nat): State
    requires Enabled(s, a, now)
  {
    match a
    case Edit(table) => s.(table := table)
    case Read(cluster, list) => s.(pending := s.pending + [Pending(cluster, list, step)])
    case Store(i) =>
      var p := s.pending[i];
      var e := Entry(p.list, p.readStep, step, DataCache<seq<Rule>>.CacheFor(p.list, now, CACHE_MS));
      s.(cache := s.cache[p.cluster := e], pending := s.pending[..i] + s.pending[i + 1..])
    case Hit(_) => s
  }

  datatype Run = Run(states: seq<State>, actions: seq<Action>, clock: seq<int>)

  ghost predicate IsRun(r: Run) {
    && |r.states| == |r.actions| + 1 && |r.clock| == |r.actions|
    && r.states[0].cache == map[] && r.states[0].pending == []
    && (forall i, j :: 0 <= i < j < |r.clock| ==> r.clock[i] <= r.clock[j])
    && (forall i :: 0 <= i < |r.actions| ==> Enabled(r.states[i], r.actions[i], r.clock[i]))
    && (forall i :: 0 <= i < |r.actions| ==> r.states[i + 1] == Next(r.states[i], r.actions[i], r.clock[i], i))
  }

  ghost predicate WasRead(r: Run, cluster: nat, list: seq<Rule>, step: nat, before: nat) {
    && step < before <= |r.actions| && |r.states| == |r.actions| + 1
    && r.actions[step] == Read(cluster, list) && IsActiveList(r.states[step].table, cluster, list)
  }

  ghost predicate EntryIsTraced(r: Run, cluster: nat, e: Entry, before: nat) {
    && WasRead(r, cluster, e.list, e.readStep, e.storeStep) && e.storeStep < before && before <= |r.clock|
    && e.cache == DataCache(e.list, r.clock[e.storeStep] + CACHE_MS)
  }

  ghost predicate IsTraced(r: Run, i: nat)
    requires i < |r.states|
  {
    && (forall c :: c in r.states[i].cache ==> EntryIsTraced(r, c, r.states[i].cache[c], i))
    && (forall p :: p in r.states[i].pending ==> WasRead(r, p.cluster, p.list, p.readStep, i))
  }

  lemma StepIsTraced(r: Run, i: nat)
    requires IsRun(r) && i < |r.actions| && IsTraced(r, i)
    ensures IsTraced(r, i + 1)
  {
    var s, s', a := r.states[i], r.states[i + 1], r.actions[i];
    assert Enabled(s, a, r.clock[i]) && s' == Next(s, a, r.clock[i], i);
    hide IsActiveList;
    forall p | p in s'.pending ensures WasRead(r, p.cluster, p.list, p.readStep, i + 1) {
      assert p in s.pending || (a.Read? && p == Pending(a.cluster, a.list, i));
    }
    forall c | c in s'.cache ensures EntryIsTraced(r, c, s'.cache[c], i + 1) {
      if a.Store? && c == s.pending[a.pending].cluster {
        assert s.pending[a.pending] in s.pending;
      } else {
        assert c in s.cache && s'.cache[c] == s.cache[c];
      }
    }
  }

  lemma {:induction false} RunIsTraced(r: Run, i: nat)
    requires IsRun(r) && i < |r.states|
    ensures IsTraced(r, i)
  {
    if i > 0 {
      RunIsTraced(r, i - 1);
      StepIsTraced(r, i - 1);
    }
  }

  /** On any run of overlapping requests, edits and a clock that does not run back: a list
      found in the cache was read for the same cluster, from the table as it stood at an
      earlier step, and stored less than a minute ago. */
  lemma HitsAreRecent(r: Run, i: nat)
    requires IsRun(r) && i < |r.actions| && r.actions[i].Hit?
    ensures var c := r.actions[i].cluster;
            var e := r.states[i].cache[c];
      && Offered(e.cache, r.clock[i]) == Some(e.list)
      && e.readStep < e.storeStep < i && r.clock[i] - 60000 < r.clock[e.storeStep] <= r.clock[i]
      && r.actions[e.readStep] == Read(c, e.list) && IsActiveList(r.states[e.readStep].table, c, e.list)
  {
    RunIsTraced(r, i);
  }

  /** How stale a cached list can get: what is in the cache is served only at ages under a bound
      exactly when it is empty, and so never served, or the bound allows a minute on top of the
      time its reading took. So a list with rules is never served a minute after its reading
      exactly when the reading took no time. */
  lemma StaleByTheReading(r: Run, i: nat, c: nat, bound: int)
    requires IsRun(r) && i < |r.states| && c in r.states[i].cache
    ensures var e := r.states[i].cache[c];
      && e.readStep < e.storeStep < |r.clock|
      && ((forall now :: Offered(e.cache, now).Some? ==> now - bound < r.clock[e.readStep]) <==>
            e.list == [] || bound >= 60000 + (r.clock[e.storeStep] - r.clock[e.readStep]))
      && ((forall now :: Offered(e.cache, now).Some? ==> now - 60000 < r.clock[e.readStep]) <==>
            e.list == [] || r.clock[e.storeStep] == r.clock[e.readStep])
  {
    RunIsTraced(r, i);
    var e := r.states[i].cache[c];
    var last := r.clock[e.storeStep] + CACHE_MS - 1;
    assert e.list != [] ==> Offered(e.cache, last).Some?;
  }

  const BLOCKING := Rule(1, 0, false, "Ignore", "", "", true, [], true, {})

  function StaleRun(): Run {
    var full: Table := map[1 := BLOCKING];
    var pending := Pending(7, [BLOCKING], 0);
    var entry := Entry([BLOCKING], 0, 2, DataCache([BLOCKING], 1000 + CACHE_MS));
    Run([State(full, map[], []), State(full, map[], [pending]), State(map[], map[], [pending]),
         State(map[], map[7 := entry], []), State(map[], map[7 := entry], [])],
        [Read(7, [BLOCKING]), Edit(map[]), Store(0), Hit(7)],
        [0, 0, 1000, 999 + CACHE_MS])
  }

  lemma StaleReading()
    ensures IsActiveList(map[1 := BLOCKING], 7, [BLOCKING])
  {
    var t: Table := map[1 := BLOCKING];
    forall r ensures r in [BLOCKING] <==> HasRule(t, 7, r) {
    }
  }

  /** A reading that takes a second: a rule deleted meanwhile still decides 60999 ms after it
      was read. */
  lemma ServedTooLate()
    ensures var r := StaleRun(); var e := r.states[3].cache[7];
      && IsRun(r) && r.actions[3] == Hit(7) && r.states[3].table == map[] && e.list == [BLOCKING]
      && r.clock[3] - r.clock[e.readStep] == CACHE_MS + 999
  {
    var r := StaleRun();
    StaleReading();
    hide IsActiveList;
    forall k | 0 <= k < |r.actions|
      ensures Enabled(r.states[k], r.actions[k], r.clock[k])
      ensures r.states[k + 1] == Next(r.states[k], r.actions[k], r.clock[k], k)
    {
      assert k == 0 || k == 1 || k == 2 || k == 3;
    }
  }

  lemma {:induction false} TableUnchanged(r: Run, from: nat, to: nat)
    requires IsRun(r) && from <= to < |r.states|
    requires forall k :: from <= k < to ==> !r.actions[k].Edit?
    ensures r.states[to].table == r.states[from].table
  {
    if from < to {
      TableUnchanged(r, from, to - 1);
    }
  }

  /** Without an edit since its list was read, a cached check is an uncached one. */
  lemma CachedIsUncached(r: Run, i: nat, m: Matcher, e: Event)
    requires IsRun(r) && i < |r.actions| && r.actions[i].Hit?
    requires forall k :: r.states[i].cache[r.actions[i].cluster].readStep <= k < i ==> !r.actions[k].Edit?
    ensures var c := r.actions[i].cluster;
      IsVerdict(m, r.states[i].table, c, e, FirstAction(m, r.states[i].cache[c].list, e))
  {
    HitsAreRecent(r, i);
    var c := r.actions[i].cluster;
    var entry := r.states[i].cache[c];
    TableUnchanged(r, entry.readStep, i);
    FirstActionIsVerdict(m, r.states[i].table, c, entry.list, e);
  }
}
