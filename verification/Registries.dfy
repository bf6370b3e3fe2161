/** Docker registries and the aliases they are known under. */
module Registries {
  import opened Wrappers
  import opened Shared

  /** One row of `docker_registries`; a deletion only sets `deleted_at`. */
  datatype Registry = Registry(name: string, hostname: string, deleted: bool)

  /** What a request carries. */
  datatype Dto = Dto(name: string, hostname: string, aliases: seq<string>)

  /** Both tables. An alias is unique in its table, so the table maps it to its owner. */
  datatype Tables = Tables(registries: map<nat, Registry>, aliases: map<string, nat>)

  datatype Error = InUse | ConstraintViolated | NotFound

  // ---------- reading ----------

  predicate Live(t: Tables, id: nat) {
    id in t.registries && !t.registries[id].deleted
  }

  function AliasesOf(t: Tables, id: nat): set<string> {
    set a | a in t.aliases && t.aliases[a] == id
  }

  /** Every name a registry answers to. */
  function Hosts(t: Tables, id: nat): set<string>
    requires id in t.registries
  {
    {t.registries[id].hostname} + AliasesOf(t, id)
  }

  function Urls(dto: Dto): seq<string> {
    [dto.hostname] + dto.aliases
  }

  /** The live registries that have the name or answer to one of the urls. No name asks for
      no name, and without name and urls all are asked for. */
  function RegistryIds(t: Tables, name: string, urls: seq<string>, idToExclude: Option<nat>): set<nat> {
    set id | id in t.registries && Live(t, id) && idToExclude != Some(id) &&
             ((name == "" && urls == []) ||
              (name != "" && t.registries[id].name == name) ||
              exists h :: h in Hosts(t, id) && h in urls)
  }

  /** `LEFT JOIN` of a registry with its aliases: null when there is none. */
  function JoinedAliases(t: Tables, id: nat): (r: set<Option<string>>)
    ensures forall a :: Some(a) in r <==> a in AliasesOf(t, id)
    ensures None in r <==> AliasesOf(t, id) == {}
  {
    if AliasesOf(t, id) == {} then {None} else set a | a in AliasesOf(t, id) :: Some(a)
  }

  /** The `WHERE` clause on one joined row; a null alias is in no list. */
  predicate Where(r: Registry, alias: Option<string>, name: string, urls: seq<string>) {
    && !r.deleted
    && ((name == "" && urls == []) || (name != "" && r.name == name) ||
        (urls != [] && (r.hostname in urls || (alias.Some? && alias.value in urls))))
  }

  // ---------- writing ----------

  function WithAliases(aliases: map<string, nat>, id: nat, wanted: seq<string>): (r: map<string, nat>)
    ensures forall a :: a in r <==> a in aliases || a in wanted
    ensures forall a :: a in r ==> r[a] == if a in wanted then id else aliases[a]
    decreases |wanted|
  {
    if wanted == [] then aliases
    else
      assert wanted == [wanted[0]] + wanted[1..];
      WithAliases(aliases[wanted[0] := id], id, wanted[1..])
  }

  /** An insert that ignores conflicts: an alias that is taken stays with its owner. */
  function InsertIgnore(aliases: map<string, nat>, id: nat, wanted: seq<string>): (r: map<string, nat>)
    ensures forall a :: a in r <==> a in aliases || a in wanted
    ensures forall a :: a in r ==> r[a] == if a in aliases then aliases[a] else id
    decreases |wanted|
  {
    if wanted == [] then aliases
    else
      assert wanted == [wanted[0]] + wanted[1..];
      InsertIgnore(if wanted[0] in aliases then aliases else aliases[wanted[0] := id], id, wanted[1..])
  }

  /** The aliases of `id` that are not wanted any more. */
  function Dropped(aliases: map<string, nat>, id: nat, wanted: seq<string>): set<string> {
    set a | a in aliases && aliases[a] == id && a !in wanted
  }

  /** A plain insert fails as a whole when an alias is taken or asked for twice. */
  predicate Insertable(aliases: map<string, nat>, wanted: seq<string>) {
    NoRepeats(wanted) && forall a :: a in wanted ==> a !in aliases
  }

  function Created(t: Tables, id: nat, dto: Dto): Tables
    requires id !in t.registries
  {
    if RegistryIds(t, dto.name, Urls(dto), None) == {} && Insertable(t.aliases, dto.aliases) then
      Tables(t.registries[id := Registry(dto.name, dto.hostname, false)], WithAliases(t.aliases, id, dto.aliases))
    else t
  }

  /** Drops the aliases no longer wanted, then inserts the wanted ones that nobody has. */
  function Rewritten(t: Tables, id: nat, dto: Dto): Tables {
    if id in t.registries then
      Tables(t.registries[id := t.registries[id].(name := dto.name, hostname := dto.hostname)],
             InsertIgnore(t.aliases - Dropped(t.aliases, id, dto.aliases), id, dto.aliases))
    else t
  }

  /** The same for a request that conflicts with no other live registry. */
  function Updated(t: Tables, id: nat, dto: Dto): Tables {
    if RegistryIds(t, dto.name, Urls(dto), Some(id)) == {} then Rewritten(t, id, dto) else t
  }

  function Deleted(t: Tables, id: nat): Tables {
    if id in t.registries then
      Tables(t.registries[id := t.registries[id].(deleted := true)],
             t.aliases - AliasesOf(t, id))
    else t
  }

  /** Some joined row of a registry that is asked for passes the filter. */
  lemma IsSelected(t: Tables, name: string, urls: seq<string>, id: nat)
    requires id in RegistryIds(t, name, urls, None)
    ensures exists a :: a in JoinedAliases(t, id) && Where(t.registries[id], a, name, urls)
  {
    var r := t.registries[id];
    if h :| h in AliasesOf(t, id) && h in urls {
      assert Some(h) in JoinedAliases(t, id) && Where(r, Some(h), name, urls);
    } else if AliasesOf(t, id) == {} {
      assert Where(r, None, name, urls);
    } else {
      var a :| a in AliasesOf(t, id);
      assert Some(a) in JoinedAliases(t, id) && Where(r, Some(a), name, urls);
    }
  }

  lemma IsFound(t: Tables, name: string, urls: seq<string>, id: nat, alias: Option<string>)
    requires id in t.registries && alias in JoinedAliases(t, id) && Where(t.registries[id], alias, name, urls)
    ensures id in RegistryIds(t, name, urls, None)
  {
  }

  /** What a lookup finds: registries that are not deleted and not left out, and have the name,
      or the hostname or one of the aliases among the urls. */
  lemma LookupExactly(t: Tables, name: string, urls: seq<string>, idToExclude: Option<nat>, id: nat)
    requires name != "" || urls != []
    ensures id in RegistryIds(t, name, urls, idToExclude) <==>
      && id in t.registries && !t.registries[id].deleted && idToExclude != Some(id)
      && (|| (name != "" && t.registries[id].name == name)
          || t.registries[id].hostname in urls
          || exists a :: a in t.aliases && t.aliases[a] == id && a in urls)
  {
    if a :| a in t.aliases && t.aliases[a] == id && a in urls {
      assert a in AliasesOf(t, id);
    }
  }

  // ---------- the data access object and the service ----------

  class DockerRegistriesDao {
    var registries: map<nat, Registry>
    var aliases: map<string, nat>
    var nextId: nat

    ghost predicate Valid()
      reads this
    {
      forall id :: id in registries ==> id < nextId
    }

    function View(): Tables
      reads this
    {
      Tables(registries, aliases)
    }

    constructor ()
      ensures Valid() && View() == Tables(map[], map[])
    {
      registries, aliases, nextId := map[], map[], 1;
    }

    method GetDockerRegistryIds(name: string, urls: seq<string>, idToExclude: Option<nat>) returns (ids: set<nat>)
      ensures ids == RegistryIds(View(), name, urls, idToExclude)
    {
      var joined := set id, a | id in registries && a in JoinedAliases(View(), id) :: (id, a);
      var selected := set j | j in joined && j.0 in registries && Where(registries[j.0], j.1, name, urls);
      ids := set j | j in selected && idToExclude != Some(j.0) :: j.0;
      forall id | id in RegistryIds(View(), name, urls, idToExclude) ensures id in ids {
        IsSelected(View(), name, urls, id);
        var a :| a in JoinedAliases(View(), id) && Where(registries[id], a, name, urls);
        assert (id, a) in selected;
      }
      forall j | j in selected && idToExclude != Some(j.0) ensures j.0 in RegistryIds(View(), name, urls, idToExclude) {
        IsFound(View(), name, urls, j.0, j.1);
      }
    }

    method CreateDockerRegistry(dto: Dto) returns (r: Result<nat, Error>)
      requires Valid()
      modifies this
      ensures Valid()
      ensures r.Ok? <==> Insertable(old(aliases), dto.aliases)
      ensures r.Ok? ==> r.value !in old(registries)
      ensures r.Ok? ==> registries == old(registries)[r.value := Registry(dto.name, dto.hostname, false)]
      ensures r.Ok? ==> aliases == WithAliases(old(aliases), r.value, dto.aliases)
      ensures r.Err? ==> View() == old(View())
    {
      var id, before := nextId, registries;
      nextId := id + 1;
      registries := registries[id := Registry(dto.name, dto.hostname, false)];
      if !Insertable(aliases, dto.aliases) {
        registries := before; // the transaction rolls back
        return Err(ConstraintViolated);
      }
      aliases := WithAliases(aliases, id, dto.aliases);
      r := Ok(id);
    }

    method UpdateDockerRegistry(dto: Dto, id: nat) returns (r: Result<nat, Error>)
      requires Valid()
      modifies this
      ensures Valid()
      ensures View() == Rewritten(old(View()), id, dto)
      ensures r == if id in old(registries) then Ok(id) else Err(NotFound)
    {
      if id !in registries {
        return Err(NotFound);
      }
      registries := registries[id := registries[id].(name := dto.name, hostname := dto.hostname)];
      aliases := aliases - Dropped(aliases, id, dto.aliases);
      if |dto.aliases| > 0 {
        aliases := InsertIgnore(aliases, id, dto.aliases);
      }
      r := Ok(id);
    }

    method DeleteDockerRegistryById(id: nat) returns (r: Result<nat, Error>)
      requires Valid()
      modifies this
      ensures Valid()
      ensures View() == Deleted(old(View()), id)
      ensures r == if id in old(registries) then Ok(id) else Err(NotFound)
    {
      if id !in registries {
        return Err(NotFound);
      }
      registries := registries[id := registries[id].(deleted := true)];
      aliases := aliases - AliasesOf(View(), id);
      r := Ok(id);
    }
  }

  class DockerRegistriesService {
    const dao: DockerRegistriesDao

    constructor (dao: DockerRegistriesDao)
      ensures this.dao == dao
    {
      this.dao := dao;
    }

    method CreateDockerRegistry(dto: Dto) returns (r: Result<nat, Error>)
      requires dao.Valid()
      modifies dao
      ensures dao.Valid()
      ensures r.Ok? ==> r.value !in old(dao.registries) && dao.View() == Created(old(dao.View()), r.value, dto)
      ensures r.Err? ==> dao.View() == old(dao.View())
      ensures r.Err? ==> forall id :: id !in old(dao.registries) ==> Created(old(dao.View()), id, dto) == old(dao.View())
    {
      var ids := dao.GetDockerRegistryIds(dto.name, Urls(dto), None);
      if ids != {} {
        return Err(InUse);
      }
      r := dao.CreateDockerRegistry(dto);
    }

    method UpdateDockerRegistry(dto: Dto, id: nat) returns (r: Result<nat, Error>)
      requires dao.Valid()
      modifies dao
      ensures dao.Valid()
      ensures dao.View() == Updated(old(dao.View()), id, dto)
      ensures r == if RegistryIds(old(dao.View()), dto.name, Urls(dto), Some(id)) != {} then Err(InUse)
                   else if id in old(dao.registries) then Ok(id) else Err(NotFound)
    {
      var ids := dao.GetDockerRegistryIds(dto.name, Urls(dto), Some(id));
      if ids != {} {
        return Err(InUse);
      }
      r := dao.UpdateDockerRegistry(dto, id);
    }

    method DeleteDockerRegistryById(id: nat) returns (r: Result<nat, Error>)
      requires dao.Valid()
      modifies dao
      ensures dao.Valid()
      ensures dao.View() == Deleted(old(dao.View()), id)
      ensures r == if id in old(dao.registries) then Ok(id) else Err(NotFound)
    {
      r := dao.DeleteDockerRegistryById(id);
    }
  }

  // ---------- runs ----------

  datatype Op = Create(id: nat, dto: Dto) | Update(id: nat, dto: Dto) | Delete(id: nat)

  ghost predicate Possible(t: Tables, op: Op) {
    op.Create? ==> op.id !in t.registries
  }

  ghost function Step(t: Tables, op: Op): Tables
    requires Possible(t, op)
  {
    match op
    case Create(id, dto) => Created(t, id, dto)
    case Update(id, dto) => Updated(t, id, dto)
    case Delete(id) => Deleted(t, id)
  }

  /** States that calls of the service can lead to, from empty tables. */
  ghost predicate IsRun(states: seq<Tables>, ops: seq<Op>) {
    && |states| == |ops| + 1 && states[0] == Tables(map[], map[])
    && forall i :: 0 <= i < |ops| ==> Possible(states[i], ops[i]) && states[i + 1] == Step(states[i], ops[i])
  }

  // ---------- what every request keeps ----------

  /** No two live registries answer to the same host. */
  ghost predicate HostsDisjoint(t: Tables) {
    forall i, j :: Live(t, i) && Live(t, j) && i != j ==> Hosts(t, i) !! Hosts(t, j)
  }

  /** Every stored alias belongs to a live registry. */
  ghost predicate AliasesLive(t: Tables) {
    forall a :: a in t.aliases ==> Live(t, t.aliases[a])
  }

  /** The one kind of request that leaves an alias with no live owner: an update, accepted
      by the service, that gives a deleted registry an alias. */
  ghost predicate FeedsDeleted(t: Tables, op: Op) {
    && op.Update? && op.id in t.registries && t.registries[op.id].deleted && op.dto.aliases != []
    && RegistryIds(t, op.dto.name, Urls(op.dto), Some(op.id)) == {}
  }

  /** No two live registries have the same name, unless it is empty. */
  ghost predicate NamesDiffer(t: Tables) {
    forall i, j :: Live(t, i) && Live(t, j) && i != j && t.registries[i].name == t.registries[j].name ==>
      t.registries[i].name == ""
  }

  /** The foreign key of the alias table, and live registries that share no host and no name. */
  ghost predicate Sound(t: Tables) {
    HostsDisjoint(t) && NamesDiffer(t) && forall a :: a in t.aliases ==> t.aliases[a] in t.registries
  }

  lemma Finds(t: Tables, name: string, urls: seq<string>, except: Option<nat>, id: nat, host: string)
    requires Live(t, id) && Some(id) != except && host in Hosts(t, id) && host in urls
    ensures id in RegistryIds(t, name, urls, except)
  {
  }

  /** What an accepted request may assume: nobody else answers to any of its hosts. */
  lemma NobodyElse(t: Tables, name: string, urls: seq<string>, except: Option<nat>, id: nat, host: string)
    requires RegistryIds(t, name, urls, except) == {}
    requires Live(t, id) && Some(id) != except && host in Hosts(t, id)
    ensures host !in urls
  {
    if host in urls {
      Finds(t, name, urls, except, id, host);
    }
  }

  /** A registry that nobody shares its name with can get it. */
  lemma NamesStayApart(t: Tables, id: nat, dto: Dto, r: Registry)
    requires NamesDiffer(t) && RegistryIds(t, dto.name, Urls(dto), Some(id)) == {} && r.name == dto.name
    ensures NamesDiffer(Tables(t.registries[id := r], t.aliases))
  {
    forall j | Live(t, j) && j != id ensures dto.name == "" || t.registries[j].name != dto.name {
      assert j !in RegistryIds(t, dto.name, Urls(dto), Some(id));
    }
  }

  lemma SameNames(t: Tables, t': Tables)
    requires NamesDiffer(t) && t'.registries == t.registries
    ensures NamesDiffer(t')
  {
    assert forall j :: Live(t', j) <==> Live(t, j);
  }

  lemma CreateIsSound(t: Tables, id: nat, dto: Dto)
    requires Sound(t) && id !in t.registries
    ensures Sound(Created(t, id, dto))
  {
    var t' := Created(t, id, dto);
    if t' != t {
      assert RegistryIds(t, dto.name, Urls(dto), Some(id)) == {} by {
        assert RegistryIds(t, dto.name, Urls(dto), Some(id)) <= RegistryIds(t, dto.name, Urls(dto), None);
      }
      NamesStayApart(t, id, dto, t'.registries[id]);
      SameNames(Tables(t'.registries, t.aliases), t');
      forall j | Live(t, j) ensures Hosts(t', j) == Hosts(t, j) && Hosts(t', id) !! Hosts(t', j) {
        forall h | h in Hosts(t, j) ensures h !in Urls(dto) {
          NobodyElse(t, dto.name, Urls(dto), None, j, h);
        }
        assert forall h :: h in Hosts(t', id) ==> h in Urls(dto);
      }
      assert forall j :: Live(t', j) <==> j == id || Live(t, j);
    }
  }

  lemma UpdateIsSound(t: Tables, id: nat, dto: Dto)
    requires Sound(t)
    ensures Sound(Updated(t, id, dto))
  {
    var t' := Updated(t, id, dto);
    if t' != t {
      NamesStayApart(t, id, dto, t'.registries[id]);
      SameNames(Tables(t'.registries, t.aliases), t');
      forall j | Live(t, j) && j != id ensures Hosts(t', j) == Hosts(t, j) {
        forall h | h in Hosts(t, j) ensures h !in Urls(dto) {
          NobodyElse(t, dto.name, Urls(dto), Some(id), j, h);
        }
        assert forall a :: a in AliasesOf(t, j) <==> a in AliasesOf(t', j);
      }
      forall j | Live(t, j) && j != id ensures Hosts(t', id) !! Hosts(t', j) {
        forall h | h in Hosts(t, j) ensures h !in Urls(dto) {
          NobodyElse(t, dto.name, Urls(dto), Some(id), j, h);
        }
        assert forall h :: h in Hosts(t', id) ==> h in Urls(dto);
      }
      assert forall j :: Live(t', j) <==> Live(t, j);
    }
  }

  lemma DeleteIsSound(t: Tables, id: nat)
    requires Sound(t)
    ensures Sound(Deleted(t, id))
  {
    var t' := Deleted(t, id);
    forall j | Live(t', j) ensures Live(t, j) && Hosts(t', j) == Hosts(t, j) {
      assert forall a :: a in AliasesOf(t, j) && j != id ==> a in AliasesOf(t', j);
    }
  }

  lemma StepIsSound(t: Tables, op: Op)
    requires Sound(t) && Possible(t, op)
    ensures Sound(Step(t, op))
  {
    match op
    case Create(id, dto) => CreateIsSound(t, id, dto);
    case Update(id, dto) => UpdateIsSound(t, id, dto);
    case Delete(id) => DeleteIsSound(t, id);
  }

  /** A request keeps every alias with a live registry exactly when it does not feed a
      deleted one. */
  lemma StepKeepsAliasesLive(t: Tables, op: Op)
    requires Sound(t) && AliasesLive(t) && Possible(t, op)
    ensures AliasesLive(Step(t, op)) <==> !FeedsDeleted(t, op)
  {
    var t' := Step(t, op);
    if FeedsDeleted(t, op) {
      var a := op.dto.aliases[0];
      if a in t.aliases && t.aliases[a] != op.id {
        NobodyElse(t, op.dto.name, Urls(op.dto), Some(op.id), t.aliases[a], a);
      }
      assert a in t'.aliases && t'.aliases[a] == op.id;
    } else {
      forall a | a in t'.aliases ensures Live(t', t'.aliases[a]) {
        if a in t.aliases {
          assert Live(t, t.aliases[a]);
        }
      }
    }
  }

  /** On every run, whatever the requests: live registries share no host. */
  lemma {:induction false} RunsAreSound(states: seq<Tables>, ops: seq<Op>, i: nat)
    requires IsRun(states, ops) && i < |states|
    ensures Sound(states[i])
  {
    if i > 0 {
      RunsAreSound(states, ops, i - 1);
      StepIsSound(states[i - 1], ops[i - 1]);
    }
  }

  lemma {:induction false} AliasesLiveUpTo(states: seq<Tables>, ops: seq<Op>, i: nat)
    requires IsRun(states, ops) && i < |states|
    requires forall k :: 0 <= k < i ==> !FeedsDeleted(states[k], ops[k])
    ensures AliasesLive(states[i])
  {
    if i > 0 {
      AliasesLiveUpTo(states, ops, i - 1);
      RunsAreSound(states, ops, i - 1);
      StepKeepsAliasesLive(states[i - 1], ops[i - 1]);
    }
  }

  /** On a run every alias keeps a live owner exactly when no request of it feeds a deleted
      registry. */
  lemma RunsKeepAliasesLive(states: seq<Tables>, ops: seq<Op>)
    requires IsRun(states, ops)
    ensures (forall i :: 0 <= i < |states| ==> AliasesLive(states[i]))
      <==> (forall i :: 0 <= i < |ops| ==> !FeedsDeleted(states[i], ops[i]))
  {
    if forall i :: 0 <= i < |ops| ==> !FeedsDeleted(states[i], ops[i]) {
      forall i | 0 <= i < |states| ensures AliasesLive(states[i]) {
        AliasesLiveUpTo(states, ops, i);
      }
    } else {
      var i :| 0 <= i < |ops| && FeedsDeleted(states[i], ops[i]);
      RunsAreSound(states, ops, i);
      if AliasesLive(states[i]) {
        StepKeepsAliasesLive(states[i], ops[i]);
        assert !AliasesLive(states[i + 1]);
      }
    }
  }

  /** An accepted update leaves the registry with exactly the aliases asked for, unless a
      deleted registry holds one of them: that one is dropped without an error. */
  lemma UpdateSetsAliases(t: Tables, id: nat, dto: Dto)
    requires Sound(t) && id in t.registries && RegistryIds(t, dto.name, Urls(dto), Some(id)) == {}
    ensures AliasesOf(Updated(t, id, dto), id) == (set a | a in dto.aliases)
      <==> forall a :: a in dto.aliases && a in t.aliases && t.aliases[a] != id ==> Live(t, t.aliases[a])
    ensures AliasesLive(t) ==> AliasesOf(Updated(t, id, dto), id) == (set a | a in dto.aliases)
  {
    var t' := Updated(t, id, dto);
    forall a | a in dto.aliases && a in t.aliases && t.aliases[a] != id ensures !Live(t, t.aliases[a]) {
      if Live(t, t.aliases[a]) {
        NobodyElse(t, dto.name, Urls(dto), Some(id), t.aliases[a], a);
      }
    }
    assert forall a :: a in AliasesOf(t', id) <==> a in dto.aliases && (a in t.aliases ==> t.aliases[a] == id);
    if forall a :: a in dto.aliases && a in t.aliases && t.aliases[a] != id ==> Live(t, t.aliases[a]) {
      assert AliasesOf(t', id) == (set a | a in dto.aliases);
    } else {
      var a :| a in dto.aliases && a in t.aliases && t.aliases[a] != id;
      assert a !in AliasesOf(t', id) && a in (set a | a in dto.aliases);
    }
  }

  /** The rows and aliases of all other registries are as before. */
  ghost predicate OthersKept(t: Tables, t': Tables, id: nat) {
    && t'.registries.Keys == t.registries.Keys + {id}
    && (forall other :: other in t.registries && other != id ==> t'.registries[other] == t.registries[other])
    && (forall other :: other != id ==> AliasesOf(t', other) == AliasesOf(t, other))
  }

  /** A lookup by a host of a live registry finds it alone. */
  lemma FoundAlone(t: Tables, id: nat, host: string)
    requires Sound(t) && Live(t, id) && host in Hosts(t, id)
    ensures RegistryIds(t, "", [host], None) == {id}
  {
    Finds(t, "", [host], None, id, host);
    forall other | other in RegistryIds(t, "", [host], None) ensures other == id {
      assert host in Hosts(t, other);
    }
  }

  lemma FoundNowhere(t: Tables, host: string)
    requires forall id :: Live(t, id) ==> host !in Hosts(t, id)
    ensures RegistryIds(t, "", [host], None) == {}
  {
  }

  /** Nothing asked for is held by a deleted registry. */
  ghost predicate AliasesFree(t: Tables, id: nat, dto: Dto) {
    forall a :: a in dto.aliases && a in t.aliases && t.aliases[a] != id ==> Live(t, t.aliases[a])
  }

  /** An accepted update stores the name and the hostname asked for and keeps the deletion mark;
      other registries are as before. The registry then answers to the hostname and aliases
      asked for. */
  lemma UpdatedAsAsked(t: Tables, id: nat, dto: Dto)
    requires Sound(t) && id in t.registries && RegistryIds(t, dto.name, Urls(dto), Some(id)) == {}
    ensures var t' := Updated(t, id, dto);
      && OthersKept(t, t', id)
      && t'.registries[id] == Registry(dto.name, dto.hostname, t.registries[id].deleted)
      && dto.hostname in Hosts(t', id) && (forall h :: h in Hosts(t', id) ==> h == dto.hostname || h in dto.aliases)
      && (AliasesFree(t, id, dto) ==> forall a :: a in dto.aliases ==> a in Hosts(t', id))
  {
    var t' := Updated(t, id, dto);
    UpdateSetsAliases(t, id, dto);
    hide RegistryIds;
    forall other | other != id ensures AliasesOf(t', other) == AliasesOf(t, other) {
      assert forall a :: a in AliasesOf(t', other) <==> a in AliasesOf(t, other);
    }
    assert AliasesFree(t, id, dto) ==> AliasesOf(t', id) == (set a | a in dto.aliases);
  }

  /** A live registry that was updated is found under each host asked for, alone, and nowhere
      under a host that it had before and that is not asked for. */
  lemma UpdatedIsFound(t: Tables, id: nat, dto: Dto, h: string)
    requires Sound(t) && Live(t, id) && RegistryIds(t, dto.name, Urls(dto), Some(id)) == {}
    ensures h == dto.hostname || (AliasesFree(t, id, dto) && h in dto.aliases) ==>
      RegistryIds(Updated(t, id, dto), "", [h], None) == {id}
    ensures h in Hosts(t, id) && h != dto.hostname && h !in dto.aliases ==>
      RegistryIds(Updated(t, id, dto), "", [h], None) == {}
  {
    var t' := Updated(t, id, dto);
    UpdateIsSound(t, id, dto);
    UpdatedAsAsked(t, id, dto);
    hide RegistryIds, Updated, Sound;
    if h in Hosts(t', id) {
      FoundAlone(t', id, h);
    } else if h in Hosts(t, id) {
      forall other | Live(t', other) ensures h !in Hosts(t', other) {
        HostElsewhere(t, id, other, h);
        assert other != id ==> Hosts(t', other) == Hosts(t, other) && Live(t, other);
      }
      FoundNowhere(t', h);
    }
  }

  lemma HostElsewhere(t: Tables, id: nat, other: nat, h: string)
    requires Sound(t) && Live(t, id) && h in Hosts(t, id)
    ensures Live(t, other) && other != id ==> h !in Hosts(t, other)
  {
  }

  /** An accepted creation stores what is asked for, and the registry is found under each of its
      hosts, alone. */
  lemma CreatedAsAsked(t: Tables, id: nat, dto: Dto)
    requires Sound(t) && id !in t.registries
    requires RegistryIds(t, dto.name, Urls(dto), None) == {} && Insertable(t.aliases, dto.aliases)
    ensures var t' := Created(t, id, dto);
      && OthersKept(t, t', id)
      && t'.registries[id] == Registry(dto.name, dto.hostname, false)
      && (forall h :: h in Hosts(t', id) <==> h == dto.hostname || h in dto.aliases)
      && (forall h :: h == dto.hostname || h in dto.aliases ==> RegistryIds(t', "", [h], None) == {id})
  {
    var t' := Created(t, id, dto);
    CreateIsSound(t, id, dto);
    assert AliasesOf(t, id) == {};
    forall other | other != id ensures AliasesOf(t', other) == AliasesOf(t, other) {
      assert forall a :: a in AliasesOf(t', other) <==> a in AliasesOf(t, other);
    }
    assert forall a :: a in AliasesOf(t', id) <==> a in dto.aliases;
    hide RegistryIds;
    forall h | h in Hosts(t', id) ensures RegistryIds(t', "", [h], None) == {id} {
      FoundAlone(t', id, h);
    }
  }

  /** A deleted registry keeps its name and hostname, and is found under no host any more. */
  lemma DeletedIsForgotten(t: Tables, id: nat)
    requires Sound(t) && Live(t, id)
    ensures var t' := Deleted(t, id);
      && OthersKept(t, t', id) && AliasesOf(t', id) == {}
      && t'.registries[id] == Registry(t.registries[id].name, t.registries[id].hostname, true)
      && forall h :: h in Hosts(t, id) ==> RegistryIds(t', "", [h], None) == {}
  {
    var t' := Deleted(t, id);
    forall other | other != id ensures AliasesOf(t', other) == AliasesOf(t, other) {
      assert forall a :: a in AliasesOf(t', other) <==> a in AliasesOf(t, other);
    }
    hide RegistryIds;
    forall h | h in Hosts(t, id) ensures RegistryIds(t', "", [h], None) == {} {
      forall other | Live(t', other) ensures h !in Hosts(t', other) {
        assert Live(t, other) && Hosts(t', other) == Hosts(t, other);
      }
      FoundNowhere(t', h);
    }
  }

  const ALPHA := Dto("a", "a.io", [])
  const ALPHA_X := Dto("a", "a.io", ["x"])
  const BETA := Dto("b", "b.io", [])
  const BETA_X := Dto("b", "b.io", ["x"])

  ghost function DropOps(): seq<Op> {
    [Create(1, ALPHA), Delete(1), Update(1, ALPHA_X), Create(2, BETA), Update(2, BETA_X)]
  }

  ghost function DropStates(): seq<Tables> {
    var dead := Registry("a", "a.io", true);
    var both := map[1 := dead, 2 := Registry("b", "b.io", false)];
    [Tables(map[], map[]), Tables(map[1 := Registry("a", "a.io", false)], map[]), Tables(map[1 := dead], map[]),
     Tables(map[1 := dead], map["x" := 1]), Tables(both, map["x" := 1]), Tables(both, map["x" := 1])]
  }

  lemma DropFirstSteps()
    ensures var s := DropStates(); Created(s[0], 1, ALPHA) == s[1] && Deleted(s[1], 1) == s[2]
  {
    assert RegistryIds(DropStates()[0], "a", ["a.io"], None) == {};
  }

  lemma DropUpdate()
    ensures var s := DropStates(); Updated(s[2], 1, ALPHA_X) == s[3]
  {
    assert RegistryIds(DropStates()[2], "a", ["a.io", "x"], Some(1)) == {};
  }

  lemma DropCreate()
    ensures var s := DropStates(); Created(s[3], 2, BETA) == s[4]
  {
    assert RegistryIds(DropStates()[3], "b", ["b.io"], None) == {};
  }

  lemma DropLast()
    ensures var s := DropStates();
      && RegistryIds(s[4], "b", Urls(BETA_X), Some(2)) == {} && Updated(s[4], 2, BETA_X) == s[5]
      && AliasesOf(s[5], 2) == {}
  {
    var s := DropStates();
    assert RegistryIds(s[4], "b", ["b.io", "x"], Some(2)) == {};
  }

  /** Five calls of the service after which an accepted update has lost the one alias it asked for. */
  lemma AnAliasIsDropped()
    ensures var s, ops := DropStates(), DropOps();
      && IsRun(s, ops) && ops[4] == Update(2, BETA_X)
      && RegistryIds(s[4], "b", Urls(BETA_X), Some(2)) == {} && AliasesOf(s[5], 2) == {}
  {
    DropFirstSteps();
    DropUpdate();
    DropCreate();
    DropLast();
  }
}
