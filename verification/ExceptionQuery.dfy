/** The query for the exceptions that apply somewhere today, and the sweep that retires
    expired ones. */
module ExceptionQuery {
  import opened Wrappers
  import opened Shared
  import opened ExceptionStore
  import opened SqlLike

  /** The UTC day of an instant in milliseconds. */
  function Today(now: int): int {
    now / MS_PER_DAY
  }

  /** Arguments of a query. The cluster 0, no policy list and the empty namespace each drop
      their part of the filter. */
  datatype Query = Query(typ: string, clusterId: nat, policyIds: Option<seq<nat>>, namespace: string)

  /** One row of the product of the exception with its links, absent links being null. */
  datatype Joined = Joined(id: nat, cluster: Option<nat>, policy: Option<nat>, namespace: Option<string>)

  /** `LEFT OUTER JOIN`: the linked values, or one null when there is none. */
  function LeftJoin<T(==,!new)>(links: set<(nat, T)>, id: nat): (r: set<Option<T>>)
    ensures forall v :: Some(v) in r <==> (id, v) in links
    ensures None in r <==> LinksOf(links, id) == {}
  {
    var values := LinksOf(links, id);
    if values == {} then {None} else set v | v in values :: Some(v)
  }

  function JoinedRows(t: Tables): set<Joined> {
    set id, c, p, n | id in t.rows && c in LeftJoin(t.clusters, id) && p in LeftJoin(t.policies, id) &&
                      n in LeftJoin(t.namespaces, id) :: Joined(id, c, p, n)
  }

  /** The part of the `WHERE` clause that reads the exception alone. */
  predicate InForce(row: Row, q: Query, today: int) {
    && !row.deleted && row.status == ACTIVE && Like(row.typ, q.typ)
    && (row.startDay.None? || row.startDay.value <= today)
    && (row.endDay.None? || row.endDay.value > today)
  }

  /** The whole `WHERE` clause; a comparison with null is not true. */
  predicate Where(t: Tables, q: Query, today: int, j: Joined)
    requires j.id in t.rows
  {
    var row := t.rows[j.id];
    && InForce(row, q, today)
    && (row.allClusters || (q.clusterId != 0 && j.cluster == Some(q.clusterId)))
    && (row.allPolicies || (q.policyIds.Some? && j.policy.Some? && j.policy.value in q.policyIds.value))
    && (row.allNamespaces || (q.namespace != "" && j.namespace == Some(q.namespace)))
  }

  /** `SELECT DISTINCT`: of each joined row the exception and its policy column are kept. */
  function Selected(t: Tables, q: Query, today: int): set<(nat, Option<nat>)> {
    set j | j in JoinedRows(t) && j.id in t.rows && Where(t, q, today, j) :: (j.id, j.policy)
  }

  /** What the caller wants to know of an exception. */
  predicate Applies(t: Tables, q: Query, today: int, id: nat)
    requires id in t.rows
  {
    var row := t.rows[id];
    && InForce(row, q, today)
    && (row.allClusters || (q.clusterId != 0 && (id, q.clusterId) in t.clusters))
    && (row.allPolicies || (q.policyIds.Some? && exists p :: p in q.policyIds.value && (id, p) in t.policies))
    && (row.allNamespaces || (q.namespace != "" && (id, q.namespace) in t.namespaces))
  }

  function Ids(selected: set<(nat, Option<nat>)>): set<nat> {
    set s | s in selected :: s.0
  }

  lemma LeftJoinIsNotEmpty<T(!new)>(links: set<(nat, T)>, id: nat) returns (v: Option<T>)
    ensures v in LeftJoin(links, id)
  {
    if LinksOf(links, id) == {} {
      v := None;
    } else {
      var x :| x in LinksOf(links, id);
      v := Some(x);
    }
  }

  /** Which rows the query returns: one per policy link of an exception that applies, as far
      as the policy filter lets the link through, or a single one without a policy. */
  lemma SelectedRows(t: Tables, q: Query, today: int, id: nat, p: Option<nat>)
    ensures (id, p) in Selected(t, q, today) <==>
      && id in t.rows && Applies(t, q, today, id) && p in LeftJoin(t.policies, id)
      && (t.rows[id].allPolicies || (p.Some? && q.policyIds.Some? && p.value in q.policyIds.value))
  {
    if id in t.rows && p in LeftJoin(t.policies, id) {
      var c, n;
      if q.clusterId != 0 && (id, q.clusterId) in t.clusters {
        c := Some(q.clusterId);
      } else {
        c := LeftJoinIsNotEmpty(t.clusters, id);
      }
      if q.namespace != "" && (id, q.namespace) in t.namespaces {
        n := Some(q.namespace);
      } else {
        n := LeftJoinIsNotEmpty(t.namespaces, id);
      }
      assert Joined(id, c, p, n) in JoinedRows(t);
    }
  }

  lemma SelectedApplies(t: Tables, q: Query, today: int, id: nat)
    ensures id in Ids(Selected(t, q, today)) <==> id in t.rows && Applies(t, q, today, id)
  {
    if id in Ids(Selected(t, q, today)) {
      var s :| s in Selected(t, q, today) && s.0 == id;
      SelectedRows(t, q, today, id, s.1);
    }
    if id in t.rows && Applies(t, q, today, id) {
      var p: Option<nat>;
      if t.rows[id].allPolicies {
        p := LeftJoinIsNotEmpty(t.policies, id);
      } else {
        var x :| x in q.policyIds.value && (id, x) in t.policies;
        p := Some(x);
      }
      SelectedRows(t, q, today, id, p);
      assert (id, p) in Selected(t, q, today);
    }
  }

  /** The query selects exactly the exceptions that are not deleted, are active, have a type
      that the asked one matches as a pattern, have begun by the day and end after it, and for
      clusters, policies and namespaces each have the flag or a matching link. */
  lemma QuerySelectsWhatApplies(t: Tables, q: Query, today: int, id: nat)
    ensures id in Ids(Selected(t, q, today)) <==>
      && id in t.rows
      && !t.rows[id].deleted
      && t.rows[id].status == "active"
      && Like(t.rows[id].typ, q.typ)
      && (t.rows[id].startDay.None? || t.rows[id].startDay.value <= today)
      && (t.rows[id].endDay.None? || today < t.rows[id].endDay.value)
      && (t.rows[id].allClusters || (q.clusterId != 0 && (id, q.clusterId) in t.clusters))
      && (t.rows[id].allPolicies || (q.policyIds.Some? && exists p :: p in q.policyIds.value && (id, p) in t.policies))
      && (t.rows[id].allNamespaces || (q.namespace != "" && (id, q.namespace) in t.namespaces))
  {
    SelectedApplies(t, q, today, id);
  }

  /** An exception that is selected on one day is selected from its first day up to its last. */
  lemma SelectedFromStartToEnd(t: Tables, q: Query, someDay: int, id: nat, day: int)
    requires id in Ids(Selected(t, q, someDay))
    ensures id in t.rows
    ensures id in Ids(Selected(t, q, day)) <==>
      && (t.rows[id].startDay.Some? ==> t.rows[id].startDay.value <= day)
      && (t.rows[id].endDay.Some? ==> day < t.rows[id].endDay.value)
  {
    QuerySelectsWhatApplies(t, q, someDay, id);
    QuerySelectsWhatApplies(t, q, day, id);
  }

  /** What a request asks for, as a query sees it. */
  predicate AsksFor(dto: Dto, q: Query, today: int) {
    && dto.status == "active" && Like(dto.typ, q.typ)
    && dto.startDay <= today && (dto.endDay.Some? ==> today < dto.endDay.value)
    && (dto.clusters == [] || (q.clusterId != 0 && q.clusterId in dto.clusters))
    && (dto.policies == [] || (q.policyIds.Some? && exists p :: p in q.policyIds.value && p in dto.policies))
    && (dto.namespaces == [] || (q.namespace != "" && q.namespace in dto.namespaces))
  }

  lemma OthersSelected(t: Tables, t': Tables, id: nat, q: Query, today: int, other: nat)
    requires OthersKept(t, t', id) && other != id
    ensures other in Ids(Selected(t', q, today)) <==> other in Ids(Selected(t, q, today))
  {
    QuerySelectsWhatApplies(t, q, today, other);
    QuerySelectsWhatApplies(t', q, today, other);
  }

  /** A created exception is selected exactly where and when the request asks for it, and the
      others as before. */
  lemma CreatedIsSelected(refs: References, t: Tables, id: nat, dto: Dto, q: Query, today: int)
    requires LinksKnown(t) && id !in t.rows && ScannerKnown(refs, dto) && LinksInsertable(refs, dto)
    ensures var t' := Created(refs, t, id, dto);
      && (id in Ids(Selected(t', q, today)) <==> AsksFor(dto, q, today))
      && forall other :: other != id ==> (other in Ids(Selected(t', q, today)) <==> other in Ids(Selected(t, q, today)))
  {
    var t' := Created(refs, t, id, dto);
    CreatedAsAsked(refs, t, id, dto);
    QuerySelectsWhatApplies(t', q, today, id);
    hide Created, Selected, Ids, OthersKept;
    forall other | other != id ensures other in Ids(Selected(t', q, today)) <==> other in Ids(Selected(t, q, today)) {
      OthersSelected(t, t', id, q, today, other);
    }
  }

  /** The same for an updated exception, unless it is deleted. */
  lemma UpdatedIsSelected(refs: References, t: Tables, id: nat, dto: Dto, q: Query, today: int)
    requires LinksKnown(t) && id in t.rows && ScannerKnown(refs, dto) && LinksInsertable(refs, dto)
    ensures var t' := Updated(refs, t, id, dto);
      && (id in Ids(Selected(t', q, today)) <==> !t.rows[id].deleted && AsksFor(dto, q, today))
      && forall other :: other != id ==> (other in Ids(Selected(t', q, today)) <==> other in Ids(Selected(t, q, today)))
  {
    var t' := Updated(refs, t, id, dto);
    UpdatedAsAsked(refs, t, id, dto);
    QuerySelectsWhatApplies(t', q, today, id);
    hide Updated, Selected, Ids, OthersKept;
    forall other | other != id ensures other in Ids(Selected(t', q, today)) <==> other in Ids(Selected(t, q, today)) {
      OthersSelected(t, t', id, q, today, other);
    }
  }

  /** A deleted exception is never selected, and the others are as before. */
  lemma DeletedIsNotSelected(t: Tables, id: nat, q: Query, today: int, other: nat)
    ensures other in Ids(Selected(Deleted(t, id), q, today)) <==> other != id && other in Ids(Selected(t, q, today))
  {
    QuerySelectsWhatApplies(t, q, today, other);
    QuerySelectsWhatApplies(Deleted(t, id), q, today, other);
  }

  lemma {:induction false} StaysDeleted(refs: References, states: seq<Tables>, ops: seq<Op>, id: nat, i: nat, j: nat)
    requires IsRun(refs, states, ops) && i <= j < |states| && id in states[i].rows && states[i].rows[id].deleted
    ensures id in states[j].rows && states[j].rows[id].deleted
  {
    if i < j {
      StaysDeleted(refs, states, ops, id, i, j - 1);
      assert Possible(states[j - 1], ops[j - 1]) && states[j] == Step(refs, states[j - 1], ops[j - 1]);
    }
  }

  /** On any run, whatever is done to it later, a deleted exception is never selected again. */
  lemma DeletedForGood(refs: References, states: seq<Tables>, ops: seq<Op>, i: nat, j: nat, q: Query, today: int)
    requires IsRun(refs, states, ops) && i < j < |states| && ops[i].Delete? && ops[i].id in states[i].rows
    ensures ops[i].id !in Ids(Selected(states[j], q, today))
  {
    var id := ops[i].id;
    assert states[i + 1] == Deleted(states[i], id);
    StaysDeleted(refs, states, ops, id, i + 1, j);
    QuerySelectsWhatApplies(states[j], q, today, id);
  }

  /** A new status only decides whether its own exception can be selected. */
  lemma StatusDecides(t: Tables, id: nat, status: string, q: Query, today: int, other: nat)
    requires id in t.rows && t.rows[id].status == "active"
    ensures other in Ids(Selected(WithStatus(t, id, status), q, today)) <==>
      other in Ids(Selected(t, q, today)) && (other == id ==> status == "active")
  {
    QuerySelectsWhatApplies(t, q, today, other);
    QuerySelectsWhatApplies(WithStatus(t, id, status), q, today, other);
  }

  /** With flags and links in step, "for all" means "no link". */
  lemma AppliesByLinks(t: Tables, q: Query, today: int, id: nat)
    requires Sound(t) && id in t.rows && q.clusterId != 0 && q.policyIds.Some? && q.namespace != ""
    ensures Applies(t, q, today, id) <==>
      && InForce(t.rows[id], q, today)
      && (LinksOf(t.clusters, id) == {} || q.clusterId in LinksOf(t.clusters, id))
      && (LinksOf(t.policies, id) == {} || exists p :: p in q.policyIds.value && p in LinksOf(t.policies, id))
      && (LinksOf(t.namespaces, id) == {} || q.namespace in LinksOf(t.namespaces, id))
  {
  }

  // ---------- the expiry sweep ----------

  /** An end date is read as midnight UTC of that day. */
  predicate Expired(row: Row, now: int) {
    !row.deleted && row.endDay.Some? && row.endDay.value * MS_PER_DAY < now
  }

  function SweptRow(row: Row, now: int): Row {
    if Expired(row, now) then row.(status := INACTIVE) else row
  }

  ghost predicate IsSwept(t: Tables, t': Tables, now: int) {
    && t'.rows.Keys == t.rows.Keys && t' == t.(rows := t'.rows)
    && forall id :: id in t.rows ==> t'.rows[id] == SweptRow(t.rows[id], now)
  }

  method SyncExceptionStatus(dao: ExceptionsDao, now: int)
    requires dao.Valid()
    modifies dao
    ensures dao.Valid() && IsSwept(old(dao.View()), dao.View(), now)
  {
    ghost var before := dao.View();
    var todo := set id | id in dao.rows && Expired(dao.rows[id], now);
    while todo != {}
      invariant dao.Valid() && dao.rows.Keys == before.rows.Keys && dao.View() == before.(rows := dao.rows)
      invariant todo <= before.rows.Keys
      invariant forall id :: id in before.rows ==>
        dao.rows[id] == if id in todo then before.rows[id] else SweptRow(before.rows[id], now)
      invariant forall id :: id in todo ==> Expired(before.rows[id], now)
      decreases todo
    {
      var id :| id in todo;
      dao.UpdateExceptionStatus(id, INACTIVE);
      todo := todo - {id};
    }
  }

  /** The sweep sets exactly those exceptions inactive that are not deleted and whose end date
      began before `now`, and changes nothing else. */
  lemma SweepRetires(t: Tables, t': Tables, now: int, id: nat)
    requires IsSwept(t, t', now) && id in t.rows
    ensures t'.rows.Keys == t.rows.Keys
    ensures t'.policies == t.policies && t'.clusters == t.clusters && t'.namespaces == t.namespaces
    ensures var row := t.rows[id];
      if !row.deleted && row.endDay.Some? && row.endDay.value * 24 * 60 * 60 * 1000 < now then
        t'.rows[id] == row.(status := "inactive")
      else t'.rows[id] == row
  {
  }

  lemma SweepHidesNothing(row: Row, q: Query, sweep: int, now: int)
    requires sweep <= now
    ensures InForce(SweptRow(row, sweep), q, Today(now)) <==> InForce(row, q, Today(now))
    ensures InForce(row, q, Today(now)) ==> SweptRow(row, sweep) == row
  {
    if Expired(row, sweep) {
      assert row.endDay.value * MS_PER_DAY < now;
      assert row.endDay.value <= Today(now);
    }
  }

  /** Sweeping shows in no later query: it returns the same rows as without the sweep. */
  lemma SweepIsInvisible(t: Tables, t': Tables, q: Query, sweep: int, now: int)
    requires IsSwept(t, t', sweep) && sweep <= now
    ensures Selected(t', q, Today(now)) == Selected(t, q, Today(now))
    ensures forall id :: id in Ids(Selected(t, q, Today(now))) ==> id in t.rows && t'.rows[id] == t.rows[id]
  {
    forall id | id in t.rows
      ensures InForce(t'.rows[id], q, Today(now)) <==> InForce(t.rows[id], q, Today(now))
      ensures InForce(t.rows[id], q, Today(now)) ==> t'.rows[id] == t.rows[id]
    {
      SweepHidesNothing(t.rows[id], q, sweep, now);
    }
    assert JoinedRows(t') == JoinedRows(t);
    forall j | j in JoinedRows(t) ensures Where(t', q, Today(now), j) <==> Where(t, q, Today(now), j) {
    }
  }

  /** The same after any number of sweeps. */
  lemma {:induction false} SweepsAreInvisible(states: seq<Tables>, sweeps: seq<int>, q: Query, now: int)
    requires |states| == |sweeps| + 1
    requires forall i :: 0 <= i < |sweeps| ==> IsSwept(states[i], states[i + 1], sweeps[i]) && sweeps[i] <= now
    ensures Selected(states[|sweeps|], q, Today(now)) == Selected(states[0], q, Today(now))
    decreases |sweeps|
  {
    if sweeps != [] {
      SweepIsInvisible(states[0], states[1], q, sweeps[0], now);
      SweepsAreInvisible(states[1..], sweeps[1..], q, now);
    }
  }
}
