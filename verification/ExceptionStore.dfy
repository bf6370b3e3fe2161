/** Exceptions and the three tables that link them to policies, clusters and namespaces. */
module ExceptionStore {
  import opened Wrappers
  import opened Shared

  const ACTIVE := "active"
  const INACTIVE := "inactive"

  /** One row of `exceptions`. Dates are days since 1970-01-01. */
  datatype Row = Row(status: string, typ: string, startDay: Option<int>, endDay: Option<int>,
    allPolicies: bool, allClusters: bool, allNamespaces: bool, scannerId: Option<nat>,
    issueIdentifier: string, imageMatch: Option<string>, deleted: bool)

  /** What a request carries; an absent list is an empty one. */
  datatype Dto = Dto(status: string, typ: string, startDay: int, endDay: Option<int>, scannerId: Option<nat>,
    issueIdentifier: string, imageMatch: Option<string>,
    policies: seq<nat>, clusters: seq<nat>, namespaces: seq<string>)

  datatype Tables = Tables(rows: map<nat, Row>,
    policies: set<(nat, nat)>, clusters: set<(nat, nat)>, namespaces: set<(nat, string)>)

  /** The rows that foreign keys may point to. */
  datatype References = References(scanners: set<nat>, policies: set<nat>, clusters: set<nat>)

  datatype Error = ScannerMissing | ConstraintViolated

  // ---------- rows and links ----------

  function LinksOf<T(!new)>(links: set<(nat, T)>, id: nat): (values: set<T>)
    ensures forall v :: v in values <==> (id, v) in links
  {
    set l | l in links && l.0 == id :: l.1
  }

  function Link<T(==)>(id: nat, values: seq<T>): set<(nat, T)> {
    set v | v in values :: (id, v)
  }

  function Unlinked<T(==)>(links: set<(nat, T)>, id: nat): set<(nat, T)> {
    set l | l in links && l.0 != id
  }

  function Values<T(==)>(values: seq<T>): set<T> {
    set v | v in values
  }

  /** One insert of the links, against the primary key and the foreign key of its table. */
  predicate IdsInsertable(ids: seq<nat>, known: set<nat>) {
    NoRepeats(ids) && forall i :: i in ids ==> i in known
  }

  predicate NamesInsertable(names: seq<string>) {
    NoRepeats(names) && forall n :: n in names ==> |n| <= 255
  }

  predicate ScannerKnown(refs: References, dto: Dto) {
    dto.scannerId.Some? ==> dto.scannerId.value in refs.scanners
  }

  predicate LinksInsertable(refs: References, dto: Dto) {
    && IdsInsertable(dto.policies, refs.policies)
    && IdsInsertable(dto.clusters, refs.clusters)
    && NamesInsertable(dto.namespaces)
  }

  function NewRow(dto: Dto): Row {
    Row(dto.status, dto.typ, Some(dto.startDay), dto.endDay,
      dto.policies == [], dto.clusters == [], dto.namespaces == [], dto.scannerId,
      dto.issueIdentifier, if dto.imageMatch == Some("") then None else dto.imageMatch, false)
  }

  /** An update leaves the deletion mark alone, and the pattern when none is given. */
  function UpdatedRow(row: Row, dto: Dto): Row {
    NewRow(dto).(deleted := row.deleted,
      imageMatch := if dto.imageMatch.Some? then dto.imageMatch else row.imageMatch)
  }

  // ---------- what each operation does to the tables ----------

  /** Creation is four statements without a transaction: each one that fails leaves the
      work of those before it. */
  function Created(refs: References, t: Tables, id: nat, dto: Dto): Tables {
    if !ScannerKnown(refs, dto) then t
    else
      var t1 := t.(rows := t.rows[id := NewRow(dto)]);
      if !IdsInsertable(dto.policies, refs.policies) then t1
      else
        var t2 := t1.(policies := t1.policies + Link(id, dto.policies));
        if !IdsInsertable(dto.clusters, refs.clusters) then t2
        else
          var t3 := t2.(clusters := t2.clusters + Link(id, dto.clusters));
          if !NamesInsertable(dto.namespaces) then t3
          else t3.(namespaces := t3.namespaces + Link(id, dto.namespaces))
  }

  /** Whether the transaction of an update commits. */
  predicate UpdateCommits(refs: References, t: Tables, id: nat, dto: Dto) {
    if id in t.rows then ScannerKnown(refs, dto) && LinksInsertable(refs, dto)
    else dto.policies == [] && dto.clusters == [] && dto.namespaces == []
  }

  function Updated(refs: References, t: Tables, id: nat, dto: Dto): Tables {
    if id in t.rows && UpdateCommits(refs, t, id, dto) then
      Tables(t.rows[id := UpdatedRow(t.rows[id], dto)],
        Unlinked(t.policies, id) + Link(id, dto.policies),
        Unlinked(t.clusters, id) + Link(id, dto.clusters),
        Unlinked(t.namespaces, id) + Link(id, dto.namespaces))
    else t
  }

  function Deleted(t: Tables, id: nat): Tables {
    if id in t.rows then t.(rows := t.rows[id := t.rows[id].(deleted := true)]) else t
  }

  function WithStatus(t: Tables, id: nat, status: string): Tables {
    if id in t.rows then t.(rows := t.rows[id := t.rows[id].(status := status)]) else t
  }

  class ExceptionsDao {
    const refs: References
    var rows: map<nat, Row>
    var policies: set<(nat, nat)>
    var clusters: set<(nat, nat)>
    var namespaces: set<(nat, string)>
    var nextId: nat

    constructor (refs: References)
      ensures this.refs == refs && Valid() && View() == Tables(map[], {}, {}, {})
    {
      this.refs := refs;
      rows, policies, clusters, namespaces, nextId := map[], {}, {}, {}, 1;
    }

    function View(): Tables
      reads this
    {
      Tables(rows, policies, clusters, namespaces)
    }

    ghost predicate Valid()
      reads this
    {
      LinksKnown(View()) && forall id :: id in rows ==> id < nextId
    }

    method CreateException(dto: Dto) returns (r: Result<nat, Error>, ghost id: nat)
      requires Valid()
      modifies this
      ensures Valid() && id !in old(rows)
      ensures View() == Created(refs, old(View()), id, dto)
      ensures r == if !ScannerKnown(refs, dto) then Err(ScannerMissing)
                   else if !LinksInsertable(refs, dto) then Err(ConstraintViolated) else Ok(id)
    {
      var newId := nextId;
      id := newId;
      nextId := nextId + 1;
      if dto.scannerId.Some? && dto.scannerId.value !in refs.scanners {
        r := Err(ScannerMissing);
        return;
      }
      rows := rows[newId := NewRow(dto)];
      if dto.policies != [] {
        if !IdsInsertable(dto.policies, refs.policies) {
          r := Err(ConstraintViolated);
          return;
        }
        policies := policies + Link(newId, dto.policies);
      }
      if dto.clusters != [] {
        if !IdsInsertable(dto.clusters, refs.clusters) {
          r := Err(ConstraintViolated);
          return;
        }
        clusters := clusters + Link(newId, dto.clusters);
      }
      if dto.namespaces != [] {
        if !NamesInsertable(dto.namespaces) {
          r := Err(ConstraintViolated);
          return;
        }
        namespaces := namespaces + Link(newId, dto.namespaces);
      }
      r := Ok(newId);
    }

    method UpdateException(dto: Dto, id: nat) returns (r: Result<nat, Error>)
      requires Valid()
      modifies this
      ensures Valid() && nextId == old(nextId)
      ensures View() == Updated(refs, old(View()), id, dto)
      ensures r.Ok? <==> UpdateCommits(refs, old(View()), id, dto)
    {
      var before := View();
      var ok := true;
      if id in rows {
        ok := ScannerKnown(refs, dto);
        rows := rows[id := UpdatedRow(rows[id], dto)];
      }
      namespaces, clusters, policies := Unlinked(namespaces, id), Unlinked(clusters, id), Unlinked(policies, id);
      if ok && dto.namespaces != [] {
        ok := id in rows && NamesInsertable(dto.namespaces);
        namespaces := namespaces + Link(id, dto.namespaces);
      }
      if ok && dto.policies != [] {
        ok := id in rows && IdsInsertable(dto.policies, refs.policies);
        policies := policies + Link(id, dto.policies);
      }
      if ok && dto.clusters != [] {
        ok := id in rows && IdsInsertable(dto.clusters, refs.clusters);
        clusters := clusters + Link(id, dto.clusters);
      }
      if !ok {
        // the statement that failed has no effect, and the rollback undoes the others
        rows, policies, clusters, namespaces := before.rows, before.policies, before.clusters, before.namespaces;
        return Err(ConstraintViolated);
      }
      r := Ok(id);
    }

    method DeleteException(id: nat)
      requires Valid()
      modifies this
      ensures Valid() && View() == Deleted(old(View()), id)
    {
      if id in rows {
        rows := rows[id := rows[id].(deleted := true)];
      }
    }

    method UpdateExceptionStatus(id: nat, status: string)
      requires Valid()
      modifies this
      ensures Valid() && View() == WithStatus(old(View()), id, status)
    {
      if id in rows {
        rows := rows[id := rows[id].(status := status)];
      }
    }
  }

  // ---------- what is stored ----------

  /** The other rows and links are as before. */
  ghost predicate OthersKept(t: Tables, t': Tables, id: nat) {
    && t'.rows.Keys == t.rows.Keys + {id}
    && (forall other :: other in t.rows && other != id ==> t'.rows[other] == t.rows[other])
    && (forall other, p :: other != id ==> ((other, p) in t'.policies <==> (other, p) in t.policies))
    && (forall other, c :: other != id ==> ((other, c) in t'.clusters <==> (other, c) in t.clusters))
    && (forall other, n :: other != id ==> ((other, n) in t'.namespaces <==> (other, n) in t.namespaces))
  }

  /** The exception is linked to what the request lists and to nothing else. */
  ghost predicate LinkedAsAsked(t: Tables, id: nat, dto: Dto) {
    && (forall p :: (id, p) in t.policies <==> p in dto.policies)
    && (forall c :: (id, c) in t.clusters <==> c in dto.clusters)
    && (forall n :: (id, n) in t.namespaces <==> n in dto.namespaces)
  }

  /** A creation that works stores each column and each link as asked for. An empty pattern is
      stored as none. */
  lemma CreatedAsAsked(refs: References, t: Tables, id: nat, dto: Dto)
    requires LinksKnown(t) && id !in t.rows && ScannerKnown(refs, dto) && LinksInsertable(refs, dto)
    ensures var t' := Created(refs, t, id, dto);
      && OthersKept(t, t', id) && LinkedAsAsked(t', id, dto)
      && t'.rows[id] == Row(dto.status, dto.typ, Some(dto.startDay), dto.endDay, |dto.policies| == 0,
           |dto.clusters| == 0, |dto.namespaces| == 0, dto.scannerId, dto.issueIdentifier,
           if dto.imageMatch == Some("") then None else dto.imageMatch, false)
  {
  }

  /** A creation that fails: nothing is stored for an unknown scanner. Else the exception is, and
      its links as far as the inserts went: policies, then clusters, then namespaces. */
  lemma CutShortExactly(refs: References, t: Tables, id: nat, dto: Dto)
    requires LinksKnown(t) && id !in t.rows
    ensures !ScannerKnown(refs, dto) ==> Created(refs, t, id, dto) == t
    ensures ScannerKnown(refs, dto) ==>
      var t' := Created(refs, t, id, dto);
      var p := NoRepeats(dto.policies) && forall x :: x in dto.policies ==> x in refs.policies;
      var c := NoRepeats(dto.clusters) && forall x :: x in dto.clusters ==> x in refs.clusters;
      var n := NoRepeats(dto.namespaces) && forall x :: x in dto.namespaces ==> |x| <= 255;
      && OthersKept(t, t', id) && t'.rows[id] == NewRow(dto)
      && (forall x :: (id, x) in t'.policies <==> p && x in dto.policies)
      && (forall x :: (id, x) in t'.clusters <==> p && c && x in dto.clusters)
      && (forall x :: (id, x) in t'.namespaces <==> p && c && n && x in dto.namespaces)
  {
  }

  /** An update that works does the same to an existing exception. It keeps the deletion mark,
      and the pattern when none is given; an empty pattern is stored as it is. */
  lemma UpdatedAsAsked(refs: References, t: Tables, id: nat, dto: Dto)
    requires LinksKnown(t) && id in t.rows && ScannerKnown(refs, dto) && LinksInsertable(refs, dto)
    ensures var t' := Updated(refs, t, id, dto);
      && OthersKept(t, t', id) && LinkedAsAsked(t', id, dto)
      && t'.rows[id] == Row(dto.status, dto.typ, Some(dto.startDay), dto.endDay, |dto.policies| == 0,
           |dto.clusters| == 0, |dto.namespaces| == 0, dto.scannerId, dto.issueIdentifier,
           if dto.imageMatch.Some? then dto.imageMatch else t.rows[id].imageMatch, t.rows[id].deleted)
  {
  }

  /** A deletion sets the mark of one exception and changes nothing else. */
  lemma DeletedAsAsked(t: Tables, id: nat)
    requires LinksKnown(t) && id in t.rows
    ensures var t' := Deleted(t, id);
      && t'.policies == t.policies && t'.clusters == t.clusters && t'.namespaces == t.namespaces
      && OthersKept(t, t', id)
      && t'.rows[id].deleted && t'.rows[id].(deleted := t.rows[id].deleted) == t.rows[id]
  {
  }

  // ---------- the flags ----------

  /** The foreign key of one link table. */
  ghost predicate Known<T>(rows: map<nat, Row>, links: set<(nat, T)>) {
    forall l :: l in links ==> l.0 in rows
  }

  ghost predicate LinksKnown(t: Tables) {
    Known(t.rows, t.policies) && Known(t.rows, t.clusters) && Known(t.rows, t.namespaces)
  }

  /** An exception is for all of one kind exactly when it has no link of that kind. */
  ghost predicate FlagMatches<T(!new)>(rows: map<nat, Row>, links: set<(nat, T)>, forAll: Row -> bool) {
    Known(rows, links) && forall id :: id in rows ==> (forAll(rows[id]) <==> LinksOf(links, id) == {})
  }

  const ALL_POLICIES := (row: Row) => row.allPolicies
  const ALL_CLUSTERS := (row: Row) => row.allClusters
  const ALL_NAMESPACES := (row: Row) => row.allNamespaces

  ghost predicate Sound(t: Tables) {
    && FlagMatches(t.rows, t.policies, ALL_POLICIES)
    && FlagMatches(t.rows, t.clusters, ALL_CLUSTERS)
    && FlagMatches(t.rows, t.namespaces, ALL_NAMESPACES)
  }

  datatype Op = Create(id: nat, dto: Dto) | Update(id: nat, dto: Dto) | Delete(id: nat) | SetStatus(id: nat, status: string)

  ghost function Step(refs: References, t: Tables, op: Op): Tables {
    match op
    case Create(id, dto) => Created(refs, t, id, dto)
    case Update(id, dto) => Updated(refs, t, id, dto)
    case Delete(id) => Deleted(t, id)
    case SetStatus(id, status) => WithStatus(t, id, status)
  }

  ghost predicate Possible(t: Tables, op: Op) {
    op.Create? ==> op.id !in t.rows
  }

  /** A creation that stores the exception but fails on one of its links. */
  ghost predicate HalfCreates(refs: References, op: Op) {
    op.Create? && ScannerKnown(refs, op.dto) && !LinksInsertable(refs, op.dto)
  }

  lemma LinksAfterLink<T(!new)>(links: set<(nat, T)>, id: nat, values: seq<T>, other: nat)
    ensures LinksOf(links + Link(id, values), other) ==
      LinksOf(links, other) + if other == id then Values(values) else {}
    ensures LinksOf(Unlinked(links, id), other) == if other == id then {} else LinksOf(links, other)
  {
    assert forall v :: (other, v) in Link(id, values) <==> other == id && v in values;
  }

  /** One kind of link of a fresh exception: its flag matches when the insert worked, or
      when there was nothing to insert. */
  lemma FlagOfNew<T(!new)>(rows: map<nat, Row>, links: set<(nat, T)>, forAll: Row -> bool,
      id: nat, row: Row, values: seq<T>, inserted: bool)
    requires FlagMatches(rows, links, forAll) && id !in rows && (forAll(row) <==> values == [])
    ensures FlagMatches(rows[id := row], if inserted then links + Link(id, values) else links, forAll)
      <==> inserted || values == []
  {
    var rows' := rows[id := row];
    var links' := if inserted then links + Link(id, values) else links;
    forall other | other in rows
      ensures LinksOf(links', other) == LinksOf(links, other)
    {
      LinksAfterLink(links, id, values, other);
    }
    assert LinksOf(links, id) == {};
    LinksAfterLink(links, id, values, id);
    NothingToLink(values);
    assert id in rows';
  }

  lemma NothingToLink<T>(values: seq<T>)
    ensures Values(values) == {} <==> values == []
  {
    if values != [] {
      assert values[0] in Values(values);
    }
  }

  /** A creation keeps flags and links in step exactly when it is not cut short between the
      exception and its links. */
  lemma CreateKeepsSound(refs: References, t: Tables, id: nat, dto: Dto)
    requires Sound(t) && id !in t.rows
    ensures Sound(Created(refs, t, id, dto)) <==> !HalfCreates(refs, Create(id, dto))
  {
    var p := IdsInsertable(dto.policies, refs.policies);
    var c := p && IdsInsertable(dto.clusters, refs.clusters);
    var n := c && NamesInsertable(dto.namespaces);
    FlagOfNew(t.rows, t.policies, ALL_POLICIES, id, NewRow(dto), dto.policies, p);
    FlagOfNew(t.rows, t.clusters, ALL_CLUSTERS, id, NewRow(dto), dto.clusters, c);
    FlagOfNew(t.rows, t.namespaces, ALL_NAMESPACES, id, NewRow(dto), dto.namespaces, n);
    hide FlagMatches;
  }

  lemma FlagOfUpdated<T(!new)>(rows: map<nat, Row>, links: set<(nat, T)>, forAll: Row -> bool,
      id: nat, row: Row, values: seq<T>)
    requires FlagMatches(rows, links, forAll) && id in rows && (forAll(row) <==> values == [])
    ensures FlagMatches(rows[id := row], Unlinked(links, id) + Link(id, values), forAll)
  {
    var u := Unlinked(links, id);
    forall other | other in rows
      ensures LinksOf(u + Link(id, values), other) == if other == id then Values(values) else LinksOf(links, other)
    {
      LinksAfterLink(links, id, values, other);
      LinksAfterLink(u, id, values, other);
    }
    NothingToLink(values);
  }

  /** An update keeps flags and links in step, committed or rolled back. */
  lemma UpdateKeepsSound(refs: References, t: Tables, id: nat, dto: Dto)
    requires Sound(t)
    ensures Sound(Updated(refs, t, id, dto))
    ensures !UpdateCommits(refs, t, id, dto) ==> Updated(refs, t, id, dto) == t
  {
    if id in t.rows {
      var row := UpdatedRow(t.rows[id], dto);
      FlagOfUpdated(t.rows, t.policies, ALL_POLICIES, id, row, dto.policies);
      FlagOfUpdated(t.rows, t.clusters, ALL_CLUSTERS, id, row, dto.clusters);
      FlagOfUpdated(t.rows, t.namespaces, ALL_NAMESPACES, id, row, dto.namespaces);
    }
    hide FlagMatches;
  }

  lemma FlagKept<T(!new)>(rows: map<nat, Row>, links: set<(nat, T)>, forAll: Row -> bool, id: nat, row: Row)
    requires FlagMatches(rows, links, forAll) && id in rows && forAll(row) == forAll(rows[id])
    ensures FlagMatches(rows[id := row], links, forAll)
  {
  }

  lemma RowKeepsSound(t: Tables, id: nat, row: Row)
    requires Sound(t) && id in t.rows && row.allPolicies == t.rows[id].allPolicies
    requires row.allClusters == t.rows[id].allClusters && row.allNamespaces == t.rows[id].allNamespaces
    ensures Sound(t.(rows := t.rows[id := row]))
  {
    FlagKept(t.rows, t.policies, ALL_POLICIES, id, row);
    FlagKept(t.rows, t.clusters, ALL_CLUSTERS, id, row);
    FlagKept(t.rows, t.namespaces, ALL_NAMESPACES, id, row);
    hide FlagMatches;
  }

  lemma StepKeepsSound(refs: References, t: Tables, op: Op)
    requires Sound(t) && Possible(t, op)
    ensures Sound(Step(refs, t, op)) <==> !HalfCreates(refs, op)
  {
    hide Sound;
    if op.Create? {
      CreateKeepsSound(refs, t, op.id, op.dto);
    } else if op.Update? {
      UpdateKeepsSound(refs, t, op.id, op.dto);
    } else if op.id in t.rows {
      RowKeepsSound(t, op.id, Step(refs, t, op).rows[op.id]);
    }
  }

  ghost predicate IsRun(refs: References, states: seq<Tables>, ops: seq<Op>) {
    && |states| == |ops| + 1 && states[0] == Tables(map[], {}, {}, {})
    && forall i :: 0 <= i < |ops| ==> Possible(states[i], ops[i]) && states[i + 1] == Step(refs, states[i], ops[i])
  }

  lemma {:induction false} SoundUpTo(refs: References, states: seq<Tables>, ops: seq<Op>, i: nat)
    requires IsRun(refs, states, ops) && i < |states|
    requires forall k :: 0 <= k < i ==> !HalfCreates(refs, ops[k])
    ensures Sound(states[i])
  {
    if i > 0 {
      SoundUpTo(refs, states, ops, i - 1);
      StepKeepsSound(refs, states[i - 1], ops[i - 1]);
    }
  }

  /** Over a run, flags match links throughout exactly when no creation is cut short. */
  lemma RunsKeepFlags(refs: References, states: seq<Tables>, ops: seq<Op>)
    requires IsRun(refs, states, ops)
    ensures (forall i :: 0 <= i < |states| ==> Sound(states[i]))
      <==> (forall i :: 0 <= i < |ops| ==> !HalfCreates(refs, ops[i]))
  {
    if forall i :: 0 <= i < |ops| ==> !HalfCreates(refs, ops[i]) {
      forall i | 0 <= i < |states| ensures Sound(states[i]) {
        SoundUpTo(refs, states, ops, i);
      }
    } else {
      var i :| 0 <= i < |ops| && HalfCreates(refs, ops[i]);
      if Sound(states[i]) {
        StepKeepsSound(refs, states[i], ops[i]);
        assert !Sound(states[i + 1]);
      }
    }
  }

  const UNKNOWN_CLUSTER := Dto(ACTIVE, "policy", 0, None, None, "", None, [], [7], [])

  ghost function CutShort(): seq<Tables> {
    [Tables(map[], {}, {}, {}), Tables(map[1 := NewRow(UNKNOWN_CLUSTER)], {}, {}, {})]
  }

  /** One request, naming a cluster that does not exist, leaves an exception that is neither
      for all clusters nor for any. */
  lemma ACreationIsCutShort()
    ensures var refs, s := References({}, {}, {}), CutShort();
      && IsRun(refs, s, [Create(1, UNKNOWN_CLUSTER)]) && HalfCreates(refs, Create(1, UNKNOWN_CLUSTER))
      && !s[1].rows[1].allClusters && LinksOf(s[1].clusters, 1) == {} && !Sound(s[1])
  {
    var refs, s := References({}, {}, {}), CutShort();
    assert 7 in UNKNOWN_CLUSTER.clusters && !IdsInsertable([7], refs.clusters);
    assert Link(1, UNKNOWN_CLUSTER.policies) == {};
    assert Created(refs, s[0], 1, UNKNOWN_CLUSTER) == s[1];
    assert LinksOf(s[1].clusters, 1) == {} && 1 in s[1].rows;
  }
}
