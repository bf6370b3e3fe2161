/** Cutting the API document down to the operations of one tag and the schemas they use. */
module SchemaPruning {
  import opened Wrappers
  import opened Shared
  import opened Text

  const TAG := "M9Sweeper"

  /** A body or response: without a JSON schema, or with one whose `$ref` may be empty. */
  datatype Content = NoSchema | Schema(ref: string)

  datatype Operation = Operation(name: string, tags: seq<string>, body: Content, responses: seq<Content>)

  datatype PathItem = PathItem(path: string, operations: seq<Operation>)

  /** A property with the references it has; an empty one is an absent one. */
  datatype Property = Property(itemsRef: string, ref: string)

  type Schemas = map<string, seq<Property>>

  /** Splitting an undefined reference throws. */
  datatype Error = UndefinedReference

  // ---------- operations ----------

  predicate IsAllowed(o: Operation) {
    TAG in o.tags
  }

  function KeptOperations(os: seq<Operation>): seq<Operation> {
    if os == [] then []
    else (if IsAllowed(os[0]) then [os[0].(tags := [TAG])] else []) + KeptOperations(os[1..])
  }

  /** A path goes with its last operation; one that never had any stays. */
  function KeptPaths(ps: seq<PathItem>): seq<PathItem> {
    if ps == [] then []
    else
      var kept := KeptOperations(ps[0].operations);
      (if kept == [] && ps[0].operations != [] then [] else [ps[0].(operations := kept)]) + KeptPaths(ps[1..])
  }

  function ResponseRefs(rs: seq<Content>): seq<Option<string>> {
    if rs == [] then []
    else (if rs[0].Schema? && rs[0].ref != "" then [Some(rs[0].ref)] else []) + ResponseRefs(rs[1..])
  }

  /** The references an operation adds: that of its body, which may be undefined, unless it
      is a `get`, and those of its responses. */
  function OperationRefs(o: Operation): seq<Option<string>> {
    (if o.name == "get" || o.body.NoSchema? then []
     else [if o.body.ref == "" then None else Some(o.body.ref)]) + ResponseRefs(o.responses)
  }

  function AllRefs(os: seq<Operation>): seq<Option<string>> {
    if os == [] then [] else (if IsAllowed(os[0]) then OperationRefs(os[0]) else []) + AllRefs(os[1..])
  }

  function PathRefs(ps: seq<PathItem>): seq<Option<string>> {
    if ps == [] then [] else AllRefs(ps[0].operations) + PathRefs(ps[1..])
  }

  function LastSegment(ref: string): string {
    Last(Split(ref, "/"))
  }

  function Roots(refs: seq<Option<string>>): Result<seq<string>, Error> {
    if refs == [] then Ok([])
    else if refs[0].None? then Err(UndefinedReference)
    else
      var rest := Roots(refs[1..]);
      if rest.Err? then rest else Ok([LastSegment(refs[0].value)] + rest.value)
  }

  // ---------- references between schemas ----------

  /** The schema a property leads to: the reference of its items comes first, and only
      schemas that exist are followed. */
  function Follow(schemas: Schemas, p: Property): Option<string> {
    var ref := if p.itemsRef != "" then p.itemsRef else p.ref;
    var target := LastSegment(ref);
    if ref != "" && target != "" && target in schemas then Some(target) else None
  }

  function Targets(schemas: Schemas, ps: seq<Property>): (ts: seq<string>)
    ensures forall t :: t in ts ==> t in schemas
  {
    if ps == [] then []
    else
      var t := Follow(schemas, ps[0]);
      (if t.Some? then [t.value] else []) + Targets(schemas, ps[1..])
  }

  /** The schemas that a schema refers to, in the order of its properties. */
  function Next(schemas: Schemas, name: string): seq<string> {
    if name in schemas then Targets(schemas, schemas[name]) else []
  }

  // ---------- what references and operations mean ----------

  /** The segment holds no slash and is all that stands behind the last one. */
  predicate IsLastSegment(segment: string, ref: string) {
    '/' !in segment && (ref == segment || EndsWith(ref, "/" + segment))
  }

  /** What a last segment of the text behind a slash is for the whole. */
  lemma SegmentOfRest(first: string, rest: string, segment: string)
    requires IsLastSegment(segment, rest)
    ensures IsLastSegment(segment, first + "/" + rest)
  {
    var ref, m := first + "/" + rest, "/" + segment;
    if rest == segment {
      assert ref[|ref| - |m|..] == m;
    } else {
      assert ref[|ref| - |m|..] == rest[|rest| - |m|..];
    }
  }

  lemma {:induction false} LastSegmentIs(ref: string)
    ensures IsLastSegment(LastSegment(ref), ref)
    decreases |ref|
  {
    var i := IndexOf(ref, "/");
    if i == -1 {
      forall k | 0 <= k < |ref| ensures ref[k] != '/' {
        assert ref[k] == '/' ==> OccursAt(ref, "/", k);
      }
    } else {
      var first, rest := ref[..i], ref[i + 1..];
      LastSegmentIs(rest);
      LastOfConcat([first], Split(rest, "/"));
      OccursCuts(ref, "/", i);
      hide IsLastSegment, IndexOf, OccursAt;
      SegmentOfRest(first, rest, LastSegment(rest));
    }
  }

  /** Where a last segment stands. */
  lemma SegmentStands(ref: string, s: string)
    requires IsLastSegment(s, ref)
    ensures |s| <= |ref| && s == ref[|ref| - |s|..]
    ensures |s| < |ref| ==> ref[|ref| - |s| - 1] == '/'
    ensures forall k :: |ref| - |s| <= k < |ref| ==> ref[k] != '/'
  {
    if ref != s {
      var m := "/" + s;
      assert ref[|ref| - |m|..] == m && m[0] == '/' && m[1..] == s;
      assert ref[|ref| - |s|..] == ref[|ref| - |m|..][1..];
    }
    assert forall k :: |ref| - |s| <= k < |ref| ==> ref[k] == s[k - (|ref| - |s|)];
  }

  lemma LastSegmentExactly(ref: string, segment: string)
    ensures segment == LastSegment(ref) <==> IsLastSegment(segment, ref)
  {
    LastSegmentIs(ref);
    SegmentStands(ref, LastSegment(ref));
    if IsLastSegment(segment, ref) {
      SegmentStands(ref, segment);
    }
  }

  /** The property refers to the schema: by the reference of its items, or, without one, by its
      own. */
  predicate RefersTo(p: Property, t: string) {
    if p.itemsRef != "" then IsLastSegment(t, p.itemsRef) else p.ref != "" && IsLastSegment(t, p.ref)
  }

  lemma FollowExactly(schemas: Schemas, p: Property, t: string)
    ensures Follow(schemas, p) == Some(t) <==> t != "" && t in schemas && RefersTo(p, t)
  {
    LastSegmentExactly(p.itemsRef, t);
    LastSegmentExactly(p.ref, t);
    hide LastSegment, IsLastSegment;
  }

  lemma {:induction false} TargetsExactly(schemas: Schemas, ps: seq<Property>, t: string)
    ensures t in Targets(schemas, ps) <==> t != "" && t in schemas && exists p :: p in ps && RefersTo(p, t)
  {
    if ps != [] {
      TargetsExactly(schemas, ps[1..], t);
      FollowExactly(schemas, ps[0], t);
      FirstTarget(schemas, ps);
      hide RefersTo, Targets, Follow;
      assert forall p :: p in ps <==> p == ps[0] || p in ps[1..];
    }
  }

  lemma FirstTarget(schemas: Schemas, ps: seq<Property>)
    requires ps != []
    ensures forall t :: t in Targets(schemas, ps) <==> Follow(schemas, ps[0]) == Some(t) || t in Targets(schemas, ps[1..])
  {
    hide Follow;
  }

  /** A schema leads to exactly those existing schemas that one of its properties refers to. */
  lemma NextExactly(schemas: Schemas, name: string, t: string)
    ensures t in Next(schemas, name) <==>
      t != "" && t in schemas && name in schemas && exists p :: p in schemas[name] && RefersTo(p, t)
  {
    if name in schemas {
      TargetsExactly(schemas, schemas[name], t);
    }
  }

  /** The reference is that of the operation's body, unless it is a `get`, or of a response. */
  predicate Uses(o: Operation, ref: string) {
    TAG in o.tags && ((o.name != "get" && o.body == Schema(ref)) || (ref != "" && Schema(ref) in o.responses))
  }

  lemma {:induction false} ResponsesRefer(rs: seq<Content>, r: Option<string>)
    ensures r in ResponseRefs(rs) <==> r.Some? && r.value != "" && Schema(r.value) in rs
  {
    if rs != [] {
      ResponsesRefer(rs[1..], r);
      assert rs == [rs[0]] + rs[1..];
    }
  }

  /** The operation adds this reference; `None` is that of a body without one. */
  predicate Adds(o: Operation, r: Option<string>) {
    if r.None? then Uses(o, "") else r.value != "" && Uses(o, r.value)
  }

  lemma OperationRefers(o: Operation, r: Option<string>)
    ensures Adds(o, r) <==> IsAllowed(o) && r in OperationRefs(o)
  {
    ResponsesRefer(o.responses, r);
    hide ResponseRefs;
  }

  lemma {:induction false} OperationsRefer(os: seq<Operation>, r: Option<string>)
    ensures r in AllRefs(os) <==> exists o :: o in os && Adds(o, r)
  {
    if os != [] {
      OperationsRefer(os[1..], r);
      OperationRefers(os[0], r);
      assert forall o :: o in os <==> o == os[0] || o in os[1..];
      hide Adds, OperationRefs;
    }
  }

  lemma {:induction false} PathsRefer(ps: seq<PathItem>, r: Option<string>)
    ensures r in PathRefs(ps) <==>
      exists p, o :: p in ps && o in p.operations && Adds(o, r)
  {
    if ps != [] {
      PathsRefer(ps[1..], r);
      OperationsRefer(ps[0].operations, r);
      assert forall p :: p in ps <==> p == ps[0] || p in ps[1..];
      hide AllRefs, Adds;
    }
  }

  lemma {:induction false} RootsAre(refs: seq<Option<string>>, root: string)
    ensures Roots(refs).Err? <==> None in refs
    ensures Roots(refs).Ok? ==> (root in Roots(refs).value <==> exists r :: r in refs && r.Some? && IsLastSegment(root, r.value))
  {
    if refs != [] {
      RootsAre(refs[1..], root);
      assert refs == [refs[0]] + refs[1..];
      if refs[0].Some? {
        LastSegmentExactly(refs[0].value, root);
      }
      hide LastSegment, IsLastSegment;
    }
  }

  /** Pruning fails exactly when an operation of the tag, other than a `get`, has a body without
      a reference. Else it starts from the last segments of all references of the bodies, but
      those of `get`, and responses of the operations of the tag. */
  lemma RootsExactly(ps: seq<PathItem>, root: string)
    ensures Roots(PathRefs(ps)).Err? <==> exists p, o :: p in ps && o in p.operations && Uses(o, "")
    ensures Roots(PathRefs(ps)).Ok? ==>
      (root in Roots(PathRefs(ps)).value <==>
        exists p, o, ref :: p in ps && o in p.operations && Uses(o, ref) && IsLastSegment(root, ref))
  {
    RootsAre(PathRefs(ps), root);
    PathsRefer(ps, None);
    assert forall o :: Adds(o, None) <==> Uses(o, "");
    assert forall o, ref :: Adds(o, Some(ref)) <==> ref != "" && Uses(o, ref);
    hide Roots, PathRefs, Uses, IsLastSegment, Adds;
    if Roots(PathRefs(ps)).Ok? {
      forall r | r in PathRefs(ps) && r.Some? && IsLastSegment(root, r.value)
        ensures exists p, o, ref :: p in ps && o in p.operations && Uses(o, ref) && IsLastSegment(root, ref)
      {
        PathsRefer(ps, r);
        var p, o :| p in ps && o in p.operations && Adds(o, r);
        assert Uses(o, r.value);
      }
      forall p, o, ref | p in ps && o in p.operations && Uses(o, ref) && IsLastSegment(root, ref)
        ensures Some(ref) in PathRefs(ps)
      {
        PathsRefer(ps, Some(ref));
        assert ref == "" ==> Adds(o, None);
        assert Adds(o, Some(ref));
      }
    }
  }

  /** The operations of the tag are kept, in order, with that tag alone. */
  lemma {:induction false} KeptOperationsExactly(os: seq<Operation>)
    ensures var kept := Filter(os, (o: Operation) => "M9Sweeper" in o.tags);
      && |KeptOperations(os)| == |kept|
      && forall i :: 0 <= i < |kept| ==> KeptOperations(os)[i] == kept[i].(tags := ["M9Sweeper"])
  {
    if os != [] {
      KeptOperationsExactly(os[1..]);
    }
  }

  /** The paths that have an operation of the tag, or never had any, are kept, in order, with
      the operations of the tag. */
  lemma {:induction false} KeptPathsExactly(ps: seq<PathItem>)
    ensures var kept := Filter(ps, (p: PathItem) => p.operations == [] || exists o :: o in p.operations && TAG in o.tags);
      && |KeptPaths(ps)| == |kept|
      && forall i :: 0 <= i < |kept| ==> KeptPaths(ps)[i] == PathItem(kept[i].path, KeptOperations(kept[i].operations))
  {
    if ps != [] {
      KeptPathsExactly(ps[1..]);
      NoneKept(ps[0].operations);
      hide KeptOperations;
    }
  }

  lemma NoneKept(os: seq<Operation>)
    ensures KeptOperations(os) == [] <==> forall o :: o in os ==> TAG !in o.tags
  {
    KeptOperationsExactly(os);
    var kept := Filter(os, (o: Operation) => TAG in o.tags);
    assert kept != [] ==> kept[0] in kept;
    assert kept == [] ==> forall o :: o in os ==> o !in kept;
    hide Filter, KeptOperations;
  }

  // ---------- trails ----------

  ghost predicate IsTrail(schemas: Schemas, trail: seq<string>) {
    forall i :: 0 <= i < |trail| - 1 ==> trail[i + 1] in Next(schemas, trail[i])
  }

  ghost predicate IsTrailFromTo(schemas: Schemas, trail: seq<string>, a: string, b: string) {
    |trail| >= 2 && IsTrail(schemas, trail) && trail[0] == a && Last(trail) == b
  }

  /** `b` is reached from `a` by one reference or more. */
  ghost predicate Reaches(schemas: Schemas, a: string, b: string) {
    exists trail :: IsTrailFromTo(schemas, trail, a, b)
  }

  lemma ReachesNext(schemas: Schemas, a: string, b: string)
    requires b in Next(schemas, a)
    ensures Reaches(schemas, a, b)
  {
    assert IsTrailFromTo(schemas, [a, b], a, b);
  }

  lemma TrailsJoin(schemas: Schemas, x: seq<string>, y: seq<string>)
    requires x != [] && y != [] && IsTrail(schemas, x) && IsTrail(schemas, y) && Last(x) == y[0]
    ensures IsTrail(schemas, x + y[1..])
  {
    var z := x + y[1..];
    forall i | 0 <= i < |z| - 1 ensures z[i + 1] in Next(schemas, z[i]) {
      if i >= |x| - 1 {
        assert z[i] == y[i - |x| + 1] && z[i + 1] == y[i - |x| + 2];
      }
    }
  }

  lemma ReachesTransitive(schemas: Schemas, a: string, b: string, c: string)
    requires Reaches(schemas, a, b) && Reaches(schemas, b, c)
    ensures Reaches(schemas, a, c)
  {
    var x :| IsTrailFromTo(schemas, x, a, b);
    var y :| IsTrailFromTo(schemas, y, b, c);
    TrailsJoin(schemas, x, y);
    assert IsTrailFromTo(schemas, x + y[1..], a, c);
  }

  /** The first step of the way. */
  lemma FirstStep(schemas: Schemas, a: string, b: string) returns (t: string)
    requires Reaches(schemas, a, b)
    ensures t in Next(schemas, a) && (t == b || Reaches(schemas, t, b))
  {
    var x :| IsTrailFromTo(schemas, x, a, b);
    t := x[1];
    if |x| > 2 {
      assert IsTrailFromTo(schemas, x[1..], t, b);
    }
  }

  /** No cycle can be reached from here. */
  ghost predicate Acyclic(schemas: Schemas, name: string) {
    !Reaches(schemas, name, name) && forall n :: Reaches(schemas, name, n) ==> !Reaches(schemas, n, n)
  }

  lemma NextIsAcyclic(schemas: Schemas, name: string, t: string)
    requires Acyclic(schemas, name) && t in Next(schemas, name)
    ensures Acyclic(schemas, t)
  {
    ReachesNext(schemas, name, t);
    forall n | Reaches(schemas, t, n) ensures Reaches(schemas, name, n) {
      ReachesTransitive(schemas, name, t, n);
    }
  }

  /** Following a reference extends the way, which therefore cannot go on for ever. */
  lemma WayGrows(schemas: Schemas, onTheWay: set<string>, name: string, t: string)
    requires Acyclic(schemas, name) && t in Next(schemas, name)
    requires forall a :: a in onTheWay ==> a in schemas && Reaches(schemas, a, name)
    ensures forall a :: a in onTheWay + {name} ==> a in schemas && Reaches(schemas, a, t)
    ensures |schemas.Keys - (onTheWay + {name})| < |schemas.Keys - onTheWay|
    ensures Acyclic(schemas, t)
  {
    NextIsAcyclic(schemas, name, t);
    ReachesNext(schemas, name, t);
    forall a | a in onTheWay ensures Reaches(schemas, a, t) {
      ReachesTransitive(schemas, a, name, t);
    }
    assert schemas.Keys - onTheWay == (schemas.Keys - (onTheWay + {name})) + {name};
  }

  /** `n` is one of the names or reached from one of them. */
  ghost predicate ReachedFrom(schemas: Schemas, names: seq<string>, n: string) {
    exists t :: t in names && (t == n || Reaches(schemas, t, n))
  }

  lemma ReachesThroughNext(schemas: Schemas, name: string)
    ensures forall n :: Reaches(schemas, name, n) <==> ReachedFrom(schemas, Next(schemas, name), n)
  {
    forall n ensures Reaches(schemas, name, n) <==> ReachedFrom(schemas, Next(schemas, name), n) {
      if Reaches(schemas, name, n) {
        var t := FirstStep(schemas, name, n);
      }
      if t :| t in Next(schemas, name) && (t == n || Reaches(schemas, t, n)) {
        ReachesNext(schemas, name, t);
        if t != n {
          ReachesTransitive(schemas, name, t, n);
        }
      }
    }
  }

  lemma NothingReached(schemas: Schemas)
    ensures forall n :: !ReachedFrom(schemas, [], n)
  {
  }

  lemma ReachedFromMore(schemas: Schemas, names: seq<string>, i: nat)
    requires i < |names|
    ensures forall n :: ReachedFrom(schemas, names[..i + 1], n) <==>
      ReachedFrom(schemas, names[..i], n) || n == names[i] || Reaches(schemas, names[i], n)
  {
    var more := names[..i + 1];
    assert more == names[..i] + [names[i]];
    assert more[i] == names[i];
    forall n
      ensures ReachedFrom(schemas, more, n) <==>
        ReachedFrom(schemas, names[..i], n) || n == names[i] || Reaches(schemas, names[i], n)
    {
      if t :| t in more && (t == n || Reaches(schemas, t, n)) {
        assert t in names[..i] || t == names[i];
      }
      if t :| t in names[..i] && (t == n || Reaches(schemas, t, n)) {
        assert t in more;
      }
      assert names[i] in more;
    }
  }

  // ---------- the recursion ----------

  /** The recursion with a stack of `depth` calls; none is left when it overflows. */
  function Visit(schemas: Schemas, name: string, depth: nat): Option<seq<string>>
    decreases depth, 0
  {
    if depth == 0 then None else VisitAll(schemas, Next(schemas, name), depth - 1)
  }

  function VisitAll(schemas: Schemas, names: seq<string>, depth: nat): Option<seq<string>>
    decreases depth, 1 + |names|
  {
    if names == [] then Some([])
    else
      var nested :- Visit(schemas, names[0], depth);
      var rest :- VisitAll(schemas, names[1..], depth);
      Some([names[0]] + nested + rest)
  }

  lemma {:induction false} VisitAllEnds(schemas: Schemas, names: seq<string>, depth: nat)
    ensures VisitAll(schemas, names, depth).Some? <==> forall t :: t in names ==> Visit(schemas, t, depth).Some?
    decreases |names|
  {
    if names != [] {
      VisitAllEnds(schemas, names[1..], depth);
      assert names[0] in names && forall t :: t in names[1..] ==> t in names;
      assert forall t :: t in names ==> t == names[0] || t in names[1..];
    }
  }

  /** A stack as deep as there are schemas is enough for every way without a cycle. */
  lemma {:induction false} EnoughDepth(schemas: Schemas, name: string, onTheWay: set<string>, depth: nat)
    requires Acyclic(schemas, name) && |schemas.Keys - onTheWay| < depth
    requires forall a :: a in onTheWay ==> a in schemas && Reaches(schemas, a, name)
    ensures Visit(schemas, name, depth).Some?
    decreases |schemas.Keys - onTheWay|
  {
    hide Reaches, Acyclic, Next, VisitAll;
    VisitAllEnds(schemas, Next(schemas, name), depth - 1);
    forall t | t in Next(schemas, name) ensures Visit(schemas, t, depth - 1).Some? {
      WayGrows(schemas, onTheWay, name, t);
      EnoughDepth(schemas, t, onTheWay + {name}, depth - 1);
    }
  }

  /** A deeper stack changes nothing. */
  lemma {:induction false} DeeperVisit(schemas: Schemas, name: string, depth: nat, deeper: nat)
    requires Visit(schemas, name, depth).Some? && depth <= deeper
    ensures Visit(schemas, name, deeper) == Visit(schemas, name, depth)
    decreases depth, 0
  {
    DeeperVisitAll(schemas, Next(schemas, name), depth - 1, deeper - 1);
  }

  lemma {:induction false} DeeperVisitAll(schemas: Schemas, names: seq<string>, depth: nat, deeper: nat)
    requires VisitAll(schemas, names, depth).Some? && depth <= deeper
    ensures VisitAll(schemas, names, deeper) == VisitAll(schemas, names, depth)
    decreases depth, 1 + |names|
  {
    if names != [] {
      DeeperVisit(schemas, names[0], depth, deeper);
      DeeperVisitAll(schemas, names[1..], depth, deeper);
    }
  }

  lemma Reassociate(a: seq<string>, t: string, b: seq<string>, c: seq<string>)
    ensures a + ([t] + b + c) == a + [t] + b + c
  {
  }

  lemma NothingVisited(schemas: Schemas, names: seq<string>, depth: nat)
    ensures VisitAll(schemas, names[|names|..], depth) == Some([])
  {
  }

  /** The next name and what is below it come next. */
  lemma VisitStep(schemas: Schemas, names: seq<string>, depth: nat, i: nat)
    requires i < |names| && VisitAll(schemas, names[i..], depth).Some?
    ensures Visit(schemas, names[i], depth).Some? && VisitAll(schemas, names[i + 1..], depth).Some?
    ensures VisitAll(schemas, names[i..], depth).value ==
      [names[i]] + Visit(schemas, names[i], depth).value + VisitAll(schemas, names[i + 1..], depth).value
  {
    assert names[i..][1..] == names[i + 1..];
  }

  /** A recursion that ends lists exactly what is reached. */
  lemma {:induction false} VisitIsReached(schemas: Schemas, name: string, depth: nat)
    requires Visit(schemas, name, depth).Some?
    ensures forall n :: n in Visit(schemas, name, depth).value <==> Reaches(schemas, name, n)
    decreases depth, 0
  {
    VisitAllIsReached(schemas, Next(schemas, name), depth - 1);
    ReachesThroughNext(schemas, name);
  }

  lemma {:induction false} VisitAllIsReached(schemas: Schemas, names: seq<string>, depth: nat)
    requires VisitAll(schemas, names, depth).Some?
    ensures forall n :: n in VisitAll(schemas, names, depth).value <==> ReachedFrom(schemas, names, n)
    decreases depth, 1 + |names|
  {
    if names != [] {
      VisitIsReached(schemas, names[0], depth);
      VisitAllIsReached(schemas, names[1..], depth);
      ReachedFromFirst(schemas, names);
      hide Visit, Reaches, ReachedFrom;
    } else {
      NothingReached(schemas);
    }
  }

  lemma ReachedFromFirst(schemas: Schemas, names: seq<string>)
    requires names != []
    ensures forall n :: ReachedFrom(schemas, names, n) <==>
      n == names[0] || Reaches(schemas, names[0], n) || ReachedFrom(schemas, names[1..], n)
  {
    hide Reaches;
    assert names[0] in names && forall t :: t in names <==> t == names[0] || t in names[1..];
  }

  // ---------- the document ----------

  class SwaggerDocument {
    var paths: seq<PathItem>
    var schemas: Schemas
    var allowedSchemas: seq<string>

    constructor (paths: seq<PathItem>, schemas: Schemas)
      ensures this.paths == paths && this.schemas == schemas && allowedSchemas == []
    {
      this.paths, this.schemas, allowedSchemas := paths, schemas, [];
    }

    /** Appends every schema reached from `name`, as `Visit` lists them. The schemas on the way
        to `name` show that the recursion ends. */
    method FindAllNestedSchema(name: string, ghost onTheWay: set<string>, ghost depth: nat)
      requires Acyclic(schemas, name) && depth == |schemas.Keys - onTheWay| + 1
      requires forall a :: a in onTheWay ==> a in schemas && Reaches(schemas, a, name)
      modifies this`allowedSchemas
      ensures Visit(schemas, name, depth).Some?
      ensures allowedSchemas == old(allowedSchemas) + Visit(schemas, name, depth).value
      ensures forall n :: n in allowedSchemas <==> n in old(allowedSchemas) || Reaches(schemas, name, n)
      decreases |schemas.Keys - onTheWay|
    {
      EnoughDepth(schemas, name, onTheWay, depth);
      ghost var before, all := allowedSchemas, Visit(schemas, name, depth).value;
      var next := Next(schemas, name);
      assert VisitAll(schemas, next[0..], depth - 1) == Some(all) by {
        assert next[0..] == next;
      }
      hide Reaches, Acyclic, ReachedFrom, Next, Visit, VisitAll;
      for i := 0 to |next|
        invariant VisitAll(schemas, next[i..], depth - 1).Some?
        invariant allowedSchemas + VisitAll(schemas, next[i..], depth - 1).value == before + all
      {
        var target := next[i];
        VisitStep(schemas, next, depth - 1, i);
        Reassociate(allowedSchemas, target, Visit(schemas, target, depth - 1).value,
          VisitAll(schemas, next[i + 1..], depth - 1).value);
        allowedSchemas := allowedSchemas + [target];
        WayGrows(schemas, onTheWay, name, target);
        ghost var left := |schemas.Keys - (onTheWay + {name})| + 1;
        FindAllNestedSchema(target, onTheWay + {name}, left);
        DeeperVisit(schemas, target, left, depth - 1);
      }
      NothingVisited(schemas, next, depth - 1);
      VisitIsReached(schemas, name, depth);
    }

    /** Cuts the document down. Fails, with the operations already removed, when the body of
        an allowed operation has no reference. */
    method Prune() returns (r: Result<(), Error>)
      requires allowedSchemas == []
      requires var roots := Roots(PathRefs(paths));
        roots.Ok? ==> forall root :: root in roots.value ==> Acyclic(schemas, root)
      modifies this
      ensures paths == KeptPaths(old(paths))
      ensures r.Ok? <==> Roots(PathRefs(old(paths))).Ok?
      ensures r.Err? ==> schemas == old(schemas)
      ensures r.Ok? ==> Kept(old(schemas), Roots(PathRefs(old(paths))).value, schemas)
    {
      var refs := PrunePaths();
      var roots := Roots(refs);
      if roots.Err? {
        return Err(UndefinedReference);
      }
      allowedSchemas := roots.value;
      assert roots.value[..0] == [];
      NothingReached(schemas);
      for i := 0 to |roots.value|
        invariant schemas == old(schemas) && paths == KeptPaths(old(paths))
        invariant forall n :: n in allowedSchemas <==> n in roots.value || ReachedFrom(schemas, roots.value[..i], n)
      {
        assert schemas.Keys - {} == schemas.Keys;
        FindAllNestedSchema(roots.value[i], {}, |schemas.Keys| + 1);
        ReachedFromMore(schemas, roots.value, i);
      }
      assert roots.value[..|roots.value|] == roots.value;
      assert forall n :: n in roots.value ==> ReachedFrom(schemas, roots.value, n);
      var deletable := set n | n in schemas && n !in allowedSchemas;
      schemas := schemas - deletable;
      r := Ok(());
    }

    method PrunePaths() returns (refs: seq<Option<string>>)
      modifies this`paths
      ensures paths == KeptPaths(old(paths)) && refs == PathRefs(old(paths))
    {
      var before, kept := paths, [];
      refs := [];
      for i := 0 to |before|
        invariant paths == before
        invariant kept + KeptPaths(before[i..]) == KeptPaths(before)
        invariant refs + PathRefs(before[i..]) == PathRefs(before)
      {
        var operations := KeptOperations(before[i].operations);
        refs := refs + AllRefs(before[i].operations);
        if operations != [] || before[i].operations == [] {
          kept := kept + [before[i].(operations := operations)];
        }
      }
      paths := kept;
    }
  }

  // ---------- what is left ----------

  /** Exactly the existing schemas that the allowed operations use, directly or through
      others, are left, and as they were. */
  ghost predicate Kept(schemas: Schemas, roots: seq<string>, left: Schemas) {
    && (forall n :: n in left <==> n in schemas && ReachedFrom(schemas, roots, n))
    && forall n :: n in left ==> left[n] == schemas[n]
  }

  lemma {:induction false} TargetsKept(schemas: Schemas, left: Schemas, ps: seq<Property>)
    requires forall t :: t in Targets(schemas, ps) ==> t in left
    requires forall t :: t in left ==> t in schemas
    ensures Targets(left, ps) == Targets(schemas, ps)
  {
    if ps != [] {
      TargetsKept(schemas, left, ps[1..]);
      var t := Follow(schemas, ps[0]);
      assert t.Some? ==> t.value in Targets(schemas, ps);
    }
  }

  /** Nothing that was followed dangles: what is left leads where it led before. */
  lemma NothingDangles(schemas: Schemas, roots: seq<string>, left: Schemas, name: string)
    requires Kept(schemas, roots, left) && name in left
    ensures Next(left, name) == Next(schemas, name)
    ensures forall t :: t in Next(schemas, name) ==> t in left
  {
    forall t | t in Next(schemas, name) ensures t in left {
      ReachesNext(schemas, name, t);
      var root :| root in roots && (root == name || Reaches(schemas, root, name));
      if root != name {
        ReachesTransitive(schemas, root, name, t);
      }
      assert ReachedFrom(schemas, roots, t);
    }
    TargetsKept(schemas, left, schemas[name]);
  }

  // ---------- exactly when the recursion ends ----------

  /** A trail is no longer than the stack of a recursion that ends. */
  lemma {:induction false} TrailsAreShort(schemas: Schemas, name: string, depth: nat, trail: seq<string>)
    requires Visit(schemas, name, depth).Some? && IsTrail(schemas, trail) && trail != [] && trail[0] == name
    ensures |trail| <= depth
    decreases depth
  {
    if |trail| > 1 {
      VisitAllEnds(schemas, Next(schemas, name), depth - 1);
      assert trail[0 + 1] in Next(schemas, trail[0]);
      TrailsAreShort(schemas, trail[1], depth - 1, trail[1..]);
    }
  }

  /** Around a cycle there are trails of any length. */
  lemma {:induction false} LongTrail(schemas: Schemas, n: string, length: nat) returns (trail: seq<string>)
    requires Reaches(schemas, n, n)
    ensures IsTrail(schemas, trail) && |trail| > length && trail[0] == n
  {
    if length == 0 {
      trail := [n];
    } else {
      var cycle :| IsTrailFromTo(schemas, cycle, n, n);
      var rest := LongTrail(schemas, n, length - 1);
      TrailsJoin(schemas, cycle, rest);
      trail := cycle + rest[1..];
    }
  }

  /** The recursion ends, given a deep enough stack, exactly when it can reach no cycle. */
  lemma RecursionEndsExactly(schemas: Schemas, name: string)
    ensures (exists depth :: Visit(schemas, name, depth).Some?) <==> Acyclic(schemas, name)
  {
    if Acyclic(schemas, name) {
      EnoughDepth(schemas, name, {}, |schemas.Keys| + 1);
    }
    if depth :| Visit(schemas, name, depth).Some? {
      forall n | Reaches(schemas, name, n) || n == name ensures !Reaches(schemas, n, n) {
        if Reaches(schemas, n, n) {
          var trail := LongTrail(schemas, n, depth);
          if n == name {
            TrailsAreShort(schemas, name, depth, trail);
          } else {
            var way :| IsTrailFromTo(schemas, way, name, n);
            TrailsJoin(schemas, way, trail);
            TrailsAreShort(schemas, name, depth, way + trail[1..]);
          }
        }
      }
    }
  }

  const SELF_REFERENCE: Schemas := map["a" := [Property("", "a")]]

  /** One schema with a property of its own kind: no stack is deep enough. */
  lemma SelfReferenceNeverEnds()
    ensures !Acyclic(SELF_REFERENCE, "a") && forall depth :: Visit(SELF_REFERENCE, "a", depth) == None
  {
    var schemas := SELF_REFERENCE;
    assert "a"[0] != "/"[0];
    assert IndexOf("a", "/") == -1;
    assert Split("a", "/") == ["a"];
    assert Follow(schemas, Property("", "a")) == Some("a");
    assert Next(schemas, "a") == Targets(schemas, [Property("", "a")]) == ["a"];
    ReachesNext(schemas, "a", "a");
    RecursionEndsExactly(schemas, "a");
    forall depth ensures Visit(schemas, "a", depth) == None {
      assert !Visit(schemas, "a", depth).Some?;
    }
  }
}
