/** The audit log's difference between the previous and the updated state of an entity. */
module AuditDiff {
  import opened Wrappers
  import opened Text

  /** JSON data; a scalar is a boolean or number by its JSON text. */
  datatype Json = Null | Scalar(text: string) | String(chars: string) | Array(items: seq<Json>) | Object(fields: map<string, Json>)

  type Fields = map<string, Json>

  /** The map with a value for each of the keys that `f` has a value for. */
  ghost function Tabulate(keys: set<string>, f: string --> Option<Json>): (m: Fields)
    requires forall k :: k in keys ==> f.requires(k)
    ensures forall k :: k in m <==> k in keys && f(k).Some?
    ensures forall k :: k in m ==> m[k] == f(k).value
  {
    if keys == {} then map[]
    else
      var k :| k in keys;
      var rest := Tabulate(keys - {k}, f);
      if f(k).Some? then rest[k := f(k).value] else rest
  }

  // ---------- the difference ----------

  /** `null` or `undefined`, of which no property can be read. */
  predicate Nullish(j: Option<Json>) {
    j.None? || j.value.Null?
  }

  /** The index below `n` that the key spells. */
  function IndexNamed(key: string, n: nat): (r: Option<nat>)
    ensures r.Some? ==> r.value < n && Decimal(r.value) == key
    ensures r.None? ==> forall i :: 0 <= i < n ==> Decimal(i) != key
  {
    if n == 0 then None else if Decimal(n - 1) == key then Some(n - 1) else IndexNamed(key, n - 1)
  }

  /** `post[key]`; `None` is `undefined`. Arrays and strings have a length and elements. */
  function FieldOf(post: Option<Json>, key: string): Option<Json> {
    if post.None? then None
    else match post.value
      case Object(fields) => if key in fields then Some(fields[key]) else None
      case Array(items) =>
        if key == "length" then Some(Scalar(Decimal(|items|)))
        else
          var i :- IndexNamed(key, |items|);
          Some(items[i])
      case String(chars) =>
        if key == "length" then Some(Scalar(Decimal(|chars|)))
        else
          var i :- IndexNamed(key, |chars|);
          Some(String([chars[i]]))
      case _ => None
  }

  /** `x !== y`, where `x` is a copy: two objects or arrays are never the same. */
  predicate StrictlyDiffers(x: Json, y: Json) {
    x != y || x.Object? || x.Array?
  }

  /** `post.length === n`. Strings have a length too, and objects may have such a field. */
  predicate HasLength(post: Json, n: nat) {
    match post
    case Array(items) => |items| == n
    case String(chars) => |chars| == n
    case Object(fields) => "length" in fields && fields["length"] == Scalar(Decimal(n))
    case _ => false
  }

  /** `post[i]`; `None` is `undefined`. */
  function Element(post: Json, i: nat): Option<Json> {
    match post
    case Array(items) => if i < |items| then Some(items[i]) else None
    case String(chars) => if i < |chars| then Some(String([chars[i]])) else None
    case Object(fields) => if Decimal(i) in fields then Some(fields[Decimal(i)]) else None
    case _ => None
  }

  predicate SameAt(items: seq<Json>, post: Json, i: nat)
    requires i < |items|
  {
    Element(post, i).Some? && !StrictlyDiffers(items[i], Element(post, i).value)
  }

  /** An array is compared by length and elements, with whatever the other value is. */
  predicate SameArray(items: seq<Json>, post: Option<Json>) {
    post.Some? && HasLength(post.value, |items|) && forall i :: 0 <= i < |items| ==> SameAt(items, post.value, i)
  }

  function Record(pre: Json, post: Option<Json>): Json {
    Object(if post.Some? then map["pre" := pre, "post" := post.value] else map["pre" := pre])
  }

  /** Whether comparing throws: an object with fields, or an array, against nothing. */
  ghost predicate Throws(pre: Fields, post: Option<Json>)
    decreases Object(pre), 0
  {
    pre != map[] && (Nullish(post) || exists k :: k in pre && ThrowsField(pre[k], FieldOf(post, k)))
  }

  ghost predicate ThrowsField(pre: Json, post: Option<Json>)
    decreases pre, 1
  {
    match pre
    case Object(fields) => Throws(fields, post)
    case Array(_) => Nullish(post)
    case _ => false
  }

  ghost function Diff(pre: Fields, post: Option<Json>): (d: Fields)
    requires !Throws(pre, post)
    decreases Object(pre), 0
  {
    Tabulate(pre.Keys, (k: string) requires k in pre => DiffField(pre[k], FieldOf(post, k)))
  }

  /** What becomes of one field; `None` is a deleted one. */
  ghost function DiffField(pre: Json, post: Option<Json>): Option<Json>
    requires !ThrowsField(pre, post)
    decreases pre, 1
  {
    match pre
    case Object(fields) => Some(Object(Diff(fields, post)))
    case Array(items) => Some(if SameArray(items, post) then pre else Record(pre, post))
    case _ => if post == Some(pre) then None else Some(Record(pre, post))
  }

  class JsonObject {
    var fields: Fields

    constructor (fields: Fields)
      ensures this.fields == fields
    {
      this.fields := fields;
    }

    static method AnyDiffers(items: seq<Json>, post: Json) returns (changed: bool)
      ensures changed <==> exists i :: 0 <= i < |items| && !SameAt(items, post, i)
    {
      for i := 0 to |items|
        invariant forall j :: 0 <= j < i ==> SameAt(items, post, j)
      {
        if !SameAt(items, post, i) {
          return true;
        }
      }
      changed := false;
    }

    /** Turns `this` into the difference, field by field. */
    method CalculateDiff(post: Option<Json>) returns (ok: bool)
      modifies this
      ensures ok <==> !Throws(old(fields), post)
      ensures ok ==> fields == Diff(old(fields), post)
      decreases Object(fields), 0
    {
      hide DiffField, ThrowsField, FieldOf;
      var pre := fields;
      var keys := fields.Keys;
      if keys != {} && Nullish(post) {
        return false;
      }
      while keys != {}
        invariant keys <= pre.Keys && fields.Keys <= pre.Keys
        invariant pre != map[] ==> !Nullish(post)
        invariant forall k :: k in keys ==> k in fields && fields[k] == pre[k]
        invariant forall k :: k in pre && k !in keys ==> !ThrowsField(pre[k], FieldOf(post, k))
        invariant forall k :: k in pre && k !in keys ==>
          (if k in fields then Some(fields[k]) else None) == DiffField(pre[k], FieldOf(post, k))
        decreases keys
      {
        var key :| key in keys;
        keys := keys - {key};
        var theirs := FieldOf(post, key);
        var fieldOk, d := CalculateField(fields[key], theirs);
        if !fieldOk {
          return false;
        }
        if d.Some? {
          fields := fields[key := d.value];
        } else {
          fields := fields - {key};
        }
      }
      ok := true;
    }

    static method CalculateField(mine: Json, theirs: Option<Json>) returns (ok: bool, d: Option<Json>)
      ensures ok <==> !ThrowsField(mine, theirs)
      ensures ok ==> d == DiffField(mine, theirs)
      decreases mine, 1
    {
      ok, d := true, Some(mine);
      if mine.Object? {
        var nested := new JsonObject(mine.fields);
        ok := nested.CalculateDiff(theirs);
        d := Some(Object(nested.fields));
      } else if mine.Array? {
        if Nullish(theirs) {
          return false, None;
        }
        var changed := !HasLength(theirs.value, |mine.items|);
        if !changed {
          changed := AnyDiffers(mine.items, theirs.value);
        }
        if changed {
          d := Some(Record(mine, theirs));
        }
      } else if theirs != Some(mine) {
        d := Some(Record(mine, theirs));
      } else {
        d := None;
      }
    }

    /** The difference stored in the audit log. Nothing that exists before is modified: the
        previous state is copied, and a missing one leaves the current one as it is. */
    static method CalculateObjectDiff(previous: JsonObject?, current: JsonObject?) returns (ok: bool, diff: JsonObject?)
      ensures previous == null || current == null ==> ok && diff == current
      ensures previous != null && current != null ==>
        (ok <==> !Throws(previous.fields, Some(Object(current.fields)))) &&
        (ok ==> diff != null && fresh(diff) && diff.fields == Diff(previous.fields, Some(Object(current.fields))))
    {
      if previous != null && current != null {
        diff := new JsonObject(previous.fields);
        ok := diff.CalculateDiff(Some(Object(current.fields)));
      } else {
        ok, diff := true, current;
      }
    }
  }

  // ---------- nothing is lost ----------

  /** The same keys, and under each of them values of the same kind. */
  ghost predicate SameShape(pre: Fields, post: Fields)
    decreases Object(pre), 0
  {
    pre.Keys == post.Keys && forall k :: k in pre ==> SameKind(pre[k], post[k])
  }

  ghost predicate SameKind(pre: Json, post: Json)
    decreases pre, 1
  {
    match pre
    case Object(fields) => post.Object? && SameShape(fields, post.fields)
    case Array(_) => post.Array?
    case _ => !post.Object? && !post.Array?
  }

  lemma {:induction false} SameShapeNeverThrows(pre: Fields, post: Fields)
    requires SameShape(pre, post)
    ensures !Throws(pre, Some(Object(post)))
    decreases Object(pre)
  {
    forall k | k in pre ensures !ThrowsField(pre[k], FieldOf(Some(Object(post)), k)) {
      if pre[k].Object? {
        SameShapeNeverThrows(pre[k].fields, post[k].fields);
      }
    }
  }

  /** Reading the previous state off the difference and the updated state. */
  ghost function Recover(diff: Fields, post: Fields): Fields
    decreases Object(post), 0
  {
    Tabulate(post.Keys, (k: string) requires k in post =>
      Some(RecoverField(if k in diff then Some(diff[k]) else None, post[k])))
  }

  /** A missing field is unchanged; a record has the old value; objects recurse. */
  ghost function RecoverField(d: Option<Json>, post: Json): Json
    decreases post, 1
  {
    if d.None? then post
    else if post.Object? && d.value.Object? then Object(Recover(d.value.fields, post.fields))
    else if d.value.Object? && "pre" in d.value.fields then d.value.fields["pre"]
    else d.value
  }

  lemma {:induction false} RecoversField(pre: Json, post: Json)
    requires SameKind(pre, post)
    ensures !ThrowsField(pre, Some(post)) && RecoverField(DiffField(pre, Some(post)), post) == pre
    decreases pre, 1
  {
    match pre
    case Object(fields) => RecoversAll(fields, post.fields);
    case Array(items) =>
      if SameArray(items, Some(post)) {
        forall i | 0 <= i < |items| ensures items[i] == post.items[i] {
          assert SameAt(items, post, i);
        }
      }
    case _ =>
  }

  /** For states of the same shape the difference is always found, and together with the
      updated state it gives the previous state back. */
  lemma {:induction false} RecoversAll(pre: Fields, post: Fields)
    requires SameShape(pre, post)
    ensures !Throws(pre, Some(Object(post))) && Recover(Diff(pre, Some(Object(post))), post) == pre
    decreases Object(pre), 0
  {
    SameShapeNeverThrows(pre, post);
    var p := Some(Object(post));
    var d := Diff(pre, p);
    forall k | k in pre
      ensures FieldOf(p, k) == Some(post[k])
      ensures RecoverField(if k in d then Some(d[k]) else None, post[k]) == pre[k]
    {
      RecoversField(pre[k], post[k]);
    }
  }

  // ---------- what survives ----------

  /** What the other state has under a path. */
  function Counterpart(post: Option<Json>, path: seq<string>): Option<Json>
    decreases |path|
  {
    if path == [] then post else Counterpart(FieldOf(post, path[0]), path[1..])
  }

  /** An array or an object with fields stands under the path, against nothing or null. */
  ghost predicate HasNothingAgainst(pre: Json, post: Option<Json>, path: seq<string>) {
    var j := At(pre, path);
    && j.Some? && (j.value.Array? || (j.value.Object? && j.value.fields != map[]))
    && Nullish(Counterpart(post, path))
  }

  lemma {:induction false} NothingAgainstThrows(pre: Json, post: Option<Json>, path: seq<string>)
    requires HasNothingAgainst(pre, post, path)
    ensures ThrowsField(pre, post)
    decreases |path|
  {
    if path != [] {
      assert HasNothingAgainst(pre.fields[path[0]], FieldOf(post, path[0]), path[1..]);
      NothingAgainstThrows(pre.fields[path[0]], FieldOf(post, path[0]), path[1..]);
    }
  }

  lemma {:induction false} ThrowsOnNothing(pre: Json, post: Option<Json>) returns (path: seq<string>)
    requires ThrowsField(pre, post)
    ensures HasNothingAgainst(pre, post, path)
    decreases pre
  {
    if Nullish(post) {
      path := [];
    } else {
      var k :| k in pre.fields && ThrowsField(pre.fields[k], FieldOf(post, k));
      var rest := ThrowsOnNothing(pre.fields[k], FieldOf(post, k));
      path := [k] + rest;
      assert path[1..] == rest;
    }
  }

  /** The comparison throws exactly when somewhere, at any depth, an array or an object with fields
      is compared with nothing or null. */
  lemma ThrowsExactly(pre: Fields, post: Option<Json>)
    ensures Throws(pre, post) <==> exists path :: HasNothingAgainst(Object(pre), post, path)
  {
    assert Throws(pre, post) <==> ThrowsField(Object(pre), post);
    if Throws(pre, post) {
      var path := ThrowsOnNothing(Object(pre), post);
    }
    if path :| HasNothingAgainst(Object(pre), post, path) {
      NothingAgainstThrows(Object(pre), post, path);
    }
  }

  /** A number, truth value, string or null is left out exactly when the other value is the
      same. Else it is recorded, with the other value if there is one. */
  lemma LeafExactly(pre: Json, post: Option<Json>)
    requires !pre.Object? && !pre.Array?
    ensures !ThrowsField(pre, post)
    ensures DiffField(pre, post) ==
      match post
      case None => Some(Object(map["pre" := pre]))
      case Some(other) => if other == pre then None else Some(Object(map["pre" := pre, "post" := other]))
  {
  }

  /** An object is compared field by field, with nothing where the other value has no such field,
      and is never left out. */
  lemma ObjectExactly(fields: Fields, post: Option<Json>)
    requires !ThrowsField(Object(fields), post)
    ensures DiffField(Object(fields), post).Some? && DiffField(Object(fields), post).value.Object?
    ensures var d := DiffField(Object(fields), post).value.fields;
      forall k :: if k !in fields then k !in d
                  else !ThrowsField(fields[k], FieldOf(post, k)) &&
                       DiffField(fields[k], FieldOf(post, k)) == if k in d then Some(d[k]) else None
  {
  }

  /** The value under a path of keys. */
  function At(j: Json, path: seq<string>): Option<Json>
    decreases |path|
  {
    if path == [] then Some(j)
    else if j.Object? && path[0] in j.fields then At(j.fields[path[0]], path[1..])
    else None
  }

  predicate IsLeaf(j: Option<Json>) {
    j.Some? && (j.value.Scalar? || j.value.String? || j.value.Null?)
  }

  /** What the difference has under a path that leads to anything but an object. */
  lemma {:induction false} DiffAt(pre: Fields, post: Fields, path: seq<string>)
    requires SameShape(pre, post) && At(Object(pre), path).Some? && !At(Object(pre), path).value.Object?
    ensures var was, now := At(Object(pre), path), At(Object(post), path);
      && now.Some? && SameKind(was.value, now.value)
      && !Throws(pre, Some(Object(post))) && !ThrowsField(was.value, now)
      && At(Object(Diff(pre, Some(Object(post)))), path) == DiffField(was.value, now)
    decreases |path|
  {
    SameShapeNeverThrows(pre, post);
    var k, p := path[0], Some(Object(post));
    assert At(Object(pre), path) == At(pre[k], path[1..]) && At(Object(post), path) == At(post[k], path[1..]);
    assert FieldOf(p, k) == Some(post[k]);
    if pre[k].Object? {
      SameShapeNeverThrows(pre[k].fields, post[k].fields);
      DiffAt(pre[k].fields, post[k].fields, path[1..]);
    } else {
      assert path[1..] == [];
      var d := Diff(pre, p);
      assert At(Object(d), path) == if k in d then Some(d[k]) else None;
    }
  }

  /** A leaf is mentioned in the difference exactly when it changed, and then with both its
      old and its new value. */
  lemma LeafSurvives(pre: Fields, post: Fields, path: seq<string>)
    requires SameShape(pre, post) && IsLeaf(At(Object(pre), path))
    ensures !Throws(pre, Some(Object(post)))
    ensures var was, now := At(Object(pre), path), At(Object(post), path);
            var d := At(Object(Diff(pre, Some(Object(post)))), path);
            (d.Some? <==> was != now) && (d.Some? ==> d == Some(Record(was.value, now)))
  {
    DiffAt(pre, post, path);
  }

  // ---------- arrays ----------

  /** Without objects and arrays in it. */
  predicate IsFlat(items: seq<Json>) {
    forall i :: 0 <= i < |items| ==> !items[i].Object? && !items[i].Array?
  }

  /** The value has the same length and, under each index, the same element. */
  predicate LooksLike(items: seq<Json>, post: Json) {
    match post
    case Array(theirs) => theirs == items
    case String(chars) => |chars| == |items| && forall i :: 0 <= i < |items| ==> items[i] == String([chars[i]])
    case Object(fields) =>
      && "length" in fields && fields["length"] == Scalar(Decimal(|items|))
      && forall i :: 0 <= i < |items| ==> Decimal(i) in fields && fields[Decimal(i)] == items[i]
    case _ => false
  }

  /** Whatever an array is compared with, it is left in the difference as it is exactly when it
      has no object or array in it and the other value is the same array, the string of its
      characters, or an object that looks like it. Else both values are recorded. */
  lemma ArrayIsKeptExactly(items: seq<Json>, post: Json)
    requires !post.Null?
    ensures DiffField(Array(items), Some(post)) ==
      Some(if IsFlat(items) && LooksLike(items, post) then Array(items) else Record(Array(items), Some(post)))
    ensures DiffField(Array(items), Some(post)) == Some(Array(items)) <==> IsFlat(items) && LooksLike(items, post)
  {
    SameArrayExactly(items, post);
  }

  lemma SameArrayExactly(items: seq<Json>, post: Json)
    ensures SameArray(items, Some(post)) <==> IsFlat(items) && LooksLike(items, post)
  {
    if SameArray(items, Some(post)) {
      assert HasLength(post, |items|);
      forall i | 0 <= i < |items| ensures !items[i].Object? && !items[i].Array? && Element(post, i) == Some(items[i]) {
        assert SameAt(items, post, i);
      }
      match post
      case Array(theirs) =>
        assert forall i :: 0 <= i < |items| ==> theirs[i] == items[i];
      case String(chars) =>
        assert forall i :: 0 <= i < |items| ==> Element(post, i) == Some(String([chars[i]]));
      case Object(fields) =>
        forall i | 0 <= i < |items| ensures Decimal(i) in fields && fields[Decimal(i)] == items[i] {
          assert Element(post, i) == Some(items[i]);
        }
      case _ =>
    }
    if IsFlat(items) && LooksLike(items, post) {
      forall i | 0 <= i < |items| ensures SameAt(items, post, i) {
        assert Element(post, i) == Some(items[i]);
      }
    }
  }

  /** For states of the same shape, at any depth: an array is left as it is exactly when it did
      not change and has no object or array in it. Else it is recorded, changed or not. */
  lemma ArraySurvives(pre: Fields, post: Fields, path: seq<string>)
    requires SameShape(pre, post) && At(Object(pre), path).Some? && At(Object(pre), path).value.Array?
    ensures !Throws(pre, Some(Object(post)))
    ensures var was, now := At(Object(pre), path), At(Object(post), path);
      At(Object(Diff(pre, Some(Object(post)))), path) ==
        if was == now && IsFlat(was.value.items) then was else Some(Record(was.value, now))
  {
    DiffAt(pre, post, path);
    ArrayIsKeptExactly(At(Object(pre), path).value.items, At(Object(post), path).value);
  }

  /** An array is left as it is when it only turned into the string of its characters. */
  lemma ArrayTurnedString()
    ensures var items := [String("a"), String("b")];
      DiffField(Array(items), Some(String("ab"))) == Some(Array(items))
  {
    ArrayIsKeptExactly([String("a"), String("b")], String("ab"));
  }

  /** An array with an object in it is recorded although nothing changed. */
  lemma ArrayOfObjectsIsRecorded()
    ensures var j := Array([Object(map["id" := Scalar("1")])]);
      DiffField(j, Some(j)) == Some(Record(j, Some(j)))
  {
    var items := [Object(map["id" := Scalar("1")])];
    ArrayIsKeptExactly(items, Array(items));
    assert items[0].Object?;
  }
}
