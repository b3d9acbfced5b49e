/** The record pipeline of `accelerated_json_to_parquet.py` and
    `single_duckdb.py` (the two `_read_file` and `_flatten` functions are
    the same code): flattening a JSON tree into dotted keys, unwrapping a
    `post` list, whitelisting and null-filling keys, dropping repeated ids,
    skipping files by name prefix, and choosing the column schema. */
module JsonRecords {
  import opened Base
  import opened PyText
  import opened Json
  import BooruText
  import BooruMerge

  // -------------------------------------------------------------- flatten --

  /** The key of a child: `parent.key`, or just `key` under an empty parent. */
  function Step(parent: string, key: string): string {
    if parent != [] then parent + "." + key else key
  }

  /** `_flatten(obj, parent)` as the list of items before `dict(items)`;
      reading it with `Get` gives the dict, the last item of a key winning. */
  function Flatten(j: Json, parent: string): seq<Member>
    decreases j, 2
  {
    match j
    case JObj(ms) => FlattenMembers(ms, parent, 0)
    case JArr(es) => FlattenElems(es, parent, 0)
    case _ => [Member(parent, j)]
  }

  /** `obj.items()` from member `i` on: each key once, where its first member
      stands, with the value of its last member. */
  function FlattenMembers(ms: seq<Member>, parent: string, i: nat): seq<Member>
    requires i <= |ms|
    decreases ms, 1, |ms| - i
  {
    if i == |ms| then []
    else
      var rest := FlattenMembers(ms, parent, i + 1);
      if FirstOfKey(ms, i) then
        var last := LastOf(ms, i);
        assert ms[last].value < ms[last];
        Flatten(ms[last].value, Step(parent, ms[i].key)) + rest
      else rest
  }

  /** The elements of a list from position `i` on, keyed by their index. */
  function FlattenElems(es: seq<Json>, parent: string, i: nat): seq<Member>
    decreases es, 0
  {
    if es == [] then [] else Flatten(es[0], Step(parent, NatToString(i))) + FlattenElems(es[1..], parent, i + 1)
  }

  /** `v` is a scalar leaf of `j` reached by following `path`: member keys
      through objects (the last member of a key being the one the dict
      holds), decimal indices through lists. */
  predicate LeafAt(j: Json, path: seq<string>, v: Json)
    decreases j
  {
    if path == [] then IsScalar(j) && j == v
    else match j
      case JObj(ms) => exists i :: 0 <= i < |ms| && ms[i].key == path[0] && LastOfKey(ms, i) && LeafAt(ms[i].value, path[1..], v)
      case JArr(es) => exists i :: 0 <= i < |es| && NatToString(i) == path[0] && LeafAt(es[i], path[1..], v)
      case _ => false
  }

  /** The flattened key of a path below `parent`. */
  function Dotted(parent: string, path: seq<string>): string
    decreases |path|
  {
    if path == [] then parent else Dotted(Step(parent, path[0]), path[1..])
  }

  /** The items of the member the dict keeps for a key, placed at the key's
      first position `i`, are items of the object. */
  lemma {:induction false} MembersContain(ms: seq<Member>, parent: string, start: nat, i: nat)
    requires start <= i < |ms| && FirstOfKey(ms, i)
    ensures forall m :: m in Flatten(ms[LastOf(ms, i)].value, Step(parent, ms[i].key)) ==> m in FlattenMembers(ms, parent, start)
    decreases i - start
  {
    if start < i {
      MembersContain(ms, parent, start + 1, i);
    }
  }

  /** The first member with the key of member `i`. */
  lemma {:induction false} FirstWith(ms: seq<Member>, i: nat) returns (f: nat)
    requires i < |ms|
    ensures f <= i && ms[f].key == ms[i].key && FirstOfKey(ms, f)
    decreases i
  {
    if FirstOfKey(ms, i) {
      f := i;
    } else {
      var j :| 0 <= j < i && ms[j].key == ms[i].key;
      f := FirstWith(ms, j);
    }
  }

  /** `FlattenElems` holds the first element's items and the rest's. */
  lemma ElemsUnfold(es: seq<Json>, parent: string, start: nat)
    requires es != []
    ensures forall m :: m in Flatten(es[0], Step(parent, NatToString(start))) ==> m in FlattenElems(es, parent, start)
    ensures forall m :: m in FlattenElems(es[1..], parent, start + 1) ==> m in FlattenElems(es, parent, start)
  {
    assert FlattenElems(es, parent, start)
        == Flatten(es[0], Step(parent, NatToString(start))) + FlattenElems(es[1..], parent, start + 1);
  }

  lemma {:induction false} ElemsContain(es: seq<Json>, parent: string, start: nat, i: nat)
    requires i < |es|
    ensures forall m :: m in Flatten(es[i], Step(parent, NatToString(start + i))) ==> m in FlattenElems(es, parent, start)
    decreases i
  {
    ElemsUnfold(es, parent, start);
    if i > 0 {
      ElemsContain(es[1..], parent, start + 1, i - 1);
      assert es[1..][i - 1] == es[i] && start + 1 + (i - 1) == start + i;
    }
  }

  /** Every leaf appears in the flattened record under its dotted path. */
  lemma {:induction false} FlattenComplete(j: Json, parent: string, path: seq<string>, v: Json)
    requires LeafAt(j, path, v)
    ensures Member(Dotted(parent, path), v) in Flatten(j, parent)
    decreases j
  {
    if path != [] {
      match j
      case JObj(ms) =>
        var i :| 0 <= i < |ms| && ms[i].key == path[0] && LastOfKey(ms, i) && LeafAt(ms[i].value, path[1..], v);
        FlattenComplete(ms[i].value, Step(parent, path[0]), path[1..], v);
        var f := FirstWith(ms, i);
        LastOfUnique(ms, f, i);
        MembersContain(ms, parent, 0, f);
      case JArr(es) =>
        var i :| 0 <= i < |es| && NatToString(i) == path[0] && LeafAt(es[i], path[1..], v);
        FlattenComplete(es[i], Step(parent, path[0]), path[1..], v);
        ElemsContain(es, parent, 0, i);
    }
  }

  /** The record `dict(items)` reads a leaf's dotted path as that leaf,
      provided no other item under the same dotted key carries another
      value. */
  lemma RecordHoldsLeaf(j: Json, parent: string, path: seq<string>, v: Json)
    requires LeafAt(j, path, v)
    requires forall m :: m in Flatten(j, parent) && m.key == Dotted(parent, path) ==> m.value == v
    ensures Get(Flatten(j, parent), Dotted(parent, path)) == Some(v)
  {
    FlattenComplete(j, parent, path, v);
    var items := Flatten(j, parent);
    var i :| 0 <= i < |items| && items[i] == Member(Dotted(parent, path), v);
    GetReadsLast(items, i);
    assert items[LastOf(items, i)] in items;
  }

  /** Two paths can give the same dotted key: the leaf 1 under "a.b" is an
      item, but the record keeps the later item, the 2 under "a" then "b". */
  lemma DottedKeyCollision()
    ensures var j := JObj([Member("a.b", JNum(1)), Member("a", JObj([Member("b", JNum(2))]))]);
      && LeafAt(j, ["a.b"], JNum(1))
      && Member("a.b", JNum(1)) in Flatten(j, "")
      && Get(Flatten(j, ""), "a.b") == Some(JNum(2))
  {
    var inner := [Member("b", JNum(2))];
    var ms := [Member("a.b", JNum(1)), Member("a", JObj(inner))];
    var j := JObj(ms);
    assert Step("", "a.b") == "a.b";
    assert Step("a", "b") == "a.b";
    assert Step("", "a") == "a";
    assert FirstOfKey(ms, 0) && LastOfKey(ms, 0) && FirstOfKey(ms, 1) && LastOfKey(ms, 1);
    LastOfUnique(ms, 0, 0);
    LastOfUnique(ms, 1, 1);
    assert FirstOfKey(inner, 0) && LastOfKey(inner, 0);
    LastOfUnique(inner, 0, 0);
    assert FlattenMembers(inner, "a", 1) == [];
    assert Flatten(JObj(inner), "a") == [Member("a.b", JNum(2))];
    assert FlattenMembers(ms, "", 2) == [];
    assert FlattenMembers(ms, "", 1) == [Member("a.b", JNum(2))];
    assert Flatten(JNum(1), "a.b") == [Member("a.b", JNum(1))];
    assert FlattenMembers(ms, "", 0) == [Member("a.b", JNum(1))] + [Member("a.b", JNum(2))];
    assert Flatten(j, "") == [Member("a.b", JNum(1)), Member("a.b", JNum(2))];
    assert LeafAt(JNum(1), [], JNum(1));
    assert ["a.b"][1..] == [];
    assert ms[0].key == ["a.b"][0];
  }

  /** The first step of `FlattenMembers`, and where a member of it lies. */
  lemma MembersCons(ms: seq<Member>, parent: string, start: nat, m: Member)
    requires start <= |ms| && m in FlattenMembers(ms, parent, start)
    ensures start < |ms|
    ensures (FirstOfKey(ms, start) && m in Flatten(ms[LastOf(ms, start)].value, Step(parent, ms[start].key)))
      || m in FlattenMembers(ms, parent, start + 1)
  {
  }

  /** The key position of an object that a flattened item comes from. */
  lemma {:induction false} MembersSplit(ms: seq<Member>, parent: string, start: nat, m: Member) returns (i: nat)
    requires start <= |ms| && m in FlattenMembers(ms, parent, start)
    ensures start <= i < |ms| && FirstOfKey(ms, i) && m in Flatten(ms[LastOf(ms, i)].value, Step(parent, ms[i].key))
    decreases |ms| - start
  {
    MembersCons(ms, parent, start, m);
    if FirstOfKey(ms, start) && m in Flatten(ms[LastOf(ms, start)].value, Step(parent, ms[start].key)) {
      i := start;
    } else {
      i := MembersSplit(ms, parent, start + 1, m);
    }
  }

  /** The first step of `FlattenElems`, and where a member of it lies. */
  lemma ElemsCons(es: seq<Json>, parent: string, start: nat, m: Member)
    requires m in FlattenElems(es, parent, start)
    ensures es != []
    ensures m in Flatten(es[0], Step(parent, NatToString(start))) || m in FlattenElems(es[1..], parent, start + 1)
  {
  }

  /** The element of a list that a flattened item comes from: its index
      `i`, and `n`, the number its key is written with. */
  lemma {:induction false} ElemsSplit(es: seq<Json>, parent: string, start: nat, m: Member) returns (i: nat, n: nat)
    requires m in FlattenElems(es, parent, start)
    ensures i < |es| && n == start + i && m in Flatten(es[i], Step(parent, NatToString(n)))
    decreases es, 1
  {
    ElemsCons(es, parent, start, m);
    if m in Flatten(es[0], Step(parent, NatToString(start))) {
      i, n := 0, start;
    } else {
      i, n := ElemsLater(es, parent, start, m);
    }
  }

  /** The same search, for an item that comes after the first element. */
  lemma {:induction false} ElemsLater(es: seq<Json>, parent: string, start: nat, m: Member) returns (i: nat, n: nat)
    requires es != [] && m in FlattenElems(es[1..], parent, start + 1)
    ensures i < |es| && n == start + i && m in Flatten(es[i], Step(parent, NatToString(n)))
    decreases es, 0
  {
    var i', n' := ElemsSplit(es[1..], parent, start + 1, m);
    assert es[1..][i'] == es[i' + 1];
    i, n := i' + 1, n';
  }

  /** Every flattened item is a leaf of the tree under its dotted path. */
  lemma {:induction false} FlattenSound(j: Json, parent: string, m: Member) returns (path: seq<string>)
    requires m in Flatten(j, parent)
    ensures LeafAt(j, path, m.value) && m.key == Dotted(parent, path)
    decreases j
  {
    match j
    case JObj(ms) =>
      var i := MembersSplit(ms, parent, 0, m);
      var last := LastOf(ms, i);
      var rest := FlattenSound(ms[last].value, Step(parent, ms[i].key), m);
      path := [ms[i].key] + rest;
      assert path[1..] == rest;
      assert ms[last].key == path[0] && LastOfKey(ms, last);
    case JArr(es) =>
      var i, n := ElemsSplit(es, parent, 0, m);
      assert n == i;
      var rest := FlattenSound(es[i], Step(parent, NatToString(i)), m);
      path := [NatToString(i)] + rest;
      assert path[1..] == rest;
    case _ =>
      path := [];
  }

  /** The value at the end of a path is a scalar. */
  lemma {:induction false} LeafIsScalar(j: Json, path: seq<string>, v: Json)
    requires LeafAt(j, path, v)
    ensures IsScalar(v)
    decreases j
  {
    if path != [] {
      match j
      case JObj(ms) =>
        var i :| 0 <= i < |ms| && ms[i].key == path[0] && LastOfKey(ms, i) && LeafAt(ms[i].value, path[1..], v);
        LeafIsScalar(ms[i].value, path[1..], v);
      case JArr(es) =>
        var i :| 0 <= i < |es| && NatToString(i) == path[0] && LeafAt(es[i], path[1..], v);
        LeafIsScalar(es[i], path[1..], v);
    }
  }

  /** Flattening leaves no object or list as a value. */
  lemma FlattenScalars(j: Json, parent: string)
    ensures forall m :: m in Flatten(j, parent) ==> IsScalar(m.value)
  {
    forall m | m in Flatten(j, parent)
      ensures IsScalar(m.value)
    {
      var path := FlattenSound(j, parent, m);
      LeafIsScalar(j, path, m.value);
    }
  }

  /** No key is repeated: the object as a dict holds every member. */
  predicate DistinctKeys(ms: seq<Member>) {
    forall i, j :: 0 <= i < j < |ms| ==> ms[i].key != ms[j].key
  }

  /** An object with distinct keys whose values are all scalars flattens to
      itself. */
  lemma FlattenFlatObject(ms: seq<Member>)
    requires DistinctKeys(ms)
    requires forall m :: m in ms ==> IsScalar(m.value)
    ensures Flatten(JObj(ms), "") == ms
  {
    FlatMembersFrom(ms, 0);
  }

  lemma {:induction false} FlatMembersFrom(ms: seq<Member>, i: nat)
    requires i <= |ms| && DistinctKeys(ms)
    requires forall m :: m in ms ==> IsScalar(m.value)
    ensures FlattenMembers(ms, "", i) == ms[i..]
    decreases |ms| - i
  {
    if i < |ms| {
      FlatMembersFrom(ms, i + 1);
      var m := ms[i];
      assert m in ms && IsScalar(m.value);
      assert FirstOfKey(ms, i) && LastOfKey(ms, i);
      LastOfUnique(ms, i, i);
      assert Step("", m.key) == m.key;
      assert Flatten(m.value, m.key) == [m];
      assert ms[i..] == [m] + ms[i + 1..];
    }
  }

  /** A repeated key is flattened from its last member only: the earlier
      value is shadowed, as in the dict. */
  lemma RepeatedKeyShadowed(x: Json, y: Json)
    requires IsScalar(y)
    ensures Flatten(JObj([Member("a", JObj([Member("x", x)])), Member("a", y)]), "") == [Member("a", y)]
  {
    var ms := [Member("a", JObj([Member("x", x)])), Member("a", y)];
    assert ms[0].key == ms[1].key;
    assert !FirstOfKey(ms, 1);
    assert FirstOfKey(ms, 0) && LastOfKey(ms, 1);
    LastOfUnique(ms, 0, 1);
    assert FlattenMembers(ms, "", 2) == [];
    assert FlattenMembers(ms, "", 1) == [];
    assert Step("", "a") == "a";
    assert Flatten(y, "a") == [Member("a", y)];
    assert FlattenMembers(ms, "", 0) == Flatten(ms[1].value, "a") + [];
  }

  // ------------------------------------------------------------ sanitise --

  /** `for k in all_keys: rec.setdefault(k, None)`. */
  function NullFill(rec: seq<Member>, keys: seq<string>): (r: seq<Member>)
    ensures forall k :: k in keys ==> Get(r, k).Some?
    ensures forall k :: Get(rec, k).Some? || k !in keys ==> Get(r, k) == Get(rec, k)
    decreases |keys|
  {
    if keys == [] then rec
    else
      var k := keys[0];
      var rec' := if Get(rec, k).None? then rec + [Member(k, JNull)] else rec;
      assert forall x :: x != k ==> Get(rec', x) == Get(rec, x) by {
        if Get(rec, k).None? { assert rec'[..|rec|] == rec; }
      }
      assert Get(rec', k).Some?;
      NullFill(rec', keys[1..])
  }

  /** One item's record: flattened, then trimmed to the whitelist when one is
      given (`BooruMerge.TrimPost` is the same comprehension), then
      null-filled to the schema keys when there is a schema. */
  function Record(item: Json, keep: Option<seq<string>>, allKeys: Option<seq<string>>): seq<Member> {
    var rec := Flatten(item, "");
    var trimmed := if keep.Some? then BooruMerge.TrimPost(rec, keep.value) else rec;
    if allKeys.Some? then NullFill(trimmed, allKeys.value) else trimmed
  }

  /** With a whitelist and schema keys drawn from it, a record has exactly the
      whitelisted keys, each read from the flattened item; every schema key
      is present. */
  lemma RecordKeys(item: Json, keep: Option<seq<string>>, allKeys: Option<seq<string>>, k: string)
    ensures allKeys.Some? && k in allKeys.value ==> Get(Record(item, keep, allKeys), k).Some?
    ensures keep.Some? && (allKeys.None? || forall a :: a in allKeys.value ==> a in keep.value) ==>
      (Get(Record(item, keep, allKeys), k).Some? <==> k in keep.value)
    ensures keep.Some? && k in keep.value ==> Get(Record(item, keep, allKeys), k) == Some(GetOrNull(Flatten(item, ""), k))
  {
    if keep.Some? {
      BooruMerge.TrimmedKeys(Flatten(item, ""), keep.value, k);
    }
  }

  /** The items of one decoded line: the `post` list when it is truthy,
      otherwise the line object with `post` popped. Iterating a truthy
      string or object gives its characters or keys; a truthy number or
      boolean is not iterable. */
  function Unwrap(data: seq<Member>): (r: Result<seq<Json>, string>)
    ensures Get(data, "post").None? ==> r == Ok([JObj(Without(data, "post"))])
    ensures Get(data, "post").Some? && !Truthy(Get(data, "post").value) ==> r == Ok([JObj(Without(data, "post"))])
    ensures Get(data, "post").Some? && Get(data, "post").value.JArr? && Truthy(Get(data, "post").value) ==> r == Ok(Get(data, "post").value.elems)
    ensures Get(data, "post").Some? && Get(data, "post").value.JStr? && Truthy(Get(data, "post").value) ==>
      var s := Get(data, "post").value.s;
      r.Ok? && |r.value| == |s| && forall i :: 0 <= i < |s| ==> r.value[i] == JStr([s[i]])
    ensures Get(data, "post").Some? && Get(data, "post").value.JObj? && Truthy(Get(data, "post").value) ==>
      r == Ok(Keys(Get(data, "post").value.members, 0))
    ensures r.Err? <==> (Get(data, "post").Some? && Truthy(Get(data, "post").value)
      && !(Get(data, "post").value.JArr? || Get(data, "post").value.JStr? || Get(data, "post").value.JObj?))
    ensures r.Err? ==> r.error == "TypeError"
  {
    match Get(data, "post")
    case None => Ok([JObj(Without(data, "post"))])
    case Some(p) =>
      if !Truthy(p) then Ok([JObj(Without(data, "post"))])
      else match p
        case JArr(es) => Ok(es)
        case JStr(s) => Ok(Chars(s))
        case JObj(ms) => Ok(Keys(ms, 0))
        case _ => Err("TypeError")
  }

  /** Iterating a string: one-character strings. */
  function Chars(s: string): (r: seq<Json>)
    ensures |r| == |s| && forall i :: 0 <= i < |s| ==> r[i] == JStr([s[i]])
  {
    if s == [] then [] else [JStr([s[0]])] + Chars(s[1..])
  }

  /** Iterating an object from member `i` on: the keys of the dict, each at
      its first insertion. */
  function Keys(ms: seq<Member>, i: nat): (r: seq<Json>)
    requires i <= |ms|
    ensures |r| <= |ms| - i
    ensures forall k :: i <= k < |ms| && FirstOfKey(ms, k) ==> JStr(ms[k].key) in r
    decreases |ms| - i
  {
    if i == |ms| then []
    else if FirstOfKey(ms, i) then [JStr(ms[i].key)] + Keys(ms, i + 1)
    else Keys(ms, i + 1)
  }

  predicate NoRepeats(xs: seq<Json>) {
    forall a, b :: 0 <= a < b < |xs| ==> xs[a] != xs[b]
  }

  /** Only keys of members from `i` on, at their first insertion, are listed. */
  lemma {:induction false} KeysOnlyKeys(ms: seq<Member>, i: nat, x: Json)
    requires i <= |ms| && x in Keys(ms, i)
    ensures exists k :: i <= k < |ms| && FirstOfKey(ms, k) && x == JStr(ms[k].key)
    decreases |ms| - i
  {
    if FirstOfKey(ms, i) && x == JStr(ms[i].key) {
    } else {
      KeysOnlyKeys(ms, i + 1, x);
    }
  }

  lemma {:induction false} KeysNoRepeats(ms: seq<Member>, i: nat)
    requires i <= |ms|
    ensures NoRepeats(Keys(ms, i))
    decreases |ms| - i
  {
    if i < |ms| {
      KeysNoRepeats(ms, i + 1);
      if FirstOfKey(ms, i) {
        var rest := Keys(ms, i + 1);
        forall j | 0 <= j < |rest|
          ensures rest[j] != JStr(ms[i].key)
        {
          KeysOnlyKeys(ms, i + 1, rest[j]);
        }
        var r := [JStr(ms[i].key)] + rest;
        assert JStr(ms[i].key) !in rest;
        forall a, b | 0 <= a < b < |r|
          ensures r[a] != r[b]
        {
          assert r[b] == rest[b - 1];
          if a > 0 {
            assert r[a] == rest[a - 1];
          } else {
            assert rest[b - 1] in rest;
          }
        }
      }
    }
  }

  lemma {:induction false} KeysInOrder(ms: seq<Member>, i: nat)
    requires i <= |ms| && DistinctKeys(ms)
    ensures |Keys(ms, i)| == |ms| - i
    ensures forall k :: i <= k < |ms| ==> Keys(ms, i)[k - i] == JStr(ms[k].key)
    decreases |ms| - i
  {
    if i < |ms| {
      KeysInOrder(ms, i + 1);
      assert FirstOfKey(ms, i);
      assert Keys(ms, i) == [JStr(ms[i].key)] + Keys(ms, i + 1);
    }
  }

  /** Iterating an object lists each of its keys exactly once and nothing
      else; with no repeated key, in member order. */
  lemma ObjectKeys(ms: seq<Member>)
    ensures NoRepeats(Keys(ms, 0))
    ensures forall k :: 0 <= k < |ms| ==> JStr(ms[k].key) in Keys(ms, 0)
    ensures forall x :: x in Keys(ms, 0) ==> exists k :: 0 <= k < |ms| && x == JStr(ms[k].key)
    ensures DistinctKeys(ms) ==> |Keys(ms, 0)| == |ms| && forall k :: 0 <= k < |ms| ==> Keys(ms, 0)[k] == JStr(ms[k].key)
  {
    KeysNoRepeats(ms, 0);
    forall x | x in Keys(ms, 0)
      ensures exists k :: 0 <= k < |ms| && x == JStr(ms[k].key)
    {
      KeysOnlyKeys(ms, 0, x);
    }
    forall k | 0 <= k < |ms|
      ensures JStr(ms[k].key) in Keys(ms, 0)
    {
      var f := FirstWith(ms, k);
    }
    if DistinctKeys(ms) {
      KeysInOrder(ms, 0);
    }
  }

  /** `f` applied to each of `xs` in turn, the results concatenated; the
      first failure aborts. */
  function CollectAll<A, B>(xs: seq<A>, f: A -> Result<seq<B>, string>): (r: Result<seq<B>, string>)
    ensures r.Ok? <==> forall i :: 0 <= i < |xs| ==> f(xs[i]).Ok?
    decreases |xs|
  {
    if xs == [] then Ok([])
    else
      var first :- f(xs[0]);
      var rest :- CollectAll(xs[1..], f);
      Ok(first + rest)
  }

  lemma {:induction false} CollectAllAppend<A, B>(a: seq<A>, b: seq<A>, f: A -> Result<seq<B>, string>)
    ensures CollectAll(a + b, f) ==
      if CollectAll(a, f).Err? then CollectAll(a, f)
      else if CollectAll(b, f).Err? then CollectAll(b, f)
      else Ok(CollectAll(a, f).value + CollectAll(b, f).value)
    decreases |a|
  {
    if a == [] {
      assert a + b == b;
      if CollectAll(b, f).Ok? {
        assert [] + CollectAll(b, f).value == CollectAll(b, f).value;
      }
    } else {
      assert (a + b)[0] == a[0];
      assert (a + b)[1..] == a[1..] + b;
      CollectAllAppend(a[1..], b, f);
      if f(a[0]).Ok? && CollectAll(a[1..], f).Ok? && CollectAll(b, f).Ok? {
        var x, y, z := f(a[0]).value, CollectAll(a[1..], f).value, CollectAll(b, f).value;
        assert x + (y + z) == (x + y) + z;
      }
    }
  }

  /** The items of all lines, in order; the first line that fails aborts. */
  function AllItems(lines: seq<seq<Member>>): (r: Result<seq<Json>, string>)
    ensures r.Ok? <==> forall i :: 0 <= i < |lines| ==> Unwrap(lines[i]).Ok?
  {
    CollectAll(lines, Unwrap)
  }

  /** Lines read one after another give their items one after another; the
      first failure is the one reported. */
  lemma AllItemsAppend(a: seq<seq<Member>>, b: seq<seq<Member>>)
    ensures AllItems(a + b) ==
      if AllItems(a).Err? then AllItems(a)
      else if AllItems(b).Err? then AllItems(b)
      else Ok(AllItems(a).value + AllItems(b).value)
  {
    CollectAllAppend(a, b, Unwrap);
  }

  /** One line gives exactly the items `Unwrap` makes of it. */
  lemma AllItemsOne(line: seq<Member>)
    ensures AllItems([line]) == Unwrap(line)
  {
    assert [line][1..] == [];
    assert CollectAll([line][1..], Unwrap) == Ok([]);
    if Unwrap(line).Ok? {
      assert Unwrap(line).value + [] == Unwrap(line).value;
    }
  }

  // ---------------------------------------------------------------- dedup --

  /** `rec.get("id")`. */
  function IdOf(rec: seq<Member>): Json { GetOrNull(rec, "id") }

  /** The de-duplication step: a record is dropped when its id is not null
      and already seen; every id met is added to the seen set. */
  function Dedup(recs: seq<seq<Member>>, seen: set<Json>): (seq<seq<Member>>, set<Json>)
    decreases |recs|
  {
    if recs == [] then ([], seen)
    else
      var rec := recs[0];
      var id := IdOf(rec);
      if id != JNull && id in seen then Dedup(recs[1..], seen)
      else
        var (kept, seen') := Dedup(recs[1..], seen + {id});
        ([rec] + kept, seen')
  }

  /** The kept records are some of the input's, and the seen set grows by
      exactly the ids of all the input records, kept or not. */
  lemma {:induction false} DedupShape(recs: seq<seq<Member>>, seen: set<Json>)
    ensures var r := Dedup(recs, seen);
      && |r.0| <= |recs|
      && (forall x :: x in r.0 ==> x in recs)
      && r.1 == seen + set x | x in recs :: IdOf(x)
    decreases |recs|
  {
    if recs != [] {
      var rec := recs[0];
      var id := IdOf(rec);
      assert forall x :: x in recs <==> x == rec || x in recs[1..];
      if id != JNull && id in seen {
        DedupShape(recs[1..], seen);
        assert Dedup(recs, seen) == Dedup(recs[1..], seen);
      } else {
        DedupShape(recs[1..], seen + {id});
        var (kept, seen') := Dedup(recs[1..], seen + {id});
        assert Dedup(recs, seen) == ([rec] + kept, seen');
      }
    }
  }

  /** One step of `Dedup` on a record that is kept: the record, then what
      the rest keeps with its id added to the seen set. */
  lemma DedupKeeps(recs: seq<seq<Member>>, seen: set<Json>)
    requires recs != [] && !(IdOf(recs[0]) != JNull && IdOf(recs[0]) in seen)
    ensures Dedup(recs, seen).0 == [recs[0]] + Dedup(recs[1..], seen + {IdOf(recs[0])}).0
  {
  }

  /** One step of `Dedup` on a record that is dropped. */
  lemma DedupDrops(recs: seq<seq<Member>>, seen: set<Json>)
    requires recs != [] && IdOf(recs[0]) != JNull && IdOf(recs[0]) in seen
    ensures Dedup(recs, seen).0 == Dedup(recs[1..], seen).0
  {
  }

  /** No kept record has a non-null id seen before. */
  lemma {:induction false} DedupFresh(recs: seq<seq<Member>>, seen: set<Json>)
    ensures forall x :: x in Dedup(recs, seen).0 && IdOf(x) != JNull ==> IdOf(x) !in seen
    decreases |recs|
  {
    if recs != [] {
      var id := IdOf(recs[0]);
      if id != JNull && id in seen {
        DedupDrops(recs, seen);
        DedupFresh(recs[1..], seen);
      } else {
        DedupKeeps(recs, seen);
        DedupFresh(recs[1..], seen + {id});
      }
    }
  }

  /** No two records of a list share a non-null id. */
  predicate IdsDistinct(kept: seq<seq<Member>>) {
    forall i, j :: 0 <= i < j < |kept| && IdOf(kept[i]) != JNull ==> IdOf(kept[i]) != IdOf(kept[j])
  }

  /** A record put in front of records that all differ from its id. */
  lemma ConsDistinct(rec: seq<Member>, tail: seq<seq<Member>>)
    requires IdsDistinct(tail)
    requires forall x :: x in tail && IdOf(x) != JNull ==> IdOf(x) != IdOf(rec)
    ensures IdsDistinct([rec] + tail)
  {
    var kept := [rec] + tail;
    forall i, j | 0 <= i < j < |kept| && IdOf(kept[i]) != JNull
      ensures IdOf(kept[i]) != IdOf(kept[j])
    {
      assert kept[j] == tail[j - 1];
      if i > 0 {
        assert kept[i] == tail[i - 1];
      } else {
        assert tail[j - 1] in tail;
      }
    }
  }

  /** No two kept records share a non-null id. */
  lemma {:induction false} DedupDistinct(recs: seq<seq<Member>>, seen: set<Json>)
    ensures IdsDistinct(Dedup(recs, seen).0)
    decreases |recs|
  {
    if recs != [] {
      var id := IdOf(recs[0]);
      if id != JNull && id in seen {
        DedupDrops(recs, seen);
        DedupDistinct(recs[1..], seen);
      } else {
        DedupKeeps(recs, seen);
        DedupDistinct(recs[1..], seen + {id});
        DedupFresh(recs[1..], seen + {id});
        ConsDistinct(recs[0], Dedup(recs[1..], seen + {id}).0);
      }
    }
  }

  /** A record with a null id is never dropped. */
  lemma {:induction false} DedupKeepsNull(recs: seq<seq<Member>>, seen: set<Json>)
    ensures forall x :: x in recs && IdOf(x) == JNull ==> x in Dedup(recs, seen).0
    decreases |recs|
  {
    if recs != [] {
      var id := IdOf(recs[0]);
      assert forall x :: x in recs ==> x == recs[0] || x in recs[1..];
      if id != JNull && id in seen {
        DedupDrops(recs, seen);
        DedupKeepsNull(recs[1..], seen);
      } else {
        DedupKeeps(recs, seen);
        DedupKeepsNull(recs[1..], seen + {id});
      }
    }
  }

  /** Every id not seen before is carried by some kept record. */
  lemma {:induction false} DedupCovers(recs: seq<seq<Member>>, seen: set<Json>)
    ensures forall x :: x in recs && IdOf(x) !in seen ==> exists y :: y in Dedup(recs, seen).0 && IdOf(y) == IdOf(x)
    decreases |recs|
  {
    if recs != [] {
      var id := IdOf(recs[0]);
      assert forall x :: x in recs ==> x == recs[0] || x in recs[1..];
      if id != JNull && id in seen {
        DedupDrops(recs, seen);
        DedupCovers(recs[1..], seen);
      } else {
        DedupKeeps(recs, seen);
        DedupCovers(recs[1..], seen + {id});
        var kept := Dedup(recs, seen).0;
        assert recs[0] in kept;
        forall x | x in recs[1..] && IdOf(x) !in seen
          ensures exists y :: y in kept && IdOf(y) == IdOf(x)
        {
          if IdOf(x) == id {
            assert recs[0] in kept;
          } else {
            var y :| y in Dedup(recs[1..], seen + {id}).0 && IdOf(y) == IdOf(x);
            assert y in kept;
          }
        }
      }
    }
  }

  /** No kept record repeats a non-null id, or has one seen before; records
      with a null id are never dropped; every new id keeps a record. */
  lemma DedupMeaning(recs: seq<seq<Member>>, seen: set<Json>)
    ensures var kept := Dedup(recs, seen).0;
      && (forall i, j :: 0 <= i < j < |kept| && IdOf(kept[i]) != JNull ==> IdOf(kept[i]) != IdOf(kept[j]))
      && (forall x :: x in kept && IdOf(x) != JNull ==> IdOf(x) !in seen)
      && (forall x :: x in recs && IdOf(x) == JNull ==> x in kept)
      && (forall x :: x in recs && IdOf(x) !in seen ==> exists y :: y in kept && IdOf(y) == IdOf(x))
  {
    DedupDistinct(recs, seen);
    DedupFresh(recs, seen);
    DedupKeepsNull(recs, seen);
    DedupCovers(recs, seen);
  }

  // ------------------------------------------------------------ read file --

  /** `path.stem` of a file name: the name without its suffix. */
  function Stem(name: string): string {
    name[..|name| - |BooruText.Suffix(name)|]
  }

  /** The early skip: a `min_id` is given and the stem's text before the
      first `_` reads as a number below it. A prefix `int` rejects keeps the
      file. */
  predicate SkippedByPrefix(name: string, minId: Option<int>) {
    minId.Some? && match ParseInt(FirstPiece(Stem(name), '_'))
      case Some(n) => n < minId.value
      case None => false
  }

  /** `_read_file` on the decoded lines of the file `name`: the records and
      the seen set after them (`None` when de-duplication is off). */
  function ReadFile(name: string, minId: Option<int>, lines: seq<seq<Member>>, keep: Option<seq<string>>,
                    allKeys: Option<seq<string>>, seen: Option<set<Json>>): Result<(seq<seq<Member>>, Option<set<Json>>), string>
  {
    if SkippedByPrefix(name, minId) then Ok(([], seen))
    else
      var items :- AllItems(lines);
      var recs := seq(|items|, i requires 0 <= i < |items| => Record(items[i], keep, allKeys));
      match seen
      case None => Ok((recs, None))
      case Some(s) =>
        var (kept, s') := Dedup(recs, s);
        Ok((kept, Some(s')))
  }

  /** A file whose numeric prefix is below `min_id` yields nothing, and a
      file whose prefix is not a number is read as if no `min_id` were
      given. */
  lemma PrefixSkip(name: string, minId: int, lines: seq<seq<Member>>, keep: Option<seq<string>>,
                   allKeys: Option<seq<string>>, seen: Option<set<Json>>)
    ensures var prefix := ParseInt(FirstPiece(Stem(name), '_'));
      && (prefix.Some? && prefix.value < minId ==> ReadFile(name, Some(minId), lines, keep, allKeys, seen) == Ok(([], seen)))
      && (prefix.None? ==> ReadFile(name, Some(minId), lines, keep, allKeys, seen) == ReadFile(name, None, lines, keep, allKeys, seen))
  {
  }

  /** The `split("_")[0]` of the prefix always exists, so the extra
      `IndexError` handler of `single_duckdb.py` never runs. */
  lemma PrefixPieceExists(name: string)
    ensures |SplitOn(Stem(name), '_')| >= 1 && FirstPiece(Stem(name), '_') == SplitOn(Stem(name), '_')[0]
  {
  }

  // --------------------------------------------------------------- schema --

  const DefaultKeys: set<string> := {
    "id", "created_at", "score", "source", "rating", "image_width",
    "image_height", "tag_string", "fav_count", "file_ext", "up_score",
    "down_score", "is_deleted", "pixiv_id", "tag_string_general",
    "tag_string_character", "tag_string_artist", "tag_string_copyright",
    "tag_string_meta", "file_url", "large_file_url", "preview_file_url"}

  /** The column schema: inferred, the fixed default one, or one string
      column per key (in sorted order). */
  datatype Schema = Inferred | DefaultSchema | StringColumns(keys: set<string>)

  /** The choice of `accelerated_json_to_parquet.py`. */
  function AcceleratedSchema(keep: Option<set<string>>): Schema {
    if keep.None? then Inferred
    else if keep.value == DefaultKeys then DefaultSchema
    else StringColumns(keep.value)
  }

  /** The choice of `single_duckdb.py`: an empty key set also infers. */
  function DuckdbSchema(keep: Option<set<string>>): Schema {
    if keep == Some(DefaultKeys) then DefaultSchema
    else if keep.Some? && keep.value != {} then StringColumns(keep.value)
    else Inferred
  }

  /** `arrow_schema.names if arrow_schema else None`: a schema without
      columns is falsy. */
  function SchemaKeys(s: Schema): (r: Option<set<string>>)
    ensures r.Some? ==> r.value != {}
  {
    match s
    case Inferred => None
    case DefaultSchema => assert "id" in DefaultKeys; Some(DefaultKeys)
    case StringColumns(ks) => if ks == {} then None else Some(ks)
  }

  /** Both scripts null-fill to no key outside the whitelist, and to none
      at all without one; they choose the same schema except for an empty
      whitelist. */
  lemma SchemaChoice(keep: Option<set<string>>)
    ensures keep.None? ==> SchemaKeys(AcceleratedSchema(keep)).None? && SchemaKeys(DuckdbSchema(keep)).None?
    ensures keep.Some? && SchemaKeys(AcceleratedSchema(keep)).Some? ==> SchemaKeys(AcceleratedSchema(keep)).value == keep.value
    ensures keep.Some? && SchemaKeys(DuckdbSchema(keep)).Some? ==> SchemaKeys(DuckdbSchema(keep)).value == keep.value
    ensures AcceleratedSchema(keep) == DuckdbSchema(keep) <==> keep != Some({})
  {
    if keep == Some({}) {
      assert "id" in DefaultKeys;
    }
  }

  /** With the whitelist in iteration order `order` and the schema a script
      picks for it, every record of the file has exactly the whitelisted
      keys. */
  lemma RecordsHaveWhitelist(item: Json, order: seq<string>, accelerated: bool, k: string)
    ensures var keep := set x | x in order;
      var schema := if accelerated then AcceleratedSchema(Some(keep)) else DuckdbSchema(Some(keep));
      var allKeys := match SchemaKeys(schema) case Some(ks) => Some(KeyOrder(ks, order)) case None => None;
      Get(Record(item, Some(order), allKeys), k).Some? <==> k in order
  {
    var keep := set x | x in order;
    SchemaChoice(Some(keep));
    var schema := if accelerated then AcceleratedSchema(Some(keep)) else DuckdbSchema(Some(keep));
    var allKeys := match SchemaKeys(schema) case Some(ks) => Some(KeyOrder(ks, order)) case None => None;
    RecordKeys(item, Some(order), allKeys, k);
  }

  /** The schema's key names, here listed in the order of `order` (the
      order does not affect which keys a record ends up with). */
  function KeyOrder(ks: set<string>, order: seq<string>): (r: seq<string>)
    ensures forall a :: a in r ==> a in ks && a in order
  {
    if order == [] then [] else (if order[0] in ks then [order[0]] else []) + KeyOrder(ks, order[1..])
  }
}
