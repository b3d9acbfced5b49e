/** Decoded JSON values as the Python code sees them after `json.loads` /
    `orjson.loads`. An object is its member list as written, which may repeat
    a key; the dict built from it holds each key once, at the position of its
    first member, with the value of its last member. */
module Json {
  import opened Base
  import PyText

  datatype Json =
    | JNull
    | JBool(b: bool)
    | JNum(n: int)
    | JStr(s: string)
    | JArr(elems: seq<Json>)
    | JObj(members: seq<Member>)

  datatype Member = Member(key: string, value: Json)

  /** A key of a decoded object read with `.get`: missing, `null`, or text. */
  datatype Field = Absent | Null | Text(s: string)

  /** Python truthiness of a decoded value. */
  predicate Truthy(j: Json) {
    match j
    case JNull => false
    case JBool(b) => b
    case JNum(n) => n != 0
    case JStr(s) => |s| > 0
    case JArr(es) => |es| > 0
    case JObj(ms) => |ms| > 0
  }

  /** A leaf of the tree: anything but an array or an object. */
  predicate IsScalar(j: Json) {
    !j.JArr? && !j.JObj?
  }

  /** `d.get(key)` on a decoded object: the value of the LAST member with that
      key, since building a dict from pairs keeps the last one. */
  function Get(ms: seq<Member>, key: string): (r: Option<Json>)
    ensures r.None? <==> forall i :: 0 <= i < |ms| ==> ms[i].key != key
    ensures r.Some? ==> exists i :: 0 <= i < |ms| && ms[i].key == key && ms[i].value == r.value
  {
    if |ms| == 0 then None
    else if ms[|ms| - 1].key == key then Some(ms[|ms| - 1].value)
    else
      var r := Get(ms[..|ms| - 1], key);
      assert forall i :: 0 <= i < |ms| - 1 ==> ms[..|ms| - 1][i] == ms[i];
      r
  }

  /** No earlier member has the key of member `i`: the dict places the key here. */
  predicate FirstOfKey(ms: seq<Member>, i: nat)
    requires i < |ms|
  {
    forall j :: 0 <= j < i ==> ms[j].key != ms[i].key
  }

  /** No later member has the key of member `i`: the dict keeps this value. */
  predicate LastOfKey(ms: seq<Member>, i: nat)
    requires i < |ms|
  {
    forall j :: i < j < |ms| ==> ms[j].key != ms[i].key
  }

  /** The position of the last member with `key` among the first `n`. */
  function LastWith(ms: seq<Member>, key: string, n: nat): (r: nat)
    requires n <= |ms| && exists i :: 0 <= i < n && ms[i].key == key
    ensures r < n && ms[r].key == key
    ensures forall j :: r < j < n ==> ms[j].key != key
    decreases n
  {
    if ms[n - 1].key == key then n - 1 else LastWith(ms, key, n - 1)
  }

  /** The position of the member whose value the dict keeps for the key of
      member `i`. */
  function LastOf(ms: seq<Member>, i: nat): (r: nat)
    requires i < |ms|
    ensures i <= r < |ms| && ms[r].key == ms[i].key && LastOfKey(ms, r)
  {
    LastWith(ms, ms[i].key, |ms|)
  }

  /** The last member of a key is the only one with no later namesake. */
  lemma LastOfUnique(ms: seq<Member>, i: nat, k: nat)
    requires i < |ms| && k < |ms| && ms[k].key == ms[i].key && LastOfKey(ms, k)
    ensures LastOf(ms, i) == k
  {
  }

  /** `d.get(key)` reads the value of the last member with that key. */
  lemma {:induction false} GetReadsLast(ms: seq<Member>, i: nat)
    requires i < |ms|
    ensures Get(ms, ms[i].key) == Some(ms[LastOf(ms, i)].value)
  {
    GetPrefix(ms, ms[i].key, |ms|, i);
    assert ms[..|ms|] == ms;
  }

  lemma {:induction false} GetPrefix(ms: seq<Member>, key: string, n: nat, i: nat)
    requires i < n <= |ms| && ms[i].key == key
    ensures Get(ms[..n], key) == Some(ms[LastWith(ms, key, n)].value)
    decreases n
  {
    var pre := ms[..n];
    assert pre[n - 1] == ms[n - 1];
    if ms[n - 1].key != key {
      assert pre[..n - 1] == ms[..n - 1];
      GetPrefix(ms, key, n - 1, i);
    }
  }

  /** `d.get(key)` with Python's default of `None`. */
  function GetOrNull(ms: seq<Member>, key: string): Json {
    match Get(ms, key)
    case Some(v) => v
    case None => JNull
  }

  /** `d.pop(key, None)` side effect: every member with that key removed. */
  function Without(ms: seq<Member>, key: string): (r: seq<Member>)
    ensures forall i :: 0 <= i < |r| ==> r[i].key != key
    ensures forall m :: m in r <==> m in ms && m.key != key
  {
    if |ms| == 0 then []
    else (if ms[0].key == key then [] else [ms[0]]) + Without(ms[1..], key)
  }

  /** `int(value)`: `None` where Python raises `TypeError` or `ValueError`
      (None, lists, dicts, non-numeric text). */
  function IntOf(j: Json): Option<int> {
    match j
    case JNum(n) => Some(n)
    case JBool(b) => Some(if b then 1 else 0)
    case JStr(s) => PyText.ParseInt(s)
    case _ => None
  }
}
