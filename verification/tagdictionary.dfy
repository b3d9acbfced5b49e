/** The local tag dictionary of `gelbooru_post_download.py` (`GelbooruTag`):
    looking a tag up under its spelling variants, finding the tags still to
    fetch, cutting a tag list into requests of 100, and grouping tags by
    type. The HTML escaping functions are parameters. */
module TagDictionary {
  import opened Base
  import opened PyText
  import RangedDownload

  /** A tag record as the tag API returns it; only its name and numeric
      type are read here. */
  datatype TagEntry = TagEntry(name: string, tagType: int)

  /** `TAG_TYPE`: the names of the numeric tag types; 2 has none. */
  function TypeName(t: int): (r: Option<string>)
    ensures r.Some? <==> t in {0, 1, 3, 4, 5, 6}
  {
    if t == 0 then Some("general")
    else if t == 1 then Some("artist")
    else if t == 3 then Some("copyright")
    else if t == 4 then Some("character")
    else if t == 5 then Some("meta")
    else if t == 6 then Some("deprecated")
    else None
  }

  // -------------------------------------------------------------- lookup --

  /** The name with one leading backslash removed. */
  function Unslashed(name: string): string {
    if StartsWith(name, "\\") then name[1..] else name
  }

  /** The five spellings `get_tag` tries, best first: apostrophe escaped,
      lower case, upper case, as given, HTML-unescaped then apostrophe
      escaped. */
  function Variants(name: string, unescape: string -> string): (v: seq<string>)
    ensures |v| == 5 && v[3] == Unslashed(name)
  {
    var n := Unslashed(name);
    [Replace(n, "'", "&#039;"), Lower(n), Upper(n), n, Replace(unescape(n), "'", "&#039;")]
  }

  /** `get_tag`. */
  function GetTag(tags: map<string, TagEntry>, name: string, unescape: string -> string): (r: Option<TagEntry>)
    ensures var v := Variants(name, unescape);
      r.None? <==> forall k :: 0 <= k < 5 ==> v[k] !in tags
    ensures var v := Variants(name, unescape);
      r.Some? ==> exists k :: 0 <= k < 5 && v[k] in tags && r.value == tags[v[k]] && forall j :: 0 <= j < k ==> v[j] !in tags
  {
    var n := Unslashed(name);
    var basic := Replace(n, "'", "&#039;");
    var urlsafe := Replace(unescape(n), "'", "&#039;");
    var lower := Lower(n);
    var upper := Upper(n);
    var v := Variants(name, unescape);
    assert v == [basic, lower, upper, n, urlsafe];
    if n !in tags && urlsafe !in tags && basic !in tags && lower !in tags && upper !in tags then None
    else if basic in tags then
      assert v[0] in tags;
      Some(tags[basic])
    else if lower in tags then
      assert v[1] in tags && v[0] !in tags;
      Some(tags[lower])
    else if upper in tags then
      assert v[2] in tags && v[0] !in tags && v[1] !in tags;
      Some(tags[upper])
    else if n in tags then
      assert v[3] in tags && v[0] !in tags && v[1] !in tags && v[2] !in tags;
      Some(tags[n])
    else
      assert v[4] in tags && v[0] !in tags && v[1] !in tags && v[2] !in tags && v[3] !in tags;
      Some(tags[urlsafe])
  }

  /** One leading backslash makes no difference to the lookup. */
  lemma LeadingBackslashIgnored(tags: map<string, TagEntry>, name: string, unescape: string -> string)
    requires !StartsWith(name, "\\")
    ensures GetTag(tags, "\\" + name, unescape) == GetTag(tags, name, unescape)
  {
    var s := "\\" + name;
    assert s[..1] == "\\" && s[1..] == name;
  }

  /** The entries stored for one tag of a response: under its name, its
      HTML-escaped name (with `&#039;` turned back into `'`), and its
      lower-cased name. */
  function Store(tags: map<string, TagEntry>, tag: TagEntry, escape: string -> string): (r: map<string, TagEntry>)
    ensures tag.name in r && r[tag.name] == tag
    ensures Replace(escape(tag.name), "&#039;", "'") in r && r[Replace(escape(tag.name), "&#039;", "'")] == tag
    ensures Lower(tag.name) in r && r[Lower(tag.name)] == tag
    ensures forall k :: k in tags && k != tag.name && k != Replace(escape(tag.name), "&#039;", "'") && k != Lower(tag.name) ==> k in r && r[k] == tags[k]
  {
    tags[tag.name := tag][Replace(escape(tag.name), "&#039;", "'") := tag][Lower(tag.name) := tag]
  }

  /** After a tag is stored it is found again under its own name and under
      its lower-cased name. */
  lemma StoredTagFound(tags: map<string, TagEntry>, tag: TagEntry, escape: string -> string, unescape: string -> string)
    requires !StartsWith(tag.name, "\\")
    ensures GetTag(Store(tags, tag, escape), tag.name, unescape).Some?
    ensures !StartsWith(Lower(tag.name), "\\") ==> GetTag(Store(tags, tag, escape), Lower(tag.name), unescape).Some?
  {
    assert Variants(tag.name, unescape)[3] == tag.name;
    assert Variants(Lower(tag.name), unescape)[3] == Lower(tag.name);
  }

  // ------------------------------------------------------------- missing --

  /** The tags of `names` the dictionary does not hold, in order. */
  function Missing(names: seq<string>, tags: map<string, TagEntry>, unescape: string -> string): (r: seq<string>)
    ensures |r| <= |names|
    ensures forall t :: t in r ==> t in names && GetTag(tags, t, unescape).None?
    ensures forall t :: t in names && GetTag(tags, t, unescape).None? ==> t in r
  {
    Where(names, (t: string) => GetTag(tags, t, unescape).None?)
  }

  /** The query works token by token: the missing tokens of two runs are
      the missing tokens of each, in order and with repeats. */
  lemma MissingAppend(a: seq<string>, b: seq<string>, tags: map<string, TagEntry>, unescape: string -> string)
    ensures Missing(a + b, tags, unescape) == Missing(a, tags, unescape) + Missing(b, tags, unescape)
  {
    WhereAppend(a, b, (t: string) => GetTag(tags, t, unescape).None?);
  }

  /** One token is reported exactly when `get_tag` finds nothing for it. */
  lemma MissingOne(t: string, tags: map<string, TagEntry>, unescape: string -> string)
    ensures Missing([t], tags, unescape) == (if GetTag(tags, t, unescape).None? then [t] else [])
  {
    WhereOne(t, (u: string) => GetTag(tags, u, unescape).None?);
  }

  /** `get_missing_tags`: the space-separated tokens not yet known. */
  function MissingTags(tagsString: string, tags: map<string, TagEntry>, unescape: string -> string): seq<string> {
    Missing(SplitOn(tagsString, ' '), tags, unescape)
  }

  /** The first lines of `_get_tags`: the names to ask the API for, or
      `None` when no request is made. */
  function TagQuery(names: seq<string>, tags: map<string, TagEntry>, unescape: string -> string): (r: Option<seq<string>>)
    ensures r.None? <==> forall t :: t in names ==> GetTag(tags, t, unescape).Some?
    ensures r.Some? ==> r.value == Missing(names, tags, unescape) && r.value != []
  {
    var m := Missing(names, tags, unescape);
    if names == [] || m == [] then None
    else
      assert m[0] in m;
      Some(m)
  }

  /** Once every tag of a list is stored, asking for the list again sends
      no request. */
  lemma KnownTagsNotRefetched(names: seq<string>, tags: map<string, TagEntry>, unescape: string -> string)
    requires forall t :: t in names ==> !StartsWith(t, "\\") && t in tags
    ensures TagQuery(names, tags, unescape).None?
  {
    forall t | t in names ensures GetTag(tags, t, unescape).Some? {
      assert Variants(t, unescape)[3] == t;
    }
  }

  // ------------------------------------------------------------- batches --

  /** `names[i:i+100]` for a start `i >= 0`: empty past the end. */
  function SliceAt(names: seq<string>, i: int): seq<string> {
    if 0 <= i < |names| then names[i..RangedDownload.Min(i + 100, |names|)] else []
  }

  /** `[names[i:i+100] for i in range(0, len(names), 100)]`. */
  function Batches(names: seq<string>): (r: seq<seq<string>>) {
    var starts := RangedDownload.PyRange(0, |names|, 100);
    seq(|starts|, k requires 0 <= k < |starts| => SliceAt(names, starts[k]))
  }

  /** The batches from position `i` on. */
  function BatchesFrom(names: seq<string>, i: nat): seq<seq<string>>
    decreases |names| - i
  {
    if i >= |names| then [] else [SliceAt(names, i)] + BatchesFrom(names, i + 100)
  }

  function Concat(xss: seq<seq<string>>): seq<string> {
    if xss == [] then [] else xss[0] + Concat(xss[1..])
  }

  /** The batches from `i` are the slices at `range(i, len, 100)`. */
  lemma {:induction false} BatchesFromSlices(names: seq<string>, i: nat)
    ensures var starts := RangedDownload.PyRange(i, |names|, 100);
      && |BatchesFrom(names, i)| == |starts|
      && forall k :: 0 <= k < |starts| ==> BatchesFrom(names, i)[k] == SliceAt(names, starts[k])
    decreases |names| - i
  {
    if i < |names| {
      BatchesFromSlices(names, i + 100);
      var starts := RangedDownload.PyRange(i, |names|, 100);
      assert starts == [i] + RangedDownload.PyRange(i + 100, |names|, 100);
    }
  }

  /** The batches from `i` hold between 1 and 100 names each and together
      are the names from `i` on, in order. */
  lemma {:induction false} BatchesFromCover(names: seq<string>, i: nat)
    requires i <= |names|
    ensures Concat(BatchesFrom(names, i)) == names[i..]
    ensures forall k :: 0 <= k < |BatchesFrom(names, i)| ==> 1 <= |BatchesFrom(names, i)[k]| <= 100
    decreases |names| - i
  {
    if i < |names| {
      var j := RangedDownload.Min(i + 100, |names|);
      BatchesFromCover(names, j);
      if j == i + 100 {
        assert BatchesFrom(names, i) == [SliceAt(names, i)] + BatchesFrom(names, j);
      } else {
        assert BatchesFrom(names, i + 100) == [];
        assert BatchesFrom(names, j) == [];
        assert BatchesFrom(names, i) == [SliceAt(names, i)];
        assert names[i..] == names[i..j];
      }
      var bs := BatchesFrom(names, i);
      assert bs[1..] == BatchesFrom(names, i + 100);
      assert names[i..] == names[i..j] + names[j..];
    } else {
      assert names[i..] == [];
    }
  }

  /** `parse_tags` batching: every batch holds 1 to 100 names, and the
      batches put together are the name list. */
  lemma BatchesPartition(names: seq<string>)
    ensures Concat(Batches(names)) == names
    ensures forall k :: 0 <= k < |Batches(names)| ==> 1 <= |Batches(names)[k]| <= 100
  {
    BatchesFromSlices(names, 0);
    BatchesFromCover(names, 0);
    assert Batches(names) == BatchesFrom(names, 0);
    assert names[0..] == names;
  }

  // ------------------------------------------------------------ grouping --

  /** `get_types` once the dictionary is filled: each tag's type from the
      `type_by_name` cache, else from `get_tag`; a tag found in neither
      raises. (The cache entries the loop adds repeat what `get_tag` would
      return again, so a lookup of the initial cache gives the same types.) */
  function TypesOf(names: seq<string>, cache: map<string, int>, tags: map<string, TagEntry>, unescape: string -> string): (r: Result<seq<int>, string>)
    ensures r.Err? <==> exists k :: 0 <= k < |names| && TypeOf(names[k], cache, tags, unescape).None?
    ensures r.Ok? ==> |r.value| == |names| && forall k :: 0 <= k < |names| ==> Some(r.value[k]) == TypeOf(names[k], cache, tags, unescape)
  {
    if names == [] then Ok([])
    else
      assert forall k :: 1 <= k < |names| ==> names[k] == names[1..][k - 1];
      match TypeOf(names[0], cache, tags, unescape)
      case None => Err("not found")
      case Some(x) => Prefix(x, TypesOf(names[1..], cache, tags, unescape))
  }

  /** One tag's type: the cached one, else the one `get_tag` finds. */
  function TypeOf(t: string, cache: map<string, int>, tags: map<string, TagEntry>, unescape: string -> string): (r: Option<int>)
    ensures r.None? <==> t !in cache && GetTag(tags, t, unescape).None?
    ensures t in cache ==> r == Some(cache[t])
    ensures t !in cache && r.Some? ==> r == Some(GetTag(tags, t, unescape).value.tagType)
  {
    if t in cache then Some(cache[t])
    else match GetTag(tags, t, unescape)
      case None => None
      case Some(e) => Some(e.tagType)
  }

  function Prefix<T>(x: T, r: Result<seq<T>, string>): (q: Result<seq<T>, string>)
    ensures q.Ok? <==> r.Ok?
    ensures q.Ok? ==> q.value == [x] + r.value
  {
    match r
    case Ok(xs) => Ok([x] + xs)
    case Err(e) => Err(e)
  }

  /** The type names of `verbose=True`: `KeyError` for a type without one. */
  function NamesOf(types: seq<int>): (r: Result<seq<string>, string>)
    ensures r.Err? <==> exists k :: 0 <= k < |types| && TypeName(types[k]).None?
    ensures r.Ok? ==> |r.value| == |types| && forall k :: 0 <= k < |types| ==> Some(r.value[k]) == TypeName(types[k])
  {
    if types == [] then Ok([])
    else
      assert forall k :: 1 <= k < |types| ==> types[k] == types[1..][k - 1];
      match TypeName(types[0])
      case None => Err("KeyError")
      case Some(n) => Prefix(n, NamesOf(types[1..]))
  }

  /** The tags of `pairs` whose type is `t`, in order. */
  function Filter(pairs: seq<(string, string)>, t: string): seq<string> {
    if pairs == [] then []
    else Filter(pairs[..|pairs| - 1], t) + (if pairs[|pairs| - 1].1 == t then [pairs[|pairs| - 1].0] else [])
  }

  /** `t` heads one of the groups. */
  predicate HasGroup(groups: seq<(string, seq<string>)>, t: string) {
    exists k :: 0 <= k < |groups| && groups[k].0 == t
  }

  /** Some pair has type `t`. */
  predicate Occurs(pairs: seq<(string, string)>, t: string) {
    exists i :: 0 <= i < |pairs| && pairs[i].1 == t
  }

  predicate DistinctKeys(groups: seq<(string, seq<string>)>) {
    forall i, j :: 0 <= i < j < |groups| ==> groups[i].0 != groups[j].0
  }

  /** Appending `tag` to the group of `t`, opening it at the end when new,
      as `dict` insertion does. */
  function AddTo(groups: seq<(string, seq<string>)>, t: string, tag: string): (r: seq<(string, seq<string>)>)
    requires DistinctKeys(groups)
    ensures |r| == (if HasGroup(groups, t) then |groups| else |groups| + 1)
    ensures forall k :: 0 <= k < |groups| ==> r[k] == (groups[k].0, if groups[k].0 == t then groups[k].1 + [tag] else groups[k].1)
    ensures !HasGroup(groups, t) ==> r[|groups|] == (t, [tag])
  {
    if groups == [] then [(t, [tag])]
    else
      GroupsCons(groups, t);
      if groups[0].0 == t then
        var r := [(t, groups[0].1 + [tag])] + groups[1..];
        assert forall k :: 0 < k < |groups| ==> r[k] == groups[k];
        r
      else
        var rest := AddTo(groups[1..], t, tag);
        var r := [groups[0]] + rest;
        assert forall k :: 0 < k < |r| ==> r[k] == rest[k - 1];
        r
  }

  /** The keys after the first are distinct and differ from the first, and
      `t` heads a group when it heads the first one or a later one. */
  lemma GroupsCons(groups: seq<(string, seq<string>)>, t: string)
    requires DistinctKeys(groups) && |groups| > 0
    ensures DistinctKeys(groups[1..])
    ensures forall k :: 0 < k < |groups| ==> groups[k].0 != groups[0].0 && groups[k] == groups[1..][k - 1]
    ensures HasGroup(groups, t) <==> groups[0].0 == t || HasGroup(groups[1..], t)
  {
    var tail := groups[1..];
    if HasGroup(tail, t) {
      var k :| 0 <= k < |tail| && tail[k].0 == t;
      assert groups[k + 1].0 == t;
    }
    if HasGroup(groups, t) && groups[0].0 != t {
      var k :| 0 <= k < |groups| && groups[k].0 == t;
      assert tail[k - 1].0 == t;
    }
  }

  /** Adding to a group keeps the keys distinct. */
  lemma AddToDistinct(groups: seq<(string, seq<string>)>, t: string, tag: string)
    requires DistinctKeys(groups)
    ensures DistinctKeys(AddTo(groups, t, tag))
  {
    var r := AddTo(groups, t, tag);
    forall i, j | 0 <= i < j < |r| ensures r[i].0 != r[j].0 {
      if j < |groups| {
        assert r[i].0 == groups[i].0 && r[j].0 == groups[j].0;
      } else {
        assert r[j].0 == t && r[i].0 == groups[i].0;
      }
    }
  }

  /** Adding to a group leaves the keys as they were, plus `t`. */
  lemma AddToKeys(groups: seq<(string, seq<string>)>, t: string, tag: string, s: string)
    requires DistinctKeys(groups)
    ensures HasGroup(AddTo(groups, t, tag), s) <==> HasGroup(groups, s) || s == t
  {
    var r := AddTo(groups, t, tag);
    if HasGroup(groups, s) {
      var k :| 0 <= k < |groups| && groups[k].0 == s;
      assert r[k].0 == s;
    }
    if s == t && !HasGroup(groups, t) {
      assert r[|groups|].0 == t;
    }
    if HasGroup(r, s) && s != t {
      var k :| 0 <= k < |r| && r[k].0 == s;
      if k < |groups| {
        assert groups[k].0 == s;
      }
    }
  }

  /** The `tag_dict` loop of `structured_tags` over `zip(tags, types)`. */
  function Group(pairs: seq<(string, string)>): (g: seq<(string, seq<string>)>)
    ensures DistinctKeys(g)
  {
    if pairs == [] then []
    else
      var g := Group(pairs[..|pairs| - 1]);
      AddToDistinct(g, pairs[|pairs| - 1].1, pairs[|pairs| - 1].0);
      AddTo(g, pairs[|pairs| - 1].1, pairs[|pairs| - 1].0)
  }

  lemma OccursSnoc(pairs: seq<(string, string)>, t: string)
    requires pairs != []
    ensures Occurs(pairs, t) <==> Occurs(pairs[..|pairs| - 1], t) || pairs[|pairs| - 1].1 == t
  {
    var init := pairs[..|pairs| - 1];
    assert forall i :: 0 <= i < |init| ==> init[i] == pairs[i];
  }

  /** The groups are exactly the types that occur. */
  lemma {:induction false} GroupKeys(pairs: seq<(string, string)>, t: string)
    ensures HasGroup(Group(pairs), t) <==> Occurs(pairs, t)
    decreases |pairs|
  {
    if pairs != [] {
      var init := pairs[..|pairs| - 1];
      GroupKeys(init, t);
      OccursSnoc(pairs, t);
      AddToKeys(Group(init), pairs[|pairs| - 1].1, pairs[|pairs| - 1].0, t);
    }
  }

  /** Each group lists the tags of its type in input order. */
  lemma {:induction false} GroupContents(pairs: seq<(string, string)>)
    ensures forall k :: 0 <= k < |Group(pairs)| ==> Group(pairs)[k].1 == Filter(pairs, Group(pairs)[k].0)
    decreases |pairs|
  {
    if pairs != [] {
      var init := pairs[..|pairs| - 1];
      var last := pairs[|pairs| - 1];
      GroupContents(init);
      var g0 := Group(init);
      var g := Group(pairs);
      forall k | 0 <= k < |g| ensures g[k].1 == Filter(pairs, g[k].0) {
        if k == |g0| {
          GroupKeys(init, last.1);
          NoTagsWithout(init, last.1);
        }
      }
    }
  }

  /** A type that never occurs has no tags. */
  lemma {:induction false} NoTagsWithout(pairs: seq<(string, string)>, t: string)
    requires !Occurs(pairs, t)
    ensures Filter(pairs, t) == []
    decreases |pairs|
  {
    if pairs != [] {
      var init := pairs[..|pairs| - 1];
      assert forall i :: 0 <= i < |init| ==> init[i] == pairs[i];
      OccursSnoc(pairs, t);
      NoTagsWithout(init, t);
    }
  }

  /** `zip(tags, types)` for two lists of the same length. */
  function Zip(names: seq<string>, typeNames: seq<string>): (r: seq<(string, string)>)
    requires |names| == |typeNames|
    ensures |r| == |names| && forall k :: 0 <= k < |r| ==> r[k] == (names[k], typeNames[k])
  {
    seq(|names|, k requires 0 <= k < |names| => (names[k], typeNames[k]))
  }

  /** `structured_tags`: the tags of the string grouped by type name. */
  function StructuredTags(tagsString: string, cache: map<string, int>, tags: map<string, TagEntry>, unescape: string -> string): Result<seq<(string, seq<string>)>, string> {
    var names := SplitOn(tagsString, ' ');
    var types :- TypesOf(names, cache, tags, unescape);
    var typeNames :- NamesOf(types);
    Ok(Group(Zip(names, typeNames)))
  }

  /** `structured_tags` fails exactly when a tag is unknown or has a type
      without a name; otherwise each type name heads one group, which lists
      the tags of that type in input order. */
  lemma StructuredTagsMeaning(tagsString: string, cache: map<string, int>, tags: map<string, TagEntry>, unescape: string -> string)
    ensures var names := SplitOn(tagsString, ' ');
      var r := StructuredTags(tagsString, cache, tags, unescape);
      && (r.Err? <==> TypesOf(names, cache, tags, unescape).Err? || NamesOf(TypesOf(names, cache, tags, unescape).value).Err?)
      && (r.Ok? ==> exists typeNames :: (
            && |typeNames| == |names|
            && NamesOf(TypesOf(names, cache, tags, unescape).value) == Ok(typeNames)
            && r.value == Group(Zip(names, typeNames))
            && DistinctKeys(r.value)
            && forall k :: 0 <= k < |r.value| ==> r.value[k].1 == Filter(Zip(names, typeNames), r.value[k].0)))
  {
    var names := SplitOn(tagsString, ' ');
    var r := StructuredTags(tagsString, cache, tags, unescape);
    if r.Ok? {
      var typeNames := NamesOf(TypesOf(names, cache, tags, unescape).value).value;
      GroupContents(Zip(names, typeNames));
    }
  }
}
