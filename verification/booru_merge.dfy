/** The record handling of `booru_post_crawling.py`: trimming posts to the
    kept keys, merging bulk windows without repeating an id, choosing the
    bulk windows of an id range, and the id-range skip of the download
    handler. */
module BooruMerge {
  import opened Base
  import opened Json
  import BooruText
  import PyText
  import Modular
  import RangedDownload

  // ----------------------------------------------------------------- trim --

  const DanbooruKeep: seq<string> := [
    "id", "created_at", "file_url", "rating", "score", "tag_string",
    "tag_string_artist", "tag_string_character", "tag_string_copyright",
    "tag_string_meta", "tag_string_general"]

  const GelbooruKeep: seq<string> := ["id", "created_at", "file_url", "rating", "score", "tags"]

  /** `{k: p.get(k) for k in keep}`: one member per kept key, in keep order,
      `null` where the post lacks the key. */
  function TrimPost(p: seq<Member>, keep: seq<string>): (r: seq<Member>)
    ensures |r| == |keep|
    ensures forall k :: 0 <= k < |r| ==> r[k].key == keep[k] && r[k].value == GetOrNull(p, keep[k])
  {
    seq(|keep|, k requires 0 <= k < |keep| => Member(keep[k], GetOrNull(p, keep[k])))
  }

  /** `_trim`: every post trimmed, the list length kept. */
  function Trim(posts: seq<seq<Member>>, keep: seq<string>): (r: seq<seq<Member>>)
    ensures |r| == |posts|
    ensures forall i :: 0 <= i < |r| ==> r[i] == TrimPost(posts[i], keep)
  {
    seq(|posts|, i requires 0 <= i < |posts| => TrimPost(posts[i], keep))
  }

  /** A trimmed post has exactly the kept keys, each read as the original
      post's `.get`. */
  lemma TrimmedKeys(p: seq<Member>, keep: seq<string>, key: string)
    ensures key in keep ==> Get(TrimPost(p, keep), key) == Some(GetOrNull(p, key))
    ensures key !in keep ==> Get(TrimPost(p, keep), key).None?
  {
    var r := TrimPost(p, keep);
    if key in keep {
      var v := Get(r, key).value;
      assert exists i :: 0 <= i < |r| && r[i].key == key && r[i].value == v;
    } else {
      assert forall i :: 0 <= i < |r| ==> r[i].key != key;
    }
  }

  /** Trimming a trimmed post changes nothing. */
  lemma TrimIdempotent(p: seq<Member>, keep: seq<string>)
    ensures TrimPost(TrimPost(p, keep), keep) == TrimPost(p, keep)
  {
    var r := TrimPost(p, keep);
    forall k | 0 <= k < |keep| ensures GetOrNull(r, keep[k]) == GetOrNull(p, keep[k]) {
      TrimmedKeys(p, keep, keep[k]);
    }
  }

  // ---------------------------------------------------------------- merge --

  /** A fetched post: its `id` as read by `p.get("id")` (`None` when missing
      or `null`) and the post itself. */
  datatype Post = Post(id: Option<int>, fields: seq<Member>)

  /** The posts of all batches, in the order the batches are handled. */
  function Flat(batches: seq<seq<Post>>): seq<Post> {
    if batches == [] then [] else batches[0] + Flat(batches[1..])
  }

  /** Reference definition of both merges: walk the posts keeping the first
      of each id not yet seen. With a window (range mode) only ids inside it
      are kept, and a post without an id reaches the comparison
      `min_id <= pid <= max_id`, which raises `TypeError`; without a window
      (`--bulk`) a missing id is just one more value to deduplicate. */
  function FirstOccurrences(ps: seq<Post>, seen: set<Option<int>>, window: Option<(int, int)>): (r: Result<seq<Post>, string>)
    requires window.Some? ==> None !in seen
    ensures window.None? ==> r.Ok?
    ensures r.Err? <==> window.Some? && exists i :: 0 <= i < |ps| && ps[i].id.None?
    decreases |ps|
  {
    if ps == [] then Ok([])
    else
      var p := ps[0];
      var rest := FirstOccurrences(ps[1..], seen, window);
      assert forall i :: 1 <= i < |ps| ==> ps[i] == ps[1..][i - 1];
      if p.id in seen then rest
      else if window.Some? && p.id.None? then Err("TypeError")
      else if window.None? || window.value.0 <= p.id.value <= window.value.1 then
        Prepend([p], FirstOccurrences(ps[1..], seen + {p.id}, window))
      else rest
  }

  /** The merged list in front of the merge of the rest. */
  function Prepend(xs: seq<Post>, r: Result<seq<Post>, string>): (q: Result<seq<Post>, string>)
    ensures q.Ok? <==> r.Ok?
  {
    match r
    case Ok(ys) => Ok(xs + ys)
    case Err(e) => Err(e)
  }

  predicate InWindow(id: Option<int>, window: Option<(int, int)>) {
    window.None? || (id.Some? && window.value.0 <= id.value <= window.value.1)
  }

  /** What the merge keeps: posts of the input, with distinct ids, none
      already seen, all inside the window. */
  lemma {:induction false} FirstOccurrencesKept(ps: seq<Post>, seen: set<Option<int>>, window: Option<(int, int)>)
    requires window.Some? ==> None !in seen
    requires FirstOccurrences(ps, seen, window).Ok?
    ensures var r := FirstOccurrences(ps, seen, window).value;
      && (forall q :: q in r ==> q in ps && q.id !in seen && InWindow(q.id, window))
      && (forall i, j :: 0 <= i < j < |r| ==> r[i].id != r[j].id)
    decreases |ps|
  {
    if ps != [] {
      var p := ps[0];
      assert forall q :: q in ps[1..] ==> q in ps;
      if p.id in seen {
        FirstOccurrencesKept(ps[1..], seen, window);
      } else if window.None? || window.value.0 <= p.id.value <= window.value.1 {
        var seen' := seen + {p.id};
        FirstOccurrencesKept(ps[1..], seen', window);
        var tail := FirstOccurrences(ps[1..], seen', window).value;
        var r := [p] + tail;
        assert FirstOccurrences(ps, seen, window).value == r;
        assert forall j :: 0 < j < |r| ==> r[j] == tail[j - 1];
        assert forall q :: q in tail ==> q.id != p.id;
      } else {
        FirstOccurrencesKept(ps[1..], seen, window);
      }
    }
  }

  /** Every id of the input that is new and inside the window is kept. */
  lemma {:induction false} FirstOccurrencesComplete(ps: seq<Post>, seen: set<Option<int>>, window: Option<(int, int)>)
    requires window.Some? ==> None !in seen
    requires FirstOccurrences(ps, seen, window).Ok?
    ensures var r := FirstOccurrences(ps, seen, window).value;
      forall p :: p in ps && p.id !in seen && InWindow(p.id, window) ==> exists q :: q in r && q.id == p.id
    decreases |ps|
  {
    if ps != [] {
      var p := ps[0];
      assert ps == [p] + ps[1..];
      var r := FirstOccurrences(ps, seen, window).value;
      if p.id in seen {
        FirstOccurrencesComplete(ps[1..], seen, window);
      } else if window.None? || window.value.0 <= p.id.value <= window.value.1 {
        var seen' := seen + {p.id};
        FirstOccurrencesComplete(ps[1..], seen', window);
        var tail := FirstOccurrences(ps[1..], seen', window).value;
        assert r == [p] + tail;
        assert p in r;
        assert forall q :: q in tail ==> q in r;
      } else {
        FirstOccurrencesComplete(ps[1..], seen, window);
      }
    }
  }

  lemma PrependEmpty(r: Result<seq<Post>, string>)
    ensures Prepend([], r) == r
  {
    if r.Ok? {
      assert [] + r.value == r.value;
    }
  }

  lemma PrependAssoc(xs: seq<Post>, ys: seq<Post>, r: Result<seq<Post>, string>)
    ensures Prepend(xs, Prepend(ys, r)) == Prepend(xs + ys, r)
  {
    if r.Ok? {
      assert xs + (ys + r.value) == (xs + ys) + r.value;
    }
  }

  /** The merge loop of `main`: batches in the order they complete, posts
      in batch order, an id added to `seen` when its post is kept. */
  method Merge(batches: seq<seq<Post>>, window: Option<(int, int)>) returns (r: Result<seq<Post>, string>)
    ensures r == FirstOccurrences(Flat(batches), {}, window)
  {
    var all: seq<Post> := [];
    var seen: set<Option<int>> := {};
    var b := 0;
    PrependEmpty(FirstOccurrences(Flat(batches), {}, window));
    FlatEnds(batches);
    while b < |batches|
      invariant 0 <= b <= |batches|
      invariant window.Some? ==> None !in seen
      invariant FirstOccurrences(Flat(batches), {}, window) == Prepend(all, FirstOccurrences(Flat(batches[b..]), seen, window))
    {
      FlatStep(batches, b);
      var failed;
      all, seen, failed := MergeBatch(batches[b], Flat(batches[b + 1..]), all, seen, window);
      if failed {
        return Err("TypeError");
      }
      b := b + 1;
    }
    MergeDone(all, seen, window);
    r := Ok(all);
  }

  lemma MergeDone(all: seq<Post>, seen: set<Option<int>>, window: Option<(int, int)>)
    requires window.Some? ==> None !in seen
    ensures Prepend(all, FirstOccurrences([], seen, window)) == Ok(all)
  {
    assert all + [] == all;
  }

  lemma FlatEnds(batches: seq<seq<Post>>)
    ensures Flat(batches[0..]) == Flat(batches) && Flat(batches[|batches|..]) == []
  {
    assert batches[0..] == batches;
  }

  lemma FlatStep(batches: seq<seq<Post>>, b: nat)
    requires b < |batches|
    ensures Flat(batches[b..]) == batches[b] + Flat(batches[b + 1..])
  {
    assert batches[b..][1..] == batches[b + 1..];
  }

  /** The inner loop of the merge over one batch, followed by the posts of
      the later batches `tail`. */
  method MergeBatch(batch: seq<Post>, tail: seq<Post>, all0: seq<Post>, seen0: set<Option<int>>, window: Option<(int, int)>)
    returns (all: seq<Post>, seen: set<Option<int>>, failed: bool)
    requires window.Some? ==> None !in seen0
    ensures window.Some? ==> None !in seen
    ensures failed ==> Prepend(all0, FirstOccurrences(batch + tail, seen0, window)) == Err("TypeError")
    ensures !failed ==> Prepend(all0, FirstOccurrences(batch + tail, seen0, window)) == Prepend(all, FirstOccurrences(tail, seen, window))
  {
    all, seen, failed := all0, seen0, false;
    var j := 0;
    assert batch[0..] == batch;
    while j < |batch|
      invariant 0 <= j <= |batch|
      invariant window.Some? ==> None !in seen
      invariant Prepend(all0, FirstOccurrences(batch + tail, seen0, window)) == Prepend(all, FirstOccurrences(batch[j..] + tail, seen, window))
    {
      var p := batch[j];
      var rest := batch[j..] + tail;
      assert rest[0] == p && rest[1..] == batch[j + 1..] + tail;
      MergeStep(all, rest, seen, window);
      if p.id !in seen {
        if window.Some? && p.id.None? {
          failed := true;
          return;
        }
        if InWindow(p.id, window) {
          all := all + [p];
          seen := seen + {p.id};
        }
      }
      j := j + 1;
    }
    assert batch[j..] + tail == tail;
  }

  /** One post of the merge loop: skipped when seen, fatal without an id in
      range mode, kept when new and inside the window, skipped otherwise. */
  lemma MergeStep(all: seq<Post>, rest: seq<Post>, seen: set<Option<int>>, window: Option<(int, int)>)
    requires |rest| > 0 && (window.Some? ==> None !in seen)
    ensures var p := rest[0];
      var now := Prepend(all, FirstOccurrences(rest, seen, window));
      && (p.id in seen ==> now == Prepend(all, FirstOccurrences(rest[1..], seen, window)))
      && (p.id !in seen && window.Some? && p.id.None? ==> now == Err("TypeError"))
      && (p.id !in seen && !(window.Some? && p.id.None?) && InWindow(p.id, window) ==>
            now == Prepend(all + [p], FirstOccurrences(rest[1..], seen + {p.id}, window)))
      && (p.id !in seen && !(window.Some? && p.id.None?) && !InWindow(p.id, window) ==>
            now == Prepend(all, FirstOccurrences(rest[1..], seen, window)))
  {
    var p := rest[0];
    if p.id !in seen && !(window.Some? && p.id.None?) && InWindow(p.id, window) {
      PrependAssoc(all, [p], FirstOccurrences(rest[1..], seen + {p.id}, window));
    }
  }

  /** The `--bulk` merge never repeats an id and keeps a post for every id
      fetched. */
  lemma BulkMergeMeaning(batches: seq<seq<Post>>)
    ensures var r := FirstOccurrences(Flat(batches), {}, None).value;
      && (forall i, j :: 0 <= i < j < |r| ==> r[i].id != r[j].id)
      && (forall p :: p in Flat(batches) ==> exists q :: q in r && q.id == p.id)
  {
    FirstOccurrencesKept(Flat(batches), {}, None);
    FirstOccurrencesComplete(Flat(batches), {}, None);
  }

  /** The range merge raises exactly when a fetched post has no id, and
      otherwise never repeats an id, keeps only ids in `[lo, hi]`, and keeps a
      post for every fetched id in that range. */
  lemma RangeMergeMeaning(batches: seq<seq<Post>>, lo: int, hi: int)
    ensures var r := FirstOccurrences(Flat(batches), {}, Some((lo, hi)));
      && (r.Err? <==> exists p :: p in Flat(batches) && p.id.None?)
      && (r.Ok? ==> forall i, j :: 0 <= i < j < |r.value| ==> r.value[i].id != r.value[j].id)
      && (r.Ok? ==> forall q :: q in r.value ==> q.id.Some? && lo <= q.id.value <= hi)
      && (r.Ok? ==> forall p :: p in Flat(batches) && p.id.Some? && lo <= p.id.value <= hi ==>
                      exists q :: q in r.value && q.id == p.id)
  {
    var ps := Flat(batches);
    if FirstOccurrences(ps, {}, Some((lo, hi))).Ok? {
      FirstOccurrencesKept(ps, {}, Some((lo, hi)));
      FirstOccurrencesComplete(ps, {}, Some((lo, hi)));
    }
  }

  // -------------------------------------------------------- range windows --

  /** The bulk indices range mode fetches: `range(min_id, max_id + 1, 20)`. */
  function RangeIndices(minId: int, maxId: int): seq<int> {
    RangedDownload.PyRange(minId, maxId + 1, BooruText.PerRequestPosts)
  }

  /** Some fetched index has a window holding `id`. */
  predicate Covered(indices: seq<int>, id: int) {
    exists k :: 0 <= k < |indices| && BooruText.BulkWindow(indices[k]).0 <= id <= BooruText.BulkWindow(indices[k]).1
  }

  /** Since each index is widened down to its aligned window, stepping by 20
      from an unaligned `min_id` skips the window of `max_id` when
      `max_id % 20 < min_id % 20`: for ids 15..25 only the window 0..19 is
      asked for, and posts 20..25 are never fetched. */
  lemma RangeIndicesMissPosts()
    ensures RangeIndices(15, 25) == [15]
    ensures !Covered(RangeIndices(15, 25), 20)
  {
    assert RangedDownload.PyRange(35, 26, 20) == [];
    assert BooruText.BulkWindow(15) == (0, 19);
  }

  /** The indices that reach every id of the range: start from the window
      of `min_id` rather than from `min_id` itself. */
  function AlignedIndices(minId: int, maxId: int): seq<int> {
    RangedDownload.PyRange(minId - minId % BooruText.PerRequestPosts, maxId + 1, BooruText.PerRequestPosts)
  }

  /** With aligned indices every id in `[min_id, max_id]` falls in a
      fetched window. */
  lemma AlignedIndicesCover(minId: int, maxId: int, id: int)
    requires minId <= id <= maxId
    ensures Covered(AlignedIndices(minId, maxId), id)
  {
    var n := BooruText.PerRequestPosts;
    var a := minId - minId % n;
    var x := id - id % n;
    Modular.RoundDown(minId, n);
    Modular.RoundDown(id, n);
    Modular.RoundDownMonotone(minId, id, n);
    Modular.MultiplesApart(a, x, n);
    var k := InPyRange(a, maxId + 1, n, x);
    BooruText.SameWindow(id, x);
    assert AlignedIndices(minId, maxId)[k] == x;
  }

  /** Every step-multiple past the start and below the stop is produced by
      `range`. */
  lemma {:induction false} InPyRange(start: int, stop: int, step: int, x: int) returns (k: nat)
    requires step > 0 && start <= x < stop && (x - start) % step == 0
    ensures k < |RangedDownload.PyRange(start, stop, step)| && RangedDownload.PyRange(start, stop, step)[k] == x
    decreases x - start
  {
    if x == start {
      k := 0;
    } else {
      Modular.PositiveMultiple(x - start, step);
      var k' := InPyRange(start + step, stop, step, x);
      k := k' + 1;
    }
  }

  // ------------------------------------------------------- handler skips --

  /** What `download_post_handler` does before it touches the disk. */
  datatype Handling = Ignored | BelowRange | AboveRange | Unsupported | Save(name: string)

  /** `bool(x)` for an optional id. */
  predicate GivenId(x: Option<int>) { x.Some? && x.value != 0 }

  /** A post with a truthy URL and an id that lies within every truthy bound. */
  predicate Admitted(url: Option<string>, pid: Option<int>, minId: Option<int>, maxId: Option<int>) {
    && url.Some? && url.value != [] && pid.Some?
    && !(GivenId(minId) && pid.value < minId.value)
    && !(GivenId(maxId) && pid.value > maxId.value)
  }

  /** The skips at the top of `download_post_handler`: no URL or no id, then
      the `min_id` and `max_id` bounds, which only apply when truthy, then
      an unsupported suffix. */
  function Handle(url: Option<string>, pid: Option<int>, minId: Option<int>, maxId: Option<int>, extsToNone: seq<string>): (r: Handling)
    ensures r == Ignored <==> url.None? || url.value == [] || pid.None?
    ensures r == BelowRange <==> !(r == Ignored) && GivenId(minId) && pid.value < minId.value
    ensures r == AboveRange <==> !(r == Ignored) && !(r == BelowRange) && GivenId(maxId) && pid.value > maxId.value
    ensures r == Unsupported <==> Admitted(url, pid, minId, maxId) && BooruText.SafeFilename(url.value, pid.value, extsToNone).None?
    ensures r.Save? <==> Admitted(url, pid, minId, maxId) && BooruText.SafeFilename(url.value, pid.value, extsToNone).Some?
    ensures r.Save? ==> BooruText.SafeFilename(url.value, pid.value, extsToNone) == Some(r.name)
  {
    if url.None? || url.value == [] || pid.None? then Ignored
    else if GivenId(minId) && pid.value < minId.value then BelowRange
    else if GivenId(maxId) && pid.value > maxId.value then AboveRange
    else match BooruText.SafeFilename(url.value, pid.value, extsToNone)
      case None => Unsupported
      case Some(name) => Save(name)
  }

  /** A saved post lies within every bound that is set. */
  lemma SavedWithinBounds(url: Option<string>, pid: Option<int>, minId: Option<int>, maxId: Option<int>, extsToNone: seq<string>)
    requires Handle(url, pid, minId, maxId, extsToNone).Save?
    ensures pid.Some? && url.Some?
    ensures GivenId(minId) ==> minId.value <= pid.value
    ensures GivenId(maxId) ==> pid.value <= maxId.value
  {
  }

  /** An admitted post whose suffix is not listed is saved under its id
      followed by the URL's suffix. */
  lemma AllowedPostSaved(url: string, pid: int, minId: Option<int>, maxId: Option<int>, extsToNone: seq<string>)
    requires Admitted(Some(url), Some(pid), minId, maxId)
    requires !(|extsToNone| > 0 && BooruText.Suffix(BooruText.PathName(url)) in extsToNone)
    ensures Handle(Some(url), Some(pid), minId, maxId, extsToNone)
      == Save(PyText.IntToString(pid) + BooruText.Suffix(BooruText.PathName(url)))
  {
  }

  /** A bound of 0 counts as no bound, as Python's truthiness has it. */
  lemma ZeroBoundIgnored(url: Option<string>, pid: Option<int>, maxId: Option<int>, extsToNone: seq<string>)
    ensures Handle(url, pid, Some(0), maxId, extsToNone) == Handle(url, pid, None, maxId, extsToNone)
    ensures Handle(url, pid, maxId, Some(0), extsToNone) == Handle(url, pid, maxId, None, extsToNone)
  {
  }
}
