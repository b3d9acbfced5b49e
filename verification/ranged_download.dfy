/** The chunked transfer at the end of `download_post` in
    `gelbooru_post_download.py` and `danbooru_post_download.py`: the chunk
    plan, the resume skip, the inclusive part range, the per-part retry loop
    and the Content-Length and final-size checks. File contents are strings
    (one character per byte); the part files of the Gelbooru variant are a
    map from chunk index to content. */
module RangedDownload {
  import opened Base
  import opened ProxyHandler

  /** A half-open byte range `[start, end)`, as the `(i, min(...))` tuples. */
  datatype Chunk = Chunk(start: int, end: int)

  function Width(c: Chunk): int { c.end - c.start }

  // --------------------------------------------------------------- plan --

  /** Python's `range(start, stop, step)` for a non-zero step. */
  function PyRange(start: int, stop: int, step: int): (r: seq<int>)
    requires step != 0
    ensures |r| > 0 ==> r[0] == start
    ensures forall k :: 0 <= k < |r| ==> (if step > 0 then r[k] < stop else r[k] > stop)
    ensures forall k :: 0 <= k < |r| - 1 ==> r[k + 1] == r[k] + step
    ensures |r| == 0 <==> (if step > 0 then start >= stop else start <= stop)
    ensures |r| > 0 ==> (if step > 0 then r[|r| - 1] + step >= stop else r[|r| - 1] + step <= stop)
    decreases if step > 0 then stop - start else start - stop
  {
    if (step > 0 && start < stop) || (step < 0 && start > stop) then
      [start] + PyRange(start + step, stop, step)
    else []
  }

  /** The chunk list `datas`: one `(i, min(filesize, i + split_size))` per
      `i in range(0, filesize, split_size)`; a zero split size makes `range`
      raise `ValueError`. */
  function ChunkPlan(filesize: int, split: int): (r: Result<seq<Chunk>, string>)
    ensures r.Err? <==> split == 0
    ensures r.Ok? ==> |r.value| == |PyRange(0, filesize, split)|
    ensures r.Ok? ==> forall k :: 0 <= k < |r.value| ==>
      r.value[k].start == PyRange(0, filesize, split)[k] && r.value[k].end == Min(filesize, r.value[k].start + split)
  {
    if split == 0 then Err("ValueError")
    else Ok(ChunksAt(PyRange(0, filesize, split), filesize, split))
  }

  /** One chunk per start, each cut at `filesize`. */
  function ChunksAt(starts: seq<int>, filesize: int, split: int): (r: seq<Chunk>)
    ensures |r| == |starts|
    ensures forall k :: 0 <= k < |r| ==> r[k] == Chunk(starts[k], Min(filesize, starts[k] + split))
  {
    seq(|starts|, k requires 0 <= k < |starts| => Chunk(starts[k], Min(filesize, starts[k] + split)))
  }

  function Min(a: int, b: int): int { if a <= b then a else b }

  /** The plan tiles `[0, filesize)`: it starts at 0, ends at `filesize`,
      each chunk begins where the previous one ended, and every width lies
      in `1..split`. An empty or negative size gives no chunks. */
  predicate Tiles(plan: seq<Chunk>, filesize: int, split: int) {
    && (filesize <= 0 <==> plan == [])
    && (plan != [] ==> plan[0].start == 0 && plan[|plan| - 1].end == filesize)
    && (forall k :: 0 <= k < |plan| - 1 ==> plan[k].end == plan[k + 1].start)
    && (forall k :: 0 <= k < |plan| ==> 1 <= Width(plan[k]) <= split)
  }

  lemma PlanTiles(filesize: int, split: int)
    requires split > 0
    ensures ChunkPlan(filesize, split).Ok? && Tiles(ChunkPlan(filesize, split).value, filesize, split)
  {
    var starts := PyRange(0, filesize, split);
    assert ChunkPlan(filesize, split) == Ok(ChunksAt(starts, filesize, split));
    StartsTile(starts, filesize, split);
  }

  /** Any ascending run of starts from 0 in steps of `split`, the last one
      within `split` of `filesize`, cuts the file into a tiling. */
  lemma StartsTile(starts: seq<int>, filesize: int, split: int)
    requires split > 0
    requires |starts| == 0 <==> 0 >= filesize
    requires |starts| > 0 ==> starts[0] == 0 && starts[|starts| - 1] + split >= filesize
    requires forall k :: 0 <= k < |starts| ==> starts[k] < filesize
    requires forall k :: 0 <= k < |starts| - 1 ==> starts[k + 1] == starts[k] + split
    ensures Tiles(ChunksAt(starts, filesize, split), filesize, split)
  {
    var plan := ChunksAt(starts, filesize, split);
    if plan != [] {
      var n := |plan| - 1;
      assert starts[n] < filesize <= starts[n] + split;
      assert plan[n].end == filesize;
    }
    forall k | 0 <= k < |plan| - 1 ensures plan[k].end == plan[k + 1].start {
      assert starts[k + 1] == starts[k] + split < filesize;
    }
    forall k | 0 <= k < |plan| ensures 1 <= Width(plan[k]) <= split {
      assert starts[k] < filesize;
    }
  }

  /** Chunks of a tiling are ordered and disjoint, and every byte of the file
      lies in exactly one of them. */
  lemma TilesPartition(plan: seq<Chunk>, filesize: int, split: int, b: int)
    requires Tiles(plan, filesize, split)
    ensures forall j, k :: 0 <= j < k < |plan| ==> plan[j].end <= plan[k].start
    ensures 0 <= b < filesize ==> exists k :: 0 <= k < |plan| && plan[k].start <= b < plan[k].end
  {
    Ascending(plan, filesize, split);
    if 0 <= b < filesize {
      var k := Locate(plan, filesize, split, b, 0);
    }
  }

  lemma Ascending(plan: seq<Chunk>, filesize: int, split: int)
    requires Tiles(plan, filesize, split)
    ensures forall j, k :: 0 <= j < k < |plan| ==> plan[j].end <= plan[k].start
  {
    forall j, k | 0 <= j < k < |plan| ensures plan[j].end <= plan[k].start {
      AscendingFrom(plan, filesize, split, j, k);
    }
  }

  lemma {:induction false} AscendingFrom(plan: seq<Chunk>, filesize: int, split: int, j: nat, k: nat)
    requires Tiles(plan, filesize, split) && j < k < |plan|
    ensures plan[j].end <= plan[k].start
    decreases k - j
  {
    if k > j + 1 {
      AscendingFrom(plan, filesize, split, j, k - 1);
      assert plan[k - 1].end == plan[k].start;
    }
  }

  /** The index of the chunk holding byte `b`, searching from chunk `i`. */
  lemma {:induction false} Locate(plan: seq<Chunk>, filesize: int, split: int, b: int, i: nat) returns (k: nat)
    requires Tiles(plan, filesize, split) && 0 <= b < filesize
    requires i < |plan| && plan[i].start <= b
    ensures i <= k < |plan| && plan[k].start <= b < plan[k].end
    decreases |plan| - i
  {
    if b < plan[i].end {
      k := i;
    } else {
      assert i + 1 < |plan|;
      k := Locate(plan, filesize, split, b, i + 1);
    }
  }

  /** The chunks the resume logic still fetches: those starting at or after
      the size already on disk, in plan order. */
  function ToFetch(plan: seq<Chunk>, current: int): (r: seq<Chunk>)
    ensures forall c :: c in r <==> c in plan && c.start >= current
    ensures |r| <= |plan|
  {
    if plan == [] then []
    else (if plan[0].start < current then [] else [plan[0]]) + ToFetch(plan[1..], current)
  }

  /** On an ascending plan the resume logic drops a prefix: what remains is
      the plan from the first chunk that starts at or after `current`. */
  lemma {:induction false} ResumeDropsPrefix(plan: seq<Chunk>, filesize: int, split: int, current: int)
    requires Tiles(plan, filesize, split)
    ensures exists k :: 0 <= k <= |plan| && ToFetch(plan, current) == plan[k..]
  {
    Ascending(plan, filesize, split);
    var k := FirstAtOrAfter(plan, current, 0);
    SuffixFrom(plan, current, k);
  }

  function FirstAtOrAfter(plan: seq<Chunk>, current: int, i: nat): (k: nat)
    requires i <= |plan|
    ensures i <= k <= |plan|
    ensures forall j :: i <= j < k ==> plan[j].start < current
    ensures k < |plan| ==> plan[k].start >= current
    decreases |plan| - i
  {
    if i == |plan| || plan[i].start >= current then i else FirstAtOrAfter(plan, current, i + 1)
  }

  lemma {:induction false} SuffixFrom(plan: seq<Chunk>, current: int, k: nat)
    requires k <= |plan|
    requires forall a, b :: 0 <= a < b < |plan| ==> plan[a].end <= plan[b].start
    requires forall c :: 0 <= c < |plan| ==> plan[c].start < plan[c].end
    requires forall j :: 0 <= j < k ==> plan[j].start < current
    requires k < |plan| ==> plan[k].start >= current
    ensures ToFetch(plan, current) == plan[k..]
    decreases |plan|
  {
    if plan != [] {
      if k == 0 {
        forall j | 0 <= j < |plan| ensures plan[j].start >= current {
          if j > 0 { assert plan[0].end <= plan[j].start; }
        }
        AllKept(plan, current);
      } else {
        SuffixFrom(plan[1..], current, k - 1);
        assert plan[1..][k - 1..] == plan[k..];
      }
    }
  }

  lemma {:induction false} AllKept(plan: seq<Chunk>, current: int)
    requires forall j :: 0 <= j < |plan| ==> plan[j].start >= current
    ensures ToFetch(plan, current) == plan
    decreases |plan|
  {
    if plan != [] {
      AllKept(plan[1..], current);
      assert plan == [plan[0]] + plan[1..];
    }
  }

  /** With nothing on disk the resume logic fetches the whole plan. */
  lemma FreshStartFetchesAll(filesize: int, split: int)
    requires split > 0
    ensures ToFetch(ChunkPlan(filesize, split).value, 0) == ChunkPlan(filesize, split).value
  {
    var plan := ChunkPlan(filesize, split).value;
    StartsFromZero(filesize, split);
    assert forall k :: 0 <= k < |plan| ==> plan[k].start == PyRange(0, filesize, split)[k];
    AllKept(plan, 0);
  }

  lemma StartsFromZero(filesize: int, split: int)
    requires split > 0
    ensures forall k :: 0 <= k < |PyRange(0, filesize, split)| ==> PyRange(0, filesize, split)[k] >= 0
  {
    var r := PyRange(0, filesize, split);
    forall k | 0 <= k < |r| ensures r[k] >= 0 {
      StepsUp(r, split, k);
    }
  }

  lemma {:induction false} StepsUp(r: seq<int>, step: int, k: nat)
    requires step > 0 && |r| > 0 && r[0] >= 0 && k < |r|
    requires forall j :: 0 <= j < |r| - 1 ==> r[j + 1] == r[j] + step
    ensures r[k] >= 0
  {
    if k > 0 {
      StepsUp(r, step, k - 1);
    }
  }

  /** The `start`/`end` query values of a part request: the end byte is
      inclusive, so the range asked for is exactly the chunk. */
  function PartRange(c: Chunk): (r: (int, int))
    ensures r.0 == c.start && r.1 - r.0 + 1 == Width(c)
  {
    (c.start, c.end - 1)
  }

  // -------------------------------------------------------------- retry --

  /** One pass of a retry loop: `get_filepart` raised, or it returned its
      value (`None` when the proxy layer gave up). */
  datatype Attempt = Raised | Returned(resp: Option<Response>)

  /** What each attempt of each chunk's retry loop gets: `(chunk index, attempt)`. */
  type Answers = (nat, nat) -> Attempt

  /** `bool(response)`: `requests` treats statuses below 400 as true. */
  predicate Accepted(r: Response) { r.status < 400 }

  /** The variable `file_response`: not yet assigned, or holding a value. */
  datatype Slot = Unbound | Bound(value: Option<Response>)

  /** An attempt that ends the retry loop: a truthy response whose status is
      one the loop accepts. */
  predicate Breaks(a: Attempt, accept: set<int>) {
    a.Returned? && a.resp.Some? && Accepted(a.resp.value) && a.resp.value.status in accept
  }

  /** The retry loop over attempts `i..maxRetry-1`: each returned value
      overwrites `file_response`, a raise leaves it alone, and a breaking
      response stops the loop. */
  function Retry(answers: Answers, k: nat, i: nat, maxRetry: nat, accept: set<int>, slot: Slot): (r: Slot)
    ensures (exists j :: i <= j < maxRetry && Breaks(answers(k, j), accept)) ==>
      r.Bound? && Breaks(Returned(r.value), accept)
    ensures slot.Bound? ==> r.Bound?
    ensures r.Bound? && r.value.Some? && r != slot ==> exists j :: i <= j < maxRetry && answers(k, j) == Returned(r.value)
    ensures r.Bound? && Breaks(Returned(r.value), accept) && !(slot.Bound? && Breaks(Returned(slot.value), accept)) ==>
      exists j :: i <= j < maxRetry && answers(k, j) == Returned(r.value)
    decreases maxRetry - i
  {
    if i >= maxRetry then slot
    else
      match answers(k, i)
      case Raised => Retry(answers, k, i + 1, maxRetry, accept, slot)
      case Returned(resp) =>
        if Breaks(Returned(resp), accept) then Bound(resp)
        else Retry(answers, k, i + 1, maxRetry, accept, Bound(resp))
  }

  /** Some attempt of chunk `k` returned a success response carrying `body`. */
  predicate Served(answers: Answers, k: nat, maxRetry: nat, body: string) {
    exists j :: 0 <= j < maxRetry && Delivers(answers(k, j), body)
  }

  predicate Delivers(a: Attempt, body: string) {
    a.Returned? && a.resp.Some? && a.resp.value.status in {200, 206} && a.resp.value.body == body
  }

  /** `content` is the chunks `k..` in order, each exactly its width long and
      each served by one of that chunk's own attempts. */
  predicate AssembledFrom(content: string, plan: seq<Chunk>, k: nat, answers: Answers, maxRetry: nat)
    decreases |plan| - k
  {
    if k >= |plan| then content == []
    else
      var w := Width(plan[k]);
      && 0 <= w <= |content|
      && Served(answers, k, maxRetry, content[..w])
      && AssembledFrom(content[w..], plan, k + 1, answers, maxRetry)
  }

  /** `content` is the chunks `k..` in order, each piece served by one of
      that chunk's own attempts, whatever its length. */
  predicate ServedInOrder(content: string, plan: seq<Chunk>, k: nat, answers: Answers, maxRetry: nat)
    decreases |plan| - k
  {
    if k >= |plan| then content == []
    else exists w :: (0 <= w <= |content| && Served(answers, k, maxRetry, content[..w])
      && ServedInOrder(content[w..], plan, k + 1, answers, maxRetry))
  }

  /** Width-exact assembly is in particular an in-order assembly. */
  lemma {:induction false} AssembledIsInOrder(content: string, plan: seq<Chunk>, k: nat, answers: Answers, maxRetry: nat)
    requires AssembledFrom(content, plan, k, answers, maxRetry)
    ensures ServedInOrder(content, plan, k, answers, maxRetry)
    decreases |plan| - k
  {
    if k < |plan| {
      var w := Width(plan[k]);
      AssembledIsInOrder(content[w..], plan, k + 1, answers, maxRetry);
    }
  }

  /** How a download attempt ends. */
  datatype Outcome =
    | Aborted            // returned early; nothing (more) is written
    | Crashed            // an exception escaped `download_post`
    | Removed            // the merged file had the wrong size and was deleted
    | Saved(content: string)

  // ----------------------------------------------------------- gelbooru --

  /** The decision after a Gelbooru part's retry loop: `Err` ends the post,
      `Ok(Some(body))` keeps the part file, `Ok(None)` writes it but removes
      it again because its size is wrong. */
  function GelbooruPart(c: Chunk, fr: Option<Response>): (r: Result<Option<string>, Outcome>)
    ensures r.Ok? <==> fr.Some? && fr.value.status == 200 && fr.value.contentLength == Some(Width(c))
    ensures r == Err(Crashed) <==> fr.Some? && fr.value.status == 200 && fr.value.contentLength.None?
    ensures r.Err? ==> r.error in {Aborted, Crashed}
    ensures r.Ok? ==> (r.value.Some? <==> |fr.value.body| == Width(c))
    ensures r.Ok? && r.value.Some? ==> r.value.value == fr.value.body
  {
    if fr.None? || fr.value.status != 200 then Err(Aborted)
    else match fr.value.contentLength
      case None => Err(Crashed)
      case Some(cl) =>
        if cl != Width(c) then Err(Aborted)
        else if |fr.value.body| == Width(c) then Ok(Some(fr.value.body))
        else Ok(None)
  }

  /** The Gelbooru part loop from chunk `k` on, over the part files on disk. */
  function GelbooruParts(plan: seq<Chunk>, current: int, parts: map<nat, string>, answers: Answers, maxRetry: nat, k: nat)
    : (r: Result<map<nat, string>, Outcome>)
    requires k <= |plan|
    ensures r.Err? ==> r.error in {Aborted, Crashed}
    ensures r.Ok? ==> forall j :: j in r.value && !(j in parts) ==> k <= j < |plan| && |r.value[j]| == Width(plan[j])
    ensures r.Ok? ==> forall j :: j < k ==> (j in r.value <==> j in parts) && (j in parts ==> r.value[j] == parts[j])
    decreases |plan| - k
  {
    if k == |plan| then Ok(parts)
    else
      var c := plan[k];
      if c.start < current || (k in parts && |parts[k]| == Width(c)) then
        GelbooruParts(plan, current, parts, answers, maxRetry, k + 1)
      else
        var fr := Retry(answers, k, 0, maxRetry, {200}, Bound(None));
        match GelbooruPart(c, fr.value)
        case Err(o) => Err(o)
        case Ok(kept) =>
          var parts' := if kept.Some? then parts[k := kept.value] else parts - {k};
          GelbooruParts(plan, current, parts', answers, maxRetry, k + 1)
  }

  /** Concatenating part files `k..n-1`; `None` when one is missing, where
      opening it raises `FileNotFoundError`. */
  function MergeParts(parts: map<nat, string>, k: nat, n: nat): Option<string>
    decreases n - k
  {
    if k >= n then Some([])
    else if k !in parts then None
    else match MergeParts(parts, k + 1, n)
      case None => None
      case Some(rest) => Some(parts[k] + rest)
  }

  /** The Gelbooru chunked download: part loop, merge, final size check. */
  function GelbooruChunked(plan: seq<Chunk>, current: int, parts: map<nat, string>, answers: Answers, maxRetry: nat, filesize: int)
    : (r: Outcome)
    ensures r.Saved? ==> |r.content| == filesize
  {
    match GelbooruParts(plan, current, parts, answers, maxRetry, 0)
    case Err(o) => o
    case Ok(ps) =>
      match MergeParts(ps, 0, |plan|)
      case None => Crashed
      case Some(content) => if |content| == filesize then Saved(content) else Removed
  }

  /** When every part file already on disk was served by its own chunk's
      attempts and has the chunk width, so does every part the loop leaves. */
  lemma {:induction false} GelbooruPartsServed(plan: seq<Chunk>, current: int, parts: map<nat, string>, answers: Answers, maxRetry: nat, k: nat)
    requires k <= |plan|
    requires forall j :: j in parts ==> j < |plan| && |parts[j]| == Width(plan[j]) && Served(answers, j, maxRetry, parts[j])
    ensures var r := GelbooruParts(plan, current, parts, answers, maxRetry, k);
      r.Ok? ==> forall j :: j in r.value ==> j < |plan| && |r.value[j]| == Width(plan[j]) && Served(answers, j, maxRetry, r.value[j])
    decreases |plan| - k
  {
    if k < |plan| {
      var c := plan[k];
      if c.start < current || (k in parts && |parts[k]| == Width(c)) {
        GelbooruPartsServed(plan, current, parts, answers, maxRetry, k + 1);
      } else {
        var fr := Retry(answers, k, 0, maxRetry, {200}, Bound(None));
        var d := GelbooruPart(c, fr.value);
        if d.Ok? {
          var parts' := if d.value.Some? then parts[k := d.value.value] else parts - {k};
          if d.value.Some? {
            assert Breaks(Returned(fr.value), {200});
            var j :| 0 <= j < maxRetry && answers(k, j) == Returned(fr.value);
            assert Delivers(answers(k, j), d.value.value);
          }
          GelbooruPartsServed(plan, current, parts', answers, maxRetry, k + 1);
        }
      }
    }
  }

  lemma {:induction false} MergeAssembles(plan: seq<Chunk>, parts: map<nat, string>, answers: Answers, maxRetry: nat, k: nat, content: string)
    requires k <= |plan|
    requires forall j :: j in parts ==> j < |plan| && |parts[j]| == Width(plan[j]) && Served(answers, j, maxRetry, parts[j])
    requires MergeParts(parts, k, |plan|) == Some(content)
    ensures AssembledFrom(content, plan, k, answers, maxRetry)
    decreases |plan| - k
  {
    if k < |plan| {
      var rest := MergeParts(parts, k + 1, |plan|).value;
      assert content == parts[k] + rest;
      assert content[..Width(plan[k])] == parts[k];
      assert content[Width(plan[k])..] == rest;
      MergeAssembles(plan, parts, answers, maxRetry, k + 1, rest);
    }
  }

  /** A fresh Gelbooru download that is kept holds exactly the chunks in
      order, each from its own chunk's attempts, and has the probed size. */
  lemma GelbooruSavedIsAssembled(plan: seq<Chunk>, current: int, answers: Answers, maxRetry: nat, filesize: int)
    ensures var r := GelbooruChunked(plan, current, map[], answers, maxRetry, filesize);
      r.Saved? ==> |r.content| == filesize && AssembledFrom(r.content, plan, 0, answers, maxRetry)
  {
    var r := GelbooruChunked(plan, current, map[], answers, maxRetry, filesize);
    if r.Saved? {
      GelbooruPartsServed(plan, current, map[], answers, maxRetry, 0);
      var ps := GelbooruParts(plan, current, map[], answers, maxRetry, 0).value;
      MergeAssembles(plan, ps, answers, maxRetry, 0, r.content);
    }
  }

  /** A chunk the loop must fetch, whose answer its checks reject, ends the
      loop from any earlier chunk on: earlier chunks either end it first or
      leave chunk `k` still to fetch. */
  lemma {:induction false} GelbooruPartsStopAt(plan: seq<Chunk>, current: int, parts: map<nat, string>, answers: Answers,
                                               maxRetry: nat, j: nat, k: nat)
    requires j <= k < |plan| && plan[k].start >= current && k !in parts
    requires GelbooruPart(plan[k], Retry(answers, k, 0, maxRetry, {200}, Bound(None)).value).Err?
    ensures GelbooruParts(plan, current, parts, answers, maxRetry, j).Err?
    decreases k - j
  {
    if j < k {
      var c := plan[j];
      if !(c.start < current || (j in parts && |parts[j]| == Width(c))) {
        var fr := Retry(answers, j, 0, maxRetry, {200}, Bound(None));
        var d := GelbooruPart(c, fr.value);
        if d.Ok? {
          var parts' := if d.value.Some? then parts[j := d.value.value] else parts - {j};
          GelbooruPartsStopAt(plan, current, parts', answers, maxRetry, j + 1, k);
        }
      } else {
        GelbooruPartsStopAt(plan, current, parts, answers, maxRetry, j + 1, k);
      }
    }
  }

  /** A part answered with a wrong Content-Length, at any chunk of a fresh
      download, means the post is not saved: it aborts there, or an
      earlier chunk ended it already. For the first chunk it aborts. */
  lemma GelbooruWrongLengthAborts(plan: seq<Chunk>, answers: Answers, maxRetry: nat, filesize: int, k: nat, cl: int)
    requires k < |plan| && plan[k].start >= 0
    requires var fr := Retry(answers, k, 0, maxRetry, {200}, Bound(None)).value;
      fr.Some? && fr.value.status == 200 && fr.value.contentLength == Some(cl) && cl != Width(plan[k])
    ensures GelbooruChunked(plan, 0, map[], answers, maxRetry, filesize) in {Aborted, Crashed}
    ensures k == 0 ==> GelbooruChunked(plan, 0, map[], answers, maxRetry, filesize) == Aborted
  {
    GelbooruPartsStopAt(plan, 0, map[], answers, maxRetry, 0, k);
  }

  /** The response a chunk's retry loop ends with, the loop breaking on
      the statuses in `accept` and `file_response` starting as `None`. */
  function FinalAnswer(answers: Answers, maxRetry: nat, accept: set<int>, k: nat): Option<Response> {
    Retry(answers, k, 0, maxRetry, accept, Bound(None)).value
  }

  /** The bodies of the final responses of chunks `k..n-1`, in order; a
      chunk that ends with no response contributes nothing. */
  function FinalBodies(answers: Answers, maxRetry: nat, accept: set<int>, k: nat, n: nat): string
    decreases n - k
  {
    if k >= n then []
    else
      var fr := FinalAnswer(answers, maxRetry, accept, k);
      (if fr.Some? then fr.value.body else []) + FinalBodies(answers, maxRetry, accept, k + 1, n)
  }

  /** Chunk `k`'s retry loop ends with a 200 whose Content-Length and body
      both have the chunk's width. */
  predicate GelbooruGood(plan: seq<Chunk>, answers: Answers, maxRetry: nat, k: nat)
    requires k < |plan|
  {
    var fr := FinalAnswer(answers, maxRetry, {200}, k);
    fr.Some? && fr.value.status == 200 && fr.value.contentLength == Some(Width(plan[k])) && |fr.value.body| == Width(plan[k])
  }

  /** With every chunk from `k` on answered well, the part loop keeps the
      part files it had before `k` and writes each later chunk's body. */
  lemma {:induction false} GelbooruPartsGood(plan: seq<Chunk>, parts: map<nat, string>, answers: Answers, maxRetry: nat, k: nat)
    requires k <= |plan| && forall j :: j in parts ==> j < k
    requires forall j :: k <= j < |plan| ==> plan[j].start >= 0 && GelbooruGood(plan, answers, maxRetry, j)
    ensures var r := GelbooruParts(plan, 0, parts, answers, maxRetry, k);
      && r.Ok?
      && (forall j :: j in r.value <==> j in parts || k <= j < |plan|)
      && (forall j :: j in parts ==> r.value[j] == parts[j])
      && (forall j :: k <= j < |plan| ==>
            FinalAnswer(answers, maxRetry, {200}, j).Some? && r.value[j] == FinalAnswer(answers, maxRetry, {200}, j).value.body)
    decreases |plan| - k
  {
    if k < |plan| {
      var fr := FinalAnswer(answers, maxRetry, {200}, k);
      assert k !in parts;
      assert GelbooruPart(plan[k], fr) == Ok(Some(fr.value.body));
      GelbooruPartsGood(plan, parts[k := fr.value.body], answers, maxRetry, k + 1);
    }
  }

  /** Merging part files that hold the final bodies gives those bodies in
      chunk order. */
  lemma {:induction false} MergeFinalBodies(ps: map<nat, string>, answers: Answers, maxRetry: nat, accept: set<int>, k: nat, n: nat)
    requires forall j :: k <= j < n ==>
      (j in ps && FinalAnswer(answers, maxRetry, accept, j).Some? && ps[j] == FinalAnswer(answers, maxRetry, accept, j).value.body)
    ensures MergeParts(ps, k, n) == Some(FinalBodies(answers, maxRetry, accept, k, n))
    decreases n - k
  {
    if k < n {
      MergeFinalBodies(ps, answers, maxRetry, accept, k + 1, n);
    }
  }

  /** A fresh chunked download whose every chunk is answered with a 200 of
      the chunk's width is saved as those bodies in order when they add up
      to the probed size, and removed otherwise. */
  lemma GelbooruServedSaved(plan: seq<Chunk>, answers: Answers, maxRetry: nat, filesize: int)
    requires forall j :: 0 <= j < |plan| ==> plan[j].start >= 0 && GelbooruGood(plan, answers, maxRetry, j)
    ensures var content := FinalBodies(answers, maxRetry, {200}, 0, |plan|);
      GelbooruChunked(plan, 0, map[], answers, maxRetry, filesize) == if |content| == filesize then Saved(content) else Removed
  {
    GelbooruPartsGood(plan, map[], answers, maxRetry, 0);
    var ps := GelbooruParts(plan, 0, map[], answers, maxRetry, 0).value;
    MergeFinalBodies(ps, answers, maxRetry, {200}, 0, |plan|);
  }

  /** `no_split`: one whole-file request; kept only when its Content-Length
      equals the length of the body. `int()` of a missing header raises. */
  function GelbooruWhole(answers: Answers, maxRetry: nat): (r: Outcome)
    ensures r.Saved? ==> Served(answers, 0, maxRetry, r.content)
    ensures r.Saved? ==> var fr := Retry(answers, 0, 0, maxRetry, {200}, Bound(None)).value;
      fr.Some? && fr.value.contentLength == Some(|r.content|)
    ensures var fr := Retry(answers, 0, 0, maxRetry, {200}, Bound(None)).value;
      fr.Some? && fr.value.status == 200 && fr.value.contentLength == Some(|fr.value.body|) ==> r == Saved(fr.value.body)
    ensures var fr := Retry(answers, 0, 0, maxRetry, {200}, Bound(None)).value;
      r == Crashed <==> fr.Some? && fr.value.status == 200 && fr.value.contentLength.None?
    ensures !r.Removed?
  {
    var fr := Retry(answers, 0, 0, maxRetry, {200}, Bound(None)).value;
    if fr.None? || !Accepted(fr.value) || fr.value.status != 200 then Aborted
    else match fr.value.contentLength
      case None => Crashed
      case Some(cl) =>
        if cl != |fr.value.body| then Aborted
        else
          assert Breaks(Returned(fr), {200});
          var j :| 0 <= j < maxRetry && answers(0, j) == Returned(fr);
          assert Delivers(answers(0, j), fr.value.body);
          Saved(fr.value.body)
  }

  // ----------------------------------------------------------- danbooru --

  /** The decision after a Danbooru part's retry loop. Every exception is
      caught by the function-wide handler, so all failures abort. `accept`
      is the set of statuses let through after the loop. */
  function DanbooruPart(c: Chunk, slot: Slot, accept: set<int>): (r: Result<string, Outcome>)
    ensures r.Err? ==> r.error == Aborted
    ensures r.Ok? <==> (slot.Bound? && slot.value.Some? && slot.value.value.status in accept
      && slot.value.value.contentLength == Some(Width(c)))
    ensures r.Ok? ==> r.value == slot.value.value.body
  {
    match slot
    case Unbound => Err(Aborted)             // NameError: no attempt ever assigned
    case Bound(None) => Err(Aborted)
    case Bound(Some(resp)) =>
      if resp.status !in accept then Err(Aborted)
      else if resp.contentLength != Some(Width(c)) then Err(Aborted)
      else Ok(resp.body)
  }

  /** The Danbooru part loop AS WRITTEN: `file_response` is never reset, so
      a chunk whose attempts all raise sees the previous chunk's response;
      the loop breaks on 200 or 206 but only 200 passes the check after it. */
  function DanbooruPartsAsWritten(plan: seq<Chunk>, current: int, answers: Answers, maxRetry: nat, k: nat, slot: Slot, written: string)
    : (r: Result<string, Outcome>)
    requires k <= |plan|
    ensures r.Err? ==> r.error == Aborted
    decreases |plan| - k
  {
    if k == |plan| then Ok(written)
    else if plan[k].start < current then DanbooruPartsAsWritten(plan, current, answers, maxRetry, k + 1, slot, written)
    else
      var fr := Retry(answers, k, 0, maxRetry, {200, 206}, slot);
      match DanbooruPart(plan[k], fr, {200})
      case Err(o) => Err(o)
      case Ok(body) => DanbooruPartsAsWritten(plan, current, answers, maxRetry, k + 1, fr, written + body)
  }

  /** The Danbooru chunked download as written: the file is opened for
      writing up front, each accepted body appended, then the size compared. */
  function DanbooruChunkedAsWritten(plan: seq<Chunk>, current: int, answers: Answers, maxRetry: nat, filesize: int): (r: Outcome)
    ensures r.Saved? ==> |r.content| == filesize
    ensures r.Crashed? == false
  {
    match DanbooruPartsAsWritten(plan, current, answers, maxRetry, 0, Unbound, [])
    case Err(o) => o
    case Ok(content) => if |content| == filesize then Saved(content) else Removed
  }

  /** The Danbooru part loop as intended: `file_response` starts from `None`
      for every chunk and the statuses the loop breaks on are accepted. */
  function DanbooruParts(plan: seq<Chunk>, current: int, answers: Answers, maxRetry: nat, k: nat, written: string)
    : (r: Result<string, Outcome>)
    requires k <= |plan|
    ensures r.Err? ==> r.error == Aborted
    ensures r.Ok? && current <= 0 && (forall j :: k <= j < |plan| ==> plan[j].start >= 0) ==>
      |r.value| >= |written| && r.value[..|written|] == written
      && ServedInOrder(r.value[|written|..], plan, k, answers, maxRetry)
    decreases |plan| - k
  {
    if k == |plan| then Ok(written)
    else if plan[k].start < current then DanbooruParts(plan, current, answers, maxRetry, k + 1, written)
    else
      var fr := Retry(answers, k, 0, maxRetry, {200, 206}, Bound(None));
      match DanbooruPart(plan[k], fr, {200, 206})
      case Err(o) => Err(o)
      case Ok(body) =>
        var r := DanbooruParts(plan, current, answers, maxRetry, k + 1, written + body);
        DanbooruStep(plan, current, answers, maxRetry, k, written, fr, body, r);
        r
  }

  lemma DanbooruStep(plan: seq<Chunk>, current: int, answers: Answers, maxRetry: nat, k: nat, written: string, fr: Slot, body: string,
                     r: Result<string, Outcome>)
    requires k < |plan| && plan[k].start >= current
    requires fr == Retry(answers, k, 0, maxRetry, {200, 206}, Bound(None))
    requires DanbooruPart(plan[k], fr, {200, 206}) == Ok(body)
    requires r.Ok? && current <= 0 && (forall j :: k + 1 <= j < |plan| ==> plan[j].start >= 0) ==>
      |r.value| >= |written + body| && r.value[..|written + body|] == written + body
      && ServedInOrder(r.value[|written + body|..], plan, k + 1, answers, maxRetry)
    ensures r.Ok? && current <= 0 && (forall j :: k + 1 <= j < |plan| ==> plan[j].start >= 0) ==>
      |r.value| >= |written| && r.value[..|written|] == written
      && ServedInOrder(r.value[|written|..], plan, k, answers, maxRetry)
  {
    if r.Ok? && current <= 0 && (forall j :: k + 1 <= j < |plan| ==> plan[j].start >= 0) {
      var v := r.value;
      var tail := v[|written|..];
      assert v[..|written + body|][..|written|] == v[..|written|];
      assert (written + body)[..|written|] == written;
      assert tail[..|body|] == body by {
        assert tail[..|body|] == v[|written|..|written + body|];
        assert (written + body)[|written|..] == body;
      }
      assert tail[|body|..] == v[|written + body|..];
      assert Breaks(Returned(fr.value), {200, 206});
      var j :| 0 <= j < maxRetry && answers(k, j) == Returned(fr.value);
      assert Delivers(answers(k, j), body);
    }
  }

  /** The Danbooru chunked download as intended. */
  function DanbooruChunked(plan: seq<Chunk>, current: int, answers: Answers, maxRetry: nat, filesize: int): (r: Outcome)
    ensures r.Saved? ==> |r.content| == filesize
    ensures r.Saved? && current <= 0 && (forall j :: 0 <= j < |plan| ==> plan[j].start >= 0) ==>
      ServedInOrder(r.content, plan, 0, answers, maxRetry)
    ensures r.Crashed? == false
  {
    match DanbooruParts(plan, current, answers, maxRetry, 0, [])
    case Err(o) => o
    case Ok(content) =>
      assert content[0..] == content;
      if |content| == filesize then Saved(content) else Removed
  }

  /** Chunk `k`'s retry loop ends with a 200 or 206 whose Content-Length is
      the chunk's width. */
  predicate DanbooruGood(plan: seq<Chunk>, answers: Answers, maxRetry: nat, k: nat)
    requires k < |plan|
  {
    var fr := FinalAnswer(answers, maxRetry, {200, 206}, k);
    fr.Some? && fr.value.status in {200, 206} && fr.value.contentLength == Some(Width(plan[k]))
  }

  lemma {:induction false} DanbooruPartsGood(plan: seq<Chunk>, answers: Answers, maxRetry: nat, k: nat, written: string)
    requires k <= |plan|
    requires forall j :: k <= j < |plan| ==> plan[j].start >= 0 && DanbooruGood(plan, answers, maxRetry, j)
    ensures DanbooruParts(plan, 0, answers, maxRetry, k, written) == Ok(written + FinalBodies(answers, maxRetry, {200, 206}, k, |plan|))
    decreases |plan| - k
  {
    if k == |plan| {
      assert written + [] == written;
    } else {
      var body := DanbooruGoodStep(plan, answers, maxRetry, k, written);
      DanbooruPartsGood(plan, answers, maxRetry, k + 1, written + body);
      FinalBodiesCons(answers, maxRetry, {200, 206}, k, |plan|, written, body);
    }
  }

  lemma FinalBodiesCons(answers: Answers, maxRetry: nat, accept: set<int>, k: nat, n: nat, written: string, body: string)
    requires k < n && FinalAnswer(answers, maxRetry, accept, k).Some? && body == FinalAnswer(answers, maxRetry, accept, k).value.body
    ensures written + body + FinalBodies(answers, maxRetry, accept, k + 1, n) == written + FinalBodies(answers, maxRetry, accept, k, n)
  {
    var rest := FinalBodies(answers, maxRetry, accept, k + 1, n);
    assert FinalBodies(answers, maxRetry, accept, k, n) == body + rest;
    assert written + body + rest == written + (body + rest);
  }

  /** One well-answered chunk appends its final body and moves on. */
  lemma DanbooruGoodStep(plan: seq<Chunk>, answers: Answers, maxRetry: nat, k: nat, written: string) returns (body: string)
    requires k < |plan| && plan[k].start >= 0 && DanbooruGood(plan, answers, maxRetry, k)
    ensures FinalAnswer(answers, maxRetry, {200, 206}, k).Some? && body == FinalAnswer(answers, maxRetry, {200, 206}, k).value.body
    ensures DanbooruParts(plan, 0, answers, maxRetry, k, written) == DanbooruParts(plan, 0, answers, maxRetry, k + 1, written + body)
  {
    var fr := Retry(answers, k, 0, maxRetry, {200, 206}, Bound(None));
    body := fr.value.value.body;
    assert DanbooruPart(plan[k], fr, {200, 206}) == Ok(body);
  }

  /** A fresh chunked download whose every chunk is answered with a 200 or
      206 of the chunk's Content-Length is saved as those bodies in order
      when they add up to the probed size, and removed otherwise. */
  lemma DanbooruServedSaved(plan: seq<Chunk>, answers: Answers, maxRetry: nat, filesize: int)
    requires forall j :: 0 <= j < |plan| ==> plan[j].start >= 0 && DanbooruGood(plan, answers, maxRetry, j)
    ensures var content := FinalBodies(answers, maxRetry, {200, 206}, 0, |plan|);
      DanbooruChunked(plan, 0, answers, maxRetry, filesize) == if |content| == filesize then Saved(content) else Removed
  {
    DanbooruPartsGood(plan, answers, maxRetry, 0, []);
    assert [] + FinalBodies(answers, maxRetry, {200, 206}, 0, |plan|) == FinalBodies(answers, maxRetry, {200, 206}, 0, |plan|);
  }

  /** A fetched chunk whose part is rejected ends the corrected part loop
      from any earlier chunk on. */
  lemma {:induction false} DanbooruPartsStopAt(plan: seq<Chunk>, current: int, answers: Answers, maxRetry: nat,
                                               j: nat, k: nat, written: string)
    requires j <= k < |plan| && plan[k].start >= current
    requires DanbooruPart(plan[k], Retry(answers, k, 0, maxRetry, {200, 206}, Bound(None)), {200, 206}).Err?
    ensures DanbooruParts(plan, current, answers, maxRetry, j, written).Err?
    decreases k - j
  {
    if j < k {
      if plan[j].start < current {
        DanbooruPartsStopAt(plan, current, answers, maxRetry, j + 1, k, written);
      } else {
        var fr := Retry(answers, j, 0, maxRetry, {200, 206}, Bound(None));
        var d := DanbooruPart(plan[j], fr, {200, 206});
        if d.Ok? {
          DanbooruPartsStopAt(plan, current, answers, maxRetry, j + 1, k, written + d.value);
        }
      }
    }
  }

  /** A Content-Length that differs from the width of any fetched chunk
      aborts the post. */
  lemma DanbooruWrongLengthAborts(plan: seq<Chunk>, current: int, answers: Answers, maxRetry: nat, filesize: int, k: nat, cl: int)
    requires k < |plan| && plan[k].start >= current
    requires var fr := FinalAnswer(answers, maxRetry, {200, 206}, k);
      fr.Some? && fr.value.contentLength == Some(cl) && cl != Width(plan[k])
    ensures DanbooruChunked(plan, current, answers, maxRetry, filesize) == Aborted
  {
    DanbooruPartsStopAt(plan, current, answers, maxRetry, 0, k, []);
  }

  /** The stale-response scenario: a two-byte file in two one-byte chunks;
      chunk 0 is answered once with "A", every attempt for chunk 1 raises. */
  const StalePlan: seq<Chunk> := [Chunk(0, 1), Chunk(1, 2)]

  function StaleAnswers(k: nat, i: nat): Attempt {
    if k == 0 && i == 0 then Returned(Some(Response(200, "A", Some(1)))) else Raised
  }

  /** As written the download keeps "AA", whose second byte no attempt for
      chunk 1 delivered; as intended it stops at chunk 1. */
  lemma StaleResponseReused()
    ensures DanbooruChunkedAsWritten(StalePlan, 0, StaleAnswers, 3, 2) == Saved("AA")
    ensures !ServedInOrder("AA", StalePlan, 0, StaleAnswers, 3)
    ensures DanbooruChunked(StalePlan, 0, StaleAnswers, 3, 2) == Aborted
  {
    StaleKeptAsWritten();
    StaleNeverServed();
    StaleStopsAsIntended();
  }

  lemma StaleKeptAsWritten()
    ensures DanbooruChunkedAsWritten(StalePlan, 0, StaleAnswers, 3, 2) == Saved("AA")
  {
    var resp := Response(200, "A", Some(1));
    assert Retry(StaleAnswers, 0, 0, 3, {200, 206}, Unbound) == Bound(Some(resp));
    assert Retry(StaleAnswers, 1, 2, 3, {200, 206}, Bound(Some(resp))) == Bound(Some(resp));
    assert Retry(StaleAnswers, 1, 1, 3, {200, 206}, Bound(Some(resp))) == Bound(Some(resp));
    assert Retry(StaleAnswers, 1, 0, 3, {200, 206}, Bound(Some(resp))) == Bound(Some(resp));
    assert DanbooruPartsAsWritten(StalePlan, 0, StaleAnswers, 3, 2, Bound(Some(resp)), "AA") == Ok("AA");
    assert "A" + "A" == "AA";
    assert DanbooruPartsAsWritten(StalePlan, 0, StaleAnswers, 3, 1, Bound(Some(resp)), "A") == Ok("AA");
  }

  lemma StaleNeverServed()
    ensures !ServedInOrder("AA", StalePlan, 0, StaleAnswers, 3)
  {
    forall x: string ensures !ServedInOrder(x, StalePlan, 1, StaleAnswers, 3) {
      forall w | 0 <= w <= |x| ensures !Served(StaleAnswers, 1, 3, x[..w]) {
        assert forall j :: 0 <= j < 3 ==> StaleAnswers(1, j) == Raised;
      }
    }
  }

  lemma StaleStopsAsIntended()
    ensures DanbooruChunked(StalePlan, 0, StaleAnswers, 3, 2) == Aborted
  {
    var resp := Response(200, "A", Some(1));
    assert Retry(StaleAnswers, 0, 0, 3, {200, 206}, Bound(None)) == Bound(Some(resp));
    assert Retry(StaleAnswers, 1, 2, 3, {200, 206}, Bound(None)) == Bound(None);
    assert Retry(StaleAnswers, 1, 1, 3, {200, 206}, Bound(None)) == Bound(None);
    assert Retry(StaleAnswers, 1, 0, 3, {200, 206}, Bound(None)) == Bound(None);
  }

  /** A 206 answer ends the retry loop, then fails the `!= 200` check: as
      written a one-chunk file served with 206 is never saved. */
  lemma PartialContentRejected()
    ensures var plan := [Chunk(0, 1)];
      var answers: Answers := (k, i) => Returned(Some(Response(206, "A", Some(1))));
      && DanbooruChunkedAsWritten(plan, 0, answers, 3, 1) == Aborted
      && DanbooruChunked(plan, 0, answers, 3, 1) == Saved("A")
  {
    var answers: Answers := (k, i) => Returned(Some(Response(206, "A", Some(1))));
    assert Retry(answers, 0, 0, 3, {200, 206}, Unbound) == Bound(Some(Response(206, "A", Some(1))));
    assert Retry(answers, 0, 0, 3, {200, 206}, Bound(None)) == Bound(Some(Response(206, "A", Some(1))));
  }

  /** `no_split`: one whole-file request. A Content-Length that disagrees
      with the body is only reported, never acted on. */
  function DanbooruWhole(answers: Answers, maxRetry: nat): (r: Outcome)
    ensures r.Saved? <==> exists j :: 0 <= j < maxRetry && Breaks(answers(0, j), {200, 206})
    ensures r.Saved? ==> Served(answers, 0, maxRetry, r.content)
    ensures !r.Saved? ==> r == Aborted
  {
    var fr := Retry(answers, 0, 0, maxRetry, {200, 206}, Bound(None)).value;
    if fr.None? || fr.value.status !in {200, 206} then Aborted
    else
      assert Breaks(Returned(fr), {200, 206});
      var j :| 0 <= j < maxRetry && answers(0, j) == Returned(fr);
      assert Delivers(answers(0, j), fr.value.body);
      Saved(fr.value.body)
  }
}
