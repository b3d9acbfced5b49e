/** The decisions `download_post` makes before any byte is fetched, in
    `danbooru_post_download.py` and `gelbooru_post_download.py`: which URL to
    fetch (including the Danbooru original-variant switch), which extensions
    are skipped, which posts Gelbooru refuses, the file-size ceiling, and the
    checks against a file already on disk. Also the `yield_posts` file-name
    filters of both scripts. */
module PostDownload {
  import opened Base
  import opened PyText
  import opened Json
  import RangedDownload

  /** `post.get("large_file_url", post.get("file_url"))`: the default is only
      used when the key is missing, so a `null` large URL hides `file_url`. */
  function Target(large: Field, file: Field): (r: Option<string>)
    ensures large.Text? ==> r == Some(large.s)
    ensures large.Null? ==> r == None
    ensures large.Absent? ==> (r.Some? <==> file.Text?) && (file.Text? ==> r == Some(file.s))
  {
    match large
    case Text(s) => Some(s)
    case Null => None
    case Absent => if file.Text? then Some(file.s) else None
  }

  /** The extension after the URL override: the text after the URL's last
      `.` when the URL has one, otherwise the extension already known. */
  function EffectiveExt(target: Option<string>, ext: Option<string>): (r: Option<string>)
    ensures target.Some? && '.' in target.value ==>
      r == Some(LastPiece(target.value, '.')) && '.' !in r.value && EndsWith(target.value, r.value)
    ensures !(target.Some? && '.' in target.value) ==> r == ext
  {
    if target.Some? && |target.value| > 0 && '.' in target.value then Some(LastPiece(target.value, '.')) else ext
  }

  const DanbooruSkipped: seq<string> := ["webm", "mp4", "mov", "avi", "zip"]
  const GelbooruSkipped: seq<string> := ["webm", "mp4", "mov", "avi"]

  /** `ext in [...]`; `None` is in no list. */
  predicate Listed(ext: Option<string>, list: seq<string>) {
    ext.Some? && ext.value in list
  }

  /** Why a post is not fetched, or what is fetched. */
  datatype Decision =
    | Abort                  // returned (or raised and caught) before fetching
    | SkipBanned             // Gelbooru: a banned tag occurs in the tag string
    | SkipMirrored           // Gelbooru: an uncensored post that mirrors Danbooru
    | SkipVideo              // the extension is one of the skipped ones
    | NoTarget               // no (or an empty) download URL
    | Fetch(url: string, ext: Option<string>)

  /** The shared tail: extension override, extension skip, then the missing
      URL check, in that order. */
  function Finish(target: Option<string>, ext: Option<string>, skipped: seq<string>): (r: Decision)
    ensures r.SkipVideo? <==> Listed(EffectiveExt(target, ext), skipped)
    ensures r.NoTarget? <==> !Listed(EffectiveExt(target, ext), skipped) && (target.None? || target.value == [])
    ensures r.Fetch? ==> Some(r.url) == target && r.url != [] && r.ext == EffectiveExt(target, ext) && !Listed(r.ext, skipped)
    ensures r.Fetch? || r.SkipVideo? || r.NoTarget?
  {
    var e := EffectiveExt(target, ext);
    if Listed(e, skipped) then SkipVideo
    else if target.None? || target.value == [] then NoTarget
    else Fetch(target.value, e)
  }

  /** A URL ending in a skipped extension is never fetched, whatever the
      post's own `file_ext` says. */
  lemma SkippedUrlNeverFetched(stem: string, x: string, ext: Option<string>, skipped: seq<string>)
    requires x in skipped && '.' !in x
    ensures Finish(Some(stem + "." + x), ext, skipped) == SkipVideo
  {
    LastPieceAfterSep(stem, '.', x);
    assert (stem + "." + x)[|stem|] == '.';
  }

  // ----------------------------------------------------- danbooru variants --

  /** One entry of `media_asset.variants`, each key read with `.get`
      (`None` for a missing or `null` value). `otherKeys` records whether the
      dict holds any key besides the non-null ones read here: a `null` value
      or an unread key. */
  datatype Variant = Variant(kind: Option<string>, url: Option<string>, width: Option<int>, height: Option<int>,
                             fileExt: Option<string>, otherKeys: bool)

  /** Truthiness of the variant dict: it has at least one key at all. */
  predicate NonEmpty(v: Variant) {
    v.otherKeys || v.kind.Some? || v.url.Some? || v.width.Some? || v.height.Some? || v.fileExt.Some?
  }

  predicate IsOriginal(v: Variant) { v.kind == Some("original") }

  /** The first index at or after `i` whose variant satisfies `p`: a `for`
      loop with `break`. */
  function FirstWhere(vs: seq<Variant>, p: Variant -> bool, i: nat): (r: Option<nat>)
    requires i <= |vs|
    ensures r.Some? ==> i <= r.value < |vs| && p(vs[r.value]) && forall j :: i <= j < r.value ==> !p(vs[j])
    ensures r.None? ==> forall j :: i <= j < |vs| ==> !p(vs[j])
    decreases |vs| - i
  {
    if i == |vs| then None else if p(vs[i]) then Some(i) else FirstWhere(vs, p, i + 1)
  }

  /** `orig.width < t.width or orig.height < t.height`, left to right:
      `None` where a comparison with a missing value raises `TypeError`. */
  function Smaller(orig: Variant, t: Variant): (r: Option<bool>)
    ensures r == Some(false) <==> (orig.width.Some? && t.width.Some? && orig.height.Some? && t.height.Some?
      && orig.width.value >= t.width.value && orig.height.value >= t.height.value)
    ensures r == Some(true) <==> (orig.width.Some? && t.width.Some? && (orig.width.value < t.width.value
      || (orig.height.Some? && t.height.Some? && orig.height.value < t.height.value)))
  {
    if orig.width.None? || t.width.None? then None
    else if orig.width.value < t.width.value then Some(true)
    else if orig.height.None? || t.height.None? then None
    else Some(orig.height.value < t.height.value)
  }

  /** The outcome of the `only_if_original` block. */
  datatype Selection = Keep | Switch(url: Option<string>, ext: Option<string>) | Refuse

  /** With variants present: take the first `original` variant's URL and
      extension, unless the first variant whose URL equals the current target
      is larger in either dimension; no `original` at all stops the post. */
  function SelectOriginal(vs: seq<Variant>, target: Option<string>): (r: Selection)
    ensures r.Keep? <==> vs == []
    ensures vs != [] && (forall j :: 0 <= j < |vs| ==> !IsOriginal(vs[j])) ==> r.Refuse?
    ensures r.Switch? ==> exists o :: (0 <= o < |vs| && IsOriginal(vs[o]) && (forall j :: 0 <= j < o ==> !IsOriginal(vs[j]))
      && r.url == vs[o].url && r.ext == vs[o].fileExt)
  {
    if vs == [] then Keep
    else match FirstWhere(vs, IsOriginal, 0)
      case None => Refuse
      case Some(o) =>
        match FirstWhere(vs, (v: Variant) => v.url == target, 0)
        case Some(m) =>
          if NonEmpty(vs[m]) && Smaller(vs[o], vs[m]) != Some(false) then Refuse
          else Switch(vs[o].url, vs[o].fileExt)
        case None => Switch(vs[o].url, vs[o].fileExt)
  }

  /** An original is only switched to when it is at least as large in both
      dimensions as the variant the target URL already pointed at. */
  lemma SwitchNeverShrinks(vs: seq<Variant>, target: Option<string>, m: nat)
    requires m < |vs| && vs[m].url == target && NonEmpty(vs[m])
    requires forall j :: 0 <= j < m ==> vs[j].url != target
    ensures SelectOriginal(vs, target).Switch? ==> exists o :: (0 <= o < |vs| && IsOriginal(vs[o])
      && SelectOriginal(vs, target).url == vs[o].url
      && vs[o].width.Some? && vs[m].width.Some? && vs[o].width.value >= vs[m].width.value
      && vs[o].height.Some? && vs[m].height.Some? && vs[o].height.value >= vs[m].height.value)
  {
    var p := (v: Variant) => v.url == target;
    assert forall j :: 0 <= j < |vs| ==> (p(vs[j]) <==> vs[j].url == target);
    var f := FirstWhere(vs, p, 0);
    assert f == Some(m);
  }

  /** A Danbooru post as `download_post` reads it; `media` is `None` when the
      `media_asset` key is missing, and holds `[]` for absent or empty variants. */
  datatype DanbooruPost = DanbooruPost(fileExt: string, large: Field, file: Field, media: Option<seq<Variant>>)

  function DanbooruDecision(post: DanbooruPost, onlyIfOriginal: bool): (r: Decision)
    ensures !onlyIfOriginal ==> r == Finish(Target(post.large, post.file), Some(post.fileExt), DanbooruSkipped)
    ensures onlyIfOriginal && post.media.None? ==> r == Abort
    ensures r.Fetch? ==> !Listed(r.ext, DanbooruSkipped) && r.url != []
    ensures onlyIfOriginal && post.media.Some? && post.media.value != [] && r.Fetch? ==>
      exists o :: 0 <= o < |post.media.value| && IsOriginal(post.media.value[o]) && post.media.value[o].url == Some(r.url)
  {
    var target := Target(post.large, post.file);
    var sel := if !onlyIfOriginal then Keep else if post.media.None? then Refuse else SelectOriginal(post.media.value, target);
    match sel
    case Refuse => Abort
    case Keep => Finish(target, Some(post.fileExt), DanbooruSkipped)
    case Switch(url, ext) => Finish(url, ext, DanbooruSkipped)
  }

  /** With `only_if_original`, variants without an `original` entry stop the
      post even when a download URL is known. */
  lemma NoOriginalAborts(post: DanbooruPost)
    requires post.media.Some? && post.media.value != []
    requires forall j :: 0 <= j < |post.media.value| ==> !IsOriginal(post.media.value[j])
    ensures DanbooruDecision(post, true) == Abort
  {
  }

  // ------------------------------------------------------- gelbooru skips --

  const BannedTags: seq<string> := ["animated", "video", "3d", "photo_(medium)", "real_life"]
  const DanbooruUploaderId: int := 6498
  /** `MAX_FILE_SIZE` as the module defines it. Run as a script, the module
      rebinds it to the `--split_size` argument before any download, so the
      ceiling is a parameter of `GelbooruGate`. */
  const MaxFileSize: int := 30000000

  /** A Gelbooru post as `download_post` reads it; `creatorId` is the value
      of `.get("creator_id", 0)`, and `fileExt` tells a missing `file_ext`
      key from a `null` one. */
  datatype GelbooruPost = GelbooruPost(tags: string, owner: string, creatorId: int, fileExt: Field, image: string,
                                       large: Field, file: Field)

  /** `post['file_ext'] if 'file_ext' in post else post['image'].split('.')[-1]`:
      a present key is used even when it holds `null`. */
  function GelbooruExt(post: GelbooruPost): (r: Option<string>)
    ensures post.fileExt.Text? ==> r == Some(post.fileExt.s)
    ensures post.fileExt.Null? ==> r == None
    ensures post.fileExt.Absent? ==> r == Some(LastPiece(post.image, '.'))
  {
    match post.fileExt
    case Text(e) => Some(e)
    case Null => None
    case Absent => Some(LastPiece(post.image, '.'))
  }

  /** A banned tag is looked for as a SUBSTRING of the tag string. */
  predicate HasBannedTag(tags: string) {
    exists k :: 0 <= k < |BannedTags| && ContainsStr(tags, BannedTags[k])
  }

  /** A censored tag must be one of the space-separated tokens. */
  predicate HasCensoredTag(tags: string, censored: seq<string>) {
    exists k :: 0 <= k < |censored| && censored[k] in SplitOn(tags, ' ')
  }

  /** The Gelbooru decision and whether the post is "special" (censored),
      which later lifts the size ceiling. */
  function GelbooruDecision(post: GelbooruPost, censored: seq<string>): (r: (Decision, bool))
    ensures r.1 == HasCensoredTag(post.tags, censored)
    ensures r.0 == SkipBanned <==> HasBannedTag(post.tags)
    ensures r.0 == SkipMirrored <==> !HasBannedTag(post.tags) && !r.1 && (post.owner == "danbooru" || post.creatorId == DanbooruUploaderId)
    ensures r.0.Fetch? ==> !Listed(r.0.ext, GelbooruSkipped) && Some(r.0.url) == Target(post.large, post.file)
    ensures r.0 != Abort
  {
    var special := HasCensoredTag(post.tags, censored);
    if HasBannedTag(post.tags) then (SkipBanned, special)
    else if !special && (post.owner == "danbooru" || post.creatorId == DanbooruUploaderId) then (SkipMirrored, special)
    else
      (Finish(Target(post.large, post.file), GelbooruExt(post), GelbooruSkipped), special)
  }

  /** Substring matching bans more than the listed tags: `video_game`
      contains `video`. */
  lemma BanIsSubstringMatch(post: GelbooruPost, censored: seq<string>)
    requires post.tags == "video_game"
    ensures GelbooruDecision(post, censored).0 == SkipBanned
  {
    assert ContainsStr(post.tags, BannedTags[1]) by {
      assert post.tags[..5] == "video";
    }
  }

  /** A `file_ext` that is present but `null` stays unknown: a post whose
      URL has no `.` is fetched with no extension, never read from `image`. */
  lemma GelbooruNullExtKept(post: GelbooruPost, censored: seq<string>, u: string)
    requires post.fileExt.Null? && !HasBannedTag(post.tags)
    requires post.owner != "danbooru" && post.creatorId != DanbooruUploaderId
    requires Target(post.large, post.file) == Some(u) && u != [] && '.' !in u
    ensures GelbooruDecision(post, censored).0 == Fetch(u, None)
  {
  }

  // ---------------------------------------------------------- disk gates --

  /** Before the transfer: stop, or go on with the probed size and the size
      of whatever is still at the save path (0 when nothing is). */
  datatype Gate = Halt | Proceed(filesize: int, current: int)

  /** `os.path.getsize(path) if os.path.exists(path) else 0`. */
  function SizeOnDisk(d: Option<int>): int {
    match d
    case Some(n) => n
    case None => 0
  }

  /** Danbooru: an existing file that the image library can open is kept;
      one it cannot open is removed. So no file is left for the size check
      after the probe, which never keeps or removes anything. */
  function DanbooruGate(existing: Option<int>, opens: bool, probed: Option<int>): (r: Gate)
    ensures r.Proceed? ==> probed == Some(r.filesize)
    ensures existing.Some? && opens ==> r == Halt
    ensures r.Proceed? ==> r.current == 0
    ensures existing.None? || !opens ==> (r.Proceed? <==> probed.Some?)
  {
    if existing.Some? && opens then Halt
    else
      match probed
      case None => Halt
      case Some(fs) => Proceed(fs, SizeOnDisk(None))
  }

  /** Gelbooru: a non-empty existing file is kept; the probe must succeed;
      files above `ceiling` (the current `MAX_FILE_SIZE`) are refused unless
      the post is special; an empty leftover file is removed unless the
      probe also says 0 bytes. */
  function GelbooruGate(existing: Option<int>, probed: Option<int>, special: bool, ceiling: int): (r: Gate)
    ensures r.Proceed? ==> probed == Some(r.filesize) && (r.filesize <= ceiling || special)
    ensures existing.Some? && existing.value != 0 ==> r == Halt
    ensures r.Proceed? ==> r.current == 0
    ensures probed.Some? && probed.value > ceiling && !special ==> r == Halt
    ensures existing.None? && probed.Some? && (probed.value <= ceiling || special) ==> r.Proceed?
    ensures existing == Some(0) && probed.Some? && (probed.value <= ceiling || special) ==> (r.Proceed? <==> probed.value != 0)
  {
    if existing.Some? && existing.value != 0 then Halt
    else match probed
      case None => Halt
      case Some(fs) =>
        if fs > ceiling && !special then Halt
        else match existing
          case Some(n) => if n == fs then Halt else Proceed(fs, SizeOnDisk(None))   // wrong size: removed
          case None => Proceed(fs, SizeOnDisk(existing))
  }

  /** Both gates only let a download through with nothing on disk, so the
      resume skip in the chunk loop never drops a chunk. */
  lemma ResumeNeverSkips(g: Gate, split: int)
    requires g.Proceed? && split > 0
    requires g.current == 0
    ensures var plan := RangedDownload.ChunkPlan(g.filesize, split).value;
      RangedDownload.ToFetch(plan, g.current) == plan
  {
    RangedDownload.FreshStartFetchesAll(g.filesize, split);
  }

  // ------------------------------------------------------ file-name filter --

  /** `int(x)` of both pieces. */
  function BothInts(a: string, b: string): Option<(int, int)> {
    match (ParseInt(a), ParseInt(b))
    case (Some(x), Some(y)) => Some((x, y))
    case _ => None
  }

  /** Gelbooru `yield_posts`: names without `_` are ignored; otherwise the
      part before the first `.` must split at `_` into exactly two integers
      (anything else raises `ValueError`, which nothing catches); the file is
      read when start <= end and end >= `from_id`. */
  function GelbooruListed(name: string, fromId: int): (r: Result<bool, string>)
    ensures '_' !in name ==> r == Ok(false)
    ensures r == Ok(true) ==> '_' in name
    ensures r.Err? ==> ('_' in name && (|SplitOn(FirstPiece(name, '.'), '_')| != 2
      || BothInts(SplitOn(FirstPiece(name, '.'), '_')[0], SplitOn(FirstPiece(name, '.'), '_')[1]).None?))
    ensures r.Ok? && '_' in name ==> (var parts := SplitOn(FirstPiece(name, '.'), '_');
      |parts| == 2 && BothInts(parts[0], parts[1]).Some?
      && (r.value <==> BothInts(parts[0], parts[1]).value.0 <= BothInts(parts[0], parts[1]).value.1
                       && BothInts(parts[0], parts[1]).value.1 >= fromId))
  {
    if '_' !in name then Ok(false)
    else
      var parts := SplitOn(FirstPiece(name, '.'), '_');
      if |parts| != 2 then Err("ValueError")
      else match BothInts(parts[0], parts[1])
        case None => Err("ValueError")
        case Some((a, b)) => Ok(a <= b && b >= fromId)
  }

  /** `str.isdigit()` on ASCII text: non-empty and all digits. */
  predicate Digits(s: string) {
    |s| > 0 && forall i :: 0 <= i < |s| ==> IsDigit(s[i])
  }

  /** The ids a Danbooru file name announces: `A_B` with a digit-only `A`, or
      `posts_A_B`; `None` for any other shape. */
  function NamedRange(name: string): (r: Option<(string, string)>)
  {
    var parts := SplitOn(FirstPiece(name, '.'), '_');
    if |parts| == 2 && Digits(parts[0]) then Some((parts[0], parts[1]))
    else if |parts| == 3 && parts[0] == "posts" then Some((parts[1], parts[2]))
    else None
  }

  /** The parsed ids of a recognised name: `None` for another shape,
      `Some(None)` when `int()` raises on one of them. */
  function NamedIds(name: string): Option<Option<(int, int)>> {
    match NamedRange(name)
    case None => None
    case Some((a, b)) => Some(BothInts(a, b))
  }

  /** Danbooru `yield_posts`: only `.jsonl` names; a recognised range that
      parses is read when start <= end and end >= `from_id`; any other name,
      or one whose ids fail to parse, is read anyway. */
  function DanbooruListed(name: string, fromId: int): (r: bool)
    ensures r ==> EndsWith(name, ".jsonl")
    ensures EndsWith(name, ".jsonl") && (NamedIds(name).None? || NamedIds(name) == Some(None)) ==> r
    ensures NamedIds(name).Some? && NamedIds(name).value.Some? ==>
      (r <==> EndsWith(name, ".jsonl") && NamedIds(name).value.value.0 <= NamedIds(name).value.value.1
                                       && NamedIds(name).value.value.1 >= fromId)
  {
    if !EndsWith(name, ".jsonl") then false
    else match NamedIds(name)
      case None => true
      case Some(None) => true
      case Some(Some((x, y))) => !(x > y) && !(y < fromId)
  }

  /** The name the crawler writes for ids `a..b`. */
  function ChunkFileName(a: nat, b: nat): string {
    IntToString(a) + "_" + IntToString(b) + ".jsonl"
  }

  /** Both filters read a crawler-written file exactly when its range is
      non-empty and reaches `from_id`. */
  lemma ChunkFileNameListed(a: nat, b: nat, fromId: int)
    ensures GelbooruListed(ChunkFileName(a, b), fromId) == Ok(a <= b && b >= fromId)
    ensures DanbooruListed(ChunkFileName(a, b), fromId) == (a <= b && b >= fromId)
  {
    ChunkFileIds(a, b);
    GelbooruReadsIds(ChunkFileName(a, b), fromId, a, b);
    DanbooruReadsIds(ChunkFileName(a, b), fromId, a, b);
  }

  lemma ChunkFileIds(a: nat, b: nat)
    ensures '_' in ChunkFileName(a, b) && EndsWith(ChunkFileName(a, b), ".jsonl")
    ensures var parts := SplitOn(FirstPiece(ChunkFileName(a, b), '.'), '_');
      |parts| == 2 && Digits(parts[0]) && BothInts(parts[0], parts[1]) == Some((a, b))
  {
    ChunkFileNameParts(a, b);
    var sa, sb := IntToString(a), IntToString(b);
    ParseIntToString(a);
    ParseIntToString(b);
    assert BothInts(sa, sb) == Some((a, b));
    assert Digits(sa) by { assert sa == NatToString(a); }
  }

  lemma GelbooruReadsIds(name: string, fromId: int, a: int, b: int)
    requires '_' in name
    requires var parts := SplitOn(FirstPiece(name, '.'), '_'); |parts| == 2 && BothInts(parts[0], parts[1]) == Some((a, b))
    ensures GelbooruListed(name, fromId) == Ok(a <= b && b >= fromId)
  {
  }

  lemma DanbooruReadsIds(name: string, fromId: int, a: int, b: int)
    requires EndsWith(name, ".jsonl")
    requires var parts := SplitOn(FirstPiece(name, '.'), '_');
      |parts| == 2 && Digits(parts[0]) && BothInts(parts[0], parts[1]) == Some((a, b))
    ensures DanbooruListed(name, fromId) == (a <= b && b >= fromId)
  {
    NamedIdsOf(name, a, b);
  }

  lemma NamedIdsOf(name: string, a: int, b: int)
    requires var parts := SplitOn(FirstPiece(name, '.'), '_');
      |parts| == 2 && Digits(parts[0]) && BothInts(parts[0], parts[1]) == Some((a, b))
    ensures NamedIds(name) == Some(Some((a, b)))
  {
    var parts := SplitOn(FirstPiece(name, '.'), '_');
    assert NamedRange(name) == Some((parts[0], parts[1]));
  }

  /** The stem of a crawler-written name splits into the two decimal ids. */
  lemma ChunkFileNameParts(a: nat, b: nat)
    ensures '_' in ChunkFileName(a, b) && EndsWith(ChunkFileName(a, b), ".jsonl")
    ensures SplitOn(FirstPiece(ChunkFileName(a, b), '.'), '_') == [IntToString(a), IntToString(b)]
  {
    var sa, sb := IntToString(a), IntToString(b);
    var name := ChunkFileName(a, b);
    var stem := sa + "_" + sb;
    assert name == stem + ".jsonl";
    StemBeforeDot(stem, ".jsonl");
    assert Join([sa, sb], "_") == stem;
    SplitJoin([sa, sb], '_');
    assert name[|sa|] == '_';
    assert name[|name| - 6..] == ".jsonl";
  }

  lemma StemBeforeDot(stem: string, rest: string)
    requires '.' !in stem && |rest| > 0 && rest[0] == '.'
    ensures FirstPiece(stem + rest, '.') == stem
  {
    var name := stem + rest;
    assert name[|stem|] == '.';
    assert name[..|stem|] == stem;
    FirstIndexAt(name, '.', |stem|);
  }
}
