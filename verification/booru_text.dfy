/** The string helpers of `booru_post_crawling.py`: bulk-window URLs, the
    saved file name, the score label, the caption text and the folder-safe
    tag. */
module BooruText {
  import opened Base
  import opened PyText
  import Json
  import Modular

  // --------------------------------------------------------- bulk windows --

  /** Posts per bulk request; windows are aligned to it. */
  const PerRequestPosts: int := 20

  /** The aligned block of `PerRequestPosts` ids that holds `index`, as
      `(start, end)` with both ends included. */
  function BulkWindow(index: int): (r: (int, int))
    ensures r.0 % PerRequestPosts == 0 && r.1 == r.0 + PerRequestPosts - 1
    ensures r.0 <= index <= r.1
  {
    Modular.RoundDown(index, PerRequestPosts);
    (index - index % PerRequestPosts, index - index % PerRequestPosts + PerRequestPosts - 1)
  }

  /** Two indices get the same window exactly when the second lies in the
      window of the first. */
  lemma SameWindow(i: int, j: int)
    ensures BulkWindow(i) == BulkWindow(j) <==> BulkWindow(i).0 <= j <= BulkWindow(i).1
  {
    var w := BulkWindow(i).0;
    if w <= j <= BulkWindow(i).1 {
      assert w == (w / PerRequestPosts) * PerRequestPosts + w % PerRequestPosts;
      Modular.ModUnique(j, PerRequestPosts, w / PerRequestPosts, j - w);
    }
  }

  /** `bool(s)` for an optional string. */
  predicate Given(s: Option<string>) { s.Some? && s.value != [] }

  function DanbooruQueryPrefix(apiRoot: string): string { apiRoot + "/posts.json?tags=id%3A" }

  /** `start..end` in decimal. */
  function WindowText(w: (int, int)): string {
    IntToString(w.0) + ".." + IntToString(w.1)
  }

  /** The credential query, present only when both login and key are given. */
  function Credentials(login: Option<string>, apiKey: Option<string>): (r: string)
    ensures r == [] || StartsWith(r, "&login=")
  {
    if Given(login) && Given(apiKey) then "&login=" + login.value + "&api_key=" + apiKey.value else ""
  }

  /** `build_danbooru_bulk_url`: an `id:start..end` tag query, with the
      credentials added only when both are given. */
  function DanbooruBulkUrl(index: int, apiRoot: string, login: Option<string>, apiKey: Option<string>): (r: string)
    ensures StartsWith(r, DanbooruQueryPrefix(apiRoot))
    ensures Given(login) && Given(apiKey) <==> ContainsStr(r[|DanbooruQueryPrefix(apiRoot)|..], "&login=")
  {
    var window := WindowText(BulkWindow(index));
    var creds := Credentials(login, apiKey);
    var r := DanbooruQueryPrefix(apiRoot) + (window + creds);
    AfterPrefix(DanbooruQueryPrefix(apiRoot), window + creds);
    NoAmpersand(window);
    CredentialsMarker(window, creds);
    r
  }

  lemma AfterPrefix(pre: string, rest: string)
    ensures StartsWith(pre + rest, pre) && (pre + rest)[|pre|..] == rest
  {
    assert (pre + rest)[..|pre|] == pre;
  }

  /** `&login=` occurs after a window exactly when credentials follow it. */
  lemma CredentialsMarker(window: string, creds: string)
    requires '&' !in window
    requires creds == [] || StartsWith(creds, "&login=")
    ensures ContainsStr(window + creds, "&login=") <==> creds != []
  {
    if creds != [] {
      assert (window + creds)[|window|..][..7] == "&login=";
      ContainsAt(window + creds, "&login=", |window|);
    } else {
      assert window + creds == window;
      FirstCharNeeded(window, "&login=");
    }
  }

  /** The window a Danbooru bulk URL asks for: the two numbers around `..`
      up to the first `&`. */
  function DanbooruWindowOf(url: string, apiRoot: string): Option<(int, int)> {
    var pre := DanbooruQueryPrefix(apiRoot);
    if !StartsWith(url, pre) then None
    else WindowOfText(FirstPiece(url[|pre|..], '&'))
  }

  /** The two numbers of a `start..end` text. */
  function WindowOfText(text: string): Option<(int, int)> {
    var parts := SplitOn(text, '.');
    if |parts| != 3 || parts[1] != [] then None
    else match (ParseInt(parts[0]), ParseInt(parts[2]))
      case (Some(a), Some(b)) => Some((a, b))
      case _ => None
  }

  /** A Danbooru bulk URL asks for exactly the window of its index. */
  lemma DanbooruUrlAsksForWindow(index: int, apiRoot: string, login: Option<string>, apiKey: Option<string>)
    ensures DanbooruWindowOf(DanbooruBulkUrl(index, apiRoot, login, apiKey), apiRoot) == Some(BulkWindow(index))
  {
    var w := BulkWindow(index);
    var window := WindowText(w);
    var creds := Credentials(login, apiKey);
    var pre := DanbooruQueryPrefix(apiRoot);
    var url := DanbooruBulkUrl(index, apiRoot, login, apiKey);
    assert url == pre + (window + creds);
    AfterPrefix(pre, window + creds);
    NoAmpersand(window);
    PieceBeforeCredentials(window, creds);
    WindowTextRoundTrip(w);
  }

  lemma PieceBeforeCredentials(window: string, creds: string)
    requires '&' !in window && (creds == [] || creds[0] == '&')
    ensures FirstPiece(window + creds, '&') == window
  {
    if creds != [] {
      var t := window + creds;
      assert t[|window|] == '&';
      assert t[..|window|] == window;
      FirstIndexAt(t, '&', |window|);
    } else {
      assert window + creds == window;
    }
  }

  lemma WindowTextRoundTrip(w: (int, int))
    ensures WindowOfText(WindowText(w)) == Some(w)
  {
    var sa, sb := IntToString(w.0), IntToString(w.1);
    assert WindowText(w) == sa + ['.'] + [] + ['.'] + sb;
    ThreeTerms(sa, [], sb, '.');
    WindowOfPieces(WindowText(w), w.0, w.1);
  }

  lemma WindowOfPieces(text: string, a: int, b: int)
    requires SplitOn(text, '.') == [IntToString(a), [], IntToString(b)]
    ensures WindowOfText(text) == Some((a, b))
  {
    ParseIntToString(a);
    ParseIntToString(b);
  }

  /** Three pieces joined by a separator none of them holds split back apart. */
  lemma ThreeTerms(a: string, b: string, c: string, sep: char)
    requires sep !in a && sep !in b && sep !in c
    ensures SplitOn(a + [sep] + b + [sep] + c, sep) == [a, b, c]
  {
    var xs := [a, b, c];
    assert xs[1..] == [b, c] && xs[1..][1..] == [c];
    assert Join(xs[1..], [sep]) == b + [sep] + c;
    assert a + [sep] + b + [sep] + c == Join(xs, [sep]);
    SplitJoin(xs, sep);
  }

  const GelbooruQueryPrefix: string := "https://gelbooru.com/index.php?page=dapi&s=post&q=index&tags=id:%3E="
  const GelbooruQueryMiddle: string := "id:%3C="
  const GelbooruQuerySuffix: string := "score:%3E3&json=1&limit=20"

  /** The `id:<=end` query term. */
  function UpperTerm(end: int): string { GelbooruQueryMiddle + IntToString(end) }

  /** `build_gelbooru_bulk_url`: `id:>=start id:<=end score:>3`, twenty per page. */
  function GelbooruBulkUrl(index: int): (r: string)
    ensures StartsWith(r, GelbooruQueryPrefix) && EndsWith(r, GelbooruQuerySuffix)
  {
    var w := BulkWindow(index);
    var rest := IntToString(w.0) + ['+'] + UpperTerm(w.1) + ['+'];
    Between(GelbooruQueryPrefix, rest, GelbooruQuerySuffix);
    GelbooruQueryPrefix + (rest + GelbooruQuerySuffix)
  }

  lemma Between(pre: string, mid: string, suf: string)
    ensures StartsWith(pre + (mid + suf), pre) && EndsWith(pre + (mid + suf), suf)
  {
    var t := pre + (mid + suf);
    assert t[..|pre|] == pre;
    assert t[|t| - |suf|..] == suf;
  }

  /** The window a Gelbooru bulk URL asks for: the `+`-separated query terms
      after the prefix. */
  function GelbooruWindowOf(url: string): Option<(int, int)> {
    if !StartsWith(url, GelbooruQueryPrefix) then None
    else
      var terms := SplitOn(url[|GelbooruQueryPrefix|..], '+');
      if |terms| != 3 || !StartsWith(terms[1], GelbooruQueryMiddle) then None
      else match (ParseInt(terms[0]), ParseInt(terms[1][|GelbooruQueryMiddle|..]))
        case (Some(a), Some(b)) => Some((a, b))
        case _ => None
  }

  /** A Gelbooru bulk URL asks for exactly the window of its index. */
  lemma GelbooruUrlAsksForWindow(index: int)
    ensures GelbooruWindowOf(GelbooruBulkUrl(index)) == Some(BulkWindow(index))
  {
    var w := BulkWindow(index);
    var sa, t1 := IntToString(w.0), UpperTerm(w.1);
    var query := sa + ['+'] + t1 + ['+'] + GelbooruQuerySuffix;
    var url := GelbooruBulkUrl(index);
    assert url == GelbooruQueryPrefix + query;
    AfterPrefix(GelbooruQueryPrefix, query);
    GelbooruTerms(w);
  }

  /** The query after the prefix splits into the two bounds and the suffix. */
  lemma GelbooruTerms(w: (int, int))
    ensures var sa, t1 := IntToString(w.0), UpperTerm(w.1);
      var terms := SplitOn(sa + ['+'] + t1 + ['+'] + GelbooruQuerySuffix, '+');
      && terms == [sa, t1, GelbooruQuerySuffix]
      && StartsWith(terms[1], GelbooruQueryMiddle)
      && ParseInt(terms[0]) == Some(w.0)
      && ParseInt(terms[1][|GelbooruQueryMiddle|..]) == Some(w.1)
  {
    var sa, t1 := IntToString(w.0), UpperTerm(w.1);
    UpperTermParts(w.1);
    NoPlus(sa);
    assert '+' !in GelbooruQuerySuffix;
    ThreeTerms(sa, t1, GelbooruQuerySuffix, '+');
    ParseIntToString(w.0);
    ParseIntToString(w.1);
  }

  lemma UpperTermParts(end: int)
    ensures '+' !in UpperTerm(end) && StartsWith(UpperTerm(end), GelbooruQueryMiddle)
    ensures UpperTerm(end)[|GelbooruQueryMiddle|..] == IntToString(end)
  {
    var sb := IntToString(end);
    var t := UpperTerm(end);
    NoPlus(sb);
    assert forall k :: 0 <= k < |t| ==> t[k] == (if k < |GelbooruQueryMiddle| then GelbooruQueryMiddle[k] else sb[k - |GelbooruQueryMiddle|]);
    assert t[..|GelbooruQueryMiddle|] == GelbooruQueryMiddle;
  }

  lemma NoAmpersand(s: string)
    requires forall k :: 0 <= k < |s| ==> s[k] == '-' || s[k] == '.' || IsDigit(s[k])
    ensures '&' !in s
  {
  }

  lemma NoPlus(s: string)
    requires forall k :: 0 <= k < |s| ==> s[k] == '-' || IsDigit(s[k])
    ensures '+' !in s
  {
  }

  /** An occurrence at a known position is found by `in`. */
  lemma {:induction false} ContainsAt(s: string, pat: string, k: nat)
    requires k + |pat| <= |s| && s[k..][..|pat|] == pat
    ensures ContainsStr(s, pat)
    decreases k
  {
    if k > 0 {
      assert s[1..][k - 1..] == s[k..];
      ContainsAt(s[1..], pat, k - 1);
    }
  }

  /** A pattern does not occur in text lacking its first character. */
  lemma {:induction false} FirstCharNeeded(s: string, pat: string)
    requires |pat| > 0 && pat[0] !in s
    ensures !ContainsStr(s, pat)
    decreases |s|
  {
    if |pat| <= |s| {
      assert s[..|pat|][0] == s[0];
      FirstCharNeeded(s[1..], pat);
    }
  }

  // ------------------------------------------------------------ file name --

  /** `s` with its trailing `/` characters removed. */
  function DropTrailingSlashes(s: string): (r: string)
    ensures StartsWith(s, r) && (r == [] || r[|r| - 1] != '/')
    ensures |s| > 0 && s[|s| - 1] != '/' ==> r == s
  {
    if |s| > 0 && s[|s| - 1] == '/' then DropTrailingSlashes(s[..|s| - 1]) else s
  }

  /** `Path(url).name`: the last component once trailing slashes are gone. */
  function PathName(url: string): (r: string)
    ensures '/' !in r
    ensures |url| > 0 && '/' !in url ==> r == url
  {
    LastPiece(DropTrailingSlashes(url), '/')
  }

  /** `PurePath.suffix` of a name: from its last `.`, provided that dot is
      neither the first nor the last character; otherwise empty. */
  function Suffix(name: string): (r: string)
    ensures r == [] || (|r| >= 2 && r[0] == '.' && '.' !in r[1..] && |r| < |name| && EndsWith(name, r))
    ensures '.' !in name ==> r == []
  {
    if '.' !in name then []
    else
      var i := LastIndex(name, '.');
      if 0 < i < |name| - 1 then
        assert name[i..][1..] == name[i + 1..];
        name[i..]
      else []
  }

  /** `_safe_filename`: `None` when the URL's suffix is listed, otherwise
      the decimal id followed by that suffix. */
  function SafeFilename(url: string, postId: int, extsToNone: seq<string>): (r: Option<string>)
    ensures r.None? <==> |extsToNone| > 0 && Suffix(PathName(url)) in extsToNone
    ensures r.Some? ==> StartsWith(r.value, IntToString(postId)) && EndsWith(r.value, Suffix(PathName(url)))
  {
    var ext := Suffix(PathName(url));
    if |extsToNone| > 0 && ext in extsToNone then None
    else
      var r := IntToString(postId) + ext;
      assert r[..|IntToString(postId)|] == IntToString(postId);
      assert r[|r| - |ext|..] == ext;
      Some(r)
  }

  /** The saved name has the URL's suffix, and what precedes it reads back
      as the post id. */
  lemma SafeFilenameRoundTrip(url: string, postId: int, extsToNone: seq<string>)
    requires SafeFilename(url, postId, extsToNone).Some?
    ensures var name := SafeFilename(url, postId, extsToNone).value;
      var ext := Suffix(PathName(url));
      Suffix(PathName(name)) == ext && ParseInt(name[..|name| - |ext|]) == Some(postId)
  {
    var ext := Suffix(PathName(url));
    assert SafeFilename(url, postId, extsToNone).value == IntToString(postId) + ext;
    TailChars(PathName(url), ext, '/');
    IdThenSuffix(postId, ext);
  }

  /** A decimal id followed by a suffix: the suffix reads back, and the
      rest is the id. */
  lemma IdThenSuffix(postId: int, ext: string)
    requires '/' !in ext && (ext == [] || (|ext| >= 2 && ext[0] == '.' && '.' !in ext[1..]))
    ensures var name := IntToString(postId) + ext;
      Suffix(PathName(name)) == ext && ParseInt(name[..|name| - |ext|]) == Some(postId)
  {
    var stem := IntToString(postId);
    var name := stem + ext;
    PlainName(stem, ext);
    SuffixAfterStem(stem, ext);
    assert name[..|name| - |ext|] == stem;
    ParseIntToString(postId);
  }

  /** A tail of a string holds none of the characters the string lacks. */
  lemma TailChars(s: string, t: string, c: char)
    requires EndsWith(s, t) && c !in s
    ensures c !in t
  {
    assert forall k :: 0 <= k < |t| ==> t[k] == s[|s| - |t| + k];
  }

  /** A decimal id followed by a suffix is its own path name. */
  lemma PlainName(stem: string, ext: string)
    requires |stem| > 0 && '/' !in stem && '/' !in ext
    ensures PathName(stem + ext) == stem + ext
  {
    var name := stem + ext;
    assert forall k :: 0 <= k < |name| ==> name[k] == (if k < |stem| then stem[k] else ext[k - |stem|]);
  }

  lemma SuffixAfterStem(stem: string, ext: string)
    requires |stem| > 0 && '.' !in stem
    requires ext == [] || (|ext| >= 2 && ext[0] == '.' && '.' !in ext[1..])
    ensures Suffix(stem + ext) == ext
  {
    var name := stem + ext;
    if ext != [] {
      assert name[|stem|] == '.';
      assert name[|stem| + 1..] == ext[1..];
      LastIndexAt(name, '.', |stem|);
      assert name[|stem|..] == ext;
    } else {
      assert name == stem;
    }
  }

  // ---------------------------------------------------------------- score --

  /** `get_score_value`. */
  function ScoreValue(score: int): (r: string)
    ensures r == "masterpiece" <==> score > 100
    ensures r == "best quality" <==> 50 < score <= 100
    ensures r == "worst quality" <==> score < 0
    ensures r == "" <==> 0 <= score <= 50
  {
    if score > 100 then "masterpiece"
    else if score > 50 then "best quality"
    else if score < 0 then "worst quality"
    else ""
  }

  /** The labels in quality order. */
  function QualityRank(lbl: string): int {
    if lbl == "worst quality" then 0
    else if lbl == "" then 1
    else if lbl == "best quality" then 2
    else 3
  }

  /** A higher score never gets a lower label. */
  lemma ScoreValueMonotone(a: int, b: int)
    requires a <= b
    ensures QualityRank(ScoreValue(a)) <= QualityRank(ScoreValue(b))
  {
  }

  // -------------------------------------------------------------- caption --

  /** The row fields `format_caption` reads. `hasCharacterKey` records
      whether the `tag_string_character` key exists at all; `tags` tells a
      missing key from a `null` one, and for the other fields a missing or
      `null` value is `None`. */
  datatype Row = Row(
    tags: Json.Field,
    hasCharacterKey: bool,
    artist: Option<string>,
    character: Option<string>,
    copyright: Option<string>,
    meta: Option<string>,
    general: Option<string>,
    rating: Option<string>,
    score: Option<int>,
    year: Option<string>)

  /** `_` read as a space. */
  function Spaced(tag: string): (r: string)
    ensures |r| == |tag|
    ensures r == Replace(tag, "_", " ")
  {
    ReplaceChar(tag, '_', ' ')
  }

  /** Tags split from a blob hold no space, so a tag is recovered from its
      caption text by turning spaces back into underscores. */
  lemma SpacedRoundTrip(tag: string)
    requires ' ' !in tag
    ensures ReplaceChar(Spaced(tag), ' ', '_') == tag
  {
    var r := ReplaceChar(Spaced(tag), ' ', '_');
    assert forall i :: 0 <= i < |tag| ==> tag[i] != ' ';
    assert forall i :: 0 <= i < |tag| ==> r[i] == tag[i];
  }

  /** Each tag behind its label. */
  function Labelled(tags: seq<string>, lbl: string): (r: seq<string>)
    ensures |r| == |tags|
    ensures forall k :: 0 <= k < |r| ==> r[k] == lbl + Spaced(tags[k])
  {
    if tags == [] then [] else [lbl + Spaced(tags[0])] + Labelled(tags[1..], lbl)
  }

  /** `add_tags`: nothing for a missing or empty blob, otherwise every
      whitespace-separated tag behind the label. */
  function TagPieces(blob: Option<string>, lbl: string): (r: seq<string>)
    ensures !Given(blob) ==> r == []
    ensures Given(blob) ==> |r| == |SplitWs(blob.value)|
    ensures Given(blob) ==> forall k :: 0 <= k < |r| ==> r[k] == lbl + Spaced(SplitWs(blob.value)[k])
  {
    if Given(blob) then Labelled(SplitWs(blob.value), lbl) else []
  }

  /** The tags of a blob can be read back from its caption pieces. */
  lemma TagPiecesRoundTrip(blob: string, lbl: string, k: nat)
    requires |blob| > 0 && k < |SplitWs(blob)|
    ensures var piece := TagPieces(Some(blob), lbl)[k];
      StartsWith(piece, lbl) && ReplaceChar(piece[|lbl|..], ' ', '_') == SplitWs(blob)[k]
  {
    var tag := SplitWs(blob)[k];
    var piece := TagPieces(Some(blob), lbl)[k];
    assert piece == lbl + Spaced(tag);
    assert piece[..|lbl|] == lbl;
    assert piece[|lbl|..] == Spaced(tag);
    assert ' ' !in tag by { assert NoSpace(tag); assert forall i :: 0 <= i < |tag| ==> tag[i] != ' '; }
    SpacedRoundTrip(tag);
  }

  /** The rating piece: the lower-cased code expanded when it is one of
      g/s/q/e, passed through when it is anything else non-empty. */
  function RatingPiece(rating: Option<string>): (r: Option<string>)
    ensures var code := Lower(if rating.Some? then rating.value else "");
      && (r.None? <==> code == [])
      && (code == "g" ==> r == Some("rating:general"))
      && (code == "s" ==> r == Some("rating:sensitive"))
      && (code == "q" ==> r == Some("rating:questionable"))
      && (code == "e" ==> r == Some("rating:explicit"))
      && (code != [] && code !in ["g", "s", "q", "e"] ==> r == Some("rating:" + code))
  {
    var code := Lower(if rating.Some? then rating.value else "");
    if code == "g" then Some("rating:general")
    else if code == "s" then Some("rating:sensitive")
    else if code == "q" then Some("rating:questionable")
    else if code == "e" then Some("rating:explicit")
    else if code != [] then Some("rating:" + code)
    else None
  }

  /** Lower-casing is idempotent. */
  lemma LowerIdempotent(s: string)
    ensures Lower(Lower(s)) == Lower(s)
  {
    var l := Lower(s);
    assert forall i :: 0 <= i < |s| ==> Lower(l)[i] == l[i];
  }

  /** The rating code is read case-insensitively. */
  lemma RatingIgnoresCase(code: string)
    ensures RatingPiece(Some(code)) == RatingPiece(Some(Lower(code)))
  {
    LowerIdempotent(code);
  }

  /** `score:<label>` when the score has a non-empty label. */
  function ScorePiece(score: Option<int>): (r: Option<string>)
    ensures r.Some? <==> score.Some? && (score.value > 50 || score.value < 0)
    ensures r.Some? ==> r.value == "score:" + ScoreValue(score.value)
  {
    if score.Some? && ScoreValue(score.value) != "" then Some("score:" + ScoreValue(score.value)) else None
  }

  function YearPiece(year: Option<string>): Option<string> {
    if Given(year) then Some("year:" + year.value) else None
  }

  function OptPiece(p: Option<string>): seq<string> {
    if p.Some? then [p.value] else []
  }

  /** The pieces before the blank filter, in the order the code appends them:
      the raw Gelbooru tag string (only for rows without a character field),
      artist, character, copyright, meta, general, rating, score, year. */
  function CaptionPieces(row: Row): seq<string> {
    (if !row.hasCharacterKey && row.tags.Text? then [Spaced(Replace(row.tags.s, " ", ", "))] else [])
    + TagPieces(row.artist, "artist: ")
    + TagPieces(row.character, "character: ")
    + TagPieces(row.copyright, "copyright: ")
    + TagPieces(row.meta, "meta: ")
    + TagPieces(row.general, "")
    + OptPiece(RatingPiece(row.rating))
    + OptPiece(ScorePiece(row.score))
    + OptPiece(YearPiece(row.year))
  }

  /** The pieces whose `strip()` is non-empty, in order. */
  function NonBlank(ps: seq<string>): (r: seq<string>)
    ensures |r| <= |ps|
    ensures forall p :: p in r ==> p in ps && !AllSpace(p)
    ensures forall p :: p in ps && !AllSpace(p) ==> p in r
  {
    Where(ps, (p: string) => Strip(p) != [])
  }

  /** The filter works piece by piece: the kept pieces of two runs are the
      kept pieces of each, in order and with repeats. */
  lemma NonBlankAppend(a: seq<string>, b: seq<string>)
    ensures NonBlank(a + b) == NonBlank(a) + NonBlank(b)
  {
    WhereAppend(a, b, (p: string) => Strip(p) != []);
  }

  /** One piece is kept exactly when it is not all whitespace. */
  lemma NonBlankOne(p: string)
    ensures NonBlank([p]) == (if AllSpace(p) then [] else [p])
  {
    WhereOne(p, (q: string) => Strip(q) != []);
    if AllSpace(p) {
      StripOfBlank(p);
    }
  }

  /** The text `format_caption` joins and cleans. */
  function CaptionText(row: Row): string {
    Replace(Join(NonBlank(CaptionPieces(row)), ", "), ", ,", ", ")
  }

  /** `format_caption`: `Err` is the `AttributeError` of calling `replace`
      on a `null` "tags" value, reached only without the character key. */
  function Caption(row: Row): (r: Result<string, string>)
    ensures r.Err? <==> !row.hasCharacterKey && row.tags.Null?
    ensures r.Ok? ==> r.value == CaptionText(row)
  {
    if !row.hasCharacterKey && row.tags.Null? then Err("AttributeError") else Ok(CaptionText(row))
  }

  /** A row carrying one general tag is captioned as that tag with its
      underscores read as spaces. */
  lemma SingleTagCaption(row: Row, w: string)
    requires row.hasCharacterKey && row.general == Some(w)
    requires row.artist.None? && row.character.None? && row.copyright.None? && row.meta.None?
    requires row.rating.None? && row.score.None? && row.year.None?
    requires |w| > 0 && NoSpace(w) && ',' !in w && !AllSpace(Spaced(w))
    ensures Caption(row) == Ok(Spaced(w))
  {
    SingleTagPieces(row, w);
    SpacedKeepsCommas(w);
    LonePiece(Spaced(w));
  }

  lemma SpacedKeepsCommas(w: string)
    requires ',' !in w
    ensures ',' !in Spaced(w)
  {
    var s := Spaced(w);
    assert forall i :: 0 <= i < |w| ==> s[i] != ',';
  }

  /** One non-blank piece without commas is its own caption text. */
  lemma LonePiece(s: string)
    requires Strip(s) != [] && ',' !in s
    ensures Replace(Join(NonBlank([s]), ", "), ", ,", ", ") == s
  {
    assert NonBlank([s]) == [s];
    assert Join([s], ", ") == s;
    FirstCharNeeded(s, ", ,");
    ReplaceAbsent(s, ", ,", ", ");
  }

  lemma SingleTagPieces(row: Row, w: string)
    requires row.hasCharacterKey && row.general == Some(w)
    requires row.artist.None? && row.character.None? && row.copyright.None? && row.meta.None?
    requires row.rating.None? && row.score.None? && row.year.None?
    requires |w| > 0 && NoSpace(w)
    ensures CaptionPieces(row) == [Spaced(w)]
  {
    SingleWord(w);
    assert "" + Spaced(w) == Spaced(w);
    assert Labelled([w], "") == [Spaced(w)];
    assert TagPieces(row.general, "") == [Spaced(w)];
    assert Lower("") == [];
    assert RatingPiece(row.rating) == None;
  }

  lemma SingleWord(w: string)
    requires |w| > 0 && NoSpace(w)
    ensures SplitWs(w) == [w]
  {
    assert WordLength(w) == |w|;
    assert w[..|w|] == w;
  }

  // ------------------------------------------------------- folder names --

  /** Characters a folder name may not contain. */
  const Forbidden: string := "<>:\"/|?*"

  /** Replacing each listed character in turn by `d`. */
  function ReplaceEach(s: string, chars: string, d: char): (r: string)
    ensures |r| == |s|
    ensures forall i :: 0 <= i < |s| ==> r[i] == (if s[i] in chars then d else s[i])
    decreases |chars|
  {
    if chars == [] then s
    else
      var t := ReplaceChar(s, chars[0], d);
      var r := ReplaceEach(t, chars[1..], d);
      assert forall i :: 0 <= i < |s| ==> (s[i] in chars <==> s[i] == chars[0] || s[i] in chars[1..]);
      r
  }

  /** The characters `_sanitize_tag_for_folder` turns into `_`. */
  predicate Unsafe(c: char) { c in Forbidden || c == ' ' || c == ',' }

  /** `_sanitize_tag_for_folder`: every unsafe character becomes `_`. */
  function Sanitize(tag: string): (r: string)
    ensures |r| == |tag|
    ensures forall i :: 0 <= i < |tag| ==> r[i] == (if Unsafe(tag[i]) then '_' else tag[i])
  {
    var a := ReplaceEach(tag, Forbidden, '_');
    var r := ReplaceChar(ReplaceChar(a, ' ', '_'), ',', '_');
    SanitizeSteps(tag, a, r);
    r
  }

  lemma SanitizeSteps(tag: string, a: string, r: string)
    requires |a| == |tag| && forall i :: 0 <= i < |tag| ==> a[i] == (if tag[i] in Forbidden then '_' else tag[i])
    requires r == ReplaceChar(ReplaceChar(a, ' ', '_'), ',', '_')
    ensures |r| == |tag|
    ensures forall i :: 0 <= i < |tag| ==> r[i] == (if Unsafe(tag[i]) then '_' else tag[i])
  {
    var b := ReplaceChar(a, ' ', '_');
    forall i | 0 <= i < |tag|
      ensures r[i] == (if Unsafe(tag[i]) then '_' else tag[i])
    {
      var c := tag[i];
      assert r[i] == (if b[i] == ',' then '_' else b[i]);
      assert b[i] == (if a[i] == ' ' then '_' else a[i]);
      if c in Forbidden {
        assert a[i] == '_';
      } else {
        assert a[i] == c;
      }
    }
  }

  /** A tag is left alone exactly when it has no unsafe character. */
  lemma SanitizeFixedPoints(tag: string)
    ensures Sanitize(tag) == tag <==> forall i :: 0 <= i < |tag| ==> !Unsafe(tag[i])
  {
    FixedPointsOf(tag, Sanitize(tag));
  }

  lemma FixedPointsOf(tag: string, r: string)
    requires |r| == |tag| && forall i :: 0 <= i < |tag| ==> r[i] == (if Unsafe(tag[i]) then '_' else tag[i])
    ensures r == tag <==> forall i :: 0 <= i < |tag| ==> !Unsafe(tag[i])
  {
    if forall i :: 0 <= i < |tag| ==> !Unsafe(tag[i]) {
      assert forall i :: 0 <= i < |tag| ==> r[i] == tag[i];
    } else {
      var i :| 0 <= i < |tag| && Unsafe(tag[i]);
      assert r[i] == '_' && !Unsafe('_');
    }
  }

  /** A sanitised tag holds no unsafe character. */
  lemma SanitizedIsSafe(tag: string)
    ensures forall i :: 0 <= i < |Sanitize(tag)| ==> !Unsafe(Sanitize(tag)[i])
  {
    assert !Unsafe('_');
  }

  /** Sanitising twice is sanitising once. */
  lemma SanitizeIdempotent(tag: string)
    ensures Sanitize(Sanitize(tag)) == Sanitize(tag)
  {
    SanitizedIsSafe(tag);
    SanitizeFixedPoints(Sanitize(tag));
  }
}
