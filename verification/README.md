# Booru-Crawling, modelled in Dafny

Booru-Crawling collects post metadata and images from the Danbooru and
Gelbooru image boards through a pool of HTTP gateway proxies, and converts
the collected JSONL dumps into Parquet/DuckDB tables. This project models
the deterministic core of that system and proves what it promises:

- `proxy_handler.dfy` (module `ProxyHandler`): the proxy pool. It covers
  loading and normalising the proxy list, the `user:password` split, the
  round-robin cursor and the per-proxy commit ledger used for pacing and
  punishment. It also covers the classification of a gateway answer, the
  `file_size` body parse, the `get_response` payload handling and the
  removal of failed proxies after a health check.
- `ranged_download.dfy` (module `RangedDownload`): the chunk plan of a
  ranged download, the resume skip, the inclusive part range and the
  per-part retry loops. It also covers the Content-Length and final-size
  checks, for both the Gelbooru and the Danbooru `download_post`.
- `postdownload.dfy` (module `PostDownload`): everything `download_post`
  decides before fetching a byte: banned tags, mirrored posts, the
  original-variant switch, extension overrides and skips, the size gates,
  and the JSONL file-name filters of both `yield_posts` functions.
- `booru_text.dfy` (module `BooruText`): the string helpers of the crawler.
  These are the bulk-window URLs, `_safe_filename`, `get_score_value`,
  `format_caption` and `_sanitize_tag_for_folder`.
- `booru_merge.dfy` (module `BooruMerge`): `_trim`, the id-deduplicating
  merges of the `--bulk` and range modes, the range-mode window indices and
  the skips of `download_post_handler`.
- `tagdictionary.dfy` (module `TagDictionary`): the `GelbooruTag` dictionary
  lookup with its five spellings, the missing-tag query, batching by 100 and
  `structured_tags` grouping.
- `jsonrecords.dfy` (module `JsonRecords`): `_flatten`, the per-record
  pipeline of `_read_file` (post unwrap, whitelist, null-fill, id dedup), the
  file-name prefix skip and the schema choice of both converters.
- Shared modules: `base.dfy` (`Option`, `Result`), `json.dfy` (decoded JSON
  with Python dict semantics: the last member of a key wins) and `pytext.dfy`
  (Python `str` behaviour: `strip`, `split(sep)`, `split()`, `join`,
  `replace`, `int()`, `str()`). `modular.dfy` holds facts about `%`.

Everything the code reaches outside itself is a parameter. The gateway is a
function from (base URL, request) to an answer, and the clock is two integer
ticks. `json.loads` and `html.escape`/`unescape` are functions passed in, and
the file system appears as the sizes and answers it would report.

## Model

| member | source | states |
|---|---|---|
| ProxyHandler.NormaliseProxy | utils/proxyhandler.py:241-247 | a loaded entry starts with "http", ends with "/", names a port after "//" and extends the scheme-prefixed line; the line is kept as it was (up to a final "/") exactly when it already named a port, and a line naming no port gets ":" followed by the decimal default port and "/" appended to its scheme-prefixed form |
| ProxyHandler.NormaliseIdempotent | utils/proxyhandler.py:241-247 | normalising an already normalised entry changes nothing |
| ProxyHandler.NormaliseIsEntry | utils/proxyhandler.py:238-247 | a normalised entry has no surrounding whitespace as well as the proxy form |
| ProxyHandler.LoadLines | utils/proxyhandler.py:237-249 | at most one entry per input line, and every entry has the proxy form |
| ProxyHandler.LoadLinesAppend | utils/proxyhandler.py:237-248 | loading two blocks of lines one after the other gives the entries of the first block followed by those of the second |
| ProxyHandler.LoadLinesOne | utils/proxyhandler.py:238-248 | a single all-whitespace line gives no entry, and any other line gives exactly the normalised form of its stripped text |
| ProxyHandler.LoadProxyList | utils/proxyhandler.py:231-249 | every loaded entry has the proxy form; a blank file loads no entry |
| ProxyHandler.AllBlankLoadsNothing | utils/proxyhandler.py:238-240 | lines that are all whitespace produce no entry |
| ProxyHandler.LoadRoundTrip | utils/proxyhandler.py:231-249 | writing a loaded list back one entry per line and loading it again gives the same list |
| ProxyHandler.ReloadEntries | utils/proxyhandler.py:237-248 | lines that are already entries load to themselves, in order |
| ProxyHandler.LoadSingleProxy | utils/proxyhandler.py:346-356 | the single-proxy loader fails with the empty-URL error exactly when the text is blank, and otherwise yields exactly one entry, the normalised form of the stripped text, which has the proxy form |
| ProxyHandler.SingleAgreesWithList | utils/proxyhandler.py:346-356 | for a one-line non-blank text the single-proxy loader gives exactly the list the file loader gives |
| ProxyHandler.ParseAuth | utils/proxyhandler.py:99-102 | the auth string is accepted exactly when it contains ':'; the user part has no ':' and user + ":" + password gives back the whole string, so the password may contain ':' |
| ProxyHandler.Create | utils/proxyhandler.py:99-113 | construction fails with the auth error exactly when there is no ':', and with the empty-list error exactly when the auth is well formed but the list loads nothing; otherwise the pool holds the loaded list, the cursor is -1 and the ledger is empty |
| ProxyHandler.CreateSingle | utils/proxyhandler.py:325-356 | the single-proxy handler fails on a bad auth string or a blank URL; otherwise its user and password split the auth string at the first ":", its wait time and timeout are the ones given, its pool is exactly the normalised URL, its cursor is -1 and its ledger is empty |
| ProxyHandler.NextIndex | utils/proxyhandler.py:251-255 | the chosen index is inside the pool and becomes the cursor; the list and the ledger are untouched |
| ProxyHandler.PicksFormula | utils/proxyhandler.py:251-255 | the j-th of k successive picks is (cursor + 1 + j) mod n |
| ProxyHandler.FreshPoolCycle | utils/proxyhandler.py:251-255 | on a new pool (cursor -1) the first n picks are 0, 1, ..., n-1 |
| ProxyHandler.CycleVisitsEachOnce | utils/proxyhandler.py:251-255 | n successive picks on an unchanged pool of n proxies are pairwise distinct and visit every index |
| ProxyHandler.WaitUntilAllowed | utils/proxyhandler.py:257-267 | the caller resumes at the later of now and last commit + wait time (an absent entry counting as 0); that tick is committed for the proxy and no other entry changes |
| ProxyHandler.Punish | utils/proxyhandler.py:298-302 | the proxy's entry becomes now + timeout whatever it was, and no other entry, the list or the cursor changes |
| ProxyHandler.PacingGap | utils/proxyhandler.py:257-267 | two successive paced uses of the same proxy resume at least the wait time apart |
| ProxyHandler.PunishThenWait | utils/proxyhandler.py:298-302 | after a punishment the next use of that proxy resumes no earlier than punishment tick + timeout + wait time |
| ProxyHandler.RequestThroughProxy | utils/proxyhandler.py:277-296 | an empty pool gives nothing and changes nothing; otherwise the next round-robin proxy is asked, and a transport error or HTTP 429 yields nothing and punishes that proxy at the return tick, while any other answer is handed back with its index after pacing |
| ProxyHandler.FileSize | utils/proxyhandler.py:172-188 | a size is returned exactly when the answer has status 200 or 206 and its stripped body parses as an integer, and it is that integer |
| ProxyHandler.FileSizeReadsBody | utils/proxyhandler.py:185-188 | a body of a number padded with whitespace gives that number under 200/206 and nothing under any other status |
| ProxyHandler.GetRaw | utils/proxyhandler.py:161-170 | an empty pool returns nothing and is unchanged; otherwise the next round-robin proxy is asked for the raw URL, a response is returned exactly when that proxy answers with a status other than 429, it is that answer, and the pool is left as the pool call leaves it |
| ProxyHandler.GetFilePart | utils/proxyhandler.py:190-199 | an empty pool returns nothing and is unchanged; otherwise the next round-robin proxy is asked for the byte range start..end of the URL, a response is returned exactly when that proxy answers with a status other than 429, it is that answer, and the pool is left as the pool call leaves it |
| ProxyHandler.GetResponse | utils/proxyhandler.py:141-159 | a failed pool call or an undecodable body gives nothing; a non-object payload is the attribute error; a payload status of 429 punishes the proxy and any other leaves the pool alone; a value is returned exactly when the status reads as an integer, success is truthy and response is not null, and it is the payload value of the response |
| ProxyHandler.GetResponseText | utils/proxyhandler.py:149-157 | a successful payload whose response is a text gives that text decoded; a text that decodes to null gives None, and one that does not decode is returned as the text itself |
| ProxyHandler.GetResponseStub | utils/proxyhandler.py:149-157 | a successful payload whose response text decodes to a value other than null is returned decoded |
| ProxyHandler.KeptIndices | utils/proxyhandler.py:219-221 | the surviving indices are exactly the non-failed ones, strictly increasing |
| ProxyHandler.SurvivorsInOrder | utils/proxyhandler.py:219-221 | the surviving proxies are the list's entries at the surviving indices, in their original order |
| ProxyHandler.RemoveDescending | utils/proxyhandler.py:219-221 | deleting the failed indices from the highest down leaves exactly the survivors in their original order |
| ProxyHandler.Check | utils/proxyhandler.py:201-227 | the failed set is the proxies whose health answer is not 200/206; they are removed and the cursor and ledger are kept; the result is the "not working" error exactly when raise_exception is set and something failed, the "none left" error exactly when otherwise nothing survives, and the failed set (with a non-empty pool) otherwise |
| ProxyHandler.CheckScenario | utils/proxyhandler.py:219-227 | with the middle one of three proxies unhealthy, exactly it is reported and removed |
| RangedDownload.PyRange | gelbooru_post_download.py:492 | Python's range: starts at start, steps by step, stays before stop, and is empty exactly when start is already at or past stop |
| RangedDownload.ChunkPlan | gelbooru_post_download.py:492-493 | a split size of 0 is the ValueError of range; otherwise chunk k runs from the k-th range start to min(filesize, start + split) |
| RangedDownload.PlanTiles | gelbooru_post_download.py:492-493 | the plan starts at 0, ends at the file size, each chunk begins where the previous ended, every width is between 1 and the split size, and a non-positive size gives no chunk; the same code is at danbooru_post_download.py:195-196 |
| RangedDownload.TilesPartition | gelbooru_post_download.py:492-493 | chunks never overlap and every byte of [0, filesize) lies in one of them |
| RangedDownload.ToFetch | gelbooru_post_download.py:499-501 | the chunks fetched are exactly the planned chunks whose start is not below the bytes already on disk |
| RangedDownload.ResumeDropsPrefix | gelbooru_post_download.py:499-501 | what resume skips is a prefix of the plan, so the fetched chunks are a contiguous tail; the same code is at danbooru_post_download.py:202-204 |
| RangedDownload.FreshStartFetchesAll | gelbooru_post_download.py:495-501 | with nothing on disk every planned chunk is fetched |
| RangedDownload.PartRange | gelbooru_post_download.py:511 | the part request names an inclusive end, so its width is the chunk's width |
| RangedDownload.Retry | gelbooru_post_download.py:508-525 | when some attempt gets an accepted truthy response the loop ends holding one; any response held that was not there before was returned by one of this chunk's attempts |
| RangedDownload.GelbooruPart | gelbooru_post_download.py:526-542 | a part is accepted exactly when the final response is a 200 whose Content-Length equals the chunk width; a 200 with no Content-Length crashes the download; the part file is kept exactly when the body has that width |
| RangedDownload.GelbooruParts | gelbooru_post_download.py:499-542 | every part file written has its chunk's width, and part files of earlier chunks are left as they were |
| RangedDownload.GelbooruPartsStopAt | gelbooru_post_download.py:499-542 | a fetched chunk whose part fails makes the whole part loop fail, whichever chunk it is |
| RangedDownload.GelbooruPartsServed | gelbooru_post_download.py:502-542 | every part file kept has its chunk's width and holds a body one of that chunk's attempts delivered |
| RangedDownload.MergeAssembles | gelbooru_post_download.py:544-547 | the merged file is the part files in chunk order, each one's width and each delivered for its own chunk |
| RangedDownload.GelbooruChunked | gelbooru_post_download.py:543-558 | a chunked download is kept only when it has exactly the probed size |
| RangedDownload.GelbooruSavedIsAssembled | gelbooru_post_download.py:543-558 | a kept chunked download has the probed size and is the chunks in order, each delivered for its own chunk |
| RangedDownload.GelbooruServedSaved | gelbooru_post_download.py:492-558 | a fresh chunked download whose every chunk ends with a 200 of the chunk's width (header and body) is saved as those bodies in chunk order when they add up to the probed size, and removed otherwise |
| RangedDownload.GelbooruWrongLengthAborts | gelbooru_post_download.py:533-537 | a 200 whose Content-Length differs from the width of any fetched chunk means the post is never saved: it is aborted (or crashed by an earlier chunk), and on the first chunk it is aborted |
| RangedDownload.GelbooruWhole | gelbooru_post_download.py:454-484 | an unsplit download is saved only when some attempt delivered it and its Content-Length equals its length; when the retry loop ends on a 200 whose Content-Length equals the body's length that body is saved; it crashes exactly when that 200 has no Content-Length; it is never removed |
| RangedDownload.DanbooruPart | danbooru_post_download.py:216-222 | a part is accepted exactly when the last response has an accepted status and a Content-Length equal to the chunk width, and the part is that response's body |
| RangedDownload.DanbooruPartsAsWritten | danbooru_post_download.py:201-223 | the part loop as written only ever stops by aborting |
| RangedDownload.DanbooruChunkedAsWritten | danbooru_post_download.py:191-228 | as written a kept file has the probed size, and the chunked path never crashes |
| RangedDownload.DanbooruParts | danbooru_post_download.py:201-223 | with the stale-response and 206 faults corrected, the written bytes extend the earlier ones by the chunks in order, each delivered for its own chunk |
| RangedDownload.DanbooruChunked | danbooru_post_download.py:191-228 | with the faults corrected, a kept file has the probed size and is the chunks in order, each delivered by its own chunk's attempts |
| RangedDownload.DanbooruServedSaved | danbooru_post_download.py:191-228 | with the faults corrected, a fresh chunked download whose every chunk ends with a 200 or 206 whose Content-Length is the chunk's width is saved as those bodies in chunk order when they add up to the probed size, and removed otherwise |
| RangedDownload.DanbooruWrongLengthAborts | danbooru_post_download.py:220-222 | a Content-Length that differs from the width of any fetched chunk aborts the post |
| RangedDownload.StaleResponseReused | danbooru_post_download.py:205-223 | when every attempt for the second chunk raises, the code as written saves the first chunk's body twice, bytes no attempt of chunk 1 delivered, while the corrected loop aborts |
| RangedDownload.PartialContentRejected | danbooru_post_download.py:208-218 | a 206 ends the retry loop but is then rejected, so as written a download served only with 206 is aborted, while the corrected check saves it |
| RangedDownload.DanbooruWhole | danbooru_post_download.py:158-189 | an unsplit download is saved exactly when some attempt gets a truthy 200/206 answer, and what is saved was delivered; otherwise the post is aborted |
| PostDownload.Target | danbooru_post_download.py:80 | the download URL is large_file_url when that key is present (a null giving none), and file_url only when large_file_url is absent |
| PostDownload.EffectiveExt | danbooru_post_download.py:113-114 | a URL with a '.' overrides the extension with its text after the last '.', which the URL ends with; otherwise the extension is kept |
| PostDownload.Finish | danbooru_post_download.py:113-122 | a listed extension is skipped, a missing or empty URL is refused, and otherwise that URL is fetched with the effective extension |
| PostDownload.SkippedUrlNeverFetched | danbooru_post_download.py:116-118 | a URL ending in a skipped extension is never fetched, whatever the post's own extension |
| PostDownload.FirstWhere | danbooru_post_download.py:90-96 | the loop with break finds the first variant satisfying the test, or reports that none does |
| PostDownload.Smaller | danbooru_post_download.py:100 | the size comparison is false exactly when both dimensions are known and the original is at least as large, true exactly when a known dimension is smaller (width first), and a TypeError otherwise |
| PostDownload.SelectOriginal | danbooru_post_download.py:85-108 | without variants the target is kept; with variants but no original the post stops; a switch takes the URL and extension of the first original variant |
| PostDownload.SwitchNeverShrinks | danbooru_post_download.py:97-105 | when a variant matches the current target, a switch only goes to an original at least as wide and as tall as it |
| PostDownload.DanbooruDecision | danbooru_post_download.py:76-122 | without only_if_original the post goes straight to the extension and URL checks; with it a missing media asset aborts and a fetch targets an original variant's URL; a fetch never has a skipped extension or an empty URL |
| PostDownload.NoOriginalAborts | danbooru_post_download.py:106-108 | variants without any original abort the post |
| PostDownload.GelbooruDecision | gelbooru_post_download.py:384-412 | a banned tag skips the post; otherwise an uncensored post owned by danbooru or uploaded by creator 6498 is skipped as a mirror; a fetch never has a skipped extension and uses the large_file_url/file_url target; the censored flag is returned |
| PostDownload.BanIsSubstringMatch | gelbooru_post_download.py:385-386 | banned tags are matched as substrings, so a post tagged only "video_game" is skipped |
| PostDownload.GelbooruNullExtKept | gelbooru_post_download.py:397 | a file_ext key holding null is used as it is: a post whose URL has no "." is fetched with no extension, not the one of its image name |
| PostDownload.DanbooruGate | danbooru_post_download.py:123-157 | an existing file that opens is kept; otherwise the download proceeds exactly when the size probe succeeds, at that size, from byte 0 |
| PostDownload.GelbooruGate | gelbooru_post_download.py:423-453 | a non-empty existing file is kept; a probed size above the ceiling (MAX_FILE_SIZE: 30000000 on import, rebound to --split_size at gelbooru_post_download.py:588 when run as a script) stops an uncensored post; with nothing on disk an admissible size proceeds, and an empty leftover file proceeds exactly when the probe is not 0; a download always starts from byte 0 |
| PostDownload.ResumeNeverSkips | gelbooru_post_download.py:495-501 | since both gates start from byte 0, the resume skip never drops a chunk |
| PostDownload.GelbooruListed | gelbooru_post_download.py:27-37 | names without '_' are ignored; a name whose stem is not two integers joined by '_' raises; otherwise the file is read exactly when start <= end and end >= from_id |
| PostDownload.DanbooruListed | danbooru_post_download.py:39-65 | only .jsonl names are read; a recognised A_B or posts_A_B name with parseable ids is read exactly when start <= end and end >= from_id; any other name, or unparseable ids, is read anyway |
| PostDownload.ChunkFileNameListed | gelbooru_post_download.py:27-37 | both filters read a crawler-written "A_B.jsonl" file exactly when A <= B and B >= from_id |
| PostDownload.GelbooruReadsIds | gelbooru_post_download.py:30-36 | whenever the stem splits into two integers, the Gelbooru filter compares exactly those |
| PostDownload.DanbooruReadsIds | danbooru_post_download.py:47-62 | whenever the stem is a digit-only id, '_', and an id, the Danbooru filter compares exactly those |
| BooruText.BulkWindow | booru_post_crawling.py:57-58 | the window start is a multiple of 20, the end is start + 19, and the index lies between them |
| BooruText.SameWindow | booru_post_crawling.py:57-58 | two indices share a window exactly when the second lies inside the first's window |
| BooruText.Credentials | booru_post_crawling.py:60-61 | the credential part is empty or starts with "&login=" |
| BooruText.DanbooruBulkUrl | booru_post_crawling.py:50-62 | the URL starts with the posts query, and the login part appears in it exactly when both login and key are non-empty |
| BooruText.DanbooruUrlAsksForWindow | booru_post_crawling.py:57-59 | reading the id range back from a Danbooru bulk URL gives exactly the index's window |
| BooruText.WindowTextRoundTrip | booru_post_crawling.py:59 | the "start..end" text reads back as the same pair |
| BooruText.GelbooruBulkUrl | booru_post_crawling.py:65-71 | the URL starts with the post query and ends with the score filter and the limit of 20 |
| BooruText.GelbooruUrlAsksForWindow | booru_post_crawling.py:65-71 | reading the id bounds back from a Gelbooru bulk URL gives exactly the index's window |
| BooruText.Suffix | booru_post_crawling.py:44 | Path.suffix: empty, or a '.' followed by a non-empty text without '.', strictly shorter than the name and ending it |
| BooruText.SafeFilename | booru_post_crawling.py:42-47 | the name is refused exactly when the list of refused suffixes is non-empty and holds the URL's suffix; otherwise it starts with the decimal id and ends with the suffix |
| BooruText.SafeFilenameRoundTrip | booru_post_crawling.py:42-47 | the produced name has the URL's suffix and the rest of it parses back to the post id |
| BooruText.ScoreValue | booru_post_crawling.py:334-341 | above 100 is masterpiece, 51..100 best quality, below 0 worst quality, 0..50 empty |
| BooruText.ScoreValueMonotone | booru_post_crawling.py:334-341 | a higher score never gets a lower quality label |
| BooruText.SpacedRoundTrip | booru_post_crawling.py:458 | reading '_' as space loses nothing for a tag without spaces |
| BooruText.Labelled | booru_post_crawling.py:457-459 | one piece per tag, each the label followed by the tag with '_' read as space |
| BooruText.TagPieces | booru_post_crawling.py:454-459 | a missing or empty field adds nothing; otherwise there is one piece per whitespace-separated tag of the field, in order, each the label followed by that tag with "_" read as space |
| BooruText.TagPiecesRoundTrip | booru_post_crawling.py:454-459 | each piece starts with its label and gives back its tag once spaces are read as '_' |
| BooruText.RatingPiece | booru_post_crawling.py:471-481 | a missing or empty rating adds nothing; g, s, q and e (any case) expand to their names; any other code is added lower-cased |
| BooruText.RatingIgnoresCase | booru_post_crawling.py:477 | the rating piece does not depend on the code's case |
| BooruText.ScorePiece | booru_post_crawling.py:484-486 | a score piece is added exactly when the score is known and its label is non-empty (above 50 or below 0) |
| BooruText.NonBlank | booru_post_crawling.py:493 | the final pass keeps exactly the pieces that are not all whitespace, and nothing else |
| BooruText.NonBlankAppend | booru_post_crawling.py:493 | filtering two lists of pieces one after the other gives the kept pieces of the first followed by those of the second |
| BooruText.NonBlankOne | booru_post_crawling.py:493 | one piece is dropped exactly when it is all whitespace |
| BooruText.SingleTagCaption | booru_post_crawling.py:450-494 | a row with one general tag and nothing else is captioned as that tag with '_' read as space |
| BooruText.Caption | booru_post_crawling.py:461-462 | a row without a tag_string_character key whose tags key holds null raises the AttributeError of calling replace on None; every other row gets its caption |
| BooruText.ReplaceEach | booru_post_crawling.py:576-578 | replacing the forbidden characters one after another replaces every occurrence of any of them and nothing else |
| BooruText.Sanitize | booru_post_crawling.py:574-579 | the folder name has the tag's length and differs from it exactly at the characters < > : " / ? *, the vertical bar, space and comma, which become '_' |
| BooruText.SanitizedIsSafe | booru_post_crawling.py:574-579 | no unsafe character survives sanitising |
| BooruText.SanitizeFixedPoints | booru_post_crawling.py:574-579 | sanitising leaves a tag unchanged exactly when it has no unsafe character |
| BooruText.SanitizeIdempotent | booru_post_crawling.py:574-579 | sanitising twice is sanitising once |
| BooruMerge.TrimPost | booru_post_crawling.py:137-151 | the trimmed post has one member per kept key, in keep order, each the post's value or null |
| BooruMerge.Trim | booru_post_crawling.py:137-151 | one trimmed post per input post, in order |
| BooruMerge.TrimmedKeys | booru_post_crawling.py:323-325 | a trimmed post has exactly the kept keys, each holding the original's value or null |
| BooruMerge.TrimIdempotent | booru_post_crawling.py:248-262 | trimming a trimmed post again changes nothing |
| BooruMerge.FirstOccurrences | booru_post_crawling.py:900-909 | the reference merge: without a window it always succeeds; with one it fails (the TypeError of comparing a missing id) exactly when a post lacks an id |
| BooruMerge.FirstOccurrencesKept | booru_post_crawling.py:903-909 | the merge keeps only input posts whose id was not seen before and lies in the window, and no two kept posts share an id |
| BooruMerge.FirstOccurrencesComplete | booru_post_crawling.py:903-909 | every id of the input that was not seen before and lies in the window is kept once |
| BooruMerge.Merge | booru_post_crawling.py:927-936 | the batch-by-batch merge loop computes the reference merge of all posts in handling order |
| BooruMerge.MergeBatch | booru_post_crawling.py:930-936 | merging one batch advances the loop state without changing what the reference merge of the remaining posts gives, or reports the TypeError the reference merge reports |
| BooruMerge.MergeStep | booru_post_crawling.py:904-909 | one post: a seen id is skipped, a missing id in range mode raises, an unseen id in the window is appended and recorded, and one outside the window is skipped |
| BooruMerge.BulkMergeMeaning | booru_post_crawling.py:927-936 | the --bulk merge never holds the same id twice and holds every id met |
| BooruMerge.RangeMergeMeaning | booru_post_crawling.py:900-909 | the range merge fails exactly when a post lacks an id; otherwise it never holds the same id twice, holds only ids in [min_id, max_id] and holds every such id met |
| BooruMerge.RangeIndicesMissPosts | booru_post_crawling.py:857 | for ids 15..25 the code asks only for window 0..19, so id 20 is never fetched |
| BooruMerge.AlignedIndicesCover | booru_post_crawling.py:857 | with the first index aligned down to its window, every id in [min_id, max_id] lies in a fetched window |
| BooruMerge.Handle | booru_post_crawling.py:401-413 | a missing or empty URL or a missing id is ignored; a truthy min_id or max_id excludes ids outside it; a post that passes these checks is refused exactly when its suffix is refused and saved exactly when it is not, under the safe file name |
| BooruMerge.AllowedPostSaved | booru_post_crawling.py:401-413 | a post with a URL and an id inside every truthy bound, whose suffix is not refused, is saved as the decimal id followed by the URL's suffix |
| BooruMerge.SavedWithinBounds | booru_post_crawling.py:404-409 | a saved post has a URL and an id, and the id respects every truthy bound |
| BooruMerge.ZeroBoundIgnored | booru_post_crawling.py:404-407 | a bound of 0 is falsy and acts as no bound |
| TagDictionary.TypeName | gelbooru_post_download.py:47-54 | the tag types with a name are exactly 0, 1, 3, 4, 5 and 6 |
| TagDictionary.Variants | gelbooru_post_download.py:115-121 | five spellings are tried, the as-given one with one leading backslash removed |
| TagDictionary.GetTag | gelbooru_post_download.py:110-131 | no tag is found exactly when none of the five spellings is a key; otherwise the entry of the first spelling that is a key, in the order apostrophe-escaped, lower, upper, as given, unescaped |
| TagDictionary.LeadingBackslashIgnored | gelbooru_post_download.py:115-116 | one leading backslash does not change the lookup |
| TagDictionary.Store | gelbooru_post_download.py:232-242 | a fetched tag is stored under its name, under its HTML-escaped name with "&#039;" turned back into "'", and under its lower-cased name; entries under any other key are kept |
| TagDictionary.StoredTagFound | gelbooru_post_download.py:232-242 | a tag just stored is found by its name and by its lower-cased name |
| TagDictionary.Missing | gelbooru_post_download.py:98-104 | the missing tags are exactly the given tokens that the lookup does not find, in order |
| TagDictionary.MissingAppend | gelbooru_post_download.py:98-104 | the missing tags of two token lists one after the other are those of the first followed by those of the second |
| TagDictionary.MissingOne | gelbooru_post_download.py:98-104 | one token is missing exactly when the lookup does not find it |
| TagDictionary.TagQuery | gelbooru_post_download.py:203-211 | no request is made exactly when every name is found; otherwise the request asks for exactly the missing names |
| TagDictionary.KnownTagsNotRefetched | gelbooru_post_download.py:203-211 | names that are all keys already cause no request |
| TagDictionary.BatchesFromSlices | gelbooru_post_download.py:186-187 | the batches are the slices at range(0, len, 100) |
| TagDictionary.BatchesPartition | gelbooru_post_download.py:184-187 | the batches concatenate to the token list and each holds 1 to 100 tokens |
| TagDictionary.TypesOf | gelbooru_post_download.py:147-161 | the type list fails exactly when some tag is neither cached nor found; otherwise it has one type per tag, in order |
| TagDictionary.TypeOf | gelbooru_post_download.py:149-161 | a cached type wins; otherwise the found tag's type; neither is the not-found error |
| TagDictionary.NamesOf | gelbooru_post_download.py:164 | the verbose names fail exactly when some type has no name, and otherwise name each type in order |
| TagDictionary.AddTo | gelbooru_post_download.py:173-175 | appending a tag to its type's group, opening the group at the end when it is new, changes no other group |
| TagDictionary.Group | gelbooru_post_download.py:171-175 | no two groups have the same type |
| TagDictionary.GroupKeys | gelbooru_post_download.py:171-175 | a type heads a group exactly when some tag has it |
| TagDictionary.GroupContents | gelbooru_post_download.py:171-175 | each group lists exactly the tags of its type, in input order |
| TagDictionary.Zip | gelbooru_post_download.py:172 | tags and type names are paired position by position |
| TagDictionary.StructuredTagsMeaning | gelbooru_post_download.py:165-176 | structured_tags fails exactly when a tag is unknown or a type has no name; otherwise one group per type, each listing that type's tags in input order |
| JsonRecords.FlattenComplete | accelerated_json_to_parquet.py:75-88 | every scalar leaf is an item of the flattened list under its dotted path: "p.k" for the member the dict keeps for key k (its last one), "p.i" for a list element; the same code is at single_duckdb.py:75-88 |
| JsonRecords.RecordHoldsLeaf | accelerated_json_to_parquet.py:75-88 | the record dict(items) holds a leaf under its dotted path whenever no other item under that dotted key has another value |
| JsonRecords.DottedKeyCollision | accelerated_json_to_parquet.py:75-88 | two paths can give one dotted key: for {"a.b": 1, "a": {"b": 2}} the leaf 1 is an item but the record holds 2 under "a.b" |
| JsonRecords.FlattenSound | accelerated_json_to_parquet.py:75-88 | every flattened item is a scalar leaf under its dotted path, reached through the member the dict keeps for each key, so an empty object or list and a shadowed member contribute nothing; the same code is at single_duckdb.py:75-88 |
| JsonRecords.FlattenScalars | accelerated_json_to_parquet.py:75-88 | every flattened value is a scalar |
| JsonRecords.FlattenFlatObject | accelerated_json_to_parquet.py:75-88 | an object of scalars with no repeated key flattens to itself |
| JsonRecords.RepeatedKeyShadowed | accelerated_json_to_parquet.py:75-88 | of two members with the same key only the later one is flattened, at the first one's place |
| JsonRecords.NullFill | accelerated_json_to_parquet.py:132-134 | after null-filling every schema key is present, and keys already present or not in the schema are unchanged |
| JsonRecords.RecordKeys | accelerated_json_to_parquet.py:125-134 | every schema key is present; with a whitelist that covers the schema keys a record has exactly the whitelisted keys, each read from the flattened item or null; the same code is at single_duckdb.py:132-137 |
| JsonRecords.Unwrap | accelerated_json_to_parquet.py:115-122 | a truthy "post" list supplies the items; a missing or falsy "post" leaves the line object itself, without that key; a truthy text gives its characters as one-character texts, a truthy object gives its keys, and any other truthy value is the TypeError of iterating it |
| JsonRecords.ObjectKeys | accelerated_json_to_parquet.py:121-124 | iterating an object lists each of its keys exactly once and nothing else, in member order when no key repeats |
| JsonRecords.AllItems | accelerated_json_to_parquet.py:115-124 | the items of a file are read exactly when every line unwraps |
| JsonRecords.AllItemsAppend | accelerated_json_to_parquet.py:115-124 | two blocks of lines give the items of the first followed by those of the second, and the first failure is the one reported |
| JsonRecords.AllItemsOne | accelerated_json_to_parquet.py:115-124 | one line gives exactly the items unwrapping it gives |
| JsonRecords.DedupShape | accelerated_json_to_parquet.py:137-141 | dedup keeps input records only, never more, and records every id met |
| JsonRecords.DedupKeeps | accelerated_json_to_parquet.py:137-141 | a record with a null or unseen id is kept and its id recorded |
| JsonRecords.DedupDrops | accelerated_json_to_parquet.py:137-141 | a record whose non-null id was seen is dropped |
| JsonRecords.DedupFresh | accelerated_json_to_parquet.py:137-141 | no kept record has a non-null id that was seen before |
| JsonRecords.DedupDistinct | accelerated_json_to_parquet.py:137-141 | no two kept records share a non-null id |
| JsonRecords.DedupKeepsNull | accelerated_json_to_parquet.py:137-141 | records with a null id are never dropped |
| JsonRecords.DedupCovers | accelerated_json_to_parquet.py:137-141 | every id not seen before is kept once |
| JsonRecords.DedupMeaning | single_duckdb.py:139-143 | dedup keeps distinct non-null ids, none seen before, every null-id record and every unseen id |
| JsonRecords.PrefixSkip | accelerated_json_to_parquet.py:107-113 | a file whose numeric name prefix is below min_id yields no record and leaves the seen set alone; a prefix int() rejects keeps the file; the same code is at single_duckdb.py:116-122 |
| JsonRecords.PrefixPieceExists | single_duckdb.py:116-122 | splitting the stem at '_' always gives a first piece, so the IndexError the DuckDB converter catches never happens |
| JsonRecords.SchemaKeys | accelerated_json_to_parquet.py:205 | a schema supplies null-fill keys only when it has columns |
| JsonRecords.SchemaChoice | accelerated_json_to_parquet.py:186-193 | no whitelist infers the schema in both converters; a fixed schema names exactly the whitelisted keys; the DuckDB converter (single_duckdb.py:163-168) chooses alike except on an empty whitelist, which it also infers |
| JsonRecords.RecordsHaveWhitelist | accelerated_json_to_parquet.py:186-205 | in both converters a record has a key exactly when it is whitelisted |

## Notes on the code

The model follows the code where its comments or names suggest otherwise:

- `format_caption` lower-cases a rating code before passing an unknown one
  through, so "X" becomes "rating:x".
- Gelbooru's `yield_posts` does not guard its name parse. A name with '_'
  whose stem is not exactly two integers raises `ValueError`.
- In both `download_post` functions the resume branch cannot take effect.
  An existing file is either kept (return) or deleted before the chunk loop,
  so the bytes on disk are always 0. `ResumeNeverSkips` states it.
- `single_duckdb.py` catches `IndexError` in its prefix skip, but
  `str.split` always returns a first piece (`PrefixPieceExists`).
- The two converters choose the schema differently for an empty whitelist.
  One builds an empty string schema, which then supplies no null-fill keys.
  The other infers the schema (`SchemaChoice`).
- The Gelbooru size ceiling `MAX_FILE_SIZE` is 30000000 bytes when the
  module is imported, but the script entry point rebinds it to
  `--split_size` (1000000 by default), so `GelbooruGate` takes the ceiling
  as a parameter.
- Danbooru's size check after the probe (danbooru_post_download.py:151-157)
  never finds a file: one that opens was kept before the probe, and one
  that does not open was removed. `DanbooruGate` has no branch for it.
- Danbooru's `int(None)` on a missing Content-Length raises inside the
  outer `try`, so it ends the post like an abort (`DanbooruPart`).

## Left out

- HTTP transport: sessions, Basic auth, `quote_plus` and the gateway's own
  behaviour. The gateway is a function parameter and responses are
  `(status, body, Content-Length)`.
- Threads, locks, `ThreadPoolExecutor` and `as_completed`. The model is one
  sequential caller, so `check` sees the health answers in index order and
  the range merge sees batches in the order given.
- Real time. Float `wait_time`/`timeout` become integers, and `now` and the
  return tick are parameters.
- ProxyHandler.WaitUntilAllowed: takes the sleep to end exactly at its
  deadline. A late wake-up would commit a later tick.
- The file system: opening, writing, merging and removing files, `os.walk`
  and `makedirs`. Sizes on disk and part files are inputs. PIL's image check
  is a boolean.
- `json.loads`/`orjson`, `html.escape`/`unescape`: decoded values and the
  escaping functions are parameters. `Lower`/`Upper`/`isdigit` cover ASCII
  only.
- Gelbooru `save_metadata`/`structured_dict`: raises NotImplementedError for
  Danbooru rows and is output only.
- TagDictionary: the network fetch inside `_get_tags` and the retries around
  it are left out, because they are I/O. The model covers which names are
  asked for and how fetched tags are stored.
- TagDictionary.TypesOf: does not model the `type_by_name` cache growing
  during the walk, because entries added there repeat lookups that already
  succeeded. Tag records are assumed to carry a name and a type.
- RangedDownload.DanbooruPartsAsWritten: its contract only says failures are
  aborts. Its faults are exhibited by `StaleResponseReused` and
  `PartialContentRejected`, and the corrected `DanbooruParts` carries the
  full contract.
- RangedDownload.GelbooruChunked: its own contract states only the size of
  a kept file. The chunk-order content is proved in
  `GelbooruSavedIsAssembled`. That well-served chunks are saved is proved in
  `GelbooruServedSaved`, and that a wrong Content-Length ends the post is
  proved in `GelbooruWrongLengthAborts`.
- RangedDownload.DanbooruChunked: its own contract constrains only a kept
  file. That well-served chunks are saved is proved in
  `DanbooruServedSaved`, and that a wrong Content-Length aborts is proved in
  `DanbooruWrongLengthAborts`.
- JsonRecords.FlattenComplete: speaks of the item list before `dict(items)`
  collapses repeated dotted keys. The record holds a leaf only when no other
  path gives the same dotted key with another value (`RecordHoldsLeaf`,
  `DottedKeyCollision`).
- JSON numbers are integers only (`JNum`). Float leaves, and a float id
  equal to an integer one in the dedup set, are not represented.
- A JSONL line is always an object. A line that decodes to another value,
  on which `data.pop("post", None)` raises, is not represented.
- JsonRecords.Flatten: carries no contract of its own. Its meaning is proved
  in `FlattenComplete`, `FlattenSound` and `FlattenScalars`.
- JsonRecords.Dedup: carries no contract of its own. Its meaning is proved
  in `DedupShape`, `DedupMeaning` and the lemmas before it.
- BooruText.Caption: only its failure case, the pieces, the blank filter
  and the single-tag caption are proved. The final ", ," replacement is not
  characterised for every row.
- Python dict key order and sorted column order: a schema is a set of keys,
  and `KeyOrder` only keeps order-listed keys.
- Ids are integers or null and are compared as JSON values. Hashability
  errors are not modelled.
- The retry loops with exponential backoff around bulk fetches and the
  file-size probe: each is a sleep around modelled logic, so the probe's
  result is a parameter.
- A partially written Danbooru file left after an abort, because file
  contents are not modelled.
- DuckDB, Polars and PyArrow table building (`parquet_to_duckdb`, the polar
  scripts), argparse CLIs and console output: these are library calls and
  output only.
- gelbooru_tag_dict.py is not part of this model: it is an I/O script whose
  imported module is not available.

## Findings

| source | as written | input that shows it | evidently intended | confidence | as-written member | corrected member |
|---|---|---|---|---|---|---|
| booru_post_crawling.py:857 | window indices step by 20 from an unaligned min_id | min_id 15, max_id 25: only index 15 (window 0..19) is fetched, so ids 20..25 are lost | every id in [min_id, max_id] falls in a fetched window | not executed | BooruMerge.RangeIndicesMissPosts | BooruMerge.AlignedIndicesCover |
| danbooru_post_download.py:205-223 | `file_response` is not reset per chunk | two 1-byte chunks, chunk 0 answered "A", every call of `get_filepart` for chunk 1 raising: the file is saved as "AA". `get_filepart` catches transport errors itself, so it raises only when another thread's `check` shrinks the pool between the empty test and the lookup (IndexError at utils/proxyhandler.py:282, ZeroDivisionError at :254) | a chunk whose attempts all fail aborts the post | not executed; low, since the trigger needs that race | RangedDownload.StaleResponseReused | RangedDownload.DanbooruChunked |
| danbooru_post_download.py:208-218 | a 206 ends the retry loop, then anything but 200 is rejected | one 1-byte chunk always answered 206 "A" with Content-Length 1: the post is aborted | a 206 partial answer of the right length is accepted | not executed | RangedDownload.PartialContentRejected | RangedDownload.DanbooruParts |
