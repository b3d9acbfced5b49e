/** The proxy pool of `utils/proxyhandler.py`: a list of gateway base URLs,
    a round-robin cursor and a per-index ledger of commit times, driven by
    one sequential caller. The clock is an explicit integer tick count and
    the gateways are a function from (base URL, request) to what came back. */
module ProxyHandler {
  import opened Base
  import opened PyText
  import opened Json
  import Modular

  /** Why the constructor raised `ValueError`. */
  datatype InitError =
    | AuthFormat      // the auth string has no ':'
    | EmptyProxyList  // no non-blank line in the proxy list
    | EmptyProxyUrl   // the single-proxy text is blank

  /** What the constructor fixes for the handler's lifetime. */
  datatype Config = Config(user: string, password: string, waitTime: int, timeout: int)

  /** The mutable part: the proxy list, the cursor, and the commit ledger
      (proxy index -> tick of its last commit, or of the end of its punishment). */
  datatype Pool = Pool(proxies: seq<string>, cursor: int, commit: map<nat, int>)

  /** What a request asks the gateway for; the percent-encoding of the target
      URL into the query string is not modelled. */
  datatype Op =
    | GetResponseOp(url: string)            // get_response?url=...
    | RawOp(url: string)                    // get_response_raw?url=...
    | FileSizeOp(url: string)               // file_size?url=...
    | FilePartOp(url: string, start: int, end: int)  // filepart?url=...&start=..&end=..
    | HealthOp                              // the bare base URL

  datatype Response = Response(status: int, body: string, contentLength: Option<int>)

  /** Either `session.get` raised, or it returned a response. */
  datatype Transport = TransportError | Answered(resp: Response)

  type Gateway = (string, Op) -> Transport

  // ------------------------------------------------------------ loading --

  /** The form every loaded proxy entry has: an `http...` URL ending in `/`
      whose part after the first `//` names a port. */
  predicate IsProxyBase(p: string) {
    StartsWith(p, "http") && EndsWith(p, "/") && ':' in AfterFirst(p, "//")
  }

  function WithScheme(p: string): string {
    if StartsWith(p, "http") then p else "http://" + p
  }

  function WithPort(p: string, port: int): string {
    if ':' in AfterFirst(p, "//") then p else p + ":" + IntToString(port)
  }

  function WithSlash(p: string): string {
    if EndsWith(p, "/") then p else p + "/"
  }

  /** One stripped, non-blank proxy line turned into a base URL. */
  function NormaliseProxy(proxy: string, port: int): (r: string)
    ensures IsProxyBase(r)
    ensures StartsWith(r, WithScheme(proxy))
    ensures ':' in AfterFirst(WithScheme(proxy), "//") <==> (r == WithScheme(proxy) || r == WithScheme(proxy) + "/")
    ensures ':' !in AfterFirst(WithScheme(proxy), "//") ==> r == WithScheme(proxy) + ":" + IntToString(port) + "/"
    ensures r[0] == 'h' && r[|r| - 1] == '/'
  {
    NormalisePortAppended(proxy, port);
    NormalisePrefix(proxy, port);
    NormaliseIsBase(proxy, port);
    NormalisePortRule(proxy, port);
    NormaliseEndsInSlash(proxy, port);
    NormaliseStartsWithScheme(proxy, port);
    WithSlash(WithPort(WithScheme(proxy), port))
  }

  /** Without a port after `//`, the configured one is appended before the slash. */
  lemma NormalisePortAppended(proxy: string, port: int)
    ensures var s := WithScheme(proxy); var r := WithSlash(WithPort(s, port));
      ':' !in AfterFirst(s, "//") ==> r == s + ":" + IntToString(port) + "/"
  {
    var s := WithScheme(proxy);
    if ':' !in AfterFirst(s, "//") {
      var p := s + ":" + IntToString(port);
      PortAppended(s, port);
      assert !EndsWith(p, "/") by {
        if EndsWith(p, "/") { LastOfSuffix(p, "/"); }
      }
    }
  }

  lemma NormalisePrefix(proxy: string, port: int)
    ensures var s := WithScheme(proxy); var r := WithSlash(WithPort(s, port));
      StartsWith(r, s)
  {
    var s := WithScheme(proxy);
    var p := WithPort(s, port);
    PortFacts(s, port);
    SlashFacts(p);
    PrefixTrans(WithSlash(p), p, s);
  }

  lemma NormaliseIsBase(proxy: string, port: int)
    ensures var s := WithScheme(proxy); var r := WithSlash(WithPort(s, port));
      IsProxyBase(r)
  {
    var s := WithScheme(proxy);
    var p := WithPort(s, port);
    var r := WithSlash(p);
    SchemeFacts(proxy);
    PortFacts(s, port);
    SlashFacts(p);
    PrefixTrans(r, p, s);
    PrefixTrans(r, s, "http");
  }

  lemma NormalisePortRule(proxy: string, port: int)
    ensures var s := WithScheme(proxy); var r := WithSlash(WithPort(s, port));
      (':' in AfterFirst(s, "//") <==> (r == s || r == s + "/"))
  {
    var s := WithScheme(proxy);
    var p := WithPort(s, port);
    var r := WithSlash(p);
    PortFacts(s, port);
    SlashFacts(p);
    if ':' in AfterFirst(s, "//") {
      assert p == s;
    } else {
      assert |r| >= |s| + 2;
    }
  }

  lemma NormaliseEndsInSlash(proxy: string, port: int)
    ensures var s := WithScheme(proxy); var r := WithSlash(WithPort(s, port));
      r[|r| - 1] == '/'
  {
    var r := WithSlash(WithPort(WithScheme(proxy), port));
    NormaliseIsBase(proxy, port);
    LastOfSuffix(r, "/");
  }

  lemma LastOfSuffix(r: string, suf: string)
    requires |suf| > 0 && EndsWith(r, suf)
    ensures r[|r| - 1] == suf[|suf| - 1]
  {
    assert r[|r| - |suf|..][|suf| - 1] == r[|r| - 1];
  }

  lemma NormaliseStartsWithScheme(proxy: string, port: int)
    ensures var s := WithScheme(proxy); var r := WithSlash(WithPort(s, port));
      r[0] == 'h'
  {
    var r := WithSlash(WithPort(WithScheme(proxy), port));
    NormaliseIsBase(proxy, port);
    HeadOfPrefix(r, "http");
  }

  lemma HeadOfPrefix(r: string, pre: string)
    requires |pre| > 0 && StartsWith(r, pre)
    ensures r[0] == pre[0]
  {
    assert r[..|pre|] == pre;
    assert r[0] == r[..|pre|][0];
  }

  lemma SchemeFacts(proxy: string)
    ensures StartsWith(WithScheme(proxy), "http")
  {
    if !StartsWith(proxy, "http") {
      assert ("http://" + proxy)[..4] == "http";
    }
  }

  lemma PrefixTrans(c: string, b: string, a: string)
    requires StartsWith(c, b) && StartsWith(b, a)
    ensures StartsWith(c, a)
  {
    assert c[..|a|] == c[..|b|][..|a|];
  }

  lemma PrefixOfAppend(a: string, b: string)
    ensures StartsWith(a + b, a)
  {
    assert (a + b)[..|a|] == a;
  }

  /** The port step: a no-op exactly when the part after `//` already holds
      a ':'; otherwise it appends at least two characters, ending in a digit. */
  lemma PortFacts(s: string, port: int)
    ensures var p := WithPort(s, port);
      && StartsWith(p, s) && ':' in AfterFirst(p, "//")
      && (':' in AfterFirst(s, "//") ==> p == s)
      && (':' !in AfterFirst(s, "//") ==> |p| >= |s| + 2 && p[|p| - 1] != '/')
  {
    if ':' in AfterFirst(s, "//") {
      PrefixOfAppend(s, []);
      assert s + [] == s;
    } else {
      PortAppended(s, port);
    }
  }

  lemma PortAppended(s: string, port: int)
    ensures var p := s + ":" + IntToString(port);
      && StartsWith(p, s) && ':' in AfterFirst(p, "//")
      && |p| >= |s| + 2 && p[|p| - 1] != '/'
  {
    var x := ":" + IntToString(port);
    ColonDigits(port);
    assert s + ":" + IntToString(port) == s + x;
    ColonTextAppended(s, x);
  }

  lemma ColonTextAppended(s: string, x: string)
    requires |x| >= 2 && x[0] == ':' && '/' !in x && x[|x| - 1] != '/'
    ensures var p := s + x;
      && StartsWith(p, s) && ':' in AfterFirst(p, "//")
      && |p| >= |s| + 2 && p[|p| - 1] != '/'
  {
    PrefixOfAppend(s, x);
    assert (s + x)[|s + x| - 1] == x[|x| - 1];
    ColonAppended(s, x);
  }

  /** The appended port text: a ':' then at least one digit, with no '/'. */
  lemma ColonDigits(port: int)
    ensures var x := ":" + IntToString(port);
      |x| >= 2 && x[0] == ':' && '/' !in x && x[|x| - 1] != '/'
  {
    var digits := IntToString(port);
    var x := ":" + digits;
    assert x[|x| - 1] == digits[|digits| - 1];
    assert forall k :: 0 <= k < |x| ==> x[k] == (if k == 0 then ':' else digits[k - 1]);
  }

  lemma ColonAppended(s: string, x: string)
    requires |x| > 0 && x[0] == ':' && '/' !in x
    ensures ':' in AfterFirst(s + x, "//")
  {
    NoSlashesInShort(x);
    assert !(|s| > 0 && |x| > 0 && s[|s| - 1] == '/' && x[0] == '/');
    AppendKeepsAfterSlashes(s, x, ':');
  }

  /** A character after the first `//`, or in an appended tail that cannot
      start a new `//`, is still after the first `//` of the whole. */
  lemma AppendKeepsAfterSlashes(s: string, x: string, c: char)
    requires !ContainsStr(x, "//") && !(|s| > 0 && |x| > 0 && s[|s| - 1] == '/' && x[0] == '/')
    requires c in AfterFirst(s, "//") || c in x
    ensures c in AfterFirst(s + x, "//")
  {
    if ContainsStr(s, "//") {
      AfterFirstAppend(s, x, "//");
    } else {
      NoSlashesAppend(s, x);
    }
  }

  /** The slash step appends a '/' only when the text does not end in one,
      and keeps the ':' after `//`. */
  lemma SlashFacts(p: string)
    requires ':' in AfterFirst(p, "//")
    ensures var r := WithSlash(p);
      && StartsWith(r, p) && EndsWith(r, "/") && ':' in AfterFirst(r, "//")
      && (r == p || r == p + "/")
  {
    if EndsWith(p, "/") {
      PrefixOfAppend(p, []);
      assert p + [] == p;
    } else {
      PrefixOfAppend(p, "/");
      assert (p + "/")[|p + "/"| - 1..] == "/";
      SlashKeepsColon(p);
    }
  }

  lemma SlashKeepsColon(p: string)
    requires ':' in AfterFirst(p, "//") && !EndsWith(p, "/")
    ensures ':' in AfterFirst(p + "/", "//")
  {
    assert !ContainsStr("/", "//");
    assert !(|p| > 0 && p[|p| - 1] == '/') by {
      if |p| > 0 { assert p[|p| - 1..] == [p[|p| - 1]]; }
    }
    AppendKeepsAfterSlashes(p, "/", ':');
  }

  /** Appending never moves an earlier occurrence of the pattern. */
  lemma {:induction false} ContainsAppend(s: string, x: string, pat: string)
    requires |pat| > 0 && ContainsStr(s, pat)
    ensures ContainsStr(s + x, pat)
    decreases |s|
  {
    assert (s + x)[..|pat|] == s[..|pat|];
    if s[..|pat|] != pat {
      ContainsAppend(s[1..], x, pat);
      assert (s + x)[1..] == s[1..] + x;
    }
  }

  lemma {:induction false} AfterFirstAppend(s: string, x: string, pat: string)
    requires |pat| > 0 && ContainsStr(s, pat)
    ensures AfterFirst(s + x, pat) == AfterFirst(s, pat) + x
    decreases |s|
  {
    assert (s + x)[..|pat|] == s[..|pat|];
    if s[..|pat|] == pat {
      assert (s + x)[|pat|..] == s[|pat|..] + x;
    } else {
      assert (s + x)[1..] == s[1..] + x;
      ContainsAppend(s[1..], x, pat);
      AfterFirstAppend(s[1..], x, pat);
    }
  }

  /** Gluing two strings creates a `//` only across the seam. */
  lemma {:induction false} NoSlashesAppend(s: string, x: string)
    requires !ContainsStr(s, "//") && !ContainsStr(x, "//")
    requires !(|s| > 0 && |x| > 0 && s[|s| - 1] == '/' && x[0] == '/')
    ensures !ContainsStr(s + x, "//")
    decreases |s|
  {
    if |s| == 0 {
      assert s + x == x;
    } else {
      var t := s + x;
      assert t[1..] == s[1..] + x;
      if |s| == 1 {
        assert s[1..] + x == x;
        if |x| > 0 { assert t[..2] == [s[0], x[0]]; }
      } else {
        assert t[..2] == s[..2];
        assert s[1..][|s[1..]| - 1] == s[|s| - 1];
      }
      NoSlashesAppend(s[1..], x);
      assert !ContainsStr(t[1..], "//");
    }
  }

  lemma {:induction false} NoSlashesInShort(x: string)
    requires '/' !in x
    ensures !ContainsStr(x, "//")
    decreases |x|
  {
    if |x| >= 2 {
      assert x[..2] != "//" by { assert x[..2][0] == x[0]; }
      NoSlashesInShort(x[1..]);
    }
  }

  /** A normalised entry is left alone by a second normalisation. */
  lemma NormaliseIdempotent(proxy: string, port: int)
    ensures NormaliseProxy(NormaliseProxy(proxy, port), port) == NormaliseProxy(proxy, port)
  {
    var r := NormaliseProxy(proxy, port);
    assert WithScheme(r) == r;
    PortFacts(r, port);
    assert WithPort(r, port) == r;
  }

  /** The lines of a text file read in universal-newline mode: `\r\n`, `\r`
      and `\n` all end a line. (A `\r\n` pair also yields an empty line here,
      which the loader drops as blank.) */
  function Lines(text: string): (r: seq<string>)
    ensures forall k :: 0 <= k < |r| ==> '\n' !in r[k]
  {
    SplitOn(ReplaceChar(text, '\r', '\n'), '\n')
  }

  /** A loaded entry: a proxy base URL with nothing left to strip. */
  predicate IsEntry(p: string) {
    IsProxyBase(p) && Trimmed(p)
  }

  lemma NormaliseIsEntry(proxy: string, port: int)
    ensures IsEntry(NormaliseProxy(proxy, port))
  {
    EntryBetween(NormaliseProxy(proxy, port));
  }

  lemma EntryBetween(r: string)
    requires IsProxyBase(r) && |r| > 0 && r[0] == 'h' && r[|r| - 1] == '/'
    ensures IsEntry(r)
  {
    TrimmedBetween(r, 'h', '/');
  }

  lemma TrimmedBetween(r: string, first: char, last: char)
    requires |r| > 0 && r[0] == first && r[|r| - 1] == last
    requires !IsSpace(first) && !IsSpace(last)
    ensures Trimmed(r)
  {
  }

  function LoadLines(lines: seq<string>, port: int): (r: seq<string>)
    ensures |r| <= |lines|
    ensures forall p :: p in r ==> IsEntry(p)
  {
    if |lines| == 0 then []
    else
      var proxy := Strip(lines[0]);
      if proxy == [] then LoadLines(lines[1..], port)
      else
        NormaliseIsEntry(proxy, port);
        [NormaliseProxy(proxy, port)] + LoadLines(lines[1..], port)
  }

  /** Loading two runs of lines loads each run, one after the other. */
  lemma {:induction false} LoadLinesAppend(a: seq<string>, b: seq<string>, port: int)
    ensures LoadLines(a + b, port) == LoadLines(a, port) + LoadLines(b, port)
    decreases |a|
  {
    if a == [] {
      assert a + b == b;
    } else {
      assert (a + b)[0] == a[0] && (a + b)[1..] == a[1..] + b;
      LoadLinesAppend(a[1..], b, port);
    }
  }

  /** One line loads nothing when it is blank and its normalised text
      otherwise; with `LoadLinesAppend` this fixes every list's load. */
  lemma LoadLinesOne(line: string, port: int)
    ensures AllSpace(line) ==> LoadLines([line], port) == []
    ensures !AllSpace(line) ==> LoadLines([line], port) == [NormaliseProxy(Strip(line), port)]
  {
    if AllSpace(line) {
      StripOfBlank(line);
    }
    assert [line][1..] == [];
  }

  /** `ProxyHandler._load_proxy_list`: one base URL per non-blank line. */
  function LoadProxyList(text: string, port: int): (r: seq<string>)
    ensures forall p :: p in r ==> IsEntry(p)
    ensures AllSpace(text) ==> r == []
  {
    var r := LoadLines(Lines(text), port);
    assert AllSpace(text) ==> r == [] by {
      if AllSpace(text) { BlankTextLoadsNothing(text, port); }
    }
    r
  }

  lemma BlankTextLoadsNothing(text: string, port: int)
    requires AllSpace(text)
    ensures LoadLines(Lines(text), port) == []
  {
    var t := ReplaceChar(text, '\r', '\n');
    assert AllSpace(t);
    var ls := Lines(text);
    assert forall k :: 0 <= k < |ls| ==> AllSpace(ls[k]) by {
      forall k | 0 <= k < |ls| ensures AllSpace(ls[k]) {
        SplitPieceChars(t, '\n', k);
        forall i | 0 <= i < |ls[k]| ensures IsSpace(ls[k][i]) {
          assert ls[k][i] in t;
          var j :| 0 <= j < |t| && t[j] == ls[k][i];
        }
      }
    }
    AllBlankLoadsNothing(ls, port);
  }

  lemma {:induction false} AllBlankLoadsNothing(lines: seq<string>, port: int)
    requires forall k :: 0 <= k < |lines| ==> AllSpace(lines[k])
    ensures LoadLines(lines, port) == []
  {
    if |lines| > 0 {
      StripOfBlank(lines[0]);
      AllBlankLoadsNothing(lines[1..], port);
    }
  }

  /** Every character of a split piece comes from the split text. */
  lemma SplitPieceChars(s: string, sep: char, k: nat)
    requires k < |SplitOn(s, sep)|
    ensures forall c :: c in SplitOn(s, sep)[k] ==> c in s
    decreases |s|
  {
    if sep in s {
      var i := FirstIndex(s, sep);
      assert s == s[..i] + [sep] + s[i + 1..];
      if k > 0 { SplitPieceChars(s[i + 1..], sep, k - 1); }
    }
  }

  /** `SingleProxyHandler._load_proxy_list`: the whole text is one URL. */
  function LoadSingleProxy(text: string, port: int): (r: Result<seq<string>, InitError>)
    ensures r.Err? <==> AllSpace(text)
    ensures r.Err? ==> r.error == EmptyProxyUrl
    ensures r.Ok? ==> r.value == [NormaliseProxy(Strip(text), port)] && IsProxyBase(r.value[0])
  {
    var proxy := Strip(text);
    if proxy == [] then
      assert AllSpace(text);
      Err(EmptyProxyUrl)
    else
      assert !AllSpace(text) by {
        var a, b :| 0 <= a <= b <= |text| && proxy == text[a..b];
        assert proxy[0] == text[a];
      }
      Ok([NormaliseProxy(proxy, port)])
  }

  /** `proxy_auth.split(":", 1)` unpacked into user and password. */
  function ParseAuth(auth: string): (r: Result<(string, string), InitError>)
    ensures r.Ok? <==> ':' in auth
    ensures r.Err? ==> r.error == AuthFormat
    ensures r.Ok? ==> ':' !in r.value.0 && r.value.0 + ":" + r.value.1 == auth
  {
    if ':' in auth then
      var i := FirstIndex(auth, ':');
      assert auth == auth[..i] + ":" + auth[i + 1..];
      Ok((auth[..i], auth[i + 1..]))
    else Err(AuthFormat)
  }

  /** `ProxyHandler.__init__`: auth first, then the list, then the emptiness check. */
  function Create(auth: string, listText: string, port: int, waitTime: int, timeout: int): (r: Result<(Config, Pool), InitError>)
    ensures r == Err(AuthFormat) <==> ':' !in auth
    ensures r == Err(EmptyProxyList) <==> ':' in auth && LoadProxyList(listText, port) == []
    ensures r.Ok? ==> var (cfg, pool) := r.value;
      && cfg.user + ":" + cfg.password == auth && ':' !in cfg.user
      && cfg.waitTime == waitTime && cfg.timeout == timeout
      && pool.proxies == LoadProxyList(listText, port) && |pool.proxies| > 0
      && pool.cursor == -1 && pool.commit == map[]
  {
    var (user, password) :- ParseAuth(auth);
    var proxies := LoadProxyList(listText, port);
    if proxies == [] then Err(EmptyProxyList)
    else Ok((Config(user, password, waitTime, timeout), Pool(proxies, -1, map[])))
  }

  /** `SingleProxyHandler.__init__`. */
  function CreateSingle(auth: string, proxyUrl: string, port: int, waitTime: int, timeout: int): (r: Result<(Config, Pool), InitError>)
    ensures r == Err(AuthFormat) <==> ':' !in auth
    ensures r == Err(EmptyProxyUrl) <==> ':' in auth && AllSpace(proxyUrl)
    ensures r.Ok? ==> var (cfg, pool) := r.value;
      && cfg.user + ":" + cfg.password == auth && ':' !in cfg.user
      && cfg.waitTime == waitTime && cfg.timeout == timeout
      && pool.proxies == [NormaliseProxy(Strip(proxyUrl), port)]
      && pool.cursor == -1 && pool.commit == map[]
  {
    var (user, password) :- ParseAuth(auth);
    var proxies :- LoadSingleProxy(proxyUrl, port);
    Ok((Config(user, password, waitTime, timeout), Pool(proxies, -1, map[])))
  }

  /** A one-line URL loads the same entry through either loader: the
      single-proxy handler is the list handler over a one-line file. */
  lemma SingleAgreesWithList(text: string, port: int)
    requires '\n' !in text && '\r' !in text && !AllSpace(text)
    ensures LoadSingleProxy(text, port) == Ok(LoadProxyList(text, port))
  {
    ReplaceCharAbsent(text, '\r', '\n');
    assert SplitOn(text, '\n') == [text];
    LoadLinesOne(text, port);
  }

  /** Loading the list a handler ended up with, written one entry per line,
      gives the same list back. */
  lemma LoadRoundTrip(text: string, port: int)
    ensures var ps := LoadProxyList(text, port);
      |ps| > 0 ==> LoadProxyList(Join(ps, "\n"), port) == ps
  {
    var ps := LoadProxyList(text, port);
    if |ps| > 0 {
      LinesHaveNoBreaks(text);
      EntriesHaveNoLineBreak(Lines(text), port);
      var joined := Join(ps, "\n");
      JoinChars(ps, '\n', '\r');
      ReplaceCharAbsent(joined, '\r', '\n');
      SplitJoin(ps, '\n');
      assert Lines(joined) == ps;
      ReloadEntries(ps, port);
    }
  }

  lemma ReplaceCharAbsent(s: string, c: char, d: char)
    requires c !in s
    ensures ReplaceChar(s, c, d) == s
  {
    var r := ReplaceChar(s, c, d);
    assert forall i :: 0 <= i < |s| ==> r[i] == s[i];
  }

  lemma LinesHaveNoBreaks(text: string)
    ensures forall l :: l in Lines(text) ==> '\n' !in l && '\r' !in l
  {
    var t := ReplaceChar(text, '\r', '\n');
    assert forall i :: 0 <= i < |t| ==> t[i] != '\r';
    forall k | 0 <= k < |Lines(text)| ensures '\r' !in Lines(text)[k] {
      SplitPieceChars(t, '\n', k);
    }
  }

  lemma {:induction false} EntriesHaveNoLineBreak(lines: seq<string>, port: int)
    requires forall l :: l in lines ==> '\n' !in l && '\r' !in l
    ensures forall p :: p in LoadLines(lines, port) ==> '\n' !in p && '\r' !in p
  {
    if |lines| > 0 {
      assert forall l :: l in lines[1..] ==> l in lines;
      EntriesHaveNoLineBreak(lines[1..], port);
      var rest := LoadLines(lines[1..], port);
      var proxy := Strip(lines[0]);
      if proxy == [] {
        assert LoadLines(lines, port) == rest;
      } else {
        StripChars(lines[0]);
        NormaliseChars(proxy, port);
        assert LoadLines(lines, port) == [NormaliseProxy(proxy, port)] + rest;
      }
    }
  }

  lemma StripChars(s: string)
    ensures forall c :: c in Strip(s) ==> c in s
  {
    var r := Strip(s);
    var a, b :| 0 <= a <= b <= |s| && r == s[a..b];
    assert forall i :: 0 <= i < |r| ==> r[i] == s[a + i];
  }

  /** Normalisation adds only scheme, port and slash characters. */
  lemma NormaliseChars(proxy: string, port: int)
    requires '\n' !in proxy && '\r' !in proxy
    ensures '\n' !in NormaliseProxy(proxy, port) && '\r' !in NormaliseProxy(proxy, port)
  {
    var s := WithScheme(proxy);
    assert '\n' !in s && '\r' !in s;
    var p := WithPort(s, port);
    var digits := IntToString(port);
    assert '\n' !in digits && '\r' !in digits;
    assert '\n' !in p && '\r' !in p;
    var r := WithSlash(p);
    assert '\n' !in r && '\r' !in r;
  }

  /** A joined string holds only the pieces' characters and the separator. */
  lemma {:induction false} JoinChars(xs: seq<string>, sep: char, c: char)
    requires c != sep && forall k :: 0 <= k < |xs| ==> c !in xs[k]
    ensures c !in Join(xs, [sep])
  {
    if |xs| > 1 { JoinChars(xs[1..], sep, c); }
  }

  lemma ConsSplit<T>(xs: seq<T>)
    requires |xs| > 0
    ensures xs == [xs[0]] + xs[1..]
  {
  }

  lemma LoadLinesCons(lines: seq<string>, port: int)
    requires |lines| > 0 && Strip(lines[0]) != []
    ensures LoadLines(lines, port) == [NormaliseProxy(Strip(lines[0]), port)] + LoadLines(lines[1..], port)
  {
  }

  /** An entry is its own normal form. */
  lemma EntryIsFixed(p: string, port: int)
    requires IsEntry(p)
    ensures Strip(p) == p && p != [] && NormaliseProxy(p, port) == p
  {
    StripOfTrimmed(p);
    assert p != [] by { assert EndsWith(p, "/"); }
    assert WithScheme(p) == p;
    PortFacts(p, port);
    assert WithPort(p, port) == p;
    assert WithSlash(p) == p;
  }

  lemma {:induction false} ReloadEntries(ps: seq<string>, port: int)
    requires forall p :: p in ps ==> IsEntry(p)
    ensures LoadLines(ps, port) == ps
  {
    if |ps| > 0 {
      var p := ps[0];
      EntryIsFixed(p, port);
      LoadLinesCons(ps, port);
      assert forall q :: q in ps[1..] ==> q in ps;
      ReloadEntries(ps[1..], port);
      assert LoadLines(ps, port) == [p] + ps[1..];
      ConsSplit(ps);
    }
  }

  // -------------------------------------------------------- round robin --

  /** The index `_next_proxy_index` hands out next. */
  function NextSlot(p: Pool): nat
    requires |p.proxies| > 0
  {
    (p.cursor + 1) % |p.proxies|
  }

  /** `_next_proxy_index`: advance the cursor modulo the CURRENT pool size.
      An empty pool would divide by zero; its only caller checks first. */
  function NextIndex(p: Pool): (r: (Pool, nat))
    requires |p.proxies| > 0
    ensures r.1 < |p.proxies|
    ensures r.0 == p.(cursor := r.1)
  {
    var i := NextSlot(p);
    (p.(cursor := i), i)
  }

  /** The indices handed out by `k` successive calls. */
  function Picks(p: Pool, k: nat): (r: seq<nat>)
    requires |p.proxies| > 0
    ensures |r| == k
    ensures forall j :: 0 <= j < k ==> r[j] < |p.proxies|
    decreases k
  {
    if k == 0 then []
    else
      var (p', i) := NextIndex(p);
      [i] + Picks(p', k - 1)
  }

  /** The j-th of successive calls returns `(cursor + 1 + j) % n`. */
  lemma {:induction false} PicksFormula(p: Pool, k: nat)
    requires |p.proxies| > 0
    ensures forall j :: 0 <= j < k ==> Picks(p, k)[j] == (p.cursor + 1 + j) % |p.proxies|
    decreases k
  {
    if k > 0 {
      var n := |p.proxies|;
      var (p', i) := NextIndex(p);
      PicksFormula(p', k - 1);
      forall j | 1 <= j < k ensures Picks(p, k)[j] == (p.cursor + 1 + j) % n {
        assert Picks(p, k)[j] == Picks(p', k - 1)[j - 1];
        Modular.ModOfSum(p.cursor + 1, j, n);
      }
    }
  }

  /** From a fresh pool (cursor -1), n calls return 0, 1, ..., n-1. */
  lemma FreshPoolCycle(p: Pool)
    requires |p.proxies| > 0 && p.cursor == -1
    ensures forall j :: 0 <= j < |p.proxies| ==> Picks(p, |p.proxies|)[j] == j
  {
    var n := |p.proxies|;
    PicksFormula(p, n);
    forall j | 0 <= j < n ensures Picks(p, n)[j] == j {
      Modular.ModUnique(j, n, 0, j);
    }
  }

  /** Any n successive calls on an unchanged pool of size n return each index
      exactly once, whatever the cursor was (even past the end after a shrink). */
  lemma CycleVisitsEachOnce(p: Pool)
    requires |p.proxies| > 0
    ensures forall a, b :: 0 <= a < b < |p.proxies| ==> Picks(p, |p.proxies|)[a] != Picks(p, |p.proxies|)[b]
    ensures forall i :: 0 <= i < |p.proxies| ==> i in Picks(p, |p.proxies|)
  {
    var n := |p.proxies|;
    var r := Picks(p, n);
    PicksFormula(p, n);
    forall a, b | 0 <= a < b < n ensures r[a] != r[b] {
      Modular.DistinctResidues(p.cursor + 1 + a, b - a, n);
    }
    forall i | 0 <= i < n ensures i in r {
      Modular.ResidueReached(p.cursor + 1, i, n);
      var j := (i - (p.cursor + 1)) % n;
      assert r[j] == i;
    }
  }
  // ------------------------------------------------------------- pacing --

  /** The ledger entry of an index; an absent entry counts as tick 0. */
  function LastCommit(p: Pool, idx: nat): int {
    if idx in p.commit then p.commit[idx] else 0
  }

  /** Only entry `idx` of the ledger may differ; list and cursor are kept. */
  ghost predicate OnlyEntryChanged(p: Pool, q: Pool, idx: nat) {
    && q.proxies == p.proxies && q.cursor == p.cursor
    && forall j :: j != idx ==> (j in q.commit <==> j in p.commit) && (j in p.commit ==> q.commit[j] == p.commit[j])
  }

  /** `_wait_until_allowed`: sleep until `last + wait_time` if that is still
      ahead, then commit the clock reading. Returns the new pool and the tick
      at which the caller resumes (the sleep is taken to end exactly on time). */
  function WaitUntilAllowed(p: Pool, cfg: Config, idx: nat, now: int): (r: (Pool, int))
    ensures r.1 >= now && r.1 >= LastCommit(p, idx) + cfg.waitTime
    ensures r.1 == now || r.1 == LastCommit(p, idx) + cfg.waitTime
    ensures idx in r.0.commit && r.0.commit[idx] == r.1
    ensures OnlyEntryChanged(p, r.0, idx)
  {
    var until := LastCommit(p, idx) + cfg.waitTime;
    var remaining := until - now;
    var resume := if remaining > 0 then now + remaining else now;
    (p.(commit := p.commit[idx := resume]), resume)
  }

  /** `_punish_proxy`: keep the index out until `now + timeout`, overriding
      whatever was there. */
  function Punish(p: Pool, cfg: Config, idx: nat, now: int): (r: Pool)
    ensures idx in r.commit && r.commit[idx] == now + cfg.timeout
    ensures OnlyEntryChanged(p, r, idx)
  {
    p.(commit := p.commit[idx := now + cfg.timeout])
  }

  /** Two passes through the gate for one index are at least `wait_time` apart. */
  lemma PacingGap(p: Pool, cfg: Config, idx: nat, now1: int, now2: int)
    ensures var (q, t1) := WaitUntilAllowed(p, cfg, idx, now1);
      WaitUntilAllowed(q, cfg, idx, now2).1 >= t1 + cfg.waitTime
  {
  }

  /** After a punishment the index is not used again before `now + timeout + wait_time`. */
  lemma PunishThenWait(p: Pool, cfg: Config, idx: nat, punishedAt: int, now: int)
    ensures WaitUntilAllowed(Punish(p, cfg, idx, punishedAt), cfg, idx, now).1 >= punishedAt + cfg.timeout + cfg.waitTime
  {
  }

  // ----------------------------------------------------------- dispatch --

  /** The gateway's answer was an exception or an HTTP 429 from the gateway. */
  predicate Refused(t: Transport) {
    t.TransportError? || t.resp.status == 429
  }

  /** `_request_through_proxy`: pick, pace, call, classify. `now` is the
      clock before pacing and `returnedAt` the clock once the call is over. */
  function RequestThroughProxy(p: Pool, cfg: Config, op: Op, now: int, returnedAt: int, gateway: Gateway)
    : (r: (Pool, Option<(Response, nat)>))
    ensures |p.proxies| == 0 ==> r == (p, None)
    ensures r.0.proxies == p.proxies
    ensures |p.proxies| > 0 ==> var idx := NextSlot(p); var t := gateway(p.proxies[idx], op);
      && r.0.cursor == idx
      && (r.1.None? <==> Refused(t))
      && (r.1.Some? ==> r.1.value == (t.resp, idx))
      && idx in r.0.commit
      && (Refused(t) ==> r.0.commit[idx] == returnedAt + cfg.timeout)
      && (!Refused(t) ==> r.0.commit[idx] >= now && r.0.commit[idx] >= LastCommit(p, idx) + cfg.waitTime)
      && OnlyEntryChanged(p.(cursor := idx), r.0, idx)
  {
    if |p.proxies| == 0 then (p, None)
    else
      var (p1, idx) := NextIndex(p);
      var (p2, _) := WaitUntilAllowed(p1, cfg, idx, now);
      match gateway(p2.proxies[idx], op)
      case TransportError => (Punish(p2, cfg, idx, returnedAt), None)
      case Answered(resp) =>
        if resp.status == 429 then (Punish(p2, cfg, idx, returnedAt), None)
        else (p2, Some((resp, idx)))
  }

  /** `ProxyHandler.filesize`: the trimmed body as an integer, only for 200/206. */
  function FileSize(p: Pool, cfg: Config, url: string, now: int, returnedAt: int, gateway: Gateway): (r: (Pool, Option<int>))
    ensures r.0 == RequestThroughProxy(p, cfg, FileSizeOp(url), now, returnedAt, gateway).0
    ensures r.1.Some? <==> (|p.proxies| > 0 &&
      var t := gateway(p.proxies[NextSlot(p)], FileSizeOp(url));
      t.Answered? && t.resp.status in {200, 206} && ParseInt(Strip(t.resp.body)).Some?)
    ensures r.1.Some? ==> r.1 == ParseInt(Strip(gateway(p.proxies[NextSlot(p)], FileSizeOp(url)).resp.body))
  {
    var (q, res) := RequestThroughProxy(p, cfg, FileSizeOp(url), now, returnedAt, gateway);
    match res
    case None => (q, None)
    case Some((resp, _)) =>
      if resp.status in {200, 206} then (q, ParseInt(Strip(resp.body))) else (q, None)
  }

  /** A 200 or 206 answer whose body is a decimal number, perhaps padded
      with whitespace, yields that number; any other status yields nothing. */
  lemma FileSizeReadsBody(p: Pool, cfg: Config, url: string, now: int, returnedAt: int, n: int, pad: string, status: int)
    requires |p.proxies| > 0 && AllSpace(pad)
    ensures var r := FileSize(p, cfg, url, now, returnedAt, (b, o) => Answered(Response(status, pad + IntToString(n) + pad, None)));
      r.1 == (if status in {200, 206} then Some(n) else None)
  {
    var digits := IntToString(n);
    StripPadded(pad, digits, pad);
    ParseIntToString(n);
    StripOfTrimmed(digits);
  }

  /** `ProxyHandler.get`: the raw response, untouched. */
  function GetRaw(p: Pool, cfg: Config, url: string, now: int, returnedAt: int, gateway: Gateway): (r: (Pool, Option<Response>))
    ensures |p.proxies| == 0 ==> r == (p, None)
    ensures |p.proxies| > 0 ==> var t := gateway(p.proxies[NextSlot(p)], RawOp(url));
      && (r.1.Some? <==> t.Answered? && t.resp.status != 429)
      && (r.1.Some? ==> r.1.value == t.resp)
    ensures r.0 == RequestThroughProxy(p, cfg, RawOp(url), now, returnedAt, gateway).0
  {
    var (q, res) := RequestThroughProxy(p, cfg, RawOp(url), now, returnedAt, gateway);
    (q, if res.Some? then Some(res.value.0) else None)
  }

  /** `ProxyHandler.get_filepart`: the response to a request for bytes
      `start..end` inclusive. */
  function GetFilePart(p: Pool, cfg: Config, url: string, start: int, end: int, now: int, returnedAt: int, gateway: Gateway)
    : (r: (Pool, Option<Response>))
    ensures |p.proxies| == 0 ==> r == (p, None)
    ensures |p.proxies| > 0 ==> var t := gateway(p.proxies[NextSlot(p)], FilePartOp(url, start, end));
      && (r.1.Some? <==> t.Answered? && t.resp.status != 429)
      && (r.1.Some? ==> r.1.value == t.resp)
    ensures r.0 == RequestThroughProxy(p, cfg, FilePartOp(url, start, end), now, returnedAt, gateway).0
  {
    var (q, res) := RequestThroughProxy(p, cfg, FilePartOp(url, start, end), now, returnedAt, gateway);
    (q, if res.Some? then Some(res.value.0) else None)
  }

  /** The upstream status the gateway reports in its payload, with Python's
      default of 0 when the key is absent; `None` where `int()` raises. */
  function PayloadStatus(ms: seq<Member>): Option<int> {
    IntOf(match Get(ms, "status_code") case Some(v) => v case None => JNum(0))
  }

  /** `json.loads(response_text)`, falling back to the text itself when it
      does not decode; a decoded `null` is Python's `None`. */
  function DecodedText(text: string, decode: string -> Option<Json>): Option<Json> {
    match decode(text)
    case Some(JNull) => None
    case Some(v) => Some(v)
    case None => Some(JStr(text))
  }

  /** What `get_response` hands back once the payload decoded as an object.
      A `response` that is not text makes `json.loads` raise `TypeError`,
      and the value itself is returned. */
  function PayloadValue(ms: seq<Member>, decode: string -> Option<Json>): Option<Json> {
    if !Truthy(GetOrNull(ms, "success")) then None
    else match GetOrNull(ms, "response")
      case JNull => None
      case JStr(text) => DecodedText(text, decode)
      case other => Some(other)
  }

  /** `ProxyHandler.get_response`. `decode` stands for `json.loads` (`None` on
      a decode error). An `Err` is the `AttributeError` raised when the
      payload is not an object; the `ValueError`/`TypeError` cases give `None`. */
  function GetResponse(p: Pool, cfg: Config, url: string, now: int, returnedAt: int, gateway: Gateway, decode: string -> Option<Json>)
    : (r: (Pool, Result<Option<Json>, string>))
    ensures var (q, res) := RequestThroughProxy(p, cfg, GetResponseOp(url), now, returnedAt, gateway);
      && r.0.proxies == p.proxies && r.0.cursor == q.cursor
      && (res.None? ==> r == (q, Ok(None)))
      && (res.Some? ==> var (resp, idx) := res.value;
            match decode(resp.body)
            case None => r == (q, Ok(None))
            case Some(payload) =>
              && (r.1.Err? <==> !payload.JObj?)
              && (payload.JObj? ==>
                    && (PayloadStatus(payload.members) == Some(429) ==> r.0 == Punish(q, cfg, idx, returnedAt))
                    && (PayloadStatus(payload.members) != Some(429) ==> r.0 == q)
                    && (r.1.Ok? && r.1.value.Some? <==>
                          PayloadStatus(payload.members).Some? && PayloadValue(payload.members, decode).Some?)
                    && (r.1.Ok? && PayloadStatus(payload.members).Some? ==> r.1.value == PayloadValue(payload.members, decode))))
  {
    var (q, res) := RequestThroughProxy(p, cfg, GetResponseOp(url), now, returnedAt, gateway);
    match res
    case None => (q, Ok(None))
    case Some((resp, idx)) =>
      match decode(resp.body)
      case None => (q, Ok(None))
      case Some(payload) =>
        if !payload.JObj? then (q, Err("AttributeError"))
        else
          match PayloadStatus(payload.members)
          case None => (q, Ok(None))
          case Some(status) =>
            var q' := if status == 429 then Punish(q, cfg, idx, returnedAt) else q;
            (q', Ok(PayloadValue(payload.members, decode)))
  }

  /** Any payload with an integer status, a truthy `success` and a text
      `response`, fetched through a proxy that answered: the text decoded,
      `None` when it decodes to `null`, and the text itself when it does
      not decode. */
  lemma GetResponseText(p: Pool, cfg: Config, url: string, now: int, returnedAt: int, gateway: Gateway,
                        decode: string -> Option<Json>, ms: seq<Member>, text: string)
    requires |p.proxies| > 0
    requires var t := gateway(p.proxies[NextSlot(p)], GetResponseOp(url));
      t.Answered? && t.resp.status != 429 && decode(t.resp.body) == Some(JObj(ms))
    requires PayloadStatus(ms).Some? && Truthy(GetOrNull(ms, "success")) && GetOrNull(ms, "response") == JStr(text)
    ensures var v := GetResponse(p, cfg, url, now, returnedAt, gateway, decode).1;
      && (decode(text).Some? && decode(text) != Some(JNull) ==> v == Ok(decode(text)))
      && (decode(text) == Some(JNull) ==> v == Ok(None))
      && (decode(text).None? ==> v == Ok(Some(JStr(text))))
  {
  }

  /** The gateway stub of the round-trip scenario: every payload says
      `{"status_code":200,"success":true,"response":"{\"a\":1}"}`. */
  lemma GetResponseStub(p: Pool, cfg: Config, now: int, returnedAt: int, decode: string -> Option<Json>, body: string, inner: string, v: Json)
    requires |p.proxies| > 0
    requires decode(body) == Some(JObj([Member("status_code", JNum(200)), Member("success", JBool(true)), Member("response", JStr(inner))]))
    requires decode(inner) == Some(v) && v != JNull
    ensures var r := GetResponse(p, cfg, "u", now, returnedAt, (b, o) => Answered(Response(200, body, None)), decode);
      r.1 == Ok(Some(v)) && r.0.cursor == NextSlot(p)
  {
    StubFields(inner);
  }

  lemma StubFields(inner: string)
    ensures var ms := [Member("status_code", JNum(200)), Member("success", JBool(true)), Member("response", JStr(inner))];
      && Get(ms, "status_code") == Some(JNum(200))
      && Get(ms, "success") == Some(JBool(true))
      && Get(ms, "response") == Some(JStr(inner))
  {
    var ms := [Member("status_code", JNum(200)), Member("success", JBool(true)), Member("response", JStr(inner))];
    assert ms[..2][..1] == ms[..1] && ms[..1][..0] == [];
    assert Get(ms[..1], "status_code") == Some(JNum(200));
    assert Get(ms[..2], "status_code") == Some(JNum(200));
  }

  // ------------------------------------------------------- health check --

  /** `_check_single`: healthy when the bare base URL answers 200 or 206. */
  predicate Healthy(t: Transport) {
    t.Answered? && t.resp.status in {200, 206}
  }

  datatype CheckError =
    | ProxiesNotWorking   // raise_exception was set and some proxy failed
    | NoProxiesLeft       // every proxy failed

  /** The entries of `xs` at indices `i..` that are not in `failed`, in order. */
  function KeepFrom<T>(xs: seq<T>, failed: set<nat>, i: nat): (r: seq<T>)
    requires i <= |xs|
    ensures |r| <= |xs| - i
    decreases |xs| - i
  {
    if i == |xs| then []
    else if i in failed then KeepFrom(xs, failed, i + 1)
    else [xs[i]] + KeepFrom(xs, failed, i + 1)
  }

  /** The indices `i..n-1` not in `failed`, ascending. */
  function KeptIndices(n: nat, failed: set<nat>, i: nat): (r: seq<nat>)
    requires i <= n
    ensures forall k :: 0 <= k < |r| ==> i <= r[k] < n && r[k] !in failed
    ensures forall j :: i <= j < n && j !in failed ==> j in r
    ensures forall a, b :: 0 <= a < b < |r| ==> r[a] < r[b]
    decreases n - i
  {
    if i == n then []
    else if i in failed then KeptIndices(n, failed, i + 1)
    else
      var rest := KeptIndices(n, failed, i + 1);
      assert forall k :: 0 <= k < |rest| ==> i < rest[k];
      [i] + rest
  }

  /** The survivors are exactly the entries at the surviving indices, in
      ascending index order: removal keeps the survivors' relative order. */
  lemma {:induction false} SurvivorsInOrder<T>(xs: seq<T>, failed: set<nat>, i: nat)
    requires i <= |xs|
    ensures var r := KeepFrom(xs, failed, i); var ix := KeptIndices(|xs|, failed, i);
      |r| == |ix| && forall k :: 0 <= k < |r| ==> r[k] == xs[ix[k]]
    decreases |xs| - i
  {
    if i < |xs| {
      SurvivorsInOrder(xs, failed, i + 1);
      var rest := KeepFrom(xs, failed, i + 1);
      var restIx := KeptIndices(|xs|, failed, i + 1);
      if i !in failed {
        var r := KeepFrom(xs, failed, i);
        var ix := KeptIndices(|xs|, failed, i);
        assert r == [xs[i]] + rest && ix == [i] + restIx;
        forall k | 0 < k < |r| ensures r[k] == xs[ix[k]] {
          assert r[k] == rest[k - 1] && ix[k] == restIx[k - 1];
        }
      }
    }
  }

  /** `del xs[idx]` for every failed index, largest first. The loop walks all
      indices downwards and deletes the failed ones, which is the same order. */
  method RemoveDescending(xs: seq<string>, failed: set<nat>) returns (cur: seq<string>)
    ensures cur == KeepFrom(xs, failed, 0)
  {
    cur := xs;
    var i := |xs|;
    while i > 0
      invariant 0 <= i <= |xs|
      invariant cur == xs[..i] + KeepFrom(xs, failed, i)
      decreases i
    {
      i := i - 1;
      if i in failed {
        assert cur[..i] == xs[..i];
        assert cur[i + 1..] == KeepFrom(xs, failed, i + 1);
        cur := cur[..i] + cur[i + 1..];
      } else {
        assert xs[..i + 1] == xs[..i] + [xs[i]];
      }
    }
  }

  /** `ProxyHandler.check`: probe every base URL, delete the failed ones, then
      raise if asked to and something failed, or if nothing is left. The list
      is already shrunk when it raises. `failed` is returned as a set: the
      source lists it in completion order. */
  method Check(p: Pool, gateway: Gateway, raiseException: bool) returns (q: Pool, outcome: Result<set<nat>, CheckError>)
    ensures var failed := set i | 0 <= i < |p.proxies| && !Healthy(gateway(p.proxies[i], HealthOp));
      && q.proxies == KeepFrom(p.proxies, failed, 0)
      && q.cursor == p.cursor && q.commit == p.commit
      && (outcome == Err(ProxiesNotWorking) <==> raiseException && failed != {})
      && (outcome == Err(NoProxiesLeft) <==> !(raiseException && failed != {}) && q.proxies == [])
      && (outcome.Ok? ==> outcome.value == failed && |q.proxies| > 0)
  {
    var failed := set i | 0 <= i < |p.proxies| && !Healthy(gateway(p.proxies[i], HealthOp));
    var survivors := RemoveDescending(p.proxies, failed);
    q := p.(proxies := survivors);
    if raiseException && failed != {} {
      outcome := Err(ProxiesNotWorking);
    } else if survivors == [] {
      outcome := Err(NoProxiesLeft);
    } else {
      outcome := Ok(failed);
    }
  }

  /** Three proxies where index 1 fails: the check reports {1} and two remain. */
  lemma CheckScenario(p: Pool, gateway: Gateway)
    requires |p.proxies| == 3
    requires Healthy(gateway(p.proxies[0], HealthOp)) && Healthy(gateway(p.proxies[2], HealthOp))
    requires !Healthy(gateway(p.proxies[1], HealthOp))
    ensures var failed := set i | 0 <= i < |p.proxies| && !Healthy(gateway(p.proxies[i], HealthOp));
      failed == {1} && KeepFrom(p.proxies, failed, 0) == [p.proxies[0], p.proxies[2]]
  {
    var failed := set i | 0 <= i < |p.proxies| && !Healthy(gateway(p.proxies[i], HealthOp));
    assert 1 in failed;
    assert forall i :: i in failed ==> i == 1;
    var xs := p.proxies;
    assert KeepFrom(xs, failed, 2) == [xs[2]] + KeepFrom(xs, failed, 3);
    assert KeepFrom(xs, failed, 1) == KeepFrom(xs, failed, 2);
    assert KeepFrom(xs, failed, 0) == [xs[0]] + KeepFrom(xs, failed, 1);
  }
}
