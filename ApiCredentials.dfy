/**
 * Discovery of the tariff API's base URL and subscription key: scraping the public
 * contract page for the versioned `epi-es2015.js` script, extracting two quoted values
 * from that script, and falling back to (and updating) the last known pair kept in
 * the settings.
 */
module ApiCredentials {
  import opened Wrappers

  datatype Credentials = Credentials(apiBaseUrl: string, apiKey: string)

  /** The outcome of `HttpClient.GetStringAsync(url)`: the response text, or an exception (failure status, timeout, no connection). */
  datatype Fetch = Body(text: string) | Unreachable

  /** Why `GetApiUrlAndKeyAsync` throws. */
  datatype ResolveError =
    | PageUnavailable      // fetching the scrape page threw
    | ScriptUrlNotFound    // no script URL, or not a well-formed absolute URI
    | ScriptUnavailable    // fetching the script threw
    | BaseUrlNotFound      // blank API base URL
    | KeyNotFound          // blank API key

  const DefaultScrapePageUrl: string := "https://www.vattenfall.nl/klantenservice/alles-over-je-dynamische-contract/"

  // The two longest literals are written in two parts: the verifier reads characters of a
  // literal of this length only through the concatenation.
  const ScriptUrlPrefix: string := "https://cdn.vattenfall.nl" + "/vattenfallnlprd/features/epi/"
  const ScriptFileName: string := "/epi-es2015.js"
  /** Literal text of `EpiScriptRegex` before the free path segment, and after it. */
  const ScriptTagStart: string := "src=\"" + ScriptUrlPrefix
  const ScriptTagEnd: string := ScriptFileName + "\""

  /** Literal text of `ApiBaseUrlRegex` and `TariffApiKeyRegex` before their captured group. */
  const BaseUrlPattern: string := "dynamicTariffsBaseApiURL:\""
  const ApiKeyPattern: string := "ocpApimSubscriptionFeatures" + "DynamicTariffsKey:\""

  // ---------------------------------------------------------------------------
  // Text helpers
  // ---------------------------------------------------------------------------

  predicate OccursAt(text: string, pat: string, i: int) {
    0 <= i && i + |pat| <= |text| && text[i..i + |pat|] == pat
  }

  predicate IsFirstOccurrence(text: string, pat: string, i: int) {
    OccursAt(text, pat, i) && forall k :: 0 <= k < i ==> !OccursAt(text, pat, k)
  }

  /** The leftmost position at or after `from` where `pat` occurs in `text`. */
  function IndexOf(text: string, pat: string, from: nat): (r: Option<nat>)
    ensures r.Some? ==> from <= r.value && OccursAt(text, pat, r.value)
    ensures r.Some? ==> forall k :: from <= k < r.value ==> !OccursAt(text, pat, k)
    ensures r.None? ==> forall k :: from <= k ==> !OccursAt(text, pat, k)
    decreases |text| - from
  {
    if from + |pat| > |text| then None
    else if text[from..from + |pat|] == pat then Some(from)
    else IndexOf(text, pat, from + 1)
  }

  /** The longest prefix of `s` that does not contain `c` (what `[^c]*` matches greedily). */
  function TakeUntil(s: string, c: char): (r: string)
    ensures |r| <= |s| && r == s[..|r|]
    ensures c !in r
    ensures |r| == |s| || s[|r|] == c
  {
    if s == [] || s[0] == c then []
    else [s[0]] + TakeUntil(s[1..], c)
  }

  /** `s.TrimEnd(c)`: `s` without all trailing copies of `c`. */
  function TrimEnd(s: string, c: char): (r: string)
    ensures |r| <= |s| && r == s[..|r|]
    ensures r == [] || r[|r| - 1] != c
    ensures forall i :: |r| <= i < |s| ==> s[i] == c
  {
    if s == [] || s[|s| - 1] != c then s
    else TrimEnd(s[..|s| - 1], c)
  }

  /** `char.IsWhiteSpace`: the Unicode space, line and paragraph separators, and the controls U+0009 to U+000D and U+0085. */
  predicate IsWhiteSpace(c: char) {
    || c == ' ' || ('\t' <= c <= '\r') || c == '\U{0085}' || c == '\U{00A0}' || c == '\U{1680}'
    || ('\U{2000}' <= c <= '\U{200A}') || c == '\U{2028}' || c == '\U{2029}' || c == '\U{202F}'
    || c == '\U{205F}' || c == '\U{3000}'
  }

  /** `string.IsNullOrWhiteSpace` (a failed regex group is the empty string, never null). */
  predicate IsNullOrWhiteSpace(s: string)
    ensures s == [] ==> IsNullOrWhiteSpace(s)
    ensures (exists k :: 0 <= k < |s| && !IsWhiteSpace(s[k])) ==> !IsNullOrWhiteSpace(s)
  {
    forall i :: 0 <= i < |s| ==> IsWhiteSpace(s[i])
  }

  // ---------------------------------------------------------------------------
  // The three regular expressions
  // ---------------------------------------------------------------------------

  /** `v` starts at position `j` of `text`, holds no quote, and ends at the end of `text` or at a quote. */
  predicate QuotedValueAt(text: string, j: int, v: string) {
    && 0 <= j && j + |v| <= |text| && text[j..j + |v|] == v
    && '"' !in v
    && (j + |v| == |text| || text[j + |v|] == '"')
  }

  /**
   * Group value of the first match of `name:"(?<g>[^"]*)` in `text`, where `pat` is
   * `name:"`: the quote-free run after the first occurrence of `pat`, or "" when
   * `pat` does not occur.
   */
  function ExtractQuoted(text: string, pat: string): (r: string)
    ensures (forall k :: !OccursAt(text, pat, k)) ==> r == ""
    ensures forall i :: IsFirstOccurrence(text, pat, i) ==> QuotedValueAt(text, i + |pat|, r)
  {
    match IndexOf(text, pat, 0)
    case None => ""
    case Some(i) =>
      var v := TakeUntil(text[i + |pat|..], '"');
      assert forall i' :: IsFirstOccurrence(text, pat, i') ==> i' == i;
      v
  }

  /**
   * A match of `EpiScriptRegex` starting at position `i` of the page: `src="`, the fixed
   * CDN prefix, one path segment without `/`, then `/epi-es2015.js"`. The segment is the
   * whole run of non-`/` characters, since only a `/` may follow it. Gives the `url` group.
   */
  function ScriptUrlAt(html: string, i: int): (r: Option<string>)
    ensures r.Some? ==> exists segment :: '/' !in segment && r.value == ScriptUrlPrefix + segment + ScriptFileName
  {
    if !OccursAt(html, ScriptTagStart, i) then None
    else
      var rest := html[i + |ScriptTagStart|..];
      var segment := TakeUntil(rest, '/');
      if OccursAt(rest, ScriptTagEnd, |segment|) then Some(ScriptUrlPrefix + segment + ScriptFileName)
      else None
  }

  /** The leftmost match of `EpiScriptRegex` at or after `from`. */
  function FirstScriptUrl(html: string, from: nat): (r: Option<string>)
    ensures r.None? ==> forall k :: from <= k ==> ScriptUrlAt(html, k).None?
    ensures r.Some? ==> exists i :: from <= i && ScriptUrlAt(html, i) == r
                           && forall k :: from <= k < i ==> ScriptUrlAt(html, k).None?
    decreases |html| - from
  {
    if from + |ScriptTagStart| > |html| then None
    else if ScriptUrlAt(html, from).Some? then ScriptUrlAt(html, from)
    else FirstScriptUrl(html, from + 1)
  }

  /** `EpiScriptRegex().Match(html).Groups["url"].Value`. */
  function ScriptUrl(html: string): (url: string)
    ensures url == "" <==> forall k :: ScriptUrlAt(html, k).None?
    ensures url != "" ==> exists segment :: '/' !in segment && url == ScriptUrlPrefix + segment + ScriptFileName
  {
    match FirstScriptUrl(html, 0)
    case None => ""
    case Some(u) => u
  }

  // ---------------------------------------------------------------------------
  // Resolution
  // ---------------------------------------------------------------------------

  /** What resolution accepts: a non-blank base URL that does not end in `/`, and a non-blank key. */
  predicate ValidCredentials(c: Credentials) {
    && c.apiBaseUrl != [] && c.apiBaseUrl[|c.apiBaseUrl| - 1] != '/'
    && !IsNullOrWhiteSpace(c.apiBaseUrl) && !IsNullOrWhiteSpace(c.apiKey)
  }

  /** The part of `GetApiUrlAndKeyAsync` that reads the script text: the base URL and the key, each checked for blankness. */
  function ParseScript(js: string): (r: Result<Credentials, ResolveError>)
    ensures r.Success? <==> !IsNullOrWhiteSpace(TrimEnd(ExtractQuoted(js, BaseUrlPattern), '/'))
                            && !IsNullOrWhiteSpace(ExtractQuoted(js, ApiKeyPattern))
    ensures r.Failure? ==> r.error == BaseUrlNotFound || r.error == KeyNotFound
    ensures r.Success? ==> ValidCredentials(r.value)
  {
    var apiBaseUrl := TrimEnd(ExtractQuoted(js, BaseUrlPattern), '/');
    if IsNullOrWhiteSpace(apiBaseUrl) then Failure(BaseUrlNotFound)
    else
      var apiKey := ExtractQuoted(js, ApiKeyPattern);
      if IsNullOrWhiteSpace(apiKey) then Failure(KeyNotFound)
      else Success(Credentials(apiBaseUrl, apiKey))
  }

  /**
   * What `GetApiUrlAndKeyAsync` computes, apart from storing the pair: `web` stands for the
   * HTTP client (page and script fetches), `wellFormed` for `Uri.IsWellFormedUriString(_, Absolute)`.
   */
  function Resolve(pageUrl: string, web: string -> Fetch, wellFormed: string -> bool): (r: Result<Credentials, ResolveError>)
    ensures r == Failure(PageUnavailable) <==> web(pageUrl).Unreachable?
    ensures r.Success? ==> ValidCredentials(r.value)
  {
    match web(pageUrl)
    case Unreachable => Failure(PageUnavailable)
    case Body(html) =>
      var scriptUrl := ScriptUrl(html);
      if IsNullOrWhiteSpace(scriptUrl) || !wellFormed(scriptUrl) then Failure(ScriptUrlNotFound)
      else match web(scriptUrl)
        case Unreachable => Failure(ScriptUnavailable)
        case Body(js) => ParseScript(js)
  }

  /**
   * Resolution succeeds only after the page was fetched, a script URL was found on it and
   * judged well formed, and that script was fetched; the pair is then read from the script alone.
   */
  lemma ResolvedFromPageScript(pageUrl: string, web: string -> Fetch, wellFormed: string -> bool)
    requires Resolve(pageUrl, web, wellFormed).Success?
    ensures web(pageUrl).Body?
    ensures var scriptUrl := ScriptUrl(web(pageUrl).text);
      && scriptUrl != "" && !IsNullOrWhiteSpace(scriptUrl) && wellFormed(scriptUrl)
      && web(scriptUrl).Body?
      && Resolve(pageUrl, web, wellFormed) == ParseScript(web(scriptUrl).text)
  {
  }

  /** A non-empty extracted value sits right after the first occurrence of its pattern. */
  lemma ExtractedValueLocated(text: string, pat: string)
    requires ExtractQuoted(text, pat) != ""
    ensures exists i :: IsFirstOccurrence(text, pat, i) && QuotedValueAt(text, i + |pat|, ExtractQuoted(text, pat))
  {
    var i := IndexOf(text, pat, 0);
    assert i.Some?;
    assert IsFirstOccurrence(text, pat, i.value);
  }

  /** A pair accepted from script text has a non-blank, quote-free base URL without a trailing `/`, and a non-blank, quote-free key. */
  lemma ParsedIsValid(js: string)
    requires ParseScript(js).Success?
    ensures var c := ParseScript(js).value;
      && !IsNullOrWhiteSpace(c.apiBaseUrl) && !IsNullOrWhiteSpace(c.apiKey)
      && c.apiBaseUrl[|c.apiBaseUrl| - 1] != '/'
      && '"' !in c.apiBaseUrl && '"' !in c.apiKey
  {
    var raw := ExtractQuoted(js, BaseUrlPattern);
    var c := ParseScript(js).value;
    assert c.apiBaseUrl == TrimEnd(raw, '/') && c.apiKey == ExtractQuoted(js, ApiKeyPattern);
    ExtractedValueLocated(js, BaseUrlPattern);
    ExtractedValueLocated(js, ApiKeyPattern);
  }

  /** `v` is `base` followed by nothing but `/` characters. */
  predicate TrailingSlashes(v: string, base: string) {
    base <= v && forall k :: |base| <= k < |v| ==> v[k] == '/'
  }

  /**
   * The base URL accepted from script text is the quoted value after the first
   * `dynamicTariffsBaseApiURL:"`, less its trailing slashes.
   */
  lemma ParsedBaseUrlFromScript(js: string)
    requires ParseScript(js).Success?
    ensures var c := ParseScript(js).value;
      exists i, v :: IsFirstOccurrence(js, BaseUrlPattern, i) && QuotedValueAt(js, i + |BaseUrlPattern|, v)
                     && TrailingSlashes(v, c.apiBaseUrl)
  {
    var raw := ExtractQuoted(js, BaseUrlPattern);
    var base := ParseScript(js).value.apiBaseUrl;
    assert base == TrimEnd(raw, '/');
    ExtractedValueLocated(js, BaseUrlPattern);
    assert TrailingSlashes(raw, base);
  }

  /** The key accepted from script text is the quoted value after the first `ocpApimSubscriptionFeaturesDynamicTariffsKey:"`. */
  lemma ParsedKeyFromScript(js: string)
    requires ParseScript(js).Success?
    ensures exists i :: IsFirstOccurrence(js, ApiKeyPattern, i)
                        && QuotedValueAt(js, i + |ApiKeyPattern|, ParseScript(js).value.apiKey)
  {
    assert ParseScript(js).value.apiKey == ExtractQuoted(js, ApiKeyPattern);
    ExtractedValueLocated(js, ApiKeyPattern);
  }

  /**
   * `ParseScript` rejects exactly the blank values, and a script whose base URL (less its
   * trailing slashes) and key are both non-blank is accepted with exactly those values.
   */
  lemma ParseScriptOutcome(js: string)
    ensures var base := TrimEnd(ExtractQuoted(js, BaseUrlPattern), '/');
            var key := ExtractQuoted(js, ApiKeyPattern);
      && (IsNullOrWhiteSpace(base) ==> ParseScript(js) == Failure(BaseUrlNotFound))
      && (!IsNullOrWhiteSpace(base) && IsNullOrWhiteSpace(key) ==> ParseScript(js) == Failure(KeyNotFound))
      && (!IsNullOrWhiteSpace(base) && !IsNullOrWhiteSpace(key) ==> ParseScript(js) == Success(Credentials(base, key)))
  {
  }

  /**
   * Once the page is fetched, a non-blank, well-formed script URL is found on it and that
   * script is fetched, resolution is decided by the script text alone.
   */
  lemma ResolveReachesScript(pageUrl: string, web: string -> Fetch, wellFormed: string -> bool)
    requires web(pageUrl).Body?
    requires var scriptUrl := ScriptUrl(web(pageUrl).text);
      !IsNullOrWhiteSpace(scriptUrl) && wellFormed(scriptUrl) && web(scriptUrl).Body?
    ensures Resolve(pageUrl, web, wellFormed) == ParseScript(web(ScriptUrl(web(pageUrl).text)).text)
  {
  }

  /** At most one quote-free value starts at `j` and ends at a quote or at the end of the text. */
  lemma QuotedValueUnique(text: string, j: int, v: string, w: string)
    requires QuotedValueAt(text, j, v) && QuotedValueAt(text, j, w)
    ensures v == w
  {
  }

  /** The group of the regex is the quote-free value right after the first occurrence of the pattern. */
  lemma ExtractQuotedAt(text: string, pat: string, i: int, v: string)
    requires IsFirstOccurrence(text, pat, i) && QuotedValueAt(text, i + |pat|, v)
    ensures ExtractQuoted(text, pat) == v
  {
    QuotedValueUnique(text, i + |pat|, ExtractQuoted(text, pat), v);
  }

  /** A pattern cannot occur where its first character does not appear. */
  lemma NoOccurrenceBefore(text: string, pat: string, end: int)
    requires 0 < |pat| && 0 <= end <= |text|
    requires pat[0] !in text[..end]
    ensures forall k :: 0 <= k < end ==> !OccursAt(text, pat, k)
  {
    forall k | 0 <= k < end
      ensures !OccursAt(text, pat, k)
    {
      assert text[..end][k] == text[k];
    }
  }

  /** `[^c]*` stops at the first `c`. */
  lemma TakeUntilStops(a: string, b: string, c: char)
    requires c !in a && 0 < |b| && b[0] == c
    ensures TakeUntil(a + b, c) == a
  {
    // Every character of `a` differs from `c`, and the one after `a` is `c`.
    assert forall i :: 0 <= i < |a| ==> (a + b)[i] == a[i];
    assert (a + b)[|a|] == c;
    assert (a + b)[..|a|] == a;
  }

  /** A page that consists of the script tag yields that script's URL, which is not blank. */
  lemma ScriptUrlOfPage(segment: string)
    requires '/' !in segment
    ensures ScriptUrl(ScriptTagStart + segment + ScriptTagEnd) == ScriptUrlPrefix + segment + ScriptFileName
    ensures !IsNullOrWhiteSpace(ScriptUrlPrefix + segment + ScriptFileName)
  {
    var url := ScriptUrlPrefix + segment + ScriptFileName;
    ScriptUrlOfTag(segment, []);
    assert ScriptTagStart + segment + ScriptTagEnd + [] == ScriptTagStart + segment + ScriptTagEnd;
    assert url[0] == 'h';
  }

  /** A page that starts with the script tag yields that script's URL. */
  lemma ScriptUrlOfTag(segment: string, tail: string)
    requires '/' !in segment
    ensures ScriptUrl(ScriptTagStart + segment + ScriptTagEnd + tail) == ScriptUrlPrefix + segment + ScriptFileName
  {
    var page := ScriptTagStart + segment + ScriptTagEnd + tail;
    assert page[..|ScriptTagStart|] == ScriptTagStart;
    var rest := page[|ScriptTagStart|..];
    assert rest == segment + (ScriptTagEnd + tail);
    TakeUntilStops(segment, ScriptTagEnd + tail, '/');
    assert rest[|segment|..|segment| + |ScriptTagEnd|] == ScriptTagEnd;
  }

  /** After text free of the pattern's first character, the pattern and a quote-free value ended by a quote or the end give that value. */
  lemma ValueAfterPattern(front: string, pat: string, v: string, tail: string)
    requires 0 < |pat| && pat[0] !in front && '"' !in v && (tail == [] || tail[0] == '"')
    ensures ExtractQuoted(front + pat + v + tail, pat) == v
  {
    var text := front + pat + v + tail;
    var i := |front|;
    assert text[..i] == front;
    NoOccurrenceBefore(text, pat, i);
    assert text[i..i + |pat|] == pat;
    assert text[i + |pat|..i + |pat| + |v|] == v;
    ExtractQuotedAt(text, pat, i, v);
  }

  /** Two quoted entries in a row: each value is found after its own pattern. */
  lemma TwoValues(p1: string, v1: string, p2: string, v2: string)
    requires 0 < |p1| && 0 < |p2| && '"' !in v1 && '"' !in v2
    requires p2[0] !in p1 + v1 + "\""
    ensures ExtractQuoted(p1 + v1 + "\"" + p2 + v2 + "\"", p1) == v1
    ensures ExtractQuoted(p1 + v1 + "\"" + p2 + v2 + "\"", p2) == v2
  {
    var tail := "\"" + p2 + v2 + "\"";
    assert p1 + v1 + "\"" + p2 + v2 + "\"" == [] + p1 + v1 + tail;
    ValueAfterPattern([], p1, v1, tail);
    ValueAfterPattern(p1 + v1 + "\"", p2, v2, "\"");
  }

  /** In a script holding `dynamicTariffsBaseApiURL:"base"` and then the key entry, both values are found. */
  lemma ScriptValues(base: string, key: string)
    requires '"' !in base && '"' !in key && 'o' !in base
    ensures var script := BaseUrlPattern + base + "\"" + ApiKeyPattern + key + "\"";
      ExtractQuoted(script, BaseUrlPattern) == base && ExtractQuoted(script, ApiKeyPattern) == key
  {
    assert forall k | 0 <= k < |BaseUrlPattern| :: BaseUrlPattern[k] != 'o';
    TwoValues(BaseUrlPattern, base, ApiKeyPattern, key);
  }

  /** A script holding a non-blank base URL and key, each quoted after its pattern, is accepted. */
  lemma ParseScriptOfEntries(base: string, key: string)
    requires '"' !in base && '"' !in key && 'o' !in base
    requires !IsNullOrWhiteSpace(TrimEnd(base, '/')) && !IsNullOrWhiteSpace(key)
    ensures ParseScript(BaseUrlPattern + base + "\"" + ApiKeyPattern + key + "\"") == Success(Credentials(TrimEnd(base, '/'), key))
  {
    ScriptValues(base, key);
    ParseScriptOutcome(BaseUrlPattern + base + "\"" + ApiKeyPattern + key + "\"");
  }

  /**
   * Success is reachable: a page starting with the script tag, a well-formed script URL, and
   * a script holding a non-blank base URL and key resolve to the base URL less its trailing
   * slashes and the key.
   */
  lemma ResolveAcceptsScrapedPair(pageUrl: string, web: string -> Fetch, wellFormed: string -> bool,
                                  segment: string, base: string, key: string)
    requires '/' !in segment && '"' !in base && '"' !in key && 'o' !in base
    requires web(pageUrl) == Body(ScriptTagStart + segment + ScriptTagEnd)
    requires wellFormed(ScriptUrlPrefix + segment + ScriptFileName)
    requires web(ScriptUrlPrefix + segment + ScriptFileName) == Body(BaseUrlPattern + base + "\"" + ApiKeyPattern + key + "\"")
    requires !IsNullOrWhiteSpace(TrimEnd(base, '/')) && !IsNullOrWhiteSpace(key)
    ensures Resolve(pageUrl, web, wellFormed) == Success(Credentials(TrimEnd(base, '/'), key))
  {
    ScriptUrlOfPage(segment);
    ResolveReachesScript(pageUrl, web, wellFormed);
    ParseScriptOfEntries(base, key);
  }

  /** The settings object the resolver reads and, on success, updates. */
  class Settings {
    var useKnownValues: bool
    var scrapePageUrl: string
    var knownApiBaseUrl: string
    var knownApiKey: string

    /** The defaults of `SettingsData`. */
    constructor ()
      ensures !useKnownValues && scrapePageUrl == DefaultScrapePageUrl
      ensures knownApiBaseUrl == "" && knownApiKey == ""
    {
      useKnownValues := false;
      scrapePageUrl := DefaultScrapePageUrl;
      knownApiBaseUrl := "";
      knownApiKey := "";
    }

    function Known(): Credentials
      reads this
    {
      Credentials(knownApiBaseUrl, knownApiKey)
    }
  }

  /** `GetApiUrlAndKeyAsync`: resolve from the scrape page; on success, overwrite the known pair with the result. */
  method GetApiUrlAndKey(settings: Settings, web: string -> Fetch, wellFormed: string -> bool)
    returns (r: Result<Credentials, ResolveError>)
    modifies settings`knownApiBaseUrl, settings`knownApiKey
    ensures r == Resolve(old(settings.scrapePageUrl), web, wellFormed)
    ensures r.Success? ==> settings.Known() == r.value
    ensures r.Failure? ==> settings.Known() == old(settings.Known())
  {
    r := Resolve(settings.scrapePageUrl, web, wellFormed);
    if r.Success? {
      settings.knownApiBaseUrl := r.value.apiBaseUrl;
      settings.knownApiKey := r.value.apiKey;
    }
  }

  /**
   * The pair `TryGetApiUrlAndKeyAsync` returns: the known pair when `UseKnownValues` is
   * set or when dynamic resolution fails, otherwise the resolved pair.
   */
  function ResolveOrFallback(useKnownValues: bool, known: Credentials, pageUrl: string,
                             web: string -> Fetch, wellFormed: string -> bool): (c: Credentials)
    ensures useKnownValues ==> c == known
    ensures c == known || Resolve(pageUrl, web, wellFormed) == Success(c)
  {
    if useKnownValues then known
    else match Resolve(pageUrl, web, wellFormed)
      case Success(c) => c
      case Failure(_) => known
  }

  /** `TryGetApiUrlAndKeyAsync`: never fails; afterwards the stored known pair is the pair it returned. */
  method TryGetApiUrlAndKey(settings: Settings, web: string -> Fetch, wellFormed: string -> bool)
    returns (c: Credentials)
    modifies settings`knownApiBaseUrl, settings`knownApiKey
    ensures c == ResolveOrFallback(old(settings.useKnownValues), old(settings.Known()),
                                   old(settings.scrapePageUrl), web, wellFormed)
    ensures settings.Known() == c
  {
    if settings.useKnownValues {
      return settings.Known();
    }
    var r := GetApiUrlAndKey(settings, web, wellFormed);
    match r {
      case Success(resolved) => c := resolved;
      case Failure(_) => c := settings.Known();
    }
  }

  /** With `UseKnownValues` set, the known pair comes back whatever the network would answer. */
  lemma KnownValuesShortCircuit(known: Credentials, pageUrl: string, web: string -> Fetch, wellFormed: string -> bool)
    ensures ResolveOrFallback(true, known, pageUrl, web, wellFormed) == known
  {
  }

  /** Without `UseKnownValues`, a successful resolution is what comes back. */
  lemma ResolvedPairReturned(known: Credentials, pageUrl: string, web: string -> Fetch, wellFormed: string -> bool)
    requires Resolve(pageUrl, web, wellFormed).Success?
    ensures ResolveOrFallback(false, known, pageUrl, web, wellFormed) == Resolve(pageUrl, web, wellFormed).value
  {
  }

  /** Any failure of dynamic resolution yields the current known pair. */
  lemma FallbackOnFailure(known: Credentials, pageUrl: string, web: string -> Fetch, wellFormed: string -> bool)
    requires Resolve(pageUrl, web, wellFormed).Failure?
    ensures ResolveOrFallback(false, known, pageUrl, web, wellFormed) == known
  {
  }
}
