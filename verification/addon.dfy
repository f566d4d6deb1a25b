/** The stream handler (addon.js): builds the search text from the requested id, searches
    Webshare, resolves a link for each of the first ten results in order, and turns every
    resolved result into a stream entry. */
module Addon {
  import opened Wrappers
  import opened Text
  import opened JsNumbers
  import opened Webshare
  import opened Sequential

  /** The handler's `config`: the device's Webshare token ("" when the key is missing). */
  datatype Config = Config(wstToken: string)

  /** One entry of the `streams` answer. */
  datatype Stream = Stream(url: string, title: string, name: string)

  /** What the handler produces: the streams, or a rejection when it throws (a series id
      with fewer than three `:`-separated parts). */
  datatype HandlerOutcome = Streams(streams: seq<Stream>) | Rejected

  const ProviderName: string := "Webshare"

  /** At most this many search results get a link lookup (`results.slice(0, 10)`). */
  const MaxAttempts: nat := 10

  /** `String.prototype.padStart(2, '0')`. */
  function Pad2(s: string): string {
    PadStart(s, 2, '0')
  }

  /** The search text: the id up to its first `:` for a movie; `<imdb> S<ss>E<ee>` for a
      series, with season and episode zero-padded to two characters. None stands for the
      TypeError a series id with fewer than three parts raises. */
  function BuildQuery(kind: string, id: string): (q: Option<string>)
    ensures kind != "series" ==> q.Some? && ':' !in q.value && |q.value| <= |id| && id[..|q.value|] == q.value
    ensures kind != "series" ==> |q.value| == |id| || id[|q.value|] == ':'
    ensures kind == "series" ==> (q.Some? <==> |Split(id, ':')| >= 3)
  {
    var parts := Split(id, ':');
    if kind != "series" then
      SplitFirstPart(id, ':');
      Some(parts[0])
    else if |parts| < 3 then None
    else Some(parts[0] + " S" + Pad2(parts[1]) + "E" + Pad2(parts[2]))
  }

  /** A series id built from three colon-free parts yields `<imdb> S<season>E<episode>`
      with both numbers padded to two characters. */
  lemma SeriesQuery(imdb: string, season: string, episode: string)
    requires ':' !in imdb && ':' !in season && ':' !in episode
    ensures BuildQuery("series", imdb + [':'] + season + [':'] + episode)
      == Some(imdb + " S" + Pad2(season) + "E" + Pad2(episode))
  {
    var rest := season + [':'] + episode;
    assert imdb + [':'] + season + [':'] + episode == imdb + [':'] + rest;
    SplitAtFirstSeparator(imdb, rest, ':');
    SplitAtFirstSeparator(season, episode, ':');
    SplitNoSeparator(episode, ':');
    assert Split(imdb + [':'] + rest, ':') == [imdb, season, episode];
  }

  /** Parts after the third are ignored: `imdb:season:episode:rest` gives the same query as
      `imdb:season:episode`, whatever `rest` holds. */
  lemma SeriesQueryExtra(imdb: string, season: string, episode: string, rest: string)
    requires ':' !in imdb && ':' !in season && ':' !in episode
    ensures BuildQuery("series", imdb + [':'] + season + [':'] + episode + [':'] + rest)
      == Some(imdb + " S" + Pad2(season) + "E" + Pad2(episode))
  {
    var tail := episode + [':'] + rest;
    var middle := season + [':'] + tail;
    assert imdb + [':'] + season + [':'] + episode + [':'] + rest == imdb + [':'] + middle;
    SplitAtFirstSeparator(imdb, middle, ':');
    SplitAtFirstSeparator(season, tail, ':');
    SplitAtFirstSeparator(episode, rest, ':');
    var parts := Split(imdb + [':'] + middle, ':');
    assert parts == [imdb, season, episode] + Split(rest, ':');
    assert parts[0] == imdb && parts[1] == season && parts[2] == episode;
  }

  /** Padding the decimal rendering of a number below 100 gives two digits of that value. */
  lemma PaddedDigits(n: nat)
    requires n < 100
    ensures |Pad2(NatToDecimal(n))| == 2 && AllDigits(Pad2(NatToDecimal(n)))
    ensures DigitsValue(Pad2(NatToDecimal(n))) == n
  {
    var d := NatToDecimal(n);
    var p := Pad2(d);
    if n < 10 {
      assert |d| == 1 && p == ['0'] + d;
      assert p[..1] == "0";
    } else {
      assert |d| == 2 by {
        if |d| > 2 {
          assert DigitsValue(d) >= 100 by { LeadingDigitBound(d); }
        }
      }
    }
  }

  /** A canonical digit string of three or more digits is at least 100. */
  lemma {:induction false} LeadingDigitBound(d: string)
    requires AllDigits(d) && |d| >= 3 && d[0] != '0'
    ensures DigitsValue(d) >= 100
  {
    var init := d[..|d| - 1];
    assert init[0] == d[0];
    if |init| >= 3 {
      LeadingDigitBound(init);
    } else {
      assert init[..1] == [d[0]];
      assert DigitsValue(init) >= 10 by {
        assert DigitsValue(init[..1]) >= 1;
      }
    }
  }

  lemma PadOneDigit(c: char)
    ensures Pad2([c]) == ['0', c]
  {
    assert ['0'] + [c] == ['0', c];
  }

  lemma PadTwoDigits(c: char, d: char)
    ensures Pad2([c, d]) == [c, d]
  {
  }

  /** Regrouping a query: the id, then the text after it. */
  lemma AppendGrouped(a: string, b: string, c: string, d: string, e: string)
    ensures a + b + c + d + e == a + (b + c + d + e)
  {
  }

  /** A movie id without `:` is its own search text, e.g. `tt0111161`. */
  lemma MovieQueryExample(imdb: string)
    requires ':' !in imdb
    ensures BuildQuery("movie", imdb) == Some(imdb)
  {
    SplitNoSeparator(imdb, ':');
  }

  /** A one-digit season and episode are padded with a `0` each. */
  lemma OneDigitSeriesQuery(imdb: string, season: char, episode: char)
    requires ':' !in imdb && season != ':' && episode != ':'
    ensures BuildQuery("series", imdb + [':', season, ':', episode]) == Some(imdb + " S0" + [season] + "E0" + [episode])
  {
    assert imdb + [':', season, ':', episode] == imdb + [':'] + [season] + [':'] + [episode];
    SeriesQuery(imdb, [season], [episode]);
    PadOneDigit(season);
    PadOneDigit(episode);
    assert imdb + " S" + ['0', season] + "E" + ['0', episode] == imdb + " S0" + [season] + "E0" + [episode];
  }

  /** A two-digit season and episode are kept as they are. */
  lemma TwoDigitSeriesQuery(imdb: string, s1: char, s2: char, e1: char, e2: char)
    requires ':' !in imdb && ':' !in [s1, s2, e1, e2]
    ensures BuildQuery("series", imdb + [':', s1, s2, ':', e1, e2]) == Some(imdb + " S" + [s1, s2] + "E" + [e1, e2])
  {
    assert imdb + [':', s1, s2, ':', e1, e2] == imdb + [':'] + [s1, s2] + [':'] + [e1, e2];
    assert ':' !in [s1, s2] && ':' !in [e1, e2];
    SeriesQuery(imdb, [s1, s2], [e1, e2]);
    PadTwoDigits(s1, s2);
    PadTwoDigits(e1, e2);
  }

  /** `tt…:1:5` searches for `tt… S01E05`. */
  lemma SeasonOneQueryExample(imdb: string)
    requires ':' !in imdb
    ensures BuildQuery("series", imdb + ":1:5") == Some(imdb + " S01E05")
  {
    assert ":1:5" == [':', '1', ':', '5'];
    OneDigitSeriesQuery(imdb, '1', '5');
    AppendGrouped(imdb, " S0", ['1'], "E0", ['5']);
    assert " S0" + ['1'] + "E0" + ['5'] == " S01E05";
  }

  /** `tt…:11:23` searches for `tt… S11E23`. */
  lemma TwoDigitQueryExample(imdb: string)
    requires ':' !in imdb
    ensures BuildQuery("series", imdb + ":11:23") == Some(imdb + " S11E23")
  {
    assert ":11:23" == [':', '1', '1', ':', '2', '3'];
    TwoDigitSeriesQuery(imdb, '1', '1', '2', '3');
    AppendGrouped(imdb, " S", ['1', '1'], "E", ['2', '3']);
    assert " S" + ['1', '1'] + "E" + ['2', '3'] == " S11E23";
  }

  // ---------------------------------------------------------------------------
  // stream entries

  /** `${result.title}` renders a missing name as "undefined". */
  function TitleText(title: Option<string>): string {
    title.GetOr("undefined")
  }

  /** The size line: empty for a size of 0, otherwise the whole megabytes and " MB". */
  function SizeLabel(size: int): (text: string)
    ensures text == "" <==> size == 0
    ensures size != 0 ==> |text| >= 4 && text[|text| - 3..] == " MB"
  {
    if size == 0 then "" else MegabyteText(size) + " MB"
  }

  /** The stream entry for a search result and its resolved link. */
  function Describe(result: FileRecord, url: string): (s: Stream)
    ensures s.url == url && s.name == ProviderName
    ensures s.title == "[Webshare] " + TitleText(result.title) + "\n" + SizeLabel(result.size)
  {
    Stream(url, "[Webshare] " + TitleText(result.title) + "\n" + SizeLabel(result.size), ProviderName)
  }

  /** One loop iteration: look up the result's link, and keep an entry when it is
      non-empty (`if (streamUrl)` drops null and ""). */
  function Attempt(result: FileRecord, wst: string, http: Http): (r: Traced<Option<Stream>, Request>)
    ensures r.calls == GetStreamUrl(result.ident, wst, http).calls
    ensures r.value.Some? <==> GetStreamUrl(result.ident, wst, http).value.Some? && GetStreamUrl(result.ident, wst, http).value.value != ""
    ensures r.value.Some? ==> r.value.value == Describe(result, GetStreamUrl(result.ident, wst, http).value.value)
  {
    var link := GetStreamUrl(result.ident, wst, http);
    if link.value.Some? && link.value.value != "" then Traced(Some(Describe(result, link.value.value)), link.calls)
    else Traced(None, link.calls)
  }

  /** The sequential resolution of `results`, as a reference definition: the entries of
      the results whose link resolved, in order, and every request made. */
  function Resolve(results: seq<FileRecord>, wst: string, http: Http): Traced<seq<Stream>, Request> {
    Collect(AttemptWith(wst, http), results)
  }

  /** The loop body as a step function. */
  function AttemptWith(wst: string, http: Http): FileRecord -> Traced<Option<Stream>, Request> {
    r => Attempt(r, wst, http)
  }

  /** Resolving `a + b` is resolving `a`, then `b`: entries keep the order of their results. */
  lemma ResolveAppend(a: seq<FileRecord>, b: seq<FileRecord>, wst: string, http: Http)
    ensures Resolve(a + b, wst, http).value == Resolve(a, wst, http).value + Resolve(b, wst, http).value
    ensures Resolve(a + b, wst, http).calls == Resolve(a, wst, http).calls + Resolve(b, wst, http).calls
  {
    CollectAppend(AttemptWith(wst, http), a, b);
  }

  /** Every entry is the descriptor of some result whose link resolved to the entry's
      non-empty url. */
  lemma ResolveSound(results: seq<FileRecord>, wst: string, http: Http, t: nat) returns (k: nat)
    requires t < |Resolve(results, wst, http).value|
    ensures k < |results|
    ensures var link := GetStreamUrl(results[k].ident, wst, http).value;
      && link.Some? && link.value != ""
      && Resolve(results, wst, http).value[t] == Describe(results[k], link.value)
  {
    k := CollectSound(AttemptWith(wst, http), results, t);
  }

  /** Every result whose link resolves to a non-empty url has its entry. */
  lemma ResolveComplete(results: seq<FileRecord>, wst: string, http: Http, k: nat)
    requires k < |results|
    requires GetStreamUrl(results[k].ident, wst, http).value.Some?
    requires GetStreamUrl(results[k].ident, wst, http).value.value != ""
    ensures Describe(results[k], GetStreamUrl(results[k].ident, wst, http).value.value) in Resolve(results, wst, http).value
  {
    CollectComplete(AttemptWith(wst, http), results, k);
  }

  /** When every link resolves to a non-empty url, there is one entry per result, in order. */
  lemma ResolveAllSucceed(results: seq<FileRecord>, wst: string, http: Http)
    requires forall k :: 0 <= k < |results| ==> GetStreamUrl(results[k].ident, wst, http).value.Some?
    requires forall k :: 0 <= k < |results| ==> GetStreamUrl(results[k].ident, wst, http).value.value != ""
    ensures |Resolve(results, wst, http).value| == |results|
    ensures forall k :: 0 <= k < |results| ==>
      Resolve(results, wst, http).value[k] == Describe(results[k], GetStreamUrl(results[k].ident, wst, http).value.value)
  {
    CollectAllSome(AttemptWith(wst, http), results);
  }

  /** With a token and non-empty idents, each result gets exactly one file-link request,
      in order. */
  lemma ResolveCalls(results: seq<FileRecord>, wst: string, http: Http)
    requires wst != ""
    requires forall k :: 0 <= k < |results| ==> results[k].ident != ""
    ensures Resolve(results, wst, http).calls == seq(|results|, k requires 0 <= k < |results| => FileLinkRequest(results[k].ident, wst))
  {
    CollectOneCallEach(AttemptWith(wst, http), results, (r: FileRecord) => FileLinkRequest(r.ident, wst));
  }

  /** The positions of the results whose link resolves to a non-empty url. */
  function ResolvedPositions(results: seq<FileRecord>, wst: string, http: Http): set<nat> {
    set k: nat | k < |results| && GetStreamUrl(results[k].ident, wst, http).value.Some?
                               && GetStreamUrl(results[k].ident, wst, http).value.value != ""
  }

  /** There are as many entries as results whose link resolved to a non-empty url. */
  lemma ResolveCount(results: seq<FileRecord>, wst: string, http: Http)
    ensures |Resolve(results, wst, http).value| == |ResolvedPositions(results, wst, http)|
  {
    CollectCount(AttemptWith(wst, http), results);
    assert Yielding(AttemptWith(wst, http), results) == ResolvedPositions(results, wst, http) by {
      forall k: nat | k < |results|
        ensures AttemptWith(wst, http)(results[k]) == Attempt(results[k], wst, http)
      {
      }
    }
  }

  /** `results.slice(0, 10)`. */
  function TopResults(results: seq<FileRecord>): (top: seq<FileRecord>)
    ensures |top| <= MaxAttempts && |top| <= |results| && top == results[..|top|]
    ensures |top| == MaxAttempts || top == results
  {
    if |results| <= MaxAttempts then results else results[..MaxAttempts]
  }

  /** The resolution pipeline as a reference definition: search once, then resolve the
      first ten results in order. */
  function Pipeline(query: string, wst: string, http: Http): (r: Traced<seq<Stream>, Request>)
    ensures |r.value| <= MaxAttempts
    ensures wst == "" ==> r == Traced([], [])
  {
    var search := SearchWebshare(query, wst, http);
    var resolved := Resolve(TopResults(search.value), wst, http);
    Traced(resolved.value, search.calls + resolved.calls)
  }

  /** The requests of the pipeline: one search, then one link lookup for each of the
      first ten results, in order; none for the eleventh result or later. */
  lemma PipelineRequests(query: string, wst: string, http: Http)
    requires wst != ""
    ensures var results := SearchWebshare(query, wst, http).value;
      var top := TopResults(results);
      Pipeline(query, wst, http).calls ==
        [SearchRequest(query, wst, SearchLimit, SearchCategory)]
        + seq(|top|, k requires 0 <= k < |top| => FileLinkRequest(results[k].ident, wst))
  {
    var search := SearchWebshare(query, wst, http);
    TopResultsCalls(search.value, wst, http);
    assert Pipeline(query, wst, http).calls == search.calls + Resolve(TopResults(search.value), wst, http).calls;
  }

  /** Resolving the first ten of a list of identified results asks for their links in order. */
  lemma TopResultsCalls(results: seq<FileRecord>, wst: string, http: Http)
    requires wst != ""
    requires forall k :: 0 <= k < |results| ==> results[k].ident != ""
    ensures var top := TopResults(results);
      Resolve(top, wst, http).calls == seq(|top|, k requires 0 <= k < |top| => FileLinkRequest(results[k].ident, wst))
  {
    var top := TopResults(results);
    forall k | 0 <= k < |top| ensures top[k].ident != "" {
      assert top[k] == results[k];
    }
    ResolveCalls(top, wst, http);
    assert seq(|top|, k requires 0 <= k < |top| => FileLinkRequest(top[k].ident, wst))
        == seq(|top|, k requires 0 <= k < |top| => FileLinkRequest(results[k].ident, wst));
  }

  /** An empty search result leads to no link lookups. */
  lemma NoResultsNoLookups(query: string, wst: string, http: Http)
    requires |SearchWebshare(query, wst, http).value| == 0
    ensures Pipeline(query, wst, http) == Traced([], SearchWebshare(query, wst, http).calls)
  {
  }

  /** When every link resolves, each result becomes one entry, in order, carrying its
      link and showing its name. */
  lemma {:induction false} AllResolvedShown(results: seq<FileRecord>, wst: string, http: Http)
    requires forall k :: 0 <= k < |results| ==> GetStreamUrl(results[k].ident, wst, http).value.Some?
    requires forall k :: 0 <= k < |results| ==> GetStreamUrl(results[k].ident, wst, http).value.value != ""
    ensures var streams := Resolve(results, wst, http).value;
      && |streams| == |results|
      && forall k :: 0 <= k < |results| ==>
        && streams[k].url == GetStreamUrl(results[k].ident, wst, http).value.value
        && streams[k].url != ""
        && streams[k].name == ProviderName
        && (results[k].title.Some? ==> NameShown(streams[k].title, results[k].title.value))
  {
    ResolveAllSucceed(results, wst, http);
    var streams := Resolve(results, wst, http).value;
    forall k | 0 <= k < |results|
      ensures results[k].title.Some? ==> NameShown(streams[k].title, results[k].title.value)
    {
      if results[k].title.Some? {
        DescribeShowsName(results[k], GetStreamUrl(results[k].ident, wst, http).value.value);
      }
    }
  }

  /** The end-to-end case: a search with at most ten results whose links all resolve
      gives one entry per result, in order. */
  lemma AllLinksResolve(query: string, wst: string, http: Http)
    requires |SearchWebshare(query, wst, http).value| <= MaxAttempts
    requires forall k :: 0 <= k < |SearchWebshare(query, wst, http).value| ==>
      GetStreamUrl(SearchWebshare(query, wst, http).value[k].ident, wst, http).value.Some?
    requires forall k :: 0 <= k < |SearchWebshare(query, wst, http).value| ==>
      GetStreamUrl(SearchWebshare(query, wst, http).value[k].ident, wst, http).value.value != ""
    ensures Pipeline(query, wst, http).value == Resolve(SearchWebshare(query, wst, http).value, wst, http).value
    ensures |Pipeline(query, wst, http).value| == |SearchWebshare(query, wst, http).value|
  {
    var results := SearchWebshare(query, wst, http).value;
    assert TopResults(results) == results;
    ResolveAllSucceed(results, wst, http);
  }

  /** The title shows `name` right after the provider tag. */
  predicate NameShown(title: string, name: string) {
    11 + |name| <= |title| && title[11..11 + |name|] == name
  }

  /** A descriptor's title shows the result's name, when it has one. */
  lemma DescribeShowsName(result: FileRecord, url: string)
    requires result.title.Some?
    ensures NameShown(Describe(result, url).title, result.title.value)
  {
    var name := result.title.value;
    var title := Describe(result, url).title;
    assert title == "[Webshare] " + name + "\n" + SizeLabel(result.size);
    assert |"[Webshare] "| == 11;
    assert title[11..11 + |name|] == name;
  }

  /** The loop of the handler: `for (const result of results.slice(0, 10))`, awaiting
      each link lookup in turn and keeping an entry for every non-empty link. */
  method ResolveTop(results: seq<FileRecord>, wst: string, http: Http) returns (streams: seq<Stream>, calls: seq<Request>)
    ensures streams == Resolve(TopResults(results), wst, http).value
    ensures calls == Resolve(TopResults(results), wst, http).calls
  {
    var top := TopResults(results);
    streams, calls := [], [];
    for i := 0 to |top|
      invariant streams == Resolve(top[..i], wst, http).value
      invariant calls == Resolve(top[..i], wst, http).calls
    {
      var attempt := Attempt(top[i], wst, http);
      CollectStep(AttemptWith(wst, http), top, i);
      assert AttemptWith(wst, http)(top[i]) == attempt;
      if attempt.value.Some? {
        streams := streams + [attempt.value.value];
      }
      calls := calls + attempt.calls;
    }
    assert top[..|top|] == top;
  }

  /** The stream handler. Without a token it answers no streams and requests nothing; a
      series id it cannot split is rejected; otherwise it answers what the pipeline gives,
      stopping right after a search with no results. */
  method StreamHandler(kind: string, id: string, config: Option<Config>, http: Http) returns (outcome: HandlerOutcome, calls: seq<Request>)
    ensures config.None? || config.value.wstToken == "" ==> outcome == Streams([]) && calls == []
    ensures config.Some? && config.value.wstToken != "" && BuildQuery(kind, id).None? ==> outcome == Rejected && calls == []
    ensures outcome.Rejected? ==> kind == "series"
    ensures config.Some? && config.value.wstToken != "" && BuildQuery(kind, id).Some? ==>
      var pipeline := Pipeline(BuildQuery(kind, id).value, config.value.wstToken, http);
      outcome == Streams(pipeline.value) && calls == pipeline.calls
    ensures outcome.Streams? ==> |outcome.streams| <= MaxAttempts
  {
    if config.None? || config.value.wstToken == "" {
      return Streams([]), [];
    }
    var wst := config.value.wstToken;
    var query := BuildQuery(kind, id);
    if query.None? {
      return Rejected, [];
    }
    var search := SearchWebshare(query.value, wst, http);
    if |search.value| == 0 {
      return Streams([]), search.calls;
    }
    var streams, linkCalls := ResolveTop(search.value, wst, http);
    return Streams(streams), search.calls + linkCalls;
  }
}
