/** The script that turns a scheduled-query result reference into the CSV
    export URL of an Alation instance: the redirect resolver and the entry
    point's token guard. The single HTTP request of the resolver is a
    parameter (`fetch`), so the resolver is a total function of the
    reference and of what the server answers. */
module Query {
  import opened Strings

  datatype Option<T> = None | Some(value: T)

  /** The fixed origin of the service. */
  const BaseUrl: string := "https://northstar.mtse.alationcloud.com"
  /** The result reference the entry point resolves. */
  const TargetUrlSuffix: string := "/schedule/result/2449/"
  /** Where the entry point asks the downloader to save the file. */
  const OutputFilePath: string := "alation_results.csv"
  /** The environment variable that holds the API token. */
  const TokenVariable: string := "ALATION_API_TOKEN"

  /** The path segment that marks an execution-result redirect target. */
  const ExecutionResultMarker: string := "/execution_result/"
  /** The path segment that serves the same result as table data. */
  const AjaxMarker: string := "/ajax/get_result_table_data/"
  /** The query flag that asks for CSV export. */
  const CsvFlag: string := "?csv=1"

  const UserAgent: string := "Alation-API-Script/1.0"
  const AcceptJson: string := "application/json"

  type Headers = map<string, string>

  /** What the first, non-redirect-following request produced: a
      transport-level failure, or a response with its status code, its
      `Location` header if the server sent one, and its body. */
  datatype HttpOutcome =
    | TransportError
    | Response(status: int, location: Option<string>, body: string)

  /** The server's behaviour: the outcome of a GET of a URL with headers. */
  type Fetch = (string, Headers) -> HttpOutcome

  /** The URL the resolver requests for a result reference. */
  function InitialUrl(suffix: string): (u: string)
    ensures StartsWith(u, BaseUrl) && EndsWith(u, suffix)
    ensures |u| == |BaseUrl| + |suffix|
  {
    assert (BaseUrl + suffix)[..|BaseUrl|] == BaseUrl;
    assert (BaseUrl + suffix)[|BaseUrl|..] == suffix;
    BaseUrl + suffix
  }

  /** The part of the resolver after the request: only a 302 whose
      `Location` is present, non-empty and names an execution result is
      turned into a CSV export URL. */
  function CsvUrlFromOutcome(outcome: HttpOutcome): (r: Option<string>)
    ensures r.Some? ==> StartsWith(r.value, BaseUrl) && EndsWith(r.value, CsvFlag)
  {
    match outcome
    case TransportError => None
    case Response(status, location, _) =>
      if status != 302 then None
      else if location.None? || location.value == "" then None
      else if Contains(location.value, ExecutionResultMarker) then
        var u := BaseUrl + ReplaceAll(location.value, ExecutionResultMarker, AjaxMarker) + CsvFlag;
        assert u[..|BaseUrl|] == BaseUrl;
        assert u[|u| - |CsvFlag|..] == CsvFlag;
        Some(u)
      else None
  }

  /** `get_results_csv_url`: an empty reference fails before any request;
      otherwise the reference is requested once, with the caller's headers,
      and the outcome decides. Every URL it returns starts at the service's
      origin and ends with the CSV flag. */
  function GetResultsCsvUrl(suffix: string, headers: Headers, fetch: Fetch): (r: Option<string>)
    ensures suffix == [] ==> r == None
    ensures r.Some? ==> StartsWith(r.value, BaseUrl) && EndsWith(r.value, CsvFlag) && |r.value| > 0
  {
    if suffix == [] then None
    else CsvUrlFromOutcome(fetch(InitialUrl(suffix), headers))
  }

  /** An empty reference yields no URL, whatever the server would answer. */
  lemma EmptySuffixYieldsNone(headers: Headers, fetch: Fetch, other: Fetch)
    ensures GetResultsCsvUrl("", headers, fetch) == None
    ensures GetResultsCsvUrl("", headers, fetch) == GetResultsCsvUrl("", headers, other)
  {
  }

  /** The resolver looks at nothing but the answer to its one request: two
      servers that answer that request alike give the same result. */
  lemma OnlyInitialRequestConsulted(suffix: string, headers: Headers, fetch: Fetch, other: Fetch)
    requires fetch(InitialUrl(suffix), headers) == other(InitialUrl(suffix), headers)
    ensures GetResultsCsvUrl(suffix, headers, fetch) == GetResultsCsvUrl(suffix, headers, other)
  {
  }

  /** A transport-level failure yields no URL. */
  lemma TransportErrorYieldsNone(suffix: string, headers: Headers, fetch: Fetch)
    requires fetch(InitialUrl(suffix), headers) == TransportError
    ensures GetResultsCsvUrl(suffix, headers, fetch) == None
  {
  }

  /** Any status but 302 yields no URL, whatever the headers and body. */
  lemma Non302YieldsNone(suffix: string, headers: Headers, fetch: Fetch)
    requires fetch(InitialUrl(suffix), headers).Response?
    requires fetch(InitialUrl(suffix), headers).status != 302
    ensures GetResultsCsvUrl(suffix, headers, fetch) == None
  {
  }

  /** A 302 without a `Location` header, or with an empty one, yields no URL. */
  lemma MissingLocationYieldsNone(suffix: string, headers: Headers, fetch: Fetch, body: string)
    requires fetch(InitialUrl(suffix), headers) in {Response(302, None, body), Response(302, Some(""), body)}
    ensures GetResultsCsvUrl(suffix, headers, fetch) == None
  {
  }

  /** A 302 to a location without the execution-result marker yields no URL:
      no other rewrite is attempted. */
  lemma MarkerAbsentYieldsNone(suffix: string, headers: Headers, fetch: Fetch, location: string, body: string)
    requires fetch(InitialUrl(suffix), headers) == Response(302, Some(location), body)
    requires !Contains(location, ExecutionResultMarker)
    ensures GetResultsCsvUrl(suffix, headers, fetch) == None
  {
  }

  /** A 302 to a location with the marker yields the origin, the location with
      every marker occurrence rewritten, and the CSV flag. */
  lemma MarkerPresentYieldsRewrite(suffix: string, headers: Headers, fetch: Fetch, location: string, body: string)
    requires suffix != []
    requires fetch(InitialUrl(suffix), headers) == Response(302, Some(location), body)
    requires Contains(location, ExecutionResultMarker)
    ensures GetResultsCsvUrl(suffix, headers, fetch)
            == Some(BaseUrl + ReplaceAll(location, ExecutionResultMarker, AjaxMarker) + CsvFlag)
  {
  }

  /** The resolver succeeds exactly on a non-empty reference answered by a
      302 whose location holds the marker. */
  lemma ResolverSucceedsIff(suffix: string, headers: Headers, fetch: Fetch)
    ensures GetResultsCsvUrl(suffix, headers, fetch).Some?
            <==> var o := fetch(InitialUrl(suffix), headers);
                 && suffix != []
                 && o.Response? && o.status == 302 && o.location.Some?
                 && Contains(o.location.value, ExecutionResultMarker)
  {
  }

  /** What a resolved URL looks like: the rewritten location sits between the
      origin and the CSV flag, holds the ajax marker, and is ten characters
      longer than the location for each marker occurrence rewritten (at least
      one). */
  lemma ResolvedUrlShape(suffix: string, headers: Headers, fetch: Fetch, location: string, body: string)
    requires suffix != []
    requires fetch(InitialUrl(suffix), headers) == Response(302, Some(location), body)
    requires Contains(location, ExecutionResultMarker)
    ensures var u := GetResultsCsvUrl(suffix, headers, fetch);
            && u.Some?
            && Contains(u.value, AjaxMarker)
            && var middle := u.value[|BaseUrl|..|u.value| - |CsvFlag|];
               && |middle| == |location| + 10 * Count(location, ExecutionResultMarker)
               && Count(location, ExecutionResultMarker) >= 1
  {
    var rewritten := ReplaceAll(location, ExecutionResultMarker, AjaxMarker);
    var u := BaseUrl + rewritten + CsvFlag;
    assert GetResultsCsvUrl(suffix, headers, fetch) == Some(u);
    ReplaceAllContainsRep(location, ExecutionResultMarker, AjaxMarker);
    ContainsInContext(BaseUrl, rewritten, CsvFlag, AjaxMarker);
    assert u[|BaseUrl|..|u| - |CsvFlag|] == rewritten;
    ReplaceAllLength(location, ExecutionResultMarker, AjaxMarker);
    CountPositiveIffContains(location, ExecutionResultMarker);
  }

  /** The rewrite does not remove every marker: it can create a new one, so a
      resolved URL may still name an execution result. */
  lemma RewriteCanLeaveMarker()
    ensures Contains(ReplaceAll("/execution_result/execution_result/", ExecutionResultMarker, AjaxMarker),
                     ExecutionResultMarker)
  {
    var tail := ExecutionResultMarker[1..];
    assert "/execution_result/execution_result/" == ExecutionResultMarker + tail;
    ReplaceAllLeadingOnly(ExecutionResultMarker, tail, AjaxMarker);
    var r := AjaxMarker + tail;
    assert OccursAt(r, ExecutionResultMarker, |AjaxMarker| - 1) by {
      assert r[|AjaxMarker| - 1..] == [AjaxMarker[|AjaxMarker| - 1]] + tail;
    }
    ContainsIffOccurs(r, ExecutionResultMarker);
  }

  // The entry point

  /** The headers every request carries: the client name, the token and the
      JSON accept type, and nothing else. */
  function RequestHeaders(token: string): (h: Headers)
    ensures h.Keys == {"User-Agent", "TOKEN", "accept"}
    ensures h["TOKEN"] == token && h["User-Agent"] == UserAgent && h["accept"] == AcceptJson
  {
    map["User-Agent" := UserAgent, "TOKEN" := token, "accept" := AcceptJson]
  }

  /** The call the entry point hands to the downloader. */
  datatype DownloadCall = DownloadCall(url: string, outputPath: string, headers: Headers)

  /** How a run of the entry point ends: it stops before any request when the
      token is unset or empty; otherwise it resolves the configured reference
      and, when that gives a URL, downloads from it. */
  datatype MainRun =
    | TokenMissing
    | Attempted(headers: Headers, csvUrl: Option<string>, download: Option<DownloadCall>)

  /** `os.environ.get`: the variable's value, or none when it is unset. */
  function EnvironmentGet(env: map<string, string>, name: string): Option<string> {
    if name in env then Some(env[name]) else None
  }

  /** `main`, with the environment and the server as inputs. The token test
      and the URL test are Python truth tests: an empty string counts as
      missing. */
  function RunMain(env: map<string, string>, fetch: Fetch): (r: MainRun)
    ensures r.TokenMissing? <==> TokenVariable !in env || env[TokenVariable] == ""
  {
    var token := EnvironmentGet(env, TokenVariable);
    if token.None? || token.value == "" then TokenMissing
    else
      var headers := RequestHeaders(token.value);
      var csvUrl := GetResultsCsvUrl(TargetUrlSuffix, headers, fetch);
      if csvUrl.Some? && csvUrl.value != "" then
        Attempted(headers, csvUrl, Some(DownloadCall(csvUrl.value, OutputFilePath, headers)))
      else
        Attempted(headers, csvUrl, None)
  }

  /** Without a token no request is made: the run is the same whatever the
      server would answer. */
  lemma MissingTokenMakesNoRequest(env: map<string, string>, fetch: Fetch, other: Fetch)
    requires TokenVariable !in env || env[TokenVariable] == ""
    ensures RunMain(env, fetch) == TokenMissing
    ensures RunMain(env, fetch) == RunMain(env, other)
  {
  }

  /** With a token, the configured reference is resolved with headers that map
      exactly the three header names, `TOKEN` to the token, and the only
      request consulted is the one for the configured reference. */
  lemma MainResolvesWithToken(env: map<string, string>, fetch: Fetch, other: Fetch)
    requires TokenVariable in env && env[TokenVariable] != ""
    ensures var r := RunMain(env, fetch);
            && r.Attempted?
            && r.headers.Keys == {"User-Agent", "TOKEN", "accept"}
            && r.headers["TOKEN"] == env[TokenVariable]
            && r.csvUrl == GetResultsCsvUrl(TargetUrlSuffix, r.headers, fetch)
    ensures var h := RequestHeaders(env[TokenVariable]);
            fetch(InitialUrl(TargetUrlSuffix), h) == other(InitialUrl(TargetUrlSuffix), h)
            ==> RunMain(env, fetch) == RunMain(env, other)
  {
  }

  /** The truth test on the resolved URL never drops a result: the downloader
      is called exactly when the resolver gave a URL, with that URL, the
      configured output path and the same headers. */
  lemma MainDownloadsIffResolved(env: map<string, string>, fetch: Fetch)
    ensures var r := RunMain(env, fetch);
            r.Attempted? ==>
              && (r.download.Some? <==> r.csvUrl.Some?)
              && (r.download.Some? ==> r.download.value == DownloadCall(r.csvUrl.value, OutputFilePath, r.headers))
  {
  }
}
