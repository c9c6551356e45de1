# CSV export URL resolver

A Dafny model of `query.py`, a script that downloads the result of a
scheduled query from an Alation data catalog as a CSV file. The script
requests a result reference (`/schedule/result/2449/`) without following
redirects, expects a 302 whose `Location` names an execution result, and
rewrites that location into the service's table-data endpoint with the CSV
flag: `BASE_URL + location.replace("/execution_result/",
"/ajax/get_result_table_data/") + "?csv=1"`. Its entry point refuses to run
without the `ALATION_API_TOKEN` environment variable and builds the request
headers from it.

The model has two modules:

- `Strings` (`strings.dfy`): Python's `pat in s` (`Contains`) and
  `s.replace(pat, rep)` (`ReplaceAll`), the latter as the left-to-right scan
  Python performs (an occurrence is rewritten and skipped; otherwise one
  character is copied), including Python's behaviour for an empty pattern.
  The lemmas relate the scans to independent readings: `Contains` to "some
  index holds an occurrence", `ReplaceAll` to the identity where nothing
  occurs, to the leftmost-first rewrite, and to a length law.
- `Query` (`query.dfy`): the resolver `GetResultsCsvUrl` and the entry point
  `RunMain`. The one HTTP request is not executed: the server's behaviour is
  a parameter `fetch: (url, headers) -> HttpOutcome`, where an outcome is a
  transport failure or a response with status, optional `Location` and body.
  "No request is made" is stated as "the result is the same whatever `fetch`
  answers".

Behaviour that follows the code rather than a looser reading of it: an empty
`Location` header is treated like a missing one (Python's truth test); every
non-overlapping occurrence of the marker is rewritten, not just one; and the
CSV flag is appended with a literal `?` even when the location already holds
a query string. The rewrite can also create a new marker occurrence
(`RewriteCanLeaveMarker`), so the model does not claim the final URL is free
of it.

## Model

| member | source | states |
|---|---|---|
| Strings.ContainsFromIffOccurs | query.py:62 | the scanning substring test from index k holds exactly when the pattern occurs at some index at or after k |
| Strings.ContainsIffOccurs | query.py:62 | `pat in s` holds exactly when `pat` occurs at some index of `s` (both directions) |
| Strings.ContainsInContext | query.py:64 | a substring stays a substring once text is put before and after it |
| Strings.SlotStartIsProduct | query.py:63 | slot `i` of an empty-pattern replace begins at `i` times the slot width |
| Strings.InsertAround | query.py:63 | `replace` with an empty pattern is as long as one slot (a copy of `rep` and one character) per character of `s` plus a final copy of `rep` |
| Strings.InsertAroundLength | query.py:63 | `replace` with an empty pattern adds `|s| + 1` copies of `rep`: length `|s| + (|s|+1)*|rep|` |
| Strings.InsertAroundSlots | query.py:63 | with an empty pattern, for every `i <= |s|` the result holds a copy of `rep` at index `i*(|rep|+1)` |
| Strings.InsertAroundChars | query.py:63 | with an empty pattern, for every `i < |s|` the character right after the copy of `rep` in slot `i` is `s[i]` |
| Strings.InsertAroundEnds | query.py:63 | with an empty pattern, the result starts and ends with `rep` |
| Strings.ReplaceFromAbsent | query.py:63 | the replace scan copies the rest of the string unchanged when the pattern does not occur in it |
| Strings.ReplaceAllAbsent | query.py:63 | `replace` leaves a string without the pattern unchanged |
| Strings.ReplaceAllLeadingOnly | query.py:63 | a string that is the pattern followed by a shorter rest becomes the replacement followed by that rest |
| Strings.ReplaceFromSelf | query.py:63 | scanning with the pattern as its own replacement copies the rest |
| Strings.ReplaceAllSelf | query.py:63 | replacing a pattern by itself is the identity |
| Strings.ReplaceFromAtFirst | query.py:63 | the first occurrence from k on is the next one rewritten: the text before it is copied and the scan resumes right after it |
| Strings.ReplaceAllAtFirst | query.py:63 | `replace` keeps everything before the leftmost occurrence, turns it into `rep`, and continues after it (non-overlapping, left to right) |
| Strings.ReplaceFromLength | query.py:63 | each occurrence the scan rewrites changes the length by `|rep| - |pat|` |
| Strings.ReplaceAllLength | query.py:63 | the length of the result is the input's plus `Count * (|rep| - |pat|)` |
| Strings.CountFromPositiveIffContains | query.py:62-63 | the scan from k rewrites at least one occurrence exactly when the pattern occurs from k on |
| Strings.CountPositiveIffContains | query.py:62-63 | `replace` rewrites at least one occurrence exactly when `pat in s` |
| Strings.ReplaceFromContainsRep | query.py:63 | when the pattern occurs from k on, the scan's output holds the replacement |
| Strings.ReplaceAllContainsRep | query.py:63 | when the pattern occurs, the result of `replace` holds the replacement |
| Query.InitialUrl | query.py:43 | the requested URL is exactly the base origin followed by the reference: it starts with one, ends with the other and is as long as both together |
| Query.CsvUrlFromOutcome | query.py:54-78 | whatever the outcome, a returned URL starts with the base origin and ends with `?csv=1` |
| Query.GetResultsCsvUrl | query.py:34-78 | an empty reference gives no URL; every returned URL starts with the base origin, ends with `?csv=1` and is non-empty |
| Query.EmptySuffixYieldsNone | query.py:39-41 | an empty reference gives no URL, and the server's answers make no difference |
| Query.OnlyInitialRequestConsulted | query.py:43-52 | the result depends only on the answer to the one request for base origin plus reference, with the caller's headers |
| Query.TransportErrorYieldsNone | query.py:76-78 | a transport-level failure gives no URL |
| Query.Non302YieldsNone | query.py:54-74 | any status other than 302 gives no URL |
| Query.MissingLocationYieldsNone | query.py:55-58 | a 302 with no `Location`, or an empty one, gives no URL |
| Query.MarkerAbsentYieldsNone | query.py:62-69 | a 302 whose location lacks `/execution_result/` gives no URL; nothing else is tried |
| Query.MarkerPresentYieldsRewrite | query.py:62-66 | a 302 whose location holds the marker gives exactly base origin + location with every marker rewritten + `?csv=1` |
| Query.ResolverSucceedsIff | query.py:39-78 | a URL is returned exactly when the reference is non-empty and the answer is a 302 whose location holds the marker |
| Query.ResolvedUrlShape | query.py:62-64 | a resolved URL holds the ajax marker, and its middle is the location grown by ten characters per rewritten marker, at least one |
| Query.RewriteCanLeaveMarker | query.py:63 | rewriting `/execution_result/execution_result/` leaves a string that still holds the marker |
| Query.RequestHeaders | query.py:108-112 | the headers have exactly the keys `User-Agent`, `TOKEN` and `accept`, with `TOKEN` mapped to the token |
| Query.RunMain | query.py:101-125 | the run stops before resolving exactly when the token is unset or empty |
| Query.MissingTokenMakesNoRequest | query.py:103-106 | without a token the run ends at once, whatever the server would answer |
| Query.MainResolvesWithToken | query.py:108-115 | with a token, the configured reference is resolved with headers of exactly three keys carrying the token, and only that request is consulted |
| Query.MainDownloadsIffResolved | query.py:115-124 | the downloader is called exactly when the resolver gave a URL, with that URL, the configured output path and the same headers |

## Left out

- `download_csv` (query.py:80-99): the streamed download, the chunked file writes and the choice of printed error message are network and file I/O; the model records only the call the entry point makes to it (`DownloadCall`).
- The HTTP request itself, `allow_redirects=False`, `verify=False` and TLS: the request's outcome is the `fetch` parameter. Exceptions other than `requests.exceptions.RequestException` (which would escape the function) are not represented among the outcomes.
- The `Location` lookup's case-insensitivity (`requests` headers ignore case): the outcome carries the header already looked up.
- Logging, `print`, `urllib3.disable_warnings`, `os.path.expanduser` and the process exit status: output only.
- Query.EnvironmentGet: `os.environ.get` is a plain library lookup, modelled as a map lookup on the `env` map given to `RunMain` with no contract of its own; `BASE_URL`, `TARGET_URL_SUFFIX` and `OUTPUT_FILE_PATH` are fixed constants.
- Query.ResolvedUrlShape: does not claim the URL is well formed when the location already has a query string, because the code appends `?csv=1` regardless.
