# gh-stats: a Dafny model of the traffic collector and dashboard core

gh-stats collects the GitHub traffic statistics of a user's repositories and
charts them in a small web dashboard. This project models the pure core of
that program and proves properties of the model:

- **Dates** (`dtformat.dfy`, `calendar.dfy`): `dt_to_str` and `parse_dt`
  with the format `%Y-%m-%dT%H:%M:%SZ`, the loose `is_dt_str` test, and
  `dt_to_timestamp` / `timestamp_to_dt` as whole seconds from the 1970 epoch
  (proleptic Gregorian calendar, UTC only).
- **JSON hooks** (`utils.dfy`, `jsonhandler.dfy`): the recursive rewrite
  `iter_parse_datetimes`, the key rewrite `clean_dict_dt_keys`, and
  `JsonHandler.encode` / `decode`, with the encode–decode round trip.
- **API client** (`requests.dfy`): `parse_link_headers`, the `next`-link
  pagination of `_do_request`, `make_request` with its status check, and
  the session reference count of `__aenter__` / `__aexit__`.
- **API objects** (`traffic.dfy`): the API paths, `AllRepos.get_repos`, the
  traffic snapshots of a repository, and the JSON encoder of API objects.
- **Storage** (`dbstore.dfy`): `get_doc`, `add_doc`, `add_doc_if_missing` and
  `update_doc` over an in-memory collection. Its `find_one`, `count`,
  `insert_one` and `replace_one` match by field equality on the filter's
  fields and keep documents in insertion order, a simplification of the
  server's query language.
- **Dashboard** (`dashboard.dfy`, `trafficchart.dfy`, `templatetags.dfy`,
  `chartloader.dfy`): `parse_query_dt`, `update_context_dt_range`,
  `get_traffic_chart_data` and its JSON route, the `list_to_str` filter,
  and the hidden-repository bookkeeping of the client script.

Python values are the datatype `Values.Value` (None, booleans, integers,
strings, datetimes, lists, dicts). A dict is an association list that keeps
insertion order (`PyDict.Dict`). Raised exceptions are `Err` results of
`Base.Result`. Network fetches, the clock and the database client are
function parameters or plain inputs.

Where the code and its description differ, the model follows the code:

- `is_dt_str` accepts any 20-character string that holds a `T` and either
  two dashes or two colons.
- `%Y` renders years below 1000 without padding, so such datetimes do not
  survive the round trip.
- The dashboard's chart reads repository summaries that `traffic.py` does
  not define (`Repo.from_db`, `repo_slug`, `traffic_views_from_db_flat`).
  The model takes them as an input sequence in loop order.

## Model

| member | source | states |
|---|---|---|
| DtFormat.DtToStrShape | ghstats/utils.py:32-33 | For years 1000 and up, the rendered text is canonical: four year digits, then two-digit month, day, hour, minute and second between the format's literals |
| DtFormat.ParseDtToStr | ghstats/utils.py:27-33 | `parse_dt(dt_to_str(dt))` gives `dt` back for every year 1000 and up |
| DtFormat.DtToStrParse | ghstats/utils.py:27-33 | Re-rendering a canonical string that `parse_dt` accepts reproduces the string exactly |
| DtFormat.DtToStrParseIff | ghstats/utils.py:27-33 | A string `parse_dt` accepts comes back verbatim from `dt_to_str` exactly when it is canonical; other accepted spellings are normalised |
| DtFormat.DtToStrInjective | ghstats/utils.py:32-33 | Two datetimes never render to the same text |
| DtFormat.TimestampToDt | ghstats/utils.py:19-22 | `timestamp_to_dt` succeeds exactly inside the datetime range and otherwise raises `OverflowError`; the result's timestamp is the input |
| DtFormat.TimestampRoundTrip | ghstats/utils.py:15-22 | `timestamp_to_dt(dt_to_timestamp(dt))` is `dt` for every datetime |
| DtFormat.IsDtStrIff | ghstats/utils.py:35-44 | `is_dt_str` holds exactly for strings of length 20 that contain `T` and have two dashes or two colons |
| DtFormat.IsDtStrAcceptsDtToStr | ghstats/utils.py:32-44 | Every rendering of a year 1000 and up passes `is_dt_str` |
| DtFormat.TwoDashesPassIsDtStr | ghstats/utils.py:42-44 | Any 20 characters with a `T` and exactly two dashes pass `is_dt_str`, whatever else they hold |
| DtFormat.IsDtStrAcceptsUnparsable | ghstats/utils.py:27-44 | Some string passes `is_dt_str` yet is refused by `parse_dt`, so code that trusts the test can raise `ValueError` |
| DtFormat.DotInTimeRejected | ghstats/utils.py:27-30 | For any text of the `YYYY-MM-DDTHH` shape, a dot where the hour's colon belongs makes `parse_dt` fail, whatever the year, month and day |
| DtFormat.ShortYearNotReparsed | ghstats/utils.py:27-44 | A year below 1000 renders text that fails both `is_dt_str` and `parse_dt` |
| Utils.IterParse | ghstats/utils.py:46-61 | A non-container comes back unchanged; a list keeps its length; a dict keeps its keys in order; a success leaves no date-looking string below the root; the only error is `ValueError` |
| Utils.ParseChild | ghstats/utils.py:54-60 | One loop step fails only with `ValueError`; on success the child is free of date-looking strings and is a container exactly when it was one before |
| Utils.ParseItems | ghstats/utils.py:49-60 | The list loop from position i yields one rewritten child per remaining item, each the rewrite of that item |
| Utils.ParseEntries | ghstats/utils.py:47-60 | The dict loop from position i keeps every key and yields each value's rewrite |
| Utils.IterParseErrIff | ghstats/utils.py:46-61 | The rewrite fails exactly when some date-looking string at any depth below the root does not parse |
| Utils.ParseChildErrIff | ghstats/utils.py:54-60 | One loop step fails exactly when the child holds, at some depth, a date-looking string that does not parse |
| Utils.ParseItemsErrIff | ghstats/utils.py:49-60 | The list loop fails exactly when a remaining item holds an unparsable date-looking string |
| Utils.ParseEntriesErrIff | ghstats/utils.py:47-60 | The dict loop fails exactly when a remaining value holds an unparsable date-looking string |
| Utils.IterParseListChild | ghstats/utils.py:49-60 | Every list item is replaced by its own rewrite, as the loop body prescribes |
| Utils.IterParseDictChild | ghstats/utils.py:47-60 | Every dict entry keeps its key and gets its value's rewrite |
| Utils.CleanFixed | ghstats/utils.py:46-61 | A tree with nothing date-looking below the root is returned unchanged |
| Utils.ParseChildFixed | ghstats/utils.py:54-60 | A child with nothing date-looking is kept as it is |
| Utils.ParseItemsFixed | ghstats/utils.py:49-60 | The list loop over a clean list changes no item |
| Utils.ParseEntriesFixed | ghstats/utils.py:47-60 | The dict loop over a clean dict changes no entry |
| Utils.IterParseIdempotent | ghstats/utils.py:46-61 | Rewriting an already rewritten response changes nothing |
| Values.Subscript | ghstats/traffic.py:38-39 | `o[key]` succeeds exactly on a dict holding the key and returns its value; otherwise `KeyError` for a dict and `TypeError` for anything else |
| Values.Iterate | ghstats/app/templatetags.py:4-5 | Iteration yields a list's items, a dict's keys or a string's characters; anything else raises `TypeError` |
| JsonHandler.DtKeysOf | ghstats/utils.py:64 | The collected keys are exactly the datetime keys of the dict |
| JsonHandler.RenameMovesValid | ghstats/utils.py:65-68 | The loop's moves start from keys the dict holds, and with an injective rendering no two share a target |
| JsonHandler.RenameMovedDt | ghstats/utils.py:65-68 | A datetime key is moved exactly when the dict holds it |
| JsonHandler.RenameMovedStr | ghstats/utils.py:65-68 | A string key receives a value exactly when it is the rendering of a datetime key |
| JsonHandler.RenameTargets | ghstats/utils.py:65-68 | Each datetime key's value ends up under that key's rendering |
| JsonHandler.RenameDtGone | ghstats/utils.py:65-68 | No datetime key is left after the loop |
| JsonHandler.RenameNoDtKey | ghstats/utils.py:65-68 | The keys stay unique and are all strings afterwards |
| JsonHandler.RenameOtherStr | ghstats/utils.py:65-68 | A string key that is not a rendering keeps its value |
| JsonHandler.RenameHasStr | ghstats/utils.py:65-68 | The string keys afterwards are the old string keys plus the renderings |
| JsonHandler.DtToStrIsInjective | ghstats/utils.py:32-33 | `dt_to_str` is injective, so renamed keys never collide with each other |
| JsonHandler.CleanDictDtKeys | ghstats/utils.py:63-68 | Afterwards the keys are unique and none is a datetime |
| JsonHandler.CleanDictDtKeysSpec | ghstats/utils.py:63-68 | Each datetime key's value sits under its text, no datetime key is left, other string keys keep their values unless a text lands on them, and the key set is the old string keys plus the texts |
| JsonHandler.Encode | ghstats/utils.py:72-80 | A datetime gives an object, anything else gives `None`; a dict argument has its keys cleaned to strings in place |
| JsonHandler.DtStrKeysOf | ghstats/utils.py:82 | The collected keys are exactly the string keys that pass `is_dt_str` |
| JsonHandler.ParseDtKeys | ghstats/utils.py:83-86 | The decoding loop's only failure is `ValueError` |
| JsonHandler.ParseDtKeysAsMoves | ghstats/utils.py:83-86 | The loop fails exactly when some key does not parse; otherwise it equals parsing every key first and then moving each onto its instant |
| JsonHandler.DecodeMovesLast | ghstats/utils.py:83-86 | A move is the last onto its instant exactly when no later key parses to the same instant |
| JsonHandler.DecodeMovesMoved | ghstats/utils.py:83-86 | The moves touch exactly the text keys and the instants they parse to |
| JsonHandler.ParseDtKeysSpec | ghstats/utils.py:83-86 | After the loop no text key is left, each instant holds the value of the last text key that parses to it, and every other key is untouched |
| JsonHandler.DecodeKeysSpec | ghstats/utils.py:81-89 | `decode` raises `ValueError` exactly when a date-looking key does not parse; otherwise no date-looking text key is left, and an unmarked dict comes back as a dict |
| JsonHandler.DecodeEncodeDt | ghstats/utils.py:72-89 | Decoding the object an encoded datetime becomes gives the same datetime back, for years 1000 and up |
| JsonHandler.DecodeEncodeShortYear | ghstats/utils.py:72-89 | For a year below 1000 the encoded object fails to decode with `ValueError` |
| JsonHandler.RoundTripDtKey | ghstats/utils.py:63-86 | Renaming and then decoding the keys gives every datetime key its old value back |
| JsonHandler.RoundTripStrKey | ghstats/utils.py:63-86 | Renaming and then decoding the keys gives every string key its old value back |
| JsonHandler.DecodeRenamed | ghstats/utils.py:63-89 | Decoding a renamed dict gives a dict that holds the original value under every key |
| JsonHandler.DecodeEncodeDict | ghstats/utils.py:72-89 | Encoding then decoding a dict without date-looking string keys or a datetime marker restores every key's value |
| Requests.LinkValues | ghstats/requests.py:57 | Only the `Link` fields are collected, in order; a header block without one gives nothing |
| Requests.LinkValuesAppend | ghstats/requests.py:57 | The `Link` values of two header blocks are those of each, one after the other |
| Requests.ParseLinkErrors | ghstats/requests.py:60-62 | A link-value raises `ValueError` exactly when it lacks a single `;`, and `IndexError` exactly when its parameter has no `=` |
| Requests.ParseLinkHeaders | ghstats/requests.py:55-64 | No `Link` field gives an empty dict; the result has unique keys |
| Requests.ParseLinkHeadersLookup | ghstats/requests.py:56-64 | Each rel maps to the URL of its last occurrence, and a rel that never occurs is absent |
| Requests.ParseLinkHeadersMerge | ghstats/requests.py:58-63 | Links from later header fields override earlier ones with the same rel |
| Requests.ParseRenderLink | ghstats/requests.py:60-62 | A link-value written as `<url>; rel="name"` reads back as its rel and URL |
| Requests.ParseRenderedField | ghstats/requests.py:59-62 | A field listing links joined by `, ` reads back as those links, in order |
| Requests.LinkHeaderRoundTrip | ghstats/requests.py:55-64 | One `Link` field of safe links parses to the dict that assigns them in order |
| Requests.Extend | ghstats/requests.py:79 | `extend` works only on a list and appends the iteration of its argument; a non-list raises `AttributeError` |
| Requests.Chain | ghstats/requests.py:76-79 | The pages a request visits: the first answers the URL, each later one answers its predecessor's `next` link, and the last has none |
| Requests.PaginateConcatenates | ghstats/requests.py:65-80 | Over list pages the request returns the last page's status and the items of every page in link order |
| Requests.PaginateStatus | ghstats/requests.py:72-80 | A failing chain fails the request the same way, and a successful request reports the last page's status |
| Requests.DoRequestSpec | ghstats/requests.py:65-80 | `_do_request`, whose links are read with `parse_link_headers`, fails like its chain, returns the last page's status, and over list pages concatenates all items |
| Requests.ApiUrl | ghstats/requests.py:91 | The URL is the API endpoint, a slash, and the path |
| Requests.ApiUrlInjective | ghstats/requests.py:91 | Different paths are requested at different URLs |
| Requests.MakeRequest | ghstats/requests.py:81-103 | A successful body contains no date-looking strings below the root |
| Requests.MakeRequestSpec | ghstats/requests.py:91-101 | A final status other than 200 fails with that status; a status of 200 returns the concatenated items with their datetimes parsed |
| Requests.SinglePage | ghstats/requests.py:91-101 | When the first page has no `next` link, `make_request` fails with its status unless it is 200, and otherwise returns its body, of any shape, with datetimes parsed; this is how the one-dict traffic views answer is read |
| Requests.NewHandler | ghstats/requests.py:27-32 | A new handler holds its credentials, has no session, and has an acquire count of 0 |
| Requests.AuthFor | ghstats/requests.py:46-52 | A token gives an `Authorization` header and wins over basic auth, which needs both username and password |
| Requests.SessionOf | ghstats/requests.py:40-54 | An open session is reused; a missing or closed one is replaced by a new session with the handler's authentication, stored on the handler |
| Requests.Enter | ghstats/requests.py:108-110 | Entering counts one more holder and hands out an open session |
| Requests.Exit | ghstats/requests.py:111-117 | Exiting counts one holder less, and the last holder out drops the session |
| Requests.EnterExit | ghstats/requests.py:108-117 | A balanced enter and exit restores the count; the session survives exactly when someone else still holds it |
| Requests.RunCount | ghstats/requests.py:108-117 | Over any sequence of enters and exits the count moves by their balance |
| Requests.RunKeepsSession | ghstats/requests.py:108-117 | While the count never drops to 0 an open session is kept throughout |
| Requests.RunDropsAtZero | ghstats/requests.py:111-117 | An exit that brings the count to 0 drops the session |
| Traffic.RepoPathJoin | ghstats/traffic.py:60-61 | A repository's path is `repos`, its owner and its name joined by `/` |
| Traffic.ViewsPathJoin | ghstats/traffic.py:100-101 | The views path is the repository path followed by `traffic/views` |
| Traffic.PathsPathJoin | ghstats/traffic.py:116-117 | The popular-paths path is the repository path followed by `traffic/popular/paths` |
| Traffic.RepoPathSegments | ghstats/traffic.py:60-61 | For an owner and name without `/`, splitting the path at `/` gives back its three segments |
| Traffic.ViewsPathSegments | ghstats/traffic.py:100-101 | The views path splits back into its five segments |
| Traffic.PathsPathSegments | ghstats/traffic.py:116-117 | The popular-paths path splits back into its six segments |
| Traffic.AllReposPathSegments | ghstats/traffic.py:32-33 | The repository listing's path is `user/repos` |
| Traffic.ApiPathsDistinct | ghstats/traffic.py:32-117 | For owners and names without `/`, each kind of path determines its repository, and no two kinds of path ever coincide |
| Traffic.RepoPathPlain | ghstats/traffic.py:60-61 | A path built from a plain owner and name comes only from that pair |
| Traffic.RepoPathSlashes | ghstats/traffic.py:60-61 | A repository path holds two `/` besides those in its owner and name |
| Traffic.RepoEntry | ghstats/traffic.py:37-39 | A listing element is read exactly when it has a string `name` and an `owner` dict with a string `login`; the identifier holds those two strings, and a failure is `KeyError` or `TypeError` |
| Traffic.ReposFrom | ghstats/traffic.py:34-43 | The loop keeps the object's request handler |
| Traffic.GetRepos | ghstats/traffic.py:34-43 | `get_repos` keeps the object's request handler |
| Traffic.ReposFromFails | ghstats/traffic.py:36-39 | The loop fails exactly when the listing is not iterable or some element lacks a string `owner.login` or `name` |
| Traffic.ReposFromSpec | ghstats/traffic.py:34-43 | After `get_repos`, keys are unique, nothing held before is dropped, each listed plain repository sits under its path, and unlisted paths are untouched |
| Traffic.AssignReposSpec | ghstats/traffic.py:36-42 | The same guarantees as `ReposFromSpec`, for any list of repositories and any starting map |
| Traffic.ListedRepoHeld | ghstats/traffic.py:36-42 | The last assignment to a plain repository's path stores that repository |
| Traffic.FillViews | ghstats/traffic.py:102-106 | The snapshot fills in exactly when the response is a dict with `count`, `uniques` and `views`, and it then holds those three values; identity fields never change |
| Traffic.GetTrafficViews | ghstats/traffic.py:70-78 | The new views snapshot is attached to the repository before its fetch, and a failed fetch leaves the empty snapshot attached |
| Traffic.GetTrafficPaths | ghstats/traffic.py:79-87 | The new paths snapshot is attached and, when the fetch succeeds, holds the response unchanged |
| Traffic.JsonEncode | ghstats/traffic.py:122-128 | API objects encode to a dict, and anything else gives `None` |
| Traffic.SerializeAttrsDistinct | ghstats/traffic.py:28-109 | Each class's serialized attributes are distinct and none is the class marker |
| Traffic.EncodeSpec | ghstats/traffic.py:122-128 | The encoded object has the class marker and the serialized attributes as keys, each once; the class name sits under the marker and each attribute's value under its name |
| DbStore.FirstMatch | ghstats/dbstore.py:31-33 | The position of the first document that matches the filter, or none when nothing matches |
| DbStore.CountMatches | ghstats/dbstore.py:37-41 | `count` is at most the collection size and is 0 exactly when nothing matches |
| DbStore.GetDoc | ghstats/dbstore.py:31-33 | `get_doc` finds a document exactly when one matches, and returns the first one in natural order |
| DbStore.InsertOne | ghstats/dbstore.py:34-36 | Insertion succeeds exactly when the id is free and otherwise fails with `DuplicateKey`; it appends the document with its id and reports the id |
| DbStore.AddDoc | ghstats/dbstore.py:34-36 | `add_doc` grows the collection by one and keeps every earlier document; it fails exactly when the id is taken |
| DbStore.AddDocIfMissing | ghstats/dbstore.py:37-42 | With a match, the collection is unchanged and the match count is returned; without one, the document is added |
| DbStore.ReplaceOne | ghstats/dbstore.py:48-49 | Nothing matching replaces nothing; a replacement keeps the collection's size |
| DbStore.UpdateDoc | ghstats/dbstore.py:43-49 | With nothing matching, `update_doc` is `add_doc` |
| DbStore.WithIdSpec | ghstats/dbstore.py:34-36 | A stored document carries its id, otherwise holds the fields it was given, and keeps its keys unique |
| DbStore.WithIdMatches | ghstats/dbstore.py:34-36 | Storing a document that matches a filter gives a document that still matches it |
| DbStore.GetDocCount | ghstats/dbstore.py:31-42 | `get_doc` finds something exactly when `count` is positive |
| DbStore.InsertOneValid | ghstats/dbstore.py:34-36 | Insertion keeps every document a dict with a unique `_id` |
| DbStore.IdFilterFinds | ghstats/dbstore.py:48-49 | In a valid collection, a document's `_id` filter finds exactly that document |
| DbStore.AddDocIfMissingTwice | ghstats/dbstore.py:37-42 | After one call there is at least one match (exactly one if there was none); a second call changes nothing |
| DbStore.CountAppendOne | ghstats/dbstore.py:37-42 | Appending a document adds one to the count exactly when it matches |
| DbStore.UpdateDocReplaces | ghstats/dbstore.py:43-49 | With a match, the first match is replaced in place by the new body under its own `_id`, and nothing else changes; a body naming another `_id` is refused |
| DbStore.UpdateDocStores | ghstats/dbstore.py:43-49 | `update_doc` keeps the collection valid and grows it only when nothing matched |
| DbStore.ReplaceValid | ghstats/dbstore.py:48-49 | Replacing a body under its own `_id` keeps the collection valid |
| DbStore.UpdateDocTwice | ghstats/dbstore.py:43-49 | After two updates through one filter, the filter finds the second body, and the collection grew only if nothing matched at first |
| DbStore.FirstAfterUpdate | ghstats/dbstore.py:43-49 | After an update with a matching document, the filter's first match is the position the update wrote |
| Dashboard.AlnumFloat | ghstats/app/main.py:22-23 | `float` of an alphanumeric string either raises `ValueError` or gives a number |
| Dashboard.AlnumFloatSpec | ghstats/app/main.py:22-23 | `float` accepts exactly numerals, numerals with a decimal exponent, and the names of infinity and NaN in any case; it gives their values |
| Dashboard.AlnumFloatExponent | ghstats/app/main.py:22-23 | A numeral with a numeral exponent reads as mantissa times ten to the exponent |
| Dashboard.TimestampOf | ghstats/app/main.py:26-27 | A finite value in range becomes the datetime with that timestamp; NaN raises `ValueError` and infinity or an out-of-range value raises `OverflowError` |
| Dashboard.ParseQueryDt | ghstats/app/main.py:18-28 | A datetime passes through; other strings go to `parse_dt`; integers and digit strings are timestamps; anything else raises `ValueError`; the only errors are `ValueError` and `OverflowError` |
| Dashboard.ParseQueryDtText | ghstats/app/main.py:24-25 | A datetime passed as its text comes back, for years 1000 and up |
| Dashboard.ParseQueryDtSeconds | ghstats/app/main.py:22-27 | A datetime passed as its decimal timestamp string comes back |
| Dashboard.ParseQueryDtInt | ghstats/app/main.py:26-27 | A datetime passed as its integer timestamp comes back |
| Dashboard.ParseQueryDtExponent | ghstats/app/main.py:22-27 | A timestamp written with an exponent is read as its value in seconds |
| Dashboard.ParseQueryDtSpecial | ghstats/app/main.py:22-28 | `inf` overflows, while `NaN` and the empty string raise `ValueError` |
| Dashboard.Wanted | ghstats/app/main.py:65-70 | A key absent from the query never fails |
| Dashboard.UpdateKeySpec | ghstats/app/main.py:64-71 | One loop step fails exactly when the query's value does not parse; otherwise the key holds the parsed datetime (or is removed when the query lacks it), and other keys are untouched |
| Dashboard.UpdateContextDtRangeSpec | ghstats/app/main.py:61-72 | Both date keys end up holding what the query asks for or are absent; every other key keeps its value; the first failing parse decides the error |
| Dashboard.UpdateContextDtRangeIdempotent | ghstats/app/main.py:61-72 | Applying the same query again to the resulting context changes nothing |
| Dashboard.UpdateKeyHeld | ghstats/app/main.py:64-71 | A context that already holds what the query asks for under a key is left unchanged |
| Dashboard.MetricOf | ghstats/app/main.py:137-138 | The metric defaults to `count`; any name other than `count` or `uniques` fails the assertion |
| Dashboard.MetricOfName | ghstats/app/main.py:137-138 | Asking for a metric by name selects that metric |
| Dashboard.ChartDataJson | ghstats/app/main.py:135-141 | The date range is checked first, then the metric; the route succeeds exactly when both pass, and then replies with the chart datasets for the requested metric |
| Dashboard.ChartDataJsonSpec | ghstats/app/main.py:135-141 | A successful reply has exactly as many datasets as charted repositories, one per repository, labelled with its slug and metric, with no legend repeated; each holds one point per axis timestamp, carrying that repository's metric there or a gap, as `PointSpec` states |
| TrafficChart.LabelInjective | ghstats/app/main.py:110-113 | Dataset labels tell repositories and metrics apart |
| TrafficChart.WithViews | ghstats/app/main.py:85-87 | Exactly the repositories with views are kept |
| TrafficChart.SelectedSpec | ghstats/app/main.py:83-89 | The loop charts exactly the repositories with views among the first `limit + 1` positions, in order; skipped repositories count towards the limit |
| TrafficChart.SelectFromSpec | ghstats/app/main.py:83-89 | From any position on, the loop charts the repositories with views up to the limit |
| TrafficChart.WithViewsDistinct | ghstats/app/main.py:83-89 | Dropping repositories keeps the slugs distinct |
| TrafficChart.InsertTime | ghstats/app/main.py:91 | Adding a timestamp to a sorted, duplicate-free axis keeps it so and adds exactly that timestamp |
| TrafficChart.SortedSet | ghstats/app/main.py:95 | `sorted(set(ts))` is strictly increasing and holds exactly the timestamps of `ts` |
| TrafficChart.TimelineStamps | ghstats/app/main.py:90 | The timestamps of a timeline, each one occurring in some entry |
| TrafficChart.Stamps | ghstats/app/main.py:90-91 | The union holds exactly the timestamps some charted repository has |
| TrafficChart.Axis | ghstats/app/main.py:80-95 | The chart's axis is sorted without duplicates and holds exactly the timestamps of the charted repositories |
| TrafficChart.Points | ghstats/app/main.py:116-125 | One point per axis timestamp, each labelled with that timestamp's text |
| TrafficChart.PointSpec | ghstats/app/main.py:116-122 | A point is a gap exactly when the timeline has no entry at its timestamp; otherwise it holds the metric of the last such entry |
| TrafficChart.AddRepoSpec | ghstats/app/main.py:92-94 | Filing a repository puts it under its count and slug and changes no other entry |
| TrafficChart.GroupAllSpec | ghstats/app/main.py:81-94 | With distinct slugs, the grouping files each charted repository under its count and slug, and nothing else |
| TrafficChart.AddRepoStep | ghstats/app/main.py:92-94 | Filing one more repository with a new slug keeps the grouping sound and complete |
| TrafficChart.GroupDatasets | ghstats/app/main.py:99-100 | The datasets of a group are those of the repositories filed under the listed slugs |
| TrafficChart.GroupDatasetsLength | ghstats/app/main.py:99-100 | Over slugs that are all keys of the group, one dataset per slug |
| TrafficChart.AllDatasets | ghstats/app/main.py:98-126 | The datasets are those of every repository filed in any group |
| TrafficChart.GroupDatasetsKeys | ghstats/app/main.py:99-100 | Over the sorted keys of a group, the datasets are those of all its entries |
| TrafficChart.ChartDataSpec | ghstats/app/main.py:75-127 | With distinct slugs, every dataset belongs to a charted repository and every charted repository has one, over the common axis; the chart has as many datasets as charted repositories and none twice |
| TrafficChart.DatasetsOfGroups | ghstats/app/main.py:98-126 | A sound and complete grouping yields exactly the datasets of the grouped repositories |
| TrafficChart.AddRepoTotal | ghstats/app/main.py:92-94 | Filing a repository whose slug its count's group lacks files exactly one more repository |
| TrafficChart.GroupAllTotal | ghstats/app/main.py:83-94 | With distinct slugs, the groups together hold exactly as many repositories as are charted |
| TrafficChart.AllDatasetsLength | ghstats/app/main.py:98-126 | The loops over groups and sorted slugs emit one dataset per filed repository |
| TrafficChart.DatasetsOnce | ghstats/app/main.py:98-126 | A sound, complete grouping that files each of its distinct-slug repositories once yields each of their datasets exactly once |
| TemplateTags.ListToStr | ghstats/app/templatetags.py:3-6 | Lists, dicts and strings are accepted and other values raise `TypeError`; a list gives its rendered items joined by commas |
| TemplateTags.ListToStrStrings | ghstats/app/templatetags.py:3-6 | A list of strings gives the strings joined by commas |
| TemplateTags.ListToStrSplit | ghstats/app/templatetags.py:6 | Splitting the output at commas gives back the rendered items, when none contains a comma |
| TemplateTags.ListToStrOfString | ghstats/app/templatetags.py:4-6 | A string is iterated character by character |
| ChartLoader.ZeroPad | ghstats/app/static/chartloader.js:2-10 | The result is the input with zeros in front, as long as the requested width or the input, whichever is longer |
| ChartLoader.ZeroPadNumber | ghstats/app/static/chartloader.js:2-10 | A padded non-negative number still reads as that number |
| ChartLoader.HiddenRepos | ghstats/app/static/chartloader.js:33-43 | An empty field gives no slugs; otherwise the comma-free pieces join back into the field |
| ChartLoader.IndexOf | ghstats/app/static/chartloader.js:129 | `indexOf` gives the first position of the slug, or -1 exactly when it is absent |
| ChartLoader.Hide | ghstats/app/static/chartloader.js:128-131 | Hiding appends the slug only when it is not listed yet |
| ChartLoader.Unhide | ghstats/app/static/chartloader.js:132-136 | Unhiding removes the first occurrence of a listed slug, keeping the other entries in order, and leaves an unlisted one alone |
| ChartLoader.RepoHidden | ghstats/app/static/chartloader.js:123-137 | The field is rewritten as the updated list joined by commas, and a hidden slug is listed |
| ChartLoader.HideKeepsDistinct | ghstats/app/static/chartloader.js:128-131 | Hiding never introduces a duplicate |
| ChartLoader.UnhideSpec | ghstats/app/static/chartloader.js:132-136 | In a duplicate-free list, unhiding removes the slug and keeps the other slugs in order |
| ChartLoader.HideUnhide | ghstats/app/static/chartloader.js:123-137 | Hiding and then unhiding a slug that was not hidden restores both the list and the field |
| ChartLoader.FieldRoundTrip | ghstats/app/static/chartloader.js:37-41 | Reading back a written field gives the list, when every slug is non-empty and comma-free |
| ChartLoader.TemplateFieldRoundTrip | ghstats/app/static/chartloader.js:37-41 | A field rendered by `list_to_str` is read back by the script as the same slugs |

## Left out

- `ghstats/app/colorutils.py` and `ghstats/app/chartdata.py` are not part of this model. Dataset colours and chart styling are left out for the same reason.
- The asyncio fan-out (`get_repo_data`, `get_data`, `update_traffic_data`), `ghstats/main.py` and `setup.py` are left out because they only schedule the modelled operations concurrently.
- The aiohttp transport, `log_request`, `RequestHandler.from_conf` (YAML file I/O), the motor client and its configuration, the jinja templates and the `home` route are left out: they are I/O. Fetches are a `fetch: string -> Page` parameter.
- `utils.now()` and every `now=None` default are left out: the clock is a parameter.
- `make_aware` and `UTC.normalize` are left out: every datetime is a UTC civil time.
- Microseconds and float timestamps are left out: timestamps are whole seconds. `float` of an alphanumeric string is always a whole number, so `parse_query_dt` loses nothing there.
- Dashboard.AlnumFloat: ASCII only. Unicode digits and letters, which `str.isalnum` and `float` also accept, are left out.
- DtFormat.ParseDtToStr: the round trip is stated for years 1000 and up only. Below that `%Y` is unpadded, and `ShortYearNotReparsed` shows the round trip fails there.
- Requests.DoRequestSpec: pagination is bounded by `fuel` further pages. An endless `next` chain gives `OutOfFuel` instead of never returning.
- Requests.MakeRequestSpec: stated for chains whose pages are all lists, the shape of the GitHub listings. A single page without a `next` link is covered for any body by `SinglePage`. For multi-page chains with a page that is not a list, only the status and the error are stated, by `DoRequestSpec`.
- Traffic.RepoEntry / Traffic.ReposFromSpec: owners and names must be strings. A non-string `owner.login` or `name` gives `TypeError` in the model, where Python would format it into the path.
- Partial in-place mutation before an exception is left out for `get_repos`, `decode` and `update_context_dt_range`: a failure returns only the error. `FillViews` does model the fields assigned before a failing lookup.
- DbStore.Matches: a filter matches when each field it names is present with an equal value. The server's query language is not modelled: a `None` filter value matching a missing field, a scalar matching an element of an array field, dotted paths and `$` operators. `insert_one` adding `_id` to the caller's dict in place is not modelled either. `find_one` follows the server's natural order, which the model takes to be insertion order.
- DbStore.AddDoc: grows the collection by one only when the document's `_id` is free. A taken `_id` is the server's `DuplicateKey` error.
- TrafficChart.ChartDataSpec: requires distinct slugs. The source keys its repositories by slug, so they are distinct there.
- TrafficChart.ChartDataSpec: states which datasets the chart holds and how many, not their order. The order is count groups as first met, then sorted slugs within a group. `AllDatasets` builds them in that order, but no lemma states it separately.
- DtFormat.ParseDtToStr: digits are ASCII `0`-`9` only, in `parse_dt` and in every other digit scan of the model. Python's `strptime` (`\d`) and `int()` also accept other Unicode decimal digits, so `parse_dt("٢٠١٨-01-01T00:00:00Z")` succeeds there but is `None` here. This reaches `parse_query_dt`, `iter_parse_datetimes` and `decode`.
- The order in which `get_traffic_chart_data` visits repositories (`reversed(sorted(repos.values()))`) is an input. `traffic.py` defines no ordering of `Repo`.
- `Repo.from_db`, `traffic_views_from_db_flat` and `traffic_paths_from_db_flat`, including their date-range filtering of stored timelines, are not part of this model.
- A `total_views` of `None` is left out: summaries carry an integer count.
- Metrics other than `count` and `uniques` inside `get_traffic_chart_data` are left out: the JSON route refuses them before the chart is built.
- `list_to_str` takes Python's `str` as a parameter. Only its identity on strings is assumed.
- JS `zeroPad` converts numbers with `toString()`. Only integers are modelled.
- `updateDtPicker` and the rest of the client script's DOM wiring are left out: they are presentation.
