# SprintBoard gateway core in Dafny

SprintBoard is an ASP.NET Web API controller. It sits in front of a JIRA instance: it searches a
project's sprint issues, resolves epic summaries, lists sprints and looks up users. The search
always goes to JIRA; the user lookup, the epic summaries and the sprint list are kept in a
process-wide `MemoryCache`. It also forwards three mutations: assignment, the
assign-then-transition workflow, and bulk subtask creation.

This project models the decision and string logic of `SprintController` as pure Dafny functions
over plain values:

- **Cache.** `MemoryCache.Default` is an explicit `map<string, Entry>`. An entry holds a value and
  its absolute expiry. Time is an integer `now` in seconds, and an entry is live strictly before
  its expiry.
- **Remote calls.** Each remote call is a parameter: an `HttpResponse` value, or a function from
  the requested id to its answer. Every operation returns the requests it issued, so "no fetch"
  and "exactly one fetch per id" can be stated.

Modules:

| module | file | models |
|---|---|---|
| `Results` | results.dfy | `Option`, `Result`, and the failures the controller throws |
| `Remote` | remote.dfy | the requests issued to JIRA, HTTP responses, status codes |
| `Text` | text.dfy | ordinal `String.Replace` and `String.Contains`, `String.IsNullOrWhiteSpace`, decimal formatting |
| `TtlCache` | ttl_cache.dfy | the cache map, `Contains`/indexer/`Set`, the four expiry periods, the fixed keys |
| `Search` | search.dfy | `Get`: the JQL filter, the default project, the custom-field rename |
| `Epics` | epics.dfy | `GetEpics`: `Distinct`, the hit test, the refetch, `ToDictionary`, the last-write-wins merge |
| `Catalog` | catalog.dfy | `GetUserData`, `GetSprints`: cache-or-fetch chains and the board match |
| `Mutations` | mutations.dfy | `Assign`, `UpdateState`, `PutSubTasks` |

Behaviour of the controller worth noting:

- A subtask summary is `"{k} - {title}"`.
- Only a null sprint selects `in openSprints()`. An empty sprint label produces `="Sprint "`.
- The sprint list is cached under the constant key `"sprints"`. So a live entry answers
  whichever board the board list resolves to.
- On a miss, `GetEpics` refetches every distinct requested id, including ids already cached.
- `Get` and `GetUserData` forward a failed remote response, so the caller sees its status.
  `GetSprints` fetches with `GetStringAsync`, which throws on a failure status, so the caller
  sees 500. Every other failure (an unreadable epic, a duplicate key, an unparsable board list,
  no matching board) is an exception escaping the action, and also surfaces as 500.

The store holds strings under every key except `"epics"`, which holds the epic dictionary. Every
operation requires this shape (`WellTyped`) and preserves it. Per-user keys start with `users-`,
so they never collide with the fixed keys. While only this controller writes the store, the
controller's `as T` casts therefore never yield null.

## Model

| member | source | states |
|---|---|---|
| Text.ReplaceAllSkip | SprintBoard/Controllers/SprintController.cs:86-87 | text in front of the first occurrence of the field id is copied unchanged by `String.Replace` |
| Text.ReplaceAllNoOccurrence | SprintBoard/Controllers/SprintController.cs:86-87 | a payload without the field id comes back unchanged |
| Text.ReplaceAllFirstOccurrence | SprintBoard/Controllers/SprintController.cs:86-87 | the first occurrence is replaced by the new name, everything before it kept, and the scan resumes behind it (non-overlapping, left to right) |
| Text.ReplaceAllLength | SprintBoard/Controllers/SprintController.cs:86-87 | replacing with a shorter (longer) name never lengthens (shortens) the payload |
| Text.ReplaceAllShrinks | SprintBoard/Controllers/SprintController.cs:86-87 | when the field id occurs and the new name is shorter, the payload strictly shrinks |
| Text.ReplaceAllIdentity | SprintBoard/Controllers/SprintController.cs:86-87 | with a different new name, the payload is unchanged if and only if the field id does not occur |
| Text.NatToString | SprintBoard/Controllers/SprintController.cs:256 | the task index is printed as a non-empty string of decimal digits, with no leading zero unless the index is 0 |
| Text.ReplaceAllAvoids | SprintBoard/Controllers/SprintController.cs:86-87 | after `String.Replace(pat, rep)` no occurrence of `q` remains, when `q` is `pat` or was absent, and no occurrence of `q` can overlap `rep` |
| Text.ParseNatToString | SprintBoard/Controllers/SprintController.cs:256 | the printed index reads back as the same number |
| TtlCache.Lookup | SprintBoard/Controllers/SprintController.cs:18-22 | the cache yields a value exactly when the key is present and not expired, and then the stored one |
| TtlCache.Store | SprintBoard/Controllers/SprintController.cs:57 | `Set` overwrites the key with the value and expiry now + ttl and leaves every other key alone |
| TtlCache.LookupAfterStore | SprintBoard/Controllers/SprintController.cs:129 | a stored value is read back before now + ttl and is gone from then on |
| TtlCache.StoreKeepsOthers | SprintBoard/Controllers/SprintController.cs:144 | storing under one key changes no lookup of another key at any time |
| TtlCache.UsersKeyIsFresh | SprintBoard/Controllers/SprintController.cs:43 | `"users-" + name` never equals `"epics"`, `"projects"` or `"sprints"` |
| TtlCache.StoreTextWellTyped | SprintBoard/Controllers/SprintController.cs:157 | storing a string under a key other than `"epics"` keeps the store's shape |
| Search.EffectiveProject | SprintBoard/Controllers/SprintController.cs:67-69 | a null or empty project becomes `"Evolution"`; any other project is used as given |
| Search.FilterSprintOfBuildJql | SprintBoard/Controllers/SprintController.cs:71-73 | the sprint selection (null, or the label) is read back from the filter `Project = {p} AND Sprint {clause} ORDER BY rank` |
| Search.BuildJqlOfFilterSprint | SprintBoard/Controllers/SprintController.cs:71-73 | any text the reader accepts is exactly the filter built for the selection it read |
| Search.BuildJqlInjective | SprintBoard/Controllers/SprintController.cs:71-73 | different sprint selections of one project give different filters |
| Search.RemapFields | SprintBoard/Controllers/SprintController.cs:86-87 | the two `Replace` calls give exactly the one-pass renaming `RenameFields`: each `customfield_10004` becomes `storyPoints`, each `customfield_10008` becomes `epicLink`, every other character is kept in place; so none remains, a payload mentioning only one id is exactly that id's `Replace`, the payload is unchanged iff it mentions neither, and is never longer |
| Search.RenameFieldsAsReplaces | SprintBoard/Controllers/SprintController.cs:86-87 | replacing `customfield_10004` by `storyPoints` and then `customfield_10008` by `epicLink` equals the one-pass renaming for every payload: the first rename creates no epic-link id and the second leaves `storyPoints` alone |
| Text.NoMatchAtStartAfterStep | SprintBoard/Controllers/SprintController.cs:86-87 | a text that does not start with `q` still does not after `String.Replace(pat, rep)` rewrites everything behind its first character, when `q` cannot overlap `rep` |
| Search.Get | SprintBoard/Controllers/SprintController.cs:67-95 | one search with maxResults 2000 whose filter reads back to the sprint selection; on a 2xx status the renamed payload, otherwise the upstream response forwarded with its status |
| Search.EmptyProjectSearchesDefault | SprintBoard/Controllers/SprintController.cs:67-69 | a null or empty project searches exactly as project `"Evolution"` |
| Epics.Dedup | SprintBoard/Controllers/SprintController.cs:100 | `Distinct` yields no duplicates, the same ids, and no more of them |
| Epics.DedupPrefix | SprintBoard/Controllers/SprintController.cs:100 | later ids never disturb the ids already kept, so the order is that of first occurrence |
| Epics.DedupOfDistinct | SprintBoard/Controllers/SprintController.cs:100 | ids that are already distinct are kept as they are |
| Epics.Collect | SprintBoard/Controllers/SprintController.cs:119-121 | `ToDictionary` succeeds iff every response is readable and their keys are distinct; then it maps each response's key to its summary; otherwise it fails as unreadable or duplicate |
| Epics.Merge | SprintBoard/Controllers/SprintController.cs:124-127 | merged keys are cached ∪ fetched; fetched values win on shared keys; cached-only keys keep their value |
| Epics.LastWins | SprintBoard/Controllers/SprintController.cs:125-127 | `ToLookup` then `Last()` maps every key of the pair stream to the value of its last pair |
| Epics.MergeIsLastWins | SprintBoard/Controllers/SprintController.cs:124-127 | for any enumeration order of the two dictionaries, the SelectMany/ToLookup/Last pipeline computes `Merge` |
| Epics.Refetch | SprintBoard/Controllers/SprintController.cs:119-127 | the miss path succeeds iff all responses are readable with distinct keys; the result holds cached ∪ fetched keys, fetched summaries, and cached values elsewhere |
| Epics.GetEpics | SprintBoard/Controllers/SprintController.cs:97-132 | all ids cached: no request, the cached map as is, store unchanged; otherwise one request per distinct id, and on success the merged map stored under `"epics"` for 4 hours; on failure the store is unchanged and the caller sees 500 |
| Epics.MissFetchesEachIdOnce | SprintBoard/Controllers/SprintController.cs:107-116 | on a miss an id is fetched iff it was requested, cached or not, and no id is fetched twice |
| Epics.ResolvedCoversRequest | SprintBoard/Controllers/SprintController.cs:119-131 | when each epic answers under its own id, every requested id is in the answer, with the fetched summary after a refetch |
| Epics.StoredEpicsServeLaterRequests | SprintBoard/Controllers/SprintController.cs:102-110 | a dictionary stored under "epics" answers any request for ids it holds, for 4 hours, with no remote call and the cache unchanged |
| Epics.RefetchServesLaterRequests | SprintBoard/Controllers/SprintController.cs:102-131 | when every epic answers under its own id a miss always succeeds, and a request for any subset of those ids within 4 hours is then answered from the store with no remote call |
| Epics.RefetchKeepsCachedIds | SprintBoard/Controllers/SprintController.cs:124-131 | a successful resolution never loses an id the cached map had |
| Catalog.CacheOrFetch | SprintBoard/Controllers/SprintController.cs:136-145 | a live key answers with no request; otherwise one request, a 2xx body stored for ttl, a failure reported as forwarded or thrown with the store unchanged; other keys untouched |
| Catalog.CacheOrFetchServesUntilExpiry | SprintBoard/Controllers/SprintController.cs:149-158 | after a fetched answer, the same lookup before its expiry is served from the store with no request |
| Catalog.GetUserData | SprintBoard/Controllers/SprintController.cs:41-65 | user record from the live `"users-" + name` entry, or fetched and stored for 7 days; a failure response is forwarded, so the caller sees its status, and nothing is stored |
| Catalog.UserDataServedForAWeek | SprintBoard/Controllers/SprintController.cs:43-57 | a fetched user record is served, with no request, for seven days |
| Catalog.FirstBoard | SprintBoard/Controllers/SprintController.cs:147 | the index of the first view whose name contains the needle; none iff no view does |
| Catalog.ResolveBoard | SprintBoard/Controllers/SprintController.cs:146-147 | an unparsable list fails; a parsed list fails only with no-match, which happens iff no name contains `"Iterations"`; else the first view that does |
| Catalog.GetSprints | SprintBoard/Controllers/SprintController.cs:134-160 | the exact requests: the board list iff `"projects"` is not live, then the sprints of the first `"Iterations"` board iff one resolves and `"sprints"` is not live; board list stored for 15 days, sprint list for exactly 4 hours; a live `"projects"` or `"sprints"` entry is only read, never re-stored or extended; a live `"sprints"` entry answers regardless of board; a failed board or sprint fetch, or a board that does not resolve, fails with `"sprints"` untouched, and every failure reaches the caller as 500 |
| Catalog.NoBoardNoSprintFetch | SprintBoard/Controllers/SprintController.cs:146-158 | with no matching board the lookup fails with no-match, asks for no sprints and leaves `"sprints"` alone |
| Catalog.CachedSprintsServeAnyBoard | SprintBoard/Controllers/SprintController.cs:149-153 | a live `"sprints"` entry is returned for whichever board the list resolves to, with no sprint request |
| Catalog.SprintsServedForFourHours | SprintBoard/Controllers/SprintController.cs:149-158 | after a sprint fetch, every lookup in the next 4 hours that resolves a board returns the same list without asking for sprints |
| Mutations.UpdateState | SprintBoard/Controllers/SprintController.cs:191-221 | assignment issued iff requested and issued first; transition issued iff the assignment was skipped or answered 204; each at most once and nothing else; the answer is the transition's if issued, else the assignment's |
| Mutations.ConfirmedAssignmentThenTransition | SprintBoard/Controllers/SprintController.cs:194-217 | after an assignment answered 204 the exchange is that assignment followed by exactly the exchange of the same update without reassignment |
| Mutations.SkippedAssignmentIsIrrelevant | SprintBoard/Controllers/SprintController.cs:194-204 | without reassignment the assignment outcome plays no part |
| Mutations.AssignmentShortCircuits | SprintBoard/Controllers/SprintController.cs:204-220 | an assignment answered with anything but 204 is returned verbatim and no transition follows |
| Mutations.ProjectKey | SprintBoard/Controllers/SprintController.cs:250 | the project key is the longest dash-free prefix of the parent id, ending at its first `-` |
| Mutations.SummaryRoundTrip | SprintBoard/Controllers/SprintController.cs:256 | index and title are recovered from `"{k} - {title}"` |
| Mutations.SummaryInjective | SprintBoard/Controllers/SprintController.cs:256 | different (index, title) pairs never share a summary |
| Mutations.SubtaskRequests | SprintBoard/Controllers/SprintController.cs:243-264 | one creation request per kept title; the k-th has parent key, project key, summary numbered k and type "Technical Task" |
| Mutations.KeptTitlesMembers | SprintBoard/Controllers/SprintController.cs:242 | the kept titles are exactly the titles that are not null-or-white-space |
| Mutations.KeptTitlesAppend | SprintBoard/Controllers/SprintController.cs:242 | filtering distributes over concatenation, so kept titles keep their order |
| Mutations.PutSubTasks | SprintBoard/Controllers/SprintController.cs:229-270 | an empty list gives 400 and no request; otherwise one request per non-blank title in order, numbered from 1, then 201 |
| Mutations.SubtaskSummaryIdentifiesTitle | SprintBoard/Controllers/SprintController.cs:256 | each request's summary reads back to its position among the kept titles and its title |
| Mutations.KeptTitlesExample | SprintBoard/Controllers/SprintController.cs:242 | titles `""`, `"  "`, `"Do X"` keep only `"Do X"` |
| Mutations.ProjectKeyExample | SprintBoard/Controllers/SprintController.cs:250 | parent `"ABC-1"` gives project key `"ABC"` |
| Mutations.SummaryExample | SprintBoard/Controllers/SprintController.cs:256 | the first kept title `"Do X"` gets summary `"1 - Do X"` |

## Left out

- `HttpClient` construction is I/O plumbing and is not modelled: the base address, the JSON
  accept header and the passed-through Basic credentials.
- URL encoding of the filter and the `fields=` list of the search request are not modelled. The
  request records only the filter and maxResults.
- JSON deserialization is a foreign library call:
  - `Get` returns the renamed payload text, not the 202 response wrapping its re-parsed object.
  - Epic responses are given as already-read issues. An unreadable body is `None`.
  - The board list is parsed by a function parameter that may fail.
- Concurrency is not modelled: the `.Result` blocking, the `Task.WhenAll` and `Task.WaitAll`
  fan-out, and the race between two overlapping resolutions. Each operation runs atomically on
  one store value, so the lost update of that race cannot be expressed.
- The clock is one `now` per operation. The controller calls `Contains` and then the indexer, so an
  entry expiring between the two calls would come back null. That case is not modelled.
- `MemoryCache` may evict entries early under memory pressure. The model keeps every entry until
  it expires.
- Transport failures are not modelled. In the controller, a faulted task rethrows from `.Result`.
  Remote answers are HTTP statuses with bodies. A failure status is modelled as forwarded
  (`Upstream`) or thrown (`RequestFailed`). The caller's status for it is `StatusSent`; the
  body of the 500 response is not modelled.
- Null arguments are not modelled: a null task list, parent, title, username or epic list. Strings
  and sequences are never null here.
- The store values' types: `Catalog.GetSprints`, `Catalog.GetUserData` and `Epics.GetEpics`
  require the store to hold the epic dictionary under `"epics"` and strings elsewhere. That is
  the shape the controller itself writes.
- `Assign` is modelled as one request whose response is returned as is. It has no contract
  beyond its body.
- `PutSubTasks` does not take the individual creation responses. The controller waits for them and
  ignores them.
- `App_Start/WebApiConfig.cs` only registers routes and has no logic to model.
