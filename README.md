# realtime-call-up client helpers, modelled in Dafny

The realtime-call-up demo of coze-js has a React hook, `useCozeAPI`. Beside
the calls it forwards to the platform client, the hook does a small amount of
work of its own:

- it walks paginated listings, to find the personal workspace (pages of 50),
  to find a bot by name (pages of 20) and to collect every workspace as a
  `{value, label}` option (pages of 50);
- it reorders the voice listing: custom voices first, then system voices
  grouped by language, the groups sorted by descending language name;
- it picks a default voice, the first custom voice or else the first voice;
- it finds or creates the demo bot `realtime-call-up` in the personal
  workspace and publishes a new bot to the `API` connector.

This project models that work and proves what it guarantees.

Modules:

- `Wrappers` holds `Option`, `Result` and `Outcome`.
- `Seqs` holds `FindFirst`, the model of `Array.prototype.findIndex`; `Voices.PickVoice` builds `find` on it.
- `Remote` models a paginated listing as data: the reply to every page
  request, or `NoClient` when the client handle is null and every `api?.`
  call yields undefined. It defines the reference functions that the walking
  loops are proved against:
  - `LastPage`: the number of passes of a walking loop, i.e. the first page that is not exactly full (each pass sends one request when a client exists);
  - `Gathered`: the records of pages 1..k;
  - `Search`: the first match in page-then-index order;
  - `Collect`: every record read.
- `Workspaces` holds the two workspace walks.
- `Bots` holds the bot walk and the find-or-create workflow.
- `Voices` holds the voice listing and the default voice.

Naming:

- Record fields use camelCase (`languageName` for `language_name`).
- The display option's `label` is called `caption` in the model, because
  `label` is a reserved word in Dafny.

The walks that change loop variables (`GetPersonalWorkspace`, `GetBotByName`,
`FetchAllWorkspaces`) and the `reduce` that builds the language dictionary
(`GroupByLanguage`) are methods with loops. Their `ensures` tie each result to
the reference functions. Filtering, sorting, flattening and the
find-or-create branches are functions.

The platform's answers are inputs of the model:

- `workspaces.list` and `bots.list` become `Listing` values, one per workspace for bots;
- `audio.voices.list` becomes an optional `Reply`;
- bot creation and publishing become functions from the request to the answer.

`String.prototype.localeCompare` is a parameter `less`. The ordering lemmas
require it to be a strict total order.

Two behaviours of the code worth knowing:

- The walks continue only while a page has exactly `page_size` records
  (`=== page_size`), so a page longer than that also ends them
  (`Remote.OversizedPageStops`).
- The comparator `(a, b) => b.localeCompare(a)` (use-coze-api.tsx:177) puts
  the largest language name first, although the comment above it
  (use-coze-api.tsx:175) says "alphabetically". With Chinese collating before
  English, E1, C1, Z1, C2, E2 is listed as C1, C2, E1, E2, Z1
  (`Voices.ListingExample`).

## Model

| member | source | states |
|---|---|---|
| Seqs.FindFirst | examples/realtime-call-up/src/use-coze-api.tsx:205 | the index found satisfies the predicate and no earlier element does; `None` only when no element does |
| Remote.Fetch | examples/realtime-call-up/src/use-coze-api.tsx:103-106 | the reply to one `api?.….list` call for page n: undefined exactly when there is no client, an empty list for every page past the end |
| Remote.IsFull | examples/realtime-call-up/src/use-coze-api.tsx:114 | the `hasMore` test `length === page_size`; an undefined reply is never full |
| Remote.ItemsOf | examples/realtime-call-up/src/use-coze-api.tsx:108 | the `?.… \|\| []` fallback: the records of a reply, and `[]` when the reply is undefined or threw |
| Remote.LastPage | examples/realtime-call-up/src/use-coze-api.tsx:213-235 | the walk from page n stops at a page that is not exactly full, and every page before it is full |
| Remote.LastPageIs | examples/realtime-call-up/src/use-coze-api.tsx:114-115 | if pages 1..n-1 are full and page n is not, the walk makes exactly n passes |
| Remote.Search | examples/realtime-call-up/src/use-coze-api.tsx:102-117 | the result is the first matching record of the pages read, in page-then-index order; with no match it is null, or the exception of the last page read |
| Remote.SearchHit | examples/realtime-call-up/src/use-coze-api.tsx:108-112 | a match at index j of page n, with no match before it, is the search result |
| Remote.SearchMiss | examples/realtime-call-up/src/use-coze-api.tsx:114-117 | no match on any page up to the first page that is not full gives null, or that page's exception when it threw |
| Remote.NoClientStopsAtOnce | examples/realtime-call-up/src/use-coze-api.tsx:220-233 | with no client the loop makes one pass and sends no request (`api?.` short-circuits), the collection is empty and the search finds nothing |
| Remote.OversizedPageStops | examples/realtime-call-up/src/use-coze-api.tsx:233 | a page longer than the page size ends the walk |
| Remote.Gathered | examples/realtime-call-up/src/use-coze-api.tsx:231 | the records of pages 1..k appended page after page; nothing without a client |
| Remote.Collect | examples/realtime-call-up/src/use-coze-api.tsx:219-237 | fails exactly when the last page read threw; otherwise no page read threw and the result is the records of pages 1..k, k the number of passes |
| Remote.CompleteListing | examples/realtime-call-up/src/use-coze-api.tsx:212-237 | for pages all full but a shorter last one, the walk returns every record in order; it makes one extra pass, answered by an empty page, when the last page is full |
| Workspaces.GetPersonalWorkspace | examples/realtime-call-up/src/use-coze-api.tsx:98-118 | returns `Search` for `workspace_type == "personal"` over 50-record pages |
| Workspaces.FetchAllWorkspaces | examples/realtime-call-up/src/use-coze-api.tsx:212-242 | returns the options of every record of pages 1..k, where k is the first page that is not full and equals the number of passes; an exception on the last page read propagates |
| Workspaces.ToOptions | examples/realtime-call-up/src/use-coze-api.tsx:225-229 | one option per workspace, in order, with the workspace's id as value and its name as label |
| Workspaces.ToOptionsConcat | examples/realtime-call-up/src/use-coze-api.tsx:225-231 | projecting page by page and appending equals projecting the concatenation |
| Workspaces.BoundaryPages | examples/realtime-call-up/src/use-coze-api.tsx:219-234 | page lengths 50, 50, 30 take 3 passes and give all 130 records; 50, 50 give all 100 records after a third pass answered by an empty page |
| Bots.GetBotByName | examples/realtime-call-up/src/use-coze-api.tsx:120-151 | returns `Search` for exact `bot_name` equality over the workspace's 20-record pages |
| Bots.GetOrCreateRealtimeCallUpBot | examples/realtime-call-up/src/use-coze-api.tsx:254-302 | a returned bot is named realtime-call-up; at most two writes: a creation with the fixed name and description, then a publish to `["API"]` |
| Bots.NoPersonalWorkspaceFails | examples/realtime-call-up/src/use-coze-api.tsx:257-260 | without a personal workspace among the pages read the workflow writes nothing and fails: with the listing's exception when its last page read threw, otherwise with "personal workspace not found" |
| Bots.BotListingFailureFails | examples/realtime-call-up/src/use-coze-api.tsx:265-268 | an exception from the bot listing propagates unchanged, and nothing is created or published |
| Bots.ExistingBotIsReused | examples/realtime-call-up/src/use-coze-api.tsx:265-272 | a listed bot of that name is returned unchanged, with no creation and no publish |
| Bots.MissingBotIsCreated | examples/realtime-call-up/src/use-coze-api.tsx:274-297 | with no such bot: create in the personal workspace; a missing answer fails; otherwise publish the new id to API; a publishing exception propagates, and a successful publish returns the new id with the fixed name and blank fields |
| Voices.Format | examples/realtime-call-up/src/use-coze-api.tsx:181-192 | the caption is `name (language_name)` and the record maps back to the voice it came from |
| Voices.FormatAll | examples/realtime-call-up/src/use-coze-api.tsx:181-193 | the `.map` over the merged list: one display option per voice, same length |
| Voices.FormatAllAt | examples/realtime-call-up/src/use-coze-api.tsx:181-193 | the option at each position is the projection (`Format`) of the voice at that position |
| Voices.Custom | examples/realtime-call-up/src/use-coze-api.tsx:158-159 | only input voices that are not system voices |
| Voices.System | examples/realtime-call-up/src/use-coze-api.tsx:160-161 | only input system voices |
| Voices.PartitionMultiset | examples/realtime-call-up/src/use-coze-api.tsx:158-161 | the two filters together hold every voice exactly once |
| Voices.Languages | examples/realtime-call-up/src/use-coze-api.tsx:164-173 | the dictionary keys have no duplicates |
| Voices.LanguagesMembers | examples/realtime-call-up/src/use-coze-api.tsx:164-173 | a name is a key exactly when some voice has that language |
| Voices.GroupByLanguage | examples/realtime-call-up/src/use-coze-api.tsx:164-173 | the `reduce` gives the keys in first-occurrence order and maps each language to its voices in input order |
| Voices.GroupStep | examples/realtime-call-up/src/use-coze-api.tsx:167-171 | one step adds a key on first sight and appends the voice to its language's list only |
| Voices.SortDescending | examples/realtime-call-up/src/use-coze-api.tsx:176-177 | the sorted keys are a permutation of the keys |
| Voices.SortSorts | examples/realtime-call-up/src/use-coze-api.tsx:177 | under a strict total order, distinct keys are sorted strictly descending |
| Voices.SortIgnoresEntryOrder | examples/realtime-call-up/src/use-coze-api.tsx:176-177 | two key lists with the same distinct members sort to the same list |
| Voices.Flatten | examples/realtime-call-up/src/use-coze-api.tsx:178 | the `flatMap`: the groups of the sorted keys, one after the other (its properties are the Flatten lemmas below) |
| Voices.FlattenMembers | examples/realtime-call-up/src/use-coze-api.tsx:178 | a voice is in the flattened list exactly when it is in the group of one of the keys |
| Voices.FlattenMultiset | examples/realtime-call-up/src/use-coze-api.tsx:178 | flattening the groups of distinct keys gives exactly the voices of those languages |
| Voices.FlattenOfLanguage | examples/realtime-call-up/src/use-coze-api.tsx:178 | in the flattened list, the voices of a language are that language's group in input order |
| Voices.FlattenDescending | examples/realtime-call-up/src/use-coze-api.tsx:178 | flattening groups in descending key order never moves to a larger language name |
| Voices.FetchAllVoices | examples/realtime-call-up/src/use-coze-api.tsx:153-200 | an exception propagates; otherwise the result is the projection of custom voices followed by the sorted and flattened system voices; undefined gives `[]` |
| Voices.SystemOrder | examples/realtime-call-up/src/use-coze-api.tsx:176-178 | the system voices grouped, the groups sorted by descending name and flattened (its properties: `SystemOrderPermutation`, `SystemPart`) |
| Voices.SystemOrderPermutation | examples/realtime-call-up/src/use-coze-api.tsx:176-178 | the reordered system voices are a permutation of the system voices |
| Voices.VoiceOrder | examples/realtime-call-up/src/use-coze-api.tsx:181 | the merge `[...customVoices, ...sortedSystemVoices]` (its properties: the listing lemmas below) |
| Voices.VoiceOrderPermutation | examples/realtime-call-up/src/use-coze-api.tsx:181 | the listing is a permutation of the input voices |
| Voices.ListingIsPermutation | examples/realtime-call-up/src/use-coze-api.tsx:181-195 | mapping the display options back gives a permutation of the input |
| Voices.CustomBeforeSystem | examples/realtime-call-up/src/use-coze-api.tsx:181 | position i holds a system voice exactly when i is at or past the number of custom voices, so every custom voice precedes every system voice |
| Voices.CustomOrderKept | examples/realtime-call-up/src/use-coze-api.tsx:158-159 | the custom voices appear in input order |
| Voices.SystemPart | examples/realtime-call-up/src/use-coze-api.tsx:176-181 | the system part of the listing is the sorted and flattened system voices |
| Voices.LanguageOrderKept | examples/realtime-call-up/src/use-coze-api.tsx:164-178 | the system voices of each language appear in input order |
| Voices.LanguagesDescending | examples/realtime-call-up/src/use-coze-api.tsx:176-178 | along the system part, language names never go up, and each language's voices are contiguous |
| Voices.DescendingIsContiguous | examples/realtime-call-up/src/use-coze-api.tsx:176-178 | a list whose names never go up has each language's voices together |
| Voices.ListingExample | examples/realtime-call-up/src/use-coze-api.tsx:153-195 | E1, C1, Z1, C2, E2 is listed as C1, C2, E1, E2, Z1 when Chinese collates before English |
| Voices.PickVoice | examples/realtime-call-up/src/use-coze-api.tsx:205-209 | undefined only for no voices; otherwise the first custom voice, or the first voice when all are system voices |
| Voices.GetSomeVoice | examples/realtime-call-up/src/use-coze-api.tsx:202-210 | an exception propagates; otherwise the choice from the formatted listing |
| Voices.SomeVoicePrefersCustom | examples/realtime-call-up/src/use-coze-api.tsx:202-208 | with a custom voice, the default is the first custom voice of the input |
| Voices.SomeVoiceFallsBack | examples/realtime-call-up/src/use-coze-api.tsx:202-210 | with only system voices, the default is an input voice of a language no other collates after, and the first of its language |

## Left out

- Access-token, OAuth PKCE and token-refresh helpers (use-coze-api.tsx:65-96): they forward to library calls without logic of their own.
- `getCurrentLocation` (use-coze-api.tsx:62-63): the redirect URL it builds from `window.location` (protocol, host and path, dropping query and fragment) is not modelled, because the browser location is outside the model.
- Hook state and client construction (use-coze-api.tsx:48-60): React lifecycle. The model has instead the two cases "client present" and "client null" (`NoClient`, or `None` for the voice reply).
- `cloneVoice` (use-coze-api.tsx:244-252): a single forwarded call.
- Console logging, `async`/`await` scheduling and concurrency of overlapping calls: they have no effect on the values returned.
- The real effects of bot creation and publishing: they are inputs. The model records which writes are issued and in what order.
- Idempotence of the bot workflow across two runs: not stated, because it needs a model of server state. `Bots.ExistingBotIsReused` states the part that does not.
- `localeCompare`: modelled as an abstract strict total order. Its locale rules, and ties it reports between distinct strings, are not modelled.
- Voices.GroupByLanguage: the key order of `Object.entries` is taken as first-occurrence order. JavaScript lists integer-like keys first. `Voices.SortIgnoresEntryOrder` shows the sorted result does not depend on this.
- Voices.SortDescending: modelled as an insertion sort. The engine's `Array.prototype.sort` is not modelled, but with a strict total order and distinct keys every correct sort gives the same list (`Voices.DescendingUnique`).
- Voices.GroupByLanguage: the dictionary is modelled as a map from names to lists, with no inherited keys. In JavaScript a plain `{}` inherits keys such as `constructor`, `toString`, `hasOwnProperty`, `valueOf` and `__proto__`. For a system voice with such a language name, `acc[languageName]` is already truthy, so `push` throws a `TypeError` and `fetchAllVoices` rethrows it (use-coze-api.tsx:168-171, 196-198). The model returns a normal grouping there instead.
- Endless listings: a `Listing` holds finitely many pages, and every page past the end is empty. A server that answers every request with a full page, on which the source's `while (hasMore)` loops would never end, cannot be expressed, so every modelled walk terminates.
- A successful `publish` returns nothing the code reads. The model keeps only `Pass` or `Fail`.
- Voices.Format: `available_training_times` (the field `availableTrainingTimes`) is a JavaScript `number`, modelled as an unbounded `int`. The code only copies it, so no behaviour depends on the difference (fractions, NaN, precision).
