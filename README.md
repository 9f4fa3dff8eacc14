# Uptime Kuma Discord status bot and metrics backend, modelled in Dafny

The system reads monitor data from an Uptime Kuma server and publishes it. It has two parts:

- **The Discord bot** (`Bot/index.js`) fetches the status-page metadata and the heartbeats. For each heartbeat entry it builds one record with a name, a group, a status glyph, a ping and a 24-hour uptime, and sorts the records by group and name. The bot checks the list against its own comma-separated group include list, buckets the records by group and renders one embed description. It then either edits the status message it remembers or sends a new one and remembers that message's id.
- **The PHP backend** (`Web/index.php`) builds the `/metrics` address from a base URL. It scans the Prometheus text for `monitor_status{...} N` samples and parses each sample's labels. It answers with JSON: `ok`, `count` and `data` on success, or `ok=false` with the error, the HTTP status and the address.

The modules follow the program's structure:

| module | file | contents |
|---|---|---|
| `Wrappers` | wrappers.dfy | `Option`, `FilterMap`/`MapSeq` over sequences, and the increasing list of `Positions` whose element satisfies a test |
| `Text` | text.dfy | `split`/`explode` on one character, join, trim of a character set, ASCII lower-casing, decimal digits, trailing-character stripping |
| `Assoc` | assoc.dfy | a map filled by assignments in order (`Map.set`, `$a[$k] = $v`): the last write wins |
| `Monitors` | monitors.dfy | JSON scalars, the status glyph, `latestOf`, the `nameById` table, the merged record, the (group, name) sort |
| `Presentation` | presentation.dfy | `parseGroupList`, the include filter, grouping, the description lines, and the grouping exactly as written (see Findings) |
| `Bot` | bot.dfy | the loops of `fetchMonitors` and `updateStatus` as methods proved against those functions; the `StatusBot` class that keeps `messageId`; properties over many cycles |
| `Metrics` | metrics.dfy | the address, the lazy-regex scanner, the label loop, records, the `(int)` cast and the response |

I/O is turned into inputs:

- The two HTTP payloads of `fetchMonitors` are a `Bot.Snapshot`. `None` means a fetch that threw.
- The Discord channel's behaviour in one cycle is a `Bot.Channel`: whether the remembered message is found, whether the edit succeeds, and the id of the sent message (`None` when sending throws).
- For the backend, the HTTP status and the body are parameters (`None` stands for curl's `false`).

After a remembered message is not found, the code does not clear `messageId`. It sends a new message and stores that message's id, and if the send throws it keeps the old id (`Bot/index.js:177-185`).

## Model

| member | source | states |
|---|---|---|
| Bot.KumaBase | Bot/index.js:36 | the base never ends in `/`; it is the setting with its trailing slashes removed, or the built-in address when the setting is absent or empty |
| Monitors.EmojiFromStatusNumeric | Bot/index.js:52-57 | total: up exactly for the number 1, down exactly for 0, pending exactly for 2, unknown for every other value including strings, null and a missing status |
| Monitors.LatestOf | Bot/index.js:59-62 | null exactly for a non-array or an empty array; otherwise the element at index length − 1 |
| Monitors.MetaOf | Bot/index.js:80 | the table entry has a non-empty name: the monitor's own name when it is truthy, `Monitor {id}` when it is falsy; and the group's name |
| Monitors.GroupPairsSkipsMissingIds | Bot/index.js:78-82 | a group's assignment `t` is the key `String(id)` and entry of the `t`-th monitor whose id is neither null nor undefined: one assignment per such monitor, in list order (`Wrappers.Positions` lists exactly those positions, increasing), and none for the others |
| Monitors.NameTableEntries | Bot/index.js:74-83 | every table entry has a non-empty name and, when it has a group, a non-empty group |
| Monitors.NameTableLaterGroupWins | Bot/index.js:75-80 | a later group's entries override earlier ones: the table for one more group is the table so far updated with that group's entries |
| Assoc.MapOfPairsLastWins | Bot/index.js:80 | with in-order assignments, a key ends up with the value of its last assignment |
| Bot.AddGroup | Bot/index.js:78-82 | the inner `nameById.set` loop yields the table so far extended by exactly that group's assignments |
| Bot.BuildNameTable | Bot/index.js:74-83 | the nested loops build exactly the name table of the group list |
| Monitors.NumberOfKey | Bot/index.js:100 | `Number(id)`: a string of digits gives its value (the empty key gives 0), and the spelling of a number gives back that number; any other key gives NaN |
| Monitors.GroupOr | Bot/index.js:102 | the group is never empty: the table's group when non-empty, otherwise `Allgemein` |
| Monitors.RecordOf | Bot/index.js:93-106 | name and group come from the table, or are `Monitor {id}` and `Allgemein`; the glyph is that of the latest status; the ping is present exactly when the latest ping is a number, and equals it; the uptime is present exactly when `uptimeList["{id}_24"]` is a number, and then equals that fraction × 100 |
| Monitors.Unsorted | Bot/index.js:92-107 | one record per heartbeat entry, record `i` made from entry `i` |
| Monitors.SortRecords | Bot/index.js:109 | the sorted records are ordered by group and then name, and are a permutation of the input |
| Monitors.RecordLeTransitive | Bot/index.js:109 | the comparator is transitive (with `RecordLeTotal`, a total preorder) |
| Monitors.MergedShape | Bot/index.js:92-109 | the merged list has exactly one record per heartbeat entry, is sorted by group and name, is a permutation of the per-entry records, and every record has a non-empty name and group |
| Bot.FetchMonitors | Bot/index.js:74-110 | the table loops, the push loop and the sort return exactly the merged list: one record per entry, sorted |
| Monitors.Fixed2NonNeg | Bot/index.js:161 | `toFixed(2)` for a non-negative number: digits, a point and two digits whose value in hundredths is within half a hundredth of 100·x, ties going up; the whole part has no leading zero unless it is `0` |
| Presentation.ParseGroupList | Bot/index.js:114-119 | every entry is non-empty, has no white space at either end and no comma; an absent or empty setting gives no entries; a string is an entry exactly when it is a non-empty trimmed comma-separated part |
| Presentation.FilterByGroups | Bot/index.js:146-148 | an empty include list keeps every record; otherwise exactly the records whose lower-cased group is among the lower-cased entries are kept: each as often as in the input, and in input order (record `t` is the input record at the `t`-th included position); a sorted list stays sorted |
| Presentation.IncludedIff | Bot/index.js:147 | a group passes the filter exactly when some include entry equals it once both are lower-cased |
| Presentation.GroupOrderMembers | Bot/index.js:150-155 | a key is one of the groups met exactly when some record has that key |
| Presentation.BucketMembers | Bot/index.js:150-155 | a record is in the bucket of `k` exactly when it is one of the records and its key is `k` |
| Presentation.NoEmptyGroups | Bot/index.js:150-155 | every group that appears has at least one record |
| Presentation.GroupingSortedIsIdentity | Bot/index.js:150-155 | for records sorted by group, the buckets put one after the other in group order are exactly the records: none is lost, duplicated or moved |
| Bot.BucketMapSnoc | Bot/index.js:151-154 | one more record appends its key to the order when it is new, and appends the record to its own bucket only |
| Bot.GroupByGroup | Bot/index.js:150-155 | the grouping loop yields the groups in first-met order, one bucket per group and no other, holding exactly that group's records in order |
| Presentation.MonitorLineText | Bot/index.js:161-163 | a monitor line is `> ` glyph, the bold name, the uptime with `%` or a dash, and `Ping {ping} ms` or `Ping —`, joined with the source's separators |
| Bot.PushMonitorLines | Bot/index.js:160-164 | the inner loop appends exactly one line per monitor of the group, in order |
| Bot.PushGroupLines | Bot/index.js:159-165 | one group adds its header, its monitor lines and a blank line |
| Bot.RenderLines | Bot/index.js:157-166 | the line loops produce exactly the group blocks in group order, two lines per group plus one per monitor |
| Presentation.LinesOfCount | Bot/index.js:157-166 | the number of lines is two per group plus one per monitor |
| Presentation.LinesOfShowsMonitor | Bot/index.js:157-166 | every record of every rendered group appears as its own line |
| Presentation.Description | Bot/index.js:171 | the description is never empty |
| Presentation.DescriptionPlaceholderIff | Bot/index.js:171 | the description is the placeholder exactly when no group is left, and otherwise the lines joined with line breaks |
| Bot.Render | Bot/index.js:143-171 | fetch, filter, group and render give exactly the description of the snapshot |
| Bot.Reconcile | Bot/index.js:177-187 | with a remembered id whose message is found, the id is kept and nothing is sent: a successful edit edits it, and a failed edit posts nothing; otherwise a successful send sends and remembers the new id, and a failed send posts nothing and keeps the id; the id only ever changes to the id of a message just sent |
| Bot.Rendered | Bot/index.js:141-171 | a description is handed on exactly when the fetch did not throw, and it is never empty |
| Bot.Cycle | Bot/index.js:177-188 | a cycle that threw before posting posts nothing and keeps the id; otherwise it reconciles the rendered description, and whatever is edited or sent is exactly that description |
| Bot.StatusBot.constructor | Bot/index.js:131-139 | a new bot holds the parsed include list and no message id |
| Bot.StatusBot.UpdateStatus | Bot/index.js:141-189 | the outcome and the new `messageId` are exactly those of one cycle on the old `messageId` and the description rendered from the fetched snapshot |
| Bot.AfterIsInitialOrSent | Bot/index.js:177-188 | over any number of cycles, the remembered id is the initial one or the id of a message one of the cycles sent |
| Bot.FoundKeepsId | Bot/index.js:177-182 | once an id is remembered, cycles that always find its message never change it, whether fetch or edit fail or not |
| Bot.SendThenEdit | Bot/index.js:177-185 | a fresh bot's first cycle sends its description and remembers the message, and the next cycle that finds it edits it with the new description |
| Bot.DeletedMessageIsReplaced | Bot/index.js:177-185 | when the remembered message is gone, the cycle sends a new one and remembers the new id |
| Text.JoinSplit | Bot/index.js:116 | joining the parts of a split with the separator gives back the string |
| Text.SplitJoin | Web/index.php:38 | splitting the join of separator-free parts gives back the parts |
| Text.TrimIdempotent | Web/index.php:41-42 | trimming twice is trimming once |
| Text.TrimIsInfix | Web/index.php:41-42 | the trimmed string is the piece of the input after its leading run of trimmed characters, followed only by trimmed characters |
| Metrics.MetricsUrl | Web/index.php:12 | the address is the base without trailing slashes followed by `/metrics` |
| Metrics.MetricsUrlIgnoresTrailingSlashes | Web/index.php:12 | any number of trailing slashes on the base gives the same address |
| Metrics.LabelLen | Web/index.php:33 | the lazy `(.*?)` stops at the first `} ` followed by a digit, with no line break before it; when it fails, no such stop exists before a line break |
| Metrics.Scan | Web/index.php:33 | every sample found has label text without a line break and a non-empty run of digits |
| Metrics.ScanExposition | Web/index.php:33 | scanning the lines of well-formed samples finds exactly those samples, in order |
| Metrics.ScanWithoutPrefix | Web/index.php:33 | text in which `monitor_status{` never occurs yields no sample |
| Metrics.LabelPairKept | Web/index.php:39-42 | a part is kept exactly when it holds exactly one `=`; its key is trimmed of white space and its value of quotes |
| Metrics.ValueWithEqualsIsDropped | Web/index.php:39-40 | a value that contains `=` drops the whole part instead of being cut |
| Metrics.LabelsTrimmed | Web/index.php:41-43 | every key in the labels has no white space at either end, and its value has no quote at either end |
| Metrics.LabelsLaterPartWins | Web/index.php:43 | a later part with the same key overrides the earlier value; a dropped part changes nothing |
| Metrics.ParseLabels | Web/index.php:37-45 | the label loop builds exactly the labels of the sample's text |
| Metrics.IntOfDigits | Web/index.php:52 | `(int)` of the digits is non-negative; it is their value when that fits, `PHP_INT_MAX` when it does not but a double holds it as a finite number, and 0 from 2^1024 − 2^970 on, where the double is infinite |
| Metrics.Label | Web/index.php:47-51 | a field is present exactly when its label is, and then holds the label's value |
| Metrics.RecordsAt | Web/index.php:46-53 | one record per sample; record `i` holds the five labels of sample `i` (null when missing) and its status |
| Metrics.ParseMetrics | Web/index.php:33-54 | the match loop appends exactly one record per sample, in order |
| Metrics.ResponseOf | Web/index.php:32-71 | success exactly when the status is 200 and the body is truthy, and then `count` is the length of `data`, the records of the scanned samples; otherwise the error text, the status and the address |
| Metrics.Respond | Web/index.php:12-71 | the script computes exactly that response |
| Metrics.ResponseOfExposition | Web/index.php:32-62 | a 200 response made of well-formed sample lines gives success with one record per line, in order |
| Presentation.GroupedAsWrittenThrows | Bot/index.js:150-155 | the grouping on a plain object throws exactly when some record's group is a name `{}` inherits |
| Presentation.GroupedAsWrittenBuckets | Bot/index.js:150-155 | when it does not throw, it builds the same order and buckets as the corrected grouping |
| Presentation.PrototypeGroupThrows | Bot/index.js:150-155 | a single record in a group named `constructor` makes the grouping throw |
| Bot.RenderedAsWrittenAgrees | Bot/index.js:141-171 | the source's own rendering fails exactly when the fetch threw or a filtered record has an inherited group name, and otherwise gives the corrected description |
| Bot.CycleAsWrittenAgrees | Bot/index.js:141-188 | with the source's grouping, a cycle in which a filtered record has an inherited group name posts nothing and keeps `messageId`; every other cycle is exactly the corrected one |

## Left out

- The Discord client is not modelled: login, guild and channel fetch, `bulkDelete`, the `ready` handler, the embed's author, colour, link and footer, and `setInterval`. Only the description and the edit-or-send decision are modelled, with the channel's behaviour as an input.
- The footer timestamp (`toLocaleString("de-DE")`) and the version string are not modelled: they are clock- and environment-dependent.
- HTTP transport (axios and curl, their timeouts and headers), environment reads, logging, the health server and `json_encode` formatting are not modelled. The payloads, status and body are inputs, and the response is a datatype.
- `createBotFromEnv`'s early return for a missing token, guild or channel is not modelled: it only reads the environment.
- JavaScript numbers are modelled as unbounded reals: NaN, infinities, `-0` and binary floating-point rounding are not modelled. `uptime * 100` is exact.
- Monitors.NumberToString: exact only for integral numbers; a non-integral ping prints with two decimals rather than JavaScript's shortest round-trip form.
- Monitors.NumberOfKey: only keys made of decimal digits are read as numbers. White space, signs, a fraction, an exponent and hexadecimal keys all give NaN here, while `Number` accepts them.
- Monitors.SortRecords: `localeCompare` is modelled as plain code-point order, not locale collation. The contract states order and permutation but not the stability of the sort.
- Presentation.FilterByGroups: lower-casing is ASCII only, not Unicode `toLowerCase`.
- Bot.GroupByGroup: `Object.entries` is taken in insertion order. JavaScript lists integer-like keys (a group named `2024`, say) first, in ascending order, and this is not modelled.
- Monitors.RecordOf: the heartbeat `id` keys are taken in `Object.entries` insertion order, with the same integer-key caveat. Names and groups are modelled as strings, with a falsy value as the empty string. A `null` group-list element is the same as a group without a name or a monitor list.
- Metrics.IntOfDigits: reads the leading digit run only. Leading white space and signs are not modelled, because the regular expression only ever passes a run of digits. The double a long run is read as is represented only by the point where it becomes infinite; the value of the finite double itself does not matter, since every finite double above `PHP_INT_MAX` is capped to it.
- Metrics.Scan: models the one regular expression `monitor_status\{(.*?)\} (\d+)` as a scanner. It is not a general PCRE engine.
- Text.Lower: ASCII case mapping only.
- Bot.Render: groups with the corrected grouping, so it renders a description even when a record's group is a name a plain object inherits; the source throws there. The source's own behaviour is `Bot.RenderedAsWritten`, related to this one by `Bot.RenderedAsWrittenAgrees`.
- Bot.Cycle: is the cycle on the corrected rendering (`Bot.Rendered`). On an inherited group name the source instead posts nothing and keeps `messageId`, which is `Bot.CycleAsWrittenAgrees`.
- Bot.StatusBot.UpdateStatus: implements the cycle with the corrected grouping, for the same reason as `Bot.Cycle`.

## Findings

| source | as written | input that shows it | evidently intended | confidence | as-written member | corrected member |
|---|---|---|---|---|---|---|
| Bot/index.js:150-155 | `grouped` is a plain `{}`, so `grouped[key]` for a group called `constructor`, `toString`, `__proto__` or another inherited name is already truthy. `grouped[key].push(m)` then throws a TypeError, and the whole update fails without posting; `Bot.CycleAsWrittenAgrees` shows such a cycle keeps `messageId` and posts nothing. | one monitor whose status-page group is named `constructor` | group such a record under that name like any other (a `Map`, or `Object.create(null)`) | not executed | Presentation.GroupedAsWrittenThrows | Bot.GroupByGroup |
