# pagerduty-cli command logic, modelled in Dafny

This project models the decision logic inside the `run()` bodies of three
pagerduty-cli commands. The commands themselves are interactive and talk to
the PagerDuty REST API.

- `pd user set` selects users in four ways: by email pattern, by exact email,
  by ID, or by IDs piped on standard input. It then plans one PUT request per
  user that sets one attribute. After the batch it reports every returned
  user whose attribute does not hold the value that was set.
- `pd service set` selects services by name search and/or ID and plans one
  PUT request per service. Each request carries a `service_reference` body
  with the attribute set. A response counts as a failure unless the service
  it returns holds the value.
- `pd analytics incident` builds the filter object posted to the incident
  analytics endpoint. Team and service names are resolved to IDs, and an
  empty result aborts the command. It then shapes the column table:
  - every getter shows `null` as `''`;
  - `range_start` is dropped without an aggregate unit;
  - the columns are split into a "mean" table and a "total" table, with a
    leading `mean_`/`total_` removed from the names.

JavaScript semantics are modelled exactly where they matter:

- A `Set` keeps first-insertion order. `Sequences.Dedup` models this, and
  the `Sequences` lemmas say what merging through a `Set` does.
- `Values` models truthiness (`''`, `null`, `undefined`, `0`, `false` are
  falsy) and `===`/`!==` on the JSON scalars the API returns.
- `Strings` models `indexOf`, a `replace` anchored at the start, and `trim`
  with ECMAScript's whitespace set.
- `Object.fromEntries`: a repeated key stays at its first position and takes
  the later value.

Remote lookups (email → user ID, name → team/service IDs, the batch's
responses) and standard input are parameters of the model. The unseen
helpers `splitDedupAndFlatten`, `invalidPagerDutyIDs` and
`putBodyForSetAttribute` are function-typed parameters, so nothing is
assumed about them. An abort with `this.error(..., {exit: 1})` is an `Err`
result.

Modules: `Wrappers`, `Values`, `Requests` (the request descriptor),
`Sequences`, `Strings`, `UserSet`, `ServiceSet`, `AnalyticsIncident`.

## Model

| member | source | states |
|---|---|---|
| Sequences.Dedup | src/commands/user/set.ts:62 | `[...new Set(s)]` has no duplicates, holds exactly the values of `s`, and is no longer than `s` |
| Sequences.DedupFirstOccurrenceOrder | src/commands/analytics/incident/index.ts:93 | the deduplicated list orders values by their first occurrence in the input |
| Sequences.DedupAppend | src/commands/user/set.ts:66 | `[...new Set([...a, ...b])]` is `a`'s distinct values followed by the distinct values of `b` not in `a`, in order |
| Sequences.DedupMergeAbsorbs | src/commands/service/set.ts:46-49 | passing the first list through a `Set` before merging it with a second one changes nothing |
| Sequences.MergeKeepsPositions | src/commands/user/set.ts:65-67 | merging new IDs into a duplicate-free list keeps every existing entry at its position and only appends |
| Sequences.Flatten | src/commands/analytics/incident/index.ts:91 | the accumulated `[...acc, ...r]` holds exactly the values of the lookup results |
| Sequences.FlattenEmpty | src/commands/analytics/incident/index.ts:94 | the accumulated IDs are empty exactly when every lookup returned none |
| Strings.IndexOfFrom | src/commands/analytics/incident/index.ts:206 | `indexOf` returns -1 or a position where the substring occurs, and no earlier position holds it |
| Strings.IndexOfFound | src/commands/analytics/incident/index.ts:206 | `k.indexOf(word) > -1` exactly when `word` occurs in `k` |
| Strings.StripPrefix | src/commands/analytics/incident/index.ts:209 | `replace(/^p/, '')` drops `p` when the string starts with it and otherwise leaves the string unchanged |
| Strings.TrimStart | src/commands/user/set.ts:81 | `trimStart` removes a run of leading whitespace, and what remains does not start with whitespace |
| Strings.TrimEnd | src/commands/user/set.ts:81 | `trimEnd` removes a run of trailing whitespace, and what remains does not end with whitespace |
| Strings.TrimEmptyIff | src/commands/user/set.ts:81 | `s.trim().length > 0` exactly when `s` has a non-whitespace character |
| UserSet.TruthyIds | src/commands/user/set.ts:61-62 | an ID is kept exactly when some exact-email lookup returned it as a non-empty string |
| UserSet.MergeExactMatches | src/commands/user/set.ts:57-64 | the exact-email loop leaves the list untouched when no lookup found an ID, and otherwise yields the `Set` of the list followed by the IDs found |
| UserSet.ExactMatchesAppend | src/commands/user/set.ts:59-63 | starting from a duplicate-free list, the loop keeps every entry in place, appends only truthy IDs not yet present, and adds no duplicate |
| UserSet.IdsMerge | src/commands/user/set.ts:65-67 | `--ids` merges into the IDs gathered so far without duplicates, with the earlier IDs in front |
| UserSet.PipeReplaces | src/commands/user/set.ts:68-71 | with `--pipe` the IDs are those split from standard input, whatever the other selectors found |
| UserSet.NormaliseValue | src/commands/user/set.ts:81 | the value becomes `null` exactly when it is all whitespace; otherwise it is kept untrimmed |
| UserSet.BuildRequests | src/commands/user/set.ts:83-92 | one request per user ID, in order: PUT on `/users/<id>`, no query parameters, body from `putBodyForSetAttribute('user', id, key, value)` |
| UserSet.Run | src/commands/user/set.ts:48-92 | exit 1 exactly when no selector is given, when the gathered IDs are empty, or when some are invalid (with that list); otherwise the requests for the gathered IDs with the normalised value |
| UserSet.UnconfirmedUsers | src/commands/user/set.ts:102-107 | the reported users are, in order, exactly those with `u.user[key] !== value` |
| UserSet.NotUpdatedCases | src/commands/user/set.ts:103 | a blank value counts as set only when the attribute is `null`; any other value only when the attribute is that exact string |
| ServiceSet.GatherIds | src/commands/service/set.ts:39-52 | a name search that returned no array fails (an empty array only empties the set); otherwise the IDs are the `Set` of the search results followed by `--ids` |
| ServiceSet.ServiceReference | src/commands/service/set.ts:58-64 | the body holds exactly `type`, `id` and `key`; `key` maps to the value and overrides `type` or `id` when it names either |
| ServiceSet.BuildRequests | src/commands/service/set.ts:56-73 | one request per service ID, in order: the token, PUT on `/services/<id>`, no query parameters, the service reference as body |
| ServiceSet.CheckResponses | src/commands/service/set.ts:76-87 | the command fails exactly when some response is missing, has no service, or its `service[key]` is falsy or not `=== value` |
| ServiceSet.ConfirmedIff | src/commands/service/set.ts:78 | a response confirms the update exactly when its service holds the value as a string and the value is not empty |
| AnalyticsIncident.GatherIds | src/commands/analytics/incident/index.ts:87-92 | the lookup loop yields the concatenation of the IDs found for each name, in order |
| AnalyticsIncident.BuildQuery | src/commands/analytics/incident/index.ts:75-128 | `filters.major` is always the flag. `aggregate_unit` is present only when given. Team/service IDs are the deduplicated lookup results, and empty results abort with the matching error (teams first). The date bounds are set only for a given, parsed phrase |
| AnalyticsIncident.ColumnGetters | src/commands/analytics/incident/index.ts:149-195 | `range_start` shows the date; every other column shows its own row field, with `null` as `''`, so no cell is `null` |
| AnalyticsIncident.RemoveKey | src/commands/analytics/incident/index.ts:197 | `delete columns[key]` keeps exactly the columns with another key |
| AnalyticsIncident.ColumnsForShape | src/commands/analytics/incident/index.ts:196-198 | `range_start` is present exactly when an aggregate unit was given, and the fourteen metric columns always remain, in order |
| AnalyticsIncident.Select | src/commands/analytics/incident/index.ts:205-207 | the filter returns no more columns than it is given |
| AnalyticsIncident.SelectMembers | src/commands/analytics/incident/index.ts:205-207 | the filter keeps exactly the columns whose key passes it |
| AnalyticsIncident.SelectAppend | src/commands/analytics/incident/index.ts:215-217 | filtering keeps table order: it distributes over concatenation |
| AnalyticsIncident.Rename | src/commands/analytics/incident/index.ts:208-210 | the renaming keeps the number of columns and each column's getter; a key that starts with the prefix becomes what follows the prefix, any other key is unchanged |
| AnalyticsIncident.RenameMetricColumns | src/commands/analytics/incident/index.ts:218-220 | stripping `prefix` from `prefix + field` gives back `field`, and the getter still reads `prefix + field` |
| AnalyticsIncident.RenameHead | src/commands/analytics/incident/index.ts:209 | the prefix strip leaves `range_start` alone |
| AnalyticsIncident.FromEntries | src/commands/analytics/incident/index.ts:211 | the object's keys are the entries' keys, each once, in first-occurrence order |
| AnalyticsIncident.FromEntriesDistinct | src/commands/analytics/incident/index.ts:221 | with distinct keys, `Object.fromEntries` keeps every entry in order |
| AnalyticsIncident.FromEntriesLastWins | src/commands/analytics/incident/index.ts:211 | each column of the object is the last entry with its key |
| AnalyticsIncident.SubtableShape | src/commands/analytics/incident/index.ts:205-211 | given distinct renamed keys, a table holds exactly the columns whose key is `range_start` or contains the word, in order, renamed |
| AnalyticsIncident.MetricFilters | src/commands/analytics/incident/index.ts:206 | every `mean_` column passes the mean filter and fails the total filter; every `total_` column the reverse |
| AnalyticsIncident.SelectMeanOfTable | src/commands/analytics/incident/index.ts:205-207 | the mean filter keeps `range_start` when present, then the seven `mean_` columns in order, and nothing else |
| AnalyticsIncident.SelectTotalOfTable | src/commands/analytics/incident/index.ts:215-217 | the total filter keeps `range_start` when present, then the seven `total_` columns in order, and nothing else |
| AnalyticsIncident.MeanColumnsOfTable | src/commands/analytics/incident/index.ts:205-211 | the mean table is `range_start` (with an aggregate unit) followed by the seven mean fields under their names without `mean_`, each reading its `mean_` row field |
| AnalyticsIncident.TotalColumnsOfTable | src/commands/analytics/incident/index.ts:215-221 | the total table is `range_start` (with an aggregate unit) followed by the seven total fields under their names without `total_`, each reading its `total_` row field |
| AnalyticsIncident.MeanFieldsDistinct | src/commands/analytics/incident/index.ts:153-173 | `range_start` and the seven mean field names are pairwise distinct |
| AnalyticsIncident.TotalFieldsDistinct | src/commands/analytics/incident/index.ts:174-194 | `range_start` and the seven total field names are pairwise distinct |
| Strings.IndexOf | src/commands/analytics/incident/index.ts:206 | `k.indexOf(word)` is -1 or the first position where `word` occurs; the `> -1` test is stated by `IndexOfFound` |
| Strings.Trim | src/commands/user/set.ts:81 | `trim()` is a slice `s[i..j]` of its input with only whitespace before `i` and after `j`, and it neither starts nor ends with whitespace; when it is empty is stated by `TrimEmptyIff` |
| Values.Truthy | src/commands/service/set.ts:78 | definition of JavaScript truthiness on the scalars a response holds; used by `ServiceSet.Confirmed` and stated through `ServiceSet.ConfirmedIff` |
| UserSet.TruthyId | src/commands/user/set.ts:62 | `if (user_id)`: a lookup result counts exactly when it is a string that is truthy, that is, not empty |
| UserSet.AfterExactEmails | src/commands/user/set.ts:57-64 | the list after the exact-email loop holds exactly the earlier IDs and the truthy IDs found; its order and the absence of duplicates are stated by `ExactMatchesAppend` |
| UserSet.GatheredIds | src/commands/user/set.ts:52-71 | definition of the IDs the selectors gather; stated by `PipeReplaces`, `IdsMerge` and `ExactMatchesAppend` |
| UserSet.NotUpdated | src/commands/user/set.ts:103 | definition of `u.user[key] !== value`; stated by `NotUpdatedCases` |
| ServiceSet.NameGiven | src/commands/service/set.ts:40 | `if (flags.name)`: a name flag counts exactly when it is given and truthy |
| ServiceSet.Confirmed | src/commands/service/set.ts:78 | definition of the response test; stated by `ConfirmedIff` |
| AnalyticsIncident.Cell | src/commands/analytics/incident/index.ts:151-194 | definition of a getter applied to a row; stated by `ColumnGetters` |
| AnalyticsIncident.ColumnsFor | src/commands/analytics/incident/index.ts:196-198 | definition of the columns after the `range_start` deletion; stated by `ColumnsForShape` |
| AnalyticsIncident.InTable | src/commands/analytics/incident/index.ts:206 | definition of the mean/total filter; stated by `MetricFilters` |
| AnalyticsIncident.TableFilter | src/commands/analytics/incident/index.ts:216 | the filter callback as a function of the key; stated by `SelectMembers`, `SelectMeanOfTable` and `SelectTotalOfTable` |
| AnalyticsIncident.Subtable | src/commands/analytics/incident/index.ts:205-211 | definition of filter, rename and `Object.fromEntries` in sequence; stated by `SubtableShape` |
| AnalyticsIncident.MeanColumns | src/commands/analytics/incident/index.ts:205-211 | definition of `meanColumns`; stated by `MeanColumnsOfTable` |
| AnalyticsIncident.TotalColumns | src/commands/analytics/incident/index.ts:215-221 | definition of `totalColumns`; stated by `TotalColumnsOfTable` |
| UserSet.HasSelector | src/commands/user/set.ts:48 | definition of the selector test (an array flag is truthy even when empty); stated by `Run` |
| AnalyticsIncident.Given | src/commands/analytics/incident/index.ts:81 | `if (flags.x)` on a string flag: given and truthy, that is, not empty; used by `BuildQuery` and `ColumnsForShape` |
| AnalyticsIncident.MetricColumns | src/commands/analytics/incident/index.ts:149-195 | definition of the metric columns of the `columns` object (with the constants `ColumnTable`, `RangeStart`, `MeanFields` and `TotalFields`); stated by `ColumnGetters` and `MeanColumnsOfTable`/`TotalColumnsOfTable` |
| Values.Property | src/commands/service/set.ts:78 | definition of `obj[key]`, `undefined` for a missing property; stated by `ServiceSet.ConfirmedIff` and `UserSet.NotUpdatedCases` |

## Left out

- The batched request executor (`batchedRequest`, `batchedRequestWithSpinner`) is not part of this model: its code is not shown and it performs network I/O. Its responses are inputs to `UserSet.UnconfirmedUsers` and `ServiceSet.CheckResponses`.
- Printing the failed request indices in `pd user set` (src/commands/user/set.ts:98-101) is left out. It only logs what the executor reported, and the executor is not part of this model.
- `pd.fetch`, `userIDsForEmails` and `userIDForEmail` are network lookups. They are inputs, aligned with the flag lists by `requires`.
- `splitDedupAndFlatten`, `invalidPagerDutyIDs` and `putBodyForSetAttribute` are not part of this model. They are uninterpreted function parameters.
- Date parsing with `chrono.parseDate`, `toISOString` and `toLocaleString` are left out (a foreign library, time and locale). Their results are inputs: `Lookups.sinceIso`/`untilIso` and the `localeString` parameter.
- Flag parsing and declarations, spinners, chalk colouring, console output and `cli.table` rendering are UI. So are reading standard input, `printJsonAndExit`, the `--csv`/`--output` early exit, and the exit-0 "No analytics found" case. The `exclusive: ['email', 'ids']` declaration also names a flag (`email`) that does not exist.
- UserSet.Run: the flag parser refuses `--pipe` together with `--ids` (src/commands/user/set.ts:41). The model does not exclude that combination: given both, it gathers the IDs from standard input alone.
- AnalyticsIncident.BuildQuery: `filters.major` is a `bool`, so an absent `-M` is modelled as `false`. Whether the flag parser leaves it `undefined` (which JSON would drop from the body) is not part of this model.
- Process exit is modelled only as an `Err` result.
- AnalyticsIncident.Select: its own contract states only a length bound. Membership is stated by `SelectMembers`, and the exact result on the command's table by `SelectMeanOfTable`/`SelectTotalOfTable`.
- The team and service name lookups of `pd analytics incident` are assumed to return arrays: a non-array result, on which `r.map(...)` would throw (src/commands/analytics/incident/index.ts:91, 107), cannot be expressed in `Lookups`.
- JavaScript `NaN`, properties inherited from `Object.prototype`, and JSON arrays or objects inside a response's attributes are not modelled. `UserSet.UnconfirmedUsers` assumes each returned datum has a `user` object.
- `pd service set` does not abort when it ends up with no service IDs. The model follows that code: with no IDs, `ServiceSet.BuildRequests` plans no requests, and `CheckResponses([])` is `Done`. What the batch executor returns for an empty batch is not part of this model.
- The fourteen analytics metric columns are written as a prefix (`mean_`/`total_`) followed by a field name. Their keys and getters equal the literal table in src/commands/analytics/incident/index.ts:149-195.
