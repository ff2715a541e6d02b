# LoA statistics pipeline: a Dafny model

LoA collects League of Legends ranked champion statistics from two providers,
OP.GG and BLITZ.GG, and turns them into one table. This project models the
pure core of that pipeline and proves properties about it:

- the champion roster (`champions_names_by_id.json`), derived from the Data
  Dragon metadata by `update_champions_assets`;
- the provider adapters' `_sanitize_data`: each provider entry becomes one row
  with its id, its roster name, a role label, games, wins, losses and win rate;
- `calculate_winrate_percentage`;
- `complete_missing_champions_data`, which appends a placeholder row for every
  roster champion the provider did not report;
- `__len__` and `__contains__`;
- the deduplication in `project.py`, `drop_duplicates(subset=["ChampionId"], keep="first")`.

Modules:

- `Outcomes` (outcomes.dfy) holds `Option`, `Result` and `Failure`. Each `Failure`
  constructor stands for the exception the Python code lets escape on that path.
  `KeysNotEqual` is the plain `Exception` that `update_champions_assets` raises
  around its failed key-count assert (services/utils.py:152-153).
- `Text` (text.dfy) holds `str(n)` and `int(s)` on decimal integers, ASCII
  `lower`/`upper`/`title`, and the substring test.
- `Utils` (utils.dfy) models services/utils.py.
- `BlitzGG` (blitzgg.dfy) models services/blitzgg.py.
- `OpGG` (opgg.dfy) models services/opgg.py.
- `Project` (project.dfy) models the dedup step of project.py, plus the lemmas
  about the whole pipeline.

The column-oriented `ChampionsData` dict is modelled as a sequence of `Row`
records, one per index of the columns. Two columns are kept apart from the rows:

- Provider: the code overwrites it with one string, so it becomes a table-level tag.
- Role: OP.GG replaces this list with a single string, so it is a `RoleColumn`
  that is either the list (`RoleList`) or one scalar value (`RoleScalar`).

`ChampionId` values are either integers (`IntId`, from the provider) or strings
(`KeyId`, the roster key a placeholder row stores). The two are distinct, just as
`1 != "1"` in Python.

Three points of the code's behaviour shape the model:

- An entry with zero games makes the win-rate division raise
  ZeroDivisionError (services/utils.py:90). No 0% value is produced for it.
- Completion against the roster runs at the end of `_sanitize_data`
  (services/blitzgg.py:45, services/opgg.py:44). It happens before the
  deduplication in project.py:28.
- The table is never sorted. Rows keep the provider's order, followed by the
  placeholders in roster order.

## Model

| member | source | states |
|---|---|---|
| Utils.Lookup | services/opgg.py:33 | `champions_names[key]` is a value stored under `key` in the roster; it fails (KeyError) exactly when no entry has that key |
| Utils.ChampionName | services/blitzgg.py:28-30 | a provider id's name comes from the roster key `str(id)`; it succeeds exactly when that key exists, and otherwise fails with UnknownChampion carrying that key |
| Utils.CalculateWinratePercentage | services/utils.py:86-93 | it fails (ZeroDivisionError) exactly when the divisor chosen by the truthiness of `loses` is zero; the value times that divisor equals 100 × wins; the result is a "%"-suffixed text exactly for the `str` format |
| Utils.WinratePercentageInRange | services/utils.py:86-93 | with 0 ≤ wins ≤ games and games > 0 the win rate exists and lies in [0, 100] |
| Utils.WinrateBranchesAgree | services/utils.py:89-91 | passing the true loss count as `loses` gives the same win rate as the `games` branch |
| Utils.CompleteRows | services/utils.py:98-110 | the roster loop appends exactly the placeholder rows of the reported names, keeps the existing rows as a prefix, leaves every roster name in the table, and fails only on a non-integer key or a scalar Role column |
| Utils.CompleteMissingChampionsData | services/utils.py:95-118 | provider and role column are kept; existing rows are a prefix; every roster name is present afterwards; "no missing champions" is reported exactly when nothing was appended; the reported count is the number of names; with a list Role column and integer keys it always succeeds |
| Utils.CompletionAppendsMissingEntries | services/utils.py:98-110 | with distinct roster names the appended rows are exactly the placeholders of the roster entries whose id or name was absent before, in roster order |
| Utils.ScalarRoleCompletion | services/utils.py:98-105 | with a scalar Role column completion succeeds exactly when no roster entry is missing, and otherwise fails on the append to Role |
| Utils.AppendedRowsArePlaceholders | services/utils.py:103-109 | every appended row is a roster entry's (key, name) pair, with the key as a string id and the name the one reported missing at its position. It has role "-", 0 games, 0 wins, 0 losses and win rate "0%" |
| Utils.CompletionKeepsRosterNames | services/utils.py:98-104 | if every row's name is the roster's name for its id, this still holds after completion |
| Utils.CompletionKeepsMembership | services/utils.py:65-69 | completion never changes `__contains__` for an integer id, and `__len__` grows by exactly the reported count |
| Utils.NamesById | services/utils.py:142-144 | the derived map has unique keys, has a key exactly when some metadata entry has it, and is no larger than the metadata |
| Utils.NamesByIdKeepsLastName | services/utils.py:142-144 | a key repeated in the metadata maps to the name of its last entry |
| Utils.NamesByIdSize | services/utils.py:142-148 | the map has as many keys as the metadata has entries exactly when the metadata keys are distinct |
| Utils.NamesByIdInOrder | services/utils.py:142-144 | with distinct keys the map lists the metadata pairs in their order |
| Utils.UpdateChampionsAssets | services/utils.py:142-153 | the assert passes exactly when the metadata keys are distinct; otherwise the call fails with KeysNotEqual, the wrapping `Exception` of line 153. On success the roster is the metadata's (key, name) pairs in order |
| Utils.Assign | services/utils.py:142-144 | one dict assignment `d[key] = name`: keys stay unique, the pair is present, entries under other keys stay, the key set grows by `key` alone, and the size grows exactly when the key is new (appended last) |
| Utils.Placeholder | services/utils.py:103-109 | a placeholder's id is the roster key itself as a string id, so it never equals an integer id. It carries the roster name, no games, and wins + losses = games |
| Utils.MissingEntriesNeedPlaceholder | services/utils.py:98-102 | the reference filter keeps only roster entries, and only those whose id or name is absent from the rows |
| BlitzGG.NormaliseRole | services/blitzgg.py:31-35 | the role rule. A label containing "adc" in any case comes out with no lower-case letter. Any other label comes out title-cased: a character after a cased one is not upper-case, and any other character is not lower-case. Either way only the case changes: the length and the lower-cased text are those of the API label |
| BlitzGG.NormaliseRoleIgnoresCase | services/blitzgg.py:31-35 | the normalised role does not depend on the case of the label the API sends |
| BlitzGG.NormaliseRoleIdempotent | services/blitzgg.py:31-35 | normalising a normalised label changes nothing |
| BlitzGG.ApiRoleLabels | services/blitzgg.py:31-35 | TOP, JUNGLE, MID, ADC and SUPPORT become Top, Jungle, Mid, ADC and Support |
| BlitzGG.SanitizeEntry | services/blitzgg.py:27-43 | the row has the integer id, the roster name, the normalised role, games, wins, losses = games − wins and a text win rate with value × games = 100 × wins; the name lookup fails before the division |
| BlitzGG.SanitizeEntries | services/blitzgg.py:26-43 | all entries map, in order, exactly when each one does; otherwise the failure is that of the first failing entry |
| BlitzGG.SanitizeData | services/blitzgg.py:24-45 | the table is tagged BLITZ.GG; the mapped rows form its prefix; every roster name is present; wins + losses = total games in every row; with integer keys it succeeds exactly when every entry maps |
| BlitzGG.GetStats | services/blitzgg.py:47-51 | a failed request raises HTTPError for BLITZ.GG; otherwise the sanitised table starts with one row per entry |
| OpGG.SanitizeEntry | services/opgg.py:30-42 | as for BLITZ.GG with `play`/`win`, and the role shown is "-" |
| OpGG.SanitizeEntries | services/opgg.py:30-42 | all entries map, in order, exactly when each one does; otherwise the failure is that of the first failing entry |
| OpGG.SanitizeData | services/opgg.py:26-44 | as written: a successful run is the mapped rows with nothing appended; with integer keys a run whose entries all map can only fail on the Role append |
| OpGG.SanitizeDataNeedsFullCoverage | services/opgg.py:28-44 | as written, the run succeeds exactly when every roster entry already has its id and name among the provider rows |
| OpGG.SanitizeDataFailsOnMissingChampion | services/opgg.py:28-44 | a one-champion roster with an empty response fails on the Role column |
| OpGG.SanitizeDataBroadcast | services/opgg.py:26-44 | the corrected version: with integer keys it succeeds exactly when every entry maps, every roster name is present, and every row shows role "-" |
| OpGG.SanitizeDataBroadcastCompletes | services/opgg.py:26-44 | the corrected version appends the one placeholder on the input that breaks the original |
| OpGG.GetStats | services/opgg.py:46-50 | a failed request raises HTTPError for OP.GG; otherwise the table is one row per entry |
| Project.DropDuplicates | project.py:28 | the output is no longer than the input and holds input rows only. Uniqueness, first occurrence, order and idempotence are stated by the next rows |
| Project.DropDuplicatesUniqueIds | project.py:28 | after dedup no two rows share a ChampionId, and the set of ids is unchanged |
| Project.DropDuplicatesKeepsFirst | project.py:28 | every kept row is the first occurrence of its id, and every first occurrence is kept |
| Project.DropDuplicatesIsSubsequence | project.py:28 | the kept rows keep their order and are no more than the input |
| Project.DropDuplicatesOfUnique | project.py:28 | a table without repeated ids is left unchanged |
| Project.DropDuplicatesIdempotent | project.py:28 | deduplicating twice equals deduplicating once |
| Project.DropDuplicatesScan | project.py:28 | a single pass with a set of seen ids computes the dedup and yields unique ids |
| Project.DropDuplicatesKeepsNames | project.py:28 | when rows with the same id share their name, dedup keeps exactly the same names |
| Project.BlitzTableCoversRoster | project.py:12-18 | with unique roster keys, a BLITZ.GG table that sanitises without error has, after dedup, unique ids and a row naming every roster champion |
| Project.OpGGTableCoversRoster | project.py:22-28 | with unique roster keys, an OP.GG table that sanitises without error has, after dedup, unique ids and a row naming every roster champion |
| Project.ProviderRowsFollowNames | services/blitzgg.py:27-30 | provider rows named through `champions_names[str(id)]` from a roster with distinct names carry one id per name, because `str` is injective |
| Project.MissingNameIsNotProvided | services/utils.py:98-102 | a roster entry that needs a placeholder never has the name of a provider row: that row's id is `int` of the entry's key and is already in the table |
| Project.CompletedRowsFollowNames | services/utils.py:98-110 | after completion, rows that share a name still share an id |
| Project.DropDuplicatesUniqueNames | project.py:28 | when a name fixes the id, dedup leaves no two rows with the same name |
| Project.OneRowPerChampion | project.py:28 | under those conditions the deduplicated table has exactly one row per roster name, and as many rows as the roster has entries |
| Project.BlitzTableOneRowPerChampion | project.py:12-18 | with unique roster keys and names, a BLITZ.GG table that sanitises without error has, after dedup, unique ids, unique names, one row per roster champion, and exactly as many rows as the roster. Distinct names are needed: roster {"1": "Annie", "2": "Annie"} gives two placeholder rows both named Annie |
| Project.OpGGTableOneRowPerChampion | project.py:22-28 | with unique roster keys and names, an OP.GG table that sanitises without error has, after dedup, unique ids, unique names, one row per roster champion, and exactly as many rows as the roster |
| Text.IntToString | services/blitzgg.py:29 | `str(n)`: a minus sign exactly for negative `n`, then decimal digits. `Text.ParseIntToString` shows that `int` reads it back |
| Text.ParseInt | services/utils.py:100 | `int(s)` accepts only text ending in a digit, gives a non-negative value unless the text starts with '-', and accepts every non-empty string of digits |
| Text.Lower | services/blitzgg.py:33 | `lower()` keeps every letter up to case and leaves none upper-case |
| Text.Upper | services/blitzgg.py:32 | `upper()` keeps every letter up to case and leaves none lower-case |
| Text.Title | services/blitzgg.py:34 | `title()` keeps every letter up to case. A character after a cased one is not upper-case, and any other character is not lower-case |
| Text.HasSubstring | services/blitzgg.py:33 | `t in s` can hold only when `t` is no longer than `s`, and holds when `s` starts with `t` |
| Text.ParseIntToString | services/utils.py:100 | `int(str(n)) == n`, so a provider id read back from its roster key is that id |
| Text.IntToStringInjective | services/blitzgg.py:29 | distinct integer ids look up distinct roster keys |

## Left out

- HTTP requests (`_api_call`, the patch lookup, the Data Dragon download) are left out. A failed request is an `Option` parameter of `GetStats`, and the parsed JSON is a parameter of each operation.
- Reading and writing `assets/*.json` and the `champions_names` property's file handling are left out. The roster is a parameter.
- Console output (the colorama messages and `inflect` joining the missing names) is left out. The model returns the report (count and names) that would be printed.
- Utils.CalculateWinratePercentage: does not model `round(..., 2)` or float formatting; the win rate is the exact rational value.
- Python `int()` also accepts surrounding whitespace and digit underscores, which this model does not. Roster keys are Data Dragon numerals.
- Case mapping covers ASCII only. Role labels are ASCII.
- JSON with missing fields, and values of the wrong type, are not modelled. Entries are typed records.
- pandas DataFrame construction is left out. Only the `drop_duplicates` step is modelled.
- The BLITZ.GG pipeline in project.py:12-19 is commented out. `Project.BlitzTableCoversRoster` and `Project.BlitzTableOneRowPerChampion` state what it would give.
- Project.BlitzTableOneRowPerChampion and Project.OpGGTableOneRowPerChampion assume that the roster's keys and names are distinct. Without distinct names, one champion can get two rows; `Project.BlitzTableCoversRoster` and `Project.OpGGTableCoversRoster` still give at-least-once under distinct keys alone.
- `__str__` and the service's session and header fields are left out. They are plumbing.
- `Utils.Len` and `Utils.Contains` carry no contract of their own. Their behaviour under completion is stated by `Utils.CompletionKeepsMembership`.

## Findings

| source | as written | input that shows it | evidently intended | confidence | as-written member | corrected member |
|---|---|---|---|---|---|---|
| services/opgg.py:28 with services/utils.py:105 | `_sanitize_data` replaces the Role list with the string "-". `complete_missing_champions_data` then calls `.append` on it, which raises AttributeError for any missing roster champion | roster `{"1": "Annie"}` with an empty OP.GG response | placeholders are appended and shown with the role "-" | high, not executed | OpGG.SanitizeData, OpGG.SanitizeDataFailsOnMissingChampion | OpGG.SanitizeDataBroadcast, OpGG.SanitizeDataBroadcastCompletes |
