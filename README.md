# Healer report export: a Dafny model

This project models the data handling of a script that downloads combat
reports for healers from an analytics API. For each player it writes one CSV
file. The repository's web page (src/assets/js/scripts.js) also has a small
cookie check, modelled here too. Modelled here:

- the flatteners for healing and stat blocks;
- the choice of the highest secondary stat;
- the gem tally;
- the healer count;
- the `total_time` text;
- the zipping of these lists into rows;
- the player-id lookup in a fight's roster;
- the OAuth2 token cache;
- the visitor-cookie check of the web page.

JSON objects become typed records with optional fields. A JSON dictionary is a
sequence of key/value pairs in insertion order, and a lookup takes the first
matching key. The exceptions the modelled code raises on data of the expected
shape (a timedelta overflow, a stat that cannot be made an integer, an unusable
candidate stat, a failed request, a missing composition or player) become
`Result` failures with a named error; exceptions from data of the wrong shape
are listed under "Left out".

Modules, one per file:

| module | file | what it holds |
|---|---|---|
| `Wrappers` | wrappers.dfy | `Option`, `Result` |
| `Text` | text.dfy | decimal rendering and reading; ASCII `lower`; `in`; `split`/`join`; JavaScript `trim` |
| `Report` | report.dfy | the payload records and their `.get(..., default)` accessors |
| `Healing` | healing.dfy | `modify_healing_done_data` |
| `Stats` | stats.dfy | `modify_combatant_info_data`, `get_highest_secondary_stat` |
| `Gems` | gems.dfy | `process_gems`, `id_to_name`, the gem table |
| `Roster` | roster.dfy | the healer count |
| `Duration` | duration.dfy | `str(timedelta(milliseconds=...)).split(", ")[-1]` |
| `Export` | export.dfy | `process_data_and_export`: the cells and the row zip |
| `Resolver` | resolver.dfy | the composition scan of `get_source_id` |
| `Auth` | auth.dfy | `OAuth2Client`: the token cache as a class, specified by a pure transition function |
| `Cookie` | cookie.dfy | `checkCookie` over a cookie string |

The number of rows is `max(len(stat rows), len(healing rows))`
(backup.py:146). Gem entries past that index never reach the file.
`Export.GemsDoNotExtendTheRows` shows this for two stats, five gems and no
healing: the result is two rows.

## Model

| member | source | states |
|---|---|---|
| `Report.Get` | backup.py:78-81 | `dict.get`: a value exactly when the key is present, and the value of the first entry with that key |
| `Healing.HealingRowsOf` | backup.py:68-73 | reference definition, no contract of its own: one row per healing entry, in input order, carrying that entry's `name` as `ability` and `total` as `healing_amount` |
| `Healing.ModifyHealingDoneData` | backup.py:68-73 | the loop builds exactly `Healing.HealingRowsOf` of its input: one row per entry, in order, with the entry's name and total |
| `Stats.StatRowsOf` | backup.py:76-85 | reference definition, no contract of its own: for stats that can all be made integers, one row per stat in key order with the key and its flattened value |
| `Stats.ModifyCombatantInfoData` | backup.py:76-85 | succeeds exactly when every stat value can be made an integer, and then gives exactly `Stats.StatRowsOf` of the stats: one row per stat, in order, with the key and either `min` of a nested value or the plain value; otherwise fails on the first stat that cannot be made an integer, naming its key |
| `Stats.Flattened` | backup.py:81-83 | definition, no contract of its own: a nested value gives its `min` (none when it has no `min`), a plain value gives itself; used by the contract of `Stats.ModifyCombatantInfoData` |
| `Stats.RankingValue` | backup.py:92 | definition, no contract of its own: an absent stat is 0, a plain number raises TypeError, an object without `min` raises KeyError, else its `min`; used by the contract of `Stats.RankingValues` |
| `Stats.RankingValues` | backup.py:92 | the `min` of each candidate in order, an absent stat giving 0; or the error of the first candidate whose value cannot be subscripted or lacks `min` |
| `Stats.FirstMaxIndex` | backup.py:92 | the index `max` picks: its value is at least every other value, and every earlier value is strictly smaller |
| `Stats.HighestSecondaryStat` | backup.py:87-94 | one of Mastery/Haste/Crit/Versatility whose `min` is at least every candidate's, with every earlier candidate strictly below it; fails exactly when some candidate's value is unusable, with the first such error |
| `Stats.NoStatsGivesMastery` | backup.py:92 | with no stats at all every candidate counts as 0, and Mastery, the first, is returned |
| `Stats.TieGoesToEarlierCandidate` | backup.py:92 | a candidate tied with an earlier one is never returned |
| `Stats.CandidatesDistinct` | backup.py:89 | the four candidate names are pairwise distinct |
| `Gems.Ids` | backup.py:103-104 | the ids of a gem list, one per gem, in order |
| `Gems.TallyStep` | backup.py:106 | `gem_count[id] = gem_count.get(id, 0) + 1` keeps the count map equal to the occurrence counts of the ids scanned, and keeps the key order equal to their first-seen order |
| `Gems.TalliedOrder` | backup.py:109-110 | every key of the tally has, as its count, the number of its occurrences |
| `Gems.GemIdsStep` | backup.py:100-103 | scanning one more item appends exactly that item's gem ids, or nothing when it has no `gems` key |
| `Gems.CountItemGems` | backup.py:103-106 | the inner loop over one item's gems extends the tally by those gems |
| `Gems.GemInfoOf` | backup.py:96-112 | reference definition, no contract of its own: one entry per first-seen gem id, with its name and its number of occurrences |
| `Gems.ProcessGems` | backup.py:96-112 | the dict-based loops give exactly `Gems.GemInfoOf` of the gear: one entry per distinct gem id, in first-seen order over items then gems; each carries the table name (or the fallback) and the id's number of occurrences |
| `Gems.FirstSeenMembers` | backup.py:109-110 | an id is listed exactly when it occurs in some item's gems |
| `Gems.FirstSeenDistinct` | backup.py:109-110 | no id is listed twice |
| `Gems.FirstIndex` | backup.py:100-106 | the position of the first occurrence of an id in the scan |
| `Gems.FirstIndexAppend` | backup.py:100-106 | scanning further does not move an id's first occurrence |
| `Gems.FirstSeenOrder` | backup.py:98-110 | entries are ordered by the first occurrence of their id in the scan |
| `Gems.SumCountsAdd` | backup.py:106 | one more occurrence of an id raises the summed counts by one if the id is listed, and by nothing otherwise |
| `Gems.CountsSumToTotal` | backup.py:106-110 | every count is at least 1, and the counts sum to the number of ids scanned |
| `Gems.GemIdsCount` | backup.py:100-103 | the scan visits exactly the gems of the items that have a `gems` key |
| `Gems.GemCountsTotal` | backup.py:100-110 | every reported count is at least 1, and the counts sum to the number of gems over the items with a `gems` key |
| `Gems.NameFallbacks` | backup.py:109-115 | for a known id, `process_gems` and `id_to_name` both give the table name; for an unknown id, the first gives `Unknown Gem ID <id>` and the second gives `Unknown Gem`, and the two differ |
| `Gems.UnknownNamesDistinct` | backup.py:109 | two different unknown ids get different fallback names |
| `Gems.UnknownIdExample` | backup.py:109 | id 999999 is named `Unknown Gem ID 999999` |
| `Gems.GemName` | backup.py:109 | definition, no contract of its own: the table name, else `Unknown Gem ID <id>`; its properties are `Gems.NameFallbacks` and `Gems.UnknownNamesDistinct` |
| `Gems.IdToName` | backup.py:114-115 | definition, no contract of its own: the table name, else `Unknown Gem`; compared with `Gems.GemName` by `Gems.NameFallbacks` |
| `Roster.IsHealer` | backup.py:124 | definition, no contract of its own: `specs` is present and non-empty and its first role, lower-cased, contains `healer`; its rules are `Roster.RoleRules` |
| `Roster.HealersCount` | backup.py:124 | the number of healers, never more than the number of roster entries |
| `Roster.HealersCountAppend` | backup.py:124 | the count of two concatenated rosters is the sum of their counts |
| `Roster.HealersCountAll` | backup.py:124 | the count equals the roster size exactly when every entry is a healer |
| `Roster.HealersCountNone` | backup.py:124 | the count is 0 exactly when no entry is a healer |
| `Roster.LaterSpecsIgnored` | backup.py:124 | dropping every spec after the first changes no count |
| `Roster.RoleRules` | backup.py:124 | for every entry: without specs it is no healer; only the first spec is read; entries whose first roles agree once lower-cased agree; lower-casing the first role changes nothing |
| `Roster.CaseInsensitiveRole` | backup.py:124 | examples: `Healer` and `HEALER` count; a healer second spec after `dps` does not; an empty spec list does not |
| `Duration.TotalTimeIsClock` | backup.py:122 | within timedelta's range the cell is exactly the `H:MM:SS[.ffffff]` clock of `ms mod 86400000`, with no days prefix left |
| `Duration.TimedeltaText` | backup.py:122 | `str(timedelta(milliseconds=ms))`: text exactly when the day count is at most 999999999 in magnitude; under one day it is the clock text alone |
| `Duration.TotalTime` | backup.py:122 | the cell: none (the OverflowError) exactly when the day count exceeds 999999999 in magnitude |
| `Duration.DaysDropped` | backup.py:122 | adding a whole day does not change the cell |
| `Duration.TotalTimeRoundTrip` | backup.py:122 | reading the cell back gives hours `(ms / 3600000) mod 24`, minutes `(ms / 60000) mod 60`, seconds `(ms / 1000) mod 60` and microseconds `(ms mod 1000) * 1000` |
| `Duration.FractionShownIffPartialSecond` | backup.py:122 | a `.ffffff` suffix appears exactly when `ms` is not a multiple of 1000 |
| `Duration.ClockArithmetic` | backup.py:122 | the clock fields of the day remainder equal those of `ms` itself |
| `Duration.ClockTextNoComma` | backup.py:122 | the clock text holds no comma, so the `", "` split never cuts it |
| `Duration.DaysTextNoComma` | backup.py:122 | the `N day(s)` prefix holds no comma before its `", "` |
| `Text.Split` | backup.py:122 | `split(sep)` always gives at least one piece |
| `Text.SplitFree` | src/assets/js/scripts.js:3 | a string free of the separator's first character splits into itself alone |
| `Text.SplitAfterFree` | backup.py:122 | a piece free of the separator's first character, followed by the separator, splits off as the first piece |
| `Text.SplitConcat` | src/assets/js/scripts.js:3 | with a one-character separator, the pieces of `a + sep + c` are the pieces of `a` followed by those of `c` |
| `Text.LowerIdempotent` | backup.py:124 | lower-casing twice is lower-casing once |
| `Text.SplitJoin` | src/assets/js/scripts.js:3 | splitting a join of pieces free of the separator's first character gives those pieces back |
| `Text.TrimFacts` | src/assets/js/scripts.js:5 | `trim` gives a slice of the segment with only whitespace outside it, and neither starting nor ending with whitespace |
| `Text.LeadingSpacesFacts` | src/assets/js/scripts.js:5 | the leading run removed is whitespace, and the character after it is not |
| `Text.TrailingSpacesFacts` | src/assets/js/scripts.js:5 | the trailing run removed is whitespace, and the character before it is not |
| `Text.IntToDecimalInjective` | backup.py:109 | different ids render as different decimal strings |
| `Text.DecimalRoundTrip` | backup.py:109 | reading the decimal digits of a number back gives the number |
| `Text.ZeroPadFacts` | backup.py:122 | `%02d`/`%06d` of a value below the width's power of ten has exactly that many digits and denotes the value |
| `Text.ShorterNotContains` | backup.py:124 | a role shorter than `healer` does not contain it |
| `Export.BuildRows` | backup.py:146-159 | as many rows as the longer of the stat and healing lists; row i carries entry i of each list, or empty cells past its end; gem entries are cut at that length; total time, healer count and highest secondary stat only in row 0 |
| `Export.GemsDoNotExtendTheRows` | backup.py:146 | two stats, five gems and no healing give two rows, carrying only the first two gems |
| `Export.NoBodyRowsWithoutStatsOrHealing` | backup.py:146-147 | with no stats and no healing no body row is written, whatever the gems |
| `Export.ProcessDataAndExport` | backup.py:118-159 | fails exactly when the conversion overflows, a stat cannot be made an integer, or a candidate stat is unusable, raising the first in evaluation order; otherwise writes `csv-output/<name>_modified.csv` with the fixed header, and rows aligned from the report's own healing, stat, gem and roster data |
| `Resolver.FindId` | backup.py:24-27 | an id exactly when some entry has that exact name; it is the id of the first such entry |
| `Resolver.EarlierMatchWins` | backup.py:24-27 | entries after a match never change the result, so earlier duplicates win |
| `Resolver.OtherNamesSkipped` | backup.py:24-27 | entries with other names are passed over |
| `Resolver.GetSourceId` | backup.py:20-40 | a non-200 status fails; a missing `composition` fails; otherwise the id of the first exact match, or a failure when no entry matches |
| `Auth.Refresh` | backup.py:175-192 | returns the cached token without fetching exactly when it is truthy, the expiry is set and now is before it; otherwise fetches. Success stores the response's token and sets the expiry one hour after the response; a non-200 status fails and changes nothing |
| `Auth.OAuth2Client.GetAccessToken` | backup.py:175-192 | the fields and the result move exactly as `Refresh` says of the old fields |
| `Auth.OAuth2Client.Init` | backup.py:166-172 | both fields start unset |
| `Auth.OAuth2Client.MakeRequest` | backup.py:194-199 | the header is `Bearer ` followed by the token, or `Bearer None` when none is cached; no field changes |
| `Auth.Connect` | backup.py:166-192 | the constructor's first request always happens; it succeeds exactly when that request returns 200, and then caches the token for an hour; a non-200 status raises |
| `Auth.ReusedWithinTheHour` | backup.py:176-188 | after a fetch that gives a truthy token, any call before the hour is up reuses it without fetching |
| `Auth.RefetchedAfterTheHour` | backup.py:176-188 | from the hour on, the next call fetches |
| `Auth.FalsyTokenForcesRefetch` | backup.py:176-186 | a response without a usable `access_token` leaves a falsy token, so the next call fetches again |
| `Auth.FailureKeepsCache` | backup.py:176-192 | a failed request changes neither field, and a call can only fail when it had to fetch |
| `Auth.CacheStable` | backup.py:176-177 | any run of calls made while the cache is valid fetches nothing and leaves the cache as it was |
| `Cookie.CheckCookie` | src/assets/js/scripts.js:2-11 | true exactly when some `;`-separated segment, trimmed, starts with the name |
| `Cookie.EmptyNameAlwaysFound` | src/assets/js/scripts.js:3-7 | the empty name is always found |
| `Cookie.EmptyCookieHoldsNothing` | src/assets/js/scripts.js:3-10 | an empty cookie string holds no non-empty name |
| `Cookie.PrefixIsEnough` | src/assets/js/scripts.js:3-7 | the test is on a prefix: a `;`-free, unpadded segment `visitedAt=1` counts as the cookie `visited` as the first segment, as the last one after `; `, and after `; ` between any earlier and later text |
| `Cookie.OrderIrrelevant` | src/assets/js/scripts.js:3-10 | reordering the segments of a cookie string does not change the answer |

## Left out

- HTTP requests, JSON decoding, the GraphQL query texts, `config.json`, logging and CSV writing are left out. The model returns the file's path, header and rows as a value, and takes every response as an input (status code plus the fields used).
- `datetime.now()` is replaced by clock parameters in microseconds. `get_access_token` reads the clock twice: once for the cache test and once after the response arrives. The model takes the two readings as separate inputs.
- The Dafny constructor `Auth.OAuth2Client.Init` only sets both fields to unset. The first token request that `__init__` also makes is modelled by `Auth.Connect`. `client_id`, `client_secret` and the two URLs are not modelled.
- `export_player_data`, `main`, the global `files_written_counter` with its print, and the three visitor-counter Lambda handlers are not part of this model. They do I/O or storage calls, and their branching and read-modify-write of the counter hold no logic the model depends on.
- `setCookie`, `get_visitors` and src/js/scripts.js are not part of this model. They are DOM, fetch and date plumbing.
- The three failures of `get_source_id` all end in the source as `RuntimeError("No active exception to reraise")`: no match raises at backup.py:30 and the `except` at backup.py:36 re-raises it; a non-200 response and a missing `composition` reach the bare `raise` at backup.py:40. The model gives them separate tags.
- `Stats.ModifyCombatantInfoData`: `int()` on a float or numeric string is not modelled. Stat values are integers, or objects of integer fields, and `int()` of an object fails.
- `Report.Get`: JSON keys are taken to be distinct. For duplicates, the first entry wins here, while Python's `json` keeps the last one.
- `Roster.IsHealer`: `lower()` is modelled for ASCII letters only.
- `Text.TrimFacts`: the whitespace set is the WhiteSpace and LineTerminator code points of ECMAScript. A Dafny `char` is a Unicode scalar value, so a JavaScript string holding a lone surrogate has no counterpart here; `trim` is unaffected, since every whitespace code point lies below U+10000.
- Integers are unbounded throughout. The source's Python integers are too, and JavaScript's string indices never reach the 2^53 limit.
- Missing keys and nulls in the JSON are not modelled. The records make every subscripted key mandatory, so these source exceptions cannot arise: the KeyError of `entry['name']` or `entry['total']` (backup.py:72), of `gem['id']` (backup.py:104) and of `entry['name']` or `entry['id']` (backup.py:26-27); the TypeError of a null `totalTime` (backup.py:122); and the AttributeError of a `"data": null` response (backup.py:23).
