# HealBuddy symptom checker — a Dafny model of its core

HealBuddy is a browser symptom checker.

1. It loads three CSV catalogs:
   - symptoms;
   - diseases, each with a severity;
   - a disease → symptom → weight table.
2. The user selects symptoms. Each disease gets a score: the sum of the weights of the selected symptoms it lists, divided by the number selected, as a percentage.
3. The results are ranked best first, and the top 15 are shown.
4. Triage advice is derived:
   - URGENT for a critical symptom or a 'Severe' disease;
   - HIGH for a 'Moderate' disease;
   - LOW otherwise.
5. Users register and log in against a table of accounts with hashed passwords.
6. An analytics store records each query and summarises usage.

This project models that core as pure functions over immutable values and proves what the code promises. The modules are:

- **Text**: the string built-ins used. These are `trim`, splitting on one character, the line split `split(/\r?\n/)`, and decimal digits.
- **Numbers**: `parseInt(s, 10)` and `parseFloat(s)`.
- **JsObject**: plain objects used as dictionaries. Their enumeration order follows ECMA-262 (section 10.1.11.1, OrdinaryOwnPropertyKeys): array-index keys first, in ascending order, then the other keys in creation order.
- **StableSort**: the stable `Array.prototype.sort` with a descending numeric comparator.
- **Csv**: `parseCSV`.
- **Catalog**: the three loaders.
- **Scoring**: per-disease scoring and the `scores` object.
- **Triage**: `calculateTriageLevel`.
- **Ranking**: `analyzeSymptoms` and the non-markup part of `displayResults`.
- **PasswordHash**: `hashPassword` and `verifyPassword`, with 32-bit wrap-around written out.
- **Email**: the registration e-mail regular expression.
- **Auth**: register, login and logout as state transitions.
- **Analytics**: `recordQuery` as a state transition, plus the summary queries.

Clock readings (`new Date()`) are parameters of the functions that use them.

## Model

| member | source | states |
|---|---|---|
| Csv.NonBlank | js/csvParser.js:10 | no more lines than the input; each kept line is non-blank and from the input, and every non-blank input line is kept |
| Csv.NonBlankAppend | js/csvParser.js:10 | filtering a concatenation is filtering each part, in order; with Csv.NonBlankOne this makes the result the in-order `filter`, repetitions included |
| Csv.NonBlankOne | js/csvParser.js:10 | a single line is kept exactly when its trimmed text is not empty |
| Csv.ParseCSV | js/csvParser.js:8-27 | an empty text, or one with no non-blank line, gives no rows; otherwise one row per non-blank line after the header |
| Csv.MakeRowKeys | js/csvParser.js:17-22 | a row's properties are exactly the distinct header names other than `__proto__` |
| Csv.MakeRowValue | js/csvParser.js:18-21 | a header's value is the trimmed cell at the header's last position, or '' when the line is short |
| Csv.ParseCSVCell | js/csvParser.js:12-24 | row i's value under header j is the trimmed cell j of non-blank line i+1 (the later duplicate header wins) |
| Csv.ParseCSVKeys | js/csvParser.js:12-22 | every row carries the same property set, the distinct headers |
| Csv.BlankTextHasNoRows | js/csvParser.js:9-11 | an all-whitespace text yields no lines and no rows |
| Csv.NoRowsIffHeaderOnly | js/csvParser.js:10-26 | no rows exactly when the text has at most one non-blank line |
| Csv.RowsOfText | js/csvParser.js:9-11 | the empty text and the line-based reading agree |
| Text.Trim | js/csvParser.js:10 | the result is the input minus exactly its leading and trailing whitespace, with no whitespace at either end |
| Text.TrimIdempotent | js/csvParser.js:10 | trimming twice is trimming once |
| Text.TrimEmptyIffBlank | js/csvParser.js:10 | a text trims to '' exactly when it is all whitespace |
| Text.Split | js/csvParser.js:16 | the pieces joined with the separator give back the text |
| Text.SplitJoin | js/csvParser.js:16 | splitting a join of separator-free pieces gives the pieces back |
| Text.SplitLines | js/csvParser.js:10 | one piece per line-feed-separated piece, none containing a line feed; each piece a line feed ends loses one trailing carriage return, and the last piece is kept whole |
| Text.DropCR | js/csvParser.js:10 | a line ending in '\r' loses exactly that character; any other line is unchanged |
| Text.SplitLinesJoinLines | js/csvParser.js:10 | splitting lines joined by any mix of "\n" and "\r\n" separators gives the lines back |
| Numbers.ParseInt | js/csvParser.js:37 | defined (not NaN) exactly when an optional sign after leading whitespace is followed by a digit |
| Numbers.ParseIntShowInt | js/csvParser.js:37 | parseInt reads back the decimal text of every integer, whatever non-digit follows |
| Numbers.ParseFloat | js/csvParser.js:79 | defined exactly when a digit, or '.' and a digit, follows the optional sign |
| Numbers.ParseFloatShowInt | js/csvParser.js:79 | parseFloat reads back the decimal text of every integer |
| Numbers.ParseFloatDecimal | js/csvParser.js:79 | a weight written `-?digits.fraction` reads as the integer digits plus the fraction digits over 10^(fraction length), negated after a minus |
| Numbers.ParseIntImpliesParseFloat | js/csvParser.js:77-81 | a cell that parseInt accepts is accepted by parseFloat too |
| Catalog.LoadSymptoms | js/csvParser.js:36-40 | at most one symptom per row; each symptom comes from a row whose id parses and whose name is non-empty, with that row's name and category, and every such row yields its symptom |
| Catalog.SomesAppend | js/csvParser.js:36-40 | `filter` of a concatenation is the concatenation of the filters |
| Catalog.LoadSymptomsAppend | js/csvParser.js:36-40 | the catalog of two row lists is the two catalogs one after the other, so row order and repetitions carry over |
| Catalog.LoadSymptomsOne | js/csvParser.js:36-40 | one row yields its symptom (id, name, category) when the id parses and the name is non-empty, otherwise nothing |
| Catalog.LoadDiseases | js/csvParser.js:54-59 | at most one disease per row; each disease comes from a row whose id parses and whose name is non-empty, with that row's name, category and severity, and every such row yields its disease |
| Catalog.LoadDiseasesAppend | js/csvParser.js:54-59 | the catalog of two row lists is the two catalogs one after the other, so the row order that decides which duplicate id wins in `scores` carries over |
| Catalog.LoadDiseasesOne | js/csvParser.js:54-59 | one row yields its disease (id, name, category, severity) when the id parses and the name is non-empty, otherwise nothing |
| Catalog.LoadMapping | js/csvParser.js:74-89 | no contract of its own: Catalog.LoadMappingDiseases, LoadMappingPairs, LoadMappingLastWins and MalformedRowsIgnored state what the fold builds |
| Catalog.LoadMappingDiseases | js/csvParser.js:74-89 | a disease has a weight table exactly when some well-formed row names it |
| Catalog.LoadMappingPairs | js/csvParser.js:76-88 | a (disease, symptom) weight exists exactly when some well-formed row names the pair |
| Catalog.LoadMappingLastWins | js/csvParser.js:85-88 | a pair's weight is the one in the last well-formed row naming it |
| Catalog.MalformedRowsIgnored | js/csvParser.js:81-83 | dropping the rows with an unparsable number first gives the same table |
| Scoring.SumWeights | js/app.js:89-95 | no contract of its own: Scoring.SumOverMatches and Scoring.SumWeightsBounds state the total |
| Scoring.MatchingIds | js/app.js:89-95 | `matchingSymptoms` holds only matching ids and is no longer than the selection |
| Scoring.MatchingIdsCount | js/app.js:89-95 | each id occurs in `matchingSymptoms` as often as it was selected if its weight is truthy, otherwise never |
| Scoring.MatchingIdsEmpty | js/app.js:89-97 | `matchingSymptoms` is non-empty exactly when some selected id has a truthy weight |
| Scoring.ScoreDisease | js/app.js:85-101 | a disease gets a record exactly when a selected symptom matches; the record's counts agree and are at most the selection size |
| Scoring.ScoreDiseaseLoop | js/app.js:86-101 | the loop as written computes the same record |
| Scoring.SumOverMatches | js/app.js:89-95 | the total is the sum over the matching ids alone |
| Scoring.SumWeightsBounds | js/app.js:89-95 | with weights in [0, 1], the total is between 0 and the match count, and positive when something matches |
| Scoring.ScoreIsPercentage | js/app.js:99 | with weights in [0, 1], 0 < score <= 100 × matches / selected <= 100 |
| Scoring.UnmatchedSelectionDilutes | js/app.js:99 | selecting one more unlisted symptom keeps the matches and scales the score by n/(n+1) |
| Scoring.ScoreAll | js/app.js:84-102 | every entry of `scores` is keyed by its disease's id and has at least one match |
| Scoring.Collect | js/app.js:84-102 | no contract of its own: Scoring.ScoreAllKeys, ScoreAllUnique and ScoreAllLastWins state the object the assignments build |
| Scoring.ScoreAllUnique | js/app.js:98 | `scores` has one property per disease id |
| Scoring.ScoreAllKeys | js/app.js:97-101 | `scores[id]` exists exactly when some disease with that id has a match |
| Scoring.ScoreAllLastWins | js/app.js:85-101 | with duplicate disease ids, the last disease that matched owns the entry |
| Scoring.EmptySelectionScoresNothing | js/app.js:84-102 | with no selection, `scores` stays empty |
| Triage.MaxSeverity | js/app.js:55-58 | no contract of its own: Triage.MaxSeverityIsHighest and Triage.MaxSeverityOrderFree state what the reduce yields |
| Triage.Step | js/app.js:56-57 | one reduce step yields the higher of the accumulator and the record's severity |
| Triage.MaxSeverityIsHighest | js/app.js:55-58 | the reduce yields the highest severity present, or 'Mild' |
| Triage.MaxSeverityOrderFree | js/app.js:55-58 | the reduce does not depend on the enumeration order |
| Triage.HasCritical | js/app.js:54 | true exactly when some selected id is one of the eight critical ids |
| Triage.TriageLevel | js/app.js:53-76 | no contract of its own: Triage.TriageLevelSpec states the level it picks |
| Triage.CalculateTriage | js/app.js:53-76 | no contract of its own: the advice is the fixed object for the level Triage.TriageLevelSpec states |
| Triage.TriageLevelSpec | js/app.js:53-76 | URGENT iff a critical id is selected or a scored disease is 'Severe'; HIGH iff neither and some is 'Moderate' |
| StableSort.SortDesc | js/app.js:111 | the output is a permutation of the input; StableSort.SortDescNonIncreasing and StableSort.SortDescStable give its order |
| StableSort.SortDescNonIncreasing | js/app.js:111 | the sorted list is non-increasing in score |
| StableSort.SortDescStable | js/app.js:111 | records with equal scores keep their enumeration order |
| StableSort.StableSortIsUnique | js/app.js:111 | any stable non-increasing permutation is this sort's result |
| StableSort.TiesAscending | js/app.js:111 | elements with equal keys come out in the order they had in the input |
| JsObject.Put | js/app.js:98 | an existing key keeps the key set; a new key is appended at the end of creation order; every entry is the new one or an old one |
| JsObject.OwnEntries | js/app.js:111 | the enumeration is a permutation of the object's entries |
| JsObject.GetAfterPut | js/app.js:98 | after `o[k] = v`, `o[k]` is v and every other key reads as before |
| JsObject.PutUnique | js/app.js:98 | assignment keeps one property per key |
| JsObject.OwnEntriesIndexOrder | js/app.js:111 | `Object.values` lists array-index keys first, in ascending order |
| JsObject.OwnEntriesKeysAscending | js/app.js:111 | when every key is an array index, enumeration yields the keys in strictly ascending numeric order, whatever the creation order |
| Ranking.Rank | js/app.js:111 | at most 15 records, best score first, drawn without repetition from the records in `scores` (a sub-multiset) |
| Ranking.SortedFromScores | js/app.js:111 | the sorted list is a permutation of the records in `scores` |
| Ranking.RankKeepsBest | js/app.js:111 | a record scoring strictly above the last one shown is shown, and with at most 15 records all are |
| Ranking.Analyze | js/app.js:78-107 | no contract of its own: Ranking.AnalyzeOutcome and Ranking.AnalyzeTiesById state the outcome |
| Ranking.DisplayResults | js/app.js:109-118 | no contract of its own: Ranking.DisplayResultsShape and Ranking.TriageSeesAllScores state the outcome |
| Ranking.ScoredIffMatch | js/app.js:97-102 | `scores` is non-empty exactly when some disease has a matching selected symptom |
| Ranking.AnalyzeOutcome | js/app.js:78-118 | an empty selection stops before scoring; results appear exactly when something matches, then 1..15 of them, best first |
| Ranking.DisplayResultsShape | js/app.js:109-116 | the "No Matches" panel appears exactly when nothing scored; otherwise 1..15 records, best first |
| Ranking.EnumerationAscending | js/app.js:111 | `Object.values(scores)` lists the records by strictly ascending disease id when every id is an array index |
| Ranking.RankTiesById | js/app.js:111 | records with equal scores are shown in ascending disease id order |
| Ranking.ScoreAllKeyedByIndex | js/app.js:98 | each record is stored under its own disease id, once, and the ids are array indices when the catalog's are |
| Ranking.AnalyzeTiesById | js/app.js:98-111 | on the results screen, equal scores appear in ascending disease id order |
| Ranking.TriageSeesAllScores | js/app.js:111-118 | a 'Severe' record ranked below the cut still makes the advice URGENT |
| PasswordHash.ToInt32 | js/auth.js:89-90 | the result is in [-2^31, 2^31) and congruent to the input modulo 2^32 |
| PasswordHash.HashStepIs31 | js/auth.js:89-90 | one iteration is `31·h + c` wrapped to 32 bits |
| PasswordHash.HashLoopIsPoly | js/auth.js:86-91 | the loop computes the base-31 polynomial of the code units wrapped to 32 bits |
| PasswordHash.FromHexToHex | js/auth.js:92 | the hex text reads back as the number |
| PasswordHash.HashPassword | js/auth.js:85-93 | the output is lowercase hex of the absolute wrapped polynomial, at most 2^31, in canonical `toString(16)` form: never empty, no leading zero except "0" itself |
| PasswordHash.VerifyPassword | js/auth.js:96-98 | no contract of its own: PasswordHash.VerifyIffSameHash states when it holds |
| PasswordHash.VerifyIffSameHash | js/auth.js:96-98 | a password verifies against another's hash exactly when their wrapped hashes agree up to sign |
| Email.IsEmailMatchesPattern | js/auth.js:27-28 | the email format test accepts exactly the strings `^[^\s@]+@[^\s@]+\.[^\s@]+$` matches |
| Auth.Register | js/auth.js:7-44 | success exactly when every check passes; on success only the new account is stored, with hashed password; failure changes nothing; a refusal reports the first failing check, in the order: missing field, short password, mismatch, already registered (inherited names included), bad format |
| Auth.Login | js/auth.js:47-75 | success exactly when both fields are given, the account exists and the hash matches; then it becomes the current user; failure changes nothing; a refusal says "Email and password are required" for a missing field, else "User not found" when `users[email]` is falsy, else "Incorrect password" (inherited names included) |
| Auth.IsLoggedIn | js/auth.js:101-103 | true exactly when `getCurrentUser()` is not null |
| Auth.GetCurrentUser | js/auth.js:106-108 | no contract of its own: Auth.LoginStartsSession and Auth.LogoutEndsSession state what it returns |
| Auth.Logout | js/auth.js:78-82 | succeeds, clears the current user, keeps the accounts |
| Auth.OperationsPreserveValid | js/auth.js:7-82 | register, login and logout keep every account under its own well-formed email with a hex hash, and the current user registered |
| Auth.ValidLookup | js/auth.js:22 | in a valid store, a well-formed email reads as taken exactly when it is stored |
| Auth.InheritedNamesAreNotEmails | js/auth.js:22-29 | no inherited `Object.prototype` name passes the e-mail check |
| Auth.InheritedNameTaken | js/auth.js:22-24 | registering an inherited property name such as `toString` is refused as already registered |
| Auth.RegisterThenLogin | js/auth.js:33-69 | after a successful registration, logging in with the same credentials succeeds and opens that user's session |
| Auth.RegisterTwiceRefused | js/auth.js:22-24 | registering the same email again is refused and changes nothing |
| Auth.LoginWrongPassword | js/auth.js:60-62 | login reports an incorrect password exactly when the password's hash differs from the stored one |
| Auth.LogoutEndsSession | js/auth.js:78-108 | after logout nobody is logged in and there is no current user |
| Auth.LoginStartsSession | js/auth.js:64-74 | after a successful login the user is logged in as that account |
| Analytics.EntryFor | js/analytics.js:26-34 | the session records the email, time and selected ids; with a diagnosis, its name unless empty (then 'None'), its id unless 0 (then null), and its score; without one, 'None', null and 0 |
| Analytics.BumpAllCount | js/analytics.js:39-41 | each symptom's trend rises by its number of occurrences in the selection, others unchanged |
| Analytics.RecordQuery | js/analytics.js:21-69 | no contract of its own: the Analytics.RecordQuery* lemmas below state its effect on each part of the data |
| Analytics.Touch | js/analytics.js:50-61 | no contract of its own: Analytics.RecordQueryUserStats states the user-stats update |
| Analytics.RecordQueryTrends | js/analytics.js:39-47 | symptom trends rise by occurrence count; the diagnosis trend gains one for the given name only |
| Analytics.RecordQueryUserStats | js/analytics.js:50-61 | the user gets one more query and `lastActive = now`; `firstLogin` is set only on the first query; other users are untouched |
| Analytics.RecordQuerySessions | js/analytics.js:63-66 | the sessions become the most recent suffix of the old list plus the new entry, at most 1000 long |
| Analytics.RecordQueryPreservesValid | js/analytics.js:21-69 | at most 1000 sessions and one property per trend key are kept |
| Analytics.TopItems | js/analytics.js:98-103 | at most `limit` entries, most frequent first, drawn without repetition from the input entries (a sub-multiset) |
| Analytics.TopItemsKeepBest | js/analytics.js:98-103 | an entry counted more often than the last returned is returned, and with at most `limit` entries all are |
| Analytics.Retention | js/analytics.js:106-111 | 0 with no users; otherwise the nearest whole percentage of users with more than one query, rounding half up; never above 100 |
| Analytics.CountAfter | js/analytics.js:78-84 | the number of sessions after the cut-off is at most the number of sessions |
| Analytics.CountAfterAntitone | js/analytics.js:78-84 | a later cut-off counts no more sessions |
| Analytics.GetSummary | js/analytics.js:72-95 | `last7Days <= last30Days <= totalSessions`, retention at most 100, at most 10 top items each |
| Analytics.LastN | js/analytics.js:125 | `slice(-n)`: the last `min(n, length)` elements, in order |
| Analytics.RecentSessions | js/analytics.js:125 | no contract of its own: Analytics.LastN states the slice and Analytics.RecordedIsMostRecent its newest element |
| Analytics.RecordedIsMostRecent | js/analytics.js:125 | after a query, the newest recent session is that query's entry |

## Left out

- The DOM, `alert`, rendering and the symptom search box (js/app.js:11-51, 119-150) are not modelled. The names of matched symptoms shown on each card are left out too, because they are only display.
- The loaders' `fetch`, `async` flow, `console` output and error handlers are left out, because they are I/O. Loading is modelled from parsed rows.
- `localStorage` and JSON persistence are modelled as explicit state values.
  - A stored JSON object with an own `__proto__` key is not modelled.
  - js/admin.js is not part of this model.
- `getDetailedStats` is modelled only through its `recentSessions` slice. The remaining fields:
  - the raw tables are passed through unchanged;
  - `averageSymptomsPerQuery` is a `toFixed` float string.
- Numbers are exact reals, not IEEE doubles.
  - Scores are exact quotients.
  - `Math.round` in Analytics.Retention is modelled on the exact ratio. A double rounding error at an exact .5 boundary is not modelled.
- Numbers.ParseFloat reports a prefix spelling `Infinity` as unparsable, because Infinity is not a real number.
- Numbers.ParseInt returns the exact integer, so the loss of precision beyond 2^53 is not modelled.
- Catalog.Field reads a column missing from the header as ''. The source reads it as `undefined`. Every filter and comparison treats the two alike, and the difference only shows in a displayed category.
- Analytics.RecordQuery treats a disease name or user email that names an `Object.prototype` property (`toString`, `__proto__`, …) as an ordinary key.
- Analytics.Data keys `symptomTrends` by the integer id rather than its decimal string. Enumeration uses the same array-index order the string keys would have.
- Ranking.AnalyzeTiesById: assumes every disease id is an array index, 0 to 2^32 − 2. Other ids are enumerated after the index keys, in creation order, and no lemma states their tie order.
- Session timestamps are milliseconds. The ISO text that `toISOString` writes and `new Date` reads back denotes the same instant, so the text form is not modelled.
- Auth: the initial state loaded from storage is arbitrary. The validity invariant is proved from the empty store, Auth.Init, on.
- Email.IsEmail: `\s` is the ECMAScript WhiteSpace and LineTerminator set, the same set `trim` removes.
