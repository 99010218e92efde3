# English dictionary: a Dafny model

This project models the logic of a small English dictionary web application
and its data importer, and proves properties of that model.

- **The JSON endpoint** (`website/api.php`): one handler per `action`
  (`search`, `getWord`, `randomWord`, `randomWords`, `addFavorite`,
  `removeFavorite`, `getFavorites`, `checkFavorite`, `recentSearches`,
  `stats`, anything else). Each handler is a method on `Api.Store`, a class
  holding the four tables `words`, `search_stats`, `search_history` and
  `favorites`, plus the AUTO_INCREMENT counter of `words.id`. Each SQL
  statement is a function over those tables. The keys and foreign keys of
  the schema (`website/config.php`, `initDatabase`) are the class invariant
  `Valid()`, together with the rule that a word's search count equals its
  number of history rows. Every handler that writes keeps that invariant in
  the model. The program does not keep it for a client IP longer than 45
  characters (see "Left out").
- **The configuration** (`website/config.php`): `loadEnv` is a loop over
  the lines of the `.env` text that updates `$_ENV` and the process
  environment (`Env.Environment`). It is proved equal to a fold of `Env.Step`
  over `Env.FileLines`, and the first-wins, skip and split rules are proved
  about that fold. The five `getenv(...) ?: default` settings are `Env.DbSettings`.
- **The importer** (`import_dictionary.py`, `import_csv_data`): the
  clear-or-skip decision, the strip-and-filter of each CSV row, and the
  batching loop, which writes into the same `Api.Store`. The batches are
  proved to be exactly the cut of the kept rows into thousands, and the
  table is proved to end up holding the kept rows in file order, for a file
  whose every record has both fields.
- **The browser script** (`website/script.js`):
  - the recent-search list in local storage (`Client.LocalRecent`);
  - the relative-time label `formatDate`, and a parser that reads it back;
  - the share text;
  - the favourite button (`Client.FavoriteButton`). It calls the store's
    handlers, and its highlight is proved to keep mirroring the favourites
    table.

Files:

- `text.dfy` (module `Text`): trimming, prefixes and previews, string order, decimal digits and lower-casing.
- `sequences.dfy` (module `Sequences`): the sort that stands for `ORDER BY`.
- `api.dfy` (module `Api`): the tables and handlers.
- `env.dfy` (module `Env`): the configuration.
- `importer.dfy` (module `Importer`): the importer.
- `client.dfy` (module `Client`): the browser code.

Times are integers given as parameters:

- server times are seconds;
- `formatDate` works on milliseconds.

The session id and the `$_SERVER` entries are also parameters.

## Model

| member | source | states |
|---|---|---|
| Api.GetUserIP | website/api.php:10-18 | the client IP header when non-empty, else the forwarded-for header when non-empty, else the remote address |
| Api.Present | website/api.php:11-13 | `!empty` of a header: it is set and neither "" nor "0" |
| Api.UserIpIsFirstPresent | website/api.php:10-18 | the IP is the first present candidate of the ordered list, with the remote address as fallback |
| Api.OrElse | website/api.php:23 | `?? default`: a given parameter is used, a missing one takes the default |
| Api.Like | website/api.php:33-37 | a pattern without wildcard characters matches exactly the text equal to it |
| Api.LikeTrailingPercent | website/api.php:37 | the pattern "%" matches every text |
| Api.LikeIsPrefix | website/api.php:33-37 | for a query without wildcard characters, `word LIKE q%` holds exactly when `q` is a prefix of the word |
| Api.UnderscoreMatchesAnyWord | website/api.php:37 | the query is not escaped: "_" matches every one-letter word, though it is a prefix of none |
| Api.FindWord | website/api.php:61-65 | a row is found iff some row has exactly that word, and the row found has that word and is in the table |
| Api.FindById | website/api.php:183 | the join finds a row iff the id is in the table, and the row found has that id |
| Api.FindByIdUnique | website/config.php:61 | under the primary key, the row found for a row's id is that row |
| Api.Texts | website/api.php:122-125 | one text per row, in row order |
| Api.Rotate | website/api.php:120 | the random order has as many rows as the table |
| Api.RotationKeepsTexts | website/api.php:120 | the random order lists every row exactly once |
| Api.RotatedPrefixTexts | website/api.php:120-125 | `LIMIT count` over the random order gives min(count, table size) texts, none more often than in the table |
| Api.SummaryTruncates | website/api.php:43-47 | a listed row keeps id and word, and its definition is the first 100 characters followed by "..." |
| Api.Summary | website/api.php:43-47 | a listed row keeps its id and word; its definition is at most 103 characters and, before the final three, a prefix of the original |
| Api.Matching | website/api.php:30-33 | a row is selected iff it is in the table and its word matches `q%` |
| Api.WordBeforeIsOrder | website/api.php:34 | `ORDER BY word` is a total, transitive order |
| Api.SearchRowsSpec | website/api.php:30-39 | the search returns min(10, number of matches) rows: the first rows of the matches sorted by word, so no row twice, in ascending word order |
| Api.SearchRowsFirst | website/api.php:34-35 | a matching row left out by `LIMIT 10` sorts no earlier than any row returned |
| Api.SearchRows | website/api.php:30-39 | at most 10 rows, and no more than the table holds |
| Api.WithoutPair | website/api.php:166 | the delete keeps exactly the rows whose (word_id, session_id) differs from the pair |
| Api.WithoutPairSpec | website/api.php:166 | the delete removes exactly that pair from the set of pairs and keeps the pairs unique |
| Api.SessionFavorites | website/api.php:180-184 | every joined row is a word of the table that the session has marked at that time |
| Api.SessionFavoritesComplete | website/api.php:180-184 | every word the session has marked appears in the join |
| Api.SessionFavoritesDistinct | website/api.php:180-184 | under the `unique_favorite` key, no word appears twice among the session's joined rows |
| Api.FavoriteRowsSpec | website/api.php:180-186 | `getFavorites` lists exactly the session's marked words, newest first: the list is the join reordered (same multiset), and under the unique key each word appears once |
| Api.FavoriteRows | website/api.php:180-186 | no more rows than the favourites table holds |
| Api.BumpOrigin | website/api.php:216-219 | folding in one search only adds a group for that search |
| Api.Bump | website/api.php:216-219 | folding in one search adds at most one group and removes none |
| Api.BumpCovers | website/api.php:216-219 | folding in one search loses no earlier search, and covers the new one |
| Api.BumpDistinct | website/api.php:219 | folding in one search keeps one group per word text |
| Api.GroupsDistinct | website/api.php:219 | `GROUP BY w.word` yields one group per word text |
| Api.GroupsAttained | website/api.php:216 | each group's time is the time of one search of its word |
| Api.GroupsCover | website/api.php:216-219 | every search of an existing word is covered by a group of that word that is at least as late |
| Api.Groups | website/api.php:216-219 | no more groups than history rows |
| Api.RecentRowsShape | website/api.php:215-222 | at most 20 rows, distinct texts, latest first, each row a real group with an attained time |
| Api.RecentRowsLatest | website/api.php:216-220 | a listed word carries the time of its latest search |
| Api.RecentRowsComplete | website/api.php:220-221 | a searched word missing from the list means the list is full and every listed word was searched no earlier |
| Api.RecentRows | website/api.php:215-222 | at most 20 rows, and no more than the history holds |
| Api.GroupTexts | website/api.php:224-227 | the texts of the groups, in order; a text is listed iff some group has it |
| Api.CountOnDayCounts | website/api.php:238 | today's count is the number of history rows on that day, at most the history length |
| Api.DayOf | website/api.php:238 | `DATE(t)`: the day number whose 86400 seconds contain `t` |
| Api.HistoryCount | website/api.php:69-82 | a word's history count is at most the history length |
| Api.HistoryCountCounts | website/api.php:69-82 | a word's history count is the number of history indices whose row names that word |
| Api.CountOnDay | website/api.php:238 | today's count is at most the history length |
| Api.SessionCount | website/api.php:243 | a session's favourites count is at most the favourites table size |
| Api.SessionCountIsDistinctWords | website/api.php:243 | under the unique key, a session's favourites count is the number of distinct words it marked |
| Api.Upsert | website/api.php:69-75 | the key set gains the word; its count becomes 1 if new, else one more; its time is now; other rows are unchanged |
| Api.LoggedSearchKeepsCounts | website/api.php:69-82 | the upsert together with the history insert keeps every count equal to the number of history rows |
| Api.Store.constructor | website/config.php:55-111 | empty tables satisfy the schema invariant |
| Api.Store.Valid | website/config.php:55-111 | the schema's keys and foreign keys, and counts equal to history rows; it implies that the next id is unused and that every history row names an existing word |
| Api.Store.Search | website/api.php:22-51 | an empty query fails with "Query too short"; otherwise one summary per row of the search, in order |
| Api.Store.GetWord | website/api.php:53-101 | empty or unknown words fail and write nothing; a match upserts the stat, appends one history row with the caller's IP, and returns the full row with the count that equals the number of history rows |
| Api.Store.LogSearch | website/api.php:69-82 | the stats row is upserted, exactly one history row is appended, and the invariant is kept |
| Api.Store.RandomWord | website/api.php:103-116 | "No words found" on an empty table, else a row of the table |
| Api.Store.RandomWords | website/api.php:118-128 | a negative count aborts; otherwise min(count, size) texts from the random order, none repeated beyond the table |
| Api.Store.AddFavorite | website/api.php:130-155 | an empty id is rejected; an existing pair or an unknown word gives "Already in favorites" and no change; otherwise the row is appended and the pair added |
| Api.Store.RemoveFavorite | website/api.php:157-175 | an empty id is rejected; otherwise success, and afterwards the pair is absent and nothing else changed |
| Api.Store.GetFavorites | website/api.php:177-200 | one summary per favourite row of the session, in order |
| Api.Store.CheckFavorite | website/api.php:202-212 | true iff the (word, session) pair is in the favourites table |
| Api.Store.RecentSearches | website/api.php:214-230 | the texts of the recent-search rows, in order |
| Api.Store.Stats | website/api.php:232-259 | total searches is the history length, today is the number of rows on today's day, favourites the session's distinct words, words the table size |
| Api.Store.Answer | website/api.php:20-264 | each read-only action gives its handler's reply (`Answers`), with `q` defaulting to '', `count` to 6 and `wordId` to 0; an unknown action fails with "Invalid action" |
| Api.Store.Dispatch | website/api.php:20-264 | an unknown action fails with "Invalid action"; a read-only action gives its handler's reply and writes nothing; `getWord`, `addFavorite` and `removeFavorite` give their handler's reply and new tables, with `word` defaulting to '' and `wordId` to 0; the invariant is kept |
| Api.Store.ClearWords | import_dictionary.py:98 | `DELETE FROM words` empties all four tables through the cascades and keeps the invariant |
| Api.Store.InsertWord | import_dictionary.py:120 | the row is appended with the next id, and the others are unchanged |
| Api.Store.InsertWords | import_dictionary.py:119-122 | the table's (word, definition) pairs gain the batch, in order |
| Sequences.Sort | website/api.php:34 | the ordered result is a permutation of the selected rows |
| Sequences.SortSorted | website/api.php:34 | the ordered result is sorted by a total order |
| Sequences.SortedIsPairwise | website/api.php:34 | under a transitive order, sorted means every row comes no later than every later row |
| Sequences.TakeKeepsSmallest | website/api.php:35 | what LIMIT cuts off sorts no earlier than what it keeps |
| Sequences.SortKeepsKeysDistinct | website/api.php:219-220 | ordering keeps distinct keys distinct |
| Text.Preview | website/api.php:46 | length min(d, 100) + 3, a prefix of the definition, then "..." |
| Text.PreviewOfShortText | website/api.php:46 | a short definition is kept whole and still gets "..." |
| Text.Trim | website/config.php:15-16 | the trimmed text is no longer than the text and neither starts nor ends with a whitespace character |
| Text.TrimSpec | website/config.php:15-16 | the trimmed text is a slice without whitespace at either end, everything cut is whitespace, and it is empty iff the text is all whitespace |
| Text.TrimIdempotent | website/config.php:15-16 | trimming twice is trimming once |
| Text.LexLeTotal | website/api.php:34 | any two words are comparable |
| Text.LexLeTransitive | website/api.php:34 | the word order is transitive |
| Text.LexLeAntisymmetric | website/api.php:34 | two words each no later than the other are equal |
| Text.PrefixLexLe | website/api.php:34 | a prefix sorts no later than the word it begins |
| Text.NatToStringRoundTrip | website/script.js:498 | the decimal text of a count reads back as the count |
| Text.AsciiLower | import_dictionary.py:96 | same length, each character lowered |
| Text.LowerIsYes | import_dictionary.py:96 | the answer lowers to "yes" iff it is "yes" in some mix of cases |
| Env.LineEnd | website/config.php:8 | the first newline, or the end of the text |
| Env.LineText | website/config.php:8 | a text without a newline stays without one once the "\r" of a "\r\n" line end is dropped |
| Env.FileLines | website/config.php:8 | the lines have no newline and none is empty |
| Env.FileLinesOfHead | website/config.php:8 | the text before the first newline is read as one line without its "\r", or as nothing when that leaves it empty, then the rest of the file |
| Env.FileLinesOfLine | website/config.php:8 | a non-empty line not ending in "\r", with its newline, is read as that line |
| Env.CrlfEndsALine | website/config.php:8 | "\r\n" ends a line just as "\n" does |
| Env.BlankCrlfLineIsSkipped | website/config.php:8 | an empty line of a CRLF file yields no line |
| Env.CrlfLinesAroundABlank | website/config.php:8 | a CRLF file of two lines around a blank line is read as those two lines |
| Env.CrlfFileLoads | website/config.php:8-21 | such a file of two assignments of different non-empty names loads both into an empty environment without failing |
| Env.FileLinesAfterJoin | website/config.php:8 | non-empty lines without a newline and not ending in "\r", written before any text, are read back first, in order |
| Env.EmptyLineIsSkipped | website/config.php:8 | an empty line yields no line |
| Env.FileLinesOfJoin | website/config.php:8 | reading back a file written line by line gives the lines, when none is empty, holds a newline or ends in "\r" |
| Env.SplitAtFirst | website/config.php:14 | the name holds no '='; without '=' the name is the line; with one, line = name + "=" + value |
| Env.SplitAtFirstEquals | website/config.php:14 | a name without '=' is split off exactly, and the value keeps any later '=' |
| Env.IsComment | website/config.php:10 | a line is a comment iff its first character that is not PHP whitespace is '#' |
| Env.ParseLine | website/config.php:10-16 | a line is skipped iff its trimmed text starts with '#'; otherwise name and value are the trimmed halves, with value "" when there is no '=' |
| Env.NameHasNoEquals | website/config.php:14-15 | a parsed name holds no '=' |
| Env.ParseAssignment | website/config.php:14-16 | `name=value` parses to the trimmed name and value |
| Env.Step | website/config.php:10-21 | a line fails exactly when it is an assignment whose name trims to "" and "" is not yet in `$_ENV`; a name already in `$_ENV` keeps its value |
| Env.Run | website/config.php:9-22 | loading lines never changes or removes a name that was already in `$_ENV` |
| Env.RunAppend | website/config.php:9-22 | loading two runs of lines is loading the first, then the second from where it left off |
| Env.RunKeepsExisting | website/config.php:18-21 | a name already in `$_ENV` is never overwritten in either map |
| Env.RunLeavesUnassigned | website/config.php:18-21 | a name no line assigns is not added |
| Env.FirstAssignmentWins | website/config.php:18-21 | the first line assigning a new name sets it in both maps, whatever follows |
| Env.BlankLineStopsTheLoad | website/config.php:8-19 | a non-empty line of only spaces or tabs is kept by `file()`, its name trims to "" and it stops the load |
| Env.Environment.LoadEnv | website/config.php:3-23 | a missing file dies and changes nothing; otherwise the state is the fold of the line step over the file's lines, with the failure reported |
| Env.GetenvOr | website/config.php:29 | the variable's value when set and not "" or "0", else the default |
| Env.DbSettings | website/config.php:29-33 | each of host, user, password, name and port is its variable when that is set and neither "" nor "0", else localhost, root, "", english_dictionary and 3306 respectively |
| Env.DbSettingsDependOnlyOnTheFive | website/config.php:29-33 | two environments that agree on the five variables give the same settings |
| Env.DefaultSettings | website/config.php:29-33 | an unset environment gives localhost, root, "", english_dictionary, 3306 |
| Env.ZeroPasswordIsDropped | website/config.php:31 | a password of "0" becomes "" |
| Importer.Cleaned | import_dictionary.py:112-113 | each stripped field is no longer than the field, and is empty iff the field holds only Python whitespace |
| Importer.Keeps | import_dictionary.py:115 | a row is kept iff each field holds a character outside Python's 29 whitespace characters |
| Importer.IdeographicSpaceIsDropped | import_dictionary.py:113-115 | a definition of one ideographic space (U+3000) strips to nothing, so the row is dropped |
| Importer.ThinSpaceIsStripped | import_dictionary.py:112-113 | a thin space (U+2009) after a word is stripped |
| Importer.Kept | import_dictionary.py:111-116 | no more kept rows than input rows |
| Importer.KeptRows | import_dictionary.py:111-116 | every kept pair has two non-empty fields and is the stripped form of a kept input row |
| Importer.KeptSingle | import_dictionary.py:112-115 | a row is kept, stripped, iff both fields hold a non-whitespace character |
| Importer.KeptAppend | import_dictionary.py:111-116 | filtering keeps file order |
| Importer.Chunks | import_dictionary.py:118-135 | there are batches iff there are rows, and every batch holds 1 to 1000 rows |
| Importer.ChunksSpec | import_dictionary.py:118-135 | the batches concatenate to the kept rows; all but the last have 1000 rows, the last 1 to 1000 |
| Importer.BatchingIsChunks | import_dictionary.py:118-135 | any batching of that shape is the cut into thousands |
| Importer.Flush | import_dictionary.py:119-124 | the batch is inserted and counted, and the other tables are unchanged |
| Importer.Accept | import_dictionary.py:111-126 | one pass of the loop adds the row's stripped form to the pending rows iff it is kept |
| Importer.ImportRows | import_dictionary.py:104-135 | the batches are the cut of the kept rows; the total counts them; the table holds exactly the kept rows in order |
| Importer.ImportCsvData | import_dictionary.py:84-142 | a non-empty table and an answer other than "yes" change nothing; otherwise the table is cleared first when it was non-empty, a missing file leaves it empty, and an import fills it with the kept rows |
| Client.Without | website/script.js:368 | the filter is no longer than the list |
| Client.WithoutSpec | website/script.js:368 | the filter drops every copy of the word and keeps every other element with its count |
| Client.WithoutAbsent | website/script.js:368 | filtering out an absent word changes nothing |
| Client.WithoutKeepsDistinct | website/script.js:368 | a list without duplicates stays without duplicates |
| Client.SavedRecent | website/script.js:366-372 | the saved list is non-empty, at most 20 long, and starts with the word |
| Client.SavedRecentSpec | website/script.js:366-372 | the word comes first and once; the rest is the old list without it, in order, cut to 19; nothing new appears |
| Client.SavedRecentIdempotent | website/script.js:368-370 | saving the same word twice gives the list saved once |
| Client.SavedRecentDistinct | website/script.js:368-370 | the list stays without duplicates and within 20 |
| Client.LocalRecent.constructor | website/script.js:367 | no entry yet is the empty list |
| Client.LocalRecent.Save | website/script.js:366-372 | the stored list becomes the saved list |
| Client.Classify | website/script.js:492-500 | "Just now" iff under a minute; the date iff a week or more |
| Client.ClassifyBands | website/script.js:492-500 | under a minute is "Just now", then minutes below an hour, hours below a day, days below a week, then the date |
| Client.ClassifyCount | website/script.js:493-500 | the number shown is the count of whole units elapsed, at least 1 |
| Client.ElapsedSymmetric | website/script.js:492 | a future time reads like the same distance in the past |
| Client.ElapsedSince | website/script.js:490-492 | an invalid date shows the calendar date; otherwise "Just now" iff the distance is under a minute, and the date iff it is a week or more |
| Client.UnitName | website/script.js:498-500 | a singular unit name of at least three letters that does not end in "s" |
| Client.Suffix | website/script.js:498-500 | the text after the number ends in " ago", and in "s ago" iff the count is above 1 |
| Client.Label | website/script.js:497-502 | a count label starts with the count's decimal text and ends in " ago"; a date label is the locale date |
| Client.FormatDate | website/script.js:489-503 | an invalid date shows the locale date; under a minute either way is "Just now"; a week or more is the locale date |
| Client.PluralOnlyAboveOne | website/script.js:498-500 | the label ends in "s ago" iff the count is above 1 |
| Client.ParseSuffixInverse | website/script.js:498-500 | the six unit suffixes are distinct and each reads back as its unit and number |
| Client.ParseLabelOfLabel | website/script.js:497-500 | every label other than a date reads back as what produced it |
| Client.LabelOfParseLabel | website/script.js:497-500 | a text read as a label is exactly the label of what was read |
| Client.DecimalRoundTrip | website/script.js:498 | a digit string without a leading zero is the decimal text of its value |
| Client.ShareText | website/script.js:401 | the word and ": " come first and "..." last; at most 105 characters more than the word |
| Client.ShareTextSpec | website/script.js:401 | word, ": ", the first 100 characters of the definition, "..."; the same preview the server lists |
| Client.FavoriteButton.constructor | website/script.js:2 | no current word and no highlight |
| Client.FavoriteButton.CheckFavoriteStatus | website/script.js:288-306 | the highlight is on iff the server has the pair |
| Client.FavoriteButton.Display | website/script.js:187-206 | the current word is set and the highlight mirrors the server |
| Client.FavoriteButton.Toggle | website/script.js:249-286 | without a word nothing is sent or changed; otherwise remove is sent when highlighted, else add; the highlight flips iff the server reports success; mirroring is preserved |

## Left out

- Database I/O: connecting, creating the database and tables, and `commit`. Only their schema constraints are kept, as `Api.Store.Valid()`.
- Concurrency: each request is one atomic step. The stats upsert under concurrent requests is not modelled.
- Collation: `utf8mb4_unicode_ci` compares case-insensitively. The model compares exact characters and orders by character code (`Text.LexLe`).
- PHP `substr` counts bytes and JavaScript `substring` counts UTF-16 units. Both are modelled as a plain prefix of a character sequence.
- Api.Store.Search: `substr($row['definition'], 0, 100)` (website/api.php:46) counts bytes of `utf8mb4` text (website/config.php:39), so it can cut a multi-byte character in two. `json_encode` then fails, returns `false`, and the reply is empty. The model always returns the list of summaries.
- Api.Store.GetFavorites: the same byte cut at website/api.php:195 can make `json_encode` fail and leave the reply empty. The model always returns the list.
- Clocks and time zones: `CURRENT_TIMESTAMP`, `CURDATE()` and `new Date()` are integer parameters. `DATE()` is whole days of seconds (`Api.DayOf`).
- `toLocaleDateString()` is a string parameter. Parsing the date string is an `Option` of milliseconds, `None` standing for an invalid date.
- Api.Store.RandomWord: `ORDER BY RAND()` is a caller-supplied pick. Only membership in the table is stated, not the distribution.
- Api.Store.RandomWords: `ORDER BY RAND()` is a rotation of the table by a caller-supplied offset. The result is stated on that rotation, not on a random permutation.
- Integer widths: `INT` ids and counts are unbounded, so overflow of the AUTO_INCREMENT counter or of `search_count` is not modelled.
- `VARCHAR` length limits, and database errors in the middle of an import (the `except Error` handler), are not modelled.
- Api.Store.GetWord: website/api.php:69-76 commits the stats upsert (autocommit, no transaction) before website/api.php:78-82 inserts the IP into `ip_address VARCHAR(45)` (website/config.php:89). `getUserIP` returns the client-controlled `Client-IP` or `X-Forwarded-For` header verbatim. A value over 45 characters makes that insert throw under MySQL's strict mode. The script then dies with no JSON reply, and `search_count` is one ahead of the word's history rows. Without strict mode the IP is silently truncated. The model returns the word, appends the full IP, and keeps the count equal to the history rows.
- Api.Store.LogSearch: for the same reason, the program does not keep "count equals history rows" (`CountsAgree` in `Api.Store.Valid`) for a client IP longer than 45 characters. The model always appends the history row.
- Request: `Api.Request` has one `wordId` and one `action` field. checkFavorite reads `$_GET['wordId']` (website/api.php:202), while addFavorite and removeFavorite read `$_POST['wordId']` (website/api.php:131, website/api.php:157). `action` is read from GET with POST as the fallback (website/api.php:7). So a request whose GET and POST values differ cannot be expressed: each field stands for the one source its action reads.
- `intval`, and PHP's loose conversion of the `wordId` parameter: request parameters are already-converted integers, and a missing parameter is 0.
- The `execute()` failure branches ("Failed to add favorite", "Failed to remove favorite") are not modelled. The connection throws on error (`ERRMODE_EXCEPTION`), so those branches cannot be reached. An uncaught exception is `Reply.Aborted`.
- CSV parsing (`csv.DictReader`) and file reading: the importer takes the parsed records, and `None` for a missing file.
- Importer.ImportRows: `CsvRow` always has both fields. A record with fewer fields than the header gets `None` for the missing field, so `.strip()` raises `AttributeError`. A file without a `word` or `definition` column raises `KeyError`. Neither is caught (import_dictionary.py:139-142 catch only `Error` and `FileNotFoundError`). The import then aborts after the batches already committed. The model cannot express either record, so its "exactly the kept rows" covers only files where every record has both fields.
- Importer.ImportCsvData: for the same reason, the model does not capture an import aborted part-way by a short record or a missing column. In that case the table holds only the batches committed before the bad record.
- Text.AsciiLower: models Python's `str.lower()` on ASCII letters only. Any non-ASCII character that lowers to "y", "e" or "s" is not covered.
- The browser plumbing is not modelled:
  - the DOM, styling and notifications;
  - `fetch` and its network failures (the `catch` branches);
  - debounce timers;
  - `localStorage` JSON parsing;
  - speech, the clipboard and `navigator.share`;
  - `escapeHtml` and `Intl.NumberFormat`.
  The favourite button calls the store's handlers directly.
- Session-id generation: the session id is an input string.
- `file()` ends lines only at "\n" (dropping a "\r" before it). Lone "\r" line ends, which the `auto_detect_line_endings` setting would split on, are not modelled: such a file is one line.
- `putenv`'s behaviour on PHP versions before 8, where an empty name does not throw, is not modelled. The model follows PHP 8: the empty name stops the load (`Env.Outcome.InvalidName`).
- `website/index.php` (HTML rendering) and `main.py` (a Flask lookup over a pandas table) are not part of this model.
