# LogAnalyzer, modelled in Dafny

`LogAnalyzer` reads a game-server log and summarises it for a report. The
summary covers:

- counters per severity;
- the most frequent normalised messages of each level, with up to five examples;
- stack traces grouped by error type;
- player logins and the addresses players logged in from;
- warnings and errors per hour;
- the lines it could not parse.

This project models that class (`LogAnalyzer.php`) and proves what its
operations promise. It is built from these modules:

- `Text`: the PHP string built-ins and PCRE character classes it relies on, namely `trim`, `empty`, `explode`/`implode`, `strtolower`/`strtoupper`, `strpos`/`stripos` and `substr`.
- `Assoc`: PHP ordered arrays, as sequences of key/value pairs in insertion order.
- `Sorting`: the stable PHP 8 `uasort`/`arsort` by a count (largest first), `ksort` in byte order, and `array_slice`.
- `Classifier`: `parseLine`, with both of its grammars, and `extractHour`.
- `Patterns`: the login pattern `(.+?) logged in` and the address pattern `(\d+\.\d+\.\d+\.\d+)`, written as leftmost-first matchers.
- `Normalizer`: `extractMessage`. Its three global replacements run as scanners that respect `\b`; the result is then cut to 200 bytes and trimmed.
- `Traces`: `extractStackTrace`, a loop over the lines; the error-type patterns; and `aggregateStackTraces`, a loop that groups traces and then sorts and cuts the groups.
- `Scan`: the single pass of `analyze`, stated as one fold per accumulator over the pieces of the log. These folds are the specification the class is proved against.
- `Analyzer`: the class `LogAnalyzer`, which has:
  - the fields of the PHP object;
  - the `analyze` loop, split into one method per block of the loop body;
  - `prepareTopMessages`;
  - the getters.

  `getIPPlayers` and `getLogins` sort their field in place, as the source does.

`Analyze` is stated against the folds. After the call:

- the counters, `unparsedLines`, `messagesExamples`, `logins`, `ipPlayers` and `errorsPerHour` are the fold of the log's pieces, starting from the value the field had before, and sorted where the source sorts it;
- `stackTraces` is built from an empty list on every call, because the raw traces are collected in a local array (`$stackTracesRaw`), then grouped, sorted and cut;
- the per-level message tallies behind `topMessages` start empty on every call too, because they are locals as well (`$messagesInfo`, `$messagesWarning`, `$messagesError`); their top lists replace the `info`, `warning` and `error` entries of `topMessages`;
- `total_lines` and the two unique counts are overwritten.

The class invariant `Valid` collects what the operations keep:

- no level outside INFO, WARNING and ERROR is counted;
- the per-player login counts add up to the login counter;
- the per-hour counts add up to the warnings plus errors;
- hour keys are "YYYY-MM-DD HH:00" labels in ascending order;
- every address has a non-empty list of distinct players;
- no address and no player is a key twice, so the unique counts are the numbers of distinct addresses and players;
- no key holds more than five examples;
- the trace groups and the top lists are cut and sorted.

Message normalisation is not idempotent: a quoted run inside a second pair of
quotes normalises to a quoted ellipsis, and normalising that again gives a bare
ellipsis (`Normalizer.NotIdempotent`).

## Model

| member | source | states |
|---|---|---|
| Text.Trim | LogAnalyzer.php:39 | `trim` never lengthens a line, and what it keeps neither starts nor ends with a trim byte |
| Text.TrimInfix | LogAnalyzer.php:39 | `trim` keeps an infix of the line and removes only trim bytes at the two ends |
| Text.TrimChars | LogAnalyzer.php:230 | a trimmed line holds no byte the line did not hold, so no line feed |
| Text.Prefix | LogAnalyzer.php:96 | `substr($line, 0, 500)` is the first 500 bytes, or the whole line when it is shorter |
| Text.Explode | LogAnalyzer.php:29 | the split yields at least one piece, and no piece holds a line feed |
| Text.ImplodeExplode | LogAnalyzer.php:29 | joining the pieces of the split with line feeds gives back the log content |
| Text.ExplodeImplode | LogAnalyzer.php:241 | splitting a join of pieces without line feeds gives the pieces back |
| Text.ExplodeCount | LogAnalyzer.php:29-30 | `total_lines` is one more than the number of line feeds in the content |
| Text.ContainsIff | LogAnalyzer.php:118 | a substring search succeeds exactly when the needle occurs at some position |
| Text.ContainsCIIff | LogAnalyzer.php:185-186 | `stripos` finds the needle exactly when `strpos` finds it after both sides are lower-cased |
| Text.UpperOfLower | LogAnalyzer.php:176 | upper-casing a level word ignores how it was cased before |
| Classifier.TimestampLength | LogAnalyzer.php:173 | the `ts` group matches exactly when the line starts with a date-time stamp, a dot and a digit; it takes the whole run of fraction digits |
| Classifier.StampLength | LogAnalyzer.php:173 | a stamp with its fraction digits, followed by text that does not start with a digit, is matched by the `ts` group exactly, no more and no less |
| Classifier.LineTail | LogAnalyzer.php:173 | `(.*)$` takes the rest of the subject when it has no line feed, or all of it but one final line feed; it never takes a line feed |
| Classifier.LevelAndMessage | LogAnalyzer.php:173 | after the bracket, the level word is info, warning or error in any case, and the message has no line feed |
| Classifier.LazyBracket | LogAnalyzer.php:173 | whatever the lazy `\[.*?` bracket text is, the level word it leads to is info, warning or error in any case, and the message has no line feed |
| Classifier.LazyScanFirst | LogAnalyzer.php:173 | a lazy `.*?` before a sub-pattern matches exactly when the sub-pattern matches at some position k with no line feed before it, and the answer is the sub-pattern's answer at the least such k |
| Classifier.LazyBracketPast | LogAnalyzer.php:173 | when the bracket text holds no `]` and no line feed, the lazy scan gives the level and message read right after it |
| Classifier.LevelAndMessageOf | LogAnalyzer.php:173 | `] ws [w] ws msg`, with blank runs, a level word in any case and a message that has no line feed and does not start blank, yields exactly w and msg |
| Classifier.ParsePrimary | LogAnalyzer.php:173-179 | a record from the primary grammar has an upper-cased INFO/WARNING/ERROR level, a stamp that starts the line, and a message without line feeds |
| Classifier.PrimaryAfterStamp | LogAnalyzer.php:173-179 | past the `ts` group, a record keeps that group as its timestamp, has an upper-cased INFO/WARNING/ERROR level and a message without line feeds |
| Classifier.ParsePrimaryOf | LogAnalyzer.php:171-179 | a line `ts ws [x] ws [w] ws msg` with a stamp, blank runs, bracket text x without `]` or line feed, a level word w in any case and a line-feed-free message that does not start blank parses to the record (ts, upper-cased w, msg) |
| Classifier.FallbackLevel | LogAnalyzer.php:184-186 | the level is ERROR exactly when `[error]` occurs in the message, ignoring case; else WARNING exactly when `[warning]` occurs; else INFO |
| Classifier.ParseFallback | LogAnalyzer.php:182-193 | a record from the fallback grammar has the same guarantees as one from the primary grammar |
| Classifier.ParseFallbackOf | LogAnalyzer.php:182-193 | a line `ts ws msg` with a stamp, a blank run and a line-feed-free message that does not start blank parses by the fallback grammar to (ts, the level found in msg, msg) |
| Classifier.ParseLine | LogAnalyzer.php:171-196 | every record has one of the three levels, a timestamp that is a stamped prefix of the line, and a single-line message |
| Classifier.ParseLineIff | LogAnalyzer.php:171-196 | a line without line feeds is parsed exactly when it starts with a `ts` stamp and then a blank; every other line is unparsed |
| Classifier.HourFrom | LogAnalyzer.php:200-201 | the first date-and-hour match at or after a position is rendered as a "YYYY-MM-DD HH:00" label |
| Classifier.ExtractHour | LogAnalyzer.php:198-204 | any hour found is a "YYYY-MM-DD HH:00" label; for a stamped timestamp it is the stamp's own date and hour |
| Patterns.LoginPlayer | LogAnalyzer.php:126-127 | a captured player is non-empty, has no line feed, and is followed by " logged in" in the message |
| Patterns.LoginPlayerIff | LogAnalyzer.php:126-127 | on a single-line message, a login matches exactly when " logged in" follows at least one byte; the player is the shortest such prefix |
| Patterns.QuadFrom | LogAnalyzer.php:137 | the search finds the leftmost start position at which a dotted quad matches, with that match's end; no earlier position matches, and it finds nothing only when no position does |
| Patterns.FirstIp | LogAnalyzer.php:137-138 | an address found is at least seven bytes long and no longer than the line |
| Patterns.FirstIpShape | LogAnalyzer.php:137-138 | an address found is four digit groups joined by three dots |
| Patterns.FirstIpOccurs | LogAnalyzer.php:137-138 | an address found is text of the line |
| Patterns.FirstIpNone | LogAnalyzer.php:137 | no address is found exactly when no dotted quad starts anywhere in the line |
| Patterns.FirstIpLeftmost | LogAnalyzer.php:137-138 | the address is the dotted quad that starts leftmost, with its groups taken whole |
| Normalizer.ExtractMessage | LogAnalyzer.php:206-223 | a key has at most 200 bytes and neither starts nor ends with a trim byte |
| Normalizer.QuotedRunCollapses | LogAnalyzer.php:211 | a non-empty quote-free run between two quotes becomes `...`, whatever its text |
| Normalizer.QuotesSplit | LogAnalyzer.php:211 | when the quote pass settles every quote inside a prefix (`QuoteClosed`: each quote there starts a match ending inside it or is doubled), the pass over prefix and rest is the pass over the prefix followed by the pass over the rest |
| Normalizer.QuoteClosedAppend | LogAnalyzer.php:211 | two texts the quote pass closes within, put together, are again closed |
| Normalizer.QuotedTextIgnored | LogAnalyzer.php:211 | two messages that differ only in the text of one quoted run get the same key, whatever quoted runs come before it, as long as the quote pass closes within the text before the run |
| Normalizer.DigitRunIgnored | LogAnalyzer.php:211-215 | swapping a digit run between two non-word bytes (or ends of the message) for another leaves the quote, decimal and integer passes with the same text |
| Normalizer.ScanToRun | LogAnalyzer.php:211-215 | a global replacement that acts alike at every position before a digit run either gives the same text for both runs or emits the same text up to the run and ends it with a non-word byte |
| Normalizer.DecimalTextIgnored | LogAnalyzer.php:211-215 | two messages that differ only in one decimal (digits, a dot, digits) get the same key whenever `\b` holds around it: the byte before it is a non-word byte or the message starts there, and the byte after it is a non-word byte or the message ends there; nothing else is asked of the rest of the message |
| Normalizer.IntegerTextIgnored | LogAnalyzer.php:211-215 | two messages that differ only in one digit run get the same key whenever `\b` holds on both sides of it (a non-word byte or an end of the message on each side), whatever quotes or numbers come before or after it |
| Normalizer.QuotedNameAndCountIgnored | LogAnalyzer.php:211-215 | two messages that differ both in one quoted run and in one digit run after it get the same key, when the quote pass closes within the text before the quoted run and `\b` holds on both sides of the digit run |
| Normalizer.PickupMessagesShareKey | LogAnalyzer.php:206-223 | "Player 'Alice' picked up 5 gold" and "Player 'Bob' picked up 12 gold" get the same key |
| Normalizer.FailedAfterShareKey | LogAnalyzer.php:215 | "Failed after 3." and "Failed after 12." get the same key |
| Normalizer.RetryingShareKey | LogAnalyzer.php:215 | "Retrying in 5..." and "Retrying in 12..." get the same key |
| Normalizer.ScoreMessagesShareKey | LogAnalyzer.php:211-215 | "Player's score 5" and "Player's score 12" get the same key, the unpaired quote before the count notwithstanding |
| Normalizer.KeyAfterQuotes | LogAnalyzer.php:213-222 | a short text without digits or blank ends, left by the quote pass, is the key itself |
| Normalizer.QuotedEllipsisKey | LogAnalyzer.php:211 | a quoted ellipsis normalises to a bare ellipsis |
| Normalizer.NotIdempotent | LogAnalyzer.php:206-223 | a run in doubled quotes normalises to a quoted ellipsis, and normalising that again gives a different key |
| Traces.TraceBlockSpec | LogAnalyzer.php:229-238 | a trace is at most 20 consecutive trimmed lines from the trigger on; none is blank, and a stamped line after the trigger can only be the last |
| Traces.TraceBlockStops | LogAnalyzer.php:229-238 | a trace stops before 20 lines and before the end only at a blank line, or just after a stamped line other than the trigger; it keeps a non-blank trigger |
| Traces.ExtractStackTrace | LogAnalyzer.php:225-242 | the loop returns the block for the trigger, joined with line feeds |
| Traces.TraceLines | LogAnalyzer.php:241 | splitting a trace on line feeds gives its lines back |
| Traces.DescriptionFirst | LogAnalyzer.php:250-251 | the type is the trimmed rest of the line after the first `Error Description:` and its blanks |
| Traces.ErrorTagSecond | LogAnalyzer.php:252-253 | without `Error Description:`, the type is the trimmed rest of the line after the first `[error]` and at least one blank |
| Traces.UnknownWithoutLabels | LogAnalyzer.php:249 | a trace with neither label is of type "Unknown Error" |
| Traces.TypeAbsent | LogAnalyzer.php:256-262 | a type that no trace has gets no group and a count of 0 |
| Traces.CountTrace | LogAnalyzer.php:256-262 | creating a group with count 0 and then incrementing it bumps a known type in place, or appends a new type with count 1 and this trace as its example |
| Traces.GroupTracesSpec | LogAnalyzer.php:247-263 | the groups have distinct types, one per type seen, in order of first appearance; each counts its traces and keeps the first; the counts add up to the number of traces |
| Traces.AggregateStackTraces | LogAnalyzer.php:244-270 | the loop's groups, stably sorted by count and cut to 20: at most 20, largest first, each one a real group |
| Sorting.Take | LogAnalyzer.php:269 | `array_slice` keeps a prefix of at most `n` entries, all of them when there are fewer |
| Sorting.SortDescSpec | LogAnalyzer.php:152-154 | `arsort`/`uasort` by count is a permutation, ordered largest first, that keeps entries with equal counts in their input order |
| Sorting.SortDescStable | LogAnalyzer.php:265-267 | for each count, the sort keeps the entries with that count in their input order |
| Sorting.TopOfSort | LogAnalyzer.php:313 | the first `n` entries of the sort are at most `n`, still ordered, and each is an input entry |
| Sorting.LexTotal | LogAnalyzer.php:168 | byte order compares any two keys |
| Sorting.LexTrans | LogAnalyzer.php:168 | byte order is transitive |
| Sorting.InsertByKeySpec | LogAnalyzer.php:168 | inserting into keys in ascending order keeps them ascending and adds exactly the new entry |
| Sorting.SortByKeySpec | LogAnalyzer.php:168 | `ksort` gives the same entries with their keys in ascending byte order |
| Assoc.Find | LogAnalyzer.php:73 | the lookup position is the first entry with the key, or the end when there is none |
| Assoc.Put | LogAnalyzer.php:74 | an assignment overwrites a present key in place or appends a new one, and changes no other entry |
| Assoc.PutDistinct | LogAnalyzer.php:141-145 | an assignment never makes two entries share a key |
| Assoc.GetPut | LogAnalyzer.php:73-76 | reading after a write gives the new value at that key and the old value at every other key |
| Assoc.GetEntry | LogAnalyzer.php:280 | in an array without repeated keys, a lookup of an entry's key returns that entry's value |
| Assoc.HasKeyIff | LogAnalyzer.php:73 | `isset` holds exactly when some entry carries the key |
| Assoc.SumPut | LogAnalyzer.php:74-76 | writing a value changes the sum by the new value minus the one it replaced |
| Assoc.SumIncrement | LogAnalyzer.php:133 | incrementing one counter adds exactly one to the total of the counters |
| Assoc.PutPut | LogAnalyzer.php:91-94 | a second write to a key leaves only the second value, in the key's place |
| Assoc.CountKeyIncrement | LogAnalyzer.php:73-76 | `isset` or set to 0, followed by `++`, is a plain increment |
| Assoc.SumAppend | LogAnalyzer.php:76 | the sum of a concatenation is the sum of the parts |
| Assoc.SumPermutation | LogAnalyzer.php:168 | reordering the entries, as a sort does, keeps the sum |
| Assoc.DistinctKeysPermutation | LogAnalyzer.php:310-317 | reordering the entries, as a sort does, keeps the keys distinct |
| Scan.ClassifyShape | LogAnalyzer.php:39-48 | a piece is skipped exactly when it trims to "" or "0"; otherwise it keeps the trimmed piece; an unparsed piece has no record, and a parsed piece has a well-formed record |
| Scan.ScanPartition | LogAnalyzer.php:39-67 | every piece that is not skipped either joins the unparsed list or raises exactly one severity counter |
| Scan.OtherStaysPut | LogAnalyzer.php:65-66 | the `other` counter never moves, since every parsed level is one of the three names |
| Scan.UnparsedExact | LogAnalyzer.php:45-47 | the unparsed list keeps its old entries in front; a string is among the new entries exactly when some piece trims to it and does not parse |
| Scan.UnparsedEntries | LogAnalyzer.php:40-46 | no new unparsed entry is "" or "0" |
| Scan.HourStepSum | LogAnalyzer.php:70-77 | one piece raises the hour counts exactly as much as it raises the warnings plus errors |
| Scan.HoursSum | LogAnalyzer.php:69-78 | every WARNING or ERROR line lands in exactly one hour bucket, and no other line does |
| Scan.HoursKeys | LogAnalyzer.php:71-76 | every key of the per-hour counts is a "YYYY-MM-DD HH:00" label |
| Scan.LevelCountsExact | LogAnalyzer.php:101-115 | each normalised message's count in a level's tally is the number of lines of that level that normalise to it |
| Scan.LevelStepSum | LogAnalyzer.php:101-115 | one piece raises a level's tally exactly as much as it raises that level's counter |
| Scan.LevelCountsSum | LogAnalyzer.php:101-115 | the counts in one level's tally add up to the number of lines with that level |
| Scan.TakeStep | LogAnalyzer.php:93-94 | appending only while fewer than five are kept gives the first five of the growing list |
| Scan.ExampleStepGet | LogAnalyzer.php:89-99 | a line adds its example under its own key while fewer than five are kept there, and touches no other key |
| Scan.ExamplesFirstFive | LogAnalyzer.php:89-99 | the examples under a key are the first five occurrences of that key, in file order, after those already kept |
| Scan.ExamplesBounded | LogAnalyzer.php:93 | no key ever holds more than five examples |
| Scan.StatsStepLogins | LogAnalyzer.php:126-128 | only a line whose message is a login moves the login counter, and only by one |
| Scan.LoginsSum | LogAnalyzer.php:125-134 | the login counter moves in step with the sum of the per-player counts |
| Scan.LoginsDistinct | LogAnalyzer.php:125-134 | after the pass no player is a key twice, so `count($this->logins)` (line 165) is the number of players |
| Scan.IpStepLists | LogAnalyzer.php:141-146 | one line keeps every address's player list non-empty and free of repeats |
| Scan.IpsLists | LogAnalyzer.php:136-148 | after the pass, every address has at least one player and no player twice |
| Scan.IpsDistinct | LogAnalyzer.php:136-148 | after the pass no address is a key twice, so `count($this->ipPlayers)` (line 164) is the number of addresses |
| Scan.IpStepNeedsBoth | LogAnalyzer.php:137-139 | a line without an address, or without a login, leaves the address map as it was |
| Scan.ImplodeNonBlank | LogAnalyzer.php:120 | a trace whose first line is not blank is itself neither "" nor "0" |
| Scan.TraceKept | LogAnalyzer.php:119-120 | the trace of a non-blank piece starts with that trimmed piece, so the `if ($trace)` test always passes |
| Scan.TracesOfKept | LogAnalyzer.php:119-121 | on every kept piece, the trace is neither "" nor "0" |
| Scan.TracesAppend | LogAnalyzer.php:121 | the traces found are appended after those already there |
| Scan.TracesExact | LogAnalyzer.php:117-123 | each trigger line adds exactly one trace, and no trace added is "" or "0" |
| Scan.KindsOfShaped | LogAnalyzer.php:38-48 | the classification of the log gives well-formed pieces, each the trimmed line at its index |
| Scan.Kinds | LogAnalyzer.php:38-48 | the classifications are those of every piece, in order |
| Scan.TraceTextsSpec | LogAnalyzer.php:119 | the trace of each piece is its block joined with line feeds |
| Analyzer.RowsSpec | LogAnalyzer.php:276-288 | one row per message, in order, with that message's count and examples |
| Analyzer.TopOfSpec | LogAnalyzer.php:151-158 | a top list has at most 30 rows, most frequent first; each row is a counted message with its count and the examples stored under its level and message |
| Analyzer.PutTopList | LogAnalyzer.php:156-158 | storing a valid top list under a level keeps every list valid |
| Analyzer.LevelCountsDistinct | LogAnalyzer.php:104-113 | a level's tally never has two entries for one message |
| Analyzer.TopCounts | LogAnalyzer.php:101-158 | every row of a level's top list counts exactly the lines of that level that normalise to its message |
| Analyzer.CountKey | LogAnalyzer.php:104-113 | the count under the key goes up by one, and so does the total |
| Analyzer.StoreExample | LogAnalyzer.php:89-99 | the example block is one step of the examples fold |
| Analyzer.TrackAddress | LogAnalyzer.php:136-148 | the address block is one step of the address fold |
| Analyzer.TrackHour | LogAnalyzer.php:69-78 | the hour block is one step of the per-hour fold |
| Analyzer.CountMessage | LogAnalyzer.php:101-115 | the level switch is one step of each level's tally |
| Analyzer.CountSeverity | LogAnalyzer.php:54-67 | the severity switch raises exactly the counter of the level |
| Analyzer.CollectTrace | LogAnalyzer.php:117-123 | the trace block is one step of the traces fold, with the trace the loop extracts |
| Analyzer.CountLogin | LogAnalyzer.php:125-134 | a login raises the login counter by one and is one step of the per-player fold; any other line changes neither |
| Analyzer.HourKeysPermutation | LogAnalyzer.php:168 | reordering keeps the hour labels |
| Analyzer.PlayerListsPermutation | LogAnalyzer.php:310-312 | reordering keeps every player list valid |
| Analyzer.PassKeepsCounters | LogAnalyzer.php:38-149 | one pass over any log keeps the counters in agreement |
| Analyzer.SortKeepsCounters | LogAnalyzer.php:168 | `ksort` on the per-hour counts keeps the counters in agreement and puts the hours in ascending order |
| Analyzer.LogAnalyzer.constructor | LogAnalyzer.php:14-26 | a new analyzer holds the content, has every counter at 0 and every array empty, and satisfies the invariant |
| Analyzer.LogAnalyzer.ScanRecord | LogAnalyzer.php:50-147 | the loop body for a parsed line updates each accumulator by its fold step |
| Analyzer.LogAnalyzer.ScanPiece | LogAnalyzer.php:39-148 | the loop body for any piece updates each accumulator by its fold step |
| Analyzer.LogAnalyzer.ScanLog | LogAnalyzer.php:38-149 | after the loop, every accumulator is its fold over all the pieces, and the counters still agree |
| Analyzer.LogAnalyzer.StoreTopMessages | LogAnalyzer.php:151-158 | each level's tally is sorted by count and cut into its top list, stored under the lower-case level name |
| Analyzer.LogAnalyzer.Finish | LogAnalyzer.php:151-168 | top lists, trace groups (at most 20, largest first), unique counts and hour-sorted counts are set, and the invariant holds again |
| Analyzer.LogAnalyzer.Analyze | LogAnalyzer.php:28-169 | each field is the fold of the log's pieces from its old value, sorted and cut as the source does; `total_lines` is the number of pieces; the invariant is kept |
| Analyzer.LogAnalyzer.PrepareTopMessages | LogAnalyzer.php:272-291 | a row for each of the first `limit` messages, in their order, with its count and the examples under the level and the message (none when missing) |
| Analyzer.LogAnalyzer.GetStats | LogAnalyzer.php:293-295 | `other` is 0; `logins` is the sum of the per-player counts; warnings plus errors is the sum of the per-hour counts; the unique counts are the sizes of their arrays, whose keys are distinct, so they count distinct addresses and players |
| Analyzer.LogAnalyzer.GetTopMessages | LogAnalyzer.php:297-302 | with no level, or "" or "0", all lists; otherwise the list under the lower-cased name, or no rows; any list returned has at most 30 rows, sorted by count |
| Analyzer.LogAnalyzer.GetStackTraces | LogAnalyzer.php:304-306 | at most 20 groups, largest first |
| Analyzer.LogAnalyzer.GetErrorsPerHour | LogAnalyzer.php:321-323 | hour labels in ascending order, whose counts add up to the warnings plus errors |
| Analyzer.LogAnalyzer.GetUnparsedLines | LogAnalyzer.php:325-327 | the first 100 unparsed lines, in file order |
| Analyzer.LogAnalyzer.GetIPPlayers | LogAnalyzer.php:308-314 | the field becomes its stable sort by number of players; the first 50 are returned, sorted, each one an input entry; the invariant is kept |
| Analyzer.LogAnalyzer.GetLogins | LogAnalyzer.php:316-319 | the field becomes its stable sort by login count; the first 50 are returned, sorted, each one an input entry; the invariant is kept |

## Left out

- Reading the file (`file_get_contents`, LogAnalyzer.php:15): the constructor takes the content as a parameter. A file that cannot be read is not modelled.
- The counter `$messages` (LogAnalyzer.php:84-87): it is never read, so it has no effect on any field.
- PHP's loose comparisons: `in_array` (LogAnalyzer.php:144) is modelled as strict equality. PHP 8 compares two numeric strings as numbers there, so player names such as "5.0", "5e0" and " 5" would count as the same player as "5"; the model keeps them apart. Array keys that are canonical decimal integers (such as "5", not "05" or "5.0"), which PHP turns into integers, are modelled as strings; every `array_slice` here keeps its keys and the only `ksort` is over hour labels, which are never integers, so this changes only the PHP type in which such a key is read back (for example the `message` of a top-message row), not its text or position.
- Encodings: strings are byte strings, one `char` per byte, and case mapping is ASCII only, as in PHP 8 without the `u` flag.
- Regular expressions: there is no general engine. Each fixed pattern of the source is written as its own matcher with PCRE's leftmost-first semantics.
- `if ($trace)` (LogAnalyzer.php:120): the test is kept, but it always passes (`Scan.TraceKept`).
- `getTopMessages($level)`: the optional argument is `Option<string>`. A non-string argument is not modelled.
- `Analyzer.LogAnalyzer.Finish` stores the top lists after the trace groups, the unique counts and the `ksort`. No step reads a field that another one writes, so the resulting state is the same.
- `Analyzer.LogAnalyzer.Analyze` states the result as folds over the pieces. The stable sorts and the fold lemmas in `Scan` give their properties; `Analyze` does not restate each property itself.
- ReportGenerator.php, index.php, analyze.php and test.php are not part of this model.
