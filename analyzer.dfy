/**
 * The `LogAnalyzer` object: its fields, the single pass `analyze` makes over
 * the log (LogAnalyzer.php:28-169), the top-message lists it prepares and
 * the getters that sort and cut its fields for the report.
 *
 * `Analyze` is proved against the folds of module Scan: after the call every
 * field is the fold of the log's pieces started from the value the field had
 * before, then sorted where the source sorts it. The class invariant `Valid`
 * collects the facts that tie the fields together and that every operation
 * keeps.
 */
module Analyzer {
  import opened Wrappers
  import opened Text
  import opened Assoc
  import opened Sorting
  import opened Classifier
  import opened Patterns
  import opened Normalizer
  import opened Scan
  import Traces

  /** One row of a top-message list: the normalised message, its count and its examples. */
  datatype TopMessage = TopMessage(message: string, count: nat, examples: seq<Example>)

  /** What `getTopMessages` returns: every list by level name, or the list of one level. */
  datatype TopMessages = All(lists: seq<(string, seq<TopMessage>)>) | One(list: seq<TopMessage>)

  const TopLimit: nat := 30
  const ShownAddresses: nat := 50
  const ShownPlayers: nat := 50
  const ShownUnparsed: nat := 100

  function CountOf(e: (string, nat)): nat { e.1 }

  function PlayerCount(e: (string, seq<string>)): nat { |e.1| }

  // ---------------------------------------------------------------------
  // Top messages (LogAnalyzer.php:272-291)

  /** The row for one counted message, with the examples kept under its key (none when the key is missing). */
  function Row(m: (string, nat), level: string, examples: seq<(string, seq<Example>)>): TopMessage {
    TopMessage(m.0, m.1, Get(examples, level + "|" + m.0, []))
  }

  /** One row per counted message, in order. */
  function Rows(messages: seq<(string, nat)>, level: string, examples: seq<(string, seq<Example>)>): seq<TopMessage> {
    if |messages| == 0 then []
    else Rows(messages[..|messages| - 1], level, examples) + [Row(messages[|messages| - 1], level, examples)]
  }

  lemma {:induction false} RowsSpec(messages: seq<(string, nat)>, level: string, examples: seq<(string, seq<Example>)>)
    ensures |Rows(messages, level, examples)| == |messages|
    ensures forall j :: 0 <= j < |messages| ==> Rows(messages, level, examples)[j] == Row(messages[j], level, examples)
  {
    if |messages| > 0 {
      RowsSpec(messages[..|messages| - 1], level, examples);
    }
  }

  /** The rows of the `arsort`ed counts, cut to the first 30. */
  function TopOf(counts: seq<(string, nat)>, level: string, examples: seq<(string, seq<Example>)>): seq<TopMessage> {
    Rows(Take(SortDesc(counts, CountOf), TopLimit), level, examples)
  }

  /** Rows by count, largest first. */
  ghost predicate SortedRows(rows: seq<TopMessage>) {
    forall i, j :: 0 <= i < j < |rows| ==> rows[i].count >= rows[j].count
  }

  /**
   * A top list has at most 30 rows, most frequent first; every row is a
   * counted message with its count, and carries the examples stored under
   * the level and that message.
   */
  lemma TopOfSpec(counts: seq<(string, nat)>, level: string, examples: seq<(string, seq<Example>)>)
    ensures |TopOf(counts, level, examples)| <= TopLimit
    ensures SortedRows(TopOf(counts, level, examples))
    ensures forall j :: 0 <= j < |TopOf(counts, level, examples)| ==>
      var row := TopOf(counts, level, examples)[j];
      (row.message, row.count) in counts && row.examples == Get(examples, level + "|" + row.message, [])
  {
    var top := Take(SortDesc(counts, CountOf), TopLimit);
    TopOfSort(counts, CountOf, TopLimit);
    RowsSpec(top, level, examples);
    var rows := TopOf(counts, level, examples);
    forall i, j | 0 <= i < j < |rows| ensures rows[i].count >= rows[j].count {
      assert rows[i].count == CountOf(top[i]) && rows[j].count == CountOf(top[j]);
    }
    forall j | 0 <= j < |rows|
      ensures (rows[j].message, rows[j].count) in counts
    {
      assert (rows[j].message, rows[j].count) == top[j];
    }
  }

  /** Every list in `topMessages` is a valid top list. */
  ghost predicate TopLists(lists: seq<(string, seq<TopMessage>)>) {
    forall i :: 0 <= i < |lists| ==> |lists[i].1| <= TopLimit && SortedRows(lists[i].1)
  }

  lemma PutTopList(lists: seq<(string, seq<TopMessage>)>, level: string, rows: seq<TopMessage>)
    requires TopLists(lists) && |rows| <= TopLimit && SortedRows(rows)
    ensures TopLists(Put(lists, level, rows))
  {
    var r := Put(lists, level, rows);
    forall i | 0 <= i < |r| ensures |r[i].1| <= TopLimit && SortedRows(r[i].1) {
      if i != Find(lists, level) {
        assert r[i] == lists[i];
      }
    }
  }

  /** Messages counted for one level have distinct keys. */
  lemma {:induction false} LevelCountsDistinct(ks: seq<Kind>, n: nat, level: string)
    requires n <= |ks|
    ensures DistinctKeys(LevelCounts(ks, n, level, []))
  {
    if n > 0 {
      LevelCountsDistinct(ks, n - 1, level);
      var c := LevelCounts(ks, n - 1, level, []);
      match ks[n - 1]
      case Parsed(_, r, short, _, _) =>
        if r.level == level {
          PutDistinct(c, short, Get(c, short, 0) + 1);
        }
      case _ =>
    }
  }

  /**
   * Every row of a level's top list counts exactly the lines of that level
   * whose normalised message is the row's message.
   */
  lemma TopCounts(ks: seq<Kind>, n: nat, level: string, examples: seq<(string, seq<Example>)>)
    requires n <= |ks|
    ensures forall row :: row in TopOf(LevelCounts(ks, n, level, []), level, examples) ==>
      row.count == KeyCount(ks, n, level, row.message)
  {
    var counts := LevelCounts(ks, n, level, []);
    var rows := TopOf(counts, level, examples);
    TopOfSpec(counts, level, examples);
    LevelCountsDistinct(ks, n, level);
    forall row | row in rows ensures row.count == KeyCount(ks, n, level, row.message) {
      var j :| 0 <= j < |rows| && rows[j] == row;
      assert (row.message, row.count) in counts;
      var p :| 0 <= p < |counts| && counts[p] == (row.message, row.count);
      assert Find(counts, row.message) == p;
      LevelCountsExact(ks, n, level, row.message);
    }
  }

  // ---------------------------------------------------------------------
  // Value helpers for the loop body

  /** `isset($m[$k]) || $m[$k] = 0; $m[$k]++;` */
  method CountKey(m: seq<(string, nat)>, k: string) returns (r: seq<(string, nat)>)
    ensures r == Increment(m, k)
    ensures Get(r, k, 0) == Get(m, k, 0) + 1 && SumValues(r) == SumValues(m) + 1
  {
    r := m;
    if !HasKey(r, k) {
      r := Put(r, k, 0);
    }
    r := Put(r, k, Get(r, k, 0) + 1);
    CountKeyIncrement(m, k);
    GetPut(m, k, Get(m, k, 0) + 1, k, 0);
    SumIncrement(m, k);
  }

  /** The example block (LogAnalyzer.php:90-99) for the parsed line `line`. */
  method StoreExample(ex: seq<(string, seq<Example>)>, key: string, line: string, rec: Record) returns (r: seq<(string, seq<Example>)>)
    requires key == MessageKey(rec.level, ExtractMessage(rec.message))
    ensures r == ExampleStep(ex, Entry(line, rec))
  {
    r := ex;
    if !HasKey(r, key) {
      r := Put(r, key, []);
      GetPut(ex, key, [], key, []);
    }
    if |Get(r, key, [])| < MaxExamples {
      var e := Example(rec.timestamp, Prefix(line, MaxExampleText), rec.level);
      if !HasKey(ex, key) {
        PutPut(ex, key, [], [e]);
        assert [] + [e] == [e];
      }
      r := Put(r, key, Get(r, key, []) + [e]);
    }
  }

  /** The address block (LogAnalyzer.php:137-148) for the parsed line `line`. */
  method TrackAddress(ips: seq<(string, seq<string>)>, line: string, rec: Record) returns (r: seq<(string, seq<string>)>)
    ensures r == IpStep(ips, Entry(line, rec))
  {
    r := ips;
    var ip := FirstIp(line);
    if ip.Some? {
      var player := LoginPlayer(rec.message);
      if player.Some? {
        if !HasKey(r, ip.value) {
          r := Put(r, ip.value, []);
        }
        if player.value !in Get(r, ip.value, []) {
          r := Put(r, ip.value, Get(r, ip.value, []) + [player.value]);
        }
      }
    }
  }

  /** The hour block (LogAnalyzer.php:70-78). */
  method TrackHour(h: seq<(string, nat)>, line: string, rec: Record) returns (r: seq<(string, nat)>)
    ensures r == HourStep(h, Entry(line, rec))
  {
    r := h;
    if rec.level == "WARNING" || rec.level == "ERROR" {
      var hour := ExtractHour(rec.timestamp);
      if hour.Some? && !IsEmptyPhp(hour.value) {
        r := CountKey(r, hour.value);
      }
    }
  }

  /** The level switch (LogAnalyzer.php:102-115). */
  method CountMessage(
    info: seq<(string, nat)>, warning: seq<(string, nat)>, error: seq<(string, nat)>, shortMsg: string, line: string, rec: Record)
    returns (info': seq<(string, nat)>, warning': seq<(string, nat)>, error': seq<(string, nat)>)
    requires shortMsg == ExtractMessage(rec.message)
    ensures info' == LevelStep(info, "INFO", Entry(line, rec))
    ensures warning' == LevelStep(warning, "WARNING", Entry(line, rec))
    ensures error' == LevelStep(error, "ERROR", Entry(line, rec))
  {
    info', warning', error' := info, warning, error;
    if rec.level == "INFO" {
      info' := CountKey(info', shortMsg);
    } else if rec.level == "WARNING" {
      warning' := CountKey(warning', shortMsg);
    } else if rec.level == "ERROR" {
      error' := CountKey(error', shortMsg);
    }
  }

  /** The severity switch (LogAnalyzer.php:55-67). */
  method CountSeverity(s: Stats, level: string) returns (s': Stats)
    ensures s' == CountLevel(s, level)
  {
    if level == "INFO" {
      s' := s.(info := s.info + 1);
    } else if level == "WARNING" {
      s' := s.(warning := s.warning + 1);
    } else if level == "ERROR" {
      s' := s.(error := s.error + 1);
    } else {
      s' := s.(other := s.other + 1);
    }
  }

  /** The trace block (LogAnalyzer.php:118-123) for the parsed piece `i`. */
  method CollectTrace(raw: seq<string>, lines: seq<string>, i: nat, line: string, rec: Record) returns (raw': seq<string>)
    ensures raw' == TraceStep(raw, Entry(line, rec), Implode(Traces.TraceBlock(lines, i)))
  {
    raw' := raw;
    if TraceTrigger(rec.message) {
      var trace := Traces.ExtractStackTrace(lines, i);
      if !IsEmptyPhp(trace) {
        raw' := raw' + [trace];
      }
    }
  }

  /** The login block (LogAnalyzer.php:126-134): the counter and the player's count both go up. */
  method CountLogin(s: Stats, logins: seq<(string, nat)>, line: string, rec: Record)
    returns (s': Stats, logins': seq<(string, nat)>)
    ensures s' == if LoginPlayer(rec.message).Some? then s.(logins := s.logins + 1) else s
    ensures logins' == LoginStep(logins, Entry(line, rec))
  {
    s', logins' := s, logins;
    var player := LoginPlayer(rec.message);
    if player.Some? {
      s' := s'.(logins := s'.logins + 1);
      logins' := CountKey(logins', player.value);
    }
  }

  /** Hour labels survive any reordering of the entries. */
  lemma HourKeysPermutation(a: seq<(string, nat)>, b: seq<(string, nat)>)
    requires HourKeys(a) && multiset(a) == multiset(b)
    ensures HourKeys(b)
  {
    forall i | 0 <= i < |b| ensures IsHourLabel(b[i].0) {
      assert b[i] in multiset(a);
      var j :| 0 <= j < |a| && a[j] == b[i];
    }
  }

  /** Player lists survive any reordering of the entries. */
  lemma PlayerListsPermutation(a: seq<(string, seq<string>)>, b: seq<(string, seq<string>)>)
    requires PlayerLists(a) && multiset(a) == multiset(b)
    ensures PlayerLists(b)
  {
    forall i | 0 <= i < |b| ensures |b[i].1| > 0 && NoDuplicates(b[i].1) {
      assert b[i] in multiset(a);
      var j :| 0 <= j < |a| && a[j] == b[i];
    }
  }

  /**
   * The counters agree: no level outside the three names is counted, the
   * per-player login counts add up to the login counter and the per-hour
   * counts to the warnings and errors; hour keys are hour labels, every
   * address has a non-empty list of distinct players and every key at most
   * five examples; no player and no address is a key twice, so `count` of
   * the login and address arrays is the number of players and addresses.
   */
  ghost predicate Counters(
    s: Stats, l: seq<(string, nat)>, h: seq<(string, nat)>, i: seq<(string, seq<string>)>, e: seq<(string, seq<Example>)>)
  {
    && s.other == 0
    && SumValues(l) == s.logins
    && SumValues(h) == s.warning + s.error && HourKeys(h)
    && PlayerLists(i)
    && AtMostFive(e)
    && DistinctKeys(l) && DistinctKeys(i)
  }

  /** One pass over a log keeps the counters in agreement. */
  lemma PassKeepsCounters(
    lines: seq<string>, s0: Stats, l0: seq<(string, nat)>, h0: seq<(string, nat)>,
    i0: seq<(string, seq<string>)>, e0: seq<(string, seq<Example>)>)
    requires Counters(s0, l0, h0, i0, e0)
    ensures var ks, n := Kinds(lines), |lines|;
      Counters(StatsAfter(ks, n, s0), LoginsAfter(ks, n, l0), HoursAfter(ks, n, h0), IpsAfter(ks, n, i0), ExamplesAfter(ks, n, e0))
  {
    var ks, n := Kinds(lines), |lines|;
    KindsOfShaped(lines, ks);
    OtherStaysPut(ks, n, s0);
    LoginsSum(ks, n, l0, s0);
    HoursSum(ks, n, h0, s0);
    HoursKeys(ks, n, h0);
    IpsLists(ks, n, i0);
    ExamplesBounded(ks, n, e0);
    LoginsDistinct(ks, n, l0);
    IpsDistinct(ks, n, i0);
  }

  /** `ksort` on the per-hour counts keeps the counters in agreement and puts the hours in order. */
  lemma SortKeepsCounters(
    s: Stats, l: seq<(string, nat)>, h: seq<(string, nat)>, i: seq<(string, seq<string>)>, e: seq<(string, seq<Example>)>)
    requires Counters(s, l, h, i, e)
    ensures Counters(s, l, SortByKey(h), i, e) && KeysAscending(SortByKey(h))
  {
    SortByKeySpec(h);
    SumPermutation(h, SortByKey(h), NatValue);
    HourKeysPermutation(h, SortByKey(h));
  }

  // ---------------------------------------------------------------------
  // The analyzer object

  class LogAnalyzer {
    const logContent: string
    var stats: Stats
    var topMessages: seq<(string, seq<TopMessage>)>
    var stackTraces: seq<(string, Traces.TraceGroup)>
    var ipPlayers: seq<(string, seq<string>)>
    var logins: seq<(string, nat)>
    var errorsPerHour: seq<(string, nat)>
    var unparsedLines: seq<string>
    var messagesExamples: seq<(string, seq<Example>)>

    /**
     * What holds between the fields from construction on: no record has a
     * level outside the three names; the login counter and the per-hour
     * counters add up to the matching statistics; the per-hour keys are hour
     * labels in ascending order; every address has distinct players; no
     * address and no player is a key twice; at most five examples per key;
     * the unique counts are the sizes of their arrays, and so the numbers of
     * distinct addresses and players; the trace groups and the top lists are
     * cut and sorted.
     */
    ghost predicate Valid()
      reads this
    {
      && Counters(stats, logins, errorsPerHour, ipPlayers, messagesExamples)
      && KeysAscending(errorsPerHour)
      && stats.uniqueIps == |ipPlayers| && stats.uniquePlayers == |logins|
      && |stackTraces| <= Traces.MaxTraceGroups && SortedDesc(stackTraces, Traces.GroupCount)
      && TopLists(topMessages)
    }

    /** `new LogAnalyzer($path)`, with the file's content given as `content`. */
    constructor(content: string)
      ensures logContent == content
      ensures stats == Stats(0, 0, 0, 0, 0, 0, 0, 0)
      ensures topMessages == [] && stackTraces == [] && ipPlayers == [] && logins == []
      ensures errorsPerHour == [] && unparsedLines == [] && messagesExamples == []
      ensures Valid()
    {
      logContent := content;
      stats := Stats(0, 0, 0, 0, 0, 0, 0, 0);
      topMessages := [];
      stackTraces := [];
      ipPlayers := [];
      logins := [];
      errorsPerHour := [];
      unparsedLines := [];
      messagesExamples := [];
    }

    /**
     * The loop body of `analyze` for a piece that trimmed and parsed to `rec`
     * (LogAnalyzer.php:50-147), in the source's order.
     */
    method ScanRecord(
      lines: seq<string>, i: nat, line: string, rec: Record,
      info: seq<(string, nat)>, warning: seq<(string, nat)>, error: seq<(string, nat)>, raw: seq<string>)
      returns (info': seq<(string, nat)>, warning': seq<(string, nat)>, error': seq<(string, nat)>, raw': seq<string>)
      modifies this`stats, this`errorsPerHour, this`messagesExamples, this`logins, this`ipPlayers
      ensures var k := Entry(line, rec);
        && stats == StatsStep(old(stats), k)
        && errorsPerHour == HourStep(old(errorsPerHour), k)
        && messagesExamples == ExampleStep(old(messagesExamples), k)
        && info' == LevelStep(info, "INFO", k)
        && warning' == LevelStep(warning, "WARNING", k)
        && error' == LevelStep(error, "ERROR", k)
        && raw' == TraceStep(raw, k, Implode(Traces.TraceBlock(lines, i)))
        && logins == LoginStep(old(logins), k)
        && ipPlayers == IpStep(old(ipPlayers), k)
    {
      stats := CountSeverity(stats, rec.level);
      errorsPerHour := TrackHour(errorsPerHour, line, rec);
      var shortMsg := ExtractMessage(rec.message);
      var key := MessageKey(rec.level, shortMsg);
      messagesExamples := StoreExample(messagesExamples, key, line, rec);
      info', warning', error' := CountMessage(info, warning, error, shortMsg, line, rec);
      raw' := CollectTrace(raw, lines, i, line, rec);
      stats, logins := CountLogin(stats, logins, line, rec);
      ipPlayers := TrackAddress(ipPlayers, line, rec);
    }

    /** The loop body of `analyze` for piece `i` (LogAnalyzer.php:39-148). */
    method ScanPiece(
      lines: seq<string>, i: nat,
      info: seq<(string, nat)>, warning: seq<(string, nat)>, error: seq<(string, nat)>, raw: seq<string>)
      returns (info': seq<(string, nat)>, warning': seq<(string, nat)>, error': seq<(string, nat)>, raw': seq<string>)
      requires i < |lines|
      modifies this`stats, this`unparsedLines, this`errorsPerHour, this`messagesExamples, this`logins, this`ipPlayers
      ensures var k := Classify(lines[i]);
        && stats == StatsStep(old(stats), k)
        && unparsedLines == UnparsedStep(old(unparsedLines), k)
        && errorsPerHour == HourStep(old(errorsPerHour), k)
        && messagesExamples == ExampleStep(old(messagesExamples), k)
        && info' == LevelStep(info, "INFO", k)
        && warning' == LevelStep(warning, "WARNING", k)
        && error' == LevelStep(error, "ERROR", k)
        && raw' == TraceStep(raw, k, Implode(Traces.TraceBlock(lines, i)))
        && logins == LoginStep(old(logins), k)
        && ipPlayers == IpStep(old(ipPlayers), k)
    {
      info', warning', error', raw' := info, warning, error, raw;
      var line := Trim(lines[i]);
      if IsEmptyPhp(line) {
        return;
      }
      var parsed := ParseLine(line);
      if parsed.None? {
        unparsedLines := unparsedLines + [line];
        return;
      }
      info', warning', error', raw' := ScanRecord(lines, i, line, parsed.value, info, warning, error, raw);
    }

    /** The loop of `analyze` (LogAnalyzer.php:32-149): every accumulator is the fold over all the pieces. */
    method ScanLog(lines: seq<string>)
      returns (info: seq<(string, nat)>, warning: seq<(string, nat)>, error: seq<(string, nat)>, raw: seq<string>)
      requires Counters(stats, logins, errorsPerHour, ipPlayers, messagesExamples)
      modifies this`stats, this`unparsedLines, this`errorsPerHour, this`messagesExamples, this`logins, this`ipPlayers
      ensures Counters(stats, logins, errorsPerHour, ipPlayers, messagesExamples)
      ensures var ks, n := Kinds(lines), |lines|;
        && stats == StatsAfter(ks, n, old(stats))
        && unparsedLines == UnparsedAfter(ks, n, old(unparsedLines))
        && errorsPerHour == HoursAfter(ks, n, old(errorsPerHour))
        && messagesExamples == ExamplesAfter(ks, n, old(messagesExamples))
        && info == LevelCounts(ks, n, "INFO", [])
        && warning == LevelCounts(ks, n, "WARNING", [])
        && error == LevelCounts(ks, n, "ERROR", [])
        && raw == TracesAfter(ks, TraceTexts(lines, n), n, [])
        && logins == LoginsAfter(ks, n, old(logins))
        && ipPlayers == IpsAfter(ks, n, old(ipPlayers))
    {
      info, warning, error, raw := [], [], [], [];
      ghost var ks := Kinds(lines);
      ghost var ts := TraceTexts(lines, |lines|);
      TraceTextsSpec(lines, |lines|);
      for i := 0 to |lines|
        invariant stats == StatsAfter(ks, i, old(stats))
        invariant unparsedLines == UnparsedAfter(ks, i, old(unparsedLines))
        invariant errorsPerHour == HoursAfter(ks, i, old(errorsPerHour))
        invariant messagesExamples == ExamplesAfter(ks, i, old(messagesExamples))
        invariant info == LevelCounts(ks, i, "INFO", [])
        invariant warning == LevelCounts(ks, i, "WARNING", [])
        invariant error == LevelCounts(ks, i, "ERROR", [])
        invariant raw == TracesAfter(ks, ts, i, [])
        invariant logins == LoginsAfter(ks, i, old(logins))
        invariant ipPlayers == IpsAfter(ks, i, old(ipPlayers))
      {
        info, warning, error, raw := ScanPiece(lines, i, info, warning, error, raw);
      }
      PassKeepsCounters(lines, old(stats), old(logins), old(errorsPerHour), old(ipPlayers), old(messagesExamples));
    }

    /** The end of `analyze` (LogAnalyzer.php:151-158): each level's counts `arsort`ed and cut into its top list. */
    method StoreTopMessages(info: seq<(string, nat)>, warning: seq<(string, nat)>, error: seq<(string, nat)>)
      requires TopLists(topMessages)
      modifies this`topMessages
      ensures topMessages == Put(Put(Put(old(topMessages),
        "info", TopOf(info, "INFO", messagesExamples)),
        "warning", TopOf(warning, "WARNING", messagesExamples)),
        "error", TopOf(error, "ERROR", messagesExamples))
      ensures TopLists(topMessages)
    {
      var sortedInfo := SortDesc(info, CountOf);
      var sortedWarning := SortDesc(warning, CountOf);
      var sortedError := SortDesc(error, CountOf);
      var top := PrepareTopMessages(sortedInfo, "INFO", TopLimit);
      TopOfSpec(info, "INFO", messagesExamples);
      PutTopList(topMessages, "info", top);
      topMessages := Put(topMessages, "info", top);
      top := PrepareTopMessages(sortedWarning, "WARNING", TopLimit);
      TopOfSpec(warning, "WARNING", messagesExamples);
      PutTopList(topMessages, "warning", top);
      topMessages := Put(topMessages, "warning", top);
      top := PrepareTopMessages(sortedError, "ERROR", TopLimit);
      TopOfSpec(error, "ERROR", messagesExamples);
      PutTopList(topMessages, "error", top);
      topMessages := Put(topMessages, "error", top);
    }

    /**
     * The end of `analyze` (LogAnalyzer.php:151-168): the top lists, the
     * trace groups, the unique counts and the per-hour counts sorted by hour.
     * Each step writes its own field and reads none written by another, so
     * storing the top lists last gives the same state as the source's order.
     */
    method Finish(info: seq<(string, nat)>, warning: seq<(string, nat)>, error: seq<(string, nat)>, raw: seq<string>)
      requires Counters(stats, logins, errorsPerHour, ipPlayers, messagesExamples) && TopLists(topMessages)
      modifies this`topMessages, this`stackTraces, this`stats, this`errorsPerHour
      ensures Valid()
      ensures topMessages == Put(Put(Put(old(topMessages),
        "info", TopOf(info, "INFO", messagesExamples)),
        "warning", TopOf(warning, "WARNING", messagesExamples)),
        "error", TopOf(error, "ERROR", messagesExamples))
      ensures TopLists(topMessages)
      ensures stackTraces == Take(SortDesc(Traces.GroupTraces(raw, Traces.ErrorType), Traces.GroupCount), Traces.MaxTraceGroups)
      ensures |stackTraces| <= Traces.MaxTraceGroups && SortedDesc(stackTraces, Traces.GroupCount)
      ensures stats == old(stats).(uniqueIps := |ipPlayers|, uniquePlayers := |logins|)
      ensures errorsPerHour == SortByKey(old(errorsPerHour))
    {
      stackTraces := Traces.AggregateStackTraces(raw);
      stats := stats.(uniqueIps := |ipPlayers|);
      stats := stats.(uniquePlayers := |logins|);
      SortKeepsCounters(stats, logins, errorsPerHour, ipPlayers, messagesExamples);
      errorsPerHour := SortByKey(errorsPerHour);
      StoreTopMessages(info, warning, error);
    }

    /**
     * `analyze`: one pass over the pieces of the log, then the sorts and the
     * derived fields. Every accumulator starts from the value it had before
     * the call; `total_lines` and the unique counts are overwritten.
     */
    method Analyze()
      requires Valid()
      modifies this
      ensures Valid()
      ensures var lines := Explode(logContent); var ks := Kinds(lines); var n := |lines|;
        && stats == StatsAfter(ks, n, old(stats).(totalLines := n)).(uniqueIps := |ipPlayers|, uniquePlayers := |logins|)
        && unparsedLines == UnparsedAfter(ks, n, old(unparsedLines))
        && messagesExamples == ExamplesAfter(ks, n, old(messagesExamples))
        && logins == LoginsAfter(ks, n, old(logins))
        && ipPlayers == IpsAfter(ks, n, old(ipPlayers))
        && errorsPerHour == SortByKey(HoursAfter(ks, n, old(errorsPerHour)))
        && stackTraces == Take(SortDesc(Traces.GroupTraces(TracesAfter(ks, TraceTexts(lines, n), n, []), Traces.ErrorType), Traces.GroupCount), Traces.MaxTraceGroups)
        && topMessages == Put(Put(Put(old(topMessages),
             "info", TopOf(LevelCounts(ks, n, "INFO", []), "INFO", messagesExamples)),
             "warning", TopOf(LevelCounts(ks, n, "WARNING", []), "WARNING", messagesExamples)),
             "error", TopOf(LevelCounts(ks, n, "ERROR", []), "ERROR", messagesExamples))
    {
      var lines := Explode(logContent);
      stats := stats.(totalLines := |lines|);
      ghost var ks := Kinds(lines);
      var info, warning, error, raw := ScanLog(lines);
      ghost var s1, t1 := stats, topMessages;
      assert t1 == old(topMessages);
      assert s1 == StatsAfter(ks, |lines|, old(stats).(totalLines := |lines|));
      Finish(info, warning, error, raw);
      assert stats == s1.(uniqueIps := |ipPlayers|, uniquePlayers := |logins|);
      assert topMessages == Put(Put(Put(t1,
        "info", TopOf(info, "INFO", messagesExamples)),
        "warning", TopOf(warning, "WARNING", messagesExamples)),
        "error", TopOf(error, "ERROR", messagesExamples));
    }

    /**
     * `prepareTopMessages`: a row for each of the first `limit` messages in
     * their current order, with the examples stored under the level and the
     * message.
     */
    method PrepareTopMessages(messages: seq<(string, nat)>, level: string, limit: nat) returns (result: seq<TopMessage>)
      ensures result == Rows(Take(messages, limit), level, messagesExamples)
      ensures |result| == |Take(messages, limit)|
      ensures forall j :: 0 <= j < |result| ==>
        result[j] == TopMessage(messages[j].0, messages[j].1, Get(messagesExamples, level + "|" + messages[j].0, []))
    {
      result := [];
      var count := 0;
      var idx := 0;
      while idx < |messages|
        invariant idx <= |messages| && count == idx && count <= limit
        invariant result == Rows(messages[..idx], level, messagesExamples)
      {
        if count >= limit {
          break;
        }
        var msg, cnt := messages[idx].0, messages[idx].1;
        var key := level + "|" + msg;
        var examples := if HasKey(messagesExamples, key) then Get(messagesExamples, key, []) else [];
        result := result + [TopMessage(msg, cnt, examples)];
        assert messages[..idx + 1][..idx] == messages[..idx];
        count := count + 1;
        idx := idx + 1;
      }
      assert messages[..idx] == Take(messages, limit);
      RowsSpec(Take(messages, limit), level, messagesExamples);
    }

    // -------------------------------------------------------------------
    // Getters (LogAnalyzer.php:293-327)

    /** `getStats`: the counters, which agree with the arrays they summarise. */
    function GetStats(): (r: Stats)
      requires Valid()
      reads this
      ensures r.other == 0
      ensures r.logins == SumValues(logins) && r.warning + r.error == SumValues(errorsPerHour)
      ensures r.uniqueIps == |ipPlayers| && r.uniquePlayers == |logins|
      ensures DistinctKeys(ipPlayers) && DistinctKeys(logins)
    {
      stats
    }

    /**
     * `getTopMessages($level)`: all lists when `level` is null, "" or "0";
     * otherwise the list stored under the lower-cased name, or no rows.
     */
    function GetTopMessages(level: Option<string>): (r: TopMessages)
      requires Valid()
      reads this
      ensures r.One? <==> level.Some? && !IsEmptyPhp(level.value)
      ensures r.All? ==> r.lists == topMessages && TopLists(r.lists)
      ensures r.One? ==> r.list == Get(topMessages, ToLower(level.value), [])
      ensures r.One? ==> |r.list| <= TopLimit && SortedRows(r.list)
    {
      if level.Some? && !IsEmptyPhp(level.value) then
        var name := ToLower(level.value);
        if HasKey(topMessages, name) then One(topMessages[Find(topMessages, name)].1) else One([])
      else All(topMessages)
    }

    /** `getStackTraces`: at most 20 groups, largest first. */
    function GetStackTraces(): (r: seq<(string, Traces.TraceGroup)>)
      requires Valid()
      reads this
      ensures r == stackTraces
      ensures |r| <= Traces.MaxTraceGroups && SortedDesc(r, Traces.GroupCount)
    {
      stackTraces
    }

    /** `getErrorsPerHour`: hour labels in ascending order, counts adding up to the warnings and errors. */
    function GetErrorsPerHour(): (r: seq<(string, nat)>)
      requires Valid()
      reads this
      ensures r == errorsPerHour
      ensures KeysAscending(r) && HourKeys(r) && SumValues(r) == stats.warning + stats.error
    {
      errorsPerHour
    }

    /** `getUnparsedLines`: the first 100 unparsed lines, in file order. */
    function GetUnparsedLines(): (r: seq<string>)
      reads this
      ensures |r| == if |unparsedLines| < ShownUnparsed then |unparsedLines| else ShownUnparsed
      ensures r == unparsedLines[..|r|]
    {
      Take(unparsedLines, ShownUnparsed)
    }

    /**
     * `getIPPlayers`: sorts the addresses in place by number of players,
     * largest first and stable, and returns the first 50.
     */
    method GetIPPlayers() returns (shown: seq<(string, seq<string>)>)
      requires Valid()
      modifies this`ipPlayers
      ensures Valid()
      ensures ipPlayers == SortDesc(old(ipPlayers), PlayerCount)
      ensures multiset(ipPlayers) == multiset(old(ipPlayers)) && SortedDesc(ipPlayers, PlayerCount)
      ensures forall c :: WithKey(ipPlayers, PlayerCount, c) == WithKey(old(ipPlayers), PlayerCount, c)
      ensures shown == Take(ipPlayers, ShownAddresses)
      ensures |shown| <= ShownAddresses && SortedDesc(shown, PlayerCount)
      ensures forall i :: 0 <= i < |shown| ==> shown[i] in old(ipPlayers)
    {
      SortDescSpec(ipPlayers, PlayerCount);
      TopOfSort(ipPlayers, PlayerCount, ShownAddresses);
      PlayerListsPermutation(ipPlayers, SortDesc(ipPlayers, PlayerCount));
      DistinctKeysPermutation(ipPlayers, SortDesc(ipPlayers, PlayerCount));
      ipPlayers := SortDesc(ipPlayers, PlayerCount);
      shown := Take(ipPlayers, ShownAddresses);
    }

    /**
     * `getLogins`: sorts the players in place by login count, largest first
     * and stable, and returns the first 50.
     */
    method GetLogins() returns (shown: seq<(string, nat)>)
      requires Valid()
      modifies this`logins
      ensures Valid()
      ensures logins == SortDesc(old(logins), CountOf)
      ensures multiset(logins) == multiset(old(logins)) && SortedDesc(logins, CountOf)
      ensures forall c :: WithKey(logins, CountOf, c) == WithKey(old(logins), CountOf, c)
      ensures shown == Take(logins, ShownPlayers)
      ensures |shown| <= ShownPlayers && SortedDesc(shown, CountOf)
      ensures forall i :: 0 <= i < |shown| ==> shown[i] in old(logins)
    {
      SortDescSpec(logins, CountOf);
      TopOfSort(logins, CountOf, ShownPlayers);
      SumPermutation(logins, SortDesc(logins, CountOf), NatValue);
      DistinctKeysPermutation(logins, SortDesc(logins, CountOf));
      logins := SortDesc(logins, CountOf);
      shown := Take(logins, ShownPlayers);
    }
  }
}
