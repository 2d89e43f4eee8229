/**
 * The single pass of `analyze` over the pieces of the log, stated as folds:
 * for every accumulator the loop updates, the value after the first `n`
 * pieces, starting from the value it had before. The step for one piece
 * applies the corresponding block of the loop body (LogAnalyzer.php:39-148)
 * to the piece's classification.
 */
module Scan {
  import opened Wrappers
  import opened Text
  import opened Assoc
  import opened Sorting
  import opened Classifier
  import opened Patterns
  import opened Normalizer
  import Traces

  /** `$this->stats`. */
  datatype Stats = Stats(
    totalLines: nat, info: nat, warning: nat, error: nat, other: nat,
    logins: nat, uniqueIps: nat, uniquePlayers: nat)

  /** One stored example of a message: the `ts` capture, the start of the trimmed line, the level. */
  datatype Example = Example(timestamp: string, fullText: string, level: string)

  const MaxExamples: nat := 5
  const MaxExampleText: nat := 500

  /**
   * How the loop treats one piece: skipped when it trims to "" or "0", else
   * parsed or not. A parsed piece also carries what the loop body reads off
   * it: the normalised message (`$shortMsg`), the player of a login message
   * and the first address on the line.
   */
  datatype Kind =
    | Skipped
    | Unparsed(line: string)
    | Parsed(line: string, rec: Record, short: string, player: Option<string>, address: Option<string>)

  /** The parsed piece `line` whose record is `r`. */
  function Entry(line: string, r: Record): Kind {
    Parsed(line, r, ExtractMessage(r.message), LoginPlayer(r.message), FirstIp(line))
  }

  function Classify(raw: string): Kind {
    var line := Trim(raw);
    if IsEmptyPhp(line) then Skipped
    else
      match ParseLine(line)
      case None => Unparsed(line)
      case Some(r) => Entry(line, r)
  }

  /** What every classification guarantees about a piece that is kept. */
  predicate KindShape(k: Kind) {
    match k
    case Skipped => true
    case Unparsed(line) => !IsEmptyPhp(line)
    case Parsed(line, r, _, _, _) =>
      && !IsEmptyPhp(line) && r.level in {"INFO", "WARNING", "ERROR"}
      && HasStampPrefix(r.timestamp) && '\n' !in r.message
  }

  ghost predicate Shaped(ks: seq<Kind>) {
    forall i :: 0 <= i < |ks| ==> KindShape(ks[i])
  }

  /** Classification keeps the trimmed piece and only ever yields records `parseLine` can return. */
  lemma ClassifyShape(raw: string)
    ensures KindShape(Classify(raw))
    ensures !Classify(raw).Skipped? ==> Classify(raw).line == Trim(raw)
    ensures Classify(raw).Skipped? <==> IsEmptyPhp(Trim(raw))
    ensures Classify(raw).Unparsed? ==> ParseLine(Classify(raw).line).None?
  {
  }

  // ---------------------------------------------------------------------
  // Severity counters and login counter (LogAnalyzer.php:53-67, 126-127)

  /** The severity switch: exactly one of the four counters goes up. */
  function CountLevel(s: Stats, level: string): Stats {
    if level == "INFO" then s.(info := s.info + 1)
    else if level == "WARNING" then s.(warning := s.warning + 1)
    else if level == "ERROR" then s.(error := s.error + 1)
    else s.(other := s.other + 1)
  }

  function StatsStep(s: Stats, k: Kind): Stats {
    match k
    case Parsed(_, r, _, player, _) =>
      var s' := CountLevel(s, r.level);
      if player.Some? then s'.(logins := s'.logins + 1) else s'
    case _ => s
  }

  function StatsAfter(ks: seq<Kind>, n: nat, s0: Stats): Stats
    requires n <= |ks|
  {
    if n == 0 then s0 else StatsStep(StatsAfter(ks, n - 1, s0), ks[n - 1])
  }

  function Severities(s: Stats): nat { s.info + s.warning + s.error + s.other }

  // ---------------------------------------------------------------------
  // Unparsed lines (LogAnalyzer.php:45-48)

  function UnparsedStep(u: seq<string>, k: Kind): seq<string> {
    match k
    case Unparsed(line) => u + [line]
    case _ => u
  }

  function UnparsedAfter(ks: seq<Kind>, n: nat, u0: seq<string>): seq<string>
    requires n <= |ks|
  {
    if n == 0 then u0 else UnparsedStep(UnparsedAfter(ks, n - 1, u0), ks[n - 1])
  }

  /** Number of pieces among the first `n` that the loop does not skip. */
  function NonBlank(ks: seq<Kind>, n: nat): nat
    requires n <= |ks|
  {
    if n == 0 then 0 else NonBlank(ks, n - 1) + (if ks[n - 1].Skipped? then 0 else 1)
  }

  /**
   * Every piece that is not skipped either goes to the unparsed list or
   * raises exactly one of the four severity counters.
   */
  lemma {:induction false} ScanPartition(ks: seq<Kind>, n: nat, s0: Stats, u0: seq<string>)
    requires n <= |ks|
    ensures Severities(StatsAfter(ks, n, s0)) + |UnparsedAfter(ks, n, u0)| == Severities(s0) + |u0| + NonBlank(ks, n)
  {
    if n > 0 {
      ScanPartition(ks, n - 1, s0, u0);
    }
  }

  /** A parsed level is always one of the three names, so `other` never moves. */
  lemma {:induction false} OtherStaysPut(ks: seq<Kind>, n: nat, s0: Stats)
    requires n <= |ks| && Shaped(ks)
    ensures StatsAfter(ks, n, s0).other == s0.other
  {
    if n > 0 {
      OtherStaysPut(ks, n - 1, s0);
    }
  }

  /**
   * The unparsed list grows by the trimmed unparsed pieces in file order:
   * the old entries stay in front, and a string is among the new entries
   * exactly when some piece so far trims to it and is not parsed.
   */
  lemma {:induction false} UnparsedExact(ks: seq<Kind>, n: nat, u0: seq<string>)
    requires n <= |ks|
    ensures |UnparsedAfter(ks, n, u0)| >= |u0| && UnparsedAfter(ks, n, u0)[..|u0|] == u0
    ensures forall x :: x in UnparsedAfter(ks, n, u0)[|u0|..] <==>
      exists k :: 0 <= k < n && ks[k] == Unparsed(x)
  {
    if n > 0 {
      UnparsedExact(ks, n - 1, u0);
      var prev := UnparsedAfter(ks, n - 1, u0);
      var k := ks[n - 1];
      if k.Unparsed? {
        assert UnparsedAfter(ks, n, u0)[|u0|..] == prev[|u0|..] + [k.line];
      }
    }
  }

  /** No new unparsed entry is "" or "0". */
  lemma UnparsedEntries(ks: seq<Kind>, n: nat, u0: seq<string>)
    requires n <= |ks| && Shaped(ks)
    ensures forall j :: |u0| <= j < |UnparsedAfter(ks, n, u0)| ==> !IsEmptyPhp(UnparsedAfter(ks, n, u0)[j])
  {
    UnparsedExact(ks, n, u0);
    var u := UnparsedAfter(ks, n, u0);
    forall j | |u0| <= j < |u| ensures !IsEmptyPhp(u[j]) {
      assert u[j] in u[|u0|..] by {
        assert u[|u0|..][j - |u0|] == u[j];
      }
    }
  }

  // ---------------------------------------------------------------------
  // Warnings and errors per hour (LogAnalyzer.php:69-78)

  function HourStep(h: seq<(string, nat)>, k: Kind): seq<(string, nat)> {
    match k
    case Parsed(_, r, _, _, _) =>
      if r.level == "WARNING" || r.level == "ERROR" then
        match ExtractHour(r.timestamp)
        case Some(hour) => if !IsEmptyPhp(hour) then Increment(h, hour) else h
        case None => h
      else h
    case _ => h
  }

  function HoursAfter(ks: seq<Kind>, n: nat, h0: seq<(string, nat)>): seq<(string, nat)>
    requires n <= |ks|
  {
    if n == 0 then h0 else HourStep(HoursAfter(ks, n - 1, h0), ks[n - 1])
  }

  lemma HourStepSum(h: seq<(string, nat)>, k: Kind, s: Stats)
    requires KindShape(k)
    ensures SumValues(HourStep(h, k)) + s.warning + s.error == SumValues(h) + StatsStep(s, k).warning + StatsStep(s, k).error
  {
    if k.Parsed? && (k.rec.level == "WARNING" || k.rec.level == "ERROR") {
      var hour := ExtractHour(k.rec.timestamp).value;
      assert |hour| == 16;
      SumIncrement(h, hour);
    }
  }

  /** Every WARNING or ERROR line lands in exactly one hour bucket, and no other line does. */
  lemma {:induction false} HoursSum(ks: seq<Kind>, n: nat, h0: seq<(string, nat)>, s0: Stats)
    requires n <= |ks| && Shaped(ks)
    ensures SumValues(HoursAfter(ks, n, h0)) + s0.warning + s0.error ==
      SumValues(h0) + StatsAfter(ks, n, s0).warning + StatsAfter(ks, n, s0).error
  {
    if n > 0 {
      HoursSum(ks, n - 1, h0, s0);
      HourStepSum(HoursAfter(ks, n - 1, h0), ks[n - 1], StatsAfter(ks, n - 1, s0));
    }
  }

  ghost predicate HourKeys(h: seq<(string, nat)>) {
    forall i :: 0 <= i < |h| ==> IsHourLabel(h[i].0)
  }

  /** Every key of the histogram has the form "YYYY-MM-DD HH:00". */
  lemma {:induction false} HoursKeys(ks: seq<Kind>, n: nat, h0: seq<(string, nat)>)
    requires n <= |ks| && HourKeys(h0)
    ensures HourKeys(HoursAfter(ks, n, h0))
  {
    if n > 0 {
      HoursKeys(ks, n - 1, h0);
      var h := HoursAfter(ks, n - 1, h0);
      match ks[n - 1]
      case Parsed(_, r, _, _, _) =>
        if (r.level == "WARNING" || r.level == "ERROR") && ExtractHour(r.timestamp).Some? {
          var hour := ExtractHour(r.timestamp).value;
          var r' := Increment(h, hour);
          forall i | 0 <= i < |r'| ensures IsHourLabel(r'[i].0) {
            if i < |h| && i != Find(h, hour) {
              assert r'[i] == h[i];
            }
          }
        }
      case _ =>
    }
  }

  // ---------------------------------------------------------------------
  // Message counts per level (LogAnalyzer.php:80-81, 100-115)

  /** `$level . '|' . $shortMsg`: the key under which examples are kept. */
  function MessageKey(level: string, short: string): string {
    level + "|" + short
  }

  /** The key of a parsed piece. */
  function KeyOf(k: Kind): string
    requires k.Parsed?
  {
    MessageKey(k.rec.level, k.short)
  }

  function LevelStep(counts: seq<(string, nat)>, level: string, k: Kind): seq<(string, nat)> {
    match k
    case Parsed(_, r, short, _, _) => if r.level == level then Increment(counts, short) else counts
    case _ => counts
  }

  /** `$messagesInfo`, `$messagesWarning` or `$messagesError` after the first `n` pieces. */
  function LevelCounts(ks: seq<Kind>, n: nat, level: string, c0: seq<(string, nat)>): seq<(string, nat)>
    requires n <= |ks|
  {
    if n == 0 then c0 else LevelStep(LevelCounts(ks, n - 1, level, c0), level, ks[n - 1])
  }

  /** Number of the first `n` pieces parsed with level `level` whose normalised message is `key`. */
  function KeyCount(ks: seq<Kind>, n: nat, level: string, key: string): nat
    requires n <= |ks|
  {
    if n == 0 then 0
    else
      var k := ks[n - 1];
      KeyCount(ks, n - 1, level, key) +
        (if k.Parsed? && k.rec.level == level && k.short == key then 1 else 0)
  }

  /** The count under each normalised message is the number of lines of that level that normalise to it. */
  lemma {:induction false} LevelCountsExact(ks: seq<Kind>, n: nat, level: string, key: string)
    requires n <= |ks|
    ensures Get(LevelCounts(ks, n, level, []), key, 0) == KeyCount(ks, n, level, key)
  {
    if n > 0 {
      LevelCountsExact(ks, n - 1, level, key);
      var c := LevelCounts(ks, n - 1, level, []);
      var k := ks[n - 1];
      if k.Parsed? && k.rec.level == level {
        var m := k.short;
        GetPut(c, m, Get(c, m, 0) + 1, key, 0);
      }
    }
  }

  lemma LevelStepSum(c: seq<(string, nat)>, level: string, k: Kind, s: Stats)
    requires KindShape(k) && level in {"INFO", "WARNING", "ERROR"}
    ensures SumValues(LevelStep(c, level, k)) + LevelTotal(s, level) == SumValues(c) + LevelTotal(StatsStep(s, k), level)
  {
    if k.Parsed? && k.rec.level == level {
      SumIncrement(c, k.short);
    }
  }

  /** The counts of one level add up to the number of lines with that level. */
  lemma {:induction false} LevelCountsSum(ks: seq<Kind>, n: nat, level: string, c0: seq<(string, nat)>, s0: Stats)
    requires n <= |ks| && Shaped(ks) && level in {"INFO", "WARNING", "ERROR"}
    ensures SumValues(LevelCounts(ks, n, level, c0)) + LevelTotal(s0, level) ==
      SumValues(c0) + LevelTotal(StatsAfter(ks, n, s0), level)
  {
    if n > 0 {
      LevelCountsSum(ks, n - 1, level, c0, s0);
      LevelStepSum(LevelCounts(ks, n - 1, level, c0), level, ks[n - 1], StatsAfter(ks, n - 1, s0));
    }
  }

  /** The severity counter that belongs to a level name. */
  function LevelTotal(s: Stats, level: string): nat {
    if level == "INFO" then s.info
    else if level == "WARNING" then s.warning
    else if level == "ERROR" then s.error
    else s.other
  }

  // ---------------------------------------------------------------------
  // Message examples (LogAnalyzer.php:89-98)

  function ExampleOf(line: string, r: Record): Example {
    Example(r.timestamp, Prefix(line, MaxExampleText), r.level)
  }

  /**
   * One line's effect on the examples: its example goes under its key while
   * fewer than five are kept there (a missing key counts as none kept).
   */
  function ExampleStep(ex: seq<(string, seq<Example>)>, k: Kind): seq<(string, seq<Example>)> {
    if k.Parsed? && |Get(ex, KeyOf(k), [])| < MaxExamples then
      Put(ex, KeyOf(k), Get(ex, KeyOf(k), []) + [ExampleOf(k.line, k.rec)])
    else ex
  }

  function ExamplesAfter(ks: seq<Kind>, n: nat, e0: seq<(string, seq<Example>)>): seq<(string, seq<Example>)>
    requires n <= |ks|
  {
    if n == 0 then e0 else ExampleStep(ExamplesAfter(ks, n - 1, e0), ks[n - 1])
  }

  /** Every occurrence, in file order, of the key `key` among the first `n` pieces. */
  function Occurrences(ks: seq<Kind>, n: nat, key: string): seq<Example>
    requires n <= |ks|
  {
    if n == 0 then []
    else
      var k := ks[n - 1];
      Occurrences(ks, n - 1, key) + (if k.Parsed? && KeyOf(k) == key then [ExampleOf(k.line, k.rec)] else [])
  }

  lemma TakeAppend<T>(s: seq<T>, x: T, n: nat)
    ensures Take(s + [x], n) == if |s| < n then s + [x] else Take(s, n)
  {
    if |s| >= n {
      assert (s + [x])[..n] == s[..n];
    }
  }

  /** Whether the piece `k` is a parsed line stored under `key`. */
  predicate Hit(k: Kind, key: string) {
    k.Parsed? && KeyOf(k) == key
  }

  /** The example a piece would add (a placeholder for a piece that is not parsed). */
  function ExampleFor(k: Kind): Example {
    if k.Parsed? then ExampleOf(k.line, k.rec) else Example([], [], [])
  }

  /** One line adds its example under its own key while fewer than five are kept there, and touches no other key. */
  lemma ExampleStepGet(ex: seq<(string, seq<Example>)>, k: Kind, key: string)
    ensures Get(ExampleStep(ex, k), key, []) ==
      if Hit(k, key) && |Get(ex, key, [])| < MaxExamples
      then Get(ex, key, []) + [ExampleFor(k)] else Get(ex, key, [])
  {
    if k.Parsed? {
      var kk := KeyOf(k);
      GetPut(ex, kk, Get(ex, kk, []) + [ExampleOf(k.line, k.rec)], key, []);
    }
  }

  lemma ExamplesAfterStep(ks: seq<Kind>, n: nat, e0: seq<(string, seq<Example>)>, key: string)
    requires 0 < n <= |ks|
    ensures Get(ExamplesAfter(ks, n, e0), key, []) ==
      var g := Get(ExamplesAfter(ks, n - 1, e0), key, []);
      if Hit(ks[n - 1], key) && |g| < MaxExamples then g + [ExampleFor(ks[n - 1])] else g
  {
    ExampleStepGet(ExamplesAfter(ks, n - 1, e0), ks[n - 1], key);
  }

  lemma OccurrencesStep(ks: seq<Kind>, n: nat, key: string, g0: seq<Example>)
    requires 0 < n <= |ks|
    ensures g0 + Occurrences(ks, n, key) ==
      var prior := g0 + Occurrences(ks, n - 1, key);
      if Hit(ks[n - 1], key) then prior + [ExampleFor(ks[n - 1])] else prior
  {
    var o := Occurrences(ks, n - 1, key);
    if Hit(ks[n - 1], key) {
      assert g0 + (o + [ExampleFor(ks[n - 1])]) == (g0 + o) + [ExampleFor(ks[n - 1])];
    }
  }

  /** Keeping the first five of a list that grows by at most one element. */
  lemma TakeStep<T>(g: seq<T>, prior: seq<T>, hit: bool, x: T, n: nat)
    requires g == Take(prior, n)
    ensures (if hit && |g| < n then g + [x] else g) == Take(if hit then prior + [x] else prior, n)
  {
    if hit {
      TakeAppend(prior, x, n);
    }
  }

  lemma ExamplesFirstFiveStep(ks: seq<Kind>, n: nat, e0: seq<(string, seq<Example>)>, key: string)
    requires 0 < n <= |ks|
    requires Get(ExamplesAfter(ks, n - 1, e0), key, []) == Take(Get(e0, key, []) + Occurrences(ks, n - 1, key), MaxExamples)
    ensures Get(ExamplesAfter(ks, n, e0), key, []) == Take(Get(e0, key, []) + Occurrences(ks, n, key), MaxExamples)
  {
    var g, prior := Get(ExamplesAfter(ks, n - 1, e0), key, []), Get(e0, key, []) + Occurrences(ks, n - 1, key);
    assert g == Take(prior, MaxExamples);
    ExamplesAfterStep(ks, n, e0, key);
    OccurrencesStep(ks, n, key, Get(e0, key, []));
    TakeStep(g, prior, Hit(ks[n - 1], key), ExampleFor(ks[n - 1]), MaxExamples);
  }

  lemma ExamplesFirstFiveBase(ks: seq<Kind>, e0: seq<(string, seq<Example>)>, key: string)
    requires |Get(e0, key, [])| <= MaxExamples
    ensures Get(ExamplesAfter(ks, 0, e0), key, []) == Take(Get(e0, key, []) + Occurrences(ks, 0, key), MaxExamples)
  {
    var g0 := Get(e0, key, []);
    assert g0 + [] == g0;
  }

  /**
   * The examples kept under a key are the first five occurrences of that
   * key, in file order, after those already kept.
   */
  lemma {:induction false} ExamplesFirstFive(ks: seq<Kind>, n: nat, e0: seq<(string, seq<Example>)>, key: string)
    requires n <= |ks| && |Get(e0, key, [])| <= MaxExamples
    ensures Get(ExamplesAfter(ks, n, e0), key, []) == Take(Get(e0, key, []) + Occurrences(ks, n, key), MaxExamples)
  {
    if n == 0 {
      ExamplesFirstFiveBase(ks, e0, key);
    } else {
      ExamplesFirstFive(ks, n - 1, e0, key);
      assert Get(ExamplesAfter(ks, n - 1, e0), key, []) == Take(Get(e0, key, []) + Occurrences(ks, n - 1, key), MaxExamples);
      ExamplesFirstFiveStep(ks, n, e0, key);
    }
  }

  ghost predicate AtMostFive(ex: seq<(string, seq<Example>)>) {
    forall i :: 0 <= i < |ex| ==> |ex[i].1| <= MaxExamples
  }

  /** No key ever holds more than five examples. */
  lemma {:induction false} ExamplesBounded(ks: seq<Kind>, n: nat, e0: seq<(string, seq<Example>)>)
    requires n <= |ks| && AtMostFive(e0)
    ensures AtMostFive(ExamplesAfter(ks, n, e0))
  {
    if n > 0 {
      ExamplesBounded(ks, n - 1, e0);
      var ex := ExamplesAfter(ks, n - 1, e0);
      var k := ks[n - 1];
      if k.Parsed? && |Get(ex, KeyOf(k), [])| < MaxExamples {
        var key := KeyOf(k);
        var r' := Put(ex, key, Get(ex, key, []) + [ExampleOf(k.line, k.rec)]);
        forall i | 0 <= i < |r'| ensures |r'[i].1| <= MaxExamples {
          if i < |ex| && i != Find(ex, key) {
            assert r'[i] == ex[i];
          }
        }
      }
    }
  }

  // ---------------------------------------------------------------------
  // Logins (LogAnalyzer.php:124-133)

  function LoginStep(l: seq<(string, nat)>, k: Kind): seq<(string, nat)> {
    if k.Parsed? && k.player.Some? then Increment(l, k.player.value) else l
  }

  function LoginsAfter(ks: seq<Kind>, n: nat, l0: seq<(string, nat)>): seq<(string, nat)>
    requires n <= |ks|
  {
    if n == 0 then l0 else LoginStep(LoginsAfter(ks, n - 1, l0), ks[n - 1])
  }

  /** Only a login line moves the login counter, and by one. */
  lemma StatsStepLogins(s: Stats, k: Kind)
    ensures StatsStep(s, k).logins == s.logins + if k.Parsed? && k.player.Some? then 1 else 0
  {
  }

  /** `stats['logins']` moves in step with the sum of the per-player counts. */
  lemma {:induction false} LoginsSum(ks: seq<Kind>, n: nat, l0: seq<(string, nat)>, s0: Stats)
    requires n <= |ks|
    ensures SumValues(LoginsAfter(ks, n, l0)) + s0.logins == SumValues(l0) + StatsAfter(ks, n, s0).logins
  {
    if n > 0 {
      LoginsSum(ks, n - 1, l0, s0);
      var k := ks[n - 1];
      StatsStepLogins(StatsAfter(ks, n - 1, s0), k);
      if k.Parsed? && k.player.Some? {
        SumIncrement(LoginsAfter(ks, n - 1, l0), k.player.value);
      }
    }
  }

  /** Player names stay distinct keys over the pass, so `count($this->logins)` is the number of players. */
  lemma {:induction false} LoginsDistinct(ks: seq<Kind>, n: nat, l0: seq<(string, nat)>)
    requires n <= |ks| && DistinctKeys(l0)
    ensures DistinctKeys(LoginsAfter(ks, n, l0))
  {
    if n > 0 {
      LoginsDistinct(ks, n - 1, l0);
      var l, k := LoginsAfter(ks, n - 1, l0), ks[n - 1];
      if k.Parsed? && k.player.Some? {
        PutDistinct(l, k.player.value, Get(l, k.player.value, 0) + 1);
      }
    }
  }

  // ---------------------------------------------------------------------
  // Addresses and their players (LogAnalyzer.php:135-147)

  function IpStep(ips: seq<(string, seq<string>)>, k: Kind): seq<(string, seq<string>)> {
    if k.Parsed? && k.address.Some? && k.player.Some? then
      var ip, player := k.address.value, k.player.value;
      var m := if HasKey(ips, ip) then ips else Put(ips, ip, []);
      var players := Get(m, ip, []);
      if player !in players then Put(m, ip, players + [player]) else m
    else ips
  }

  function IpsAfter(ks: seq<Kind>, n: nat, i0: seq<(string, seq<string>)>): seq<(string, seq<string>)>
    requires n <= |ks|
  {
    if n == 0 then i0 else IpStep(IpsAfter(ks, n - 1, i0), ks[n - 1])
  }

  predicate NoDuplicates(s: seq<string>) {
    forall i, j :: 0 <= i < j < |s| ==> s[i] != s[j]
  }

  /** Every address has at least one player and no player twice. */
  ghost predicate PlayerLists(ips: seq<(string, seq<string>)>) {
    forall i :: 0 <= i < |ips| ==> |ips[i].1| > 0 && NoDuplicates(ips[i].1)
  }

  /** One step keeps every player list non-empty and free of repeats. */
  lemma IpStepLists(ips: seq<(string, seq<string>)>, k: Kind)
    requires PlayerLists(ips)
    ensures PlayerLists(IpStep(ips, k))
  {
    if k.Parsed? && k.address.Some? && k.player.Some? {
      var ip, player := k.address.value, k.player.value;
      var f := Find(ips, ip);
      if f < |ips| {
        var players := ips[f].1;
        if player !in players {
          var r := Put(ips, ip, players + [player]);
          forall i | 0 <= i < |r| ensures |r[i].1| > 0 && NoDuplicates(r[i].1) {
            if i != f {
              assert r[i] == ips[i];
            }
          }
        }
      } else {
        var m := Put(ips, ip, []);
        assert m == ips + [(ip, [])];
        assert Find(m, ip) == |ips|;
        var r := Put(m, ip, [player]);
        forall i | 0 <= i < |r| ensures |r[i].1| > 0 && NoDuplicates(r[i].1) {
          if i < |ips| {
            assert r[i] == ips[i];
          }
        }
      }
    }
  }

  lemma {:induction false} IpsLists(ks: seq<Kind>, n: nat, i0: seq<(string, seq<string>)>)
    requires n <= |ks| && PlayerLists(i0)
    ensures PlayerLists(IpsAfter(ks, n, i0))
  {
    if n > 0 {
      IpsLists(ks, n - 1, i0);
      IpStepLists(IpsAfter(ks, n - 1, i0), ks[n - 1]);
    }
  }

  /** One step keeps the addresses distinct keys. */
  lemma IpStepDistinct(ips: seq<(string, seq<string>)>, k: Kind)
    requires DistinctKeys(ips)
    ensures DistinctKeys(IpStep(ips, k))
  {
    if k.Parsed? && k.address.Some? && k.player.Some? {
      var ip, player := k.address.value, k.player.value;
      var m := if HasKey(ips, ip) then ips else Put(ips, ip, []);
      if !HasKey(ips, ip) {
        PutDistinct(ips, ip, []);
      }
      var players := Get(m, ip, []);
      if player !in players {
        PutDistinct(m, ip, players + [player]);
      }
    }
  }

  /** Addresses stay distinct keys over the pass, so `count($this->ipPlayers)` is the number of addresses. */
  lemma {:induction false} IpsDistinct(ks: seq<Kind>, n: nat, i0: seq<(string, seq<string>)>)
    requires n <= |ks| && DistinctKeys(i0)
    ensures DistinctKeys(IpsAfter(ks, n, i0))
  {
    if n > 0 {
      IpsDistinct(ks, n - 1, i0);
      IpStepDistinct(IpsAfter(ks, n - 1, i0), ks[n - 1]);
    }
  }

  /** A line without an address or without a login leaves the map as it was. */
  lemma IpStepNeedsBoth(ips: seq<(string, seq<string>)>, line: string, r: Record)
    requires FirstIp(line).None? || LoginPlayer(r.message).None?
    ensures IpStep(ips, Entry(line, r)) == ips
  {
  }

  // ---------------------------------------------------------------------
  // Raw stack traces (LogAnalyzer.php:117-122)

  /** `stripos($message, 'stack trace') !== false || stripos($message, 'error description') !== false` */
  predicate TraceTrigger(message: string) {
    ContainsCI(message, "stack trace") || ContainsCI(message, "error description")
  }

  /**
   * One piece's effect on the raw traces, given the trace `extractStackTrace`
   * returns for it: a trigger line adds its trace unless that is "" or "0".
   */
  function TraceStep(traces: seq<string>, k: Kind, trace: string): seq<string> {
    if k.Parsed? && TraceTrigger(k.rec.message) && !IsEmptyPhp(trace) then traces + [trace] else traces
  }

  /** The raw traces after the first `n` pieces; `ts[i]` is the trace that starts at piece `i`. */
  function TracesAfter(ks: seq<Kind>, ts: seq<string>, n: nat, t0: seq<string>): seq<string>
    requires |ts| == |ks| && n <= |ks|
  {
    if n == 0 then t0 else TraceStep(TracesAfter(ks, ts, n - 1, t0), ks[n - 1], ts[n - 1])
  }

  /** A trace whose first line is not blank is itself neither "" nor "0". */
  lemma ImplodeNonBlank(b: seq<string>)
    requires |b| > 0 && !IsEmptyPhp(b[0])
    ensures !IsEmptyPhp(Implode(b)) && StartsWith(Implode(b), b[0])
  {
    if |b| > 1 {
      assert Implode(b) == b[0] + ("\n" + Implode(b[1..]));
      assert Implode(b)[..|b[0]|] == b[0];
      assert Implode(b)[|b[0]|] == '\n';
    }
  }

  /**
   * The trace of a piece that is not blank starts with that trimmed piece,
   * so the `if ($trace)` test always passes.
   */
  lemma TraceKept(lines: seq<string>, n: nat)
    requires n < |lines| && !IsEmptyPhp(Trim(lines[n]))
    ensures |Traces.TraceBlock(lines, n)| > 0 && Traces.TraceBlock(lines, n)[0] == Trim(lines[n])
    ensures !IsEmptyPhp(Implode(Traces.TraceBlock(lines, n)))
    ensures StartsWith(Implode(Traces.TraceBlock(lines, n)), Trim(lines[n]))
  {
    Traces.TraceBlockStops(lines, n);
    Traces.TraceBlockSpec(lines, n);
    ImplodeNonBlank(Traces.TraceBlock(lines, n));
  }

  /** The classification of every piece, in order. */
  ghost predicate KindsOf(lines: seq<string>, ks: seq<Kind>) {
    |ks| == |lines| && forall i :: 0 <= i < |ks| ==> ks[i] == Classify(lines[i])
  }

  /** Every kept piece of `ks` is the trimmed piece of `lines` at the same index. */
  ghost predicate Trimmed(lines: seq<string>, ks: seq<Kind>) {
    |ks| == |lines| && forall i :: 0 <= i < |ks| && !ks[i].Skipped? ==> ks[i].line == Trim(lines[i])
  }

  lemma KindsOfShaped(lines: seq<string>, ks: seq<Kind>)
    requires KindsOf(lines, ks)
    ensures Shaped(ks) && Trimmed(lines, ks)
  {
    forall i | 0 <= i < |ks| ensures KindShape(ks[i]) && (!ks[i].Skipped? ==> ks[i].line == Trim(lines[i])) {
      ClassifyShape(lines[i]);
    }
  }

  /** The trace `extractStackTrace` returns for each piece. */
  ghost predicate TracesOf(lines: seq<string>, ts: seq<string>) {
    |ts| == |lines| && forall i :: 0 <= i < |ts| ==> ts[i] == Implode(Traces.TraceBlock(lines, i))
  }

  /** The trace of every piece that is kept is neither "" nor "0". */
  ghost predicate KeptTraces(ks: seq<Kind>, ts: seq<string>) {
    |ts| == |ks| && forall i :: 0 <= i < |ks| && !ks[i].Skipped? ==> !IsEmptyPhp(ts[i])
  }

  /** So the `if ($trace)` test passes on every trigger line. */
  lemma TracesOfKept(lines: seq<string>, ks: seq<Kind>, ts: seq<string>)
    requires Shaped(ks) && Trimmed(lines, ks) && TracesOf(lines, ts)
    ensures KeptTraces(ks, ts)
  {
    forall i | 0 <= i < |ks| && !ks[i].Skipped? ensures !IsEmptyPhp(ts[i]) {
      assert KindShape(ks[i]) && ks[i].line == Trim(lines[i]);
      TraceKept(lines, i);
    }
  }

  /** Number of trigger lines among the first `n` pieces. */
  function Triggers(ks: seq<Kind>, n: nat): nat
    requires n <= |ks|
  {
    if n == 0 then 0
    else Triggers(ks, n - 1) + (if ks[n - 1].Parsed? && TraceTrigger(ks[n - 1].rec.message) then 1 else 0)
  }

  /** The traces found are appended after those already there. */
  lemma {:induction false} TracesAppend(ks: seq<Kind>, ts: seq<string>, n: nat, t0: seq<string>)
    requires |ts| == |ks| && n <= |ks|
    ensures TracesAfter(ks, ts, n, t0) == t0 + TracesAfter(ks, ts, n, [])
  {
    if n > 0 {
      TracesAppend(ks, ts, n - 1, t0);
      var k := ks[n - 1];
      if k.Parsed? && TraceTrigger(k.rec.message) && !IsEmptyPhp(ts[n - 1]) {
        var rest := TracesAfter(ks, ts, n - 1, []);
        assert t0 + (rest + [ts[n - 1]]) == (t0 + rest) + [ts[n - 1]];
      }
    }
  }

  /** Each trigger line adds exactly one trace, and no trace added is "" or "0". */
  lemma {:induction false} TracesExact(ks: seq<Kind>, ts: seq<string>, n: nat)
    requires KeptTraces(ks, ts) && n <= |ks|
    ensures |TracesAfter(ks, ts, n, [])| == Triggers(ks, n)
    ensures forall x :: x in TracesAfter(ks, ts, n, []) ==> !IsEmptyPhp(x)
  {
    if n > 0 {
      TracesExact(ks, ts, n - 1);
      var k := ks[n - 1];
      if k.Parsed? && TraceTrigger(k.rec.message) {
        assert !IsEmptyPhp(ts[n - 1]);
      }
    }
  }

  // ---------------------------------------------------------------------
  // The whole log

  /** The classification of every piece of the log. */
  ghost function Kinds(lines: seq<string>): (ks: seq<Kind>)
    ensures KindsOf(lines, ks)
  {
    seq(|lines|, i requires 0 <= i < |lines| => Classify(lines[i]))
  }

  /** The traces `extractStackTrace` would return from each of the first `n` pieces of the log. */
  ghost function TraceTexts(lines: seq<string>, n: nat): (ts: seq<string>)
    requires n <= |lines|
    ensures |ts| == n
  {
    if n == 0 then [] else TraceTexts(lines, n - 1) + [Implode(Traces.TraceBlock(lines, n - 1))]
  }

  lemma {:induction false} TraceTextsSpec(lines: seq<string>, n: nat)
    requires n <= |lines|
    ensures |TraceTexts(lines, n)| == n
    ensures forall i :: 0 <= i < n ==> TraceTexts(lines, n)[i] == Implode(Traces.TraceBlock(lines, i))
  {
    if n > 0 {
      TraceTextsSpec(lines, n - 1);
    }
  }
}
