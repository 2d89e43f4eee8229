/**
 * Line classification (LogAnalyzer.php `parseLine` and `extractHour`): two
 * fixed grammars tried in order, written out as hand-coded matchers with the
 * PCRE semantics of the original patterns. In those patterns `.` does not
 * match a line feed and `$` (no `m` flag) matches at the end of the subject or
 * just before a final line feed.
 */
module Classifier {
  import opened Wrappers
  import opened Text

  /** A parsed line: the `ts` capture, the level and the message. */
  datatype Record = Record(timestamp: string, level: string, message: string)

  /** A fixed-width layout: 'd' in `shape` stands for `\d`, any other character for itself. */
  predicate FitsShape(s: string, shape: string) {
    |shape| <= |s| &&
    forall i :: 0 <= i < |shape| ==> if shape[i] == 'd' then IsDigit(s[i]) else s[i] == shape[i]
  }

  /** `\d{4}-\d{2}-\d{2}_\d{2}-\d{2}-\d{2}` */
  const StampShape: string := "dddd-dd-dd_dd-dd-dd"

  /** `^\d{4}-\d{2}-\d{2}_\d{2}-\d{2}-\d{2}`: the text starts with a date-time stamp. */
  predicate HasStampPrefix(s: string) {
    FitsShape(s, StampShape)
  }

  /**
   * Length of the `ts` group `\d{4}-\d{2}-\d{2}_\d{2}-\d{2}-\d{2}\.\d+` at the
   * start of `line`; the fraction is taken greedily.
   */
  function TimestampLength(line: string): (r: Option<nat>)
    ensures r.Some? <==> HasStampPrefix(line) && |line| > 20 && line[19] == '.' && IsDigit(line[20])
    ensures r.Some? ==> 21 <= r.value <= |line|
    ensures r.Some? ==> forall i :: 20 <= i < r.value ==> IsDigit(line[i])
    ensures r.Some? && r.value < |line| ==> !IsDigit(line[r.value])
  {
    if HasStampPrefix(line) && |line| > 20 && line[19] == '.' && IsDigit(line[20])
    then Some(20 + DigitRun(line[20..]))
    else None
  }

  /** A whole `ts` group: the stamp, a dot and one or more digits. */
  predicate IsStamp(ts: string) {
    HasStampPrefix(ts) && |ts| > 20 && ts[19] == '.' && forall i :: 20 <= i < |ts| ==> IsDigit(ts[i])
  }

  /** A `\s+` run. */
  predicate IsBlanks(ws: string) {
    |ws| > 0 && forall i :: 0 <= i < |ws| ==> IsSpace(ws[i])
  }

  /** The greedy fraction stops where the stamp does when no digit follows it. */
  lemma StampLength(ts: string, rest: string)
    requires IsStamp(ts) && (rest == [] || !IsDigit(rest[0]))
    ensures TimestampLength(ts + rest) == Some(|ts|)
  {
    var line := ts + rest;
    assert forall i :: 0 <= i < |ts| ==> line[i] == ts[i];
    assert HasStampPrefix(line);
    assert line[20..][|ts| - 20..] == rest;
    assert DigitRun(line[20..]) == |ts| - 20;
  }

  /** `(.*)$` without the `m` flag, on the rest of the subject. */
  function LineTail(rest: string): (r: Option<string>)
    ensures r.Some? ==> '\n' !in r.value && (rest == r.value || rest == r.value + "\n")
    ensures '\n' !in rest ==> r == Some(rest)
  {
    if '\n' !in rest then Some(rest)
    else if rest[|rest| - 1] == '\n' && '\n' !in rest[..|rest| - 1] then
      assert rest == rest[..|rest| - 1] + "\n";
      Some(rest[..|rest| - 1])
    else None
  }

  /** `\[w\]` at the start of `s`, the word compared without regard to ASCII case. */
  predicate TagAt(s: string, w: string) {
    |s| >= |w| + 2 && s[0] == '[' && ToLower(s[1..|w| + 1]) == w && s[|w| + 1] == ']'
  }

  /** `\[(info|warning|error)\]` with the `i` flag at the start of `s`: the level word as written. */
  function LevelTag(s: string): (r: Option<string>)
    ensures r.Some? ==> ToLower(r.value) in {"info", "warning", "error"}
    ensures r.Some? ==> |r.value| + 2 <= |s| && s[1..|r.value| + 1] == r.value
  {
    if TagAt(s, "info") then Some(s[1..5])
    else if TagAt(s, "warning") then Some(s[1..8])
    else if TagAt(s, "error") then Some(s[1..6])
    else None
  }

  /** `\]\s+\[(info|warning|error)\]\s+(.*)$` at the start of `s`: the level word and the message. */
  function LevelAndMessage(s: string): (r: Option<(string, string)>)
    ensures r.Some? ==> |s| > 0 && s[0] == ']'
    ensures r.Some? ==> ToLower(r.value.0) in {"info", "warning", "error"} && '\n' !in r.value.1
  {
    if |s| == 0 || s[0] != ']' then None
    else
      var w1 := SpaceRun(s[1..]);
      if w1 == 0 then None
      else
        var t := s[1 + w1..];
        match LevelTag(t)
        case None => None
        case Some(word) =>
          var u := t[|word| + 2..];
          var w2 := SpaceRun(u);
          if w2 == 0 then None
          else
            match LineTail(u[w2..])
            case None => None
            case Some(msg) => Some((word, msg))
  }

  /**
   * A lazy `.*?` followed by the sub-pattern `m`, on the text the `.*?`
   * starts at: `m`'s answer at the first position, reached without crossing a
   * line feed, where `m` matches.
   */
  function LazyScan<T>(rest: string, m: string -> Option<T>): Option<T>
  {
    if rest == [] then None
    else
      match m(rest)
      case Some(r) => Some(r)
      case None => if rest[0] == '\n' then None else LazyScan(rest[1..], m)
  }

  /** `m` matches at `k`, reached without crossing a line feed. */
  ghost predicate MatchesAt<T>(rest: string, m: string -> Option<T>, k: nat) {
    k < |rest| && '\n' !in rest[..k] && m(rest[k..]).Some?
  }

  lemma MatchesAtNext<T>(rest: string, m: string -> Option<T>, k: nat)
    requires 0 < k < |rest| && rest[0] != '\n'
    ensures MatchesAt(rest, m, k) <==> MatchesAt(rest[1..], m, k - 1)
  {
    assert rest[..k] == [rest[0]] + rest[1..][..k - 1];
    assert rest[k..] == rest[1..][k - 1..];
  }

  /**
   * The lazy scan finds a match exactly when `m` matches somewhere before
   * the next line feed, and then it returns `m`'s answer at the first such
   * position.
   */
  lemma {:induction false} LazyScanFirst<T>(rest: string, m: string -> Option<T>)
    ensures LazyScan(rest, m).Some? <==> exists k: nat :: MatchesAt(rest, m, k)
    ensures forall k: nat ::
              MatchesAt(rest, m, k) && (forall k': nat :: k' < k ==> !MatchesAt(rest, m, k'))
              ==> LazyScan(rest, m) == m(rest[k..])
    decreases |rest|
  {
    if rest != [] {
      assert rest[0..] == rest && rest[..0] == [];
      if m(rest).Some? {
        assert MatchesAt(rest, m, 0);
      } else if rest[0] == '\n' {
        forall k: nat | 0 < k < |rest| ensures !MatchesAt(rest, m, k) {
          assert rest[..k][0] == '\n';
        }
      } else {
        LazyScanFirst(rest[1..], m);
        forall k: nat | 0 < k < |rest| ensures MatchesAt(rest, m, k) <==> MatchesAt(rest[1..], m, k - 1) {
          MatchesAtNext(rest, m, k);
        }
        assert !MatchesAt(rest, m, 0);
        assert forall k: nat :: MatchesAt(rest[1..], m, k) ==> MatchesAt(rest, m, k + 1);
      }
    }
  }

  /** What the lazy scan returns is `m`'s answer somewhere in `rest`. */
  lemma {:induction false} LazyScanFinds<T>(rest: string, m: string -> Option<T>)
    ensures LazyScan(rest, m).Some? ==> exists k :: 0 <= k < |rest| && m(rest[k..]) == LazyScan(rest, m)
    decreases |rest|
  {
    if rest != [] {
      if m(rest).Some? {
        assert rest[0..] == rest;
      } else if rest[0] != '\n' {
        LazyScanFinds(rest[1..], m);
        if LazyScan(rest, m).Some? {
          var k :| 0 <= k < |rest[1..]| && m(rest[1..][k..]) == LazyScan(rest[1..], m);
          assert rest[1..][k..] == rest[k + 1..];
        }
      }
    }
  }

  /**
   * Past a text without line feeds at none of whose positions `m` can
   * match, the lazy scan gives `m`'s answer on what follows.
   */
  lemma {:induction false} LazyScanPast<T>(x: string, tail: string, m: string -> Option<T>)
    requires '\n' !in x && tail != []
    requires forall k :: 0 <= k < |x| ==> m((x + tail)[k..]).None?
    requires m(tail).Some?
    ensures LazyScan(x + tail, m) == m(tail)
    decreases |x|
  {
    var r := x + tail;
    if x == [] {
      assert r == tail;
    } else {
      assert r[0..] == r && r[0] == x[0];
      assert r[1..] == x[1..] + tail;
      forall k | 0 <= k < |x[1..]| ensures m((x[1..] + tail)[k..]).None? {
        assert (x[1..] + tail)[k..] == r[k + 1..];
      }
      LazyScanPast(x[1..], tail, m);
    }
  }

  /**
   * The lazy `\[.*?` of the primary pattern followed by the rest of the
   * pattern, on the text after the bracket.
   */
  function LazyBracket(rest: string): (r: Option<(string, string)>)
    ensures r.Some? ==> ToLower(r.value.0) in {"info", "warning", "error"} && '\n' !in r.value.1
  {
    LazyScanFinds(rest, LevelAndMessage);
    LazyScan(rest, LevelAndMessage)
  }

  /** Past a bracket text without `]` or line feed, the lazy scan stops at the first place it may. */
  lemma LazyBracketPast(x: string, tail: string)
    requires ']' !in x && '\n' !in x
    requires LevelAndMessage(tail).Some?
    ensures LazyBracket(x + tail) == LevelAndMessage(tail)
  {
    forall k | 0 <= k < |x| ensures LevelAndMessage((x + tail)[k..]).None? {
      assert (x + tail)[k..][0] == x[k];
    }
    LazyScanPast(x, tail, LevelAndMessage);
  }

  lemma UpperLiteral(lower: string, upper: string)
    requires |lower| == |upper|
    requires forall i :: 0 <= i < |lower| ==> UpperChar(lower[i]) == upper[i]
    ensures ToUpper(lower) == upper
  {
  }

  /** A level word matched in any case upper-cases to one of the three level names. */
  lemma LevelWordsUpper(word: string)
    requires ToLower(word) in {"info", "warning", "error"}
    ensures ToUpper(word) in {"INFO", "WARNING", "ERROR"}
  {
    UpperOfLower(word);
    LevelNamesUpper();
    UpperAmong(ToLower(word), ToUpper(word));
  }

  lemma LevelNamesUpper()
    ensures ToUpper("info") == "INFO" && ToUpper("warning") == "WARNING" && ToUpper("error") == "ERROR"
  {
    UpperLiteral("info", "INFO");
    UpperLiteral("warning", "WARNING");
    UpperLiteral("error", "ERROR");
  }

  lemma UpperAmong(lower: string, upper: string)
    requires lower in {"info", "warning", "error"} && upper == ToUpper(lower)
    requires ToUpper("info") == "INFO" && ToUpper("warning") == "WARNING" && ToUpper("error") == "ERROR"
    ensures upper in {"INFO", "WARNING", "ERROR"}
  {
  }

  /** `\[(info|warning|error)\]` reads back the level word it was given, in its own case. */
  lemma LevelTagOf(w: string, rest: string)
    requires ToLower(w) in {"info", "warning", "error"}
    ensures LevelTag("[" + w + "]" + rest) == Some(w)
  {
    var s := "[" + w + "]" + rest;
    assert s[1..|w| + 1] == w;
    assert s[|w| + 1] == ']';
    var l := ToLower(w);
    if l == "warning" {
      assert ToLower(s[1..5])[0] == LowerChar(w[0]) == 'w';
    } else if l == "error" {
      assert ToLower(s[1..5])[0] == LowerChar(w[0]) == 'e';
      if |s| >= 9 {
        assert ToLower(s[1..8])[0] == LowerChar(w[0]);
      }
    }
  }

  /** A blank run followed by a non-blank: the greedy `\s*` takes exactly the run. */
  lemma SpaceRunOf(ws: string, rest: string)
    requires forall i :: 0 <= i < |ws| ==> IsSpace(ws[i])
    requires rest == [] || !IsSpace(rest[0])
    ensures SpaceRun(ws + rest) == |ws| && (ws + rest)[|ws|..] == rest
  {
    var s := ws + rest;
    if rest != [] {
      assert s[|ws|] == rest[0];
    }
    assert forall i :: 0 <= i < |ws| ==> s[i] == ws[i];
  }

  lemma LevelAndMessageSteps(s: string, ws2: string, t: string, w: string, u: string, ws3: string, msg: string)
    requires s == "]" + (ws2 + t) && SpaceRun(ws2 + t) == |ws2| && |ws2| > 0 && (ws2 + t)[|ws2|..] == t
    requires LevelTag(t) == Some(w) && t[|w| + 2..] == u
    requires SpaceRun(u) == |ws3| && |ws3| > 0 && u[|ws3|..] == msg && '\n' !in msg
    ensures LevelAndMessage(s) == Some((w, msg))
  {
    assert s[1..] == ws2 + t;
  }

  lemma LevelAndMessageRegroup(ws2: string, w: string, ws3: string, msg: string)
    ensures "]" + ws2 + "[" + w + "]" + ws3 + msg == "]" + (ws2 + ("[" + w + "]" + (ws3 + msg)))
  {
  }

  /** The rest of the primary pattern on `] [w] msg` gives back the level word and the message. */
  lemma LevelAndMessageOf(ws2: string, w: string, ws3: string, msg: string)
    requires IsBlanks(ws2) && IsBlanks(ws3) && ToLower(w) in {"info", "warning", "error"}
    requires '\n' !in msg && (msg == [] || !IsSpace(msg[0]))
    ensures LevelAndMessage("]" + ws2 + "[" + w + "]" + ws3 + msg) == Some((w, msg))
  {
    var u := ws3 + msg;
    var t := "[" + w + "]" + u;
    LevelTagOf(w, u);
    SpaceRunOf(ws2, t);
    SpaceRunOf(ws3, msg);
    assert t[|w| + 2..] == u;
    LevelAndMessageSteps("]" + (ws2 + t), ws2, t, w, u, ws3, msg);
    LevelAndMessageRegroup(ws2, w, ws3, msg);
  }

  /** What both grammars guarantee about the record they return. */
  ghost predicate WellFormed(line: string, r: Record) {
    && r.level in {"INFO", "WARNING", "ERROR"}
    && '\n' !in r.message
    && HasStampPrefix(r.timestamp) && r.timestamp <= line
  }

  /** Primary grammar `^(ts)\s+\[.*?\]\s+\[(info|warning|error)\]\s+(.*)$` (flag `i`), level upper-cased. */
  function ParsePrimary(line: string): (r: Option<Record>)
    ensures r.Some? ==> WellFormed(line, r.value)
  {
    match TimestampLength(line)
    case None => None
    case Some(e) => PrimaryAfterStamp(line[..e], line[e..])
  }

  /** The primary grammar past the `ts` group `ts`, on the text `rest` that follows it. */
  function PrimaryAfterStamp(ts: string, rest: string): (r: Option<Record>)
    ensures r.Some? ==> r.value.timestamp == ts && r.value.level in {"INFO", "WARNING", "ERROR"}
    ensures r.Some? ==> '\n' !in r.value.message
  {
    var w := SpaceRun(rest);
    if w == 0 || w == |rest| || rest[w] != '[' then None
    else
      match LazyBracket(rest[w + 1..])
      case None => None
      case Some((word, msg)) =>
        LevelWordsUpper(word);
        Some(Record(ts, ToUpper(word), msg))
  }

  /**
   * Level of a line read by the fallback grammar: INFO, replaced by WARNING
   * when the message holds `[warning]`, replaced by ERROR when it holds
   * `[error]` (both compared without regard to case).
   */
  function FallbackLevel(message: string): (level: string)
    ensures level == "ERROR" <==> ContainsCI(message, "[error]")
    ensures level == "WARNING" <==> !ContainsCI(message, "[error]") && ContainsCI(message, "[warning]")
    ensures level == "INFO" <==> !ContainsCI(message, "[error]") && !ContainsCI(message, "[warning]")
  {
    var level := if ContainsCI(message, "[warning]") then "WARNING" else "INFO";
    if ContainsCI(message, "[error]") then "ERROR" else level
  }

  /** Fallback grammar `^(ts)\s+(.*)$`: the message is everything after the blanks. */
  function ParseFallback(line: string): (r: Option<Record>)
    ensures r.Some? ==> WellFormed(line, r.value)
  {
    match TimestampLength(line)
    case None => None
    case Some(e) =>
      var w := SpaceRun(line[e..]);
      if w == 0 then None
      else
        match LineTail(line[e + w..])
        case None => None
        case Some(msg) => Some(Record(line[..e], FallbackLevel(msg), msg))
  }

  /** `parseLine`: the primary grammar, else the fallback grammar, else no record. */
  function ParseLine(line: string): (r: Option<Record>)
    ensures r.Some? ==> r.value.level in {"INFO", "WARNING", "ERROR"}
    ensures r.Some? ==> '\n' !in r.value.message
    ensures r.Some? ==> HasStampPrefix(r.value.timestamp) && r.value.timestamp <= line
  {
    var p := ParsePrimary(line);
    if p.Some? then p else ParseFallback(line)
  }

  /** A whole `ts` group, then text that does not start with a digit: the primary grammar goes on past the stamp. */
  lemma PrimaryStamp(ts: string, rest: string)
    requires IsStamp(ts) && (rest == [] || !IsDigit(rest[0]))
    ensures ParsePrimary(ts + rest) == PrimaryAfterStamp(ts, rest)
  {
    StampLength(ts, rest);
    assert (ts + rest)[..|ts|] == ts && (ts + rest)[|ts|..] == rest;
  }

  /** Blanks and then an opening bracket, as the primary grammar reads them past the stamp. */
  lemma BracketHead(ws1: string, r1: string)
    requires IsBlanks(ws1) && |r1| > 0 && r1[0] == '['
    ensures var rest := ws1 + r1;
      && SpaceRun(rest) == |ws1| && |ws1| < |rest| && rest[|ws1|] == '[' && rest[|ws1| + 1..] == r1[1..]
  {
    SpaceRunOf(ws1, r1);
    assert (ws1 + r1)[|ws1|..] == r1;
  }

  /** The steps of the primary grammar past the stamp once the blanks, the bracket and the lazy scan's answer are known. */
  lemma AfterStampSteps(ts: string, rest: string, w: nat, word: string, msg: string)
    requires 0 < w < |rest| && SpaceRun(rest) == w && rest[w] == '['
    requires LazyBracket(rest[w + 1..]) == Some((word, msg))
    ensures PrimaryAfterStamp(ts, rest) == Some(Record(ts, ToUpper(word), msg))
  {
  }

  /**
   * A stamp, blanks, a bracket whose text has no `]` and no line feed, and
   * the rest of the primary pattern: the primary grammar reads the stamp,
   * the upper-cased level and the message.
   */
  lemma PrimaryLine(ts: string, ws1: string, x: string, tail: string)
    requires IsStamp(ts) && IsBlanks(ws1)
    requires ']' !in x && '\n' !in x
    requires LevelAndMessage(tail).Some?
    ensures ParsePrimary(ts + (ws1 + ("[" + (x + tail))))
         == Some(Record(ts, ToUpper(LevelAndMessage(tail).value.0), LevelAndMessage(tail).value.1))
  {
    var r1 := "[" + (x + tail);
    var lm := LevelAndMessage(tail).value;
    PrimaryStamp(ts, ws1 + r1);
    BracketHead(ws1, r1);
    assert r1[1..] == x + tail;
    LazyBracketPast(x, tail);
    AfterStampSteps(ts, ws1 + r1, |ws1|, lm.0, lm.1);
  }


  /** `PrimaryLine` read through `ParseLine`, with the line grouped as it is written. */
  lemma PrimaryLineParsed(ts: string, ws1: string, x: string, tail: string)
    requires IsStamp(ts) && IsBlanks(ws1)
    requires ']' !in x && '\n' !in x
    requires LevelAndMessage(tail).Some?
    ensures ParseLine(ts + ws1 + "[" + x + tail)
         == Some(Record(ts, ToUpper(LevelAndMessage(tail).value.0), LevelAndMessage(tail).value.1))
  {
    PrimaryLine(ts, ws1, x, tail);
    PrimaryRegroup(ts, ws1, x, tail);
    PrimaryFirst(ts + ws1 + "[" + x + tail,
      Record(ts, ToUpper(LevelAndMessage(tail).value.0), LevelAndMessage(tail).value.1));
  }

  /**
   * A line `ts  [x]  [w]  msg`, with no `]` or line feed in `x` and a message
   * that does not start with a blank, parses to its stamp, its level word
   * upper-cased and its message.
   */
  lemma ParsePrimaryOf(ts: string, ws1: string, x: string, ws2: string, w: string, ws3: string, msg: string)
    requires IsStamp(ts) && IsBlanks(ws1) && IsBlanks(ws2) && IsBlanks(ws3)
    requires ']' !in x && '\n' !in x
    requires ToLower(w) in {"info", "warning", "error"}
    requires '\n' !in msg && (msg == [] || !IsSpace(msg[0]))
    ensures var tail := "]" + ws2 + "[" + w + "]" + ws3 + msg;
      ParseLine(ts + ws1 + "[" + x + tail) == Some(Record(ts, ToUpper(w), msg))
  {
    LevelAndMessageOf(ws2, w, ws3, msg);
    PrimaryLineParsed(ts, ws1, x, "]" + ws2 + "[" + w + "]" + ws3 + msg);
  }

  lemma PrimaryFirst(line: string, r: Record)
    requires ParsePrimary(line) == Some(r)
    ensures ParseLine(line) == Some(r)
  {
  }

  lemma PrimaryRegroup(ts: string, ws1: string, x: string, tail: string)
    ensures ts + ws1 + "[" + x + tail == ts + (ws1 + ("[" + (x + tail)))
  {
  }

  /**
   * A line `ts  msg` whose message does not start with a blank is read by
   * the fallback grammar as that stamp and message, with the level its
   * tags give.
   */
  lemma ParseFallbackOf(ts: string, ws: string, msg: string)
    requires IsStamp(ts) && IsBlanks(ws)
    requires '\n' !in msg && (msg == [] || !IsSpace(msg[0]))
    ensures ParseFallback(ts + ws + msg) == Some(Record(ts, FallbackLevel(msg), msg))
  {
    var line := ts + (ws + msg);
    StampLength(ts, ws + msg);
    SpaceRunOf(ws, msg);
    assert line[|ts|..] == ws + msg;
    assert line[..|ts|] == ts;
    assert ts + ws + msg == line;
  }

  /** The text starts with a `ts` stamp followed by at least one blank: what both grammars need. */
  predicate StartsWithStamp(line: string) {
    TimestampLength(line).Some? && SpaceRun(line[TimestampLength(line).value..]) > 0
  }

  /**
   * A line without line feeds is parsed exactly when it starts with a stamp
   * and a blank; any other line is unparsed.
   */
  lemma ParseLineIff(line: string)
    requires '\n' !in line
    ensures ParseLine(line).Some? <==> StartsWithStamp(line)
  {
    if StartsWithStamp(line) {
      var e := TimestampLength(line).value;
      var w := SpaceRun(line[e..]);
      assert forall c :: c in line[e + w..] ==> c in line;
      assert ParseFallback(line).Some?;
    }
  }

  const HourShape: string := "dddd-dd-dd_dd"

  /** The hour label layout "YYYY-MM-DD HH:00". */
  const HourLabelShape: string := "dddd-dd-dd dd:00"

  predicate IsHourLabel(h: string) {
    |h| == |HourLabelShape| && FitsShape(h, HourLabelShape)
  }

  /** First match of `(\d{4}-\d{2}-\d{2})_(\d{2})` at or after position `i`, as "date hour:00". */
  function HourFrom(ts: string, i: nat): (r: Option<string>)
    requires i <= |ts|
    ensures r.Some? ==> IsHourLabel(r.value)
    decreases |ts| - i
  {
    if FitsShape(ts[i..], HourShape) then
      var h := ts[i..i + 10] + " " + ts[i + 11..i + 13] + ":00";
      assert forall k :: 0 <= k < 13 && k != 10 ==> h[k] == ts[i..][k];
      Some(h)
    else if i == |ts| then None
    else HourFrom(ts, i + 1)
  }

  /**
   * `extractHour`: the date and hour of a timestamp as "YYYY-MM-DD HH:00";
   * for a stamp that starts the text, the date and hour are its first fields.
   */
  function ExtractHour(ts: string): (r: Option<string>)
    ensures r.Some? ==> IsHourLabel(r.value)
    ensures HasStampPrefix(ts) ==> r == Some(ts[..10] + " " + ts[11..13] + ":00")
  {
    assert HasStampPrefix(ts) ==> FitsShape(ts[0..], HourShape);
    HourFrom(ts, 0)
  }
}
