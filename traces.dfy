/**
 * Stack traces (LogAnalyzer.php `extractStackTrace` and
 * `aggregateStackTraces`): the block of lines that follows a trigger line,
 * the error type read from a block, and the grouping of blocks by type.
 */
module Traces {
  import opened Wrappers
  import opened Text
  import opened Assoc
  import opened Sorting
  import Classifier

  /** At most this many lines, the trigger line included, go into a trace. */
  const MaxTraceLines: nat := 20

  /** At most this many groups survive aggregation. */
  const MaxTraceGroups: nat := 20

  /** The lines as `trim` leaves them. */
  function TrimAll(lines: seq<string>): (t: seq<string>)
    ensures |t| == |lines|
  {
    if |lines| == 0 then [] else TrimAll(lines[..|lines| - 1]) + [Trim(lines[|lines| - 1])]
  }

  lemma {:induction false} TrimAllAt(lines: seq<string>, i: nat)
    requires i < |lines|
    ensures TrimAll(lines)[i] == Trim(lines[i])
  {
    if i < |lines| - 1 {
      TrimAllAt(lines[..|lines| - 1], i);
    }
  }

  /**
   * The block collected from position `i` on, over trimmed lines, for a
   * trigger at `start`: the lines up to, not including, the first blank one;
   * a line after the trigger that starts with a date-time stamp is taken and
   * ends the block; positions at or past `start + 20` are never read.
   */
  function TraceFrom(trimmed: seq<string>, start: nat, i: nat): seq<string>
    decreases |trimmed| - i
  {
    if i >= start + MaxTraceLines || i >= |trimmed| then []
    else if IsEmptyPhp(trimmed[i]) then []
    else if i > start && Classifier.HasStampPrefix(trimmed[i]) then [trimmed[i]]
    else [trimmed[i]] + TraceFrom(trimmed, start, i + 1)
  }

  /** The lines of the trace for the trigger line at `start`. */
  function TraceBlock(lines: seq<string>, start: nat): seq<string> {
    TraceFrom(TrimAll(lines), start, start)
  }

  lemma {:induction false} TraceFromBounds(t: seq<string>, start: nat, i: nat)
    requires start <= i
    ensures var n := |TraceFrom(t, start, i)|;
      n == 0 || (i + n <= |t| && i + n <= start + MaxTraceLines)
    decreases |t| - i
  {
    if i < start + MaxTraceLines && i < |t| && !IsEmptyPhp(t[i]) && !(i > start && Classifier.HasStampPrefix(t[i])) {
      TraceFromBounds(t, start, i + 1);
    }
  }

  lemma {:induction false} TraceFromLines(t: seq<string>, start: nat, i: nat)
    requires start <= i
    ensures |TraceFrom(t, start, i)| == 0 || i + |TraceFrom(t, start, i)| <= |t|
    ensures forall k :: 0 <= k < |TraceFrom(t, start, i)| ==> TraceFrom(t, start, i)[k] == t[i + k]
    decreases |t| - i
  {
    TraceFromBounds(t, start, i);
    if i < start + MaxTraceLines && i < |t| && !IsEmptyPhp(t[i]) && !(i > start && Classifier.HasStampPrefix(t[i])) {
      TraceFromLines(t, start, i + 1);
      var rest := TraceFrom(t, start, i + 1);
      var b := [t[i]] + rest;
      assert TraceFrom(t, start, i) == b;
      forall k | 0 < k < |b| ensures b[k] == t[i + k] {
        assert b[k] == rest[k - 1];
        assert i + 1 + (k - 1) == i + k;
      }
    }
  }

  lemma {:induction false} TraceFromNonBlank(t: seq<string>, start: nat, i: nat)
    requires start <= i
    ensures forall k :: 0 <= k < |TraceFrom(t, start, i)| ==> !IsEmptyPhp(TraceFrom(t, start, i)[k])
    decreases |t| - i
  {
    if i < start + MaxTraceLines && i < |t| && !IsEmptyPhp(t[i]) && !(i > start && Classifier.HasStampPrefix(t[i])) {
      TraceFromNonBlank(t, start, i + 1);
      var rest := TraceFrom(t, start, i + 1);
      var b := [t[i]] + rest;
      assert TraceFrom(t, start, i) == b;
      forall k | 0 < k < |b| ensures !IsEmptyPhp(b[k]) {
        assert b[k] == rest[k - 1];
      }
    }
  }

  lemma {:induction false} TraceFromUnstamped(t: seq<string>, start: nat, i: nat)
    requires start <= i
    ensures forall j :: i <= j < i + |TraceFrom(t, start, i)| - 1 && start < j < |t| ==>
      !Classifier.HasStampPrefix(t[j])
    decreases |t| - i
  {
    if i < start + MaxTraceLines && i < |t| && !IsEmptyPhp(t[i]) && !(i > start && Classifier.HasStampPrefix(t[i])) {
      TraceFromUnstamped(t, start, i + 1);
      var rest := TraceFrom(t, start, i + 1);
      assert TraceFrom(t, start, i) == [t[i]] + rest;
    }
  }

  /**
   * The block from `i` is the run of lines from `i` on, ending before a
   * blank line, after a stamped line past the trigger, or at position
   * `start + 20`.
   */
  lemma TraceFromSpec(t: seq<string>, start: nat, i: nat)
    requires start <= i
    ensures var n := |TraceFrom(t, start, i)|;
      n == 0 || (i + n <= |t| && i + n <= start + MaxTraceLines)
    ensures forall k :: 0 <= k < |TraceFrom(t, start, i)| ==>
      TraceFrom(t, start, i)[k] == t[i + k] && !IsEmptyPhp(TraceFrom(t, start, i)[k])
    ensures forall j :: i <= j < i + |TraceFrom(t, start, i)| - 1 && start < j < |t| ==>
      !Classifier.HasStampPrefix(t[j])
  {
    TraceFromBounds(t, start, i);
    TraceFromLines(t, start, i);
    TraceFromNonBlank(t, start, i);
    TraceFromUnstamped(t, start, i);
  }

  lemma {:induction false} TraceFromStops(t: seq<string>, start: nat, i: nat)
    requires start <= i
    ensures var n := |TraceFrom(t, start, i)|;
      i + n < |t| && i + n < start + MaxTraceLines ==>
        IsEmptyPhp(t[i + n]) || (n > 0 && i + n - 1 > start && Classifier.HasStampPrefix(t[i + n - 1]))
    ensures i < |t| && i < start + MaxTraceLines && !IsEmptyPhp(t[i]) ==> |TraceFrom(t, start, i)| > 0
    decreases |t| - i
  {
    if i < start + MaxTraceLines && i < |t| && !IsEmptyPhp(t[i]) && !(i > start && Classifier.HasStampPrefix(t[i])) {
      TraceFromStops(t, start, i + 1);
      var rest := TraceFrom(t, start, i + 1);
      var b := [t[i]] + rest;
      assert TraceFrom(t, start, i) == b;
      var n := |b|;
      var m := (i + 1) + |rest|;
      assert i + n == m;
      if m < |t| && m < start + MaxTraceLines {
        assert IsEmptyPhp(t[m]) || (|rest| > 0 && m - 1 > start && Classifier.HasStampPrefix(t[m - 1]));
      }
    }
  }

  /**
   * A trace is the run of trimmed lines that starts at the trigger: at most
   * 20 of them, none blank, and a stamped line after the trigger only as the
   * last one.
   */
  lemma TraceBlockSpec(lines: seq<string>, start: nat)
    ensures |TraceBlock(lines, start)| <= MaxTraceLines
    ensures |TraceBlock(lines, start)| == 0 || start + |TraceBlock(lines, start)| <= |lines|
    ensures forall k :: 0 <= k < |TraceBlock(lines, start)| ==>
      start + k < |lines| && TraceBlock(lines, start)[k] == Trim(lines[start + k])
    ensures forall k :: 0 <= k < |TraceBlock(lines, start)| ==> !IsEmptyPhp(TraceBlock(lines, start)[k])
    ensures forall k :: 0 < k < |TraceBlock(lines, start)| - 1 ==> !Classifier.HasStampPrefix(TraceBlock(lines, start)[k])
  {
    var t := TrimAll(lines);
    var b := TraceFrom(t, start, start);
    TraceFromSpec(t, start, start);
    forall k | 0 <= k < |b| ensures b[k] == Trim(lines[start + k]) {
      TrimAllAt(lines, start + k);
    }
    forall k | 0 < k < |b| - 1 ensures !Classifier.HasStampPrefix(b[k]) {
      assert b[k] == t[start + k];
    }
  }

  lemma TraceFromStopsAtStart(t: seq<string>, start: nat)
    ensures var n := |TraceFrom(t, start, start)|;
      start + n < |t| && n < MaxTraceLines ==>
        IsEmptyPhp(t[start + n]) || (n > 1 && Classifier.HasStampPrefix(TraceFrom(t, start, start)[n - 1]))
  {
    var b := TraceFrom(t, start, start);
    TraceFromSpec(t, start, start);
    TraceFromStops(t, start, start);
    var n := |b|;
    if start + n < |t| && n < MaxTraceLines && n > 1 {
      assert b[n - 1] == t[start + n - 1];
    }
  }

  /**
   * How the block `b` for the trigger at `start` ends: before its 20th line
   * only at a blank line or after a stamped line other than the trigger; and
   * it holds at least the trigger when that line is not blank.
   */
  ghost predicate EndsProperly(lines: seq<string>, b: seq<string>, start: nat) {
    && (start + |b| < |lines| && |b| < MaxTraceLines ==>
          IsEmptyPhp(Trim(lines[start + |b|])) || (|b| > 1 && Classifier.HasStampPrefix(b[|b| - 1])))
    && (start < |lines| && !IsEmptyPhp(Trim(lines[start])) ==> |b| > 0)
  }

  lemma TrimmedStops(lines: seq<string>, t: seq<string>, start: nat)
    requires |t| == |lines| && forall i :: 0 <= i < |t| ==> t[i] == Trim(lines[i])
    ensures EndsProperly(lines, TraceFrom(t, start, start), start)
  {
    TraceFromStopsAtStart(t, start);
    TraceFromStops(t, start, start);
  }

  lemma TrimAllSpec(lines: seq<string>)
    ensures forall i :: 0 <= i < |lines| ==> TrimAll(lines)[i] == Trim(lines[i])
  {
    forall i | 0 <= i < |lines| ensures TrimAll(lines)[i] == Trim(lines[i]) {
      TrimAllAt(lines, i);
    }
  }

  /**
   * A trace stops before its 20th line only at a blank line or after a
   * stamped line other than the trigger, and it holds at least the trigger
   * when that line is not blank.
   */
  lemma TraceBlockStops(lines: seq<string>, start: nat)
    ensures EndsProperly(lines, TraceBlock(lines, start), start)
  {
    TrimAllSpec(lines);
    TrimmedStops(lines, TrimAll(lines), start);
  }

  /** A line that is neither blank nor a closing stamped line is taken, and the scan goes on. */
  lemma TraceGoesOn(t: seq<string>, start: nat, i: nat, taken: seq<string>, block: seq<string>)
    requires i < |t| && i < start + MaxTraceLines && taken + TraceFrom(t, start, i) == block
    requires !IsEmptyPhp(t[i]) && !(i > start && Classifier.HasStampPrefix(t[i]))
    ensures (taken + [t[i]]) + TraceFrom(t, start, i + 1) == block
  {
    assert TraceFrom(t, start, i) == [t[i]] + TraceFrom(t, start, i + 1);
    assert (taken + [t[i]]) + TraceFrom(t, start, i + 1) == taken + ([t[i]] + TraceFrom(t, start, i + 1));
  }

  /** A blank line ends the block without being taken. */
  lemma TraceEndsBlank(t: seq<string>, start: nat, i: nat, taken: seq<string>, block: seq<string>)
    requires i < |t| && taken + TraceFrom(t, start, i) == block && IsEmptyPhp(t[i])
    ensures taken == block
  {
    assert TraceFrom(t, start, i) == [];
    assert taken + [] == taken;
  }

  /** A stamped line after the trigger is taken and ends the block. */
  lemma TraceEndsStamped(t: seq<string>, start: nat, i: nat, taken: seq<string>, block: seq<string>)
    requires i < |t| && i < start + MaxTraceLines && taken + TraceFrom(t, start, i) == block
    requires !IsEmptyPhp(t[i]) && i > start && Classifier.HasStampPrefix(t[i])
    ensures taken + [t[i]] == block
  {
    assert TraceFrom(t, start, i) == [t[i]];
  }

  /** The block ends at the last line or after twenty lines. */
  lemma TraceEndsLimit(t: seq<string>, start: nat, i: nat, taken: seq<string>, block: seq<string>)
    requires (i >= |t| || i >= start + MaxTraceLines) && taken + TraceFrom(t, start, i) == block
    ensures taken == block
  {
    assert TraceFrom(t, start, i) == [];
    assert taken + [] == taken;
  }

  /** `extractStackTrace`: the block for the trigger at `startIndex`, joined with line feeds. */
  method ExtractStackTrace(lines: seq<string>, startIndex: nat) returns (trace: string)
    ensures trace == Implode(TraceBlock(lines, startIndex))
  {
    ghost var t := TrimAll(lines);
    ghost var block := TraceFrom(t, startIndex, startIndex);
    var traceLines: seq<string> := [];
    var stop := if startIndex + MaxTraceLines < |lines| then startIndex + MaxTraceLines else |lines|;
    var i := startIndex;
    while i < stop
      invariant startIndex <= i
      invariant traceLines + TraceFrom(t, startIndex, i) == block
      decreases stop - i
    {
      var line := Trim(lines[i]);
      TrimAllAt(lines, i);
      if IsEmptyPhp(line) {
        TraceEndsBlank(t, startIndex, i, traceLines, block);
        break;
      }
      if i > startIndex && Classifier.HasStampPrefix(line) {
        TraceEndsStamped(t, startIndex, i, traceLines, block);
        traceLines := traceLines + [line];
        break;
      }
      TraceGoesOn(t, startIndex, i, traceLines, block);
      traceLines := traceLines + [line];
      i := i + 1;
    }
    if i >= stop {
      TraceEndsLimit(t, startIndex, i, traceLines, block);
    }
    trace := Implode(traceLines);
  }

  /** Lines with no line feed in them are given back by splitting their trace. */
  lemma TraceLines(lines: seq<string>, start: nat)
    requires forall i :: 0 <= i < |lines| ==> '\n' !in lines[i]
    requires |TraceBlock(lines, start)| > 0
    ensures Explode(Implode(TraceBlock(lines, start))) == TraceBlock(lines, start)
  {
    var b := TraceBlock(lines, start);
    TraceBlockSpec(lines, start);
    forall k | 0 <= k < |b| ensures '\n' !in b[k] {
      TrimChars(lines[start + k]);
    }
    ExplodeImplode(b);
  }

  /** Length of the run of characters before the next line feed: `.+` then `$` with the `m` flag. */
  function LineRun(s: string): (n: nat)
    ensures n <= |s|
    ensures forall k :: 0 <= k < n ==> s[k] != '\n'
    ensures n < |s| ==> s[n] == '\n'
  {
    if |s| == 0 || s[0] == '\n' then 0 else 1 + LineRun(s[1..])
  }

  /**
   * Where `(.+)$` can start once `\s*` or `\s+` has taken `k` of the blanks
   * at `q`, giving blanks back one at a time down to `minWs`: the first start
   * that is not a line feed.
   */
  function CaptureStart(s: string, q: nat, k: nat, minWs: nat): (r: Option<nat>)
    requires q + k <= |s|
    requires forall m :: q <= m < q + k ==> IsSpace(s[m])
    ensures r.Some? ==> q + minWs <= r.value <= q + k && r.value < |s| && s[r.value] != '\n'
    ensures r.Some? ==> forall m :: q <= m < r.value ==> IsSpace(s[m])
    ensures r.Some? ==> forall m :: r.value < m < q + k ==> s[m] == '\n'
    ensures r.None? ==> forall m :: q + minWs <= m <= q + k && m < |s| ==> s[m] == '\n'
    decreases k
  {
    if k < minWs then None
    else if q + k < |s| && s[q + k] != '\n' then Some(q + k)
    else if k == minWs then None
    else CaptureStart(s, q, k - 1, minWs)
  }

  /** `\s*(.+)$` (`minWs` 0) or `\s+(.+)$` (`minWs` 1), multi-line, at position `q`: where the capture starts. */
  function CaptureAfter(s: string, q: nat, minWs: nat): (r: Option<nat>)
    requires q <= |s|
    ensures r.Some? ==> q + minWs <= r.value < |s| && s[r.value] != '\n'
    ensures r.Some? ==> forall m :: q <= m < r.value ==> IsSpace(s[m])
  {
    var w := SpaceRun(s[q..]);
    CaptureStart(s, q, w, minWs)
  }

  /** The captured text from `j`: the rest of that line. */
  function Capture(s: string, j: nat): (c: string)
    requires j < |s| && s[j] != '\n'
    ensures |c| > 0 && '\n' !in c
    ensures j + |c| <= |s| && c == s[j..j + |c|]
    ensures j + |c| == |s| || s[j + |c|] == '\n'
  {
    s[j..j + LineRun(s[j..])]
  }

  /**
   * Leftmost-first search, from `p` on, for `lit` followed by the blanks
   * and the captured line: the capture start of the first occurrence at
   * which the rest of the pattern matches.
   */
  function LabelCapture(s: string, lit: string, minWs: nat, p: nat): (r: Option<nat>)
    requires p <= |s|
    ensures r.Some? ==> r.value < |s| && s[r.value] != '\n'
    decreases |s| - p
  {
    if p + |lit| > |s| then None
    else if OccursAt(s, lit, p) && CaptureAfter(s, p + |lit|, minWs).Some? then CaptureAfter(s, p + |lit|, minWs)
    else if p == |s| then None
    else LabelCapture(s, lit, minWs, p + 1)
  }

  /**
   * The search finds the first occurrence of `lit`, from `p` on, after which
   * the rest of the pattern matches, and captures from there.
   */
  lemma {:induction false} LabelCaptureLeftmost(s: string, lit: string, minWs: nat, p: nat, pos: nat)
    requires p <= pos && OccursAt(s, lit, pos) && CaptureAfter(s, pos + |lit|, minWs).Some?
    requires forall k :: p <= k < pos && OccursAt(s, lit, k) ==> CaptureAfter(s, k + |lit|, minWs).None?
    ensures LabelCapture(s, lit, minWs, p) == CaptureAfter(s, pos + |lit|, minWs)
    decreases pos - p
  {
    if p < pos {
      LabelCaptureLeftmost(s, lit, minWs, p + 1, pos);
    }
  }

  /** With no occurrence of `lit` before `pos`, the search captures after the one at `pos`. */
  lemma {:induction false} LabelCaptureFirst(s: string, lit: string, minWs: nat, p: nat, pos: nat)
    requires p <= pos && OccursAt(s, lit, pos) && CaptureAfter(s, pos + |lit|, minWs).Some?
    requires forall k :: p <= k < pos ==> !OccursAt(s, lit, k)
    ensures LabelCapture(s, lit, minWs, p) == CaptureAfter(s, pos + |lit|, minWs)
    decreases pos - p
  {
    if p < pos {
      assert !OccursAt(s, lit, p);
      LabelCaptureFirst(s, lit, minWs, p + 1, pos);
    }
  }

  /** Where the rest of the pattern matches after no occurrence of `lit`, the search fails. */
  lemma {:induction false} LabelCaptureNone(s: string, lit: string, minWs: nat, p: nat)
    requires p <= |s|
    requires forall k :: p <= k <= |s| && OccursAt(s, lit, k) ==> CaptureAfter(s, k + |lit|, minWs).None?
    ensures LabelCapture(s, lit, minWs, p) == None
    decreases |s| - p
  {
    if p + |lit| <= |s| && p < |s| {
      LabelCaptureNone(s, lit, minWs, p + 1);
    }
  }

  const DescriptionLabel: string := "Error Description:"

  const ErrorLabel: string := "[error]"

  const UnknownError: string := "Unknown Error"

  /** The trimmed capture of the first match of `lit`, the blanks and `(.+)$`, if there is one. */
  function FirstCapture(trace: string, lit: string, minWs: nat): Option<string> {
    match LabelCapture(trace, lit, minWs, 0)
    case Some(j) => Some(Trim(Capture(trace, j)))
    case None => None
  }

  /**
   * The error type of a trace: the trimmed capture of the first
   * `Error Description:\s*(.+)$` (multi-line, case-sensitive), else of the
   * first `\[error\]\s+(.+)$`, else "Unknown Error".
   */
  function ErrorType(trace: string): string {
    match FirstCapture(trace, DescriptionLabel, 0)
    case Some(e) => e
    case None =>
      match FirstCapture(trace, ErrorLabel, 1)
      case Some(e) => e
      case None => UnknownError
  }

  lemma NoOccurrence(s: string, lit: string, minWs: nat)
    requires !Contains(s, lit)
    ensures FirstCapture(s, lit, minWs) == None
  {
    ContainsIff(s, lit);
    LabelCaptureNone(s, lit, minWs, 0);
  }

  /** A trace that holds neither label is of the unknown type. */
  lemma UnknownWithoutLabels(trace: string)
    requires !Contains(trace, DescriptionLabel) && !Contains(trace, ErrorLabel)
    ensures ErrorType(trace) == UnknownError
  {
    NoOccurrence(trace, DescriptionLabel, 0);
    NoOccurrence(trace, ErrorLabel, 1);
  }

  /** Blanks from `q` up to `j`, then a character that is not a blank. */
  predicate BlanksThenText(s: string, q: nat, j: nat) {
    q <= j < |s| && (forall m :: q <= m < j ==> IsSpace(s[m])) && !IsSpace(s[j])
  }

  /** Where the blanks at `q` end in text, `\s*` or `\s+` stops right there. */
  lemma CaptureAfterText(s: string, q: nat, j: nat, minWs: nat)
    requires BlanksThenText(s, q, j) && q + minWs <= j
    ensures CaptureAfter(s, q, minWs) == Some(j)
  {
    var w := SpaceRun(s[q..]);
    assert s[q..][j - q] == s[j];
    assert w < |s| - q ==> s[q..][w] == s[q + w];
  }

  lemma FirstCaptureAt(s: string, lit: string, minWs: nat, j: nat)
    requires LabelCapture(s, lit, minWs, 0) == Some(j)
    ensures j < |s| && s[j] != '\n' && FirstCapture(s, lit, minWs) == Some(Trim(Capture(s, j)))
  {
  }

  /**
   * When the first occurrence of `lit` is followed, after enough blanks, by
   * something other than blanks at `j`, the capture is the rest of that line
   * from `j`.
   */
  lemma FirstLabelText(s: string, lit: string, minWs: nat, pos: nat, j: nat)
    requires OccursAt(s, lit, pos)
    requires forall k :: 0 <= k < pos ==> !OccursAt(s, lit, k)
    requires BlanksThenText(s, pos + |lit|, j) && pos + |lit| + minWs <= j
    ensures FirstCapture(s, lit, minWs) == Some(Trim(Capture(s, j)))
  {
    CaptureAfterText(s, pos + |lit|, j, minWs);
    LabelCaptureFirst(s, lit, minWs, 0, pos);
    FirstCaptureAt(s, lit, minWs, j);
  }

  /**
   * When the first `Error Description:` is followed, after blanks, by
   * something other than blanks at `j`, the type is the rest of that line
   * from `j`, trimmed.
   */
  lemma DescriptionFirst(trace: string, pos: nat, j: nat)
    requires OccursAt(trace, DescriptionLabel, pos)
    requires forall k :: 0 <= k < pos ==> !OccursAt(trace, DescriptionLabel, k)
    requires BlanksThenText(trace, pos + |DescriptionLabel|, j)
    ensures ErrorType(trace) == Trim(Capture(trace, j))
  {
    FirstLabelText(trace, DescriptionLabel, 0, pos, j);
  }

  /**
   * Without any `Error Description:`, when the first `[error]` is followed by
   * at least one blank and then something other than blanks at `j`, the type
   * is the rest of that line from `j`, trimmed.
   */
  lemma ErrorTagSecond(trace: string, pos: nat, j: nat)
    requires !Contains(trace, DescriptionLabel)
    requires OccursAt(trace, ErrorLabel, pos)
    requires forall k :: 0 <= k < pos ==> !OccursAt(trace, ErrorLabel, k)
    requires BlanksThenText(trace, pos + |ErrorLabel|, j) && pos + |ErrorLabel| < j
    ensures ErrorType(trace) == Trim(Capture(trace, j))
  {
    NoOccurrence(trace, DescriptionLabel, 0);
    FirstLabelText(trace, ErrorLabel, 1, pos, j);
  }

  /** The count of an error type and the first trace seen with it. */
  datatype TraceGroup = TraceGroup(count: nat, example: string)

  function GroupSize(g: TraceGroup): nat { g.count }

  /** The count of a group entry, the sort key of the trace ranking. */
  function GroupCount(e: (string, TraceGroup)): nat { GroupSize(e.1) }

  /**
   * One trace of type `t` into the groups: a known type has its count bumped
   * in place, a new type is appended with count 1 and this trace as example.
   */
  function AddGroup(groups: seq<(string, TraceGroup)>, t: string, trace: string): seq<(string, TraceGroup)> {
    var f := Find(groups, t);
    if f < |groups| then groups[f := (t, TraceGroup(groups[f].1.count + 1, groups[f].1.example))]
    else groups + [(t, TraceGroup(1, trace))]
  }

  /** The groups after the foreach over `traces`, before sorting. */
  function GroupTraces(traces: seq<string>, typeOf: string -> string): seq<(string, TraceGroup)> {
    if |traces| == 0 then [] else AddGroup(GroupTraces(traces[..|traces| - 1], typeOf), typeOf(traces[|traces| - 1]), traces[|traces| - 1])
  }

  /** Number of traces of type `t`. */
  function TypeCount(traces: seq<string>, t: string, typeOf: string -> string): nat {
    if |traces| == 0 then 0
    else TypeCount(traces[..|traces| - 1], t, typeOf) + (if typeOf(traces[|traces| - 1]) == t then 1 else 0)
  }

  /** Position of the first trace of type `t`, or `|traces|` when there is none. */
  function FirstOfType(traces: seq<string>, t: string, typeOf: string -> string): (i: nat)
    ensures i <= |traces|
    ensures i < |traces| ==> typeOf(traces[i]) == t
    ensures forall k :: 0 <= k < i ==> typeOf(traces[k]) != t
  {
    if |traces| == 0 then 0
    else
      var i := FirstOfType(traces[..|traces| - 1], t, typeOf);
      if i < |traces| - 1 then i
      else if typeOf(traces[|traces| - 1]) == t then |traces| - 1
      else |traces|
  }

  /** A type that no trace has is never found and has count 0. */
  lemma {:induction false} TypeAbsent(traces: seq<string>, t: string, typeOf: string -> string)
    requires forall k :: 0 <= k < |traces| ==> typeOf(traces[k]) != t
    ensures FirstOfType(traces, t, typeOf) == |traces| && TypeCount(traces, t, typeOf) == 0
  {
    if |traces| > 0 {
      TypeAbsent(traces[..|traces| - 1], t, typeOf);
    }
  }

  /** Each group's type occurs among the traces, and its example is the first trace of that type. */
  ghost predicate FirstSeen(groups: seq<(string, TraceGroup)>, traces: seq<string>, typeOf: string -> string) {
    forall i :: 0 <= i < |groups| ==>
      FirstOfType(traces, groups[i].0, typeOf) < |traces| &&
      groups[i].1.example == traces[FirstOfType(traces, groups[i].0, typeOf)]
  }

  /** Each group's count is the number of traces of its type. */
  ghost predicate Counted(groups: seq<(string, TraceGroup)>, traces: seq<string>, typeOf: string -> string) {
    forall i :: 0 <= i < |groups| ==> groups[i].1.count == TypeCount(traces, groups[i].0, typeOf)
  }

  /** Every trace's type has a group. */
  ghost predicate Covers(groups: seq<(string, TraceGroup)>, traces: seq<string>, typeOf: string -> string) {
    forall k :: 0 <= k < |traces| ==> HasKey(groups, typeOf(traces[k]))
  }

  /** The groups stand in the order in which their types first appear. */
  ghost predicate InFirstOrder(groups: seq<(string, TraceGroup)>, traces: seq<string>, typeOf: string -> string) {
    forall i, j :: 0 <= i < j < |groups| ==>
      FirstOfType(traces, groups[i].0, typeOf) < FirstOfType(traces, groups[j].0, typeOf)
  }

  /**
   * What the groups say: one entry per type seen, with distinct keys, in
   * order of first appearance; each holds the number of traces of its type
   * and the first of them; the counts add up to the number of traces.
   */
  ghost predicate GroupsOf(groups: seq<(string, TraceGroup)>, traces: seq<string>, typeOf: string -> string) {
    && DistinctKeys(groups)
    && FirstSeen(groups, traces, typeOf)
    && Counted(groups, traces, typeOf)
    && Covers(groups, traces, typeOf)
    && InFirstOrder(groups, traces, typeOf)
    && SumOf(groups, GroupSize) == |traces|
  }

  /**
   * The body of the foreach in `aggregateStackTraces`: a group created with
   * count 0 when the type is not set yet, then a count increment. Together
   * they bump a known type in place or append a new type with count 1.
   */
  method CountTrace(groups: seq<(string, TraceGroup)>, errorType: string, trace: string) returns (aggregated: seq<(string, TraceGroup)>)
    ensures aggregated == AddGroup(groups, errorType, trace)
  {
    aggregated := groups;
    if !HasKey(aggregated, errorType) {
      aggregated := Put(aggregated, errorType, TraceGroup(0, trace));
      assert aggregated == groups + [(errorType, TraceGroup(0, trace))];
      assert Find(aggregated, errorType) == |groups|;
    }
    var g := Get(aggregated, errorType, TraceGroup(0, trace));
    aggregated := Put(aggregated, errorType, TraceGroup(g.count + 1, g.example));
  }

  /** The last trace leaves the position of the first trace of an already seen type alone. */
  lemma FirstOfTypeKept(s: seq<string>, t: string, typeOf: string -> string)
    requires |s| > 0 && FirstOfType(s[..|s| - 1], t, typeOf) < |s| - 1
    ensures FirstOfType(s, t, typeOf) == FirstOfType(s[..|s| - 1], t, typeOf)
    ensures s[FirstOfType(s, t, typeOf)] == s[..|s| - 1][FirstOfType(s, t, typeOf)]
  {
  }

  lemma KnownFirstSeen(groups: seq<(string, TraceGroup)>, s: seq<string>, typeOf: string -> string, r: seq<(string, TraceGroup)>)
    requires |s| > 0 && FirstSeen(groups, s[..|s| - 1], typeOf) && InFirstOrder(groups, s[..|s| - 1], typeOf)
    requires |r| == |groups| && forall i :: 0 <= i < |r| ==> r[i].0 == groups[i].0 && r[i].1.example == groups[i].1.example
    ensures FirstSeen(r, s, typeOf) && InFirstOrder(r, s, typeOf)
  {
    forall i | 0 <= i < |r|
      ensures FirstOfType(s, r[i].0, typeOf) == FirstOfType(s[..|s| - 1], groups[i].0, typeOf)
      ensures s[FirstOfType(s, r[i].0, typeOf)] == s[..|s| - 1][FirstOfType(s[..|s| - 1], groups[i].0, typeOf)]
    {
      FirstOfTypeKept(s, groups[i].0, typeOf);
    }
  }

  lemma KnownCounted(groups: seq<(string, TraceGroup)>, s: seq<string>, typeOf: string -> string, f: nat)
    requires |s| > 0 && DistinctKeys(groups) && Counted(groups, s[..|s| - 1], typeOf)
    requires f < |groups| && groups[f].0 == typeOf(s[|s| - 1])
    ensures Counted(groups[f := (typeOf(s[|s| - 1]), TraceGroup(groups[f].1.count + 1, groups[f].1.example))], s, typeOf)
  {
  }

  lemma KnownCovers(groups: seq<(string, TraceGroup)>, s: seq<string>, typeOf: string -> string, r: seq<(string, TraceGroup)>)
    requires |s| > 0 && Covers(groups, s[..|s| - 1], typeOf) && HasKey(groups, typeOf(s[|s| - 1]))
    requires |r| == |groups| && forall i :: 0 <= i < |r| ==> r[i].0 == groups[i].0
    ensures Covers(r, s, typeOf)
  {
    forall k | 0 <= k < |s| ensures HasKey(r, typeOf(s[k])) {
      var x := typeOf(s[k]);
      if k < |s| - 1 {
        assert s[..|s| - 1][k] == s[k];
      }
      HasKeyIff(groups, x);
      var i :| 0 <= i < |groups| && groups[i].0 == x;
      HasKeyIff(r, x);
    }
  }

  /** Bumping the count of the group of the last trace's type keeps the groups exact. */
  lemma KnownStep(groups: seq<(string, TraceGroup)>, s: seq<string>, typeOf: string -> string, f: nat)
    requires |s| > 0 && GroupsOf(groups, s[..|s| - 1], typeOf)
    requires f < |groups| && groups[f].0 == typeOf(s[|s| - 1])
    ensures GroupsOf(groups[f := (typeOf(s[|s| - 1]), TraceGroup(groups[f].1.count + 1, groups[f].1.example))], s, typeOf)
  {
    var e := (typeOf(s[|s| - 1]), TraceGroup(groups[f].1.count + 1, groups[f].1.example));
    var r := groups[f := e];
    assert HasKey(groups, typeOf(s[|s| - 1])) by {
      HasKeyIff(groups, typeOf(s[|s| - 1]));
    }
    KnownFirstSeen(groups, s, typeOf, r);
    KnownCounted(groups, s, typeOf, f);
    KnownCovers(groups, s, typeOf, r);
    SumUpdate(groups, f, e, GroupSize);
  }

  lemma NewFirstSeen(groups: seq<(string, TraceGroup)>, s: seq<string>, typeOf: string -> string)
    requires |s| > 0 && FirstSeen(groups, s[..|s| - 1], typeOf) && InFirstOrder(groups, s[..|s| - 1], typeOf)
    requires FirstOfType(s[..|s| - 1], typeOf(s[|s| - 1]), typeOf) == |s| - 1
    ensures var r := groups + [(typeOf(s[|s| - 1]), TraceGroup(1, s[|s| - 1]))];
      FirstSeen(r, s, typeOf) && InFirstOrder(r, s, typeOf)
  {
    var r := groups + [(typeOf(s[|s| - 1]), TraceGroup(1, s[|s| - 1]))];
    assert FirstOfType(s, typeOf(s[|s| - 1]), typeOf) == |s| - 1;
    forall i | 0 <= i < |groups|
      ensures FirstOfType(s, r[i].0, typeOf) == FirstOfType(s[..|s| - 1], groups[i].0, typeOf)
      ensures s[FirstOfType(s, r[i].0, typeOf)] == s[..|s| - 1][FirstOfType(s[..|s| - 1], groups[i].0, typeOf)]
    {
      FirstOfTypeKept(s, groups[i].0, typeOf);
    }
  }

  lemma NewCounted(groups: seq<(string, TraceGroup)>, s: seq<string>, typeOf: string -> string)
    requires |s| > 0 && Counted(groups, s[..|s| - 1], typeOf) && !HasKey(groups, typeOf(s[|s| - 1]))
    requires TypeCount(s[..|s| - 1], typeOf(s[|s| - 1]), typeOf) == 0
    ensures Counted(groups + [(typeOf(s[|s| - 1]), TraceGroup(1, s[|s| - 1]))], s, typeOf)
  {
    HasKeyIff(groups, typeOf(s[|s| - 1]));
  }

  lemma NewCovers(groups: seq<(string, TraceGroup)>, s: seq<string>, typeOf: string -> string)
    requires |s| > 0 && Covers(groups, s[..|s| - 1], typeOf)
    ensures Covers(groups + [(typeOf(s[|s| - 1]), TraceGroup(1, s[|s| - 1]))], s, typeOf)
  {
    var r := groups + [(typeOf(s[|s| - 1]), TraceGroup(1, s[|s| - 1]))];
    forall k | 0 <= k < |s| ensures HasKey(r, typeOf(s[k])) {
      var x := typeOf(s[k]);
      HasKeyIff(r, x);
      if k < |s| - 1 {
        assert s[..|s| - 1][k] == s[k];
        HasKeyIff(groups, x);
        var i :| 0 <= i < |groups| && groups[i].0 == x;
        assert r[i].0 == x;
      } else {
        assert r[|groups|].0 == x;
      }
    }
  }

  /** A group for a type not seen before, appended with count 1, keeps the groups exact. */
  lemma NewStep(groups: seq<(string, TraceGroup)>, s: seq<string>, typeOf: string -> string)
    requires |s| > 0 && GroupsOf(groups, s[..|s| - 1], typeOf) && !HasKey(groups, typeOf(s[|s| - 1]))
    ensures GroupsOf(groups + [(typeOf(s[|s| - 1]), TraceGroup(1, s[|s| - 1]))], s, typeOf)
  {
    var init := s[..|s| - 1];
    var t := typeOf(s[|s| - 1]);
    var r := groups + [(t, TraceGroup(1, s[|s| - 1]))];
    forall k | 0 <= k < |init| ensures typeOf(init[k]) != t {
      assert HasKey(groups, typeOf(init[k]));
    }
    TypeAbsent(init, t, typeOf);
    NewFirstSeen(groups, s, typeOf);
    NewCounted(groups, s, typeOf);
    NewCovers(groups, s, typeOf);
    assert DistinctKeys(r) by {
      HasKeyIff(groups, t);
    }
    assert r[..|groups|] == groups;
  }

  /**
   * Before sorting, the groups have one entry per error type seen, in order
   * of first appearance; each holds the number of traces of its type and the
   * first of them; the counts add up to the number of traces.
   */
  lemma {:induction false} GroupTracesSpec(traces: seq<string>, typeOf: string -> string)
    ensures GroupsOf(GroupTraces(traces, typeOf), traces, typeOf)
  {
    if |traces| > 0 {
      var init, last := traces[..|traces| - 1], traces[|traces| - 1];
      GroupTracesSpec(init, typeOf);
      var g := GroupTraces(init, typeOf);
      var f := Find(g, typeOf(last));
      if f < |g| {
        assert GroupTraces(traces, typeOf) == g[f := (typeOf(last), TraceGroup(g[f].1.count + 1, g[f].1.example))];
        KnownStep(g, traces, typeOf, f);
      } else {
        assert GroupTraces(traces, typeOf) == g + [(typeOf(last), TraceGroup(1, last))];
        NewStep(g, traces, typeOf);
      }
    }
  }

  /**
   * `aggregateStackTraces`: the groups stable-sorted by count, largest
   * first, cut to the first 20.
   */
  method AggregateStackTraces(traces: seq<string>) returns (top: seq<(string, TraceGroup)>)
    ensures top == Take(SortDesc(GroupTraces(traces, ErrorType), GroupCount), MaxTraceGroups)
    ensures |top| <= MaxTraceGroups && SortedDesc(top, GroupCount)
    ensures forall i :: 0 <= i < |top| ==> top[i] in GroupTraces(traces, ErrorType)
  {
    var aggregated: seq<(string, TraceGroup)> := [];
    for i := 0 to |traces|
      invariant aggregated == GroupTraces(traces[..i], ErrorType)
    {
      var trace := traces[i];
      var errorType := ErrorType(trace);
      assert traces[..i + 1][..i] == traces[..i];
      aggregated := CountTrace(aggregated, errorType, trace);
    }
    assert traces[..|traces|] == traces;
    top := Take(SortDesc(aggregated, GroupCount), MaxTraceGroups);
    TopOfSort(aggregated, GroupCount, MaxTraceGroups);
  }
}
