/**
 * Message normalisation (LogAnalyzer.php `extractMessage`): three global
 * `preg_replace` passes, a cut to 200 bytes and `trim`. Each pass scans its
 * subject from left to right: where a match starts, the match is replaced and
 * the scan resumes right after it; elsewhere one byte is copied. Word
 * boundaries `\b` look at the subject of the pass, so a scan carries whether
 * the byte before the current position is `\w`.
 */
module Normalizer {
  import opened Wrappers
  import opened Text

  /**
   * What a pass does at the front of the rest of its subject, given whether
   * the byte before it is `\w`: the text to emit and the number of bytes used.
   */
  type Step = (string, bool) -> (string, nat)

  /** A step uses at least one byte and no more than there are. */
  ghost predicate Consumes(step: Step) {
    forall s, w :: |s| > 0 ==> 1 <= step(s, w).1 <= |s|
  }

  /** A global `preg_replace`: apply `step` at the front, continue after the bytes it used. */
  function GlobalReplace(step: Step, s: string, afterWord: bool): string
    requires Consumes(step)
    decreases |s|
  {
    if |s| == 0 then []
    else
      var next := step(s, afterWord);
      next.0 + GlobalReplace(step, s[next.1..], IsWord(s[next.1 - 1]))
  }

  predicate IsQuote(c: char) { c == '"' || c == '\'' }

  /** Length of the greedy `[^"']*` at the front of `s`. */
  function NonQuoteRun(s: string): (n: nat)
    ensures n <= |s|
    ensures forall i :: 0 <= i < n ==> !IsQuote(s[i])
    ensures n < |s| ==> IsQuote(s[n])
  {
    if |s| == 0 || IsQuote(s[0]) then 0 else 1 + NonQuoteRun(s[1..])
  }

  /** `["']([^"']+)["']` at the start of `s`: the length of the match. */
  function QuotedAt(s: string): (r: Option<nat>)
    ensures r.Some? ==> 3 <= r.value <= |s| && IsQuote(s[0]) && IsQuote(s[r.value - 1])
    ensures r.Some? ==> forall i :: 1 <= i < r.value - 1 ==> !IsQuote(s[i])
  {
    if |s| == 0 || !IsQuote(s[0]) then None
    else
      var n := NonQuoteRun(s[1..]);
      if n > 0 && 1 + n < |s| then Some(n + 2) else None
  }

  function QuoteStep(s: string, afterWord: bool): (r: (string, nat))
    ensures |s| > 0 ==> 1 <= r.1 <= |s|
  {
    if |s| == 0 then ([], 0)
    else if QuotedAt(s).Some? then ("...", QuotedAt(s).value)
    else ([s[0]], 1)
  }

  /** `preg_replace('/["\']([^"\']+)["\']/', '...', $s)`. */
  function ReplaceQuotes(s: string): string {
    GlobalReplace(QuoteStep, s, false)
  }

  /** `\d+\.\d+\b` at the start of `s` (the leading `\b` is the caller's): the length of the match. */
  function DecimalAt(s: string): (r: Option<nat>)
    ensures r.Some? ==> 3 <= r.value <= |s| && IsDigit(s[r.value - 1])
    ensures r.Some? ==> r.value == |s| || !IsWord(s[r.value])
  {
    var a := DigitRun(s);
    if a == 0 || a + 1 >= |s| || s[a] != '.' then None
    else
      var b := DigitRun(s[a + 1..]);
      var k := a + 1 + b;
      if b > 0 && (k == |s| || !IsWord(s[k])) then Some(k) else None
  }

  /** A `\d+\.\d+\b` match is tried only where `\b` holds before it, that is after a non-word byte. */
  function DecimalStep(s: string, afterWord: bool): (r: (string, nat))
    ensures |s| > 0 ==> 1 <= r.1 <= |s|
  {
    if |s| == 0 then ([], 0)
    else if !afterWord && DecimalAt(s).Some? then ("X.X", DecimalAt(s).value)
    else ([s[0]], 1)
  }

  /** `preg_replace('/\b\d+\.\d+\b/', 'X.X', $s)`; `afterWord` is false at the start of the subject. */
  function ReplaceDecimals(s: string, afterWord: bool): string {
    GlobalReplace(DecimalStep, s, afterWord)
  }

  /** `\d+\b` at the start of `s` (the leading `\b` is the caller's): the length of the match. */
  function IntegerAt(s: string): (r: Option<nat>)
    ensures r.Some? ==> 1 <= r.value <= |s| && (r.value == |s| || !IsWord(s[r.value]))
  {
    var a := DigitRun(s);
    if a > 0 && (a == |s| || !IsWord(s[a])) then Some(a) else None
  }

  function IntegerStep(s: string, afterWord: bool): (r: (string, nat))
    ensures |s| > 0 ==> 1 <= r.1 <= |s|
  {
    if |s| == 0 then ([], 0)
    else if !afterWord && IntegerAt(s).Some? then ("X", IntegerAt(s).value)
    else ([s[0]], 1)
  }

  /** `preg_replace('/\b\d+\b/', 'X', $s)`, with `afterWord` as for `ReplaceDecimals`. */
  function ReplaceIntegers(s: string, afterWord: bool): string {
    GlobalReplace(IntegerStep, s, afterWord)
  }

  /** The most bytes of a normalised message that are kept. */
  const MaxMessageLength: nat := 200

  /** The three replacement passes, in their order. */
  function Passes(message: string): string {
    ReplaceIntegers(ReplaceDecimals(ReplaceQuotes(message), false), false)
  }

  /**
   * `extractMessage`: quoted runs become `...`, decimals `X.X`, standalone
   * integers `X`; the result is cut to 200 bytes and trimmed.
   */
  function ExtractMessage(message: string): (key: string)
    ensures |key| <= MaxMessageLength
    ensures key == [] || (!IsTrimChar(key[0]) && !IsTrimChar(key[|key| - 1]))
  {
    Trim(Prefix(Passes(message), MaxMessageLength))
  }

  // ---------------------------------------------------------------------
  // The scanner

  /** Sequence concatenation regrouped, kept apart from the larger proofs so their contexts stay small. */
  lemma AppendAssoc(a: string, b: string, c: string)
    ensures a + (b + c) == (a + b) + c
  {
  }

  predicate AllDigits(d: string) { forall i :: 0 <= i < |d| ==> IsDigit(d[i]) }

  /** Two non-empty digit runs: the one a message holds and the one it is compared with. */
  predicate DigitRuns(d1: string, d2: string) {
    |d1| > 0 && AllDigits(d1) && |d2| > 0 && AllDigits(d2)
  }

  /** Text before a digit run where `\b` holds: empty, or ending with a non-word byte. */
  predicate OpenEnd(p: string) { |p| == 0 || !IsWord(p[|p| - 1]) }

  /** Text after a digit run where `\b` holds: empty, or starting with a non-word byte. */
  predicate OpenStart(t: string) { |t| == 0 || !IsWord(t[0]) }

  /** Whether the byte before what is left is `\w`, once a scan that started with `w` has used `p`. */
  function WordBefore(p: string, w: bool): bool {
    if |p| == 0 then w else IsWord(p[|p| - 1])
  }

  /**
   * At the front of `q + (d1 + t)` and of `q + (d2 + t)` the step does the
   * same: either it stays inside `q`, using as many bytes and emitting text
   * that ends with a non-word byte when it uses all of `q`; or it emits the
   * same text, takes in the whole digit run and stops at the same byte of `t`.
   */
  ghost predicate StepAgrees(step: Step, q: string, d1: string, d2: string, t: string, w: bool) {
    var r1, r2 := step(q + (d1 + t), w), step(q + (d2 + t), w);
    || (r1 == r2 && r1.1 <= |q| && (r1.1 == |q| ==> |r1.0| > 0 && !IsWord(r1.0[|r1.0| - 1])))
    || (r1.0 == r2.0 && |q| + |d1| <= r1.1 && r1.1 - |d1| == r2.1 - |d2|)
  }

  /** The step agrees at every position of `p`. */
  ghost predicate StepsAgree(step: Step, p: string, d1: string, d2: string, t: string) {
    forall i, w {:trigger StepAgrees(step, p[i..], d1, d2, t, w)} ::
      0 <= i < |p| ==> StepAgrees(step, p[i..], d1, d2, t, w)
  }

  lemma StepsAgreeSuffix(step: Step, p: string, d1: string, d2: string, t: string, k: nat)
    requires StepsAgree(step, p, d1, d2, t) && k <= |p|
    ensures StepsAgree(step, p[k..], d1, d2, t)
  {
    forall i, w | 0 <= i < |p| - k ensures StepAgrees(step, p[k..][i..], d1, d2, t, w) {
      assert p[k..][i..] == p[k + i..];
    }
  }

  /** One step over `q + u` that stays inside `q`, and the pass over what is left. */
  lemma StepInside(step: Step, q: string, u: string, w: bool)
    requires Consumes(step) && |q| > 0 && step(q + u, w).1 <= |q|
    ensures var k := step(q + u, w).1;
      GlobalReplace(step, q + u, w) == step(q + u, w).0 + GlobalReplace(step, q[k..] + u, IsWord(q[k - 1]))
  {
    var k := step(q + u, w).1;
    assert (q + u)[k..] == q[k..] + u;
    assert (q + u)[k - 1] == q[k - 1];
  }

  /** One step over `q + (d + t)` that takes in `q` and the digit run `d`, and the pass over the rest of `t` from `j` on. */
  lemma StepAcross(step: Step, q: string, d: string, t: string, w: bool) returns (j: nat)
    requires Consumes(step) && |d| > 0 && AllDigits(d)
    requires |q| + |d| <= step(q + (d + t), w).1
    ensures |q| + |d| + j == step(q + (d + t), w).1 && j <= |t|
    ensures GlobalReplace(step, q + (d + t), w)
         == step(q + (d + t), w).0 + GlobalReplace(step, t[j..], j == 0 || IsWord(t[j - 1]))
  {
    var s := q + (d + t);
    var k := step(s, w).1;
    j := k - |q| - |d|;
    assert s[k..] == t[j..];
    if j == 0 {
      assert s[k - 1] == d[|d| - 1];
    } else {
      assert s[k - 1] == t[j - 1];
    }
  }

  lemma ScanFirst(step: Step, p: string, d1: string, d2: string, t: string, w: bool)
    requires StepsAgree(step, p, d1, d2, t) && |p| > 0
    ensures StepAgrees(step, p, d1, d2, t, w)
  {
    assert p[0..] == p;
    assert StepAgrees(step, p[0..], d1, d2, t, w);
  }

  /** The first step takes in the digit run: both passes go on alike from the same byte of `t`. */
  lemma ScanAcross(step: Step, p: string, d1: string, d2: string, t: string, w: bool)
    requires Consumes(step) && DigitRuns(d1, d2) && StepAgrees(step, p, d1, d2, t, w)
    requires |p| + |d1| <= step(p + (d1 + t), w).1
    ensures GlobalReplace(step, p + (d1 + t), w) == GlobalReplace(step, p + (d2 + t), w)
  {
    var j1 := StepAcross(step, p, d1, t, w);
    var j2 := StepAcross(step, p, d2, t, w);
    assert j1 == j2;
  }

  /** The first step stays inside `p`: it emits `o` for the first `k` bytes of `p`. */
  lemma ScanInside(step: Step, p: string, d1: string, d2: string, t: string, w: bool)
    returns (o: string, k: nat)
    requires Consumes(step) && |p| > 0 && StepAgrees(step, p, d1, d2, t, w)
    requires step(p + (d1 + t), w).1 < |p| + |d1|
    ensures 1 <= k <= |p|
    ensures GlobalReplace(step, p + (d1 + t), w) == o + GlobalReplace(step, p[k..] + (d1 + t), IsWord(p[k - 1]))
    ensures GlobalReplace(step, p + (d2 + t), w) == o + GlobalReplace(step, p[k..] + (d2 + t), IsWord(p[k - 1]))
    ensures k == |p| ==> |o| > 0 && !IsWord(o[|o| - 1])
    ensures k == |p| ==> GlobalReplace(step, p + (d1 + t), w) == o + GlobalReplace(step, d1 + t, WordBefore(p, w))
    ensures k == |p| ==> GlobalReplace(step, p + (d2 + t), w) == o + GlobalReplace(step, d2 + t, WordBefore(p, w))
  {
    o, k := step(p + (d1 + t), w).0, step(p + (d1 + t), w).1;
    StepInside(step, p, d1 + t, w);
    StepInside(step, p, d2 + t, w);
    if k == |p| {
      EmptyRest(p, k, d1 + t);
      EmptyRest(p, k, d2 + t);
    }
  }

  lemma EmptyFront(p: string, u: string)
    requires |p| == 0
    ensures p + u == u
  {
  }

  lemma EmptyRest(p: string, k: nat, u: string)
    requires k == |p|
    ensures p[k..] + u == u
  {
  }

  /**
   * A pass over `p + (d1 + t)` and over `p + (d2 + t)`, when the step agrees
   * all along `p`: either both passes give the same text (`same`), or both
   * emit `a` for `p` and then go on over the digit run, `a` ending with a
   * non-word byte.
   */
  lemma {:induction false} ScanToRun(step: Step, p: string, d1: string, d2: string, t: string, w: bool)
    returns (same: bool, a: string)
    requires Consumes(step) && DigitRuns(d1, d2) && StepsAgree(step, p, d1, d2, t)
    ensures same ==> GlobalReplace(step, p + (d1 + t), w) == GlobalReplace(step, p + (d2 + t), w)
    ensures !same ==> GlobalReplace(step, p + (d1 + t), w) == a + GlobalReplace(step, d1 + t, WordBefore(p, w))
    ensures !same ==> GlobalReplace(step, p + (d2 + t), w) == a + GlobalReplace(step, d2 + t, WordBefore(p, w))
    ensures !same ==> (|p| > 0 ==> |a| > 0) && OpenEnd(a)
    decreases |p|, 1
  {
    if |p| == 0 {
      EmptyFront(p, d1 + t);
      EmptyFront(p, d2 + t);
      return false, [];
    }
    ScanFirst(step, p, d1, d2, t, w);
    if |p| + |d1| <= step(p + (d1 + t), w).1 {
      ScanAcross(step, p, d1, d2, t, w);
      return true, [];
    }
    var o, k := ScanInside(step, p, d1, d2, t, w);
    if k == |p| {
      return false, o;
    }
    same, a := ScanRest(step, p, d1, d2, t, w, o, k);
  }

  /** `ScanToRun` once the first step has emitted `o` for the first `k` bytes of `p`. */
  lemma {:induction false} ScanRest(step: Step, p: string, d1: string, d2: string, t: string, w: bool, o: string, k: nat)
    returns (same: bool, a: string)
    requires Consumes(step) && DigitRuns(d1, d2) && StepsAgree(step, p, d1, d2, t) && 0 < k < |p|
    requires GlobalReplace(step, p + (d1 + t), w) == o + GlobalReplace(step, p[k..] + (d1 + t), IsWord(p[k - 1]))
    requires GlobalReplace(step, p + (d2 + t), w) == o + GlobalReplace(step, p[k..] + (d2 + t), IsWord(p[k - 1]))
    ensures same ==> GlobalReplace(step, p + (d1 + t), w) == GlobalReplace(step, p + (d2 + t), w)
    ensures !same ==> GlobalReplace(step, p + (d1 + t), w) == a + GlobalReplace(step, d1 + t, WordBefore(p, w))
    ensures !same ==> GlobalReplace(step, p + (d2 + t), w) == a + GlobalReplace(step, d2 + t, WordBefore(p, w))
    ensures !same ==> (|p| > 0 ==> |a| > 0) && OpenEnd(a)
    decreases |p|, 0
  {
    var q := p[k..];
    StepsAgreeSuffix(step, p, d1, d2, t, k);
    assert q[|q| - 1] == p[|p| - 1];
    var a';
    same, a' := ScanToRun(step, q, d1, d2, t, IsWord(p[k - 1]));
    a := o + a';
    if !same {
      AppendAssoc(o, a', GlobalReplace(step, d1 + t, WordBefore(p, w)));
      AppendAssoc(o, a', GlobalReplace(step, d2 + t, WordBefore(p, w)));
    }
  }

  // ---------------------------------------------------------------------
  // Quoted runs

  /** The quote pattern has no `\b`: the quote pass does not depend on the byte before it. */
  lemma {:induction false} QuotesIgnoreWord(s: string, w: bool)
    ensures GlobalReplace(QuoteStep, s, w) == ReplaceQuotes(s)
    decreases |s|
  {
    if |s| > 0 {
      var k := QuoteStep(s, w).1;
      QuotesIgnoreWord(s[k..], IsWord(s[k - 1]));
      QuotesIgnoreWord(s[k..], false);
    }
  }

  /** A prefix without quotes passes through the quote pass unchanged. */
  lemma {:induction false} QuotesSkipPlain(p: string, u: string)
    requires forall i :: 0 <= i < |p| ==> !IsQuote(p[i])
    ensures ReplaceQuotes(p + u) == p + ReplaceQuotes(u)
  {
    if |p| > 0 {
      var s := p + u;
      assert s[1..] == p[1..] + u;
      assert QuoteStep(s, false) == ([p[0]], 1);
      assert ReplaceQuotes(s) == [p[0]] + GlobalReplace(QuoteStep, s[1..], IsWord(p[0]));
      QuotesIgnoreWord(s[1..], IsWord(p[0]));
      QuotesSkipPlain(p[1..], u);
      AppendAssoc([p[0]], p[1..], ReplaceQuotes(u));
      assert p == [p[0]] + p[1..];
    } else {
      assert p + u == u;
    }
  }

  /** A non-empty quote-free run between two quotes collapses to `...`, whatever it holds. */
  lemma QuotedRunCollapses(q1: char, c: string, q2: char, t: string)
    requires IsQuote(q1) && IsQuote(q2)
    requires |c| > 0 && forall i :: 0 <= i < |c| ==> !IsQuote(c[i])
    ensures ReplaceQuotes([q1] + c + [q2] + t) == "..." + ReplaceQuotes(t)
  {
    var s := [q1] + c + [q2] + t;
    assert s[1..] == c + [q2] + t;
    assert s[1..][|c|] == q2;
    var n := NonQuoteRun(s[1..]);
    assert n == |c|;
    assert QuoteStep(s, false) == ("...", |c| + 2);
    assert s[|c| + 2..] == t;
  }

  /**
   * The quote pass settles every quote it stands on inside `p`: each one
   * either starts a match that ends inside `p` or is followed at once by
   * another quote, so no match can reach past the end of `p`.
   */
  predicate QuoteClosed(p: string)
    decreases |p|
  {
    if |p| == 0 then true
    else if QuotedAt(p).Some? then QuoteClosed(p[QuotedAt(p).value..])
    else if IsQuote(p[0]) then |p| >= 2 && IsQuote(p[1]) && QuoteClosed(p[1..])
    else QuoteClosed(p[1..])
  }

  lemma {:induction false} NonQuoteRunLocal(x: string, u: string)
    requires NonQuoteRun(x) < |x|
    ensures NonQuoteRun(x + u) == NonQuoteRun(x)
  {
    if !IsQuote(x[0]) {
      assert (x + u)[1..] == x[1..] + u;
      NonQuoteRunLocal(x[1..], u);
    }
  }

  /** Where the scan settles a quote inside `p`, the quote pattern answers the same with `u` behind `p`. */
  lemma QuotedAtLocal(p: string, u: string)
    requires |p| > 0
    requires QuotedAt(p).Some? || !IsQuote(p[0]) || (|p| >= 2 && IsQuote(p[1]))
    ensures QuotedAt(p + u) == QuotedAt(p)
  {
    if IsQuote(p[0]) {
      assert (p + u)[1..] == p[1..] + u;
      NonQuoteRunLocal(p[1..], u);
    }
  }

  /** One step of the quote pass, then the pass over what is left. */
  lemma QuotesUnfold(s: string)
    requires |s| > 0
    ensures ReplaceQuotes(s) == QuoteStep(s, false).0 + ReplaceQuotes(s[QuoteStep(s, false).1..])
  {
    var k := QuoteStep(s, false).1;
    QuotesIgnoreWord(s[k..], IsWord(s[k - 1]));
  }

  /** On a closed `p` the first quote step sees only `p`, and leaves a closed rest. */
  lemma QuoteStepLocal(p: string, u: string)
    requires |p| > 0 && QuoteClosed(p)
    ensures QuoteStep(p + u, false) == QuoteStep(p, false)
    ensures QuoteClosed(p[QuoteStep(p, false).1..])
  {
    QuotedAtLocal(p, u);
  }

  /** One step of the quote pass over a closed `p`, with or without `u` behind it. */
  lemma QuotesSplitStep(p: string, u: string) returns (out: string, k: nat)
    requires |p| > 0 && QuoteClosed(p)
    ensures 1 <= k <= |p| && QuoteClosed(p[k..])
    ensures ReplaceQuotes(p) == out + ReplaceQuotes(p[k..])
    ensures ReplaceQuotes(p + u) == out + ReplaceQuotes(p[k..] + u)
  {
    out, k := QuoteStep(p, false).0, QuoteStep(p, false).1;
    QuoteStepLocal(p, u);
    QuotesUnfold(p);
    QuotesUnfold(p + u);
    assert (p + u)[k..] == p[k..] + u;
  }

  /** The quote pass over `p + u` is the pass over `p` followed by the pass over `u`, when `p` is closed. */
  lemma {:induction false} QuotesSplit(p: string, u: string)
    requires QuoteClosed(p)
    ensures ReplaceQuotes(p + u) == ReplaceQuotes(p) + ReplaceQuotes(u)
    decreases |p|
  {
    if |p| == 0 {
      assert p + u == u;
    } else {
      var out, k := QuotesSplitStep(p, u);
      QuotesSplit(p[k..], u);
      AppendAssoc(out, ReplaceQuotes(p[k..]), ReplaceQuotes(u));
    }
  }

  lemma {:induction false} QuoteFreeClosed(p: string)
    requires forall i :: 0 <= i < |p| ==> !IsQuote(p[i])
    ensures QuoteClosed(p)
    decreases |p|
  {
    if |p| > 0 {
      QuoteFreeClosed(p[1..]);
    }
  }

  /** The quote pattern matches a non-empty quote-free run between two quotes, quotes included. */
  lemma QuotedAtRun(q1: char, c: string, q2: char, t: string)
    requires IsQuote(q1) && IsQuote(q2)
    requires |c| > 0 && forall i :: 0 <= i < |c| ==> !IsQuote(c[i])
    ensures QuotedAt([q1] + c + [q2] + t).Some? && QuotedAt([q1] + c + [q2] + t).value == |c| + 2
  {
    var s := [q1] + c + [q2] + t;
    assert s[1..] == c + [q2] + t;
    assert s[1..][|c|] == q2;
    assert NonQuoteRun(s[1..]) == |c|;
  }

  lemma QuotedRunClosed(q1: char, c: string, q2: char)
    requires IsQuote(q1) && IsQuote(q2)
    requires |c| > 0 && forall i :: 0 <= i < |c| ==> !IsQuote(c[i])
    ensures QuoteClosed([q1] + c + [q2])
  {
    var s := [q1] + c + [q2];
    QuotedAtRun(q1, c, q2, []);
    assert s + [] == s;
    assert s[|c| + 2..] == [];
  }

  lemma {:induction false} QuoteClosedAppend(a: string, b: string)
    requires QuoteClosed(a) && QuoteClosed(b)
    ensures QuoteClosed(a + b)
    decreases |a|
  {
    if |a| == 0 {
      assert a + b == b;
    } else {
      QuotedAtLocal(a, b);
      var k := if QuotedAt(a).Some? then QuotedAt(a).value else 1;
      assert (a + b)[k..] == a[k..] + b;
      QuoteClosedAppend(a[k..], b);
      if QuotedAt(a).None? && IsQuote(a[0]) {
        assert (a + b)[1] == a[1];
      }
    }
  }

  /** After a closed prefix, a quoted run goes through the quote pass as `...`. */
  lemma QuotedRunAfter(p: string, q1: char, c: string, q2: char, t: string)
    requires QuoteClosed(p)
    requires IsQuote(q1) && IsQuote(q2)
    requires |c| > 0 && forall i :: 0 <= i < |c| ==> !IsQuote(c[i])
    ensures ReplaceQuotes(p + [q1] + c + [q2] + t) == ReplaceQuotes(p) + ("..." + ReplaceQuotes(t))
  {
    QuotedRunRegroup(p, q1, c, q2, t);
    QuotesSplit(p, [q1] + c + [q2] + t);
    QuotedRunCollapses(q1, c, q2, t);
  }

  lemma QuotedRunRegroup(p: string, q1: char, c: string, q2: char, t: string)
    ensures p + [q1] + c + [q2] + t == p + ([q1] + c + [q2] + t)
  {
  }

  /**
   * Two messages that differ only in the text between one pair of quotes
   * get the same key, when the quote pass closes within the text before
   * the pair.
   */
  lemma QuotedTextIgnored(p: string, q1: char, c1: string, c2: string, q2: char, t: string)
    requires QuoteClosed(p)
    requires IsQuote(q1) && IsQuote(q2)
    requires |c1| > 0 && forall i :: 0 <= i < |c1| ==> !IsQuote(c1[i])
    requires |c2| > 0 && forall i :: 0 <= i < |c2| ==> !IsQuote(c2[i])
    ensures ExtractMessage(p + [q1] + c1 + [q2] + t) == ExtractMessage(p + [q1] + c2 + [q2] + t)
  {
    QuotedRunAfter(p, q1, c1, q2, t);
    QuotedRunAfter(p, q1, c2, q2, t);
  }

  // ---------------------------------------------------------------------
  // Number tokens

  /** The digit run of `p + u` stops inside `p` when `p` ends with a non-digit. */
  lemma {:induction false} DigitRunLocal(p: string, u: string)
    requires |p| > 0 && !IsDigit(p[|p| - 1])
    ensures DigitRun(p + u) == DigitRun(p) < |p|
  {
    if IsDigit(p[0]) {
      DigitRunLocal(p[1..], u);
      assert (p + u)[1..] == p[1..] + u;
    }
  }

  lemma {:induction false} DigitRunExact(d: string, r: string)
    requires AllDigits(d)
    requires r == [] || !IsDigit(r[0])
    ensures DigitRun(d + r) == |d|
  {
    if |d| > 0 {
      DigitRunExact(d[1..], r);
      assert (d + r)[1..] == d[1..] + r;
    } else {
      assert d + r == r;
    }
  }

  /** `q` is `\d+\.`: a decimal match at its front reads on past its end. */
  predicate DotAfterDigits(q: string) {
    0 < DigitRun(q) && DigitRun(q) + 1 == |q| && q[|q| - 1] == '.'
  }

  /** A decimal match at the front of `p + u` lies inside `p` when `p` ends with a non-digit and is not `\d+\.`. */
  lemma DecimalAtLocal(p: string, u: string)
    requires |p| > 0 && !IsDigit(p[|p| - 1]) && !DotAfterDigits(p)
    ensures DecimalAt(p + u) == DecimalAt(p)
    ensures DecimalAt(p).Some? ==> DecimalAt(p).value < |p|
  {
    DigitRunLocal(p, u);
    var a := DigitRun(p);
    if a > 0 && a + 1 < |p| && p[a] == '.' {
      assert (p + u)[a + 1..] == p[a + 1..] + u;
      DigitRunLocal(p[a + 1..], u);
    }
  }

  /** The steps of `DecimalAt` once both digit runs and what follows them are known. */
  lemma DecimalAtSteps(s: string, a: nat, b: nat)
    requires 0 < a && a + 1 < |s| && DigitRun(s) == a && s[a] == '.'
    requires 0 < b && DigitRun(s[a + 1..]) == b
    requires a + 1 + b == |s| || !IsWord(s[a + 1 + b])
    ensures DecimalAt(s).Some? && DecimalAt(s).value == a + 1 + b
  {
  }

  /** After `\d+\.`, a digit run that ends where `\b` holds completes a decimal match. */
  lemma DecimalAtAcross(q: string, d: string, t: string)
    requires DotAfterDigits(q) && |d| > 0 && AllDigits(d) && OpenStart(t)
    ensures DecimalAt(q + (d + t)).Some? && DecimalAt(q + (d + t)).value == |q| + |d|
  {
    var s := q + (d + t);
    DigitRunLocal(q, d + t);
    DigitRunExact(d, t);
    assert s[|q|..] == d + t;
    assert s[|q| - 1] == '.';
    if t != [] {
      assert s[|q| + |d|] == t[0];
    }
    DecimalAtSteps(s, |q| - 1, |d|);
  }

  /** An integer match at the front of `p + u` lies inside `p` when `p` ends with a non-digit. */
  lemma IntegerAtLocal(p: string, u: string)
    requires |p| > 0 && !IsDigit(p[|p| - 1])
    ensures IntegerAt(p + u) == IntegerAt(p)
    ensures IntegerAt(p).Some? ==> IntegerAt(p).value < |p|
  {
    DigitRunLocal(p, u);
  }

  /** The `[^"']*` run over quote-free text `x` goes on into what follows it. */
  lemma {:induction false} NonQuoteRunPlain(x: string, u: string)
    requires forall i :: 0 <= i < |x| ==> !IsQuote(x[i])
    ensures NonQuoteRun(x + u) == |x| + NonQuoteRun(u)
    decreases |x|
  {
    if |x| == 0 {
      assert x + u == u;
    } else {
      assert (x + u)[1..] == x[1..] + u;
      NonQuoteRunPlain(x[1..], u);
    }
  }

  /** A quote that opens a run in `q` which reaches the end of `q` reads on over the digits. */
  lemma QuotedAtOver(q: string, d: string, t: string)
    requires |q| > 0 && IsQuote(q[0]) && NonQuoteRun(q[1..]) == |q| - 1 && |d| > 0 && AllDigits(d)
    ensures NonQuoteRun(t) < |t| ==> QuotedAt(q + (d + t)).Some? && QuotedAt(q + (d + t)).value == |q| + |d| + NonQuoteRun(t) + 1
    ensures NonQuoteRun(t) == |t| ==> QuotedAt(q + (d + t)).None?
  {
    var s, x := q + (d + t), q[1..];
    FrontAndRest(q, d + t);
    NonQuoteRunOver(x, d, t);
    QuotedAtRunLength(s, |x| + |d| + NonQuoteRun(t));
  }

  lemma FrontAndRest(q: string, u: string)
    requires |q| > 0
    ensures (q + u)[0] == q[0] && (q + u)[1..] == q[1..] + u
  {
  }

  /** The `[^"']*` run from inside quote-free `x` over digits `d` into `t`. */
  lemma NonQuoteRunOver(x: string, d: string, t: string)
    requires forall i :: 0 <= i < |x| ==> !IsQuote(x[i])
    requires AllDigits(d)
    ensures NonQuoteRun(x + (d + t)) == |x| + |d| + NonQuoteRun(t)
  {
    assert forall i :: 0 <= i < |d| ==> !IsQuote(d[i]);
    NonQuoteRunPlain(x, d + t);
    NonQuoteRunPlain(d, t);
  }

  /** `QuotedAt` read off the length of the quote-free run after the opening quote. */
  lemma QuotedAtRunLength(s: string, n: nat)
    requires |s| > 0 && IsQuote(s[0]) && NonQuoteRun(s[1..]) == n
    ensures n > 0 && 1 + n < |s| ==> QuotedAt(s).Some? && QuotedAt(s).value == n + 2
    ensures !(n > 0 && 1 + n < |s|) ==> QuotedAt(s).None?
  {
  }

  /** The quote step where a quote run that opens in `q` also closes in `q`, or `q` starts with no quote. */
  lemma QuoteStepWithin(q: string, d1: string, d2: string, t: string, w: bool)
    requires |q| > 0 && !IsWord(q[|q| - 1])
    requires !IsQuote(q[0]) || NonQuoteRun(q[1..]) < |q| - 1
    ensures StepAgrees(QuoteStep, q, d1, d2, t, w)
  {
    if IsQuote(q[0]) && NonQuoteRun(q[1..]) == 0 {
      assert q[1..][0] == q[1];
    }
    QuotedAtLocal(q, d1 + t);
    QuotedAtLocal(q, d2 + t);
  }

  /** The quote step where a quote run opens in `q` and is still open at its end. */
  lemma QuoteStepOver(q: string, d1: string, d2: string, t: string, w: bool)
    requires |q| > 0 && !IsWord(q[|q| - 1]) && DigitRuns(d1, d2)
    requires IsQuote(q[0]) && NonQuoteRun(q[1..]) == |q| - 1
    ensures StepAgrees(QuoteStep, q, d1, d2, t, w)
  {
    QuotedAtOver(q, d1, t);
    QuotedAtOver(q, d2, t);
  }

  /**
   * The quote pass agrees before a digit run: a quoted run that opens in
   * `q` either closes in `q` or reads over the digits, which are not quotes.
   */
  lemma QuoteStepAgrees(q: string, d1: string, d2: string, t: string, w: bool)
    requires |q| > 0 && !IsWord(q[|q| - 1]) && DigitRuns(d1, d2)
    ensures StepAgrees(QuoteStep, q, d1, d2, t, w)
  {
    if !IsQuote(q[0]) || NonQuoteRun(q[1..]) < |q| - 1 {
      QuoteStepWithin(q, d1, d2, t, w);
    } else {
      QuoteStepOver(q, d1, d2, t, w);
    }
  }

  /**
   * The decimal pass agrees before a digit run: a match stays in `q`, or
   * `q` is `\d+\.` and the match takes the whole run as its fraction.
   */
  lemma DecimalStepAgrees(q: string, d1: string, d2: string, t: string, w: bool)
    requires |q| > 0 && !IsWord(q[|q| - 1]) && DigitRuns(d1, d2) && OpenStart(t)
    ensures StepAgrees(DecimalStep, q, d1, d2, t, w)
  {
    if !w {
      if DotAfterDigits(q) {
        DecimalAtAcross(q, d1, t);
        DecimalAtAcross(q, d2, t);
      } else {
        DecimalAtLocal(q, d1 + t);
        DecimalAtLocal(q, d2 + t);
      }
    }
  }

  /** The integer pass agrees before a digit run: a match never leaves `q`. */
  lemma IntegerStepAgrees(q: string, d1: string, d2: string, t: string, w: bool)
    requires |q| > 0 && !IsWord(q[|q| - 1])
    ensures StepAgrees(IntegerStep, q, d1, d2, t, w)
  {
    IntegerAtLocal(q, d1 + t);
    IntegerAtLocal(q, d2 + t);
  }

  lemma QuoteStepsAgree(p: string, d1: string, d2: string, t: string)
    requires OpenEnd(p) && DigitRuns(d1, d2)
    ensures StepsAgree(QuoteStep, p, d1, d2, t)
  {
    forall i, w | 0 <= i < |p| ensures StepAgrees(QuoteStep, p[i..], d1, d2, t, w) {
      assert p[i..][|p| - i - 1] == p[|p| - 1];
      QuoteStepAgrees(p[i..], d1, d2, t, w);
    }
  }

  lemma DecimalStepsAgree(p: string, d1: string, d2: string, t: string)
    requires OpenEnd(p) && DigitRuns(d1, d2) && OpenStart(t)
    ensures StepsAgree(DecimalStep, p, d1, d2, t)
  {
    forall i, w | 0 <= i < |p| ensures StepAgrees(DecimalStep, p[i..], d1, d2, t, w) {
      assert p[i..][|p| - i - 1] == p[|p| - 1];
      DecimalStepAgrees(p[i..], d1, d2, t, w);
    }
  }

  lemma IntegerStepsAgree(p: string, d1: string, d2: string, t: string)
    requires OpenEnd(p)
    ensures StepsAgree(IntegerStep, p, d1, d2, t)
  {
    forall i, w | 0 <= i < |p| ensures StepAgrees(IntegerStep, p[i..], d1, d2, t, w) {
      assert p[i..][|p| - i - 1] == p[|p| - 1];
      IntegerStepAgrees(p[i..], d1, d2, t, w);
    }
  }

  /** Digits go through the quote pass as they are. */
  lemma QuotesOverRun(d: string, t: string, w: bool)
    requires AllDigits(d)
    ensures GlobalReplace(QuoteStep, d + t, w) == d + ReplaceQuotes(t)
  {
    QuotesIgnoreWord(d + t, w);
    QuotesSkipPlain(d, t);
  }

  /** The quote pass starts its output with the same first byte or with `...`, so a non-word start stays one. */
  lemma QuotesOpenStart(t: string)
    requires OpenStart(t)
    ensures OpenStart(ReplaceQuotes(t))
  {
    if |t| > 0 {
      var o := QuoteStep(t, false).0;
      assert o == "..." || o == [t[0]];
      assert ReplaceQuotes(t)[0] == o[0];
    }
  }

  /** `\.\d+\b` at the start of `t`: the length of the fraction a digit run right before `t` takes. */
  ghost function FractionAt(t: string): Option<nat> {
    if |t| >= 2 && t[0] == '.' && DigitRun(t[1..]) > 0
       && (1 + DigitRun(t[1..]) == |t| || !IsWord(t[1 + DigitRun(t[1..])]))
    then Some(1 + DigitRun(t[1..]))
    else None
  }

  /** Whether a decimal match starts at a digit run depends only on what follows the run. */
  lemma DecimalAtRun(d: string, t: string)
    requires |d| > 0 && AllDigits(d) && OpenStart(t)
    ensures FractionAt(t).Some? ==> DecimalAt(d + t).Some? && DecimalAt(d + t).value == |d| + FractionAt(t).value
    ensures FractionAt(t).None? ==> DecimalAt(d + t).None?
  {
    DigitRunExact(d, t);
    var s := d + t;
    assert s[|d|..] == t;
    if |t| >= 2 {
      assert s[|d| + 1..] == t[1..];
    }
  }

  /** A decimal match at a digit run emits `X.X` and resumes after a digit. */
  lemma DecimalMatchRest(d: string, t: string)
    requires |d| > 0 && AllDigits(d) && FractionAt(t).Some?
    requires DecimalAt(d + t).Some? && DecimalAt(d + t).value == |d| + FractionAt(t).value
    ensures ReplaceDecimals(d + t, false) == "X.X" + ReplaceDecimals(t[FractionAt(t).value..], true)
  {
    var f := FractionAt(t).value;
    var s := d + t;
    assert s[|d| + f..] == t[f..];
  }

  /** Without a decimal match at a digit run, the decimal pass copies the run. */
  lemma DecimalsCopyRun(d: string, r: string)
    requires |d| > 0 && AllDigits(d) && DecimalAt(d + r).None?
    ensures ReplaceDecimals(d + r, false) == d + ReplaceDecimals(r, true)
  {
    assert DecimalStep(d + r, false) == ([d[0]], 1);
    assert (d + r)[1..] == d[1..] + r;
    DecimalsSkipDigits(d[1..], r);
    assert d == [d[0]] + d[1..];
  }

  /** After a word byte the decimal pass copies digits unchanged. */
  lemma {:induction false} DecimalsSkipDigits(d: string, r: string)
    requires AllDigits(d)
    ensures ReplaceDecimals(d + r, true) == d + ReplaceDecimals(r, true)
  {
    if |d| > 0 {
      DecimalsSkipDigits(d[1..], r);
      assert (d + r)[1..] == d[1..] + r;
      assert DecimalStep(d + r, true) == ([d[0]], 1);
      assert d == [d[0]] + d[1..];
    } else {
      assert d + r == r;
    }
  }

  /**
   * The decimal pass at a digit run that follows a non-word byte: it reads
   * both runs the same way, or copies each and goes on after a word byte.
   */
  lemma DecimalsOverRun(d1: string, d2: string, t: string) returns (same: bool)
    requires DigitRuns(d1, d2) && OpenStart(t)
    ensures same ==> ReplaceDecimals(d1 + t, false) == ReplaceDecimals(d2 + t, false)
    ensures !same ==> ReplaceDecimals(d1 + t, false) == d1 + ReplaceDecimals(t, true)
    ensures !same ==> ReplaceDecimals(d2 + t, false) == d2 + ReplaceDecimals(t, true)
  {
    DecimalAtRun(d1, t);
    DecimalAtRun(d2, t);
    same := FractionAt(t).Some?;
    if same {
      DecimalMatchRest(d1, t);
      DecimalMatchRest(d2, t);
    } else {
      DecimalsCopyRun(d1, t);
      DecimalsCopyRun(d2, t);
    }
  }

  /** A decimal pass over text that does not start with a digit starts with the same byte. */
  lemma DecimalsFirst(r: string, w: bool)
    requires |r| > 0 && !IsDigit(r[0])
    ensures |ReplaceDecimals(r, w)| > 0 && ReplaceDecimals(r, w)[0] == r[0]
  {
    assert DecimalStep(r, w) == ([r[0]], 1);
  }

  /** A standalone digit run becomes `X` in the integer pass. */
  lemma IntegersReplaceToken(d: string, r: string)
    requires |d| > 0 && AllDigits(d)
    requires r == [] || !IsWord(r[0])
    ensures ReplaceIntegers(d + r, false) == "X" + ReplaceIntegers(r, true)
  {
    DigitRunExact(d, r);
    assert IntegerStep(d + r, false) == ("X", |d|);
    assert (d + r)[|d|..] == r;
  }

  /** The integer pass over `b + (d + r)` gives the same text for both digit runs. */
  lemma IntegersIgnoreRun(b: string, d1: string, d2: string, r: string)
    requires OpenEnd(b) && OpenStart(r) && DigitRuns(d1, d2)
    ensures ReplaceIntegers(b + (d1 + r), false) == ReplaceIntegers(b + (d2 + r), false)
  {
    IntegerStepsAgree(b, d1, d2, r);
    var same, c := ScanToRun(IntegerStep, b, d1, d2, r, false);
    if !same {
      IntegersReplaceToken(d1, r);
      IntegersReplaceToken(d2, r);
    }
  }

  /** The decimal and integer passes over `a + (d + r)` give the same text for both digit runs. */
  lemma NumberPassesIgnoreRun(a: string, d1: string, d2: string, r: string)
    requires OpenEnd(a) && OpenStart(r) && DigitRuns(d1, d2)
    ensures ReplaceIntegers(ReplaceDecimals(a + (d1 + r), false), false)
         == ReplaceIntegers(ReplaceDecimals(a + (d2 + r), false), false)
  {
    DecimalStepsAgree(a, d1, d2, r);
    var same, b := ScanToRun(DecimalStep, a, d1, d2, r, false);
    if !same {
      var copied := DecimalsOverRun(d1, d2, r);
      if !copied {
        var r' := ReplaceDecimals(r, true);
        if r != [] {
          DecimalsFirst(r, true);
        }
        IntegersIgnoreRun(b, d1, d2, r');
      }
    }
  }

  /**
   * Swapping a digit run that stands between non-word bytes (or the ends of
   * the message) for another leaves the three passes with the same text:
   * the quote pass copies digits or swallows them into the same `...`, the
   * decimal pass reads them into the same `X.X` or copies them, and the
   * integer pass turns what is left into `X`.
   */
  lemma DigitRunIgnored(p: string, d1: string, d2: string, t: string)
    requires OpenEnd(p) && OpenStart(t) && DigitRuns(d1, d2)
    ensures Passes(p + (d1 + t)) == Passes(p + (d2 + t))
  {
    QuoteStepsAgree(p, d1, d2, t);
    var same, a := ScanToRun(QuoteStep, p, d1, d2, t, false);
    if !same {
      QuotesOverRun(d1, t, WordBefore(p, false));
      QuotesOverRun(d2, t, WordBefore(p, false));
      QuotesOpenStart(t);
      NumberPassesIgnoreRun(a, d1, d2, ReplaceQuotes(t));
    }
  }

  /**
   * Two messages that differ only in one standalone integer get the same
   * key: the digit runs must be preceded and followed by a non-word byte or
   * an end of the message, as `\b\d+\b` demands.
   */
  lemma IntegerTextIgnored(p: string, d1: string, d2: string, t: string)
    requires p == [] || !IsWord(p[|p| - 1])
    requires t == [] || !IsWord(t[0])
    requires |d1| > 0 && AllDigits(d1) && |d2| > 0 && AllDigits(d2)
    ensures ExtractMessage(p + d1 + t) == ExtractMessage(p + d2 + t)
  {
    AppendAssoc(p, d1, t);
    AppendAssoc(p, d2, t);
    DigitRunIgnored(p, d1, d2, t);
  }

  lemma DecimalRegroup(p: string, d: string, e: string, t: string)
    ensures p + d + "." + e + t == p + (d + ("." + e + t))
    ensures p + d + "." + e + t == (p + d + ".") + (e + t)
  {
  }

  /**
   * Two messages that differ only in one standalone decimal get the same
   * key, with the same condition on the bytes around it.
   */
  lemma DecimalTextIgnored(p: string, d1: string, e1: string, d2: string, e2: string, t: string)
    requires p == [] || !IsWord(p[|p| - 1])
    requires t == [] || !IsWord(t[0])
    requires |d1| > 0 && AllDigits(d1) && |e1| > 0 && AllDigits(e1)
    requires |d2| > 0 && AllDigits(d2) && |e2| > 0 && AllDigits(e2)
    ensures ExtractMessage(p + d1 + "." + e1 + t) == ExtractMessage(p + d2 + "." + e2 + t)
  {
    DecimalRegroup(p, d1, e1, t);
    DecimalRegroup(p, d2, e1, t);
    DecimalRegroup(p, d2, e2, t);
    DigitRunIgnored(p, d1, d2, "." + e1 + t);
    var p' := p + d2 + ".";
    assert p'[|p'| - 1] == '.';
    DigitRunIgnored(p', e1, e2, t);
  }

  /**
   * Two messages that differ both in the text of one quoted run and in one
   * standalone integer after it get the same key.
   */
  lemma QuotedNameAndCountIgnored(a: string, q1: char, c1: string, c2: string, q2: char,
                                  b: string, d1: string, d2: string, t: string)
    requires QuoteClosed(a) && IsQuote(q1) && IsQuote(q2)
    requires |c1| > 0 && forall i :: 0 <= i < |c1| ==> !IsQuote(c1[i])
    requires |c2| > 0 && forall i :: 0 <= i < |c2| ==> !IsQuote(c2[i])
    requires b == [] || !IsWord(b[|b| - 1])
    requires t == [] || !IsWord(t[0])
    requires |d1| > 0 && AllDigits(d1) && |d2| > 0 && AllDigits(d2)
    ensures ExtractMessage(a + [q1] + c1 + [q2] + b + d1 + t)
         == ExtractMessage(a + [q1] + c2 + [q2] + b + d2 + t)
  {
    var x1, x2 := a + [q1] + c1 + [q2], a + [q1] + c2 + [q2];
    var u := b + d1 + t;
    assert x1 + b + d1 + t == x1 + u by {
      CountRegroup(x1, b, d1, t);
    }
    assert x2 + b + d1 + t == x2 + u by {
      CountRegroup(x2, b, d1, t);
    }
    QuotedTextIgnored(a, q1, c1, c2, q2, u);
    QuoteThenOpenEnd(x2, q2, b);
    IntegerTextIgnored(x2 + b, d1, d2, t);
  }

  lemma CountRegroup(x: string, b: string, d: string, t: string)
    ensures x + (b + d + t) == x + b + d + t
  {
  }

  /** Text that ends with a quote and then `b` ends with a non-word byte when `b` does or is empty. */
  lemma QuoteThenOpenEnd(x: string, q: char, b: string)
    requires |x| > 0 && x[|x| - 1] == q && IsQuote(q)
    requires b == [] || !IsWord(b[|b| - 1])
    ensures var p := x + b; p == [] || !IsWord(p[|p| - 1])
  {
    var p := x + b;
    if b == [] {
      assert p == x;
    } else {
      assert p[|p| - 1] == b[|b| - 1];
    }
  }

  lemma PickupAlice(a: string, b: string, t: string)
    requires a == "Player " && b == " picked up " && t == " gold"
    ensures a + ['\''] + "Alice" + ['\''] + b + "5" + t == "Player 'Alice' picked up 5 gold"
  {
  }

  lemma PickupBob(a: string, b: string, t: string)
    requires a == "Player " && b == " picked up " && t == " gold"
    ensures a + ['\''] + "Bob" + ['\''] + b + "12" + t == "Player 'Bob' picked up 12 gold"
  {
  }

  lemma PickupText(a: string, b: string, t: string)
    requires a == "Player " && b == " picked up " && t == " gold"
    ensures forall i :: 0 <= i < |a| ==> !IsQuote(a[i])
    ensures !IsWord(b[|b| - 1]) && !IsWord(t[0])
  {
  }

  lemma PickupWords(c1: string, c2: string, d1: string, d2: string)
    requires c1 == "Alice" && c2 == "Bob" && d1 == "5" && d2 == "12"
    ensures forall i :: 0 <= i < |c1| ==> !IsQuote(c1[i])
    ensures forall i :: 0 <= i < |c2| ==> !IsQuote(c2[i])
    ensures AllDigits(d1) && AllDigits(d2)
  {
  }

  /** "Player 'Alice' picked up 5 gold" and "Player 'Bob' picked up 12 gold" share their key. */
  lemma PickupMessagesShareKey()
    ensures ExtractMessage("Player 'Alice' picked up 5 gold") == ExtractMessage("Player 'Bob' picked up 12 gold")
  {
    var a, b, t := "Player ", " picked up ", " gold";
    PickupAlice(a, b, t);
    PickupBob(a, b, t);
    PickupText(a, b, t);
    QuoteFreeClosed(a);
    PickupWords("Alice", "Bob", "5", "12");
    QuotedNameAndCountIgnored(a, '\'', "Alice", "Bob", '\'', b, "5", "12", t);
  }

  /** A count before a full stop is a standalone integer: "Failed after 3." and "Failed after 12." share their key. */
  lemma FailedAfterShareKey()
    ensures ExtractMessage("Failed after 3.") == ExtractMessage("Failed after 12.")
  {
    var p, t := "Failed after ", ".";
    assert p + "3" + t == "Failed after 3.";
    assert p + "12" + t == "Failed after 12.";
    IntegerTextIgnored(p, "3", "12", t);
  }

  /** A count followed by an ellipsis is a standalone integer: "Retrying in 5..." and "Retrying in 12..." share their key. */
  lemma RetryingShareKey()
    ensures ExtractMessage("Retrying in 5...") == ExtractMessage("Retrying in 12...")
  {
    var p, t := "Retrying in ", "...";
    assert p + "5" + t == "Retrying in 5...";
    assert p + "12" + t == "Retrying in 12...";
    IntegerTextIgnored(p, "5", "12", t);
  }

  /** An unpaired quote before a count does not stop it being replaced. */
  lemma ScoreMessagesShareKey()
    ensures ExtractMessage("Player's score 5") == ExtractMessage("Player's score 12")
  {
    var p, t := "Player's score ", "";
    assert p + "5" + t == "Player's score 5";
    assert p + "12" + t == "Player's score 12";
    IntegerTextIgnored(p, "5", "12", t);
  }

  lemma {:induction false} DecimalsNoDigits(s: string, w: bool)
    requires forall i :: 0 <= i < |s| ==> !IsDigit(s[i])
    ensures ReplaceDecimals(s, w) == s
  {
    if |s| > 0 {
      assert DigitRun(s) == 0;
      assert DecimalStep(s, w) == ([s[0]], 1);
      DecimalsNoDigits(s[1..], IsWord(s[0]));
      assert s == [s[0]] + s[1..];
    }
  }

  lemma {:induction false} IntegersNoDigits(s: string, w: bool)
    requires forall i :: 0 <= i < |s| ==> !IsDigit(s[i])
    ensures ReplaceIntegers(s, w) == s
  {
    if |s| > 0 {
      assert DigitRun(s) == 0;
      assert IntegerStep(s, w) == ([s[0]], 1);
      IntegersNoDigits(s[1..], IsWord(s[0]));
      assert s == [s[0]] + s[1..];
    }
  }

  lemma TrimKeeps(s: string)
    requires |s| > 0 && !IsTrimChar(s[0]) && !IsTrimChar(s[|s| - 1])
    ensures Trim(s) == s
  {
    assert LeadingTrim(s) == 0;
    assert s[0..] == s;
    assert TrailingTrim(s) == 0;
  }

  lemma DoubledQuotes(q: char, c: string)
    requires IsQuote(q) && |c| > 0 && forall i :: 0 <= i < |c| ==> !IsQuote(c[i])
    ensures ReplaceQuotes([q, q] + c + [q, q]) == [q] + "..." + [q]
  {
    var s := [q, q] + c + [q, q];
    assert NonQuoteRun(s[1..]) == 0;
    assert QuoteStep(s, false) == ([q], 1);
    assert ReplaceQuotes(s) == [q] + ReplaceQuotes(s[1..]);
    assert s[1..] == [q] + c + [q] + [q];
    QuotedRunCollapses(q, c, q, [q]);
    var t := [q];
    assert NonQuoteRun(t[1..]) == 0;
    assert QuoteStep(t, false) == ([q], 1);
    assert t[1..] == [];
    assert GlobalReplace(QuoteStep, t[1..], IsWord(q)) == [];
    assert ReplaceQuotes(t) == [q];
  }

  /** When the quote pass leaves a short text without digits or blank ends, that text is the key. */
  lemma KeyAfterQuotes(x: string, m: string)
    requires ReplaceQuotes(x) == m && 0 < |m| <= MaxMessageLength
    requires forall i :: 0 <= i < |m| ==> !IsDigit(m[i])
    requires !IsTrimChar(m[0]) && !IsTrimChar(m[|m| - 1])
    ensures ExtractMessage(x) == m
  {
    DecimalsNoDigits(m, false);
    IntegersNoDigits(m, false);
    TrimKeeps(m);
  }

  /** A quoted ellipsis collapses to a bare ellipsis. */
  lemma QuotedEllipsisKey(q: char)
    requires IsQuote(q)
    ensures ExtractMessage([q] + "..." + [q]) == "..."
  {
    var m := [q] + "..." + [q];
    assert m == [q] + "..." + [q] + [];
    QuotedRunCollapses(q, "...", q, []);
    assert ReplaceQuotes([]) == [];
    KeyAfterQuotes(m, "...");
  }

  /**
   * The key is not a fixed point: a quoted run wrapped in a second pair of
   * quotes leaves a quoted ellipsis, which a second pass collapses again.
   */
  lemma NotIdempotent(q: char, c: string)
    requires IsQuote(q) && |c| > 0 && forall i :: 0 <= i < |c| ==> !IsQuote(c[i])
    ensures ExtractMessage([q, q] + c + [q, q]) == [q] + "..." + [q]
    ensures ExtractMessage(ExtractMessage([q, q] + c + [q, q])) == "..."
  {
    DoubledQuotes(q, c);
    KeyAfterQuotes([q, q] + c + [q, q], [q] + "..." + [q]);
    QuotedEllipsisKey(q);
  }
}
