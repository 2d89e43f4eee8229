/**
 * Byte-string helpers with the meaning of the PHP built-ins and the PCRE
 * character classes that the analyzer relies on. A `char` stands for one
 * byte; case mapping is ASCII only, as in PHP 8.
 */
module Text {

  /** PCRE `\d`. */
  predicate IsDigit(c: char) { '0' <= c <= '9' }

  predicate IsLetter(c: char) { 'a' <= c <= 'z' || 'A' <= c <= 'Z' }

  /** PCRE `\w` without the `u` flag: ASCII letters, digits and the underscore. */
  predicate IsWord(c: char) { IsDigit(c) || IsLetter(c) || c == '_' }

  /** PCRE `\s`: horizontal tab, line feed, vertical tab, form feed, carriage return, space. */
  predicate IsSpace(c: char) { c == ' ' || '\t' <= c <= '\r' }

  /** The bytes PHP's `trim` strips by default: space, tab, line feed, carriage return, NUL, vertical tab. */
  predicate IsTrimChar(c: char) {
    c == ' ' || c == '\t' || c == '\n' || c == '\r' || c == '\0' || c == '\U{B}'
  }

  /** PHP `empty()` on a string: true for "" and for "0". */
  predicate IsEmptyPhp(s: string) { s == "" || s == "0" }

  /** Length of the greedy `\d*` at the front of `s`. */
  function DigitRun(s: string): (n: nat)
    ensures n <= |s|
    ensures forall i :: 0 <= i < n ==> IsDigit(s[i])
    ensures n < |s| ==> !IsDigit(s[n])
  {
    if |s| == 0 || !IsDigit(s[0]) then 0 else 1 + DigitRun(s[1..])
  }

  /** Length of the greedy `\s*` at the front of `s`. */
  function SpaceRun(s: string): (n: nat)
    ensures n <= |s|
    ensures forall i :: 0 <= i < n ==> IsSpace(s[i])
    ensures n < |s| ==> !IsSpace(s[n])
  {
    if |s| == 0 || !IsSpace(s[0]) then 0 else 1 + SpaceRun(s[1..])
  }

  /** Number of trim characters at the front of `s`. */
  function LeadingTrim(s: string): (n: nat)
    ensures n <= |s|
    ensures forall i :: 0 <= i < n ==> IsTrimChar(s[i])
    ensures n < |s| ==> !IsTrimChar(s[n])
  {
    if |s| == 0 || !IsTrimChar(s[0]) then 0 else 1 + LeadingTrim(s[1..])
  }

  /** Number of trim characters at the back of `s`. */
  function TrailingTrim(s: string): (n: nat)
    ensures n <= |s|
    ensures forall i :: |s| - n <= i < |s| ==> IsTrimChar(s[i])
    ensures n < |s| ==> !IsTrimChar(s[|s| - 1 - n])
  {
    if |s| == 0 || !IsTrimChar(s[|s| - 1]) then 0 else 1 + TrailingTrim(s[..|s| - 1])
  }

  /** PHP `trim($s)`: `s` without the trim characters at either end. */
  function Trim(s: string): (r: string)
    ensures |r| <= |s|
    ensures r == [] || (!IsTrimChar(r[0]) && !IsTrimChar(r[|r| - 1]))
  {
    var a := LeadingTrim(s);
    if a == |s| then []
    else
      var t := TrailingTrim(s[a..]);
      assert t < |s| - a;
      s[a..|s| - t]
  }

  /** What `trim` removes are trim characters at the two ends; what it keeps is an infix of `s`. */
  lemma TrimInfix(s: string)
    ensures exists a, b :: 0 <= a <= b <= |s| && Trim(s) == s[a..b]
              && (forall i :: 0 <= i < a ==> IsTrimChar(s[i]))
              && (forall i :: b <= i < |s| ==> IsTrimChar(s[i]))
  {
    var a := LeadingTrim(s);
    if a == |s| {
      assert Trim(s) == s[a..a];
    } else {
      var t := TrailingTrim(s[a..]);
      assert t < |s| - a;
      assert forall i :: |s| - t <= i < |s| ==> s[i] == s[a..][i - a];
      assert Trim(s) == s[a..|s| - t];
    }
  }

  /** `trim` adds no character. */
  lemma TrimChars(s: string)
    ensures forall c :: c in Trim(s) ==> c in s
  {
    TrimInfix(s);
    var a, b :| 0 <= a <= b <= |s| && Trim(s) == s[a..b];
    assert forall k :: 0 <= k < b - a ==> s[a..b][k] == s[a + k];
  }

  /** PHP `substr($s, 0, $n)` for `$n >= 0`: the first `n` bytes, or all of `s` when it is shorter. */
  function Prefix(s: string, n: nat): (r: string)
    ensures |r| == if |s| <= n then |s| else n
    ensures r == s[..|r|]
  {
    if |s| <= n then s else s[..n]
  }

  function LowerChar(c: char): char {
    if 'A' <= c <= 'Z' then (c as int + 32) as char else c
  }

  function UpperChar(c: char): char {
    if 'a' <= c <= 'z' then (c as int - 32) as char else c
  }

  /** PHP 8 `strtolower`: ASCII letters only. */
  function ToLower(s: string): (r: string)
    ensures |r| == |s|
    ensures forall i :: 0 <= i < |s| ==> r[i] == LowerChar(s[i])
  {
    if |s| == 0 then [] else [LowerChar(s[0])] + ToLower(s[1..])
  }

  /** PHP 8 `strtoupper`: ASCII letters only. */
  function ToUpper(s: string): (r: string)
    ensures |r| == |s|
    ensures forall i :: 0 <= i < |s| ==> r[i] == UpperChar(s[i])
  {
    if |s| == 0 then [] else [UpperChar(s[0])] + ToUpper(s[1..])
  }

  /** Upper-casing ignores how a word was cased before. */
  lemma UpperOfLower(s: string)
    ensures ToUpper(ToLower(s)) == ToUpper(s)
  {
    var l := ToLower(s);
    assert forall i :: 0 <= i < |s| ==> UpperChar(l[i]) == UpperChar(s[i]);
  }

  predicate StartsWith(s: string, p: string) {
    |p| <= |s| && s[..|p|] == p
  }

  /** `strpos($s, $sub) !== false`. */
  predicate Contains(s: string, sub: string)
    decreases |s|
  {
    StartsWith(s, sub) || (|s| > 0 && Contains(s[1..], sub))
  }

  /** `sub` occurs in `s` at position `i`. */
  predicate OccursAt(s: string, sub: string, i: int) {
    0 <= i && i + |sub| <= |s| && s[i..i + |sub|] == sub
  }

  /** `Contains` holds exactly when `sub` occurs at some position of `s`. */
  lemma {:induction false} ContainsIff(s: string, sub: string)
    ensures Contains(s, sub) <==> exists i :: OccursAt(s, sub, i)
    decreases |s|
  {
    if StartsWith(s, sub) {
      assert OccursAt(s, sub, 0);
    }
    if |s| > 0 {
      ContainsIff(s[1..], sub);
      if Contains(s[1..], sub) {
        var i :| OccursAt(s[1..], sub, i);
        assert s[i + 1..i + 1 + |sub|] == s[1..][i..i + |sub|];
        assert OccursAt(s, sub, i + 1);
      }
      if exists i :: OccursAt(s, sub, i) {
        var i :| OccursAt(s, sub, i);
        if i > 0 {
          assert s[1..][i - 1..i - 1 + |sub|] == s[i..i + |sub|];
          assert OccursAt(s[1..], sub, i - 1);
        }
      }
    }
  }

  /** `s` starts with `sub` when ASCII letter case is ignored. */
  predicate StartsWithCI(s: string, sub: string) {
    |sub| <= |s| && forall i :: 0 <= i < |sub| ==> LowerChar(s[i]) == LowerChar(sub[i])
  }

  /** `stripos($s, $sub) !== false`. */
  predicate ContainsCI(s: string, sub: string)
    decreases |s|
  {
    StartsWithCI(s, sub) || (|s| > 0 && ContainsCI(s[1..], sub))
  }

  /** Ignoring case is the same as lower-casing both sides before searching. */
  lemma {:induction false} ContainsCIIff(s: string, sub: string)
    ensures ContainsCI(s, sub) <==> Contains(ToLower(s), ToLower(sub))
    decreases |s|
  {
    var ls, lsub := ToLower(s), ToLower(sub);
    if |sub| <= |s| {
      assert StartsWithCI(s, sub) <==> ls[..|lsub|] == lsub by {
        if StartsWithCI(s, sub) {
          assert forall i :: 0 <= i < |lsub| ==> ls[..|lsub|][i] == lsub[i];
        }
        if ls[..|lsub|] == lsub {
          forall i | 0 <= i < |sub| ensures LowerChar(s[i]) == LowerChar(sub[i]) {
            assert ls[..|lsub|][i] == ls[i];
          }
        }
      }
    }
    if |s| > 0 {
      ContainsCIIff(s[1..], sub);
      assert ToLower(s[1..]) == ls[1..];
    }
  }

  /** PHP `explode("\n", $s)`: the pieces between line feeds; there is always at least one. */
  function Explode(s: string): (pieces: seq<string>)
    ensures |pieces| >= 1
    ensures forall i :: 0 <= i < |pieces| ==> '\n' !in pieces[i]
  {
    if |s| == 0 then [""]
    else
      var rest := Explode(s[1..]);
      if s[0] == '\n' then [""] + rest else [[s[0]] + rest[0]] + rest[1..]
  }

  /** PHP `implode("\n", $pieces)`. */
  function Implode(pieces: seq<string>): string {
    if |pieces| == 0 then ""
    else if |pieces| == 1 then pieces[0]
    else pieces[0] + "\n" + Implode(pieces[1..])
  }

  function NewlineCount(s: string): nat {
    if |s| == 0 then 0 else (if s[0] == '\n' then 1 else 0) + NewlineCount(s[1..])
  }

  /** Joining the pieces of a split gives back the content. */
  lemma {:induction false} ImplodeExplode(s: string)
    ensures Implode(Explode(s)) == s
  {
    if |s| > 0 {
      ImplodeExplode(s[1..]);
      var rest := Explode(s[1..]);
      if s[0] == '\n' {
        assert Explode(s) == [""] + rest;
        assert s == [s[0]] + s[1..];
      } else {
        var pieces := [[s[0]] + rest[0]] + rest[1..];
        assert Explode(s) == pieces;
        if |rest| == 1 {
          assert Implode(pieces) == [s[0]] + rest[0];
          assert s == [s[0]] + s[1..];
        } else {
          assert pieces[1..] == rest[1..];
          assert Implode(rest) == rest[0] + "\n" + Implode(rest[1..]);
          assert s == [s[0]] + s[1..];
        }
      }
    }
  }

  /** A piece without line feeds is the first piece of whatever follows it. */
  lemma {:induction false} ExplodeAppend(a: string, t: string)
    requires '\n' !in a
    ensures Explode(a + t) == [a + Explode(t)[0]] + Explode(t)[1..]
  {
    var e := Explode(t);
    if |a| > 0 {
      ExplodeAppend(a[1..], t);
      assert (a + t)[1..] == a[1..] + t;
      assert (a + t)[0] == a[0];
      var rest := Explode(a[1..] + t);
      assert rest == [a[1..] + e[0]] + e[1..];
      assert [a[0]] + (a[1..] + e[0]) == a + e[0];
    } else {
      assert a + t == t;
      assert a + e[0] == e[0];
      assert e == [e[0]] + e[1..];
    }
  }

  /** Splitting a joined sequence of line-free pieces gives the pieces back. */
  lemma {:induction false} ExplodeImplode(pieces: seq<string>)
    requires |pieces| >= 1
    requires forall i :: 0 <= i < |pieces| ==> '\n' !in pieces[i]
    ensures Explode(Implode(pieces)) == pieces
  {
    if |pieces| == 1 {
      ExplodeAppend(pieces[0], "");
      assert pieces[0] + "" == pieces[0];
    } else {
      var rest := Implode(pieces[1..]);
      ExplodeImplode(pieces[1..]);
      ExplodeAppend(pieces[0], "\n" + rest);
      assert Implode(pieces) == pieces[0] + ("\n" + rest);
      assert ("\n" + rest)[1..] == rest;
      assert Explode("\n" + rest) == [""] + pieces[1..];
      assert pieces[0] + "" == pieces[0];
      assert pieces == [pieces[0]] + pieces[1..];
    }
  }

  /** A split yields one more piece than there are line feeds. */
  lemma {:induction false} ExplodeCount(s: string)
    ensures |Explode(s)| == NewlineCount(s) + 1
  {
    if |s| > 0 {
      ExplodeCount(s[1..]);
    }
  }
}
