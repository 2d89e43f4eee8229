/**
 * The two fixed patterns `analyze` runs on every parsed line, written out
 * as hand-coded matchers with PCRE's leftmost-first semantics: the login
 * pattern `(.+?) logged in` on the message and the address pattern
 * `(\d+\.\d+\.\d+\.\d+)` on the trimmed line. As in PCRE without the `s`
 * flag, `.` does not match a line feed.
 */
module Patterns {
  import opened Wrappers
  import opened Text

  const LoggedIn: string := " logged in"

  /**
   * The lazy `.+?` of a match that starts at `i`, tried with end `j` and then
   * longer ones: the first end at which ` logged in` follows, as long as no
   * line feed has been taken in.
   */
  function LoginEnd(s: string, i: nat, j: nat): (r: Option<nat>)
    requires i < j <= |s|
    ensures r.Some? ==> j <= r.value <= |s| && OccursAt(s, LoggedIn, r.value)
    ensures r.Some? ==> forall k :: j - 1 <= k < r.value ==> s[k] != '\n'
    ensures r.Some? ==> forall k :: j <= k < r.value ==> !OccursAt(s, LoggedIn, k)
    ensures r.None? ==> forall k :: j <= k <= |s| && OccursAt(s, LoggedIn, k) ==> exists m :: j - 1 <= m < k && s[m] == '\n'
    decreases |s| - j
  {
    if s[j - 1] == '\n' then None
    else if OccursAt(s, LoggedIn, j) then Some(j)
    else if j == |s| then None
    else LoginEnd(s, i, j + 1)
  }

  /** Leftmost-first search for `(.+?) logged in`, trying start positions from `i` on. */
  function LoginFrom(s: string, i: nat): (r: Option<(nat, nat)>)
    requires i <= |s|
    ensures r.Some? ==> i <= r.value.0 < r.value.1 <= |s| && OccursAt(s, LoggedIn, r.value.1)
    ensures r.Some? ==> forall k :: r.value.0 <= k < r.value.1 ==> s[k] != '\n'
    ensures r.Some? ==> forall k :: r.value.0 < k < r.value.1 ==> !OccursAt(s, LoggedIn, k)
    decreases |s| - i
  {
    if i == |s| then None
    else
      match LoginEnd(s, i, i + 1)
      case Some(j) => Some((i, j))
      case None => LoginFrom(s, i + 1)
  }

  /** `preg_match('/(.+?) logged in/', $message)`: the player name it captures. */
  function LoginPlayer(message: string): (r: Option<string>)
    ensures r.Some? ==> |r.value| > 0 && '\n' !in r.value
    ensures r.Some? ==> exists i :: OccursAt(message, r.value + LoggedIn, i)
  {
    match LoginFrom(message, 0)
    case None => None
    case Some((i, j)) =>
      var p := message[i..j];
      assert message[i..j + |LoggedIn|] == p + LoggedIn;
      assert OccursAt(message, p + LoggedIn, i);
      Some(p)
  }

  /** With no line feed in front of an occurrence, the search from `i` succeeds. */
  lemma {:induction false} LoginFromFinds(s: string, i: nat, j: nat)
    requires i < j <= |s| && OccursAt(s, LoggedIn, j) && '\n' !in s
    ensures LoginFrom(s, i).Some? && LoginFrom(s, i).value.0 == i
  {
    var e := LoginEnd(s, i, i + 1);
    assert forall m :: 0 <= m < |s| ==> s[m] != '\n';
  }

  /**
   * On a message without line feeds the pattern matches exactly when
   * ` logged in` occurs after at least one character, and the player is the
   * shortest non-empty prefix of the message that it follows.
   */
  lemma LoginPlayerIff(message: string)
    requires '\n' !in message
    ensures LoginPlayer(message).Some? <==> exists j :: 1 <= j && OccursAt(message, LoggedIn, j)
    ensures LoginPlayer(message).Some? ==>
      var p := LoginPlayer(message).value;
      && p == message[..|p|]
      && OccursAt(message, LoggedIn, |p|)
      && forall k :: 1 <= k < |p| ==> !OccursAt(message, LoggedIn, k)
  {
    if j :| 1 <= j && OccursAt(message, LoggedIn, j) {
      LoginFromFinds(message, 0, j);
    }
    if LoginFrom(message, 0).Some? {
      var (i, j) := LoginFrom(message, 0).value;
      LoginFromFinds(message, 0, j);
    }
  }

  /** The end of the run of digits that starts at position `i`. */
  function DigitsEnd(s: string, i: nat): (e: nat)
    requires i <= |s|
    ensures i <= e <= |s|
    ensures forall k :: i <= k < e ==> IsDigit(s[k])
    ensures e < |s| ==> !IsDigit(s[e])
    decreases |s| - i
  {
    if i < |s| && IsDigit(s[i]) then DigitsEnd(s, i + 1) else i
  }

  /** `\.\d+` at position `i`: the position after the digits. */
  function DotDigits(s: string, i: nat): (r: Option<nat>)
    requires i <= |s|
    ensures r.Some? ==> i + 2 <= r.value <= |s| && s[i] == '.'
    ensures r.Some? ==> forall k :: i < k < r.value ==> IsDigit(s[k])
    ensures r.Some? && r.value < |s| ==> !IsDigit(s[r.value])
  {
    if i + 1 < |s| && s[i] == '.' && IsDigit(s[i + 1]) then Some(DigitsEnd(s, i + 1))
    else None
  }

  /**
   * The layout of a dotted quad in `v`: dots at `a`, `b` and `c`, digits
   * everywhere else, and at least one digit in each of the four groups.
   */
  predicate QuadShape(v: string, a: nat, b: nat, c: nat) {
    && 0 < a && a + 1 < b && b + 1 < c && c + 1 < |v|
    && v[a] == '.' && v[b] == '.' && v[c] == '.'
    && forall k :: 0 <= k < |v| && k != a && k != b && k != c ==> IsDigit(v[k])
  }

  /**
   * `\d+\.\d+\.\d+\.\d+` starting at position `i`: where the match ends. Each
   * `\d+` is greedy, and giving a digit back can never let the next `\.`
   * match, so every group is a maximal run of digits.
   */
  function QuadAt(s: string, i: nat): (r: Option<nat>)
    requires i <= |s|
    ensures r.Some? ==> i + 7 <= r.value <= |s|
    ensures r.Some? && r.value < |s| ==> !IsDigit(s[r.value])
  {
    var a := DigitsEnd(s, i);
    if a == i then None
    else
      match DotDigits(s, a)
      case None => None
      case Some(b) =>
        match DotDigits(s, b)
        case None => None
        case Some(c) => DotDigits(s, c)
  }

  /** A match of the address pattern covers four groups of digits joined by three dots. */
  lemma QuadAtShape(s: string, i: nat)
    requires i <= |s| && QuadAt(s, i).Some?
    ensures exists a, b, c :: QuadShape(s[i..QuadAt(s, i).value], a, b, c)
  {
    var a := DigitsEnd(s, i);
    var b := DotDigits(s, a).value;
    var c := DotDigits(s, b).value;
    var v := s[i..QuadAt(s, i).value];
    forall k | 0 <= k < |v| && k != a - i && k != b - i && k != c - i ensures IsDigit(v[k]) {
      assert v[k] == s[i + k];
    }
    assert QuadShape(v, a - i, b - i, c - i);
  }

  /** Leftmost start position, from `i` on, at which a dotted quad matches, with the end of that match. */
  function QuadFrom(s: string, i: nat): (r: Option<(nat, nat)>)
    requires i <= |s|
    ensures r.Some? ==> i <= r.value.0 < |s| && QuadAt(s, r.value.0) == Some(r.value.1)
    ensures r.Some? ==> forall k :: i <= k < r.value.0 ==> QuadAt(s, k).None?
    ensures r.None? ==> forall k :: i <= k < |s| ==> QuadAt(s, k).None?
    decreases |s| - i
  {
    if i == |s| then None
    else
      match QuadAt(s, i)
      case Some(e) => Some((i, e))
      case None => QuadFrom(s, i + 1)
  }

  /** `preg_match('/(\d+\.\d+\.\d+\.\d+)/', $line)`: the first address the line holds. */
  function FirstIp(line: string): (r: Option<string>)
    ensures r.Some? ==> 7 <= |r.value| <= |line|
  {
    match QuadFrom(line, 0)
    case None => None
    case Some((i, e)) => Some(line[i..e])
  }

  /** An address found is a dotted quad. */
  lemma FirstIpShape(line: string)
    requires FirstIp(line).Some?
    ensures exists a, b, c :: QuadShape(FirstIp(line).value, a, b, c)
  {
    QuadAtShape(line, QuadFrom(line, 0).value.0);
  }

  /** An address found is text of the line. */
  lemma FirstIpOccurs(line: string)
    requires FirstIp(line).Some?
    ensures exists i :: OccursAt(line, FirstIp(line).value, i)
  {
    var i := QuadFrom(line, 0).value.0;
    assert OccursAt(line, FirstIp(line).value, i);
  }

  /** No address is found exactly when a dotted quad starts nowhere in the line. */
  lemma FirstIpNone(line: string)
    ensures FirstIp(line).None? <==> forall k :: 0 <= k < |line| ==> QuadAt(line, k).None?
  {
    if QuadFrom(line, 0).Some? {
      assert QuadAt(line, QuadFrom(line, 0).value.0).Some?;
    }
  }

  lemma QuadFromAt(s: string, j: nat, i: nat)
    requires j <= i < |s| && QuadAt(s, i).Some?
    requires forall k :: j <= k < i ==> QuadAt(s, k).None?
    ensures QuadFrom(s, j) == Some((i, QuadAt(s, i).value))
  {
    var r := QuadFrom(s, j);
    assert r.Some?;
    assert r.value.0 == i;
  }

  /**
   * The address is the dotted quad that starts leftmost in the line, with
   * every group taken whole.
   */
  lemma FirstIpLeftmost(line: string, i: nat)
    requires i < |line| && QuadAt(line, i).Some?
    requires forall k :: 0 <= k < i ==> QuadAt(line, k).None?
    ensures FirstIp(line) == Some(line[i..QuadAt(line, i).value])
  {
    QuadFromAt(line, 0, i);
  }
}
