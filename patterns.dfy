/**
 * The two fixed regular expressions of the filter, hand-coded as matchers
 * that try one position of the text:
 *
 *   KeyValue(key)  --  `key\s*=\s*[^\s]+` under `re.IGNORECASE`
 *                      (`user` and `pass`; group 1 is the value run)
 *   CardDigits     --  `\b\d{12,19}\b`
 *
 * Each matcher is proved sound and complete against a declarative
 * description of what the pattern, with Python's greedy backtracking,
 * matches at that position.
 */
module Patterns {

  import opened Wrappers
  import opened CharClasses
  import opened Scan

  /** Fewest and most digits `\d{12,19}` accepts. */
  const MinCardDigits: nat := 12
  const MaxCardDigits: nat := 19

  datatype Pattern = KeyValue(key: string) | CardDigits

  /** A key the matcher may be instantiated with: non-empty lower-case ASCII whose first letter does not recur. */
  ghost predicate ValidKey(key: string) {
    && |key| > 0
    && (forall k :: 0 <= k < |key| ==> 'a' <= key[k] <= 'z')
    && (forall k :: 1 <= k < |key| ==> key[k] != key[0])
  }

  /** The first letter of a valid key cannot stand anywhere else in the prefix shape. */
  lemma ValidKeyBreaks(key: string)
    requires ValidKey(key)
    ensures Breaks(key, key[0], 1)
    ensures forall k :: 1 <= k < |key| ==> !KeyCharMatch(key[k], key[0])
  {
  }

  /**
   * Character `c` cannot stand at a position `>= from` of the part
   * `key\s*=\s*` of a key match: it is not a space, not `=`, and matches
   * none of the key's letters from index `from` on.
   */
  ghost predicate Breaks(key: string, c: char, from: nat) {
    !IsSpace(c) && c != '=' && forall k :: from <= k < |key| ==> !KeyCharMatch(c, key[k])
  }

  /** The first index at or after `i` whose character fails `P` (or `|t|`): a greedy run of `P`. */
  function RunEnd(t: string, i: nat, P: char -> bool): (r: nat)
    requires i <= |t|
    ensures i <= r <= |t|
    decreases |t| - i
  {
    if i == |t| || !P(t[i]) then i else RunEnd(t, i + 1, P)
  }

  /** The run is greedy: every character before its end has `P`, and it ends at the end of the text or at a character without `P`. */
  lemma {:induction false} RunEndSpec(t: string, i: nat, P: char -> bool)
    requires i <= |t|
    ensures var r := RunEnd(t, i, P);
      (forall k :: i <= k < r ==> P(t[k])) && (r == |t| || !P(t[r]))
    decreases |t| - i
  {
    if i < |t| && P(t[i]) {
      RunEndSpec(t, i + 1, P);
    }
  }

  /** A run is determined by where it starts. */
  lemma {:induction false} RunEndIs(t: string, i: nat, P: char -> bool, r: nat)
    requires i <= r <= |t|
    requires forall k :: i <= k < r ==> P(t[k])
    requires r == |t| || !P(t[r])
    ensures RunEnd(t, i, P) == r
    decreases r - i
  {
    if i < r {
      RunEndIs(t, i + 1, P, r);
    }
  }

  /** The text starts with `key`, compared case-insensitively. */
  predicate KeyAt(t: string, key: string) {
    |key| <= |t| && forall k :: 0 <= k < |key| ==> KeyCharMatch(t[k], key[k])
  }

  /**
   * Declarative shape of `key\s*=\s*` followed by one non-space character:
   * the key at 0, spaces up to the `=` at `eq`, spaces up to `v`, and
   * `t[v]` is not a space (so both `\s*` are as long as they can be, which
   * is the only way the rest of the pattern can match).
   */
  ghost predicate KeyPrefixAt(t: string, key: string, eq: nat, v: nat) {
    && |key| <= eq < v < |t|
    && KeyAt(t, key)
    && (forall k :: |key| <= k < eq ==> IsSpace(t[k]))
    && t[eq] == '='
    && (forall k :: eq < k < v ==> IsSpace(t[k]))
    && !IsSpace(t[v])
  }

  /**
   * What `key\s*=\s*([^\s]+)` matches at position 0 under greedy
   * backtracking: the prefix shape, then the value `[group, end)` of
   * non-space characters that stops only at a space or the end of the text.
   */
  ghost predicate KeyMatchSpec(t: string, key: string, eq: nat, m: Match) {
    && KeyPrefixAt(t, key, eq, m.group)
    && m.group < m.end <= |t|
    && (forall k :: m.group <= k < m.end ==> !IsSpace(t[k]))
    && (m.end == |t| || IsSpace(t[m.end]))
  }

  /** Tries `key\s*=\s*([^\s]+)` at the start of `t`. */
  function KeyMatch(t: string, key: string): (r: Option<Match>)
    ensures r.Some? ==> r.value.group < r.value.end <= |t|
  {
    if !KeyAt(t, key) then None
    else
      var eq := RunEnd(t, |key|, IsSpace);
      if eq == |t| || t[eq] != '=' then None
      else
        var v := RunEnd(t, eq + 1, IsSpace);
        if v == |t| then None
        else
          RunEndSpec(t, eq + 1, IsSpace);
          Some(Match(v, RunEnd(t, v, IsNonSpace)))
  }

  /** Soundness: any match has the shape the pattern describes, with the `=` where the greedy `\s*` after the key ends. */
  lemma KeyMatchSound(t: string, key: string)
    ensures var r := KeyMatch(t, key);
      r.Some? ==> |key| < |t| && KeyMatchSpec(t, key, RunEnd(t, |key|, IsSpace), r.value)
  {
    if KeyAt(t, key) {
      var eq := RunEnd(t, |key|, IsSpace);
      RunEndSpec(t, |key|, IsSpace);
      if eq < |t| && t[eq] == '=' {
        var v := RunEnd(t, eq + 1, IsSpace);
        RunEndSpec(t, eq + 1, IsSpace);
        if v < |t| {
          RunEndSpec(t, v, IsNonSpace);
        }
      }
    }
  }

  /** Completeness: wherever the prefix shape occurs, the matcher finds it, with the greedy value run. */
  lemma KeyPrefixMatches(t: string, key: string, eq: nat, v: nat)
    requires KeyPrefixAt(t, key, eq, v)
    ensures KeyMatch(t, key) == Some(Match(v, RunEnd(t, v, IsNonSpace)))
  {
    RunEndIs(t, |key|, IsSpace, eq);
    RunEndIs(t, eq + 1, IsSpace, v);
  }

  /** The matcher succeeds exactly on the matches the pattern describes. */
  lemma KeyMatchIsRegexMatch(t: string, key: string, m: Match)
    ensures KeyMatch(t, key) == Some(m) <==> exists eq :: KeyMatchSpec(t, key, eq, m)
  {
    KeyMatchSound(t, key);
    if eq :| KeyMatchSpec(t, key, eq, m) {
      KeyPrefixMatches(t, key, eq, m.group);
      RunEndIs(t, m.group, IsNonSpace, m.end);
    }
  }

  /** A key match needs a text whose first character matches the key's first letter. */
  lemma KeyMatchStart(t: string, key: string)
    requires |key| > 0 && (t == [] || !KeyCharMatch(t[0], key[0]))
    ensures KeyMatch(t, key) == None
  {
  }

  /** The replacement text of a key pattern: `user=***`, `pass=***`. */
  function Token(key: string): (r: string)
    ensures |r| == |key| + 4 && r[..|key|] == key
  {
    key + "=***"
  }

  /**
   * The replacement token, followed by a space or by nothing, is itself a
   * match whose value is `***`.
   */
  lemma TokenMatches(key: string, rest: string)
    requires ValidKey(key)
    requires rest == [] || IsSpace(rest[0])
    ensures KeyMatch(Token(key) + rest, key) == Some(Match(|key| + 1, |key| + 4))
  {
    var t := Token(key) + rest;
    assert forall k :: 0 <= k < |key| ==> t[k] == key[k];
    assert t[|key|] == '=' && t[|key| + 1] == '*' && t[|key| + 2] == '*' && t[|key| + 3] == '*';
    KeyPrefixMatches(t, key, |key|, |key| + 1);
    RunEndIs(t, |key| + 1, IsNonSpace, |key| + 4);
  }

  /**
   * The key as `written` (in any case), spaces `s1`, `=`, spaces `s2`, then
   * `value` followed by a space or nothing: the group is exactly `value`.
   */
  lemma KeyValueMatches(written: string, key: string, s1: string, s2: string, value: string, rest: string)
    requires |written| == |key| && KeyAt(written, key)
    requires (forall k :: 0 <= k < |s1| ==> IsSpace(s1[k])) && (forall k :: 0 <= k < |s2| ==> IsSpace(s2[k]))
    requires |value| > 0 && forall k :: 0 <= k < |value| ==> !IsSpace(value[k])
    requires rest == [] || IsSpace(rest[0])
    ensures var g := |key| + |s1| + 1 + |s2|;
      KeyMatch(written + s1 + "=" + s2 + value + rest, key) == Some(Match(g, g + |value|))
  {
    var t := written + s1 + "=" + s2 + value + rest;
    var eq := |key| + |s1|;
    var g := eq + 1 + |s2|;
    assert KeyAt(t, key) by {
      assert forall k :: 0 <= k < |key| ==> t[k] == written[k];
    }
    assert forall k :: |key| <= k < eq ==> t[k] == s1[k - |key|];
    assert forall k :: eq < k < g ==> t[k] == s2[k - eq - 1];
    assert forall k :: g <= k < g + |value| ==> t[k] == value[k - g];
    assert t[eq] == '=';
    KeyPrefixMatches(t, key, eq, g);
    if rest != [] {
      assert t[g + |value|] == rest[0];
    }
    RunEndIs(t, g, IsNonSpace, g + |value|);
  }

  /**
   * A character that `Breaks` the key cannot lie inside the prefix shape
   * `key\s*=\s*`: it sits at or after the value start.
   */
  lemma BreakerBound(t: string, key: string, eq: nat, v: nat, i: nat, from: nat)
    requires KeyPrefixAt(t, key, eq, v)
    requires from <= i < |t| && Breaks(key, t[i], from)
    ensures v <= i
  {
  }

  /** The prefix shape only reads the text up to the value start. */
  lemma KeyPrefixTransfer(t: string, t': string, key: string, eq: nat, v: nat)
    requires KeyPrefixAt(t, key, eq, v)
    requires v < |t'| && (forall k :: 0 <= k < v ==> t'[k] == t[k]) && !IsSpace(t'[v])
    ensures KeyPrefixAt(t', key, eq, v)
  {
  }

  /**
   * `\b` at index `k` of `u`, where `prevWord` says whether the character
   * just before `u` is a word character (false at the start of the text).
   */
  predicate WordBoundary(u: string, prevWord: bool, k: nat)
    requires k <= |u|
  {
    (if k == 0 then prevWord else IsWordChar(u[k - 1])) != (k < |u| && IsWordChar(u[k]))
  }

  /** What `\b\d{n}\b` matches at the start of `u`, for one count `n` of `{12,19}`. */
  ghost predicate DigitSpec(u: string, prevWord: bool, n: nat) {
    && MinCardDigits <= n <= MaxCardDigits
    && n <= |u|
    && WordBoundary(u, prevWord, 0)
    && (forall k :: 0 <= k < n ==> IsDigit(u[k]))
    && WordBoundary(u, prevWord, n)
  }

  /**
   * Tries `\b\d{12,19}\b` at the start of `u`. The greedy `\d{12,19}`
   * backtracks, but the closing `\b` only holds after the last digit of the
   * run, so the match is the whole maximal digit run or nothing.
   */
  function DigitMatch(u: string, prevWord: bool): (r: Option<Match>)
    ensures r.Some? ==> r.value.group == 0 && DigitSpec(u, prevWord, r.value.end)
  {
    if prevWord || |u| == 0 || !IsDigit(u[0]) then None
    else
      var n := RunEnd(u, 0, IsDigit);
      RunEndSpec(u, 0, IsDigit);
      if MinCardDigits <= n <= MaxCardDigits && (n == |u| || !IsWordChar(u[n]))
      then Some(Match(0, n))
      else None
  }

  /**
   * The matcher succeeds exactly on the counts the pattern admits: no
   * shorter count ever satisfies the closing `\b`, so backtracking finds
   * nothing the maximal run misses.
   */
  lemma DigitMatchIsRegexMatch(u: string, prevWord: bool, n: nat)
    ensures DigitMatch(u, prevWord) == Some(Match(0, n)) <==> DigitSpec(u, prevWord, n)
  {
    if DigitSpec(u, prevWord, n) {
      assert IsDigit(u[0]);
      assert n == |u| || !IsDigit(u[n]);
      RunEndIs(u, 0, IsDigit, n);
    }
  }

  /** Tries pattern `p` at the start of `u`; `prevWord` is what `\b` sees before `u`. */
  function MatchHere(u: string, p: Pattern, prevWord: bool): (r: Option<Match>)
    ensures r.Some? ==> r.value.group < r.value.end <= |u|
  {
    match p
    case KeyValue(key) => KeyMatch(u, key)
    case CardDigits => DigitMatch(u, prevWord)
  }

  /** A character a match of `p` can begin with. */
  predicate StartsMatch(p: Pattern, c: char) {
    match p
    case KeyValue(key) => |key| > 0 && KeyCharMatch(c, key[0])
    case CardDigits => IsDigit(c)
  }

  /** Every match begins with a character `StartsMatch` admits. */
  lemma MatchStart(u: string, p: Pattern, prevWord: bool)
    requires p.KeyValue? ==> |p.key| > 0
    requires MatchHere(u, p, prevWord).Some?
    ensures |u| > 0 && StartsMatch(p, u[0])
  {
  }

  /** The matcher of a pattern, as the scanner takes it. */
  function MatcherOf(p: Pattern): (M: Matcher)
    ensures Advances(M)
    ensures forall u, prevWord :: M(u, prevWord) == MatchHere(u, p, prevWord)
  {
    (u: string, prevWord: bool) => MatchHere(u, p, prevWord)
  }
}
