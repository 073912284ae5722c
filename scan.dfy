/**
 * `re.search` and `re.sub` for a pattern given by its matcher: leftmost
 * search, and left-to-right replacement of non-overlapping matches.
 */
module Scan {

  import opened Wrappers
  import opened CharClasses
  import Seqs

  /**
   * A match at the start of a text: it covers `[0, end)`, and its capture
   * group starts at `group`.
   */
  datatype Match = Match(group: nat, end: nat)

  /**
   * A pattern, as the matcher that tries it at the start of a text; the
   * flag says whether the character before the text is a word character,
   * which is all a `\b` at the start needs to know.
   */
  type Matcher = (string, bool) -> Option<Match>

  /** Every match is non-empty and lies inside the text. */
  ghost predicate Advances(M: Matcher) {
    forall u, prevWord :: M(u, prevWord).Some? ==> M(u, prevWord).value.group < M(u, prevWord).value.end <= |u|
  }

  /** What `\b` sees before index `j` of `u`, when `prevWord` describes the character before `u`. */
  function PrevWord(u: string, prevWord: bool, j: nat): (r: bool)
    requires j <= |u|
  {
    if j == 0 then prevWord else IsWordChar(u[j - 1])
  }

  /** A match of a search: found at index `at`, with `m` relative to `at`. */
  datatype Found = Found(at: nat, m: Match)

  /** The pattern matches at index `j` of `u`. */
  ghost predicate MatchesAt(u: string, M: Matcher, prevWord: bool, j: nat)
    requires j <= |u|
  {
    M(u[j..], PrevWord(u, prevWord, j)).Some?
  }

  /** The pattern matches at no index before `i`. */
  ghost predicate NoMatchBefore(u: string, M: Matcher, prevWord: bool, i: nat)
    requires i <= |u|
  {
    forall j :: 0 <= j < i ==> !MatchesAt(u, M, prevWord, j)
  }

  /** `re.search`: the leftmost index at which the pattern matches, with its match. */
  function Search(u: string, M: Matcher, prevWord: bool): (r: Option<Found>)
    requires Advances(M)
    decreases |u|
  {
    if |u| == 0 then None
    else
      match M(u, prevWord)
      case Some(m) => Some(Found(0, m))
      case None =>
        match Search(u[1..], M, IsWordChar(u[0]))
        case None => None
        case Some(f) => Some(Found(f.at + 1, f.m))
  }

  /** What the search finds is a match: it lies inside the text, and the pattern matches there with it. */
  lemma {:induction false} SearchSound(u: string, M: Matcher, prevWord: bool)
    requires Advances(M)
    ensures var r := Search(u, M, prevWord);
      r.Some? ==>
        && r.value.at < |u| && r.value.at + r.value.m.end <= |u| && 0 < r.value.m.end
        && M(u[r.value.at..], PrevWord(u, prevWord, r.value.at)) == Some(r.value.m)
    decreases |u|
  {
    if u != [] {
      assert u[0..] == u;
      if M(u, prevWord).None? {
        SearchSound(u[1..], M, IsWordChar(u[0]));
        match Search(u[1..], M, IsWordChar(u[0]))
        case None =>
        case Some(f) =>
          assert u[1..][f.at..] == u[f.at + 1..];
      }
    }
  }

  /** The search is leftmost: no index before what it finds matches, and none at all when it finds nothing. */
  lemma {:induction false} SearchLeftmost(u: string, M: Matcher, prevWord: bool)
    requires Advances(M)
    ensures var r := Search(u, M, prevWord);
      if r.None? then NoMatchBefore(u, M, prevWord, |u|)
      else r.value.at <= |u| && NoMatchBefore(u, M, prevWord, r.value.at)
    decreases |u|
  {
    if u != [] {
      assert u[0..] == u;
      if M(u, prevWord).None? {
        SearchLeftmost(u[1..], M, IsWordChar(u[0]));
        SearchSound(u[1..], M, IsWordChar(u[0]));
        ShiftedMatches(u, M, prevWord);
      }
    }
  }

  /** Index `j` of `u`, for `j >= 1`, is index `j - 1` of `u[1..]`, with the same context for `\b`. */
  lemma ShiftedMatches(u: string, M: Matcher, prevWord: bool)
    requires u != []
    ensures forall j :: 1 <= j <= |u| ==>
      (MatchesAt(u, M, prevWord, j) <==> MatchesAt(u[1..], M, IsWordChar(u[0]), j - 1))
  {
    forall j | 1 <= j <= |u|
      ensures MatchesAt(u, M, prevWord, j) <==> MatchesAt(u[1..], M, IsWordChar(u[0]), j - 1)
    {
      assert u[1..][j - 1..] == u[j..];
    }
  }

  /**
   * `re.sub`, as its scan runs: at each index, a match is replaced and the
   * scan resumes after it; otherwise the character is copied and the scan
   * moves on by one. `SubFound` and `SubNotFound` relate it to `Search`.
   */
  function Sub(u: string, M: Matcher, repl: string, prevWord: bool): (r: string)
    requires Advances(M)
    decreases |u|
  {
    if |u| == 0 then []
    else
      match M(u, prevWord)
      case Some(m) => repl + Sub(u[m.end..], M, repl, IsWordChar(u[m.end - 1]))
      case None => [u[0]] + Sub(u[1..], M, repl, IsWordChar(u[0]))
  }

  /** `re.search(...).group(1)`, or `None` when the search finds nothing. */
  function SearchGroup(u: string, M: Matcher, prevWord: bool): (r: Option<string>)
    requires Advances(M)
  {
    SearchSound(u, M, prevWord);
    match Search(u, M, prevWord)
    case None => None
    case Some(f) => Some(u[f.at + f.m.group..f.at + f.m.end])
  }

  /** The group of a search is the captured part of the match it found. */
  lemma SearchGroupOfFound(u: string, M: Matcher, prevWord: bool, f: Found)
    requires Advances(M) && Search(u, M, prevWord) == Some(f)
    ensures f.at + f.m.group <= f.at + f.m.end <= |u|
    ensures SearchGroup(u, M, prevWord) == Some(u[f.at + f.m.group..f.at + f.m.end])
  {
    SearchSound(u, M, prevWord);
  }

  /** The search finds the first index at which the pattern matches. */
  lemma SearchFinds(u: string, M: Matcher, prevWord: bool, i: nat, m: Match)
    requires Advances(M) && i <= |u| && NoMatchBefore(u, M, prevWord, i)
    requires M(u[i..], PrevWord(u, prevWord, i)) == Some(m)
    ensures Search(u, M, prevWord) == Some(Found(i, m))
  {
    assert MatchesAt(u, M, prevWord, i);
    SearchLeftmost(u, M, prevWord);
    SearchSound(u, M, prevWord);
    var f := Search(u, M, prevWord).value;
    if f.at < i {
      assert MatchesAt(u, M, prevWord, f.at);
    }
  }

  /** With no match before index `i` and one at `i`, the group of the search is that match's group. */
  lemma SearchGroupAt(u: string, M: Matcher, prevWord: bool, i: nat, m: Match)
    requires Advances(M) && i <= |u| && NoMatchBefore(u, M, prevWord, i)
    requires M(u[i..], PrevWord(u, prevWord, i)) == Some(m)
    ensures i + m.group <= i + m.end <= |u|
    ensures SearchGroup(u, M, prevWord) == Some(u[i + m.group..i + m.end])
  {
    SearchFinds(u, M, prevWord, i, m);
    SearchGroupOfFound(u, M, prevWord, Found(i, m));
  }

  /**
   * The leftmost match, named: either the pattern matches nowhere and the
   * group is `None`, or `i` is the first index it matches at, with `m`.
   */
  lemma FirstMatch(u: string, M: Matcher, prevWord: bool) returns (found: bool, i: nat, m: Match)
    requires Advances(M)
    ensures !found ==> NoMatchBefore(u, M, prevWord, |u|) && SearchGroup(u, M, prevWord) == None
    ensures found ==>
      && i < |u| && i + m.group < i + m.end <= |u|
      && NoMatchBefore(u, M, prevWord, i)
      && M(u[i..], PrevWord(u, prevWord, i)) == Some(m)
      && SearchGroup(u, M, prevWord) == Some(u[i + m.group..i + m.end])
  {
    SearchLeftmost(u, M, prevWord);
    SearchSound(u, M, prevWord);
    match Search(u, M, prevWord)
    case None =>
      found, i, m := false, 0, Match(0, 0);
    case Some(f) =>
      SearchGroupOfFound(u, M, prevWord, f);
      found, i, m := true, f.at, f.m;
  }

  /** With no match at the front, what the search finds lies after the front. */
  lemma SearchPastFront(u: string, M: Matcher, prevWord: bool)
    requires Advances(M)
    ensures M(u, prevWord).None? && Search(u, M, prevWord).Some? ==> 0 < Search(u, M, prevWord).value.at
  {
  }

  /** The scan, at a match at the front: the match is replaced and the scan resumes after it. */
  lemma SubStepMatch(u: string, M: Matcher, repl: string, prevWord: bool, m: Match)
    requires Advances(M) && M(u, prevWord) == Some(m)
    ensures 0 < m.end <= |u|
    ensures Sub(u, M, repl, prevWord) == repl + Sub(u[m.end..], M, repl, IsWordChar(u[m.end - 1]))
  {
  }

  /** The scan, with no match at the front: the first character is copied and the scan resumes at the next one. */
  lemma SubStepCopy(u: string, M: Matcher, repl: string, prevWord: bool)
    requires Advances(M) && u != [] && M(u, prevWord).None?
    ensures Sub(u, M, repl, prevWord) == [u[0]] + Sub(u[1..], M, repl, IsWordChar(u[0]))
  {
  }

  /** Text before the first match is copied unchanged, and the scan goes on from where it ends. */
  lemma {:induction false} SubCopies(prefix: string, rest: string, M: Matcher, repl: string, prevWord: bool)
    requires Advances(M)
    requires forall j :: 0 <= j < |prefix| ==> !MatchesAt(prefix + rest, M, prevWord, j)
    ensures Sub(prefix + rest, M, repl, prevWord) ==
      prefix + Sub(rest, M, repl, PrevWord(prefix + rest, prevWord, |prefix|))
    decreases |prefix|
  {
    var u := prefix + rest;
    if prefix == [] {
      assert u == rest;
    } else {
      assert !MatchesAt(u, M, prevWord, 0);
      assert u[0..] == u;
      SubStepCopy(u, M, repl, prevWord);
      var ctx := IsWordChar(u[0]);
      assert u[1..] == prefix[1..] + rest;
      ShiftedMatches(u, M, prevWord);
      forall j | 0 <= j < |prefix| - 1
        ensures !MatchesAt(prefix[1..] + rest, M, ctx, j)
      {
        assert !MatchesAt(u, M, prevWord, j + 1);
      }
      SubCopies(prefix[1..], rest, M, repl, ctx);
      assert PrevWord(u[1..], ctx, |prefix| - 1) == PrevWord(u, prevWord, |prefix|);
      assert u[0] == prefix[0];
      Seqs.ConsTail(prefix, Sub(rest, M, repl, PrevWord(u, prevWord, |prefix|)));
    }
  }

  /** With no match anywhere, `re.sub` returns the text unchanged. */
  lemma SubWithoutMatch(u: string, M: Matcher, repl: string, prevWord: bool)
    requires Advances(M) && NoMatchBefore(u, M, prevWord, |u|)
    ensures Sub(u, M, repl, prevWord) == u
  {
    assert u + [] == u;
    SubCopies(u, [], M, repl, prevWord);
  }

  /** The text before index `i`, where nothing matches, is copied unchanged. */
  lemma SubCopiesUpTo(u: string, M: Matcher, repl: string, prevWord: bool, i: nat)
    requires Advances(M) && i <= |u| && NoMatchBefore(u, M, prevWord, i)
    ensures Sub(u, M, repl, prevWord) == u[..i] + Sub(u[i..], M, repl, PrevWord(u, prevWord, i))
  {
    assert u[..i] + u[i..] == u;
    SubCopies(u[..i], u[i..], M, repl, prevWord);
  }

  /** The scan at index `i`, at a match there: the match is replaced and the scan resumes after it. */
  lemma SubStepMatchAt(u: string, M: Matcher, repl: string, prevWord: bool, i: nat, m: Match)
    requires Advances(M) && i <= |u| && M(u[i..], prevWord) == Some(m)
    ensures 0 < m.end && i + m.end <= |u|
    ensures Sub(u[i..], M, repl, prevWord) == repl + Sub(u[i + m.end..], M, repl, IsWordChar(u[i + m.end - 1]))
  {
    SubStepMatch(u[i..], M, repl, prevWord, m);
    assert u[i..][m.end..] == u[i + m.end..];
    assert u[i..][m.end - 1] == u[i + m.end - 1];
  }

  /**
   * With no match before index `i` and a match `m` at `i`, `re.sub` copies
   * the text before `i`, replaces the match and goes on after it.
   */
  lemma SubAtFirstMatch(u: string, M: Matcher, repl: string, prevWord: bool, i: nat, m: Match)
    requires Advances(M) && i <= |u| && NoMatchBefore(u, M, prevWord, i)
    requires M(u[i..], PrevWord(u, prevWord, i)) == Some(m)
    ensures 0 < m.end && i + m.end <= |u|
    ensures Sub(u, M, repl, prevWord) == u[..i] + repl + Sub(u[i + m.end..], M, repl, IsWordChar(u[i + m.end - 1]))
  {
    SubCopiesUpTo(u, M, repl, prevWord, i);
    SubStepMatchAt(u, M, repl, PrevWord(u, prevWord, i), i, m);
    Seqs.AppendAssoc(u[..i], repl, Sub(u[i + m.end..], M, repl, IsWordChar(u[i + m.end - 1])));
  }

  /**
   * `re.sub` as a search: the text before the leftmost match is copied, the
   * match is replaced, and the substitution goes on after the match.
   */
  lemma SubFound(u: string, M: Matcher, repl: string, prevWord: bool, f: Found)
    requires Advances(M) && Search(u, M, prevWord) == Some(f)
    ensures 0 < f.m.end && f.at + f.m.end <= |u|
    ensures Sub(u, M, repl, prevWord) ==
      u[..f.at] + repl + Sub(u[f.at + f.m.end..], M, repl, IsWordChar(u[f.at + f.m.end - 1]))
  {
    SearchSound(u, M, prevWord);
    SearchLeftmost(u, M, prevWord);
    SubAtFirstMatch(u, M, repl, prevWord, f.at, f.m);
  }

  /** A search that finds nothing leaves the text to `re.sub` unchanged. */
  lemma SubNotFound(u: string, M: Matcher, repl: string, prevWord: bool)
    requires Advances(M) && Search(u, M, prevWord).None?
    ensures Sub(u, M, repl, prevWord) == u
  {
    SearchLeftmost(u, M, prevWord);
    SubWithoutMatch(u, M, repl, prevWord);
  }

  /**
   * `re.sub` at its first match, named: either nothing matches and the text
   * is returned unchanged, or `i` is the first index the pattern matches
   * at, with `m`, and the text before it is copied.
   */
  lemma SubFirst(u: string, M: Matcher, repl: string, prevWord: bool) returns (found: bool, i: nat, m: Match)
    requires Advances(M)
    ensures !found ==> Search(u, M, prevWord) == None && Sub(u, M, repl, prevWord) == u
    ensures found ==>
      && Search(u, M, prevWord) == Some(Found(i, m))
      && 0 < m.end && i + m.end <= |u|
      && Sub(u, M, repl, prevWord) == u[..i] + repl + Sub(u[i + m.end..], M, repl, IsWordChar(u[i + m.end - 1]))
  {
    match Search(u, M, prevWord)
    case None =>
      SubNotFound(u, M, repl, prevWord);
      found, i, m := false, 0, Match(0, 0);
    case Some(f) =>
      SubFound(u, M, repl, prevWord, f);
      found, i, m := true, f.at, f.m;
  }

  /**
   * The text at the front of `u` is exactly the replacement: a match, if
   * any, spans `|repl|` characters and they spell `repl`.
   */
  predicate TameAt(u: string, M: Matcher, repl: string, prevWord: bool) {
    match M(u, prevWord)
    case None => true
    case Some(m) => m.end == |repl| <= |u| && u[..m.end] == repl
  }

  /** Every match of the pattern, at every index of `t`, is exactly the replacement text. */
  ghost predicate Tame(t: string, M: Matcher, repl: string, prevWord: bool)
    decreases |t|
  {
    |t| == 0 || (TameAt(t, M, repl, prevWord) && Tame(t[1..], M, repl, IsWordChar(t[0])))
  }

  /** Tameness, read index by index. */
  lemma {:induction false} TameEverywhere(t: string, M: Matcher, repl: string, prevWord: bool, j: nat)
    requires Tame(t, M, repl, prevWord) && j < |t|
    ensures TameAt(t[j..], M, repl, PrevWord(t, prevWord, j))
    decreases j
  {
    if j > 0 {
      TameEverywhere(t[1..], M, repl, IsWordChar(t[0]), j - 1);
      assert t[1..][j - 1..] == t[j..];
    }
  }

  /** A suffix of a tame text is tame. */
  lemma {:induction false} TameSuffix(t: string, M: Matcher, repl: string, prevWord: bool, k: nat)
    requires Tame(t, M, repl, prevWord) && k <= |t|
    ensures Tame(t[k..], M, repl, PrevWord(t, prevWord, k))
    decreases k
  {
    if k > 0 {
      TameSuffix(t[1..], M, repl, IsWordChar(t[0]), k - 1);
      assert t[1..][k - 1..] == t[k..];
    }
  }

  /** Tameness of `a + b` from the indices inside `a` and the tameness of `b` in its place. */
  lemma {:induction false} TameConcat(a: string, b: string, M: Matcher, repl: string, prevWord: bool)
    requires forall j :: 0 <= j < |a| ==> TameAt((a + b)[j..], M, repl, PrevWord(a + b, prevWord, j))
    requires Tame(b, M, repl, PrevWord(a + b, prevWord, |a|))
    ensures Tame(a + b, M, repl, prevWord)
    decreases |a|
  {
    if a == [] {
      assert a + b == b;
    } else {
      var t := a + b;
      assert t[0..] == t;
      assert t[1..] == a[1..] + b;
      forall j | 0 <= j < |a| - 1
        ensures TameAt((a[1..] + b)[j..], M, repl, PrevWord(a[1..] + b, IsWordChar(a[0]), j))
      {
        assert (a[1..] + b)[j..] == t[j + 1..];
        assert PrevWord(a[1..] + b, IsWordChar(a[0]), j) == PrevWord(t, prevWord, j + 1);
      }
      assert PrevWord(a[1..] + b, IsWordChar(a[0]), |a| - 1) == PrevWord(t, prevWord, |a|);
      TameConcat(a[1..], b, M, repl, IsWordChar(a[0]));
    }
  }

  /** A text is tame when its front is and the text after its first character is. */
  lemma TameCons(c: char, rest: string, M: Matcher, repl: string, prevWord: bool)
    requires TameAt([c] + rest, M, repl, prevWord) && Tame(rest, M, repl, IsWordChar(c))
    ensures Tame([c] + rest, M, repl, prevWord)
  {
    assert ([c] + rest)[1..] == rest;
  }

  /** Tameness only depends on what precedes the text through the match at index 0. */
  lemma TameContext(t: string, M: Matcher, repl: string, prevWord: bool, prevWord': bool)
    requires Tame(t, M, repl, prevWord)
    requires t != [] ==> TameAt(t, M, repl, prevWord')
    ensures Tame(t, M, repl, prevWord')
  {
  }

  /** On a tame text, `re.sub` replaces every match by itself: it is the identity. */
  lemma {:induction false} TameFixpoint(t: string, M: Matcher, repl: string, prevWord: bool)
    requires Advances(M) && Tame(t, M, repl, prevWord)
    ensures Sub(t, M, repl, prevWord) == t
    decreases |t|
  {
    if t != [] {
      match M(t, prevWord)
      case Some(m) =>
        SubStepMatch(t, M, repl, prevWord, m);
        TameSuffix(t, M, repl, prevWord, m.end);
        TameFixpoint(t[m.end..], M, repl, IsWordChar(t[m.end - 1]));
        Seqs.TakeDrop(t, m.end);
      case None =>
        SubStepCopy(t, M, repl, prevWord);
        TameSuffix(t, M, repl, prevWord, 1);
        TameFixpoint(t[1..], M, repl, IsWordChar(t[0]));
        assert [t[0]] + t[1..] == t;
    }
  }
}
