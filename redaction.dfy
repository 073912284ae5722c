/**
 * Why `redact_message` hides every credential value and why redacting
 * twice changes nothing: after each `re.sub`, every match of its pattern
 * is the replacement token itself (the text is "tame" for the pattern),
 * and the later substitutions keep the earlier patterns tame.
 */
module Redaction {

  import opened Wrappers
  import opened CharClasses
  import opened Scan
  import opened Patterns
  import opened Extractor
  import Seqs

  /** Applying the digit pattern's matcher is running the digit matcher. */
  lemma DigitMatcherApply(u: string, prevWord: bool)
    ensures MatcherOf(CardDigits)(u, prevWord) == DigitMatch(u, prevWord)
  {
  }

  /** Tameness for a key pattern does not depend on what precedes the text. */
  lemma KeyTameAnyContext(t: string, key: string, repl: string, prevWord: bool, prevWord': bool)
    requires Tame(t, MatcherOf(KeyValue(key)), repl, prevWord)
    ensures Tame(t, MatcherOf(KeyValue(key)), repl, prevWord')
  {
    var M := MatcherOf(KeyValue(key));
    if t != [] {
      KeyMatcherApply(key, t, prevWord);
      KeyMatcherApply(key, t, prevWord');
      assert TameAt(t, M, repl, prevWord');
    }
    TameContext(t, M, repl, prevWord, prevWord');
  }

  /** A text that does not start with a character matching the key's first letter is tame at its front. */
  lemma KeyTameAtFront(t: string, key: string, repl: string, prevWord: bool)
    requires |key| > 0 && (t == [] || !KeyCharMatch(t[0], key[0]))
    ensures TameAt(t, MatcherOf(KeyValue(key)), repl, prevWord)
  {
    KeyMatcherApply(key, t, prevWord);
    KeyMatchStart(t, key);
  }

  /** The scan copies the first character of a text whose front does not match. */
  lemma SubKeepsFront(u: string, M: Matcher, repl: string, prevWord: bool)
    requires Advances(M) && u != [] && M(u, prevWord).None?
    ensures Sub(u, M, repl, prevWord) != [] && Sub(u, M, repl, prevWord)[0] == u[0]
  {
    SubStepCopy(u, M, repl, prevWord);
  }

  /** The remainder of a key substitution after a match starts with a space, if it is not empty. */
  lemma KeyRestFront(u: string, key: string, repl: string, m: Match)
    requires ValidKey(key) && KeyMatch(u, key) == Some(m)
    ensures var rest := Sub(u[m.end..], MatcherOf(KeyValue(key)), repl, IsWordChar(u[m.end - 1]));
      rest == [] || IsSpace(rest[0])
  {
    var M := MatcherOf(KeyValue(key));
    var ctx := IsWordChar(u[m.end - 1]);
    var v := u[m.end..];
    KeyMatchSound(u, key);
    if v == [] {
      SubNotFound(v, M, repl, ctx);
    } else {
      assert v[0] == u[m.end];
      assert IsSpace(v[0]);
      KeyMatcherApply(key, v, ctx);
      KeyMatchStart(v, key);
      SubKeepsFront(v, M, repl, ctx);
    }
  }

  /** No character of the token but its first can begin a match of its own key. */
  lemma TokenInnerChars(key: string)
    requires ValidKey(key)
    ensures forall r :: 1 <= r < |Token(key)| ==> !KeyCharMatch(Token(key)[r], key[0])
  {
    ValidKeyBreaks(key);
    var T := Token(key);
    forall r | 1 <= r < |T|
      ensures !KeyCharMatch(T[r], key[0])
    {
      if r < |key| {
        assert T[r] == key[r];
      } else {
        assert T[r] == '=' || T[r] == '*';
      }
    }
  }

  /** A text whose characters none of which can begin a key match, followed by a tame text, is tame. */
  lemma KeyTameAfterInert(a: string, rest: string, key: string, repl: string, prevWord: bool)
    requires |key| > 0
    requires forall r :: 0 <= r < |a| ==> !KeyCharMatch(a[r], key[0])
    requires Tame(rest, MatcherOf(KeyValue(key)), repl, false)
    ensures Tame(a + rest, MatcherOf(KeyValue(key)), repl, prevWord)
  {
    var M := MatcherOf(KeyValue(key));
    var t := a + rest;
    forall j | 0 <= j < |a|
      ensures TameAt(t[j..], M, repl, PrevWord(t, prevWord, j))
    {
      assert t[j..][0] == a[j];
      KeyTameAtFront(t[j..], key, repl, PrevWord(t, prevWord, j));
    }
    KeyTameAnyContext(rest, key, repl, false, PrevWord(t, prevWord, |a|));
    TameConcat(a, rest, M, repl, prevWord);
  }

  /** The token, followed by a space or nothing and then a tame text, is tame. */
  lemma TokenThenTame(key: string, rest: string, prevWord: bool)
    requires ValidKey(key)
    requires rest == [] || IsSpace(rest[0])
    requires Tame(rest, MatcherOf(KeyValue(key)), Token(key), false)
    ensures Tame(Token(key) + rest, MatcherOf(KeyValue(key)), Token(key), prevWord)
  {
    var T := Token(key);
    TokenInnerChars(key);
    KeyTameAfterInert(T[1..], rest, key, T, IsWordChar(T[0]));
    TokenTameAt(key, rest, prevWord);
    Seqs.ConsTail(T, rest);
    TameCons(T[0], T[1..] + rest, MatcherOf(KeyValue(key)), T, prevWord);
  }

  /** The key match at the front of the token, followed by a space or nothing, is the token. */
  lemma TokenTameAt(key: string, rest: string, prevWord: bool)
    requires ValidKey(key)
    requires rest == [] || IsSpace(rest[0])
    ensures TameAt(Token(key) + rest, MatcherOf(KeyValue(key)), Token(key), prevWord)
  {
    var t := Token(key) + rest;
    TokenMatches(key, rest);
    KeyMatcherApply(key, t, prevWord);
    assert t[..|Token(key)|] == Token(key);
  }

  /**
   * A text that agrees with `u` before `p`, holds a character at `p` that
   * no part of the key prefix after its first letter can take, and whose
   * `u[p]` is not a space, has a key match at its front only if `u` does.
   */
  lemma KeyMatchBlocked(out: string, u: string, key: string, p: nat)
    requires |key| > 0 && 1 <= p < |out| && p < |u|
    requires forall k :: 0 <= k < p ==> out[k] == u[k]
    requires Breaks(key, out[p], 1) && !IsSpace(u[p])
    requires KeyMatch(u, key) == None
    ensures KeyMatch(out, key) == None
  {
    if KeyMatch(out, key).Some? {
      KeyMatchSound(out, key);
      var v := KeyMatch(out, key).value.group;
      var eq := RunEnd(out, |key|, IsSpace);
      BreakerBound(out, key, eq, v, p, 1);
      KeyPrefixTransfer(out, u, key, eq, v);
      KeyPrefixMatches(u, key, eq, v);
      assert false;
    }
  }


  /** Splicing the token into `u` after its front cannot create a key match at the front. */
  lemma KeySpliceNoMatch(u: string, key: string, at: nat, x: string)
    requires ValidKey(key) && 1 <= at < |u| && !IsSpace(u[at])
    requires KeyMatch(u, key) == None
    ensures KeyMatch(u[..at] + Token(key) + x, key) == None
  {
    var T := Token(key);
    Seqs.SpliceAt(u, at, T, x);
    assert (u[..at] + T + x)[at + 0] == T[0];
    ValidKeyBreaks(key);
    KeyMatchBlocked(u[..at] + T + x, u, key, at);
  }

  /** Substituting the token for later key matches cannot create a key match at the front. */
  lemma KeySubFrontNoMatch(u: string, key: string, prevWord: bool)
    requires ValidKey(key) && u != [] && KeyMatch(u, key) == None
    ensures KeyMatch(Sub(u, MatcherOf(KeyValue(key)), Token(key), prevWord), key) == None
  {
    var M := MatcherOf(KeyValue(key));
    var T := Token(key);
    KeyMatcherApply(key, u, prevWord);
    var found, i, m := SubFirst(u, M, T, prevWord);
    if found {
      FoundPastFront(u, KeyValue(key), prevWord, i, m);
      KeyCharIsLetter(u[i], key[0]);
      KeySpliceNoMatch(u, key, i, Sub(u[i + m.end..], M, T, IsWordChar(u[i + m.end - 1])));
    }
  }

  /** After substituting the token for every key match, every key match left is the token. */
  lemma {:induction false} KeySubTame(u: string, key: string, prevWord: bool)
    requires ValidKey(key)
    ensures Tame(Sub(u, MatcherOf(KeyValue(key)), Token(key), prevWord), MatcherOf(KeyValue(key)), Token(key), prevWord)
    decreases |u|
  {
    var M := MatcherOf(KeyValue(key));
    var T := Token(key);
    KeyMatcherApply(key, u, prevWord);
    if u == [] {
      SubNotFound(u, M, T, prevWord);
    } else if KeyMatch(u, key).Some? {
      var m := KeyMatch(u, key).value;
      SubStepMatch(u, M, T, prevWord, m);
      var ctx := IsWordChar(u[m.end - 1]);
      var rest := Sub(u[m.end..], M, T, ctx);
      KeySubTame(u[m.end..], key, ctx);
      KeyTameAnyContext(rest, key, T, ctx, false);
      KeyRestFront(u, key, T, m);
      TokenThenTame(key, rest, prevWord);
    } else {
      SubStepCopy(u, M, T, prevWord);
      var ctx := IsWordChar(u[0]);
      var rest := Sub(u[1..], M, T, ctx);
      var out := [u[0]] + rest;
      KeySubTame(u[1..], key, ctx);
      KeySubFrontNoMatch(u, key, prevWord);
      KeyMatcherApply(key, out, prevWord);
      assert out[1..] == rest;
      assert TameAt(out, M, T, prevWord);
    }
  }

  /** No match of pattern `p` can begin with a character that may stand in a match of `key`, nor with `*`. */
  ghost predicate StartsApart(key: string, p: Pattern) {
    forall c :: StartsMatch(p, c) ==> Breaks(key, c, 0) && c != '*'
  }

  /** Replacement `repl` begins with a character that breaks a match of `key`, and none of its characters begins one. */
  ghost predicate ReplInert(key: string, repl: string) {
    && |key| > 0 && repl != []
    && Breaks(key, repl[0], 0)
    && (forall r :: 0 <= r < |repl| ==> !KeyCharMatch(repl[r], key[0]))
  }

  /** A substitution pattern other than the key's own: non-empty key or the digit pattern. */
  ghost predicate Usable(p: Pattern) {
    p.KeyValue? ==> |p.key| > 0
  }

  /** Each character of the token either may stand in a match of its key or is `*`. */
  lemma TokenCharsBound(key: string, r: nat)
    requires ValidKey(key) && r < |Token(key)|
    ensures !Breaks(key, Token(key)[r], 0) || Token(key)[r] == '*'
  {
    var T := Token(key);
    if r < |key| {
      assert T[r] == key[r];
      assert KeyCharMatch(T[r], key[r]);
    } else if r == |key| {
      assert T[r] == '=';
    } else {
      assert T[r] == '*';
    }
  }

  /**
   * The token matched in `u` ends before `p`, and `out` agrees with `u`
   * up to `p`, so `out` carries the same token match at its front.
   */
  lemma TokenSurvives(out: string, u: string, key: string, eq: nat, p: nat)
    requires ValidKey(key) && |Token(key)| < p <= |u| && p <= |out|
    requires forall k :: 0 <= k < p ==> out[k] == u[k]
    requires KeyPrefixAt(out, key, eq, |key| + 1)
    requires u[..|Token(key)|] == Token(key) && IsSpace(u[|Token(key)|])
    ensures KeyMatch(out, key) == Some(Match(|key| + 1, |Token(key)|))
  {
    var T := Token(key);
    assert out[..|T|] == u[..|T|];
    forall k | |key| + 1 <= k < |T|
      ensures IsNonSpace(out[k])
    {
      assert out[k] == T[k];
    }
    RunEndIs(out, |key| + 1, IsNonSpace, |T|);
    KeyPrefixMatches(out, key, eq, |key| + 1);
  }

  /** A key match at the front of a text whose key matches are tokens is the token, followed by a space or the end. */
  lemma TameFrontShape(u: string, key: string, eq: nat, v: nat, prevWord: bool)
    requires ValidKey(key) && KeyPrefixAt(u, key, eq, v)
    requires TameAt(u, MatcherOf(KeyValue(key)), Token(key), prevWord)
    ensures v == |key| + 1 && |Token(key)| <= |u| && u[..|Token(key)|] == Token(key)
    ensures |Token(key)| == |u| || IsSpace(u[|Token(key)|])
  {
    var T := Token(key);
    KeyMatcherApply(key, u, prevWord);
    KeyPrefixMatches(u, key, eq, v);
    KeyMatchSound(u, key);
    var rest := u[|T|..];
    assert u == T + rest;
    assert rest == [] || rest[0] == u[|T|];
    TokenMatches(key, rest);
  }

  /** The prefix of a key match at the front of `out` stops before `p`, so `u` has it too. */
  lemma PrefixBeforeBreak(out: string, u: string, key: string, eq: nat, v: nat, p: nat)
    requires |key| > 0 && p < |u| && p < |out|
    requires forall k :: 0 <= k < p ==> out[k] == u[k]
    requires Breaks(key, out[p], 0) && !IsSpace(u[p])
    requires KeyPrefixAt(out, key, eq, v)
    ensures v <= p && KeyPrefixAt(u, key, eq, v)
  {
    BreakerBound(out, key, eq, v, p, 0);
    KeyPrefixTransfer(out, u, key, eq, v);
  }

  /**
   * Where `out` agrees with `u` before `p` and both hold characters at `p`
   * that break a key match, a key match at the front of `out` is the token,
   * given that every key match at the front of `u` is.
   */
  lemma CopyFrontKeyTame(out: string, u: string, key: string, p: nat, prevWord: bool)
    requires ValidKey(key) && 1 <= p < |u| && p < |out|
    requires forall k :: 0 <= k < p ==> out[k] == u[k]
    requires Breaks(key, out[p], 0) && Breaks(key, u[p], 0) && u[p] != '*'
    requires TameAt(u, MatcherOf(KeyValue(key)), Token(key), prevWord)
    ensures TameAt(out, MatcherOf(KeyValue(key)), Token(key), prevWord)
  {
    var T := Token(key);
    KeyMatcherApply(key, out, prevWord);
    if KeyMatch(out, key).Some? {
      KeyMatchSound(out, key);
      var v := KeyMatch(out, key).value.group;
      var eq := RunEnd(out, |key|, IsSpace);
      PrefixBeforeBreak(out, u, key, eq, v, p);
      TameFrontShape(u, key, eq, v, prevWord);
      if p < |T| {
        TokenCharsBound(key, p);
      }
      TokenSurvives(out, u, key, eq, p);
    }
  }

  /** Pattern `p`'s matcher applied to a text is `MatchHere`. */
  lemma MatcherApply(p: Pattern, u: string, prevWord: bool)
    ensures MatcherOf(p)(u, prevWord) == MatchHere(u, p, prevWord)
  {
  }

  /** The first match the scan of `p` finds starts with a character `StartsMatch` admits. */
  lemma FoundStarts(u: string, p: Pattern, ctx: bool, f: Found)
    requires Usable(p) && Search(u, MatcherOf(p), ctx) == Some(f)
    ensures f.at < |u| && StartsMatch(p, u[f.at])
  {
    SearchSound(u, MatcherOf(p), ctx);
    MatcherApply(p, u[f.at..], PrevWord(u, ctx, f.at));
    MatchStart(u[f.at..], p, PrevWord(u, ctx, f.at));
  }

  /**
   * The first match of `p` in a text that `p` does not match at the front
   * lies at `i >= 1`, begins with a character `StartsMatch` admits and, for
   * the digit pattern, follows a character that is no digit.
   */
  lemma FoundPastFront(u: string, p: Pattern, ctx: bool, i: nat, m: Match)
    requires Usable(p) && MatcherOf(p)(u, ctx).None?
    requires Search(u, MatcherOf(p), ctx) == Some(Found(i, m))
    ensures 0 < i < |u| && StartsMatch(p, u[i])
    ensures p.CardDigits? ==> !IsDigit(u[i - 1])
  {
    SearchPastFront(u, MatcherOf(p), ctx);
    FoundStarts(u, p, ctx, Found(i, m));
    if p.CardDigits? {
      FoundAfterNonDigit(u, ctx, Found(i, m));
    }
  }

  /** Splicing `repl` into `u` after its front keeps a front key match a token. */
  lemma SpliceFrontTame(u: string, key: string, p: Pattern, repl: string, at: nat, x: string, prevWord: bool)
    requires ValidKey(key) && StartsApart(key, p) && ReplInert(key, repl)
    requires 1 <= at < |u| && StartsMatch(p, u[at])
    requires TameAt(u, MatcherOf(KeyValue(key)), Token(key), prevWord)
    ensures TameAt(u[..at] + repl + x, MatcherOf(KeyValue(key)), Token(key), prevWord)
  {
    Seqs.SpliceAt(u, at, repl, x);
    assert (u[..at] + repl + x)[at + 0] == repl[0];
    CopyFrontKeyTame(u[..at] + repl + x, u, key, at, prevWord);
  }

  /** With no match of `p` at the front of `u`, substituting `repl` keeps the front key match a token. */
  lemma OtherSubFrontTame(u: string, key: string, p: Pattern, repl: string, prevWord: bool, ctx: bool)
    requires ValidKey(key) && Usable(p) && StartsApart(key, p) && ReplInert(key, repl)
    requires u != [] && MatcherOf(p)(u, ctx).None?
    requires TameAt(u, MatcherOf(KeyValue(key)), Token(key), prevWord)
    ensures TameAt(Sub(u, MatcherOf(p), repl, ctx), MatcherOf(KeyValue(key)), Token(key), prevWord)
  {
    var M := MatcherOf(p);
    var found, i, m := SubFirst(u, M, repl, ctx);
    if found {
      FoundPastFront(u, p, ctx, i, m);
      SubSpliceFrontTame(u, key, p, repl, i, m, prevWord, ctx);
    }
  }

  /** `SpliceFrontTame`, read through the equation of the substitution at its first match. */
  lemma SubSpliceFrontTame(u: string, key: string, p: Pattern, repl: string, i: nat, m: Match, prevWord: bool, ctx: bool)
    requires ValidKey(key) && StartsApart(key, p) && ReplInert(key, repl)
    requires 1 <= i < |u| && 0 < m.end && i + m.end <= |u| && StartsMatch(p, u[i])
    requires TameAt(u, MatcherOf(KeyValue(key)), Token(key), prevWord)
    requires Sub(u, MatcherOf(p), repl, ctx) ==
      u[..i] + repl + Sub(u[i + m.end..], MatcherOf(p), repl, IsWordChar(u[i + m.end - 1]))
    ensures TameAt(Sub(u, MatcherOf(p), repl, ctx), MatcherOf(KeyValue(key)), Token(key), prevWord)
  {
    SpliceFrontTame(u, key, p, repl, i, Sub(u[i + m.end..], MatcherOf(p), repl, IsWordChar(u[i + m.end - 1])), prevWord);
  }

  /** A later substitution of pattern `p` keeps every key match a token. */
  lemma {:induction false} SubKeepsKeyTame(u: string, key: string, p: Pattern, repl: string, ctx: bool)
    requires ValidKey(key) && Usable(p) && StartsApart(key, p) && ReplInert(key, repl)
    requires Tame(u, MatcherOf(KeyValue(key)), Token(key), false)
    ensures Tame(Sub(u, MatcherOf(p), repl, ctx), MatcherOf(KeyValue(key)), Token(key), false)
    decreases |u|
  {
    var M := MatcherOf(p);
    var MK := MatcherOf(KeyValue(key));
    var T := Token(key);
    if u == [] {
      SubNotFound(u, M, repl, ctx);
    } else if M(u, ctx).Some? {
      var m := M(u, ctx).value;
      SubStepMatch(u, M, repl, ctx, m);
      var ctx' := IsWordChar(u[m.end - 1]);
      TameSuffix(u, MK, T, false, m.end);
      KeyTameAnyContext(u[m.end..], key, T, PrevWord(u, false, m.end), false);
      SubKeepsKeyTame(u[m.end..], key, p, repl, ctx');
      KeyTameAfterInert(repl, Sub(u[m.end..], M, repl, ctx'), key, T, false);
    } else {
      SubStepCopy(u, M, repl, ctx);
      var ctx' := IsWordChar(u[0]);
      var rest := Sub(u[1..], M, repl, ctx');
      var out := [u[0]] + rest;
      KeyTameAnyContext(u[1..], key, T, ctx', false);
      SubKeepsKeyTame(u[1..], key, p, repl, ctx');
      KeyTameAnyContext(rest, key, T, false, ctx');
      OtherSubFrontTame(u, key, p, repl, false, ctx);
      assert out[1..] == rest;
    }
  }

  /** A text that agrees with `u` before `p`, where `u[p - 1]` is no digit, has a card match at its front only if `u` does. */
  lemma DigitFrontBlocked(out: string, u: string, prevWord: bool, p: nat)
    requires 1 <= p <= |u| && p <= |out|
    requires forall k :: 0 <= k < p ==> out[k] == u[k]
    requires !IsDigit(u[p - 1])
    requires DigitMatch(u, prevWord) == None
    ensures DigitMatch(out, prevWord) == None
  {
    if DigitMatch(out, prevWord).Some? {
      var n := DigitMatch(out, prevWord).value.end;
      assert n < p;
      assert DigitSpec(u, prevWord, n);
      DigitMatchIsRegexMatch(u, prevWord, n);
      assert false;
    }
  }

  /** A card match found after the front of `u` is preceded by a character that is no digit. */
  lemma FoundAfterNonDigit(u: string, prevWord: bool, f: Found)
    requires Search(u, MatcherOf(CardDigits), prevWord) == Some(f) && f.at >= 1
    ensures f.at <= |u| && !IsDigit(u[f.at - 1])
  {
    SearchSound(u, MatcherOf(CardDigits), prevWord);
    DigitMatcherApply(u[f.at..], PrevWord(u, prevWord, f.at));
  }

  /** Splicing the mask into `u` after a non-digit cannot create a card match at the front. */
  lemma MaskSpliceFront(u: string, prevWord: bool, at: nat, x: string)
    requires 1 <= at <= |u| && !IsDigit(u[at - 1]) && DigitMatch(u, prevWord) == None
    ensures DigitMatch(u[..at] + Mask + x, prevWord) == None
  {
    Seqs.SpliceAt(u, at, Mask, x);
    DigitFrontBlocked(u[..at] + Mask + x, u, prevWord, at);
  }

  /** Masking later card numbers cannot create a card match at the front. */
  lemma MaskCopyFront(u: string, prevWord: bool)
    requires u != [] && DigitMatch(u, prevWord) == None
    ensures DigitMatch(Sub(u, MatcherOf(CardDigits), Mask, prevWord), prevWord) == None
  {
    var M := MatcherOf(CardDigits);
    DigitMatcherApply(u, prevWord);
    var found, i, m := SubFirst(u, M, Mask, prevWord);
    if found {
      FoundPastFront(u, CardDigits, prevWord, i, m);
      MaskSpliceFront(u, prevWord, i, Sub(u[i + m.end..], M, Mask, IsWordChar(u[i + m.end - 1])));
    }
  }

  /** The text after a card match starts with a character that is no word character, if it is not empty. */
  lemma MaskRestFront(u: string, prevWord: bool, m: Match)
    requires DigitMatch(u, prevWord) == Some(m)
    ensures 0 < m.end <= |u| && IsWordChar(u[m.end - 1])
    ensures var rest := Sub(u[m.end..], MatcherOf(CardDigits), Mask, true);
      rest == [] || !IsDigit(rest[0])
  {
    var M := MatcherOf(CardDigits);
    var v := u[m.end..];
    if v == [] {
      SubNotFound(v, M, Mask, true);
    } else {
      assert v[0] == u[m.end];
      DigitMatcherApply(v, true);
      SubKeepsFront(v, M, Mask, true);
    }
  }

  /** The mask, followed by a text whose card matches are all masks, is such a text. */
  lemma MaskThenTame(rest: string, prevWord: bool)
    requires Tame(rest, MatcherOf(CardDigits), Mask, false)
    ensures Tame(Mask + rest, MatcherOf(CardDigits), Mask, prevWord)
  {
    var M := MatcherOf(CardDigits);
    var t := Mask + rest;
    forall j | 0 <= j < |Mask|
      ensures TameAt(t[j..], M, Mask, PrevWord(t, prevWord, j))
    {
      assert t[j..][0] == '*';
      DigitMatcherApply(t[j..], PrevWord(t, prevWord, j));
    }
    assert t[|Mask| - 1] == '*';
    TameConcat(Mask, rest, M, Mask, prevWord);
  }

  /** After masking, no card match is left but the mask itself, and the mask is none. */
  lemma {:induction false} MaskTame(u: string, prevWord: bool)
    ensures Tame(Sub(u, MatcherOf(CardDigits), Mask, prevWord), MatcherOf(CardDigits), Mask, prevWord)
    decreases |u|
  {
    var M := MatcherOf(CardDigits);
    DigitMatcherApply(u, prevWord);
    if u == [] {
      SubNotFound(u, M, Mask, prevWord);
    } else if DigitMatch(u, prevWord).Some? {
      var m := DigitMatch(u, prevWord).value;
      SubStepMatch(u, M, Mask, prevWord, m);
      MaskRestFront(u, prevWord, m);
      var rest := Sub(u[m.end..], M, Mask, true);
      MaskTame(u[m.end..], true);
      if rest != [] {
        DigitMatcherApply(rest, false);
      }
      TameContext(rest, M, Mask, true, false);
      MaskThenTame(rest, prevWord);
    } else {
      SubStepCopy(u, M, Mask, prevWord);
      var rest := Sub(u[1..], M, Mask, IsWordChar(u[0]));
      var out := [u[0]] + rest;
      MaskTame(u[1..], IsWordChar(u[0]));
      MaskCopyFront(u, prevWord);
      DigitMatcherApply(out, prevWord);
      assert out[1..] == rest;
    }
  }

  /** The two keys `redact_message` uses are valid keys. */
  lemma KeysValid()
    ensures ValidKey(UserKey) && ValidKey(PassKey)
  {
  }

  /** A character matching the letter `p` is `p` or `P`, so it cannot stand in a match of `user`. */
  lemma PassStartsApartFromUser()
    ensures StartsApart(UserKey, KeyValue(PassKey))
  {
    forall c | StartsMatch(KeyValue(PassKey), c)
      ensures Breaks(UserKey, c, 0) && c != '*'
    {
      assert c == 'p' || c == 'P';
    }
  }

  /** A digit cannot stand in a match of a valid key, and it is no `*`. */
  lemma DigitsStartApart(key: string)
    requires ValidKey(key)
    ensures StartsApart(key, CardDigits)
  {
    forall c | StartsMatch(CardDigits, c)
      ensures Breaks(key, c, 0) && c != '*'
    {
      forall k | 0 <= k < |key|
        ensures !KeyCharMatch(c, key[k])
      {
      }
    }
  }

  /** The replacements of the later steps break the matches of the earlier keys. */
  lemma LaterReplacementsInert()
    ensures ReplInert(UserKey, Token(PassKey))
    ensures ReplInert(UserKey, Mask) && ReplInert(PassKey, Mask)
  {
    var T := Token(PassKey);
    assert T == "pass=***";
  }

  /** Every match of each of the three patterns in a text is that pattern's replacement. */
  ghost predicate Redacted(t: string) {
    && Tame(t, MatcherOf(KeyValue(UserKey)), Token(UserKey), false)
    && Tame(t, MatcherOf(KeyValue(PassKey)), Token(PassKey), false)
    && Tame(t, MatcherOf(CardDigits), Mask, false)
  }

  /** The output of `redact_message` is redacted for all three patterns at once. */
  lemma RedactedIsTame(text: string)
    ensures Redacted(RedactMessage(text))
  {
    KeysValid();
    PassStartsApartFromUser();
    DigitsStartApart(UserKey);
    DigitsStartApart(PassKey);
    LaterReplacementsInert();
    var a := RedactKey(text, UserKey);
    var b := RedactKey(a, PassKey);
    KeySubTame(text, UserKey, false);
    KeySubTame(a, PassKey, false);
    SubKeepsKeyTame(a, UserKey, KeyValue(PassKey), Token(PassKey), false);
    MaskTame(b, false);
    SubKeepsKeyTame(b, UserKey, CardDigits, Mask, false);
    SubKeepsKeyTame(b, PassKey, CardDigits, Mask, false);
  }

  /** Redacting an already-redacted message returns it unchanged. */
  lemma RedactIdempotent(text: string)
    ensures RedactMessage(RedactMessage(text)) == RedactMessage(text)
  {
    var c := RedactMessage(text);
    RedactedIsTame(text);
    TameFixpoint(c, MatcherOf(KeyValue(UserKey)), Token(UserKey), false);
    TameFixpoint(c, MatcherOf(KeyValue(PassKey)), Token(PassKey), false);
    TameFixpoint(c, MatcherOf(CardDigits), Mask, false);
  }

  /**
   * In a text where every match of a valid key is its token, every match,
   * at any index, is exactly the token and its value is `***`.
   */
  lemma TameKeyMatchIsToken(t: string, key: string, i: nat, m: Match)
    requires ValidKey(key) && Tame(t, MatcherOf(KeyValue(key)), Token(key), false)
    requires i <= |t| && KeyMatch(t[i..], key) == Some(m)
    ensures m == Match(|key| + 1, |Token(key)|)
    ensures t[i..][..m.end] == Token(key) && t[i..][m.group..m.end] == "***"
  {
    TameEverywhere(t, MatcherOf(KeyValue(key)), Token(key), false, i);
    FrontKeyMatchIsToken(t[i..], key, PrevWord(t, false, i), m);
  }

  /** A key match at the front of a text whose front is tame is exactly the token. */
  lemma FrontKeyMatchIsToken(u: string, key: string, prevWord: bool, m: Match)
    requires ValidKey(key) && TameAt(u, MatcherOf(KeyValue(key)), Token(key), prevWord)
    requires KeyMatch(u, key) == Some(m)
    ensures m == Match(|key| + 1, |Token(key)|)
    ensures u[..m.end] == Token(key) && u[m.group..m.end] == "***"
  {
    var T := Token(key);
    KeyMatcherApply(key, u, prevWord);
    KeyMatchSound(u, key);
    TameFrontShape(u, key, RunEnd(u, |key|, IsSpace), m.group, prevWord);
    assert u[m.group..m.end] == T[|key| + 1..];
  }

  /** The redacted message shows no `user` or `pass` value other than `***`. */
  lemma RedactHidesValues(text: string, key: string, i: nat, m: Match)
    requires key == UserKey || key == PassKey
    requires i <= |RedactMessage(text)| && KeyMatch(RedactMessage(text)[i..], key) == Some(m)
    ensures RedactMessage(text)[i..][m.group..m.end] == "***"
  {
    KeysValid();
    RedactedIsTame(text);
    TameKeyMatchIsToken(RedactMessage(text), key, i, m);
  }

  /** Extracting credentials from a redacted message finds nothing or the mask `***`. */
  lemma ExtractFromRedacted(text: string)
    ensures var r := ExtractCredentials(RedactMessage(text));
      (r.username == None || r.username == Some("***")) && (r.password == None || r.password == Some("***"))
  {
    CaptureOfRedacted(text, UserKey, ExtractCredentials(RedactMessage(text)).username);
    CaptureOfRedacted(text, PassKey, ExtractCredentials(RedactMessage(text)).password);
  }

  /** A first capture in the redacted message is `***`. */
  lemma CaptureOfRedacted(text: string, key: string, c: Option<string>)
    requires key == UserKey || key == PassKey
    requires IsFirstCapture(RedactMessage(text), key, c)
    ensures c == None || c == Some("***")
  {
    if c.Some? {
      var t := RedactMessage(text);
      var i: nat, eq: nat, m: Match :| i <= |t| && KeyMatchSpec(t[i..], key, eq, m) && c.value == t[i..][m.group..m.end];
      KeyMatchIsRegexMatch(t[i..], key, m);
      RedactHidesValues(text, key, i, m);
    }
  }

  /** No index of `t` starts a run of 12 to 19 digits standing alone between word boundaries. */
  ghost predicate NoCardNumber(t: string) {
    forall i: nat, n: nat :: i <= |t| ==> !DigitSpec(t[i..], PrevWord(t, false, i), n)
  }

  /** A text whose card matches are all masks holds no card number, since the mask holds no digit. */
  lemma DigitTameNoCard(t: string)
    requires Tame(t, MatcherOf(CardDigits), Mask, false)
    ensures NoCardNumber(t)
  {
    forall i: nat, n: nat | i <= |t|
      ensures !DigitSpec(t[i..], PrevWord(t, false, i), n)
    {
      var ctx := PrevWord(t, false, i);
      if DigitSpec(t[i..], ctx, n) {
        DigitMatchIsRegexMatch(t[i..], ctx, n);
        TameEverywhere(t, MatcherOf(CardDigits), Mask, false, i);
        DigitMatcherApply(t[i..], ctx);
        assert false;
      }
    }
  }

  /** Without card numbers, the digit matcher finds nothing at any index. */
  lemma NoCardNoMatch(text: string, j: nat)
    requires NoCardNumber(text) && j <= |text|
    ensures DigitMatch(text[j..], PrevWord(text, false, j)) == None
  {
  }

  /** Masking leaves a text unchanged exactly when it holds no card number. */
  lemma MaskFixedIff(text: string)
    ensures MaskCardNumbers(text) == text <==> NoCardNumber(text)
  {
    var M := MatcherOf(CardDigits);
    if MaskCardNumbers(text) == text {
      MaskTame(text, false);
      DigitTameNoCard(text);
    }
    if NoCardNumber(text) {
      forall j | 0 <= j <= |text|
        ensures !MatchesAt(text, M, false, j)
      {
        var ctx := PrevWord(text, false, j);
        DigitMatcherApply(text[j..], ctx);
        NoCardNoMatch(text, j);
      }
      SubWithoutMatch(text, M, Mask, false);
    }
  }

  /** Redacting a key leaves a text unchanged exactly when every match of the key in it is already the token. */
  lemma RedactKeyFixedIff(text: string, key: string)
    requires ValidKey(key)
    ensures RedactKey(text, key) == text <==> Tame(text, MatcherOf(KeyValue(key)), Token(key), false)
  {
    KeySubTame(text, key, false);
    if Tame(text, MatcherOf(KeyValue(key)), Token(key), false) {
      TameFixpoint(text, MatcherOf(KeyValue(key)), Token(key), false);
    }
  }

  /** After masking, no card number is left. */
  lemma MaskRemovesCards(text: string)
    ensures NoCardNumber(MaskCardNumbers(text))
  {
    MaskTame(text, false);
    DigitTameNoCard(MaskCardNumbers(text));
  }

  /** No card number is left in a redacted message. */
  lemma RedactedHasNoCardNumber(text: string)
    ensures NoCardNumber(RedactMessage(text))
  {
    RedactedIsTame(text);
    DigitTameNoCard(RedactMessage(text));
  }
}
