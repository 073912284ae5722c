/**
 * What `extract_credentials` and `redact_message` do with messages of a
 * given shape, down to the example of the documentation comment.
 */
module Examples {

  import opened Wrappers
  import opened CharClasses
  import opened Scan
  import opened Patterns
  import opened Extractor

  /** No index before `i` starts a key match when no character there matches the key's first letter. */
  lemma KeyStartFree(u: string, key: string, prevWord: bool, i: nat)
    requires |key| > 0 && i <= |u|
    requires forall j :: 0 <= j < i ==> !KeyCharMatch(u[j], key[0])
    ensures NoKeyMatchBefore(u, key, i)
    ensures NoMatchBefore(u, MatcherOf(KeyValue(key)), prevWord, i)
  {
    forall j | 0 <= j < i
      ensures KeyMatch(u[j..], key) == None
    {
      assert u[j..][0] == u[j];
      KeyMatchStart(u[j..], key);
    }
  }

  /** A text in which no character matches the key's first letter is left alone by the key's substitution. */
  lemma KeyFreeUnchanged(s: string, key: string, prevWord: bool)
    requires |key| > 0
    requires forall j :: 0 <= j < |s| ==> !KeyCharMatch(s[j], key[0])
    ensures Sub(s, MatcherOf(KeyValue(key)), Token(key), prevWord) == s
  {
    KeyStartFree(s, key, prevWord, |s|);
    SubWithoutMatch(s, MatcherOf(KeyValue(key)), Token(key), prevWord);
  }

  /** No index before `i` starts a card match when there is no digit there. */
  lemma DigitStartFree(u: string, prevWord: bool, i: nat)
    requires i <= |u|
    requires forall j :: 0 <= j < i ==> !IsDigit(u[j])
    ensures NoMatchBefore(u, MatcherOf(CardDigits), prevWord, i)
  {
    forall j | 0 <= j < i
      ensures DigitMatch(u[j..], PrevWord(u, prevWord, j)) == None
    {
      assert u[j..][0] == u[j];
    }
  }

  /** A text without digits is left alone by the card mask. */
  lemma DigitFreeUnchanged(s: string, prevWord: bool)
    requires forall j :: 0 <= j < |s| ==> !IsDigit(s[j])
    ensures Sub(s, MatcherOf(CardDigits), Mask, prevWord) == s
  {
    DigitStartFree(s, prevWord, |s|);
    SubWithoutMatch(s, MatcherOf(CardDigits), Mask, prevWord);
  }

  /** No index of `pre` starts a key match in `pre + tail` when no character of `pre` matches the key's first letter. */
  lemma KeyFreePrefix(pre: string, tail: string, key: string)
    requires |key| > 0
    requires forall j :: 0 <= j < |pre| ==> !KeyCharMatch(pre[j], key[0])
    ensures NoKeyMatchBefore(pre + tail, key, |pre|)
    ensures (pre + tail)[|pre|..] == tail
  {
    KeyStartFree(pre + tail, key, false, |pre|);
  }

  /** Where the value sits in `key=value`. */
  lemma ValueAt(written: string, s1: string, s2: string, value: string, rest: string)
    ensures var g := |written| + |s1| + 1 + |s2|;
      (written + s1 + "=" + s2 + value + rest)[g..g + |value|] == value
  {
  }

  /** The group of a match at the front of the tail, read in the whole text. */
  lemma SliceOfTail(pre: string, tail: string, m: Match, value: string)
    requires m.group <= m.end <= |tail| && tail[m.group..m.end] == value
    ensures (pre + tail)[|pre| + m.group..|pre| + m.end] == value
  {
    assert (pre + tail)[|pre| + m.group..|pre| + m.end] == tail[m.group..m.end];
  }

  /**
   * A key written in any case, with any spaces around `=`, after text in
   * which no character matches the key's first letter (so also right after
   * other letters: the key is not anchored to a word boundary), yields its
   * whole value.
   */
  lemma CaptureAfter(pre: string, written: string, key: string, s1: string, s2: string, value: string, rest: string)
    requires |written| == |key| && |key| > 0 && KeyAt(written, key)
    requires forall j :: 0 <= j < |pre| ==> !KeyCharMatch(pre[j], key[0])
    requires (forall k :: 0 <= k < |s1| ==> IsSpace(s1[k])) && (forall k :: 0 <= k < |s2| ==> IsSpace(s2[k]))
    requires |value| > 0 && forall k :: 0 <= k < |value| ==> !IsSpace(value[k])
    requires rest == [] || IsSpace(rest[0])
    ensures Capture(pre + (written + s1 + "=" + s2 + value + rest), key) == Some(value)
  {
    KeyValueMatches(written, key, s1, s2, value, rest);
    ValueAt(written, s1, s2, value, rest);
    CaptureAtTail(pre, written + s1 + "=" + s2 + value + rest, key, |key| + |s1| + 1 + |s2|, value);
  }

  /** With no key match before index `i` and one at `i` whose group spells `value`, the capture is `value`. */
  lemma CaptureIs(t: string, key: string, i: nat, m: Match, value: string)
    requires i <= |t|
    requires NoKeyMatchBefore(t, key, i)
    requires KeyMatch(t[i..], key) == Some(m)
    requires i + m.group <= i + m.end <= |t| && t[i + m.group..i + m.end] == value
    ensures Capture(t, key) == Some(value)
  {
    CaptureAt(t, key, i, m);
  }

  /** A key match at the front of `tail`, after a prefix that cannot start one, is the first capture. */
  lemma CaptureAtTail(pre: string, tail: string, key: string, g: nat, value: string)
    requires |key| > 0
    requires forall j :: 0 <= j < |pre| ==> !KeyCharMatch(pre[j], key[0])
    requires KeyMatch(tail, key) == Some(Match(g, g + |value|))
    requires g + |value| <= |tail| && tail[g..g + |value|] == value
    ensures Capture(pre + tail, key) == Some(value)
  {
    KeyFreePrefix(pre, tail, key);
    CaptureAfterFree(pre, tail, key, g, value);
  }

  /** A key match at the front of `tail`, with no key match in `pre + tail` before it, is the first capture. */
  lemma CaptureAfterFree(pre: string, tail: string, key: string, g: nat, value: string)
    requires NoKeyMatchBefore(pre + tail, key, |pre|)
    requires KeyMatch(tail, key) == Some(Match(g, g + |value|))
    requires g + |value| <= |tail| && tail[g..g + |value|] == value
    ensures Capture(pre + tail, key) == Some(value)
  {
    var m := Match(g, g + |value|);
    assert (pre + tail)[|pre|..] == tail;
    SliceOfTail(pre, tail, m, value);
    CaptureIs(pre + tail, key, |pre|, m, value);
  }

  /** A text in which no character matches the key's first letter yields `None` for that key. */
  lemma CaptureAbsent(text: string, key: string)
    requires |key| > 0 && forall j :: 0 <= j < |text| ==> !KeyCharMatch(text[j], key[0])
    ensures Capture(text, key) == None
  {
    KeyStartFree(text, key, false, |text|);
    CaptureNone(text, key);
  }

  /** No key match starts inside `super`, whatever follows it. */
  lemma SuperHoldsNoUser(tail: string)
    ensures NoKeyMatchBefore("super" + tail, UserKey, |"super"|)
  {
    var t := "super" + tail;
    forall j | 0 <= j < |"super"|
      ensures KeyMatch(t[j..], UserKey) == None
    {
      if j == 1 {
        assert t[j..][1] == 'p';
      } else {
        assert t[j..][0] == "super"[j];
        KeyMatchStart(t[j..], UserKey);
      }
    }
  }

  /**
   * The key is not anchored to a word boundary: in `superuser=V`, the
   * `user` inside the word yields the value `V`.
   */
  lemma CaptureInsideWord(value: string)
    requires |value| > 0 && forall k :: 0 <= k < |value| ==> !IsSpace(value[k])
    ensures Capture("superuser=" + value, UserKey) == Some(value)
  {
    var tail := UserKey + [] + "=" + [] + value + [];
    assert "superuser=" + value == "super" + tail;
    KeyValueMatches(UserKey, UserKey, [], [], value, []);
    assert tail[5..5 + |value|] == value;
    SuperHoldsNoUser(tail);
    CaptureAfterFree("super", tail, UserKey, 5, value);
  }

  /** `user=U ` holds no `p` when `U` holds none. */
  lemma UserPartNoP(u: string)
    requires forall k :: 0 <= k < |u| ==> !KeyCharMatch(u[k], 'p')
    ensures forall j :: 0 <= j < |"user=" + u + " "| ==> !KeyCharMatch(("user=" + u + " ")[j], PassKey[0])
  {
    var pre := "user=" + u + " ";
    forall j | 0 <= j < |pre|
      ensures !KeyCharMatch(pre[j], 'p')
    {
      if 5 <= j < 5 + |u| {
        assert pre[j] == u[j - 5];
      }
    }
  }

  /** The username of `user=U pass=P` is `U`. */
  lemma ExtractPairUser(u: string, p: string)
    requires |u| > 0 && forall k :: 0 <= k < |u| ==> !IsSpace(u[k])
    ensures Capture("user=" + u + " pass=" + p, UserKey) == Some(u)
  {
    assert "user=" + u + " pass=" + p == [] + (UserKey + [] + "=" + [] + u + (" pass=" + p));
    CaptureAfter([], UserKey, UserKey, [], [], u, " pass=" + p);
  }

  /** The password of `user=U pass=P` is `P`, when no character of `U` is a `p`. */
  lemma ExtractPairPass(u: string, p: string)
    requires forall k :: 0 <= k < |u| ==> !KeyCharMatch(u[k], 'p')
    requires |p| > 0 && forall k :: 0 <= k < |p| ==> !IsSpace(p[k])
    ensures Capture("user=" + u + " pass=" + p, PassKey) == Some(p)
  {
    var pre := "user=" + u + " ";
    assert "user=" + u + " pass=" + p == pre + (PassKey + [] + "=" + [] + p + []);
    UserPartNoP(u);
    CaptureAfter(pre, PassKey, PassKey, [], [], p, []);
  }

  /** `user=U pass=P` yields `U` and `P`, when no character of `U` is a `p`. */
  lemma ExtractPair(u: string, p: string)
    requires |u| > 0 && forall k :: 0 <= k < |u| ==> !IsSpace(u[k]) && !KeyCharMatch(u[k], 'p')
    requires |p| > 0 && forall k :: 0 <= k < |p| ==> !IsSpace(p[k])
    ensures ExtractCredentials("user=" + u + " pass=" + p) == Credentials(Some(u), Some(p))
  {
    ExtractPairUser(u, p);
    ExtractPairPass(u, p);
  }

  /** The username of the documentation comment's example. */
  lemma DocExampleUser()
    ensures Capture("user=john pass=12345", UserKey) == Some("john")
  {
    assert "user=" + "john" + " pass=" + "12345" == "user=john pass=12345";
    ExtractPairUser("john", "12345");
  }

  /** The password of the documentation comment's example. */
  lemma DocExamplePass()
    ensures Capture("user=john pass=12345", PassKey) == Some("12345")
  {
    assert "user=" + "john" + " pass=" + "12345" == "user=john pass=12345";
    ExtractPairPass("john", "12345");
  }

  /** The example of the documentation comment of `extract_credentials`. */
  lemma ExtractDocExample()
    ensures ExtractCredentials("user=john pass=12345") == Credentials(Some("john"), Some("12345"))
  {
    DocExampleUser();
    DocExamplePass();
  }

  /** Upper-case key, spaces around `=`: the username is still found. */
  lemma MixedCaseUser()
    ensures Capture("USER = alice   pass=secret!", UserKey) == Some("alice")
  {
    assert "USER = alice   pass=secret!" == [] + ("USER" + " " + "=" + " " + "alice" + "   pass=secret!");
    assert KeyAt("USER", UserKey);
    CaptureAfter([], "USER", UserKey, " ", " ", "alice", "   pass=secret!");
  }

  /** The password after the mixed-case username. */
  lemma MixedCasePass()
    ensures Capture("USER = alice   pass=secret!", PassKey) == Some("secret!")
  {
    assert "USER = alice   pass=secret!" == "USER = alice   " + ("pass" + [] + "=" + [] + "secret!" + []);
    assert KeyAt("pass", PassKey);
    assert forall j :: 0 <= j < |"USER = alice   "| ==> !KeyCharMatch("USER = alice   "[j], PassKey[0]);
    CaptureAfter("USER = alice   ", "pass", PassKey, [], [], "secret!", []);
  }

  /** Extraction ignores case and tolerates spaces around `=`. */
  lemma ExtractMixedCaseExample()
    ensures ExtractCredentials("USER = alice   pass=secret!") == Credentials(Some("alice"), Some("secret!"))
  {
    MixedCaseUser();
    MixedCasePass();
  }

  /** ` pass=P` holds no `u` when `P` holds none. */
  lemma PassPartNoU(p: string)
    requires forall k :: 0 <= k < |p| ==> !KeyCharMatch(p[k], 'u')
    ensures forall j :: 0 <= j < |" pass=" + p| ==> !KeyCharMatch((" pass=" + p)[j], UserKey[0])
  {
    var s := " pass=" + p;
    forall j | 0 <= j < |s|
      ensures !KeyCharMatch(s[j], 'u')
    {
      if 6 <= j {
        assert s[j] == p[j - 6];
      }
    }
  }

  /** A key match at the front is replaced by the token and the scan resumes after the value. */
  lemma RedactFront(key: string, value: string, rest: string, prevWord: bool)
    requires ValidKey(key) && |value| > 0 && forall k :: 0 <= k < |value| ==> !IsSpace(value[k])
    requires rest == [] || IsSpace(rest[0])
    ensures Sub(key + [] + "=" + [] + value + rest, MatcherOf(KeyValue(key)), Token(key), prevWord) ==
      Token(key) + Sub(rest, MatcherOf(KeyValue(key)), Token(key), IsWordChar(value[|value| - 1]))
  {
    var t := key + [] + "=" + [] + value + rest;
    var n := |key| + 1 + |value|;
    KeyValueMatches(key, key, [], [], value, rest);
    SubStepMatch(t, MatcherOf(KeyValue(key)), Token(key), prevWord, Match(|key| + 1, n));
    assert t[n..] == rest && t[n - 1] == value[|value| - 1];
  }

  /**
   * A key substitution on `key=V` followed by text with no character matching
   * the key's first letter replaces `V` and copies the rest.
   */
  lemma RedactFirstOnly(key: string, value: string, rest: string, prevWord: bool)
    requires ValidKey(key) && |value| > 0 && forall k :: 0 <= k < |value| ==> !IsSpace(value[k])
    requires rest == [] || IsSpace(rest[0])
    requires forall k :: 0 <= k < |rest| ==> !KeyCharMatch(rest[k], key[0])
    ensures Sub(key + "=" + value + rest, MatcherOf(KeyValue(key)), Token(key), prevWord) == Token(key) + rest
  {
    assert key + "=" + value + rest == key + [] + "=" + [] + value + rest;
    RedactFront(key, value, rest, prevWord);
    KeyFreeUnchanged(rest, key, IsWordChar(value[|value| - 1]));
  }

  /** A key substitution copies a prefix with no character matching the key's first letter and ending in a space. */
  lemma SubCopiesFree(pre: string, rest: string, key: string)
    requires |key| > 0 && |pre| > 0 && IsSpace(pre[|pre| - 1]) && !IsWordChar(pre[|pre| - 1])
    requires forall k :: 0 <= k < |pre| ==> !KeyCharMatch(pre[k], key[0])
    ensures Sub(pre + rest, MatcherOf(KeyValue(key)), Token(key), false) ==
      pre + Sub(rest, MatcherOf(KeyValue(key)), Token(key), false)
  {
    KeyStartFree(pre + rest, key, false, |pre|);
    SubCopies(pre, rest, MatcherOf(KeyValue(key)), Token(key), false);
    assert (pre + rest)[|pre| - 1] == pre[|pre| - 1];
  }

  /** The `user` step on `user=U pass=P` replaces `U`, when no character of `P` is a `u`. */
  lemma RedactPairUser(u: string, p: string)
    requires |u| > 0 && forall k :: 0 <= k < |u| ==> !IsSpace(u[k])
    requires forall k :: 0 <= k < |p| ==> !KeyCharMatch(p[k], 'u')
    ensures RedactKey("user=" + u + " pass=" + p, UserKey) == Token(UserKey) + (" pass=" + p)
  {
    assert "user=" + u + " pass=" + p == UserKey + "=" + u + (" pass=" + p);
    PassPartNoU(p);
    RedactFirstOnly(UserKey, u, " pass=" + p, false);
  }

  /** The `user` token followed by a space, as the `pass` step sees it. */
  lemma UserTokenShape(p: string)
    ensures Token(UserKey) + (" pass=" + p) == "user=*** " + (PassKey + "=" + p + [])
    ensures forall k :: 0 <= k < |"user=*** "| ==> !KeyCharMatch("user=*** "[k], PassKey[0])
  {
  }

  /** The `pass` step on `user=*** pass=P` replaces `P`. */
  lemma RedactPairPass(p: string)
    requires |p| > 0 && forall k :: 0 <= k < |p| ==> !IsSpace(p[k])
    ensures RedactKey(Token(UserKey) + (" pass=" + p), PassKey) == "user=*** " + Token(PassKey)
  {
    UserTokenShape(p);
    SubCopiesFree("user=*** ", PassKey + "=" + p + [], PassKey);
    RedactFirstOnly(PassKey, p, [], false);
  }

  /** The card mask leaves the redacted pair alone. */
  lemma RedactedPairUnmasked()
    ensures MaskCardNumbers("user=*** pass=***") == "user=*** pass=***"
  {
    DigitFreeUnchanged("user=*** pass=***", false);
  }

  /** `redact_message` on `user=U pass=P` hides both values, when no character of `P` is a `u`. */
  lemma RedactPair(u: string, p: string)
    requires |u| > 0 && forall k :: 0 <= k < |u| ==> !IsSpace(u[k])
    requires |p| > 0 && forall k :: 0 <= k < |p| ==> !IsSpace(p[k]) && !KeyCharMatch(p[k], 'u')
    ensures RedactMessage("user=" + u + " pass=" + p) == "user=*** pass=***"
  {
    RedactPairUser(u, p);
    RedactPairPass(p);
    assert "user=*** " + Token(PassKey) == "user=*** pass=***";
    RedactedPairUnmasked();
  }

  /** `redact_message` on the documentation comment's example. */
  lemma RedactDocExample()
    ensures RedactMessage("user=john pass=12345") == "user=*** pass=***"
  {
    assert "user=" + "john" + " pass=" + "12345" == "user=john pass=12345";
    RedactPair("john", "12345");
  }

  /** The `pass` step leaves `user=*** john` alone. */
  lemma RepeatPassStep()
    ensures RedactKey("user=*** john", PassKey) == "user=*** john"
  {
    KeyFreeUnchanged("user=*** john", PassKey, false);
  }

  /** The mask leaves `user=*** john` alone. */
  lemma RepeatMaskStep()
    ensures MaskCardNumbers("user=*** john") == "user=*** john"
  {
    DigitFreeUnchanged("user=*** john", false);
  }

  /**
   * Redaction hides the value at the key, not the value's text elsewhere:
   * a second `john` that no key precedes stays in the message.
   */
  lemma ValueElsewhereKept()
    ensures RedactMessage("user=john john") == "user=*** john"
  {
    assert "user=john john" == UserKey + "=" + "john" + " john";
    assert forall k :: 0 <= k < |" john"| ==> !KeyCharMatch(" john"[k], UserKey[0]);
    assert Token(UserKey) + " john" == "user=*** john";
    RedactFirstOnly(UserKey, "john", " john", false);
    RepeatPassStep();
    RepeatMaskStep();
  }

  /** A run of 12 to 19 digits at the front, after no word character and before no word character, becomes the mask. */
  lemma MaskRunAtFront(digits: string, post: string)
    requires MinCardDigits <= |digits| <= MaxCardDigits
    requires forall k :: 0 <= k < |digits| ==> IsDigit(digits[k])
    requires post == [] || !IsWordChar(post[0])
    ensures Sub(digits + post, MatcherOf(CardDigits), Mask, false) ==
      Mask + Sub(post, MatcherOf(CardDigits), Mask, true)
  {
    var t := digits + post;
    var n := |digits|;
    assert DigitSpec(t, false, n);
    DigitMatchIsRegexMatch(t, false, n);
    SubStepMatch(t, MatcherOf(CardDigits), Mask, false, Match(0, n));
    assert t[n..] == post && IsWordChar(t[n - 1]);
  }

  /** A masked run at the front followed by digit-free text. */
  lemma MaskRunThenCopy(digits: string, post: string)
    requires MinCardDigits <= |digits| <= MaxCardDigits
    requires forall k :: 0 <= k < |digits| ==> IsDigit(digits[k])
    requires forall k :: 0 <= k < |post| ==> !IsDigit(post[k])
    requires post == [] || !IsWordChar(post[0])
    ensures Sub(digits + post, MatcherOf(CardDigits), Mask, false) == Mask + post
  {
    MaskRunAtFront(digits, post);
    DigitFreeUnchanged(post, true);
  }

  /** Digit masking copies a digit-free prefix that does not end in a word character. */
  lemma MaskCopiesPrefix(pre: string, rest: string)
    requires forall k :: 0 <= k < |pre| ==> !IsDigit(pre[k])
    requires pre == [] || !IsWordChar(pre[|pre| - 1])
    ensures MaskCardNumbers(pre + rest) == pre + Sub(rest, MatcherOf(CardDigits), Mask, false)
  {
    DigitStartFree(pre + rest, false, |pre|);
    SubCopies(pre, rest, MatcherOf(CardDigits), Mask, false);
    assert |pre| > 0 ==> (pre + rest)[|pre| - 1] == pre[|pre| - 1];
  }

  /**
   * Digit masking on a text with one digit run: a run of 12 to 19 digits with
   * no word character on either side becomes `****`; the text around it is copied.
   */
  lemma MaskRun(pre: string, digits: string, post: string)
    requires forall k :: 0 <= k < |pre| ==> !IsDigit(pre[k])
    requires pre == [] || !IsWordChar(pre[|pre| - 1])
    requires MinCardDigits <= |digits| <= MaxCardDigits
    requires forall k :: 0 <= k < |digits| ==> IsDigit(digits[k])
    requires forall k :: 0 <= k < |post| ==> !IsDigit(post[k])
    requires post == [] || !IsWordChar(post[0])
    ensures MaskCardNumbers(pre + digits + post) == pre + Mask + post
  {
    assert pre + digits + post == pre + (digits + post);
    MaskCopiesPrefix(pre, digits + post);
    MaskRunThenCopy(digits, post);
  }

  /**
   * A digit run whose length is outside 12 to 19, or with a word character
   * directly before it, gives no match where it begins.
   */
  lemma RunStartKept(pre: string, digits: string, post: string)
    requires |digits| > 0 && forall k :: 0 <= k < |digits| ==> IsDigit(digits[k])
    requires post == [] || !IsDigit(post[0])
    requires var n := |digits|;
      || n < MinCardDigits || MaxCardDigits < n
      || (|pre| > 0 && IsWordChar(pre[|pre| - 1]))
      || (|post| > 0 && IsWordChar(post[0]))
    ensures DigitMatch(digits + post, PrevWord(pre + digits + post, false, |pre|)) == None
  {
    var t := digits + post;
    var pw := PrevWord(pre + digits + post, false, |pre|);
    assert |pre| > 0 ==> pw == IsWordChar(pre[|pre| - 1]);
    assert forall k :: 0 <= k < |digits| ==> IsDigit(t[k]);
    assert |post| > 0 ==> t[|digits|] == post[0];
    RunEndIs(t, 0, IsDigit, |digits|);
  }

  /** Inside a digit run, or after it, nothing starts a card match. */
  lemma NoMatchAfterRunStart(pre: string, digits: string, post: string, j: nat)
    requires forall k :: 0 <= k < |digits| ==> IsDigit(digits[k])
    requires forall k :: 0 <= k < |post| ==> !IsDigit(post[k])
    requires |pre| < j <= |pre + digits + post|
    ensures !MatchesAt(pre + digits + post, MatcherOf(CardDigits), false, j)
  {
    var u := pre + digits + post;
    if j <= |pre| + |digits| {
      assert IsDigit(u[j - 1]);
    } else if j < |u| {
      assert u[j..][0] == post[j - |pre| - |digits|];
    }
  }

  /**
   * Digit masking on a text with one digit run leaves it alone when the run
   * is shorter than 12, longer than 19, or has a word character beside it.
   */
  lemma KeepRun(pre: string, digits: string, post: string)
    requires forall k :: 0 <= k < |pre| ==> !IsDigit(pre[k])
    requires |digits| > 0 && forall k :: 0 <= k < |digits| ==> IsDigit(digits[k])
    requires forall k :: 0 <= k < |post| ==> !IsDigit(post[k])
    requires var n := |digits|;
      || n < MinCardDigits || MaxCardDigits < n
      || (|pre| > 0 && IsWordChar(pre[|pre| - 1]))
      || (|post| > 0 && IsWordChar(post[0]))
    ensures MaskCardNumbers(pre + digits + post) == pre + digits + post
  {
    var u := pre + digits + post;
    DigitStartFree(u, false, |pre|);
    assert u[|pre|..] == digits + post;
    RunStartKept(pre, digits, post);
    forall j | |pre| < j <= |u|
      ensures !MatchesAt(u, MatcherOf(CardDigits), false, j)
    {
      NoMatchAfterRunStart(pre, digits, post, j);
    }
    SubWithoutMatch(u, MatcherOf(CardDigits), Mask, false);
  }

  /** On a text with no character that can begin `user` or `pass`, `redact_message` is the mask step alone. */
  lemma KeyFreeRedact(t: string)
    requires forall j :: 0 <= j < |t| ==> !KeyCharMatch(t[j], UserKey[0]) && !KeyCharMatch(t[j], PassKey[0])
    ensures RedactMessage(t) == MaskCardNumbers(t)
  {
    KeyFreeUnchanged(t, UserKey, false);
    KeyFreeUnchanged(t, PassKey, false);
  }

  /** `card 1234567890123456 ok` holds no character that can begin `user` or `pass`. */
  lemma CardExampleKeyFree()
    ensures RedactMessage("card 1234567890123456 ok") == MaskCardNumbers("card 1234567890123456 ok")
  {
    KeyFreeRedact("card 1234567890123456 ok");
  }

  /** A 16-digit card number between spaces is masked. */
  lemma MaskCardExample()
    ensures MaskCardNumbers("card 1234567890123456 ok") == "card **** ok"
  {
    assert "card 1234567890123456 ok" == "card " + "1234567890123456" + " ok";
    assert "card " + Mask + " ok" == "card **** ok";
    MaskRun("card ", "1234567890123456", " ok");
  }

  /** `redact_message` masks the card number of the example and changes nothing else. */
  lemma RedactCardExample()
    ensures RedactMessage("card 1234567890123456 ok") == "card **** ok"
  {
    CardExampleKeyFree();
    MaskCardExample();
  }

  /** `code 1234567890` holds no character that can begin `user` or `pass`. */
  lemma ShortRunKeyFree()
    ensures RedactMessage("code 1234567890") == MaskCardNumbers("code 1234567890")
  {
    KeyFreeRedact("code 1234567890");
  }

  /** A 10-digit run is too short to be masked. */
  lemma KeepShortRunExample()
    ensures MaskCardNumbers("code 1234567890") == "code 1234567890"
  {
    assert "code 1234567890" == "code " + "1234567890" + [];
    KeepRun("code ", "1234567890", []);
  }

  /** `redact_message` keeps the 10-digit run. */
  lemma RedactShortRunExample()
    ensures RedactMessage("code 1234567890") == "code 1234567890"
  {
    ShortRunKeyFree();
    KeepShortRunExample();
  }

  /** `id 12345678901234567890` holds no character that can begin `user` or `pass`. */
  lemma LongRunKeyFree()
    ensures RedactMessage("id 12345678901234567890") == MaskCardNumbers("id 12345678901234567890")
  {
    KeyFreeRedact("id 12345678901234567890");
  }

  /** A 20-digit run is too long to be masked. */
  lemma KeepLongRunExample()
    ensures MaskCardNumbers("id 12345678901234567890") == "id 12345678901234567890"
  {
    assert "id 12345678901234567890" == "id " + "12345678901234567890" + [];
    KeepRun("id ", "12345678901234567890", []);
  }

  /** `redact_message` keeps the 20-digit run. */
  lemma RedactLongRunExample()
    ensures RedactMessage("id 12345678901234567890") == "id 12345678901234567890"
  {
    LongRunKeyFree();
    KeepLongRunExample();
  }

  /** `id1234567890123456` holds no character that can begin `user` or `pass`. */
  lemma GluedRunKeyFree()
    ensures RedactMessage("id1234567890123456") == MaskCardNumbers("id1234567890123456")
  {
    KeyFreeRedact("id1234567890123456");
  }

  /** A 16-digit run glued to a letter is not masked. */
  lemma KeepGluedRunExample()
    ensures MaskCardNumbers("id1234567890123456") == "id1234567890123456"
  {
    assert "id1234567890123456" == "id" + "1234567890123456" + [];
    KeepRun("id", "1234567890123456", []);
  }

  /** `redact_message` keeps the glued 16-digit run. */
  lemma RedactGluedRunExample()
    ensures RedactMessage("id1234567890123456") == "id1234567890123456"
  {
    GluedRunKeyFree();
    KeepGluedRunExample();
  }
}
