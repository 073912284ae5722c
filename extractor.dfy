/**
 * The sensitive-data filter: `extract_credentials` and `redact_message`.
 */
module Extractor {

  import opened Wrappers
  import opened CharClasses
  import opened Scan
  import opened Patterns
  import Seqs

  const UserKey: string := "user"
  const PassKey: string := "pass"

  /** What long digit runs are replaced with. */
  const Mask: string := "****"

  /** The dictionary `extract_credentials` returns; `None` where a key was not found. */
  datatype Credentials = Credentials(username: Option<string>, password: Option<string>)

  /** The key pattern occurs at index `i`: key, spaces, `=`, spaces, then a non-space character. */
  ghost predicate KeyOccursAt(text: string, key: string, i: nat)
    requires i <= |text|
  {
    exists eq, v :: KeyPrefixAt(text[i..], key, eq, v)
  }

  /**
   * `c` is what group 1 of the leftmost match of `key\s*=\s*([^\s]+)`
   * captures in `text`: `None` when the pattern occurs nowhere, otherwise
   * the greedy value run of the occurrence with no occurrence before it.
   */
  ghost predicate IsFirstCapture(text: string, key: string, c: Option<string>) {
    match c
    case None => forall i :: 0 <= i <= |text| ==> !KeyOccursAt(text, key, i)
    case Some(value) =>
      exists i: nat, eq: nat, m: Match ::
        && i <= |text|
        && KeyMatchSpec(text[i..], key, eq, m)
        && value == text[i..][m.group..m.end]
        && forall j :: 0 <= j < i ==> !KeyOccursAt(text, key, j)
  }

  /** The key matcher finds a match at `i` exactly where the key pattern occurs. */
  lemma MatchesAtIffOccurs(text: string, key: string, i: nat)
    requires i <= |text|
    ensures MatchesAt(text, MatcherOf(KeyValue(key)), false, i) <==> KeyOccursAt(text, key, i)
  {
    var t := text[i..];
    KeyMatchSound(t, key);
    KeyMatcherApply(key, t, PrevWord(text, false, i));
    if KeyOccursAt(text, key, i) {
      var eq, v :| KeyPrefixAt(t, key, eq, v);
      KeyPrefixMatches(t, key, eq, v);
    }
  }

  /** `s` occurs in `text` at index `a`. */
  ghost predicate SliceAt(text: string, a: nat, s: string) {
    a + |s| <= |text| && text[a..a + |s|] == s
  }

  /** What a search for the key pattern found is a key match at that index. */
  lemma FoundKeyMatch(text: string, key: string, f: Found)
    requires Search(text, MatcherOf(KeyValue(key)), false) == Some(f)
    ensures f.at <= |text| && KeyMatch(text[f.at..], key) == Some(f.m)
  {
    SearchSound(text, MatcherOf(KeyValue(key)), false);
    KeyMatcherApply(key, text[f.at..], PrevWord(text, false, f.at));
  }

  /** A key match at index `at`, read in the whole text: its value is a maximal run of non-space characters. */
  lemma KeyMatchValue(text: string, key: string, at: nat, m: Match)
    requires at <= |text| && KeyMatch(text[at..], key) == Some(m)
    ensures at + m.group < at + m.end <= |text|
    ensures forall k :: at + m.group <= k < at + m.end ==> !IsSpace(text[k])
    ensures at + m.end == |text| || IsSpace(text[at + m.end])
  {
    var t := text[at..];
    KeyMatchSound(t, key);
    assert forall k :: m.group <= k < m.end ==> !IsSpace(t[k]);
  }

  /** `re.search(key\s*=\s*([^\s]+), text, re.IGNORECASE).group(1)`, or `None`. */
  function Capture(text: string, key: string): (r: Option<string>) {
    SearchGroup(text, MatcherOf(KeyValue(key)), false)
  }

  /** A captured value is a non-empty run of non-space characters of the text. */
  lemma CaptureShape(text: string, key: string)
    ensures var r := Capture(text, key);
      r.Some? ==>
        && |r.value| > 0
        && (forall k :: 0 <= k < |r.value| ==> !IsSpace(r.value[k]))
        && exists a: nat :: SliceAt(text, a, r.value)
  {
    var M := MatcherOf(KeyValue(key));
    match Search(text, M, false)
    case None =>
    case Some(f) =>
      SearchGroupOfFound(text, M, false, f);
      FoundKeyMatch(text, key, f);
      KeyMatchValue(text, key, f.at, f.m);
      var v := text[f.at + f.m.group..f.at + f.m.end];
      assert SliceAt(text, f.at + f.m.group, v);
  }

  /** Applying a key pattern's matcher is running the key matcher; `\b` plays no part. */
  lemma KeyMatcherApply(key: string, u: string, prevWord: bool)
    ensures MatcherOf(KeyValue(key))(u, prevWord) == KeyMatch(u, key)
  {
  }

  /** No key match starts at an index before `i`. */
  ghost predicate NoKeyMatchBefore(text: string, key: string, i: nat)
    requires i <= |text|
  {
    forall j :: 0 <= j < i ==> KeyMatch(text[j..], key) == None
  }

  /** The key matcher, read as the scanner's matcher, finds nothing before `i` either. */
  lemma NoKeyMatcherMatch(text: string, key: string, i: nat)
    requires i <= |text| && NoKeyMatchBefore(text, key, i)
    ensures NoMatchBefore(text, MatcherOf(KeyValue(key)), false, i)
  {
    var M := MatcherOf(KeyValue(key));
    forall j | 0 <= j < i
      ensures !MatchesAt(text, M, false, j)
    {
      KeyMatcherApply(key, text[j..], PrevWord(text, false, j));
    }
  }

  /** The key matcher finds nothing before index `i` exactly when the key pattern occurs nowhere before it. */
  lemma NoMatchesBefore(text: string, key: string, i: nat)
    requires i <= |text|
    requires NoMatchBefore(text, MatcherOf(KeyValue(key)), false, i)
    ensures forall j :: 0 <= j < i ==> !KeyOccursAt(text, key, j)
  {
    forall j | 0 <= j < i
      ensures !KeyOccursAt(text, key, j)
    {
      MatchesAtIffOccurs(text, key, j);
    }
  }

  /** The capture is group 1 of the leftmost match: the lemma behind `extract_credentials`. */
  lemma CaptureIsFirstMatch(text: string, key: string)
    ensures IsFirstCapture(text, key, Capture(text, key))
  {
    var found, i, m := FirstMatch(text, MatcherOf(KeyValue(key)), false);
    if found {
      KeyMatcherApply(key, text[i..], PrevWord(text, false, i));
      FirstCaptureSome(text, key, i, m);
    } else {
      FirstCaptureNone(text, key);
    }
  }

  /** With no match anywhere, the key pattern occurs nowhere. */
  lemma FirstCaptureNone(text: string, key: string)
    requires NoMatchBefore(text, MatcherOf(KeyValue(key)), false, |text|)
    ensures IsFirstCapture(text, key, None)
  {
    NoMatchesBefore(text, key, |text|);
    assert text[|text|..] == [];
    MatchesAtIffOccurs(text, key, |text|);
  }

  /** The value of a match with no match before it is the first capture. */
  lemma FirstCaptureSome(text: string, key: string, i: nat, m: Match)
    requires i <= |text| && NoMatchBefore(text, MatcherOf(KeyValue(key)), false, i)
    requires KeyMatch(text[i..], key) == Some(m)
    ensures i + m.group <= i + m.end <= |text|
    ensures IsFirstCapture(text, key, Some(text[i + m.group..i + m.end]))
  {
    NoMatchesBefore(text, key, i);
    var t := text[i..];
    KeyMatchSound(t, key);
    var eq := RunEnd(t, |key|, IsSpace);
    assert KeyMatchSpec(t, key, eq, m);
    Seqs.DropSlice(text, i, m.group, m.end);
  }

  /** With no key match before index `i` and one at `i`, the capture is that match's value. */
  lemma CaptureAt(text: string, key: string, i: nat, m: Match)
    requires i <= |text| && NoKeyMatchBefore(text, key, i)
    requires KeyMatch(text[i..], key) == Some(m)
    ensures Capture(text, key) == Some(text[i + m.group..i + m.end])
  {
    NoKeyMatcherMatch(text, key, i);
    KeyMatcherApply(key, text[i..], PrevWord(text, false, i));
    SearchGroupAt(text, MatcherOf(KeyValue(key)), false, i, m);
  }

  /** With no key match at any index, there is nothing to capture. */
  lemma CaptureNone(text: string, key: string)
    requires NoKeyMatchBefore(text, key, |text|)
    ensures Capture(text, key) == None
  {
    var M := MatcherOf(KeyValue(key));
    NoKeyMatcherMatch(text, key, |text|);
    SearchSound(text, M, false);
    if Search(text, M, false).Some? {
      assert MatchesAt(text, M, false, Search(text, M, false).value.at);
    }
  }

  /** `extract_credentials`: each field is the first capture for its own key, independently of the other. */
  function ExtractCredentials(text: string): (r: Credentials)
    ensures IsFirstCapture(text, UserKey, r.username)
    ensures IsFirstCapture(text, PassKey, r.password)
  {
    CaptureIsFirstMatch(text, UserKey);
    CaptureIsFirstMatch(text, PassKey);
    Credentials(Capture(text, UserKey), Capture(text, PassKey))
  }

  /** `re.sub(key\s*=\s*[^\s]+, key + "=***", text, flags=re.IGNORECASE)`. */
  function RedactKey(text: string, key: string): (r: string) {
    Sub(text, MatcherOf(KeyValue(key)), Token(key), false)
  }

  /** `re.sub(\b\d{12,19}\b, "****", text)`. */
  function MaskCardNumbers(text: string): (r: string) {
    Sub(text, MatcherOf(CardDigits), Mask, false)
  }

  /** `redact_message`: the user values, then the pass values, then the long digit runs. */
  function RedactMessage(text: string): (r: string) {
    MaskCardNumbers(RedactKey(RedactKey(text, UserKey), PassKey))
  }
}
