# Sensitive-data filter of vault_ai_backend, in Dafny

The backend filters each chat message before anything reaches the language
model. It has two string functions:

- `extract_credentials` picks out the value written after `user=` and after
  `pass=`. Matching is case-insensitive and allows spaces around `=`.
- `redact_message` replaces each whole `user … = value` span with the
  literal `user=***`, and likewise each `pass … = value` span with `pass=***`.
  The key as written and the spaces around `=` go too, so `USER = alice`
  becomes `user=***`. It then replaces every stand-alone run of 12 to 19
  digits, such as a card number, with `****`.

This project models both functions as pure Dafny functions. It proves what
they return and what the redacted message can no longer contain.

There is no general regular-expression engine. The two fixed patterns are
hand-coded as matchers that try the pattern at the start of a text:

- `Patterns.KeyMatch` matches `key\s*=\s*([^\s]+)` under `re.IGNORECASE`.
- `Patterns.DigitMatch` matches `\b\d{12,19}\b`.

Two scanners are built on top of any matcher:

- `Scan.Search` is `re.search`: it returns the leftmost match.
- `Scan.Sub` is `re.sub`: it replaces non-overlapping matches from left to right.

`Scan.Sub` walks the text one index at a time. It is tied back to the search
by `Scan.SubFound` and `Scan.SubNotFound`: the substitution copies what lies
before the leftmost match, writes the replacement, and goes on after the match.

A `\b` needs to know the character before the current index. The scanners
therefore carry a flag saying whether that character is a word character.

Module layout:

- `wrappers.dfy`: `Option`.
- `seqs.dfy`: sequence facts used in the proofs.
- `char_classes.dfy`: `\s`, `\d`, `\w` and the case-insensitive comparison.
- `scan.dfy`: search and substitution.
- `patterns.dfy`: the two matchers.
- `extractor.dfy`: the two functions of `extractor.py`.
- `redaction.dfy`: the properties of `redact_message`.
- `examples.dfy`: what both functions do on messages of given shapes.

The central notion of the proofs is `Scan.Tame`. A text is tame for a pattern
when every match of the pattern, at every index, is exactly the replacement
text. The proof chain runs as follows:

1. Each substitution makes its own pattern tame.
2. Later substitutions keep the earlier patterns tame.
3. On a tame text a substitution is the identity.

Idempotence, the hiding of values and the absence of card numbers all follow
from this chain. The tokens `user=***` and `pass=***` do match the key
pattern again, with the value `***`, but each match covers exactly the token,
so a second substitution writes back what was there.

What is hidden is the value standing at a key. The same characters elsewhere
in the message are kept: `user=john john` becomes `user=*** john`
(`Examples.ValueElsewhereKept`). The hiding promise is therefore stated as
`Redaction.RedactHidesValues`: every `user` or `pass` match left in the output
has the value `***`.

## Model

| member | source | states |
|---|---|---|
| Patterns.KeyMatch | extractor.py:11-12 | the matcher for `key\s*=\s*([^\s]+)` at one index; its contract bounds the value inside the text, and Patterns.KeyMatchSound and Patterns.KeyMatchIsRegexMatch carry the rest |
| Patterns.KeyMatchSound | extractor.py:11-12 | any match is the key (case-insensitive), maximal spaces, `=`, maximal spaces, then a value of non-space characters that ends at a space or at the end of the text |
| Patterns.KeyMatchIsRegexMatch | extractor.py:11-12 | the key matcher succeeds with exactly the match the pattern describes under greedy matching, in both directions |
| Patterns.KeyPrefixMatches | extractor.py:11-12 | wherever `key\s*=\s*` is followed by a non-space character, the matcher matches, and the value is the whole run of non-space characters |
| Patterns.KeyMatchStart | extractor.py:11-12 | a match needs a first character that equals the key's first letter, ignoring case |
| Patterns.KeyValueMatches | extractor.py:11-12 | a key written in any case, with any spaces around `=`, followed by a value and then a space or the end, matches with exactly that value as group 1 |
| Patterns.Token | extractor.py:26-27 | the replacement `user=***` / `pass=***` begins with the lower-case key |
| Patterns.TokenMatches | extractor.py:26-27 | the replacement token followed by a space or the end is itself a match whose value is `***` |
| Patterns.DigitMatch | extractor.py:30 | any digit match is a run of 12 to 19 digits with a word boundary on both sides |
| Patterns.DigitMatchIsRegexMatch | extractor.py:30 | the digit matcher succeeds with length `n` exactly when `\b\d{n}\b` holds for `n` in 12..19; backtracking finds nothing more |
| Patterns.RunEndSpec | extractor.py:11-12 | a greedy run: every character before the result has the property, and the result is the end or a character without it |
| Scan.Search | extractor.py:11-17 | `re.search` as a left-to-right scan; Scan.SearchSound, Scan.SearchLeftmost and Scan.SearchFinds carry its contract |
| Scan.SearchSound | extractor.py:11-12 | `re.search`: what the search finds lies inside the text, and the pattern matches there with that match |
| Scan.SearchLeftmost | extractor.py:11-12 | `re.search` is leftmost: no index before what it finds matches, and `None` only when no index matches |
| Scan.SearchFinds | extractor.py:11-12 | the search returns the first index at which the pattern matches |
| Scan.SearchGroupAt | extractor.py:11-17 | with no match before index `i` and one at `i`, `.group(1)` of the search is that match's group |
| Scan.Sub | extractor.py:26-30 | `re.sub` as a left-to-right scan; Scan.SubFound and Scan.SubNotFound carry its contract |
| Scan.SubCopies | extractor.py:26-30 | text before the first match is copied unchanged |
| Scan.SubWithoutMatch | extractor.py:26-30 | a text with no match anywhere is returned unchanged |
| Scan.SubCopiesUpTo | extractor.py:26-30 | the text before an index where nothing has matched yet is copied unchanged |
| Scan.SubAtFirstMatch | extractor.py:26-30 | with no match before `i` and one at `i`, `re.sub` copies the text before `i`, emits the replacement and goes on after the match |
| Scan.SubFound | extractor.py:26-30 | `re.sub` agrees with `re.search`: it copies the text before the leftmost match, replaces it and goes on after it |
| Scan.SubNotFound | extractor.py:26-30 | when `re.search` finds nothing, `re.sub` returns the text unchanged |
| Scan.TameFixpoint | extractor.py:26-30 | when every match is already the replacement, `re.sub` is the identity |
| Scan.TameEverywhere | extractor.py:26-30 | in a tame text, the match at every index, read with the right preceding character, is exactly the replacement |
| Extractor.Capture | extractor.py:11-17 | `re.search(...).group(1)` or `None`; Extractor.CaptureShape and Extractor.CaptureIsFirstMatch carry its contract |
| Extractor.CaptureShape | extractor.py:11-17 | a captured value is non-empty, holds no whitespace and is a contiguous slice of the input |
| Extractor.CaptureIsFirstMatch | extractor.py:11-17 | the capture is `None` exactly when the pattern occurs nowhere; otherwise it is the value of the leftmost occurrence |
| Extractor.CaptureAt | extractor.py:11-17 | with no match before index `i` and one at `i`, the capture is that match's value |
| Extractor.CaptureNone | extractor.py:8-17 | with no match anywhere, the field stays `None` |
| Extractor.MatchesAtIffOccurs | extractor.py:11-12 | the key matcher matches at an index exactly where the pattern occurs there |
| Extractor.ExtractCredentials | extractor.py:3-19 | `username` and `password` are each the first capture for their own key, independently of each other |
| Extractor.RedactKey | extractor.py:26-27 | one key substitution; Redaction.KeySubTame and Redaction.RedactKeyFixedIff carry its contract |
| Extractor.MaskCardNumbers | extractor.py:30 | the card-number mask; Redaction.MaskTame, Redaction.MaskFixedIff and Redaction.MaskRemovesCards carry its contract |
| Extractor.RedactMessage | extractor.py:22-32 | the `user` step, then the `pass` step, then the mask; Redaction.RedactIdempotent, Redaction.RedactHidesValues and Redaction.RedactedHasNoCardNumber carry its contract |
| Redaction.KeySubTame | extractor.py:26-27 | after a key substitution, every remaining key match is the token `key=***` |
| Redaction.SubKeepsKeyTame | extractor.py:26-30 | a later substitution (the `pass` step, the digit mask) creates no new key match other than the token |
| Redaction.MaskTame | extractor.py:30 | after masking, no digit match is left: the mask holds no digit |
| Redaction.RedactedIsTame | extractor.py:22-32 | in the output of `redact_message`, every `user` match is `user=***`, every `pass` match is `pass=***`, and no digit match remains |
| Redaction.RedactIdempotent | extractor.py:22-32 | redacting an already-redacted message returns it unchanged |
| Redaction.TameKeyMatchIsToken | extractor.py:26-27 | in a tame text, every key match covers exactly the token, and its value is `***` |
| Redaction.FrontKeyMatchIsToken | extractor.py:26-27 | a key match at the front of a text whose front is tame is exactly the token `key=***` |
| Redaction.RedactHidesValues | extractor.py:24-27 | every `user` or `pass` match in the redacted message has the value `***` |
| Redaction.ExtractFromRedacted | extractor.py:3-32 | extracting credentials from a redacted message gives `None` or `***` for each field |
| Redaction.DigitTameNoCard | extractor.py:30 | a text whose only digit matches are masks holds no card number |
| Redaction.MaskFixedIff | extractor.py:30 | masking leaves a text unchanged exactly when it holds no stand-alone run of 12 to 19 digits |
| Redaction.RedactKeyFixedIff | extractor.py:26-27 | a key substitution leaves a text unchanged exactly when every key match in it is already the token |
| Redaction.MaskRemovesCards | extractor.py:30 | no card number is left after masking |
| Redaction.RedactedHasNoCardNumber | extractor.py:29-30 | the redacted message holds no card number |
| Examples.CaptureAfter | extractor.py:11-17 | a key in any case, with any spaces around `=`, after text that cannot start a match, yields its whole value |
| Examples.CaptureInsideWord | extractor.py:11-15 | the key is not word-anchored: `superuser=V` yields `V` |
| Examples.CaptureAbsent | extractor.py:8-17 | a text with no character that could start the key yields `None` |
| Examples.ExtractPair | extractor.py:3-19 | `user=U pass=P` yields `U` and `P` (for `U` without a `p`) |
| Examples.ExtractDocExample | extractor.py:6-19 | the docstring example `user=john pass=12345` yields `john` and `12345` |
| Examples.ExtractMixedCaseExample | extractor.py:11-19 | `USER = alice   pass=secret!` yields `alice` and `secret!`: case and spaces around `=` do not matter |
| Examples.RedactFront | extractor.py:26-27 | a key substitution on a message that begins with `key=V` emits `key=***`, then continues after `V` |
| Examples.RedactPair | extractor.py:22-32 | `user=U pass=P` is redacted to `user=*** pass=***` (for `P` without a `u`) |
| Examples.RedactDocExample | extractor.py:6-32 | the docstring example is redacted to `user=*** pass=***` |
| Examples.ValueElsewhereKept | extractor.py:26-32 | only the value at the key is hidden: `user=john john` becomes `user=*** john` |
| Examples.MaskRun | extractor.py:30 | in a text whose only digits are this run, a run of 12 to 19 digits with no word character on either side becomes `****`; the text around it is copied |
| Examples.KeepRun | extractor.py:30 | in a text whose only digits are this run, a run shorter than 12 or longer than 19 digits, or next to a letter or underscore, is left untouched |
| Examples.MaskCardExample | extractor.py:30 | the mask step turns `card 1234567890123456 ok` into `card **** ok` |
| Examples.RedactCardExample | extractor.py:22-32 | `redact_message` turns `card 1234567890123456 ok` into `card **** ok` |
| Examples.KeepShortRunExample | extractor.py:30 | the mask step keeps a 10-digit run |
| Examples.RedactShortRunExample | extractor.py:22-32 | `redact_message` keeps a 10-digit run |
| Examples.KeepLongRunExample | extractor.py:30 | the mask step keeps a 20-digit run |
| Examples.RedactLongRunExample | extractor.py:22-32 | `redact_message` keeps a 20-digit run |
| Examples.KeepGluedRunExample | extractor.py:30 | the mask step keeps a 16-digit run glued to a letter |
| Examples.RedactGluedRunExample | extractor.py:22-32 | `redact_message` keeps a 16-digit run glued to a letter |

## Left out

- main.py is not part of this model. It holds the web endpoint, the
  environment and key loading, and the streaming call to the language model,
  which are network and I/O plumbing over a foreign library.
- tools.py is not part of this model. It holds only constant data: the prompt
  template and the tool schemas.
- `\d` and `\w` are ASCII only. Python's versions also accept other Unicode
  digits and letters, so a run of, say, Arabic-Indic digits is not masked by
  this model. The ASCII `\w` also moves `\b` the other way: a run of 12 to 19
  ASCII digits glued to a non-ASCII letter, as in `é1234567890123456` or a card
  number glued to CJK text, is masked by this model, while Python keeps it,
  because its `\w` holds `é` and so finds no `\b` before the first digit.
- `re.IGNORECASE` is modelled as ASCII case folding plus the long s
  (U+017F), which matches `s`. No other Unicode case folding is modelled. The
  letters of `user` and `pass` have no other folding partners except `s`.
- `\s` is the full `str.isspace` set, including the separators U+001C to U+001F.
- A Python `str` may hold lone surrogate code points (U+D800 to U+DFFF), which a
  Dafny `char` cannot represent. Such a character is neither `\s`, `\d` nor
  `\w` and has no case partner, so leaving it out changes no result.
- The returned dictionary is the datatype `Credentials`, with two `Option`
  fields instead of a dynamic map holding `None`.
- There is no general regular-expression engine. Only the two fixed patterns
  of `extractor.py` are modelled, each by a hand-written matcher proved equal
  to the pattern's meaning.
- Examples.ExtractPair and Examples.RedactPair require that `U` holds no `p`,
  or that `P` holds no `u`. With such a letter, an earlier partial key spelling
  could matter, and those texts are covered only by the general lemmas.
- Examples.MaskRun and Examples.KeepRun require that the text before and after
  the run holds no digit, so the run is the text's only digit run. Texts with
  several digit runs, such as `12345 1234567890123456`, are covered only by
  the general lemmas Redaction.MaskFixedIff and Redaction.MaskRemovesCards.
