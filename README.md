# Transliteration engine to Ge'ez script — Dafny model

This project models the transliteration engine of `code/translitration.py`.
The engine turns Latin-script and Arabic-script transcriptions into approximate
Ge'ez (Amharic fidel) text. It is all table-driven string processing. The model
has five modules:

- `Tables` (`tables.dfy`): the constant tables. They are `vowelidx` (the fatha,
  damma and kasra marks to 0, 1, 2), `arabic2amharic` (Arabic grapheme to Ge'ez,
  many-to-one), `letter2family` (Ge'ez base to its three vowelled forms) and
  `xhosa2amharic` (a–z to Ge'ez). The diacritics are named constants (U+064E,
  U+064F, U+0650, U+064B).
- `Accents` (`accents.dfy`): `replace_accented_characters`. It strips every
  character outside the word/whitespace class, then applies seventeen fixed
  substitutions in order. The method `ReplaceAccentedCharacters` performs the
  substitutions one after the other, like the successive `re.sub` calls. It is
  proved equal to the per-character specification `Normalized`.
- `Latin` (`latin.dfy`): `latin_rule_based_transliteration`. This is a loop that
  maps each character through the Xhosa table. An ASCII uppercase letter passes
  the range test but has no table entry, so it raises `KeyError`. The model
  returns `Fallible<string>` (`Ok` or `KeyError`).
- `Arabic` (`arabic.dfy`): `arabic_rule_based_transliteration`. This is a
  left-to-right scan with a two-character window that never skips an index.
  `Emit(c, next)` is what one position contributes. `ArabicSpec` concatenates
  `Emit` over every position. The method `ArabicRuleBasedTransliteration` follows
  the source's loop branch by branch and is proved equal to `ArabicSpec`. Every
  swallowed `except` contributes the empty string.
- `Transliteration` (`transliteration.dfy`): the dispatcher `transliterate`,
  modelled as written. The Google word service is the parameter
  `api: string -> seq<string>`. Python's `\w`/`\s` class is the parameter
  `isWordOrSpace: char -> bool`. Results that depend on it require only that it
  contain the ASCII letters. The dispatcher as written has three outcomes:
  - the Latin path computes a value and then returns `None`, or raises
    `KeyError` from the fallback;
  - the Arabic path raises for the unbound name `transliterated`;
  - any other tag returns `None`.

  `LatinPathValue` is the value the Latin path computes and never returns.

Two readings of the code are natural. One is that the accent substitutions do
not interact; the code agrees, and `Accents.SequentialIsPerChar` proves it. The
other is that the Latin fallback is case-insensitive, since the comment at
code/translitration.py:157 calls the test a Latin-alphabet check. The code does
not do this: the lookup uses the original character, so `"Echo"` raises
`KeyError` once the service returns no candidate (`Transliteration.EchoRaises`).
The model follows the code.

## Model

| member | source | states |
|---|---|---|
| `Tables.VowelIdxShape` | code/translitration.py:14-15 | The short-vowel table has exactly fatha, damma and kasra, with ordinals 0, 1 and 2. |
| `Tables.ArabicValueLengths` | code/translitration.py:18-57 | Every Arabic table value has one or two characters; only ta marbuta has two. |
| `Tables.FamilyShape` | code/translitration.py:59-85 | Every family has exactly three forms, one character each. |
| `Tables.XhosaShape` | code/translitration.py:87-114 | The Latin table is defined on exactly 'a'..'z'. Each value has one character, except the two of 'a' (trailing space). |
| `Accents.KeepWordOrSpace` | code/translitration.py:125 | A character is in the result iff it is in the input and belongs to the word/space class. The result is no longer than the input. |
| `Accents.ReplaceAll` | code/translitration.py:126-142 | After one substitution, the pattern is gone unless its replacement contains it. Every output character is a non-pattern input character or a replacement character. |
| `Accents.ReplaceAccentedCharacters` | code/translitration.py:116-144 | The filter followed by the seventeen substitutions in source order yields `Normalized`: strip, then rewrite each character independently. |
| `Accents.AccentTableIsAscii` | code/translitration.py:126-142 | Every pattern is non-ASCII and every replacement is lowercase ASCII. So no replacement contains any pattern, earlier or later. |
| `Accents.SequentialIsPerChar` | code/translitration.py:126-142 | When no replacement contains a later pattern, the successive `re.sub` calls equal one per-character substitution. |
| `Accents.AccentRulesArePerChar` | code/translitration.py:126-142 | The seventeen substitutions, applied in source order, equal their per-character reading. |
| `Accents.NormalizedIsClean` | code/translitration.py:125-142 | Every output character belongs to the word/space class and is none of the seventeen accented letters. |
| `Accents.NormalizedAppend` | code/translitration.py:125-142 | Normalizing `s + t` gives normalized `s` followed by normalized `t`, so characters keep their order. |
| `Accents.Untouched` | code/translitration.py:125-142 | Word/space text without the accented letters comes through unchanged. |
| `Accents.AsciiLettersUntouched` | code/translitration.py:125-142 | A text made only of ASCII letters is not changed by normalization. |
| `Accents.LetterSurvives` | code/translitration.py:125-142 | An ASCII letter of the input is still in the normalized text. |
| `Accents.Idempotent` | code/translitration.py:116-144 | Normalizing twice equals normalizing once. |
| `Latin.LowerAscii` | code/translitration.py:157 | An ASCII capital lowercases to the letter 32 code points above it, which lies in 'a'..'z'; every other character is unchanged. |
| `Latin.LatinRuleBasedTransliteration` | code/translitration.py:146-162 | The loop's result equals the left fold `LatinSpec`. This includes the early `KeyError` at the first letter that has no table entry. |
| `Latin.ErrorPropagates` | code/translitration.py:155-158 | Once a prefix raises, the whole text raises with the same key. |
| `Latin.SingleChar` | code/translitration.py:155-160 | A lowercase letter becomes its table entry. An uppercase ASCII letter raises `KeyError`. Any other character is copied. |
| `Latin.LatinAppend` | code/translitration.py:155-162 | `f(s + t)` is `f(s)` followed by `f(t)`; if either part raises, the first error wins. |
| `Latin.DefinedIff` | code/translitration.py:157-158 | The fallback succeeds iff the text has no ASCII uppercase letter. A raised key is an uppercase letter of the text. |
| `Latin.FirstUpperRaises` | code/translitration.py:155-158 | A text that starts with an ASCII uppercase letter raises `KeyError` with that letter. |
| `Latin.UpperInTextRaises` | code/translitration.py:155-158 | Any ASCII uppercase letter anywhere in the text makes the fallback raise. |
| `Latin.OutputLength` | code/translitration.py:155-162 | On success the output length is `|s|` plus the number of 'a' in `s`. |
| `Latin.LatinIntended` | code/translitration.py:157-158 | The case-insensitive fallback never raises. It equals the source run on the lowercased text. |
| `Latin.IntendedAgrees` | code/translitration.py:155-162 | Wherever the source does not raise, the intended fallback gives the same text. |
| `Latin.UppercaseRaises` | code/translitration.py:157-158 | On "B" the source raises `KeyError('B')`, while the intended fallback gives "ብ". |
| `Arabic.Emit` | code/translitration.py:176-202 | A short-vowel position emits nothing, whatever follows it. Each position emits at most two characters, and two only for ta marbuta. |
| `Arabic.Base` | code/translitration.py:181-185 | A table lookup gives at most two characters, and two only for ta marbuta. |
| `Arabic.Vowelled` | code/translitration.py:187-191 | A family lookup gives at most one character. It gives nothing when the letter is itself a short vowel (fatha and kasra map to bases without a family; damma is unmapped). |
| `Arabic.ArabicRuleBasedTransliteration` | code/translitration.py:164-205 | The loop's result is the concatenation of `Emit(s[i], s[i+1] if any)` over every position. |
| `Arabic.VowelledConsonant` | code/translitration.py:187-193 | A letter whose base has a family, followed by fatha/damma/kasra, emits that family's form at ordinal 0/1/2 (one character). The vowel's own position emits nothing. |
| `Arabic.BareConsonant` | code/translitration.py:176-202 | A mapped letter that is not followed by a short vowel emits its table value, mid-text or last. |
| `Arabic.SingleLetter` | code/translitration.py:176-185 | A one-letter text gives that letter's table value. |
| `Arabic.EmptyContributions` | code/translitration.py:181-202 | An unmapped non-space character emits nothing. So does a letter whose base has no family when a short vowel follows it. |
| `Arabic.NoFamilyLetters` | code/translitration.py:18-85 | ى, أ, ء, إ, ة and ؟ are mapped but their bases have no family. |
| `Arabic.FamilyLetters` | code/translitration.py:18-85 | Every other mapped non-vowel letter has a family. |
| `Arabic.Tanwin` | code/translitration.py:176-197 | Tanwin emits "ን", or the ን-family form when a short vowel follows it. |
| `Arabic.Space` | code/translitration.py:176-202 | A space is kept iff it is not last and no short vowel follows it. |
| `Arabic.EmitDependsOnVowelOnly` | code/translitration.py:187-202 | A position's emission depends on the next character only through whether that character is a short vowel. |
| `Arabic.SameBaseSameEmit` | code/translitration.py:18-57 | Two letters with the same Ge'ez base emit the same string in every context. |
| `Arabic.CollisionInvariance` | code/translitration.py:173-205 | Replacing a letter by another with the same base (ت/ث, د/ذ/ض, ز/ظ, ى/أ/ء) leaves the whole output unchanged. |
| `Arabic.OutputLength` | code/translitration.py:173-205 | The output is at most `2·n` characters long, and at most `n` plus the number of ta marbuta. |
| `Arabic.Ba` | code/translitration.py:164-205 | The one-letter text "ب" gives its table value "ብ" (line 23). |
| `Arabic.SalaamWithFatha` | code/translitration.py:164-205 | "سَلام" gives "ሳልእም". The fatha selects the vowelled form of sin and emits nothing itself; the other letters emit their base forms. |
| `Transliteration.LatinPathValue` | code/translitration.py:219-223 | The Latin branch's value: the service's first candidate when there is one, never an error. With no candidate it is the table fallback on the normalized text, which succeeds iff that text has no ASCII capital; a raised key is a capital of the normalized text. |
| `Transliteration.Transliterate` | code/translitration.py:208-227 | For "latin": `None`, or `KeyError` when the fallback raises. For "arabic": an unbound-name error. For any other tag: `None`. It never returns a string. |
| `Transliteration.FallbackRaisesOnUppercase` | code/translitration.py:218-223 | With no service candidate, any ASCII uppercase letter in the input makes the Latin path raise. |
| `Transliteration.EchoRaises` | code/translitration.py:218-223 | With no service candidate, "Echo" raises `KeyError('E')`. |
| `Transliteration.TransliterateIntended` | code/translitration.py:208-227 | With the return at function level: "arabic" returns the Arabic transliteration, and "latin" always returns a string. Any other tag raises an unbound-name error. |
| `Transliteration.IntendedReturnsLatinValue` | code/translitration.py:218-223 | The intended dispatcher returns exactly the value the written Latin path computes and drops. |
| `Transliteration.ArabicResultDropped` | code/translitration.py:224-227 | On "ب" the intended dispatcher returns "ብ", where the written one raises. |

## Left out

- `code/evaluation.py` is not part of this model: it loads datasets, runs inference, computes metrics and writes CSV files. None of that is transliteration.
- The internals of the Google word service (`transliterate_word`) are left out. It is the parameter `api`, and its two calls in `transliterate` are taken to return the same value. Transport errors from the service are not modelled; they propagate to the caller.
- Python's exact Unicode classes for `\w` and `\s` are not modelled. They are the parameter `isWordOrSpace`, and proofs use only the fact that it contains the ASCII letters.
- Latin.LowerAscii: models `str.lower()` on ASCII only. Non-ASCII characters whose lowercase lies in 'a'..'z' (the Kelvin sign, for one) would also pass the range test and raise `KeyError`; the model copies them instead.
- The two-damma key of `arabic2amharic` is left out. Every lookup uses a single character, so that key can never match.
- Exception machinery is not modelled as such. Each swallowed `except` contributes the empty string. The `KeyError` of the Latin fallback is the `Fallible.KeyError` outcome, and the unbound name is the `Outcome.Raises(UnboundLocal(..))` outcome.
- Transliteration.Transliterate: the `script` default value "latin" is not modelled; the tag is always passed explicitly.

## Findings

| source | as written | input that shows it | evidently intended | confidence | as-written member | corrected member |
|---|---|---|---|---|---|---|
| code/translitration.py:218-227 | `return transliterated` is inside the `arabic` branch. That branch binds `transcription`, not `transliterated`. | script "arabic", text "ب": unbound-name error. Script "latin": `None`. | Both branches bind `transliterated`, and it is returned at function level. | high, not executed | `Transliteration.Transliterate` (with `Transliteration.ArabicResultDropped`) | `Transliteration.TransliterateIntended` |
| code/translitration.py:157-158 | The range test lowercases the character, but the table lookup uses the original. | "B" (and "Echo" on the Latin path) raises `KeyError`. | Look up the lowercased letter, so "B" gives "ብ". | medium, not executed | `Latin.UppercaseRaises` | `Latin.LatinIntended` |
