/** `transliterate(transcription, script)`: the entry point. As written, the
    only `return` sits inside the Arabic branch and returns a name that branch
    never binds. The external word service is a parameter `api`, returning the
    candidate renderings of a text (one value for both of the source's calls). */
module Transliteration {
  import opened Tables
  import Accents
  import opened Latin
  import Arabic

  datatype PyError = KeyLookup(key: char) | UnboundLocal(name: string)

  /** What a Python call ends with: `None`, an exception, or a string. */
  datatype Outcome = ReturnsNone | Raises(error: PyError) | Returns(value: string)

  /** The value the Latin branch computes into `transliterated`: the first
      candidate of the service, or else the table fallback on the normalized text. */
  function LatinPathValue(api: string -> seq<string>, isWordOrSpace: char -> bool, s: string): (r: Fallible<string>)
    ensures api(Accents.Normalized(isWordOrSpace, s)) != [] ==> r == Ok(api(Accents.Normalized(isWordOrSpace, s))[0])
    ensures api(Accents.Normalized(isWordOrSpace, s)) == [] ==>
              (r.Ok? <==> forall i :: 0 <= i < |Accents.Normalized(isWordOrSpace, s)| ==> !IsUpperAscii(Accents.Normalized(isWordOrSpace, s)[i]))
    ensures r.KeyError? ==> api(Accents.Normalized(isWordOrSpace, s)) == [] && IsUpperAscii(r.key) && r.key in Accents.Normalized(isWordOrSpace, s)
  {
    var norm := Accents.Normalized(isWordOrSpace, s);
    if |api(norm)| > 0 then Ok(api(norm)[0]) else DefinedIff(norm); LatinSpec(norm)
  }

  /** The dispatcher as written. */
  method Transliterate(api: string -> seq<string>, isWordOrSpace: char -> bool, transcription: string, script: string)
    returns (o: Outcome)
    ensures script == "latin" ==>
              o == (if LatinPathValue(api, isWordOrSpace, transcription).KeyError?
                    then Raises(KeyLookup(LatinPathValue(api, isWordOrSpace, transcription).key))
                    else ReturnsNone)
    ensures script == "arabic" ==> o == Raises(UnboundLocal("transliterated"))
    ensures script != "latin" && script != "arabic" ==> o == ReturnsNone
    ensures !o.Returns?
  {
    if script == "latin" {
      var norm := Accents.ReplaceAccentedCharacters(isWordOrSpace, transcription);
      if |api(norm)| > 0 {
        var transliterated := api(norm)[0];
      } else {
        var transliterated := LatinRuleBasedTransliteration(norm);
        if transliterated.KeyError? {
          return Raises(KeyLookup(transliterated.key));
        }
      }
      return ReturnsNone;
    } else if script == "arabic" {
      // The source stores this result back into `transcription` and never reads it.
      var converted := Arabic.ArabicRuleBasedTransliteration(transcription);
      return Raises(UnboundLocal("transliterated"));
    }
    return ReturnsNone;
  }

  /** With no service candidate, a text holding an ASCII uppercase letter makes
      the fallback raise, e.g. "Echo". */
  lemma FallbackRaisesOnUppercase(api: string -> seq<string>, isWordOrSpace: char -> bool, s: string, i: nat)
    requires Accents.CoversAsciiLetters(isWordOrSpace)
    requires api(Accents.Normalized(isWordOrSpace, s)) == []
    requires i < |s| && IsUpperAscii(s[i])
    ensures LatinPathValue(api, isWordOrSpace, s).KeyError?
  {
    Accents.LetterSurvives(isWordOrSpace, s, s[i]);
    UpperInTextRaises(Accents.Normalized(isWordOrSpace, s), s[i]);
  }

  lemma EchoRaises(api: string -> seq<string>, isWordOrSpace: char -> bool)
    requires Accents.CoversAsciiLetters(isWordOrSpace)
    requires api("Echo") == []
    ensures LatinPathValue(api, isWordOrSpace, "Echo") == KeyError('E')
  {
    Accents.AsciiLettersUntouched(isWordOrSpace, "Echo");
    FirstUpperRaises("Echo");
  }

  // ---------------------------------------------------------------------
  // The evidently intended dispatcher: the result is bound to
  // `transliterated` on both paths and returned at function level, and the
  // fallback looks up the lowercased letter.

  function TransliterateIntended(api: string -> seq<string>, isWordOrSpace: char -> bool, transcription: string, script: string): (o: Outcome)
    ensures script == "arabic" ==> o == Returns(Arabic.ArabicSpec(transcription))
    ensures script == "latin" ==> o.Returns?
    ensures script != "latin" && script != "arabic" ==> o == Raises(UnboundLocal("transliterated"))
  {
    if script == "latin" then
      var norm := Accents.Normalized(isWordOrSpace, transcription);
      Returns(if |api(norm)| > 0 then api(norm)[0] else LatinIntended(norm))
    else if script == "arabic" then
      Returns(Arabic.ArabicSpec(transcription))
    else
      Raises(UnboundLocal("transliterated"))
  }

  /** The intended Latin path returns the value the written one computes and drops. */
  lemma IntendedReturnsLatinValue(api: string -> seq<string>, isWordOrSpace: char -> bool, s: string)
    requires LatinPathValue(api, isWordOrSpace, s).Ok?
    ensures TransliterateIntended(api, isWordOrSpace, s, "latin") == Returns(LatinPathValue(api, isWordOrSpace, s).value)
  {
    IntendedAgrees(Accents.Normalized(isWordOrSpace, s));
  }

  /** The discrepancy on the Arabic path: the written dispatcher raises where
      the intended one returns the transliteration, here "ب" giving "ብ". */
  lemma ArabicResultDropped(api: string -> seq<string>, isWordOrSpace: char -> bool)
    ensures TransliterateIntended(api, isWordOrSpace, "\U{0628}", "arabic") == Returns("ብ")
  {
    Arabic.Ba();
  }
}
