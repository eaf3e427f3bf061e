/** `latin_rule_based_transliteration`: the character-by-character fallback
    from Latin script to Ge'ez through the Xhosa table. */
module Latin {
  import opened Tables

  /** Either the transliterated text or the `KeyError` the table lookup raises. */
  datatype Fallible<T> = Ok(value: T) | KeyError(key: char)

  /** `str.lower()` restricted to ASCII. */
  function LowerAscii(c: char): (r: char)
    ensures IsUpperAscii(c) ==> 'a' <= r <= 'z' && r as int == c as int + 32
    ensures !IsUpperAscii(c) ==> r == c
  {
    if IsUpperAscii(c) then (c as int + 32) as char else c
  }

  /** The range test of the source: the LOWERCASED character lies in 'a'..'z'. */
  predicate InLatinRange(c: char) {
    'a' <= LowerAscii(c) <= 'z'
  }

  /** What one character contributes. The range test lowercases, the lookup
      does not, so an uppercase letter raises `KeyError`. */
  function LatinChar(c: char): Fallible<string> {
    if InLatinRange(c) then
      if c in Xhosa2Amharic then Ok(Xhosa2Amharic[c]) else KeyError(c)
    else Ok([c])
  }

  /** Appending one step's result to the accumulated one; the first error wins. */
  function Then(acc: Fallible<string>, step: Fallible<string>): Fallible<string> {
    match acc
    case KeyError(k) => KeyError(k)
    case Ok(x) =>
      match step
      case KeyError(k) => KeyError(k)
      case Ok(y) => Ok(x + y)
  }

  /** The fallback as a fold over the text, left to right. */
  function LatinSpec(s: string): Fallible<string> {
    if s == [] then Ok("") else Then(LatinSpec(s[..|s| - 1]), LatinChar(s[|s| - 1]))
  }

  /** The loop of the source: append each character's contribution; the
      first uppercase letter ends the call with `KeyError`. */
  method LatinRuleBasedTransliteration(transcription: string) returns (r: Fallible<string>)
    ensures r == LatinSpec(transcription)
  {
    var transliterated := "";
    for idx := 0 to |transcription|
      invariant LatinSpec(transcription[..idx]) == Ok(transliterated)
    {
      assert transcription[..idx + 1][..idx] == transcription[..idx];
      var c := transcription[idx];
      if 'a' <= LowerAscii(c) <= 'z' {
        if c !in Xhosa2Amharic {
          ErrorPropagates(transcription, idx + 1);
          return KeyError(c);
        }
        transliterated := transliterated + Xhosa2Amharic[c];
      } else {
        transliterated := transliterated + [c];
      }
    }
    assert transcription[..|transcription|] == transcription;
    return Ok(transliterated);
  }

  // ---------------------------------------------------------------------
  // Lemmas

  /** Once a prefix fails, the whole text fails with the same key. */
  lemma {:induction false} ErrorPropagates(s: string, k: nat)
    requires k <= |s|
    requires LatinSpec(s[..k]).KeyError?
    ensures LatinSpec(s) == LatinSpec(s[..k])
    decreases |s| - k
  {
    if k == |s| {
      assert s[..k] == s;
    } else {
      assert s[..|s| - 1][..k] == s[..k];
      ErrorPropagates(s[..|s| - 1], k);
    }
  }

  /** One character: a lowercase letter becomes its table entry, an uppercase
      letter raises, anything else is copied. */
  lemma SingleChar(c: char)
    ensures 'a' <= c <= 'z' ==> LatinSpec([c]) == Ok(Xhosa2Amharic[c])
    ensures IsUpperAscii(c) ==> LatinSpec([c]) == KeyError(c)
    ensures !('a' <= c <= 'z') && !IsUpperAscii(c) ==> LatinSpec([c]) == Ok([c])
  {
    XhosaShape();
    assert [c][..0] == [];
    assert LatinSpec([c]) == Then(Ok(""), LatinChar(c));
    if 'a' <= c <= 'z' {
      assert "" + Xhosa2Amharic[c] == Xhosa2Amharic[c];
    } else if !IsUpperAscii(c) {
      assert "" + [c] == [c];
    }
  }

  /** The fallback is a per-character map: on a concatenation it is the
      concatenation of the parts, the first error winning. */
  lemma {:induction false} LatinAppend(s: string, t: string)
    ensures LatinSpec(s + t) == Then(LatinSpec(s), LatinSpec(t))
    decreases |t|
  {
    if t == [] {
      assert s + t == s;
      ThenUnit(LatinSpec(s));
    } else {
      var u := t[..|t| - 1];
      assert (s + t)[..|s + t| - 1] == s + u;
      assert (s + t)[|s + t| - 1] == t[|t| - 1];
      LatinAppend(s, u);
      ThenAssoc(LatinSpec(s), LatinSpec(u), LatinChar(t[|t| - 1]));
    }
  }

  lemma ThenUnit(a: Fallible<string>)
    ensures Then(a, Ok("")) == a
  {
    if a.Ok? {
      assert a.value + "" == a.value;
    }
  }

  lemma ThenAssoc(a: Fallible<string>, b: Fallible<string>, c: Fallible<string>)
    ensures Then(Then(a, b), c) == Then(a, Then(b, c))
  {
    if a.Ok? && b.Ok? && c.Ok? {
      assert a.value + b.value + c.value == a.value + (b.value + c.value);
    }
  }

  /** The fallback raises exactly when the text holds an ASCII uppercase
      letter, and the key it reports is one. */
  lemma {:induction false} DefinedIff(s: string)
    ensures LatinSpec(s).Ok? <==> forall i :: 0 <= i < |s| ==> !IsUpperAscii(s[i])
    ensures LatinSpec(s).KeyError? ==> IsUpperAscii(LatinSpec(s).key) && LatinSpec(s).key in s
  {
    XhosaShape();
    if s != [] {
      var p := s[..|s| - 1];
      DefinedIff(p);
      assert forall i :: 0 <= i < |p| ==> p[i] == s[i];
      assert s == p + [s[|s| - 1]];
    }
  }

  /** A text that starts with an ASCII uppercase letter raises with that letter. */
  lemma FirstUpperRaises(s: string)
    requires s != [] && IsUpperAscii(s[0])
    ensures LatinSpec(s) == KeyError(s[0])
  {
    SingleChar(s[0]);
    assert s[..1] == [s[0]];
    ErrorPropagates(s, 1);
  }

  /** Any ASCII uppercase letter in the text makes the fallback raise. */
  lemma UpperInTextRaises(s: string, c: char)
    requires c in s && IsUpperAscii(c)
    ensures LatinSpec(s).KeyError?
  {
    DefinedIff(s);
    var j :| 0 <= j < |s| && s[j] == c;
  }

  /** Every letter 'a' becomes two characters ("ኣ" and a space), every other
      accepted character one: the output length is |s| plus the count of 'a'. */
  lemma {:induction false} OutputLength(s: string)
    requires LatinSpec(s).Ok?
    ensures |LatinSpec(s).value| == |s| + multiset(s)['a']
  {
    XhosaShape();
    if s != [] {
      var p := s[..|s| - 1];
      assert s == p + [s[|s| - 1]];
      assert multiset(s) == multiset(p) + multiset{s[|s| - 1]};
      OutputLength(p);
    }
  }

  // ---------------------------------------------------------------------
  // The evidently intended fallback: look up the lowercased character.

  function LatinIntendedChar(c: char): string {
    if InLatinRange(c) && LowerAscii(c) in Xhosa2Amharic then Xhosa2Amharic[LowerAscii(c)] else [c]
  }

  function LowerAll(s: string): (r: string)
    ensures |r| == |s|
    ensures forall i :: 0 <= i < |s| ==> r[i] == LowerAscii(s[i])
  {
    if s == [] then "" else LowerAll(s[..|s| - 1]) + [LowerAscii(s[|s| - 1])]
  }

  /** The fallback with a case-insensitive lookup. It never raises: on any
      text it is what the source yields on the lowercased text. */
  function LatinIntended(s: string): (r: string)
    ensures LatinSpec(LowerAll(s)) == Ok(r)
  {
    XhosaShape();
    if s == [] then ""
    else
      assert LowerAll(s)[..|s| - 1] == LowerAll(s[..|s| - 1]);
      LatinIntended(s[..|s| - 1]) + LatinIntendedChar(s[|s| - 1])
  }

  /** The intended fallback agrees with the source wherever the source does not raise. */
  lemma {:induction false} IntendedAgrees(s: string)
    ensures LatinSpec(s).Ok? ==> LatinSpec(s).value == LatinIntended(s)
  {
    XhosaShape();
    if s != [] {
      IntendedAgrees(s[..|s| - 1]);
    }
  }

  /** The discrepancy: an uppercase letter, which the range test accepts,
      raises in the source but is transliterated by the intended fallback. */
  lemma UppercaseRaises()
    ensures LatinSpec("B") == KeyError('B')
    ensures LatinIntended("B") == "ብ"
  {
  }
}
