/** `arabic_rule_based_transliteration`: a left-to-right scan with a
    two-character window that never skips an index. A short vowel that was
    used as lookahead is revisited on the next step and absorbed. */
module Arabic {
  import opened Tables

  datatype Option<T> = None | Some(value: T)

  /** The character after position `i`, if there is one. */
  function Next(s: string, i: nat): Option<char>
    requires i < |s|
  {
    if i + 1 < |s| then Some(s[i + 1]) else None
  }

  /** `arabic2amharic[c]`, with a lookup miss contributing nothing. */
  function Base(c: char): (r: string)
    ensures |r| <= 2 && (|r| == 2 ==> c == TaMarbuta)
  {
    ArabicValueLengths();
    if c in Arabic2Amharic then Arabic2Amharic[c] else ""
  }

  /** `letter2family[arabic2amharic[c]][vowelidx[v]]`, with any miss (letter,
      family or index) contributing nothing. */
  function Vowelled(c: char, v: char): (r: string)
    requires IsShortVowel(v)
    ensures |r| <= 1
    ensures IsShortVowel(c) ==> r == ""
  {
    FamilyShape();
    if c in Arabic2Amharic && Arabic2Amharic[c] in Letter2Family
       && VowelIdx[v] < |Letter2Family[Arabic2Amharic[c]]|
    then Letter2Family[Arabic2Amharic[c]][VowelIdx[v]]
    else ""
  }

  /** What position holding `c` contributes, given the character after it. */
  function Emit(c: char, next: Option<char>): (r: string)
    ensures IsShortVowel(c) ==> r == ""
    ensures |r| <= 2
    ensures |r| == 2 ==> c == TaMarbuta
  {
    match next
    case None =>
      if IsShortVowel(c) then ""
      else if c == TanwinFath then Nun
      else Base(c)
    case Some(d) =>
      if IsShortVowel(d) then Vowelled(c, d)
      else if IsShortVowel(c) then ""
      else if c == ' ' then " "
      else if c == TanwinFath then Nun
      else Base(c)
  }

  function EmitAt(s: string, i: nat): string
    requires i < |s|
  {
    Emit(s[i], Next(s, i))
  }

  /** The contributions of positions 0 .. n-1, concatenated. */
  function ArabicUpTo(s: string, n: nat): string
    requires n <= |s|
  {
    if n == 0 then "" else ArabicUpTo(s, n - 1) + EmitAt(s, n - 1)
  }

  /** The transliteration: the concatenation, over every position, of what it emits. */
  function ArabicSpec(s: string): string {
    ArabicUpTo(s, |s|)
  }

  /** The loop of the source, branch by branch; every swallowed `except`
      appends nothing. */
  method ArabicRuleBasedTransliteration(transcription: string) returns (transliterated: string)
    ensures transliterated == ArabicSpec(transcription)
  {
    transliterated := "";
    for idx := 0 to |transcription|
      invariant transliterated == ArabicUpTo(transcription, idx)
    {
      var c := transcription[idx];
      if idx + 1 == |transcription| {
        if c in VowelIdx {
          continue;
        } else if c == TanwinFath {
          transliterated := transliterated + Nun;
        } else if c in Arabic2Amharic {
          transliterated := transliterated + Arabic2Amharic[c];
        }
      } else {
        var d := transcription[idx + 1];
        if d in VowelIdx {
          if c in Arabic2Amharic && Arabic2Amharic[c] in Letter2Family {
            var family := Letter2Family[Arabic2Amharic[c]];
            if VowelIdx[d] < |family| {
              transliterated := transliterated + family[VowelIdx[d]];
            }
          }
        } else if c in VowelIdx {
          continue;
        } else if c == ' ' {
          transliterated := transliterated + [c];
        } else if c == TanwinFath {
          transliterated := transliterated + Nun;
        } else if c in Arabic2Amharic {
          transliterated := transliterated + Arabic2Amharic[c];
        }
      }
    }
  }

  // ---------------------------------------------------------------------
  // Lemmas

  /** A consonant whose base has a family, followed by a short vowel, yields
      the family form for that vowel; the vowel's own position yields nothing. */
  lemma VowelledConsonant(s: string, i: nat)
    requires i + 1 < |s|
    requires s[i] in Arabic2Amharic && Arabic2Amharic[s[i]] in Letter2Family
    requires IsShortVowel(s[i + 1])
    ensures EmitAt(s, i) == Letter2Family[Arabic2Amharic[s[i]]][VowelIdx[s[i + 1]]]
    ensures |EmitAt(s, i)| == 1
    ensures EmitAt(s, i + 1) == ""
  {
    FamilyShape();
    VowelIdxShape();
  }

  /** A consonant not followed by a short vowel yields its base grapheme. */
  lemma BareConsonant(s: string, i: nat)
    requires i < |s|
    requires s[i] in Arabic2Amharic && !IsShortVowel(s[i])
    requires i + 1 == |s| || !IsShortVowel(s[i + 1])
    ensures EmitAt(s, i) == Arabic2Amharic[s[i]]
  {
  }

  /** A one-letter text gives the letter's table value. */
  lemma SingleLetter(c: char)
    requires c in Arabic2Amharic && !IsShortVowel(c)
    ensures ArabicSpec([c]) == Arabic2Amharic[c]
  {
    BareConsonant([c], 0);
    assert |[c]| == 1;
    assert ArabicSpec([c]) == ArabicUpTo([c], 0) + EmitAt([c], 0);
    assert "" + Arabic2Amharic[c] == Arabic2Amharic[c];
  }

  /** The letter ba (U+0628) alone gives its fidel "ብ". */
  lemma Ba()
    ensures ArabicSpec("\U{0628}") == "ብ"
  {
    assert !IsShortVowel('\U{0628}');
    assert Arabic2Amharic['\U{0628}'] == "ብ";
    SingleLetter('\U{0628}');
  }

  /** Positions that contribute nothing: a lookup miss anywhere, and a letter
      whose base has no family when a short vowel follows it. */
  lemma EmptyContributions(c: char, next: Option<char>)
    ensures c !in Arabic2Amharic && c != ' ' ==> Emit(c, next) == ""
    ensures c in Arabic2Amharic && Arabic2Amharic[c] !in Letter2Family && next.Some? && IsShortVowel(next.value)
            ==> Emit(c, next) == ""
  {
  }

  /** The letters whose base has no family: alef maksura, hamza-on-alef,
      hamza, hamza-under-alef, ta marbuta and the question mark. */
  lemma NoFamilyLetters()
    ensures forall c :: c in {'\U{0649}', '\U{0623}', '\U{0621}', '\U{0625}', TaMarbuta, '\U{061F}'} ==>
                          c in Arabic2Amharic && Arabic2Amharic[c] !in Letter2Family
  {
  }

  /** Every other letter of the table has a family. */
  lemma FamilyLetters(c: char)
    requires c in Arabic2Amharic && !IsShortVowel(c)
    requires c !in {'\U{0649}', '\U{0623}', '\U{0621}', '\U{0625}', TaMarbuta, '\U{061F}'}
    ensures Arabic2Amharic[c] in Letter2Family
  {
  }

  /** The nunation mark yields "ን", or the ን-family form when a short vowel follows it. */
  lemma Tanwin(next: Option<char>)
    ensures next.None? || !IsShortVowel(next.value) ==> Emit(TanwinFath, next) == Nun
    ensures next.Some? && IsShortVowel(next.value) ==> Emit(TanwinFath, next) == Letter2Family[Nun][VowelIdx[next.value]]
  {
    VowelIdxShape();
  }

  /** A space survives only when it is not last and no short vowel follows it. */
  lemma Space(next: Option<char>)
    ensures Emit(' ', next) == (if next.Some? && !IsShortVowel(next.value) then " " else "")
  {
  }

  /** Emissions depend on the next character only through whether it is a short vowel. */
  lemma EmitDependsOnVowelOnly(c: char, d: char, e: char)
    requires !IsShortVowel(d) && !IsShortVowel(e)
    ensures Emit(c, Some(d)) == Emit(c, Some(e))
  {
  }

  /** Letters sharing a Ge'ez base emit the same thing in every context. */
  lemma SameBaseSameEmit(c1: char, c2: char, next: Option<char>)
    requires c1 in Arabic2Amharic && c2 in Arabic2Amharic
    requires Arabic2Amharic[c1] == Arabic2Amharic[c2]
    requires !IsShortVowel(c1) && !IsShortVowel(c2) && c1 != TanwinFath && c2 != TanwinFath
    ensures Emit(c1, next) == Emit(c2, next)
  {
  }

  /** Replacing a letter by another with the same Ge'ez base (ت/ث, د/ذ/ض,
      ز/ظ, ى/أ/ء) leaves the whole transliteration unchanged. */
  lemma {:induction false} CollisionInvariance(s: string, i: nat, c: char)
    requires i < |s|
    requires s[i] in Arabic2Amharic && c in Arabic2Amharic
    requires Arabic2Amharic[s[i]] == Arabic2Amharic[c]
    requires !IsShortVowel(s[i]) && !IsShortVowel(c) && s[i] != TanwinFath && c != TanwinFath
    ensures ArabicSpec(s[i := c]) == ArabicSpec(s)
  {
    var t := s[i := c];
    forall j | 0 <= j < |s| ensures EmitAt(t, j) == EmitAt(s, j) {
      if j == i {
        SameBaseSameEmit(c, s[i], Next(s, i));
      } else if j + 1 == i {
        EmitDependsOnVowelOnly(s[j], c, s[i]);
      }
    }
    SamePositionsSameOutput(t, s, |s|);
  }

  lemma {:induction false} SamePositionsSameOutput(s: string, t: string, n: nat)
    requires n <= |s| == |t|
    requires forall j :: 0 <= j < n ==> EmitAt(s, j) == EmitAt(t, j)
    ensures ArabicUpTo(s, n) == ArabicUpTo(t, n)
  {
    if n > 0 {
      SamePositionsSameOutput(s, t, n - 1);
    }
  }

  /** The output is at most twice as long as the input (only ta marbuta emits two characters). */
  lemma {:induction false} OutputLength(s: string, n: nat)
    requires n <= |s|
    ensures |ArabicUpTo(s, n)| <= n + multiset(s[..n])[TaMarbuta]
    ensures |ArabicUpTo(s, n)| <= 2 * n
  {
    if n > 0 {
      OutputLength(s, n - 1);
      LengthStep(s, n);
    }
  }

  lemma LengthStep(s: string, n: nat)
    requires 0 < n <= |s|
    ensures |ArabicUpTo(s, n)| == |ArabicUpTo(s, n - 1)| + |EmitAt(s, n - 1)|
    ensures multiset(s[..n])[TaMarbuta] == multiset(s[..n - 1])[TaMarbuta] + (if s[n - 1] == TaMarbuta then 1 else 0)
  {
    assert s[..n] == s[..n - 1] + [s[n - 1]];
  }

  /** "سَلام" (sin with fatha, lam, alef, mim) gives "ሳልእም": the fatha selects
      the vowelled form of sin and emits nothing itself; the undiacritized
      letters emit their base forms. */
  lemma SalaamWithFatha()
    ensures ArabicSpec("\U{0633}\U{064E}\U{0644}\U{0627}\U{0645}") == "ሳልእም"
  {
    var s := "\U{0633}\U{064E}\U{0644}\U{0627}\U{0645}";
    VowelledConsonant(s, 0);
    BareConsonant(s, 2);
    assert EmitAt(s, 2) == "ል";
    BareConsonant(s, 3);
    assert EmitAt(s, 3) == "እ";
    BareConsonant(s, 4);
    assert EmitAt(s, 4) == "ም";
    assert ArabicUpTo(s, 2) == "ሳ";
    assert ArabicUpTo(s, 3) == "ሳል";
    assert ArabicUpTo(s, 4) == "ሳልእ";
    assert ArabicUpTo(s, 5) == "ሳልእም";
  }
}
