/** `replace_accented_characters`: delete every character that is neither a
    word character nor whitespace, then apply seventeen fixed one-character
    substitutions in order. */
module Accents {
  import opened Tables

  /** Python's `\w` / `\s` classes are Unicode-wide; the model takes the
      combined class as a parameter `isWordOrSpace` and relies only on the
      fact that it contains the ASCII letters. */
  predicate IsAsciiLetter(c: char) {
    'a' <= c <= 'z' || IsUpperAscii(c)
  }

  predicate CoversAsciiLetters(isWordOrSpace: char -> bool) {
    forall c :: IsAsciiLetter(c) ==> isWordOrSpace(c)
  }

  /** `re.sub(r'[^\w\s]', '', s)`: keep exactly the word/space characters, in order. */
  function KeepWordOrSpace(isWordOrSpace: char -> bool, s: string): (r: string)
    ensures forall c :: c in r <==> c in s && isWordOrSpace(c)
    ensures |r| <= |s|
  {
    if s == [] then []
    else (if isWordOrSpace(s[0]) then [s[0]] else []) + KeepWordOrSpace(isWordOrSpace, s[1..])
  }

  /** `re.sub(p, rep, s)` for a one-character literal pattern `p`: every
      occurrence of `p` becomes `rep`, nothing is rescanned. */
  function ReplaceAll(s: string, p: char, rep: string): (r: string)
    ensures p !in rep ==> p !in r
    ensures forall c :: c in r ==> (c in s && c != p) || c in rep
  {
    if s == [] then []
    else (if s[0] == p then rep else [s[0]]) + ReplaceAll(s[1..], p, rep)
  }

  /** The seventeen substitutions, in the order the source applies them. */
  const AccentRules: seq<(char, string)> := [
    ('é', "e"),
    ('è', "eh"),
    ('ù', "ou"),
    ('à', "a"),
    ('ç', "s"),
    ('â', "ah"),
    ('ê', "eh"),
    ('ô', "o"),
    ('û', "u"),
    ('ë', "e"),
    ('ï', "i"),
    ('ü', "u"),
    ('á', "a"),
    ('í', "i"),
    ('ú', "u"),
    ('ó', "o"),
    ('ñ', "ny")
  ]

  /** The characters some rule rewrites. */
  function Patterns(rules: seq<(char, string)>): set<char> {
    set i | 0 <= i < |rules| :: rules[i].0
  }

  /** Applying the rules one after the other, as successive `re.sub` calls do. */
  function ApplyRules(rules: seq<(char, string)>, s: string): string
    decreases |rules|
  {
    if rules == [] then s
    else ApplyRules(rules[1..], ReplaceAll(s, rules[0].0, rules[0].1))
  }

  /** What a single character becomes under the rules read as one table:
      the replacement of the first rule for it, or the character itself. */
  function Substitute(rules: seq<(char, string)>, c: char): (r: string)
    ensures c !in Patterns(rules) ==> r == [c]
  {
    if rules == [] then [c]
    else if rules[0].0 == c then rules[0].1
    else Substitute(rules[1..], c)
  }

  /** Rewriting every character independently through `Substitute`. */
  function MapChars(rules: seq<(char, string)>, s: string): string {
    if s == [] then [] else Substitute(rules, s[0]) + MapChars(rules, s[1..])
  }

  /** No replacement text contains a pattern of a LATER rule. */
  predicate NoLaterPattern(rules: seq<(char, string)>) {
    forall i, j :: 0 <= i < j < |rules| ==> rules[j].0 !in rules[i].1
  }

  /** No replacement text contains any pattern at all. */
  predicate NoPatternInReplacements(rules: seq<(char, string)>) {
    forall i, c :: 0 <= i < |rules| && c in rules[i].1 ==> c !in Patterns(rules)
  }

  /** The normalized text, stated per character: strip, then substitute. */
  function Normalized(isWordOrSpace: char -> bool, s: string): string {
    MapChars(AccentRules, KeepWordOrSpace(isWordOrSpace, s))
  }

  /** The source: one filtering reassignment, then the seventeen
      substitution reassignments in their order. */
  method ReplaceAccentedCharacters(isWordOrSpace: char -> bool, original: string) returns (sentence: string)
    ensures sentence == Normalized(isWordOrSpace, original)
  {
    sentence := KeepWordOrSpace(isWordOrSpace, original);
    ghost var stripped := sentence;
    for k := 0 to |AccentRules|
      invariant ApplyRules(AccentRules[k..], sentence) == ApplyRules(AccentRules, stripped)
    {
      ApplyRulesStep(AccentRules, k, sentence);
      sentence := ReplaceAll(sentence, AccentRules[k].0, AccentRules[k].1);
    }
    AccentRulesArePerChar(stripped);
  }

  // ---------------------------------------------------------------------
  // Lemmas

  /** Every pattern of the accent table is outside ASCII, every replacement is
      made of ASCII letters; hence no replacement contains any pattern. */
  lemma AccentTableIsAscii()
    ensures forall i :: 0 <= i < |AccentRules| ==> AccentRules[i].0 > '\U{007F}'
    ensures forall i, c :: 0 <= i < |AccentRules| && c in AccentRules[i].1 ==> 'a' <= c <= 'z'
    ensures NoPatternInReplacements(AccentRules)
    ensures NoLaterPattern(AccentRules)
  {
  }

  /** Applying the rules from `k` on is applying rule `k`, then the rest. */
  lemma ApplyRulesStep(rules: seq<(char, string)>, k: nat, s: string)
    requires k < |rules|
    ensures ApplyRules(rules[k..], s) == ApplyRules(rules[k + 1..], ReplaceAll(s, rules[k].0, rules[k].1))
  {
    assert rules[k..][1..] == rules[k + 1..];
  }

  /** The seventeen substitutions of the source equal their per-character reading. */
  lemma AccentRulesArePerChar(s: string)
    ensures ApplyRules(AccentRules, s) == MapChars(AccentRules, s)
  {
    AccentTableIsAscii();
    SequentialIsPerChar(AccentRules, s);
  }

  lemma {:induction false} MapCharsAppend(rules: seq<(char, string)>, a: string, b: string)
    ensures MapChars(rules, a + b) == MapChars(rules, a) + MapChars(rules, b)
  {
    if a == [] {
      assert a + b == b;
    } else {
      assert (a + b)[1..] == a[1..] + b;
      MapCharsAppend(rules, a[1..], b);
    }
  }

  /** A text none of whose characters is a pattern is left as it is. */
  lemma {:induction false} MapCharsFree(rules: seq<(char, string)>, s: string)
    requires forall c :: c in s ==> c !in Patterns(rules)
    ensures MapChars(rules, s) == s
  {
    if s != [] {
      MapCharsFree(rules, s[1..]);
    }
  }

  /** One `re.sub` followed by the per-character table of the later rules is the
      per-character table of all of them, when the replacement holds no later pattern. */
  lemma {:induction false} ReplaceThenMap(rules: seq<(char, string)>, s: string)
    requires rules != []
    requires forall c :: c in rules[0].1 ==> c !in Patterns(rules[1..])
    ensures MapChars(rules[1..], ReplaceAll(s, rules[0].0, rules[0].1)) == MapChars(rules, s)
  {
    var p, rep := rules[0].0, rules[0].1;
    if s != [] {
      var head := if s[0] == p then rep else [s[0]];
      MapCharsAppend(rules[1..], head, ReplaceAll(s[1..], p, rep));
      ReplaceThenMap(rules, s[1..]);
      if s[0] == p {
        MapCharsFree(rules[1..], rep);
      } else {
        assert MapChars(rules[1..], head) == Substitute(rules[1..], s[0]) + [];
      }
    }
  }

  /** The successive substitutions equal one per-character substitution,
      because no replacement text contains a later pattern. */
  lemma {:induction false} SequentialIsPerChar(rules: seq<(char, string)>, s: string)
    requires NoLaterPattern(rules)
    ensures ApplyRules(rules, s) == MapChars(rules, s)
    decreases |rules|
  {
    if rules != [] {
      var replaced := ReplaceAll(s, rules[0].0, rules[0].1);
      assert NoLaterPattern(rules[1..]) by {
        forall i, j | 0 <= i < j < |rules[1..]| ensures rules[1..][j].0 !in rules[1..][i].1 {
          assert rules[1..][j] == rules[j + 1] && rules[1..][i] == rules[i + 1];
        }
      }
      SequentialIsPerChar(rules[1..], replaced);
      ReplaceThenMap(rules, s);
      assert ApplyRules(rules, s) == ApplyRules(rules[1..], replaced);
    } else {
      MapCharsFree(rules, s);
    }
  }

  /** Every character the per-character table produces is either an input
      character that no rule rewrites or a character of some replacement. */
  lemma {:induction false} MapCharsSource(rules: seq<(char, string)>, s: string, c: char)
    requires c in MapChars(rules, s)
    ensures (c in s && c !in Patterns(rules)) || exists i :: 0 <= i < |rules| && c in rules[i].1
  {
    if s != [] {
      if c in MapChars(rules, s[1..]) {
        MapCharsSource(rules, s[1..], c);
      } else {
        SubstituteSource(rules, s[0], c);
      }
    }
  }

  lemma {:induction false} SubstituteSource(rules: seq<(char, string)>, x: char, c: char)
    requires c in Substitute(rules, x)
    ensures (c == x && x !in Patterns(rules)) || exists i :: 0 <= i < |rules| && c in rules[i].1
    decreases |rules|
  {
    if rules == [] {
    } else if rules[0].0 == x {
      assert c in rules[0].1;
    } else {
      SubstituteSource(rules[1..], x, c);
      PatternsCons(rules);
      if !(c == x && x !in Patterns(rules[1..])) {
        var i :| 0 <= i < |rules[1..]| && c in rules[1..][i].1;
        assert c in rules[i + 1].1;
      }
    }
  }

  lemma PatternsCons(rules: seq<(char, string)>)
    requires rules != []
    ensures Patterns(rules) == {rules[0].0} + Patterns(rules[1..])
  {
  }

  /** The normalized text holds no character outside the word/space class and
      none of the seventeen accented letters. */
  lemma NormalizedIsClean(isWordOrSpace: char -> bool, s: string, c: char)
    requires CoversAsciiLetters(isWordOrSpace)
    requires c in Normalized(isWordOrSpace, s)
    ensures isWordOrSpace(c)
    ensures c !in Patterns(AccentRules)
  {
    AccentTableIsAscii();
    MapCharsSource(AccentRules, KeepWordOrSpace(isWordOrSpace, s), c);
  }

  /** Normalization works character by character, so it keeps order:
      normalizing a concatenation concatenates the normalized parts. */
  lemma {:induction false} NormalizedAppend(isWordOrSpace: char -> bool, s: string, t: string)
    ensures Normalized(isWordOrSpace, s + t) == Normalized(isWordOrSpace, s) + Normalized(isWordOrSpace, t)
  {
    KeepAppend(isWordOrSpace, s, t);
    MapCharsAppend(AccentRules, KeepWordOrSpace(isWordOrSpace, s), KeepWordOrSpace(isWordOrSpace, t));
  }

  lemma {:induction false} KeepAppend(isWordOrSpace: char -> bool, s: string, t: string)
    ensures KeepWordOrSpace(isWordOrSpace, s + t) == KeepWordOrSpace(isWordOrSpace, s) + KeepWordOrSpace(isWordOrSpace, t)
  {
    if s == [] {
      assert s + t == t;
    } else {
      assert (s + t)[1..] == s[1..] + t;
      KeepAppend(isWordOrSpace, s[1..], t);
    }
  }

  lemma {:induction false} KeepAll(isWordOrSpace: char -> bool, s: string)
    requires forall c :: c in s ==> isWordOrSpace(c)
    ensures KeepWordOrSpace(isWordOrSpace, s) == s
  {
    if s != [] {
      KeepAll(isWordOrSpace, s[1..]);
    }
  }

  /** A text made only of word/space characters and free of the accented
      letters comes through unchanged. */
  lemma Untouched(isWordOrSpace: char -> bool, s: string)
    requires forall c :: c in s ==> isWordOrSpace(c) && c !in Patterns(AccentRules)
    ensures Normalized(isWordOrSpace, s) == s
  {
    KeepAll(isWordOrSpace, s);
    MapCharsFree(AccentRules, s);
  }

  /** A text of ASCII letters only is left as it is. */
  lemma AsciiLettersUntouched(isWordOrSpace: char -> bool, s: string)
    requires CoversAsciiLetters(isWordOrSpace)
    requires forall c :: c in s ==> IsAsciiLetter(c)
    ensures Normalized(isWordOrSpace, s) == s
  {
    AccentTableIsAscii();
    Untouched(isWordOrSpace, s);
  }

  /** An ASCII letter of the input is still in the normalized text. */
  lemma LetterSurvives(isWordOrSpace: char -> bool, s: string, c: char)
    requires CoversAsciiLetters(isWordOrSpace)
    requires IsAsciiLetter(c) && c in s
    ensures c in Normalized(isWordOrSpace, s)
  {
    AccentTableIsAscii();
    MapCharsKeeps(AccentRules, KeepWordOrSpace(isWordOrSpace, s), c);
  }

  lemma {:induction false} MapCharsKeeps(rules: seq<(char, string)>, s: string, c: char)
    requires c in s && c !in Patterns(rules)
    ensures c in MapChars(rules, s)
  {
    if s[0] != c {
      MapCharsKeeps(rules, s[1..], c);
    }
  }

  /** Normalizing twice is normalizing once. */
  lemma Idempotent(isWordOrSpace: char -> bool, s: string)
    requires CoversAsciiLetters(isWordOrSpace)
    ensures Normalized(isWordOrSpace, Normalized(isWordOrSpace, s)) == Normalized(isWordOrSpace, s)
  {
    var n := Normalized(isWordOrSpace, s);
    forall c | c in n ensures isWordOrSpace(c) && c !in Patterns(AccentRules) {
      NormalizedIsClean(isWordOrSpace, s, c);
    }
    Untouched(isWordOrSpace, n);
  }
}
