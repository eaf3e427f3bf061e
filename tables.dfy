/** The constant tables of the transliteration engine: the short-vowel index,
    the Arabic-to-Ge'ez consonant table, the Ge'ez consonant families and the
    Latin (Xhosa) fallback table. They are created once and never mutated. */
module Tables {

  /** The Arabic diacritics the engine looks at (Unicode Arabic block). The
      source writes them padded with spaces and strips the padding. */
  const Fatha: char := '\U{064E}'
  const Damma: char := '\U{064F}'
  const Kasra: char := '\U{0650}'
  const TanwinFath: char := '\U{064B}'

  /** Ta marbuta, the one Arabic letter whose Ge'ez value has two characters. */
  const TaMarbuta: char := '\U{0629}'

  /** The Ge'ez grapheme emitted for the nunation mark. */
  const Nun: string := "ን"

  /** `vowelidx`: short-vowel diacritic to its ordinal in a consonant family. */
  const VowelIdx: map<char, nat> := map[Fatha := 0, Damma := 1, Kasra := 2]

  predicate IsShortVowel(c: char) {
    c in VowelIdx
  }

  /** An ASCII capital, 'A'..'Z'. */
  predicate IsUpperAscii(c: char) {
    'A' <= c <= 'Z'
  }

  /** `arabic2amharic`: Arabic grapheme to Ge'ez string. Many-to-one on purpose
      (homophones share a base). The source also has the key "two dammas"
      (a two-character string); the engine only ever looks up single
      characters, so that entry can never be hit and is not listed here. */
  const Arabic2Amharic: map<char, string> := map[
    '\U{0627}' := "እ",
    '\U{0649}' := "አ",
    '\U{0623}' := "አ",
    '\U{0625}' := "ኢ",
    '\U{0628}' := "ብ",
    '\U{062A}' := "ት",
    '\U{062B}' := "ት",
    '\U{062C}' := "ጅ",
    '\U{062D}' := "ሕ",
    '\U{062E}' := "ኽ",
    '\U{062F}' := "ድ",
    '\U{0630}' := "ድ",
    '\U{0631}' := "ር",
    '\U{0632}' := "ዝ",
    '\U{0633}' := "ስ",
    '\U{0634}' := "ሽ",
    '\U{0635}' := "ሥ",
    '\U{0636}' := "ድ",
    '\U{0638}' := "ዝ",
    '\U{0639}' := "ዕ",
    '\U{063A}' := "ግ",
    '\U{0641}' := "ፍ",
    '\U{0642}' := "ቅ",
    '\U{0643}' := "ክ",
    '\U{0644}' := "ል",
    '\U{0645}' := "ም",
    '\U{0646}' := "ን",
    '\U{0647}' := "ህ",
    '\U{0648}' := "ው",
    '\U{064A}' := "ይ",
    '\U{0621}' := "አ",
    TaMarbuta := "አተ",
    '\U{061F}' := "?",
    '\U{0637}' := "ጥ",
    TanwinFath := "ን",
    Kasra := "ኢ",
    Fatha := "ኣ"
  ]

  /** `letter2family`: Ge'ez base consonant to its vowelled forms, indexed by
      the short-vowel ordinal (a, u, i). */
  const Letter2Family: map<string, seq<string>> := map[
    "እ" := ["ኣ", "ኡ", "ኢ"],
    "ብ" := ["ባ", "ቡ", "ቢ"],
    "ድ" := ["ዳ", "ዱ", "ዲ"],
    "ጅ" := ["ጃ", "ጁ", "ጂ"],
    "ፍ" := ["ፋ", "ፉ", "ፊ"],
    "ህ" := ["ሃ", "ሁ", "ሂ"],
    "ሕ" := ["ሓ", "ሑ", "ሒ"],
    "ይ" := ["ያ", "ዩ", "ዪ"],
    "ክ" := ["ካ", "ኩ", "ኪ"],
    "ል" := ["ላ", "ሉ", "ሊ"],
    "ን" := ["ና", "ኑ", "ኒ"],
    "ም" := ["ማ", "ሙ", "ሚ"],
    "ቅ" := ["ቃ", "ቁ", "ቂ"],
    "ር" := ["ራ", "ሩ", "ሪ"],
    "ስ" := ["ሳ", "ሱ", "ሲ"],
    "ሥ" := ["ሣ", "ሡ", "ሢ"],
    "ሽ" := ["ሻ", "ሹ", "ሺ"],
    "ት" := ["ታ", "ቱ", "ቲ"],
    "ጥ" := ["ጣ", "ጡ", "ጢ"],
    "ው" := ["ዋ", "ዉ", "ዊ"],
    "ኽ" := ["ኻ", "ኹ", "ኺ"],
    "ግ" := ["ጋ", "ጉ", "ጊ"],
    "ዝ" := ["ዛ", "ዙ", "ዚ"],
    "ዕ" := ["ዓ", "ዑ", "ዒ"]
  ]

  /** `xhosa2amharic`: lowercase Latin letter to a Ge'ez grapheme. The entry
      for 'a' carries a trailing space. */
  const Xhosa2Amharic: map<char, string> := map[
    'a' := "ኣ ",
    'b' := "ብ",
    'c' := "ጽ",
    'd' := "ድ",
    'e' := "ኧ",
    'f' := "ፍ",
    'g' := "ግ",
    'h' := "ሀ",
    'i' := "ኢ",
    'j' := "ጅ",
    'k' := "ቅ",
    'l' := "ለ",
    'm' := "ም",
    'n' := "ን",
    'o' := "ኦ",
    'p' := "ጵ",
    'q' := "ጠ",
    'r' := "ር",
    's' := "ስ",
    't' := "ጥ",
    'u' := "ኡ",
    'v' := "ቭ",
    'w' := "ው",
    'x' := "ጭ",
    'y' := "ይ",
    'z' := "ዝ"
  ]

  /** The short-vowel table has exactly the three marks, with ordinals 0, 1, 2. */
  lemma VowelIdxShape()
    ensures forall c :: c in VowelIdx <==> c == Fatha || c == Damma || c == Kasra
    ensures forall c :: c in VowelIdx ==> VowelIdx[c] < 3
    ensures VowelIdx[Fatha] == 0 && VowelIdx[Damma] == 1 && VowelIdx[Kasra] == 2
  {
  }

  /** Every family has one single-character form per short vowel. */
  lemma FamilyShape()
    ensures forall b :: b in Letter2Family ==> |Letter2Family[b]| == 3
    ensures forall b, k :: b in Letter2Family && 0 <= k < |Letter2Family[b]| ==> |Letter2Family[b][k]| == 1
  {
  }

  /** Every Arabic value is one Ge'ez character, except ta marbuta's two. */
  lemma ArabicValueLengths()
    ensures forall c :: c in Arabic2Amharic ==> 1 <= |Arabic2Amharic[c]| <= 2
    ensures forall c :: c in Arabic2Amharic && |Arabic2Amharic[c]| == 2 ==> c == TaMarbuta
  {
  }

  /** The Latin table is total on 'a'..'z' and nothing else; every value is
      one character except the two of 'a'. */
  lemma XhosaShape()
    ensures forall c :: c in Xhosa2Amharic <==> 'a' <= c <= 'z'
    ensures forall c :: c in Xhosa2Amharic && c != 'a' ==> |Xhosa2Amharic[c]| == 1
    ensures |Xhosa2Amharic['a']| == 2
  {
  }
}
