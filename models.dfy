/**
 * The records of the dictionary core: search results, full definitions and the raw
 * Wiktionary entries read during import, with their constructors and the defaults that
 * deserialisation gives to absent fields.
 */
module Models {
  import opened Wrappers

  /** Rust's `i64` and `i32`. */
  type i64 = x: int | -0x8000_0000_0000_0000 <= x < 0x8000_0000_0000_0000
  type i32 = x: int | -0x8000_0000 <= x < 0x8000_0000

  /** One hit of a search; `score` is a relevance value, lower is better, 0 for an exact match. */
  datatype SearchResult = SearchResult(id: i64, word: string, pos: string, preview: string, score: real)

  /** `SearchResult::new`: keeps the four given fields and scores the result 0. */
  function NewSearchResult(id: i64, word: string, pos: string, preview: string): (r: SearchResult)
    ensures r.id == id && r.word == word && r.pos == pos && r.preview == preview
    ensures r.score == 0.0
  {
    SearchResult(id, word, pos, preview, 0.0)
  }

  /** `SearchResult::with_score`: keeps all five given fields. */
  function SearchResultWithScore(id: i64, word: string, pos: string, preview: string, score: real): (r: SearchResult)
    ensures r.id == id && r.word == word && r.pos == pos && r.preview == preview && r.score == score
  {
    SearchResult(id, word, pos, preview, score)
  }

  datatype Definition = Definition(id: i64, text: string, examples: seq<string>, tags: seq<string>)
  datatype Pronunciation = Pronunciation(id: i64, ipa: Option<string>, audioUrl: Option<string>, accent: Option<string>)
  datatype Translation = Translation(id: i64, targetLanguage: string, translation: string)

  /** Everything known about one word entry. */
  datatype FullDefinition = FullDefinition(
    word: string, pos: string, language: string, langCode: string,
    definitions: seq<Definition>, pronunciations: seq<Pronunciation>,
    etymology: Option<string>, translations: seq<Translation>)

  /** `FullDefinition::new`: the given header fields, and nothing attached yet. */
  function NewFullDefinition(word: string, pos: string, language: string, langCode: string): (r: FullDefinition)
    ensures r.word == word && r.pos == pos && r.language == language && r.langCode == langCode
    ensures r.definitions == [] && r.pronunciations == [] && r.translations == []
    ensures r.etymology.None?
  {
    FullDefinition(word, pos, language, langCode, [], [], None, [])
  }

  // Raw entries of the Wiktionary export, after deserialisation.

  datatype RawExample = RawExample(text: string)
  datatype RawSense = RawSense(glosses: seq<string>, rawGlosses: seq<string>, examples: seq<RawExample>, tags: seq<string>)
  datatype RawSound = RawSound(ipa: Option<string>, audio: Option<string>, oggUrl: Option<string>, mp3Url: Option<string>, tags: seq<string>)
  datatype RawTranslation = RawTranslation(lang: string, code: string, word: string)
  datatype RawWordEntry = RawWordEntry(
    word: string, pos: string, lang: string, langCode: string,
    etymologyNumber: Option<i32>, etymologyText: Option<string>,
    senses: seq<RawSense>, sounds: seq<RawSound>, translations: seq<RawTranslation>)

  /** `default_language`: the language of an entry that does not name one. */
  const DefaultLanguage: string := "English"

  // The same records as the JSON objects of one line hold them: a field the object does not
  // have is None. (For the fields of Option type, an absent field and a JSON null are both None.)

  datatype RawExampleJson = RawExampleJson(text: Option<string>)
  datatype RawSenseJson = RawSenseJson(
    glosses: Option<seq<string>>, rawGlosses: Option<seq<string>>,
    examples: Option<seq<RawExampleJson>>, tags: Option<seq<string>>)
  datatype RawSoundJson = RawSoundJson(
    ipa: Option<string>, audio: Option<string>, oggUrl: Option<string>, mp3Url: Option<string>,
    tags: Option<seq<string>>)
  datatype RawTranslationJson = RawTranslationJson(lang: Option<string>, code: Option<string>, word: Option<string>)
  datatype RawWordEntryJson = RawWordEntryJson(
    word: Option<string>, pos: Option<string>, lang: Option<string>, langCode: Option<string>,
    etymologyNumber: Option<i32>, etymologyText: Option<string>,
    senses: Option<seq<RawSenseJson>>, sounds: Option<seq<RawSoundJson>>,
    translations: Option<seq<RawTranslationJson>>)

  /** `RawExample`'s only field defaults to the empty string. */
  function DecodeRawExample(j: RawExampleJson): (r: RawExample)
    ensures j.text.Some? ==> r.text == j.text.value
    ensures j.text.None? ==> r.text == ""
  {
    RawExample(j.text.GetOr(""))
  }

  function DecodeRawExamples(js: seq<RawExampleJson>): (r: seq<RawExample>)
    ensures |r| == |js| && forall k :: 0 <= k < |js| ==> r[k] == DecodeRawExample(js[k])
  {
    seq(|js|, k requires 0 <= k < |js| => DecodeRawExample(js[k]))
  }

  /** Every field of `RawSense` defaults to an empty list; present fields are kept. */
  function DecodeRawSense(j: RawSenseJson): (r: RawSense)
    ensures j.glosses.Some? ==> r.glosses == j.glosses.value
    ensures j.glosses.None? ==> r.glosses == []
    ensures j.rawGlosses.Some? ==> r.rawGlosses == j.rawGlosses.value
    ensures j.rawGlosses.None? ==> r.rawGlosses == []
    ensures j.examples.Some? ==> r.examples == DecodeRawExamples(j.examples.value)
    ensures j.examples.None? ==> r.examples == []
    ensures j.tags.Some? ==> r.tags == j.tags.value
    ensures j.tags.None? ==> r.tags == []
  {
    RawSense(j.glosses.GetOr([]), j.rawGlosses.GetOr([]),
             DecodeRawExamples(j.examples.GetOr([])), j.tags.GetOr([]))
  }

  function DecodeRawSenses(js: seq<RawSenseJson>): (r: seq<RawSense>)
    ensures |r| == |js| && forall k :: 0 <= k < |js| ==> r[k] == DecodeRawSense(js[k])
  {
    seq(|js|, k requires 0 <= k < |js| => DecodeRawSense(js[k]))
  }

  /** The optional fields of `RawSound` stay absent, its tags default to an empty list. */
  function DecodeRawSound(j: RawSoundJson): (r: RawSound)
    ensures r.ipa == j.ipa && r.audio == j.audio && r.oggUrl == j.oggUrl && r.mp3Url == j.mp3Url
    ensures j.tags.Some? ==> r.tags == j.tags.value
    ensures j.tags.None? ==> r.tags == []
  {
    RawSound(j.ipa, j.audio, j.oggUrl, j.mp3Url, j.tags.GetOr([]))
  }

  function DecodeRawSounds(js: seq<RawSoundJson>): (r: seq<RawSound>)
    ensures |r| == |js| && forall k :: 0 <= k < |js| ==> r[k] == DecodeRawSound(js[k])
  {
    seq(|js|, k requires 0 <= k < |js| => DecodeRawSound(js[k]))
  }

  /** Every field of `RawTranslation` defaults to the empty string. */
  function DecodeRawTranslation(j: RawTranslationJson): (r: RawTranslation)
    ensures j.lang.Some? ==> r.lang == j.lang.value
    ensures j.lang.None? ==> r.lang == ""
    ensures j.code.Some? ==> r.code == j.code.value
    ensures j.code.None? ==> r.code == ""
    ensures j.word.Some? ==> r.word == j.word.value
    ensures j.word.None? ==> r.word == ""
  {
    RawTranslation(j.lang.GetOr(""), j.code.GetOr(""), j.word.GetOr(""))
  }

  function DecodeRawTranslations(js: seq<RawTranslationJson>): (r: seq<RawTranslation>)
    ensures |r| == |js| && forall k :: 0 <= k < |js| ==> r[k] == DecodeRawTranslation(js[k])
  {
    seq(|js|, k requires 0 <= k < |js| => DecodeRawTranslation(js[k]))
  }

  /**
   * Deserialising a `RawWordEntry`: `word` and `pos` are required and an object without
   * either is rejected; an absent `lang` is English, an absent `lang_code` is empty, the
   * etymology fields stay absent, and the three lists default to empty.
   */
  function DecodeRawWordEntry(j: RawWordEntryJson): (r: Option<RawWordEntry>)
    ensures r.None? <==> j.word.None? || j.pos.None?
    ensures r.Some? ==> r.value.word == j.word.value && r.value.pos == j.pos.value
    ensures r.Some? && j.lang.Some? ==> r.value.lang == j.lang.value
    ensures r.Some? && j.lang.None? ==> r.value.lang == "English"
    ensures r.Some? && j.langCode.Some? ==> r.value.langCode == j.langCode.value
    ensures r.Some? && j.langCode.None? ==> r.value.langCode == ""
    ensures r.Some? ==> r.value.etymologyNumber == j.etymologyNumber && r.value.etymologyText == j.etymologyText
    ensures r.Some? && j.senses.None? ==> r.value.senses == []
    ensures r.Some? && j.senses.Some? ==> r.value.senses == DecodeRawSenses(j.senses.value)
    ensures r.Some? && j.sounds.None? ==> r.value.sounds == []
    ensures r.Some? && j.sounds.Some? ==> r.value.sounds == DecodeRawSounds(j.sounds.value)
    ensures r.Some? && j.translations.None? ==> r.value.translations == []
    ensures r.Some? && j.translations.Some? ==> r.value.translations == DecodeRawTranslations(j.translations.value)
  {
    if j.word.None? || j.pos.None? then None
    else Some(RawWordEntry(
      j.word.value, j.pos.value, j.lang.GetOr(DefaultLanguage), j.langCode.GetOr(""),
      j.etymologyNumber, j.etymologyText,
      DecodeRawSenses(j.senses.GetOr([])), DecodeRawSounds(j.sounds.GetOr([])),
      DecodeRawTranslations(j.translations.GetOr([]))))
  }

  /** The unit test's entry: only `word`, `pos` and one sense with one gloss are given. */
  lemma DecodeMinimalEntry()
    ensures DecodeRawWordEntry(RawWordEntryJson(
              Some("test"), Some("noun"), None, None, None, None,
              Some([RawSenseJson(Some(["A trial"]), None, None, None)]), None, None))
            == Some(RawWordEntry("test", "noun", "English", "", None, None,
                                 [RawSense(["A trial"], [], [], [])], [], []))
  {
    var sense := RawSenseJson(Some(["A trial"]), None, None, None);
    assert DecodeRawExamples([]) == [];
    assert DecodeRawSense(sense) == RawSense(["A trial"], [], [], []);
    assert DecodeRawSenses([sense]) == [DecodeRawSense(sense)];
    assert DecodeRawSounds([]) == [];
    assert DecodeRawTranslations([]) == [];
  }
}
