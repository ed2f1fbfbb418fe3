/**
 * The import of a Wiktionary JSONL export: each parsed entry becomes a word row and the
 * definition, pronunciation, etymology and translation rows that refer to it, and the line
 * loop counts lines and errors and reports progress.
 *
 * The database is a `Connection` whose inserts append to a sink; which rows it refuses is
 * fixed by a function given when it is opened.
 */
module Import {
  import opened Wrappers
  import opened Text
  import opened Models

  // ----- Choosing the values of the rows -----

  /** `slice::first`. */
  function First<T>(xs: seq<T>): (r: Option<T>)
    ensures r.None? <==> |xs| == 0
    ensures r.Some? ==> r.value == xs[0]
  {
    if |xs| == 0 then None else Some(xs[0])
  }

  /** `get_audio_url`: the OGG URL if there is one, else the MP3 URL, else the generic audio. */
  function AudioUrl(sound: RawSound): (r: Option<string>)
    ensures sound.oggUrl.Some? ==> r == sound.oggUrl
    ensures sound.oggUrl.None? && sound.mp3Url.Some? ==> r == sound.mp3Url
    ensures sound.oggUrl.None? && sound.mp3Url.None? ==> r == sound.audio
    ensures r.None? <==> sound.oggUrl.None? && sound.mp3Url.None? && sound.audio.None?
  {
    match sound.oggUrl
    case Some(url) => Some(url)
    case None =>
      match sound.mp3Url
      case Some(url) => Some(url)
      case None => sound.audio
  }

  /** The two unit tests: OGG wins over the others, and MP3 is taken when there is no OGG. */
  lemma AudioUrlExamples()
    ensures AudioUrl(RawSound(Some("test"), Some("audio.mp3"), Some("audio.ogg"), Some("audio.mp3"), [])) == Some("audio.ogg")
    ensures AudioUrl(RawSound(Some("test"), None, None, Some("audio.mp3"), [])) == Some("audio.mp3")
  {
  }

  /**
   * The text of a sense's definition: its first gloss if it has glosses, else its first raw
   * gloss, else the empty string. An empty first gloss does not fall back to the raw glosses.
   */
  function DefinitionText(sense: RawSense): (r: string)
    ensures |sense.glosses| > 0 ==> r == sense.glosses[0]
    ensures |sense.glosses| == 0 && |sense.rawGlosses| > 0 ==> r == sense.rawGlosses[0]
    ensures |sense.glosses| == 0 && |sense.rawGlosses| == 0 ==> r == ""
  {
    match First(sense.glosses)
    case Some(g) => g
    case None => First(sense.rawGlosses).GetOr("")
  }

  /** The texts of a sense's examples, in order. */
  function ExampleTexts(examples: seq<RawExample>): (r: seq<string>)
    ensures |r| == |examples| && forall k :: 0 <= k < |r| ==> r[k] == examples[k].text
  {
    seq(|examples|, k requires 0 <= k < |examples| => examples[k].text)
  }

  /** The language a translation is filed under: its code, or its language name when it has no code. */
  function TargetLanguage(t: RawTranslation): (r: string)
    ensures t.code != "" ==> r == t.code
    ensures t.code == "" ==> r == t.lang
  {
    if t.code == "" then t.lang else t.code
  }

  // ----- The rows of one entry -----

  /** One `INSERT` of `db.rs`: the table it goes to and the values it writes. */
  datatype Insert =
    | WordRow(word: string, pos: string, language: string, etymologyNum: i32)
    | DefinitionRow(wordId: int, definition: string, examples: seq<string>, tags: seq<string>)
    | PronunciationRow(wordId: int, ipa: Option<string>, audioUrl: Option<string>, accent: Option<string>)
    | EtymologyRow(wordId: int, etymologyText: string)
    | TranslationRow(wordId: int, targetLanguage: string, translation: string)

  /** The rows a sense gives: one definition row, unless its definition text is empty. */
  function SenseRows(sense: RawSense, wordId: int): seq<Insert> {
    var text := DefinitionText(sense);
    if text == "" then [] else [DefinitionRow(wordId, text, ExampleTexts(sense.examples), sense.tags)]
  }

  /** The rows a sound gives: one pronunciation row, when it has an IPA transcription. */
  function SoundRows(sound: RawSound, wordId: int): seq<Insert> {
    match sound.ipa
    case None => []
    case Some(ipa) => [PronunciationRow(wordId, Some(ipa), AudioUrl(sound), First(sound.tags))]
  }

  /** The rows a translation gives: one translation row, unless the translated word is empty. */
  function TranslationRows(t: RawTranslation, wordId: int): seq<Insert> {
    if t.word == "" then [] else [TranslationRow(wordId, TargetLanguage(t), t.word)]
  }

  /** The etymology row, when the entry has a non-empty etymology text. */
  function EtymologyRows(text: Option<string>, wordId: int): seq<Insert> {
    if text.Some? && text.value != "" then [EtymologyRow(wordId, text.value)] else []
  }

  function DefinitionRows(senses: seq<RawSense>, wordId: int): seq<Insert> {
    if senses == [] then []
    else DefinitionRows(senses[..|senses| - 1], wordId) + SenseRows(senses[|senses| - 1], wordId)
  }

  function PronunciationRows(sounds: seq<RawSound>, wordId: int): seq<Insert> {
    if sounds == [] then []
    else PronunciationRows(sounds[..|sounds| - 1], wordId) + SoundRows(sounds[|sounds| - 1], wordId)
  }

  function TranslationRowsOf(ts: seq<RawTranslation>, wordId: int): seq<Insert> {
    if ts == [] then []
    else TranslationRowsOf(ts[..|ts| - 1], wordId) + TranslationRows(ts[|ts| - 1], wordId)
  }

  /** The word row of an entry; an absent etymology number is 0. */
  function WordRowOf(entry: RawWordEntry): Insert {
    WordRow(entry.word, entry.pos, entry.lang, entry.etymologyNumber.GetOr(0))
  }

  /**
   * Every row `import_entry` writes for an entry, in order, when the word row gets `wordId`:
   * the word, its definitions, pronunciations, etymology and translations.
   */
  function EntryInserts(entry: RawWordEntry, wordId: int): seq<Insert> {
    [WordRowOf(entry)] + ChildRows(entry, wordId)
  }

  /** The rows of an entry after its word row. */
  function ChildRows(entry: RawWordEntry, wordId: int): seq<Insert> {
    DefinitionRows(entry.senses, wordId) + (PronunciationRows(entry.sounds, wordId)
    + (EtymologyRows(entry.etymologyText, wordId) + TranslationRowsOf(entry.translations, wordId)))
  }

  /**
   * The definition rows: each refers to the word and carries a non-empty text; each sense
   * with a non-empty definition text gives its row, with the sense's example texts and tags;
   * and there is at most one row per sense.
   */
  lemma {:induction false} DefinitionRowsSpec(senses: seq<RawSense>, wordId: int)
    ensures |DefinitionRows(senses, wordId)| <= |senses|
    ensures forall r :: r in DefinitionRows(senses, wordId) ==>
      r.DefinitionRow? && r.wordId == wordId && r.definition != ""
      && exists k :: 0 <= k < |senses| && r == DefinitionRow(wordId, DefinitionText(senses[k]), ExampleTexts(senses[k].examples), senses[k].tags)
    ensures forall k :: 0 <= k < |senses| && DefinitionText(senses[k]) != "" ==>
      DefinitionRow(wordId, DefinitionText(senses[k]), ExampleTexts(senses[k].examples), senses[k].tags) in DefinitionRows(senses, wordId)
    decreases |senses|
  {
    if senses != [] {
      var init := senses[..|senses| - 1];
      DefinitionRowsSpec(init, wordId);
      forall r | r in DefinitionRows(senses, wordId)
        ensures exists k :: 0 <= k < |senses| && r == DefinitionRow(wordId, DefinitionText(senses[k]), ExampleTexts(senses[k].examples), senses[k].tags)
      {
        if r in DefinitionRows(init, wordId) {
          var k :| 0 <= k < |init| && r == DefinitionRow(wordId, DefinitionText(init[k]), ExampleTexts(init[k].examples), init[k].tags);
          assert init[k] == senses[k];
        } else {
          assert r in SenseRows(senses[|senses| - 1], wordId);
        }
      }
      forall k | 0 <= k < |senses| && DefinitionText(senses[k]) != ""
        ensures DefinitionRow(wordId, DefinitionText(senses[k]), ExampleTexts(senses[k].examples), senses[k].tags) in DefinitionRows(senses, wordId)
      {
        if k < |init| {
          assert init[k] == senses[k];
        }
      }
    }
  }

  /**
   * The pronunciation rows: one for each sound that has an IPA transcription, with that
   * transcription, the sound's preferred audio URL and its first tag as the accent.
   */
  lemma {:induction false} PronunciationRowsSpec(sounds: seq<RawSound>, wordId: int)
    ensures |PronunciationRows(sounds, wordId)| <= |sounds|
    ensures forall r :: r in PronunciationRows(sounds, wordId) ==>
      exists k :: (0 <= k < |sounds| && sounds[k].ipa.Some?
        && r == PronunciationRow(wordId, sounds[k].ipa, AudioUrl(sounds[k]), First(sounds[k].tags)))
    ensures forall k :: 0 <= k < |sounds| && sounds[k].ipa.Some? ==>
      PronunciationRow(wordId, sounds[k].ipa, AudioUrl(sounds[k]), First(sounds[k].tags)) in PronunciationRows(sounds, wordId)
    decreases |sounds|
  {
    if sounds != [] {
      var init := sounds[..|sounds| - 1];
      PronunciationRowsSpec(init, wordId);
      forall r | r in PronunciationRows(sounds, wordId)
        ensures exists k :: (0 <= k < |sounds| && sounds[k].ipa.Some?
          && r == PronunciationRow(wordId, sounds[k].ipa, AudioUrl(sounds[k]), First(sounds[k].tags)))
      {
        if r in PronunciationRows(init, wordId) {
          var k :| 0 <= k < |init| && init[k].ipa.Some?
            && r == PronunciationRow(wordId, init[k].ipa, AudioUrl(init[k]), First(init[k].tags));
          assert init[k] == sounds[k];
        } else {
          assert r in SoundRows(sounds[|sounds| - 1], wordId);
        }
      }
      forall k | 0 <= k < |sounds| && sounds[k].ipa.Some?
        ensures PronunciationRow(wordId, sounds[k].ipa, AudioUrl(sounds[k]), First(sounds[k].tags)) in PronunciationRows(sounds, wordId)
      {
        if k < |init| {
          assert init[k] == sounds[k];
        }
      }
    }
  }

  /**
   * The translation rows: one for each translation with a non-empty word, filed under the
   * translation's code, or under its language name when the code is empty.
   */
  lemma {:induction false} TranslationRowsSpec(ts: seq<RawTranslation>, wordId: int)
    ensures |TranslationRowsOf(ts, wordId)| <= |ts|
    ensures forall r :: r in TranslationRowsOf(ts, wordId) ==>
      r.TranslationRow? && r.wordId == wordId && r.translation != ""
      && exists k :: 0 <= k < |ts| && r == TranslationRow(wordId, TargetLanguage(ts[k]), ts[k].word)
    ensures forall k :: 0 <= k < |ts| && ts[k].word != "" ==>
      TranslationRow(wordId, TargetLanguage(ts[k]), ts[k].word) in TranslationRowsOf(ts, wordId)
    decreases |ts|
  {
    if ts != [] {
      var init := ts[..|ts| - 1];
      TranslationRowsSpec(init, wordId);
      forall r | r in TranslationRowsOf(ts, wordId)
        ensures exists k :: 0 <= k < |ts| && r == TranslationRow(wordId, TargetLanguage(ts[k]), ts[k].word)
      {
        if r in TranslationRowsOf(init, wordId) {
          var k :| 0 <= k < |init| && r == TranslationRow(wordId, TargetLanguage(init[k]), init[k].word);
          assert init[k] == ts[k];
        } else {
          assert r in TranslationRows(ts[|ts| - 1], wordId);
        }
      }
      forall k | 0 <= k < |ts| && ts[k].word != ""
        ensures TranslationRow(wordId, TargetLanguage(ts[k]), ts[k].word) in TranslationRowsOf(ts, wordId)
      {
        if k < |init| {
          assert init[k] == ts[k];
        }
      }
    }
  }

  /** The rows of the first senses come first: adding senses only adds rows at the end. */
  lemma {:induction false} DefinitionRowsPrefix(senses: seq<RawSense>, i: nat, wordId: int)
    requires i <= |senses|
    ensures DefinitionRows(senses[..i], wordId) <= DefinitionRows(senses, wordId)
    decreases |senses|
  {
    if i < |senses| {
      var init := senses[..|senses| - 1];
      assert senses[..i] == init[..i];
      DefinitionRowsPrefix(init, i, wordId);
    } else {
      assert senses[..i] == senses;
    }
  }

  lemma {:induction false} PronunciationRowsPrefix(sounds: seq<RawSound>, i: nat, wordId: int)
    requires i <= |sounds|
    ensures PronunciationRows(sounds[..i], wordId) <= PronunciationRows(sounds, wordId)
    decreases |sounds|
  {
    if i < |sounds| {
      var init := sounds[..|sounds| - 1];
      assert sounds[..i] == init[..i];
      PronunciationRowsPrefix(init, i, wordId);
    } else {
      assert sounds[..i] == sounds;
    }
  }

  lemma {:induction false} TranslationRowsPrefix(ts: seq<RawTranslation>, i: nat, wordId: int)
    requires i <= |ts|
    ensures TranslationRowsOf(ts[..i], wordId) <= TranslationRowsOf(ts, wordId)
    decreases |ts|
  {
    if i < |ts| {
      var init := ts[..|ts| - 1];
      assert ts[..i] == init[..i];
      TranslationRowsPrefix(init, i, wordId);
    } else {
      assert ts[..i] == ts;
    }
  }

  /** Every row refers to the word `wordId` and none of them is a word row. */
  predicate RefersTo(rows: seq<Insert>, wordId: int) {
    forall j :: 0 <= j < |rows| ==> !rows[j].WordRow? && rows[j].wordId == wordId
  }

  lemma RefersToAppend(a: seq<Insert>, b: seq<Insert>, wordId: int)
    requires RefersTo(a, wordId) && RefersTo(b, wordId)
    ensures RefersTo(a + b, wordId)
  {
    forall j | 0 <= j < |a + b| ensures !(a + b)[j].WordRow? && (a + b)[j].wordId == wordId {
      if j >= |a| {
        assert (a + b)[j] == b[j - |a|];
      }
    }
  }

  lemma {:induction false} DefinitionRowsRefer(senses: seq<RawSense>, wordId: int)
    ensures RefersTo(DefinitionRows(senses, wordId), wordId)
    decreases |senses|
  {
    if senses != [] {
      DefinitionRowsRefer(senses[..|senses| - 1], wordId);
      RefersToAppend(DefinitionRows(senses[..|senses| - 1], wordId), SenseRows(senses[|senses| - 1], wordId), wordId);
    }
  }

  lemma {:induction false} PronunciationRowsRefer(sounds: seq<RawSound>, wordId: int)
    ensures RefersTo(PronunciationRows(sounds, wordId), wordId)
    decreases |sounds|
  {
    if sounds != [] {
      PronunciationRowsRefer(sounds[..|sounds| - 1], wordId);
      RefersToAppend(PronunciationRows(sounds[..|sounds| - 1], wordId), SoundRows(sounds[|sounds| - 1], wordId), wordId);
    }
  }

  lemma {:induction false} TranslationRowsRefer(ts: seq<RawTranslation>, wordId: int)
    ensures RefersTo(TranslationRowsOf(ts, wordId), wordId)
    decreases |ts|
  {
    if ts != [] {
      TranslationRowsRefer(ts[..|ts| - 1], wordId);
      RefersToAppend(TranslationRowsOf(ts[..|ts| - 1], wordId), TranslationRows(ts[|ts| - 1], wordId), wordId);
    }
  }

  /**
   * The rows of an entry: the word row first, with an absent etymology number written as 0,
   * and after it only rows that refer to the word's id.
   */
  lemma EntryInsertsShape(entry: RawWordEntry, wordId: int)
    ensures var rows := EntryInserts(entry, wordId);
      |rows| >= 1 && rows[0] == WordRowOf(entry)
      && rows[0].etymologyNum == (if entry.etymologyNumber.Some? then entry.etymologyNumber.value else 0)
      && RefersTo(rows[1..], wordId)
  {
    var d, p := DefinitionRows(entry.senses, wordId), PronunciationRows(entry.sounds, wordId);
    var e, t := EtymologyRows(entry.etymologyText, wordId), TranslationRowsOf(entry.translations, wordId);
    DefinitionRowsRefer(entry.senses, wordId);
    PronunciationRowsRefer(entry.sounds, wordId);
    TranslationRowsRefer(entry.translations, wordId);
    RefersToAppend(e, t, wordId);
    RefersToAppend(p, e + t, wordId);
    RefersToAppend(d, p + (e + t), wordId);
    assert EntryInserts(entry, wordId)[1..] == d + (p + (e + t));
  }

  lemma DefinitionRowsStep(senses: seq<RawSense>, i: nat, wordId: int)
    requires i < |senses|
    ensures DefinitionRows(senses[..i + 1], wordId) == DefinitionRows(senses[..i], wordId) + SenseRows(senses[i], wordId)
  {
    assert senses[..i + 1][..i] == senses[..i];
  }

  lemma PronunciationRowsStep(sounds: seq<RawSound>, i: nat, wordId: int)
    requires i < |sounds|
    ensures PronunciationRows(sounds[..i + 1], wordId) == PronunciationRows(sounds[..i], wordId) + SoundRows(sounds[i], wordId)
  {
    assert sounds[..i + 1][..i] == sounds[..i];
  }

  lemma TranslationRowsStep(ts: seq<RawTranslation>, i: nat, wordId: int)
    requires i < |ts|
    ensures TranslationRowsOf(ts[..i + 1], wordId) == TranslationRowsOf(ts[..i], wordId) + TranslationRows(ts[i], wordId)
  {
    assert ts[..i + 1][..i] == ts[..i];
  }

  // ----- The database connection -----

  /** Why an insert failed. */
  datatype DbError = Rejected

  /** The ids of the `INTEGER PRIMARY KEY` of a table are 1, 2, 3, ... in insertion order. */
  function RowsLike(rows: seq<Insert>, row: Insert): (n: nat)
    ensures n <= |rows|
  {
    if rows == [] then 0
    else RowsLike(rows[..|rows| - 1], row) + (if SameTable(rows[|rows| - 1], row) then 1 else 0)
  }

  predicate SameTable(a: Insert, b: Insert) {
    (a.WordRow? && b.WordRow?) || (a.DefinitionRow? && b.DefinitionRow?)
    || (a.PronunciationRow? && b.PronunciationRow?) || (a.EtymologyRow? && b.EtymologyRow?)
    || (a.TranslationRow? && b.TranslationRow?)
  }

  /** The number of word rows among `rows`. */
  function WordCount(rows: seq<Insert>): nat {
    if rows == [] then 0 else WordCount(rows[..|rows| - 1]) + (if rows[|rows| - 1].WordRow? then 1 else 0)
  }

  /** The rows of the words table are the word rows. */
  lemma {:induction false} RowsLikeWord(rows: seq<Insert>, row: Insert)
    requires row.WordRow?
    ensures RowsLike(rows, row) == WordCount(rows)
    decreases |rows|
  {
    if rows != [] {
      RowsLikeWord(rows[..|rows| - 1], row);
    }
  }

  /** The id the next word row gets. */
  function NextWordId(inserted: seq<Insert>): int {
    WordCount(inserted) + 1
  }

  /**
   * The database, as seen by the import: the rows written so far, in order, and which rows it
   * refuses (a constraint or an I/O failure). `inserted` holds every row the tables have ever
   * received, the rows of an earlier import first; none is ever deleted.
   */
  class Connection {
    var inserted: seq<Insert>
    const rejects: Insert -> bool

    /** `Connection::open` of a database whose tables already hold `existing` (none for a new file). */
    constructor (existing: seq<Insert>, rejects: Insert -> bool)
      ensures inserted == existing && this.rejects == rejects
    {
      inserted := existing;
      this.rejects := rejects;
    }

    /** `conn.execute` of an insert: the row is written unless the database refuses it. */
    method Execute(row: Insert) returns (r: Result<(), DbError>)
      modifies this
      ensures rejects(row) ==> r == Err(Rejected) && inserted == old(inserted)
      ensures !rejects(row) ==> r == Ok(()) && inserted == old(inserted) + [row]
    {
      if rejects(row) {
        r := Err(Rejected);
      } else {
        r := Ok(());
        inserted := inserted + [row];
      }
    }

    /** `conn.last_insert_rowid()`: the id of the last row written, in its table; 0 before any. */
    function LastInsertRowid(): int
      reads this
    {
      if inserted == [] then 0 else RowsLike(inserted[..|inserted| - 1], inserted[|inserted| - 1]) + 1
    }
  }

  // ----- Writing rows until one is refused -----

  /** The index of the first row refused, or the number of rows when none is. */
  function FirstRejected(rows: seq<Insert>, rejects: Insert -> bool): (k: nat)
    ensures k <= |rows|
    ensures forall j :: 0 <= j < k ==> !rejects(rows[j])
    ensures k < |rows| ==> rejects(rows[k])
  {
    if rows == [] then 0
    else if rejects(rows[0]) then 0
    else 1 + FirstRejected(rows[1..], rejects)
  }

  predicate AllAccepted(rows: seq<Insert>, rejects: Insert -> bool) {
    forall j :: 0 <= j < |rows| ==> !rejects(rows[j])
  }

  /**
   * Writing `rows` one after the other and stopping at the first failure: `after` is `before`
   * followed by the rows up to the first refused one, and the writing succeeded exactly when
   * none was refused.
   */
  predicate WroteUntilRejected(before: seq<Insert>, after: seq<Insert>, rows: seq<Insert>,
                               rejects: Insert -> bool, ok: bool) {
    var k := FirstRejected(rows, rejects);
    after == before + rows[..k] && (ok <==> k == |rows|)
  }

  lemma AcceptedThen(pre: seq<Insert>, x: Insert, rejects: Insert -> bool)
    requires AllAccepted(pre, rejects) && !rejects(x)
    ensures AllAccepted(pre + [x], rejects)
  {
  }

  /** All of `pre` accepted and then `x` refused: writing stops after `pre`. */
  lemma StopsAt(start: seq<Insert>, rows: seq<Insert>, pre: seq<Insert>, x: Insert, rejects: Insert -> bool)
    requires pre + [x] <= rows && AllAccepted(pre, rejects) && rejects(x)
    ensures WroteUntilRejected(start, start + pre, rows, rejects, false)
  {
    assert rows[|pre|] == x;
    assert FirstRejected(rows, rejects) == |pre|;
    assert rows[..|pre|] == pre;
  }

  /** All rows accepted: everything is written. */
  lemma AllWritten(start: seq<Insert>, rows: seq<Insert>, rejects: Insert -> bool)
    requires AllAccepted(rows, rejects)
    ensures FirstRejected(rows, rejects) == |rows| && WroteUntilRejected(start, start + rows, rows, rejects, true)
  {
    assert rows[..|rows|] == rows;
  }

  /** Two stages written one after the other, the second only when the first succeeded. */
  lemma {:induction false} Sequenced(s0: seq<Insert>, s1: seq<Insert>, s2: seq<Insert>,
                                     a: seq<Insert>, b: seq<Insert>, rejects: Insert -> bool, ok: bool)
    requires WroteUntilRejected(s0, s1, a, rejects, true) && WroteUntilRejected(s1, s2, b, rejects, ok)
    ensures WroteUntilRejected(s0, s2, a + b, rejects, ok)
  {
    FirstRejectedAppend(a, b, rejects);
    assert a[..|a|] == a;
    assert (a + b)[..|a| + FirstRejected(b, rejects)] == a + b[..FirstRejected(b, rejects)];
  }

  /** A stage that failed ends the writing, whatever would have come after it. */
  lemma FailedStage(s0: seq<Insert>, s1: seq<Insert>, a: seq<Insert>, b: seq<Insert>, rejects: Insert -> bool)
    requires WroteUntilRejected(s0, s1, a, rejects, false)
    ensures WroteUntilRejected(s0, s1, a + b, rejects, false)
  {
    FirstRejectedAppend(a, b, rejects);
    var k := FirstRejected(a, rejects);
    assert (a + b)[..k] == a[..k];
  }

  lemma {:induction false} FirstRejectedAppend(a: seq<Insert>, b: seq<Insert>, rejects: Insert -> bool)
    ensures FirstRejected(a + b, rejects)
            == if FirstRejected(a, rejects) < |a| then FirstRejected(a, rejects) else |a| + FirstRejected(b, rejects)
    decreases |a|
  {
    if a == [] {
      assert a + b == b;
    } else {
      assert (a + b)[1..] == a[1..] + b;
      FirstRejectedAppend(a[1..], b, rejects);
    }
  }

  // ----- import_entry -----

  /** The loop over the senses of `import_entry`. */
  method InsertDefinitions(conn: Connection, wordId: int, senses: seq<RawSense>) returns (r: Result<(), DbError>)
    modifies conn
    ensures WroteUntilRejected(old(conn.inserted), conn.inserted, DefinitionRows(senses, wordId), conn.rejects, r.Ok?)
  {
    ghost var start := conn.inserted;
    for i := 0 to |senses|
      invariant conn.inserted == start + DefinitionRows(senses[..i], wordId)
      invariant AllAccepted(DefinitionRows(senses[..i], wordId), conn.rejects)
    {
      var sense := senses[i];
      DefinitionRowsStep(senses, i, wordId);
      var definitionText := DefinitionText(sense);
      if definitionText == "" {
        continue;
      }
      var examples := ExampleTexts(sense.examples);
      var row := DefinitionRow(wordId, definitionText, examples, sense.tags);
      assert SenseRows(sense, wordId) == [row];
      var done := conn.Execute(row);
      if done.Err? {
        DefinitionRowsPrefix(senses, i + 1, wordId);
        StopsAt(start, DefinitionRows(senses, wordId), DefinitionRows(senses[..i], wordId), row, conn.rejects);
        return Err(done.error);
      }
      AcceptedThen(DefinitionRows(senses[..i], wordId), row, conn.rejects);
    }
    assert senses[..|senses|] == senses;
    AllWritten(start, DefinitionRows(senses, wordId), conn.rejects);
    return Ok(());
  }

  /** The loop over the sounds of `import_entry`. */
  method InsertPronunciations(conn: Connection, wordId: int, sounds: seq<RawSound>) returns (r: Result<(), DbError>)
    modifies conn
    ensures WroteUntilRejected(old(conn.inserted), conn.inserted, PronunciationRows(sounds, wordId), conn.rejects, r.Ok?)
  {
    ghost var start := conn.inserted;
    for i := 0 to |sounds|
      invariant conn.inserted == start + PronunciationRows(sounds[..i], wordId)
      invariant AllAccepted(PronunciationRows(sounds[..i], wordId), conn.rejects)
    {
      var sound := sounds[i];
      PronunciationRowsStep(sounds, i, wordId);
      if sound.ipa.Some? {
        var audioUrl := AudioUrl(sound);
        var accent := First(sound.tags);
        var row := PronunciationRow(wordId, sound.ipa, audioUrl, accent);
        assert SoundRows(sound, wordId) == [row];
        var done := conn.Execute(row);
        if done.Err? {
          PronunciationRowsPrefix(sounds, i + 1, wordId);
          StopsAt(start, PronunciationRows(sounds, wordId), PronunciationRows(sounds[..i], wordId), row, conn.rejects);
          return Err(done.error);
        }
        AcceptedThen(PronunciationRows(sounds[..i], wordId), row, conn.rejects);
      }
    }
    assert sounds[..|sounds|] == sounds;
    AllWritten(start, PronunciationRows(sounds, wordId), conn.rejects);
    return Ok(());
  }

  /** The loop over the translations of `import_entry`. */
  method InsertTranslations(conn: Connection, wordId: int, ts: seq<RawTranslation>) returns (r: Result<(), DbError>)
    modifies conn
    ensures WroteUntilRejected(old(conn.inserted), conn.inserted, TranslationRowsOf(ts, wordId), conn.rejects, r.Ok?)
  {
    ghost var start := conn.inserted;
    for i := 0 to |ts|
      invariant conn.inserted == start + TranslationRowsOf(ts[..i], wordId)
      invariant AllAccepted(TranslationRowsOf(ts[..i], wordId), conn.rejects)
    {
      var translation := ts[i];
      TranslationRowsStep(ts, i, wordId);
      if translation.word != "" {
        var lang := if translation.code == "" then translation.lang else translation.code;
        var row := TranslationRow(wordId, lang, translation.word);
        assert TranslationRows(translation, wordId) == [row];
        var done := conn.Execute(row);
        if done.Err? {
          TranslationRowsPrefix(ts, i + 1, wordId);
          StopsAt(start, TranslationRowsOf(ts, wordId), TranslationRowsOf(ts[..i], wordId), row, conn.rejects);
          return Err(done.error);
        }
        AcceptedThen(TranslationRowsOf(ts[..i], wordId), row, conn.rejects);
      }
    }
    assert ts[..|ts|] == ts;
    AllWritten(start, TranslationRowsOf(ts, wordId), conn.rejects);
    return Ok(());
  }

  /** The insert of the etymology of `import_entry`. */
  method InsertEtymology(conn: Connection, wordId: int, etymologyText: Option<string>) returns (r: Result<(), DbError>)
    modifies conn
    ensures WroteUntilRejected(old(conn.inserted), conn.inserted, EtymologyRows(etymologyText, wordId), conn.rejects, r.Ok?)
  {
    if etymologyText.Some? && etymologyText.value != "" {
      var done := conn.Execute(EtymologyRow(wordId, etymologyText.value));
      if done.Err? {
        return Err(done.error);
      }
    }
    return Ok(());
  }

  /**
   * The inserts of `import_entry` after the word row: definitions, pronunciations, etymology
   * and translations, stopping at the first that fails.
   */
  method InsertChildren(conn: Connection, wordId: int, entry: RawWordEntry) returns (r: Result<(), DbError>)
    modifies conn
    ensures WroteUntilRejected(old(conn.inserted), conn.inserted, ChildRows(entry, wordId), conn.rejects, r.Ok?)
  {
    ghost var d, p := DefinitionRows(entry.senses, wordId), PronunciationRows(entry.sounds, wordId);
    ghost var e, t := EtymologyRows(entry.etymologyText, wordId), TranslationRowsOf(entry.translations, wordId);
    ghost var s1 := conn.inserted;
    r := InsertDefinitions(conn, wordId, entry.senses);
    if r.Err? {
      FailedStage(s1, conn.inserted, d, p + (e + t), conn.rejects);
      return;
    }
    ghost var s2 := conn.inserted;
    r := InsertPronunciations(conn, wordId, entry.sounds);
    if r.Err? {
      FailedStage(s2, conn.inserted, p, e + t, conn.rejects);
      Sequenced(s1, s2, conn.inserted, d, p + (e + t), conn.rejects, false);
      return;
    }
    ghost var s3 := conn.inserted;
    r := InsertEtymology(conn, wordId, entry.etymologyText);
    if r.Err? {
      FailedStage(s3, conn.inserted, e, t, conn.rejects);
      Sequenced(s2, s3, conn.inserted, p, e + t, conn.rejects, false);
      Sequenced(s1, s2, conn.inserted, d, p + (e + t), conn.rejects, false);
      return;
    }
    ghost var s4 := conn.inserted;
    r := InsertTranslations(conn, wordId, entry.translations);
    Sequenced(s3, s4, conn.inserted, e, t, conn.rejects, r.Ok?);
    Sequenced(s2, s3, conn.inserted, p, e + t, conn.rejects, r.Ok?);
    Sequenced(s1, s2, conn.inserted, d, p + (e + t), conn.rejects, r.Ok?);
  }

  /** The word row refused: nothing of the entry is written. */
  lemma WordRejected(s0: seq<Insert>, entry: RawWordEntry, wordId: int, rejects: Insert -> bool)
    requires rejects(WordRowOf(entry))
    ensures WroteUntilRejected(s0, s0, EntryInserts(entry, wordId), rejects, false)
  {
    assert EntryInserts(entry, wordId)[0] == WordRowOf(entry);
  }

  /** The word row written, then the child rows: together, the rows of the entry. */
  lemma WordThenChildren(s0: seq<Insert>, s2: seq<Insert>, entry: RawWordEntry, wordId: int,
                         rejects: Insert -> bool, ok: bool)
    requires !rejects(WordRowOf(entry)) && wordId == NextWordId(s0)
    requires WroteUntilRejected(s0 + [WordRowOf(entry)], s2, ChildRows(entry, wordId), rejects, ok)
    ensures WroteUntilRejected(s0, s2, EntryInserts(entry, NextWordId(s0)), rejects, ok)
  {
    assert WroteUntilRejected(s0, s0 + [WordRowOf(entry)], [WordRowOf(entry)], rejects, true);
    Sequenced(s0, s0 + [WordRowOf(entry)], s2, [WordRowOf(entry)], ChildRows(entry, wordId), rejects, ok);
  }

  /** The id of a word row just written is the next word id. */
  lemma LastRowidOfWord(s0: seq<Insert>, wordRow: Insert)
    requires wordRow.WordRow?
    ensures RowsLike((s0 + [wordRow])[..|s0 + [wordRow]| - 1], (s0 + [wordRow])[|s0 + [wordRow]| - 1]) + 1 == NextWordId(s0)
  {
    assert (s0 + [wordRow])[..|s0|] == s0;
    RowsLikeWord(s0, wordRow);
  }

  /**
   * `import_entry`: writes the rows of the entry in order, the later ones referring to the id
   * the word row got, and stops at the first insert that fails, leaving the rows written
   * before it in place.
   */
  method ImportEntry(conn: Connection, entry: RawWordEntry) returns (r: Result<(), DbError>)
    modifies conn
    ensures WroteUntilRejected(old(conn.inserted), conn.inserted,
                               EntryInserts(entry, NextWordId(old(conn.inserted))), conn.rejects, r.Ok?)
  {
    ghost var s0 := conn.inserted;
    var etymologyNum := entry.etymologyNumber.GetOr(0);
    var wordRow := WordRow(entry.word, entry.pos, entry.lang, etymologyNum);
    assert wordRow == WordRowOf(entry);
    var word := conn.Execute(wordRow);
    if word.Err? {
      WordRejected(s0, entry, NextWordId(s0), conn.rejects);
      return Err(word.error);
    }
    var wordId := conn.LastInsertRowid();
    LastRowidOfWord(s0, wordRow);
    r := InsertChildren(conn, wordId, entry);
    WordThenChildren(s0, conn.inserted, entry, wordId, conn.rejects, r.Ok?);
  }

  /** What importing an entry leaves in the sink, as a function of the sink before. */
  function EntryWrites(inserted: seq<Insert>, entry: RawWordEntry, rejects: Insert -> bool): seq<Insert> {
    var rows := EntryInserts(entry, NextWordId(inserted));
    rows[..FirstRejected(rows, rejects)]
  }

  /** Whether importing an entry succeeds, as a function of the sink before. */
  predicate EntryImported(inserted: seq<Insert>, entry: RawWordEntry, rejects: Insert -> bool) {
    var rows := EntryInserts(entry, NextWordId(inserted));
    FirstRejected(rows, rejects) == |rows|
  }

  /**
   * A failed import leaves a proper prefix of the entry's rows behind (nothing at all when
   * the word row itself is refused); a successful one writes them all.
   */
  lemma EntryWritesPrefix(inserted: seq<Insert>, entry: RawWordEntry, rejects: Insert -> bool)
    ensures var rows := EntryInserts(entry, NextWordId(inserted));
      EntryWrites(inserted, entry, rejects) <= rows
      && (EntryImported(inserted, entry, rejects) <==> EntryWrites(inserted, entry, rejects) == rows)
      && (rejects(WordRowOf(entry)) ==> EntryWrites(inserted, entry, rejects) == [])
  {
    var rows := EntryInserts(entry, NextWordId(inserted));
    assert rows[0] == WordRowOf(entry);
    assert rows[..|rows|] == rows;
  }

  // ----- The line loop of import_from_jsonl -----

  /** A line as the reader yields it: read, or failed to read. */
  datatype LineRead = ReadFailed | LineText(text: string)

  /**
   * `serde_json::from_str` of a line: the JSON parse is a given function (None when the line
   * is not a JSON object), followed by the field defaults and required fields of the entry.
   */
  function ParseEntry(parse: string -> Option<RawWordEntryJson>, line: string): Option<RawWordEntry> {
    match parse(line)
    case None => None
    case Some(j) => DecodeRawWordEntry(j)
  }

  /**
   * What importing one entry does, given the rows already written: whether it fails, and the
   * rows it writes.
   */
  type EntryImport = (seq<Insert>, RawWordEntry) -> (bool, seq<Insert>)

  /** `import_entry` against a database that refuses the rows `rejects` holds for (ImportEntry). */
  function EntryOutcome(rejects: Insert -> bool): EntryImport {
    (inserted: seq<Insert>, entry: RawWordEntry) => (!EntryImported(inserted, entry, rejects), EntryWrites(inserted, entry, rejects))
  }

  /** The counters of the loop, the progress reported so far and the rows written. */
  datatype ImportState = ImportState(currentLine: nat, errors: nat, progress: seq<(nat, nat)>, inserted: seq<Insert>)

  /**
   * One turn of the loop: count the line, report progress at every thousandth line, count an
   * error for a line that cannot be read, does not parse or fails to import, and skip a blank
   * line without an error.
   */
  function ImportLine(st: ImportState, line: LineRead, parse: string -> Option<RawWordEntryJson>,
                      importEntry: EntryImport, totalLines: nat): ImportState {
    var n := st.currentLine + 1;
    var (failed, written) := LineEffect(st.inserted, line, parse, importEntry);
    ImportState(n, st.errors + (if failed then 1 else 0), NextReports(st.progress, n, totalLines), st.inserted + written)
  }

  /** The reports after line `n`: one more when `n` is a multiple of 1000. */
  function NextReports(progress: seq<(nat, nat)>, n: nat, totalLines: nat): seq<(nat, nat)> {
    if n % 1000 == 0 then progress + [(n, totalLines)] else progress
  }

  /** Whether a line counts as an error, and the rows importing it writes. */
  function LineEffect(inserted: seq<Insert>, line: LineRead, parse: string -> Option<RawWordEntryJson>,
                      importEntry: EntryImport): (bool, seq<Insert>) {
    match line
    case ReadFailed => (true, [])
    case LineText(text) =>
      if IsBlank(text) then (false, [])
      else match ParseEntry(parse, text)
        case None => (true, [])
        case Some(entry) => importEntry(inserted, entry)
  }

  /** The loop over the lines, from a sink holding `inserted` and zeroed counters. */
  function ImportLines(inserted: seq<Insert>, lines: seq<LineRead>, parse: string -> Option<RawWordEntryJson>,
                       importEntry: EntryImport, totalLines: nat): ImportState {
    if lines == [] then ImportState(0, 0, [], inserted)
    else ImportLine(ImportLines(inserted, lines[..|lines| - 1], parse, importEntry, totalLines),
                    lines[|lines| - 1], parse, importEntry, totalLines)
  }

  lemma ImportLinesStep(inserted: seq<Insert>, lines: seq<LineRead>, i: nat,
                        parse: string -> Option<RawWordEntryJson>, importEntry: EntryImport, totalLines: nat)
    requires i < |lines|
    ensures ImportLines(inserted, lines[..i + 1], parse, importEntry, totalLines)
            == ImportLine(ImportLines(inserted, lines[..i], parse, importEntry, totalLines), lines[i], parse, importEntry, totalLines)
  {
    assert lines[..i + 1][..i] == lines[..i];
  }

  /** A line that holds an entry: the counters and the sink move as importing the entry says. */
  lemma ImportLineEntry(st: ImportState, text: string, parse: string -> Option<RawWordEntryJson>,
                        importEntry: EntryImport, totalLines: nat, entry: RawWordEntry)
    requires !IsBlank(text) && ParseEntry(parse, text) == Some(entry)
    ensures ImportLine(st, LineText(text), parse, importEntry, totalLines)
            == ImportState(st.currentLine + 1, st.errors + (if importEntry(st.inserted, entry).0 then 1 else 0),
                           NextReports(st.progress, st.currentLine + 1, totalLines), st.inserted + importEntry(st.inserted, entry).1)
  {
  }

  /** ImportEntry's effect is the one EntryOutcome describes. */
  lemma EntryOutcomeOf(before: seq<Insert>, after: seq<Insert>, entry: RawWordEntry, rejects: Insert -> bool, ok: bool)
    requires WroteUntilRejected(before, after, EntryInserts(entry, NextWordId(before)), rejects, ok)
    ensures EntryOutcome(rejects)(before, entry).0 == !ok && after == before + EntryOutcome(rejects)(before, entry).1
  {
  }

  /**
   * One turn of the loop of `import_from_jsonl`, from the counters and the reports before it;
   * `return` stands for the loop's `continue`.
   */
  method ImportNextLine(conn: Connection, line: LineRead, parse: string -> Option<RawWordEntryJson>, totalLines: nat,
                        currentLine0: nat, errors0: nat, progress0: seq<(nat, nat)>)
    returns (currentLine: nat, errors: nat, progress: seq<(nat, nat)>)
    modifies conn
    ensures ImportState(currentLine, errors, progress, conn.inserted)
            == ImportLine(ImportState(currentLine0, errors0, progress0, old(conn.inserted)), line, parse, EntryOutcome(conn.rejects), totalLines)
  {
    ghost var st := ImportState(currentLine0, errors0, progress0, conn.inserted);
    currentLine, errors, progress := currentLine0 + 1, errors0, progress0;
    if currentLine % 1000 == 0 {
      progress := progress + [(currentLine, totalLines)];
    }
    assert progress == NextReports(progress0, currentLine, totalLines);
    match line
    case ReadFailed =>
      ImportLineFailed(st, line, parse, EntryOutcome(conn.rejects), totalLines);
      errors := errors + 1;
    case LineText(text) =>
      var blank := TrimIsEmpty(text);
      if blank {
        ImportLineBlank(st, text, parse, EntryOutcome(conn.rejects), totalLines);
        return;
      }
      match ParseEntry(parse, text)
      case None =>
        ImportLineFailed(st, line, parse, EntryOutcome(conn.rejects), totalLines);
        errors := errors + 1;
      case Some(entry) =>
        var failed := ImportParsedEntry(conn, entry);
        ImportLineEntry(st, text, parse, EntryOutcome(conn.rejects), totalLines, entry);
        if failed {
          errors := errors + 1;
        }
  }

  /** The import of a parsed line's entry, which counts as an error when it fails. */
  method ImportParsedEntry(conn: Connection, entry: RawWordEntry) returns (failed: bool)
    modifies conn
    ensures failed == EntryOutcome(conn.rejects)(old(conn.inserted), entry).0
    ensures conn.inserted == old(conn.inserted) + EntryOutcome(conn.rejects)(old(conn.inserted), entry).1
  {
    ghost var before := conn.inserted;
    var imported := ImportEntry(conn, entry);
    EntryOutcomeOf(before, conn.inserted, entry, conn.rejects, imported.Ok?);
    failed := imported.Err?;
  }

  /**
   * The line loop of `import_from_jsonl`: the number of lines, the number of errors, and the
   * progress reports, the last of which is the final one with the line count.
   */
  method ImportFromJsonl(conn: Connection, lines: seq<LineRead>, parse: string -> Option<RawWordEntryJson>,
                         totalLines: nat) returns (currentLine: nat, errors: nat, progress: seq<(nat, nat)>)
    modifies conn
    ensures var st := ImportLines(old(conn.inserted), lines, parse, EntryOutcome(conn.rejects), totalLines);
      currentLine == st.currentLine && errors == st.errors && conn.inserted == st.inserted
      && progress == st.progress + [(currentLine, totalLines)]
  {
    ghost var start := conn.inserted;
    currentLine, errors, progress := 0, 0, [];
    for i := 0 to |lines|
      invariant ImportLines(start, lines[..i], parse, EntryOutcome(conn.rejects), totalLines)
                == ImportState(currentLine, errors, progress, conn.inserted)
    {
      ImportLinesStep(start, lines, i, parse, EntryOutcome(conn.rejects), totalLines);
      currentLine, errors, progress := ImportNextLine(conn, lines[i], parse, totalLines, currentLine, errors, progress);
    }
    assert lines[..|lines|] == lines;
    progress := progress + [(currentLine, totalLines)];
  }

  /** Every line is counted, blank ones included. */
  lemma {:induction false} ImportLinesCount(inserted: seq<Insert>, lines: seq<LineRead>,
                                            parse: string -> Option<RawWordEntryJson>, importEntry: EntryImport, totalLines: nat)
    ensures ImportLines(inserted, lines, parse, importEntry, totalLines).currentLine == |lines|
    decreases |lines|
  {
    if lines != [] {
      ImportLinesCount(inserted, lines[..|lines| - 1], parse, importEntry, totalLines);
    }
  }

  /** One line's share of the counter and the progress reports. */
  lemma ImportLineCounts(st: ImportState, line: LineRead, parse: string -> Option<RawWordEntryJson>,
                         importEntry: EntryImport, totalLines: nat)
    ensures var next := ImportLine(st, line, parse, importEntry, totalLines);
      next.currentLine == st.currentLine + 1
      && next.progress == if (st.currentLine + 1) % 1000 == 0 then st.progress + [(st.currentLine + 1, totalLines)] else st.progress
  {
  }

  /** The progress reports after line `n`, from those after line `n - 1`. */
  lemma TicksStep(p0: seq<(nat, nat)>, p: seq<(nat, nat)>, n: nat, totalLines: nat)
    requires n > 0 && |p0| == (n - 1) / 1000
    requires forall k :: 0 <= k < |p0| ==> p0[k] == ((k + 1) * 1000, totalLines)
    requires p == p0 + (if n % 1000 == 0 then [(n, totalLines)] else [])
    ensures |p| == n / 1000 && forall k :: 0 <= k < |p| ==> p[k] == ((k + 1) * 1000, totalLines)
  {
    if n % 1000 == 0 {
      assert n == ((n - 1) / 1000 + 1) * 1000;
      assert p == p0 + [(n, totalLines)];
      forall k | 0 <= k < |p| ensures p[k] == ((k + 1) * 1000, totalLines) {
        if k < |p0| {
          assert p[k] == p0[k];
        }
      }
    } else {
      assert p == p0;
    }
  }

  /** The progress reports of the first `n` lines: one at every thousandth line. */
  function Reports(n: nat, totalLines: nat): seq<(nat, nat)> {
    if n == 0 then [] else Reports(n - 1, totalLines) + (if n % 1000 == 0 then [(n, totalLines)] else [])
  }

  /** The reports are at lines 1000, 2000, ... up to `n`, each with the total. */
  lemma {:induction false} ReportsTicks(n: nat, totalLines: nat)
    ensures var p := Reports(n, totalLines);
      |p| == n / 1000 && forall k :: 0 <= k < |p| ==> p[k] == ((k + 1) * 1000, totalLines)
  {
    if n > 0 {
      ReportsTicks(n - 1, totalLines);
      TicksStep(Reports(n - 1, totalLines), Reports(n, totalLines), n, totalLines);
    }
  }

  lemma {:induction false} ImportLinesReports(inserted: seq<Insert>, lines: seq<LineRead>,
                                              parse: string -> Option<RawWordEntryJson>, importEntry: EntryImport, totalLines: nat)
    ensures ImportLines(inserted, lines, parse, importEntry, totalLines).progress == Reports(|lines|, totalLines)
    decreases |lines|
  {
    if lines != [] {
      var init := lines[..|lines| - 1];
      ImportLinesReports(inserted, init, parse, importEntry, totalLines);
      ImportLinesCount(inserted, init, parse, importEntry, totalLines);
      ImportLineCounts(ImportLines(inserted, init, parse, importEntry, totalLines), lines[|lines| - 1], parse, importEntry, totalLines);
    }
  }

  /** Progress is reported at lines 1000, 2000, ... up to the line count, each with the total. */
  lemma ImportLinesProgress(inserted: seq<Insert>, lines: seq<LineRead>,
                            parse: string -> Option<RawWordEntryJson>, importEntry: EntryImport, totalLines: nat)
    ensures var p := ImportLines(inserted, lines, parse, importEntry, totalLines).progress;
      |p| == |lines| / 1000 && forall k :: 0 <= k < |p| ==> p[k] == ((k + 1) * 1000, totalLines)
  {
    ImportLinesReports(inserted, lines, parse, importEntry, totalLines);
    ReportsTicks(|lines|, totalLines);
  }

  /** The lines that count as an error whatever the database does: unreadable, or not blank and not an entry. */
  function ParseFailures(lines: seq<LineRead>, parse: string -> Option<RawWordEntryJson>): nat {
    if lines == [] then 0
    else ParseFailures(lines[..|lines| - 1], parse) + (if LineFails(lines[|lines| - 1], parse) then 1 else 0)
  }

  predicate LineFails(line: LineRead, parse: string -> Option<RawWordEntryJson>) {
    line.ReadFailed? || (!IsBlank(line.text) && ParseEntry(parse, line.text).None?)
  }

  /** The lines that hold an entry, each of which is an error exactly when its import fails. */
  function EntryLines(lines: seq<LineRead>, parse: string -> Option<RawWordEntryJson>): nat {
    if lines == [] then 0
    else EntryLines(lines[..|lines| - 1], parse) + (if LineHoldsEntry(lines[|lines| - 1], parse) then 1 else 0)
  }

  predicate LineHoldsEntry(line: LineRead, parse: string -> Option<RawWordEntryJson>) {
    line.LineText? && !IsBlank(line.text) && ParseEntry(parse, line.text).Some?
  }

  /**
   * Each unreadable or unparsable line is one error; each entry line is at most one more; a
   * blank line never is; and when no entry fails to import, the errors are exactly the
   * unreadable and unparsable lines.
   */
  lemma {:induction false} ImportLinesErrors(inserted: seq<Insert>, lines: seq<LineRead>,
                                             parse: string -> Option<RawWordEntryJson>, importEntry: EntryImport, totalLines: nat)
    ensures var errors := ImportLines(inserted, lines, parse, importEntry, totalLines).errors;
      ParseFailures(lines, parse) <= errors <= ParseFailures(lines, parse) + EntryLines(lines, parse)
      && ((forall ins, entry :: !importEntry(ins, entry).0) ==> errors == ParseFailures(lines, parse))
    decreases |lines|
  {
    if lines != [] {
      ImportLinesErrors(inserted, lines[..|lines| - 1], parse, importEntry, totalLines);
    }
  }

  /** A database that refuses nothing imports every entry whole. */
  lemma EntryOutcomeAccepting(rejects: Insert -> bool, inserted: seq<Insert>, entry: RawWordEntry)
    requires forall x :: !rejects(x)
    ensures EntryOutcome(rejects)(inserted, entry) == (false, EntryInserts(entry, NextWordId(inserted)))
  {
    var rows := EntryInserts(entry, NextWordId(inserted));
    AllWritten([], rows, rejects);
    assert rows[..|rows|] == rows;
    assert EntryWrites(inserted, entry, rejects) == rows;
    assert EntryImported(inserted, entry, rejects);
  }

  /** A blank line changes nothing but the line count and the progress. */
  lemma ImportLineBlank(st: ImportState, text: string, parse: string -> Option<RawWordEntryJson>,
                        importEntry: EntryImport, totalLines: nat)
    requires IsBlank(text)
    ensures ImportLine(st, LineText(text), parse, importEntry, totalLines)
            == ImportState(st.currentLine + 1, st.errors, NextReports(st.progress, st.currentLine + 1, totalLines), st.inserted)
  {
  }

  /** An unreadable or unparsable line is one more error and writes nothing. */
  lemma ImportLineFailed(st: ImportState, line: LineRead, parse: string -> Option<RawWordEntryJson>,
                         importEntry: EntryImport, totalLines: nat)
    requires LineFails(line, parse)
    ensures ImportLine(st, line, parse, importEntry, totalLines)
            == ImportState(st.currentLine + 1, st.errors + 1, NextReports(st.progress, st.currentLine + 1, totalLines), st.inserted)
  {
  }
}
