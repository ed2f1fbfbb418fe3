# Dictionary core, modelled in Dafny

This project models the core of a Rust offline-dictionary application:

- The search (`core/src/search.rs`) looks up a query in three tiers: exact matches, then prefix matches, then full-text matches. It merges the tiers without repeating an id and cuts each definition down to a short preview.
- The importer (`core/src/import.rs`) reads a Wiktionary JSONL dump line by line. Each entry becomes a word row plus its definition, pronunciation, etymology and translation rows.
- The records and their deserialisation defaults come from `core/src/models.rs`.
- The preprocessor command line tool (`tools/preprocessor/src/main.rs`) contributes its argument checks, its CDN host and key handling, and its thousands-separator number format.

Modules:

- `Wrappers`: `Option` and `Result`.
- `Text`: the standard-library string functions the code relies on (`char::is_whitespace`, `trim`, `split_whitespace`, `join`).
- `Models`, `Search`, `Import` and `Preprocessor`: one module per source file.

How the code's stateful parts are modelled:

- The database is the class `Import.Connection`. Its one field `inserted` is the sequence of rows the tables hold, in the order they were written. An existing database file starts with the rows of earlier imports. A fixed predicate `rejects` says which rows the database refuses.
  - `Execute` appends a row, or fails and leaves the sequence as it is.
  - `LastInsertRowid` is the id SQLite gives the last row: its position among the rows of its table, counting from 1.
- The search's database is a `Store`: three lookup functions that return rows or an error.
- The JSON parser is a function parameter, and so are the lines of the input file.
- UTF-8 byte lengths are computed from the characters (`Search.ByteLen`). Slicing a string inside a character panics in Rust; the model makes that outcome an explicit `None`.

One behaviour of `import_entry` that the model makes visible: when a row of an entry is refused, the rows of that entry already written stay in the transaction. Nothing is rolled back. `Import.ImportEntry` states which prefix remains: the entry's rows up to the first refused one (`Import.WroteUntilRejected`, `Import.EntryWrites`). `Import.EntryWritesPrefix` adds three facts: what remains is a prefix of the entry's rows; it is all of them exactly when the import succeeds; it is empty when the word row is refused.

## Model

| member | source | states |
|---|---|---|
| Text.TrimInfix | core/src/search.rs:17 | `trim` keeps an infix that starts after the leading whitespace and is followed only by whitespace |
| Text.TrimEnds | core/src/search.rs:17 | what `trim` keeps neither starts nor ends with whitespace |
| Text.TrimEmptyIffBlank | core/src/search.rs:17-20 | the trimmed query is empty exactly when the query is all whitespace |
| Text.TrimIsEmpty | core/src/import.rs:72 | `line.trim().is_empty()` holds exactly for a blank line |
| Text.Trim | core/src/search.rs:17 | definition of `str::trim` (no contract of its own); its properties are `Text.TrimInfix`, `Text.TrimEnds` and `Text.TrimEmptyIffBlank` |
| Text.Words | core/src/search.rs:162 | definition of `split_whitespace`: the maximal runs of non-whitespace characters, in order; properties in `Text.WordsAreWords`, `Text.WordsEmptyIffBlank` and `Text.WordsOfJoin` |
| Text.Join | core/src/search.rs:168-172 | definition of `join(sep)`: the pieces with `sep` between neighbours; `Text.WordsOfJoin` is its round trip with `Text.Words` |
| Text.WordsAreWords | core/src/search.rs:162 | every token of `split_whitespace` is non-empty and free of whitespace |
| Text.WordsEmptyIffBlank | core/src/search.rs:162-165 | there are no tokens exactly when the text is blank |
| Text.WordsOfJoin | core/src/search.rs:168-172 | splitting a single-space join of tokens gives the tokens back |
| Models.NewSearchResult | core/src/models.rs:203-211 | `SearchResult::new` keeps the four given fields and scores 0 |
| Models.SearchResultWithScore | core/src/models.rs:214-222 | `with_score` keeps all five given fields |
| Models.NewFullDefinition | core/src/models.rs:227-238 | `FullDefinition::new` keeps the header fields and attaches no definition, pronunciation, translation or etymology |
| Models.DecodeRawExample | core/src/models.rs:161-165 | an absent example text is the empty string |
| Models.DecodeRawSense | core/src/models.rs:144-157 | each absent list field of a sense is empty; present fields are kept |
| Models.DecodeRawSound | core/src/models.rs:169-185 | the optional fields of a sound stay as given; absent tags are empty |
| Models.DecodeRawTranslation | core/src/models.rs:189-199 | each absent string field of a translation is empty |
| Models.DecodeRawWordEntry | core/src/models.rs:110-140 | an entry without `word` or `pos` is rejected, and only such an entry; an absent `lang` is "English", an absent `lang_code` is empty, the etymology fields stay as given, the three lists default to empty |
| Models.DecodeMinimalEntry | core/src/models.rs:258-268 | the unit test's entry with only word, pos and one gloss decodes with language English and empty sounds and translations |
| Search.EscapeFts | core/src/search.rs:154-158 | the four `replace` calls in the source's order (no contract of its own); `Search.EscapeFtsIsPerChar` proves it equal to the per-character reference `EscapeEachChar` |
| Search.PrepareFtsQuery | core/src/search.rs:152-173 | escaping, splitting at whitespace, `""` when there is no token, else each token with `*` joined by single spaces; its properties are the `Search.PrepareFtsQuery*` lemmas |
| Search.EscapeFtsIsPerChar | core/src/search.rs:154-158 | the chain of four `replace` calls escapes each character on its own: `"` is doubled, `*`, `^` and `:` become spaces |
| Search.EscapeFtsAppend | core/src/search.rs:154-158 | escaping distributes over concatenation |
| Search.EscapeEachCharNoReserved | core/src/search.rs:154-158 | escaped text holds no `*`, `^` or `:` |
| Search.EscapePlainText | core/src/search.rs:154-158 | text without quote or reserved character is left unchanged |
| Search.EscapeReservedBetween | core/src/search.rs:154-158 | a reserved character between two plain texts becomes a space |
| Search.PrepareFtsQueryEmpty | core/src/search.rs:162-165 | the prepared query is empty exactly when the escaped text has no token |
| Search.PrepareFtsQueryTokens | core/src/search.rs:162-172 | splitting the prepared query gives the escaped text's tokens, each with `*` appended, in order |
| Search.PrepareFtsQueryReserved | core/src/search.rs:152-173 | the prepared query holds no `^` or `:`, and every `*` ends a token directly after a token character |
| Search.PrepareFtsQueryOfTokens | core/src/search.rs:152-173 | plain tokens joined by spaces become the same tokens as prefix terms |
| Search.PrepareFtsQueryHello | core/src/search.rs:192 | the unit test: "hello" becomes "hello*" |
| Search.PrepareFtsQueryHelloWorld | core/src/search.rs:193 | the unit test: "hello world" becomes "hello* world*" |
| Search.PrepareFtsQueryEmptyString | core/src/search.rs:194 | the unit test: "" stays "" |
| Search.PrepareFtsQueryTestStarQuery | core/src/search.rs:209 | the unit test: "test*query" becomes "test* query*" |
| Search.PrepareFtsQueryHelloColonWorld | core/src/search.rs:210 | the unit test: "hello:world" becomes "hello* world*" |
| Search.PrepareFtsQueryTwoWords | core/src/search.rs:191-196 | two plain words separated by a space, as in "hello world", become two prefix terms |
| Search.PrepareFtsQueryReservedSeparates | core/src/search.rs:206-211 | a `*`, `^` or `:` between two plain words separates them like a space, as in "test*query" and "hello:world" |
| Search.Utf8Width | core/src/search.rs:136 | a character takes 1 to 4 UTF-8 bytes, exactly 1 when it is ASCII |
| Search.ByteLenAppend | core/src/search.rs:136 | byte length distributes over concatenation |
| Search.ByteLenAtLeastLength | core/src/search.rs:136 | a string takes at least as many bytes as it has characters |
| Search.ByteLenPrefixGrows | core/src/search.rs:140 | a longer prefix takes strictly more bytes, so a byte position ends at most one prefix |
| Search.CharsInBytes | core/src/search.rs:140 | the number of characters of the prefix that ends at byte `b`; None exactly when `b` is not a char boundary of the string (`is_char_boundary`): either past its end or inside a character |
| Search.LastIndexOf | core/src/search.rs:141 | the last character index holding the character, or None exactly when it does not occur. Rust's `rfind` returns a byte offset instead; in `truncate_preview` the two name the same cut, because the cut text is sliced at a char boundary and `' '` is ASCII |
| Search.TruncatePreview | core/src/search.rs:135-147 | the branches of `truncate_preview` with `None` for the panicking slice (no contract of its own); its contract is `Search.TruncatePreviewSpec` |
| Search.TruncatePreviewSpec | core/src/search.rs:135-147 | text that fits is kept whole; truncation panics exactly when the text is too long and no prefix ends at byte `max_len`; otherwise the preview is a prefix of the text plus `...`, at most 3 bytes over `max_len` |
| Search.TruncatePreviewBacksOff | core/src/search.rs:139-145 | the cut text is kept up to its last space, or whole when it has no space, and `...` is appended |
| Search.TruncatePreviewShort | core/src/search.rs:198-200 | the unit test: "short" at 100 bytes is kept |
| Search.TruncatePreviewAtSpace | core/src/search.rs:135-147 | ASCII text whose byte `max_len` is a space followed by more text loses that space and the rest, and gets `...` |
| Search.TruncatePreviewLong | core/src/search.rs:201-204 | the unit test: the 49-character sentence cut at 20 bytes becomes "this is a very long..." |
| Search.RowToSearchResult | core/src/search.rs:122-132 | the row's fields through `TruncatePreview` at 100 bytes into `NewSearchResult`; its contract is `Search.RowToSearchResultSpec` |
| Search.ConvertRows | core/src/search.rs:76-78 | `collect` of the converted rows into a `Result`: the first row that panics fails the lookup; its contract is `Search.ConvertRowsSpec` |
| Search.RowToSearchResultSpec | core/src/search.rs:122-132 | a converted row keeps its id, word and part of speech and is scored 0; its preview is the definition when that fits in 100 bytes, else at most 103 bytes; the conversion fails exactly when the truncation panics |
| Search.ConvertRowsSpec | core/src/search.rs:29-54 | collecting a lookup gives one converted result per row, in order, or fails with a row whose preview panics |
| Search.AppendNew | core/src/search.rs:37-41 | the push loop of one later tier, read as a function; `Search.AppendNewIsDedup` and `Search.AppendNewKeepsHeld` state what it computes |
| Search.Dedup | core/src/search.rs:37-41 | the independent reference merge: the first result of each id, in order; its properties are the `Search.Dedup*` lemmas |
| Search.Flatten | core/src/search.rs:29-54 | the tiers' results one after another, the input of the reference merge in `Search.MergedIsDedup` |
| Search.Merged | core/src/search.rs:29-54 | the first tier whole and each later tier through `AppendNew`; `Search.MergedIsDedup` proves it equal to `Dedup(Flatten(tiers))` |
| Search.DedupHasId | core/src/search.rs:37-41 | the reference merge (first result of each id) loses no id and invents none |
| Search.DedupDistinct | core/src/search.rs:37-41 | the reference merge holds each id at most once |
| Search.DedupOfDistinct | core/src/search.rs:37-41 | results with distinct ids are merged to themselves |
| Search.DedupAfterDedup | core/src/search.rs:37-41 | merging the merged results with more results is merging all of them |
| Search.AppendNewIsDedup | core/src/search.rs:37-41 | the push loop on distinct held results is the reference merge of held and new |
| Search.AppendNewKeepsHeld | core/src/search.rs:37-41 | pushing keeps the held results as a prefix and adds at most one result per row |
| Search.MergedIsDedup | core/src/search.rs:29-54 | when the exact tier has distinct ids, the results are the reference merge of all tiers |
| Search.U32Cast | core/src/search.rs:31 | `len as u32` is the length itself below 2^32 |
| Search.FirstTier | core/src/search.rs:29 | the exact lookup for `limit` rows, all kept; properties in `Search.TieredRequestOrder` and `Search.TieredRequestCounts` |
| Search.NextTier | core/src/search.rs:31-54 | a later tier, asked only while fewer than `limit` results are held (counted with `as u32`) and for the remainder; its shape is `Search.NextTierShape` |
| Search.TieredLookup | core/src/search.rs:29-54 | the exact, prefix and full-text tiers in that order; properties in the `Search.Tiered*` lemmas |
| Search.SearchRun | core/src/search.rs:16-63 | the specification of `search_words`: nothing for a blank query, else the tiers on the trimmed query and its prepared full-text query; `Search.SearchWords` meets it |
| Search.NextTierShape | core/src/search.rs:31-54 | a later tier is skipped after an error or once `limit` results are held, and otherwise asks for the remainder |
| Search.SearchBlankQuery | core/src/search.rs:17-20 | a blank query returns no results and makes no lookup, and only a blank query makes none |
| Search.TieredRequestOrder | core/src/search.rs:23-54 | one to three lookups, at most one per tier, in tier order; exact and prefix get the trimmed query, full-text gets the prepared query |
| Search.TieredRequestCounts | core/src/search.rs:29-54 | the exact lookup asks for `limit` rows; a later one is made only while fewer than `limit` are held, and asks for the difference |
| Search.TieredStopsAtLimit | core/src/search.rs:44 | a successful search that skipped the full-text tier held `limit` results |
| Search.TieredAnswers | core/src/search.rs:29-54 | a successful search holds the merge of its lookups' answers; a failed one failed at its last lookup, with that lookup's error |
| Search.TieredBounded | core/src/search.rs:29-54 | when every lookup honours its row count, a search returns at most `limit` results |
| Search.TieredOrder | core/src/search.rs:29-54 | exact matches come first, all of them and in order; with distinct exact ids, the results are exactly the first result of each id across the tiers |
| Search.TieredConverted | core/src/search.rs:29-54 | every result was built from a row: scored 0, with a preview of at most 103 bytes |
| Search.SkipAfterError | core/src/search.rs:34 | after a failed lookup no further lookup is made |
| Search.ContainsId | core/src/search.rs:38 | `iter().any(|r| r.id == id)`: true exactly when a held result has the id |
| Search.PushNew | core/src/search.rs:37-41 | the push loop appends the rows whose ids are new, as `AppendNew` defines |
| Search.LaterTier | core/src/search.rs:31-54 | one later tier does what the tier specification says: the same outcome and the same lookups |
| Search.SearchWords | core/src/search.rs:16-63 | `search_words` gives the specified outcome and makes the specified lookups |
| Search.LevenshteinDistance | core/src/search.rs:179-185 | the placeholder is 0 exactly for equal strings and at most 1 |
| Import.First | core/src/import.rs:144-146 | `first()` is None exactly for an empty list, else the head |
| Import.AudioUrl | core/src/import.rs:192-199 | the OGG URL if present, else the MP3 URL, else the generic audio; None exactly when all three are absent |
| Import.AudioUrlExamples | core/src/import.rs:216-237 | the two unit tests: OGG is preferred; MP3 is the fallback |
| Import.DefinitionText | core/src/import.rs:143-148 | the first gloss, else the first raw gloss, else the empty string |
| Import.ExampleTexts | core/src/import.rs:155 | one text per example, in order |
| Import.TargetLanguage | core/src/import.rs:179-183 | the translation's code if non-empty, else its language name |
| Import.SenseRows | core/src/import.rs:141-158 | the row of one sense, none when its definition text is empty; used by `Import.DefinitionRows` |
| Import.SoundRows | core/src/import.rs:161-167 | the row of one sound, none when it has no IPA; used by `Import.PronunciationRows` |
| Import.TranslationRows | core/src/import.rs:177-186 | the row of one translation, none when its word is empty; used by `Import.TranslationRowsOf` |
| Import.EtymologyRows | core/src/import.rs:170-174 | one etymology row for a present non-empty text, else none; written by `Import.InsertEtymology` |
| Import.DefinitionRows | core/src/import.rs:141-158 | the sense loop's rows in order; its contract is `Import.DefinitionRowsSpec` |
| Import.PronunciationRows | core/src/import.rs:161-167 | the sound loop's rows in order; its contract is `Import.PronunciationRowsSpec` |
| Import.TranslationRowsOf | core/src/import.rs:177-186 | the translation loop's rows in order; its contract is `Import.TranslationRowsSpec` |
| Import.WordRowOf | core/src/import.rs:137-138 | the word row: word, part of speech, language and etymology number, 0 when absent; see `Import.EntryInsertsShape` |
| Import.EntryInserts | core/src/import.rs:135-189 | every row of an entry in the source's order: word, definitions, pronunciations, etymology, translations; its contract is `Import.EntryInsertsShape` |
| Import.ChildRows | core/src/import.rs:141-186 | the rows after the word row, in the four stages' order; written by `Import.InsertChildren` |
| Import.DefinitionRowsSpec | core/src/import.rs:141-158 | every definition row comes from a sense, and every sense with a non-empty definition text has its row |
| Import.PronunciationRowsSpec | core/src/import.rs:161-167 | every pronunciation row comes from a sound with an IPA, and every such sound has its row, with its audio URL and first tag |
| Import.TranslationRowsSpec | core/src/import.rs:177-186 | every translation row comes from a translation with a non-empty word, and every such translation has its row |
| Import.EntryInsertsShape | core/src/import.rs:135-189 | an entry's rows start with its word row, whose etymology number is 0 when absent, and every later row refers to the word's id |
| Import.RowsLikeWord | core/src/db.rs:252-263 | the rowid count of a word row is the number of word rows before it |
| Import.NextWordId | core/src/db.rs:262 | the id the next word row gets: one past the number of word rows held; `Import.LastRowidOfWord` ties it to `LastInsertRowid` |
| Import.LastRowidOfWord | core/src/import.rs:138 | after a word row is appended, `last_insert_rowid` is the `NextWordId` of the rows before it |
| Import.Connection.constructor | core/src/import.rs:37 | opening the database: it holds the rows already in its tables, none for a new file, and refuses the rows `rejects` names |
| Import.Connection.Execute | core/src/db.rs:258-261 | a refused row fails and leaves the rows unchanged; an accepted one is appended |
| Import.Connection.LastInsertRowid | core/src/db.rs:262 | definition (no contract of its own): the id of the last row is its position among the rows of its table, counting from 1, and 0 before any row; `Import.LastRowidOfWord` applies it to a word row |
| Import.FirstRejected | core/src/import.rs:135-189 | the position of the first refused row: all earlier rows are accepted |
| Import.Sequenced | core/src/import.rs:135-189 | a stage that writes all its rows followed by another stage is the two stages' rows in order |
| Import.FailedStage | core/src/import.rs:135-189 | a stage that failed ends the entry: the later stages write nothing |
| Import.InsertDefinitions | core/src/import.rs:141-158 | the sense loop writes its definition rows in order until one is refused, and succeeds exactly when none is |
| Import.InsertPronunciations | core/src/import.rs:161-167 | the sound loop writes its pronunciation rows in order until one is refused, and succeeds exactly when none is |
| Import.InsertEtymology | core/src/import.rs:170-174 | a non-empty etymology text writes one row; an empty or absent one writes none |
| Import.InsertTranslations | core/src/import.rs:177-186 | the translation loop writes its rows in order until one is refused, and succeeds exactly when none is |
| Import.InsertChildren | core/src/import.rs:141-186 | the four stages in order write the entry's child rows until one is refused |
| Import.ImportEntry | core/src/import.rs:135-189 | `import_entry` writes the entry's rows, all referring to the new word's id, until one is refused, and succeeds exactly when none is |
| Import.EntryWrites | core/src/import.rs:135-189 | the rows an entry leaves behind: its rows up to the first refused one; `Import.EntryOutcomeOf` ties it to `Import.ImportEntry` |
| Import.EntryOutcomeOf | core/src/import.rs:86-88 | what `Import.ImportEntry` wrote and returned is the entry's outcome: failed exactly when not all rows got in, and the rows written are `EntryWrites` |
| Import.EntryWritesPrefix | core/src/import.rs:135-189 | what an entry leaves behind is a prefix of its rows; it is all of them exactly when the import succeeds, and nothing when the word row is refused |
| Import.EntryOutcomeAccepting | core/src/import.rs:135-189 | a database that refuses nothing takes all of an entry's rows and reports success |
| Import.ParseEntry | core/src/import.rs:77-83 | `serde_json::from_str`: the given JSON parse, then the entry decoder with its defaults and required fields |
| Import.EntryOutcome | core/src/import.rs:86-88 | `import_entry` as a function of the rows held: whether it fails and the rows it writes; `Import.ImportParsedEntry` meets it |
| Import.ImportLine | core/src/import.rs:55-94 | one turn of the loop: count the line, report progress at every 1000th, add the line's error and rows; its cases are `Import.ImportLineBlank`, `Import.ImportLineFailed` and `Import.ImportLineEntry` |
| Import.ImportLines | core/src/import.rs:55-94 | the loop over all lines; `Import.ImportFromJsonl` meets it, and its properties are `Import.ImportLinesCount`, `Import.ImportLinesProgress` and `Import.ImportLinesErrors` |
| Import.ImportLineBlank | core/src/import.rs:72-74 | a blank line counts, writes nothing and is not an error |
| Import.ImportLineFailed | core/src/import.rs:63-69 | an unreadable or unparsable line counts as one error and writes nothing |
| Import.ImportLineEntry | core/src/import.rs:77-88 | a parsed entry is imported, and a failed import counts one error |
| Import.ImportNextLine | core/src/import.rs:55-94 | one turn of the line loop does what the line specification says to the counter, errors, progress reports and rows |
| Import.ImportParsedEntry | core/src/import.rs:86-88 | importing one parsed entry reports failure and appends rows exactly as the entry's outcome says |
| Import.ImportFromJsonl | core/src/import.rs:52-100 | the loop over all lines gives the specified counter, errors and rows, and a final progress report of the line count |
| Import.ImportLinesCount | core/src/import.rs:56 | the counter ends at the number of lines read |
| Import.ImportLinesProgress | core/src/import.rs:59-61 | one progress report per 1000 lines, the k-th at line 1000(k+1), each with the total |
| Import.ImportLinesErrors | core/src/import.rs:63-88 | errors are at least the unreadable or unparsable lines and at most those plus the entry lines; they equal the former when no entry import fails |
| Preprocessor.DecimalDigits | tools/preprocessor/src/main.rs:342 | `u64::to_string` (no contract of its own); `Preprocessor.DecimalDigitsValue` proves the digits denote `n` with no leading zero |
| Preprocessor.Grouped | tools/preprocessor/src/main.rs:341-351 | the independent reference grouping, a comma before each block of three from the right; `Preprocessor.FormatNumber` meets it, and its properties are the `Preprocessor.Grouped*` lemmas |
| Preprocessor.DecimalDigitsValue | tools/preprocessor/src/main.rs:342 | `to_string` gives decimal digits that denote `n`, without a leading zero |
| Preprocessor.DecimalDigitsShort | tools/preprocessor/src/main.rs:342 | a number has at most three digits exactly when it is below 1000 |
| Preprocessor.GroupedRemoveCommas | tools/preprocessor/src/main.rs:341-351 | deleting the commas of the grouping gives the digits back |
| Preprocessor.GroupedIsThousandsGrouped | tools/preprocessor/src/main.rs:341-351 | the grouping is 1 to 3 digits followed by comma-led groups of exactly 3 |
| Preprocessor.GroupedLength | tools/preprocessor/src/main.rs:341-351 | one comma per full group of 3 after the first digit; 3 digits or fewer are left unchanged |
| Preprocessor.Reverse | tools/preprocessor/src/main.rs:344-350 | `rev()` of a string: the same length, position i holds character n-1-i |
| Preprocessor.FormatNumber | tools/preprocessor/src/main.rs:341-351 | the reversed loop with a comma before every third digit gives the reference grouping of the digits |
| Preprocessor.FormatNumberDigits | tools/preprocessor/src/main.rs:341-351 | the output's digits are those of `n`, it is well grouped, and its length is as stated |
| Preprocessor.FormatNumberSmall | tools/preprocessor/src/main.rs:341-351 | the output has a comma exactly when `n` is at least 1000 |
| Preprocessor.FormatNumberExample | tools/preprocessor/src/main.rs:341-351 | the grouping of the digits of 1234567, which `FormatNumber(1234567)` returns, is "1,234,567" |
| Preprocessor.CdnKey | tools/preprocessor/src/main.rs:233 | the upload key is the language followed by `-dict.db.zst` |
| Preprocessor.CdnKeyInjective | tools/preprocessor/src/main.rs:233 | different languages get different keys |
| Preprocessor.ValidateArgs | tools/preprocessor/src/main.rs:87-107 | the run is accepted exactly when the input exists, an upload has a language, and an existing output has `--force`; an accepted run removes an existing output and uploads under the language's key |
| Preprocessor.ValidateInputFirst | tools/preprocessor/src/main.rs:87-89 | a missing input is the error reported, whatever else is wrong |
| Preprocessor.ValidateLanguageSecond | tools/preprocessor/src/main.rs:92-94 | a missing language is reported exactly when the input exists and an upload was asked for without one |
| Preprocessor.ValidateOutputThird | tools/preprocessor/src/main.rs:97-102 | an existing output is reported exactly when the first two checks pass and `--force` is absent |
| Preprocessor.Split | tools/preprocessor/src/main.rs:284 | `split('.')` gives at least one piece, none holding a dot |
| Preprocessor.SplitJoin | tools/preprocessor/src/main.rs:284 | joining the pieces with dots gives the host back |
| Preprocessor.SplitCount | tools/preprocessor/src/main.rs:284-285 | there is one more piece than there are dots |
| Preprocessor.ParseCdnHost | tools/preprocessor/src/main.rs:284-293 | fewer than three labels is an error; otherwise the first label is the bucket, the second the region, and the endpoint is that region's Spaces host |
| Preprocessor.ParseCdnHostShape | tools/preprocessor/src/main.rs:284-293 | a host is accepted exactly when it has at least two dots, and then it starts with bucket, dot, region, dot |
| Preprocessor.ParseCdnHostOfLabels | tools/preprocessor/src/main.rs:280-293 | `bucket.region.rest` with dot-free labels gives that bucket and region |

## Left out

- SQL itself is left out. The schema, the queries' `WHERE`, `ORDER BY` and full-text ranking, and the `LIMIT` clause are the `Store` lookup functions. That a lookup honours its `LIMIT` is the premise `HonoursLimit`.
- How SQLite assigns rowids is left out. The model gives the n-th row ever written to a table the id n, which is what SQLite does when no row was ever deleted. `import_from_jsonl` opens whatever database file it is given and creates the tables only if they are missing (`CREATE TABLE IF NOT EXISTS`), so `Import.Connection.constructor` takes the rows already there. The preprocessor removes an existing output first (tools/preprocessor/src/main.rs:105-107), so its imports start from no rows.
- Database failures other than a refused insert are not modelled as separate causes. All insert failures are one `Rejected` error.
- A search lookup that fails gives the `StoreFailure` error. A panicking preview gives `PreviewPanic`; in Rust it is a panic that unwinds, not an error value.
- The order of failures inside one lookup is not modelled. A lookup is all-or-nothing (`Search.Fetch`). In Rust the rows are converted as they are stepped, so a preview panic in an early row comes before a step error on a later row; for such a lookup the model reports `StoreFailure`.
- `core/src/lib.rs` (the handle and the public API), `core/src/ffi.rs` and the benchmarks are not part of this model.
- `configure_for_import`, the schema batch, `count_lines` and `ensure_schema_dir` are left out. The total line count is a parameter.
- File I/O is left out. The lines of the input are a parameter; each line was either read or failed to read.
- JSON parsing is a function parameter `parse`. The model covers what the entry decoder does with the parsed fields: the serde defaults and the required `word` and `pos`.
- `serde_json::to_string` of the examples and tags is left out. A definition row holds the lists themselves.
- The transaction statements, the commit every 10000 lines and a failure of a commit are left out, and so is the log line.
- The progress callback is modelled as the list of `(current, total)` reports it receives.
- The `u64` line and error counters are unbounded; they cannot overflow for any input file that can exist.
- Floating point is left out. The search score is a `real`, and the preprocessor's rate and compression figures are left out.
- `search_with_offset` and the fuzzy-matching TODO are left out; there is no such code in the core.
- The preprocessor's progress bars, the `.env` loading, zstd compression and the S3 client are left out. So are `url::Url::parse` and `host_str`: the host is the input of `ParseCdnHost`.
- Unicode is covered only as far as the code needs it: the White_Space characters and UTF-8 widths. Strings are sequences of Unicode scalar values; there is no normalisation.
