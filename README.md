# Vocabulary highlighting reader — a verified model of its core

The application is a reading tool for articles: each project is a list of
paragraphs, and the reader builds up vocabulary entries (a word, optional
comma-separated variants and `...`-joined multi-word patterns, phonetic,
definition, translation, examples). This project models the logic that
decides what gets highlighted and what gets listed, and proves what that
logic guarantees:

- **Tokenizer** — the editor and the reader split a paragraph into spaces,
  punctuation marks and words, and merge a word with the punctuation mark
  right after it. Rendering the segments gives back the text.
- **Highlight** — the editor's `segmentVocabMap`. It sorts the entries
  longest word first and compiles each entry's word and variants into
  patterns of parts of words. Each pattern is matched greedily at every
  segment: the first part sits at the start segment, and each later part
  lies within a 30-segment window after the previous one. Every covered
  segment is claimed by the first entry, in sorted order, that covers it.
  `HighlightProps` proves that the owner of a segment is a covering entry
  with the longest word.
- **Editor** — `matchedVocabIds`, the sidebar filter, adding and removing
  example rows, and the save-time filter that drops blank examples.
- **Reader** — the reader's lookup of a word group (exact word or one of
  the comma-separated variants, ignoring case), and its click handler.
- **Scope** — the vocabulary service:
  - the "smart vocabulary" of a paragraph: its own entries, then the
    newest global entry per lower-cased word, minus local words and
    excluded words;
  - the exclude and include operations on a paragraph's excluded words;
  - the statistics;
  - the CSV export.
- **Sentences / Search** — splitting a paragraph into sentences, escaping
  the search patterns, and the contextual-sentence search (it skips the
  current paragraph and keeps the first sentence of each lower-cased text).
- **TagsInput** — the list editor's change, add and remove handlers.
- **Templates** — the two preset entry templates, the lookup with its
  fallback to the default template, and the template list.

Database reads become parameters. Each list a query returns is a `seq` in
the order the query gives it, and each keyed table is a `map`. The loops of
the source are methods whose loop invariants tie them to a function. The
properties are lemmas about those functions.

Two behaviours of the code shape the model:

- The exclusion check in the smart vocabulary compares lower-cased words
  (src/services/VocabularyService.ts:64-73). Excluding and including a word
  compare it as written (lines 95-112).
- Local entries of a paragraph are listed as they are, duplicates
  included (line 85). Only global entries are reduced to one per word.

## Model

| member | source | states |
|---|---|---|
| Tokenizer.RawSplit | src/components/editor/EditorMode.tsx:23 | every piece of `split(/(\s+\|[.,!?;:()])/).filter(Boolean)` is a non-empty white-space run, a single punctuation mark, or a run of other characters |
| Tokenizer.RawSplitConcat | src/components/editor/EditorMode.tsx:23 | the pieces concatenate back to the text |
| Tokenizer.RawSplitMaximal | src/components/editor/EditorMode.tsx:23 | no two adjacent pieces are both space runs or both word runs (the runs are maximal) |
| Tokenizer.Tokenize | src/components/editor/EditorMode.tsx:20-50 | the tokenizer loop computes `Segments(text)`, and rendering its segments gives back the text |
| Tokenizer.SegmentsRoundTrip | src/components/reader/ReaderEngine.tsx:37-66 | rendering the reader's groups gives back the paragraph; no groups exactly for the empty text |
| Tokenizer.MergeRender | src/components/editor/EditorMode.tsx:26-48 | the merged segments from piece `i` on render to the concatenation of those pieces |
| Tokenizer.MergeFits | src/components/editor/EditorMode.tsx:33-47 | every segment's `index` is the raw piece it was built from; a merged segment's mark is the next piece; a plain word is one the merge rule did not apply to |
| Tokenizer.MergeLinks | src/components/editor/EditorMode.tsx:26-48 | the first segment has index 0, each next index skips the pieces the previous one used (two after a merge), and the last one ends at the last piece |
| Tokenizer.SegmentsShape | src/components/reader/ReaderEngine.tsx:37-66 | every group's key is its raw piece; a word group is never followed by a punctuation piece; indexes strictly increase |
| Vocab.PatternsShape | src/components/editor/EditorMode.tsx:60-62 | the patterns are non-empty and lower-case, the word first; each non-empty trimmed variant is among them and nothing else is |
| Vocab.PatternsFrom | src/components/editor/EditorMode.tsx:60-62 | every pattern is the lower-cased word or a lower-cased trimmed variant |
| Vocab.PatternsKeep | src/components/editor/EditorMode.tsx:60-62 | the lower-cased word leads the patterns, and every non-empty variant is kept |
| Vocab.PartWordsShape | src/components/editor/EditorMode.tsx:66-68 | the `...`-parts join back to the pattern, there is at least one, and each part's words are the non-empty white-space-free pieces of its trimmed text |
| LengthSort.SortByLength | src/components/editor/EditorMode.tsx:57 | the sorted list is a permutation of the vocabulary |
| LengthSort.SortByLengthDescending | src/components/editor/EditorMode.tsx:57 | the sorted list is ordered by descending word length and is a permutation |
| LengthSort.SortByLengthStable | src/components/editor/EditorMode.tsx:57 | entries of equal word length keep their relative order (the sort is stable) |
| Highlight.ScanWords | src/components/editor/EditorMode.tsx:88-102 | the word scan from a start segment computes `ScanPart`: skips spaces and stops at the first differing word |
| HighlightProps.ScanSpells | src/components/editor/EditorMode.tsx:88-102 | the scan matches all words exactly when the non-space segments from the start spell them, ignoring case |
| HighlightProps.HitAtSpec | src/components/editor/EditorMode.tsx:104-111 | a part is found at a segment exactly when the next non-space segments spell it; its range runs from the first to the last of them and the search resumes after the last |
| Highlight.SearchPart | src/components/editor/EditorMode.tsx:81-114 | the search for one part computes `FindPart` over the window (one start for the first part) |
| HighlightProps.FindPartSpec | src/components/editor/EditorMode.tsx:83-114 | the part search gives the first start in the window at which the part is found, and none when no start works |
| Highlight.MatchPattern | src/components/editor/EditorMode.tsx:76-120 | the parts loop succeeds exactly when `MatchAt` does, and then its ranges are the hits' ranges |
| HighlightProps.MatchPartsSpec | src/components/editor/EditorMode.tsx:76-120 | from a good prefix of hits the loop returns exactly the greedy hit lists that extend it |
| HighlightProps.MatchAtSpec | src/components/editor/EditorMode.tsx:76-120 | a match at `i` returns `hits` exactly when `hits` is the greedy choice: the first part at `i`, each later part at the first start in its 30-segment window |
| HighlightProps.GreedyBounds | src/components/editor/EditorMode.tsx:81 | every hit of a greedy match is found where it says, and its range lies between the start segment and the end of the text |
| HighlightProps.CoverAtSpec | src/components/editor/EditorMode.tsx:121-130 | a segment is covered from `i` exactly when it lies in a range of the greedy match at `i` |
| HighlightProps.RangesSetSpec | src/components/editor/EditorMode.tsx:121-123 | the marked set is the union of the closed ranges |
| Highlight.MarkRanges | src/components/editor/EditorMode.tsx:121-130 | marking keeps every existing claim and gives the new segments to the entry |
| HighlightProps.ClaimsStable | src/components/editor/EditorMode.tsx:124-127 | a segment once claimed keeps its owner through every later entry |
| Highlight.SegmentVocabMap | src/components/editor/EditorMode.tsx:52-136 | the method computes `HighlightMap(segs, vocab)` |
| HighlightProps.HighlightMapSpec | src/components/editor/EditorMode.tsx:52-136 | a segment is highlighted exactly when some entry covers it; its owner is a vocabulary entry that covers it, and no covering entry has a longer word |
| HighlightProps.EntryMatchesCovers | src/components/editor/EditorMode.tsx:535-560 | an entry counts as matched exactly when it covers some segment |
| Editor.FindParagraph | src/components/editor/EditorMode.tsx:502-503 | the active paragraph is found exactly when one has its id, and the first such one is returned |
| Editor.MatchedVocabIds | src/components/editor/EditorMode.tsx:501-565 | the method computes `MatchedVocab`: nothing without an active paragraph or vocabulary, else the ids of entries that match the paragraph |
| Editor.FindAnywhere | src/components/editor/EditorMode.tsx:535-556 | the start loop reports a match exactly when the pattern matches at some segment |
| Editor.MatchedIdsSpec | src/components/editor/EditorMode.tsx:501-565 | an id is matched exactly when an entry with that id covers some segment of the paragraph |
| Editor.OwnersMatched | src/components/editor/EditorMode.tsx:557 | every owner of a highlighted segment is a matched id |
| Editor.SidebarSpec | src/components/editor/EditorMode.tsx:815-820 | an entry is listed exactly when it is being edited, is local, or matches the active paragraph |
| Strs.DropAt | src/components/editor/EditorMode.tsx:493 | for an index inside the list the result is the list without that one element; for any other index it is the list itself (also FieldInputs.tsx:52) |
| Editor.RemoveExampleSpec | src/components/editor/EditorMode.tsx:492-498 | removing drops exactly that example, leaves the list alone for an index outside it, and leaves one blank row when nothing is left |
| Editor.AddThenRemove | src/components/editor/EditorMode.tsx:492-498 | removing the row just added gives back the examples, or one blank row when there were none |
| Editor.SaveExamplesSpec | src/components/editor/EditorMode.tsx:341 | the saved examples are exactly those that are not blank, and saving again changes nothing |
| Editor.SaveExamplesOrder | src/components/editor/EditorMode.tsx:341 | saving keeps the non-blank examples in their order and with their repetitions: an example between two stretches survives in its place exactly when it is not blank |
| Reader.MatchesSpec | src/components/reader/ReaderEngine.tsx:117-122 | an entry matches a word exactly when its lower-cased word is the word, or a trimmed lower-cased comma-separated variant is |
| Reader.Find | src/components/reader/ReaderEngine.tsx:117-123 | `find` returns an entry that matches whenever one exists |
| Reader.FindFirst | src/components/reader/ReaderEngine.tsx:117-123 | `find` returns the first entry that matches |
| Reader.Lookup | src/components/reader/ReaderEngine.tsx:113-123 | space and punctuation groups look nothing up; a word group finds a matching entry for its lower-cased word whenever one exists |
| Reader.MergedLooksAtWord | src/components/reader/ReaderEngine.tsx:113 | a word with its punctuation mark is looked up by the word alone |
| Reader.LookupIgnoresCase | src/components/reader/ReaderEngine.tsx:114 | the lookup does not depend on the word's case |
| Reader.Click | src/components/reader/ReaderEngine.tsx:132 | a click reports a word exactly when the group is highlighted, and the word is that of a matching entry |
| Reader.HighlightedGroups | src/components/reader/ReaderEngine.tsx:95-132 | a group of a paragraph is highlighted exactly when it is a word group that some entry matches |
| Scope.GetSmartVocabulary | src/services/VocabularyService.ts:53-86 | the method computes `SmartVocabulary`: no entries for a missing paragraph |
| Scope.Visit | src/services/VocabularyService.ts:66-78 | one step of the global-map loop is `Offer`: a candidate replaces the kept entry only with a larger id |
| Scope.SmartVocabularyShape | src/services/VocabularyService.ts:53-86 | nothing for a missing paragraph; otherwise the paragraph's own entries in order, marked local, then only global entries |
| Scope.GlobalsAllowed | src/services/VocabularyService.ts:64-74 | every global entry is an entry of the vocabulary table (every project), and its lower-cased word is neither a local word nor excluded |
| Scope.GlobalsLatest | src/services/VocabularyService.ts:73-74 | a global entry has the largest id among the entries with its lower-cased word |
| Scope.GlobalsFirstOfLatest | src/services/VocabularyService.ts:66-78 | the kept entry is the first occurrence of that largest id |
| Scope.GlobalsUnique | src/services/VocabularyService.ts:80-85 | no two global entries share a lower-cased word |
| Scope.GlobalsComplete | src/services/VocabularyService.ts:66-85 | every word of the vocabulary table (every project) that is neither local nor excluded has a global entry |
| Scope.CollectFirstOfMax | src/services/VocabularyService.ts:66-78 | after each step the map keeps, per word, the first entry with the largest id so far |
| Scope.ExcludeWord | src/services/VocabularyService.ts:91-101 | the new excluded list is the old one when the word is literally present, and otherwise the old one with the word appended; other paragraphs and fields are unchanged |
| Scope.ExcludeIdempotent | src/services/VocabularyService.ts:95-97 | excluding a word twice is the same as once |
| Scope.IncludeWord | src/services/VocabularyService.ts:106-114 | every copy of the word leaves that paragraph's excluded words, and nothing else changes |
| Scope.IncludeKeepsOrder | src/services/VocabularyService.ts:106-114 | including keeps the other excluded words in their order |
| Scope.IncludeUndoesExclude | src/services/VocabularyService.ts:91-114 | including a word that was not excluded undoes its exclusion |
| Scope.ExcludeHides | src/services/VocabularyService.ts:64 | after excluding a word, no global entry with that word (ignoring case) is listed |
| Scope.VocabularyStats | src/services/VocabularyService.ts:141-157 | the counts are the list's and the paragraphs' lengths; the unique count is the number of distinct lower-cased words of the list, so it equals the total exactly when no two words agree ignoring case |
| Scope.LowerWordsSet | src/services/VocabularyService.ts:150 | the set built from `v.word.toLowerCase()` holds exactly the lower-cased word of each entry |
| Scope.ExportToCsv | src/services/VocabularyService.ts:162-185 | the export with every missing field written as an empty cell |
| Scope.ExportLines | src/services/VocabularyService.ts:179-182 | when no cell holds a line break, the export has one line per entry after the header line, each the quoted cells joined by `","` |
| Scope.CsvLineQuotes | src/services/VocabularyService.ts:181 | a row is its cells joined by `","` between one pair of quotes |
| Scope.ExportAgrees | src/services/VocabularyService.ts:162-185 | when every entry has all its fields, the export as written and the corrected export agree |
| Scope.ExportPrintsUndefined | src/services/VocabularyService.ts:171 | as written, an entry without phonetic exports the text `undefined` in that cell |
| Scope.ExportFailsWithoutExamples | src/services/VocabularyService.ts:175 | as written, an entry without examples makes the export fail |
| Sentences.SplitIntoSentences | src/services/SentenceService.ts:14-30 | empty text has no sentences; otherwise the trimmed pieces longer than 5 characters |
| Sentences.RegroupSplit | src/services/SentenceService.ts:19-27 | regrouping the split-with-separators gives the pieces: each sentence with its terminator and the space after it |
| Sentences.PiecesConcat | src/services/SentenceService.ts:19-27 | the pieces concatenate back to the text |
| Sentences.PiecesShape | src/services/SentenceService.ts:19-27 | every piece but the last ends at its first terminator plus white space, and the last has no terminator |
| Sentences.SentencesSpec | src/services/SentenceService.ts:14-30 | a sentence is exactly a trimmed piece longer than 5 characters, and it neither starts nor ends with white space |
| Sentences.TwoSentences | src/services/SentenceService.ts:14-30 | two terminated sentences separated by white space split into exactly those two |
| Sentences.EscapeLiteral | src/services/SentenceService.ts:47-49 | an escaped pattern is a well-formed quoted literal that reads back as the pattern |
| Sentences.AlternativesSpec | src/services/SentenceService.ts:47-51 | every escaped pattern is a quoted literal, and the regular expression's alternatives are exactly the word if non-empty and the non-empty trimmed variants (or the empty alternative when there are none) |
| Search.SearchFromSpec | src/services/SentenceService.ts:51 | the search finds a match exactly when some position has a whole-word match, and it reports the first one |
| Search.MentionsSpec | src/services/SentenceService.ts:51 | a sentence mentions the word exactly when an alternative occurs in it between word boundaries, ignoring case |
| Search.TestSpec | src/services/SentenceService.ts:51-58 | a successful test means a mention; from position 0 the test is exactly a mention |
| Search.TitleMap | src/services/SentenceService.ts:41 | the title map has exactly the projects' ids |
| Search.TitleMapLast | src/services/SentenceService.ts:41 | a project's title is the one of its last occurrence |
| Search.SourceTitle | src/services/SentenceService.ts:62 | the title is never empty; a known non-empty title is used as it is |
| Search.ParagraphHitsSpec | src/services/SentenceService.ts:54-66 | a paragraph's results are exactly its mentioning sentences, none for the excluded paragraph |
| Search.Dedupe | src/services/SentenceService.ts:70-74 | the filter keeps the first result of each lower-cased text |
| Search.FirstByKeyUnique | src/services/SentenceService.ts:70-74 | no two kept results share a lower-cased text |
| Search.FirstByKeyImage | src/services/SentenceService.ts:70-74 | every lower-cased text that occurs is kept |
| Search.FirstByKeyFirst | src/services/SentenceService.ts:70-74 | each kept result is the first with its lower-cased text |
| Search.FirstByKeyIdempotent | src/services/SentenceService.ts:70-74 | deduplicating twice is the same as once |
| Search.FirstByKeyOrder | src/services/SentenceService.ts:70-74 | the kept list is the input read at strictly increasing positions, and those positions are exactly the ones whose key does not occur earlier: order is kept |
| Search.FirstIndexes | src/services/SentenceService.ts:70-74 | one position per kept result, each inside the input |
| Search.FirstIndexesAt | src/services/SentenceService.ts:70-74 | each kept result is the input's item at the matching kept position |
| Search.FirstIndexesIncreasing | src/services/SentenceService.ts:70-74 | the kept positions strictly increase |
| Search.FirstIndexesFirst | src/services/SentenceService.ts:70-74 | a position is kept exactly when its key does not occur earlier in the input |
| Search.SearchContextualSentences | src/services/SentenceService.ts:35-75 | the method computes `SearchResults`, which tests every sentence from its start: the corrected search of the third finding; `Search.SearchAsWritten` is the scan as written, with `lastIndex` carried across sentences |
| Search.SearchResultsSound | src/services/SentenceService.ts:51-67 | every result is a mentioning sentence of a paragraph other than the excluded one, with its ids and title |
| Search.SearchResultsComplete | src/services/SentenceService.ts:51-74 | every mentioning sentence of a searched paragraph is among the results, up to case |
| Search.SearchResultsUnique | src/services/SentenceService.ts:70-74 | no two results share a lower-cased text |
| Search.SearchResultsOrder | src/services/SentenceService.ts:51-74 | the results are the collected hits at strictly increasing positions, those whose lower-cased text was not collected earlier, so the order in which hits were collected is kept |
| Search.SearchSkipsExcluded | src/services/SentenceService.ts:54 | no result comes from the excluded paragraph, and every result has a title |
| Search.AsWrittenSound | src/services/SentenceService.ts:51-67 | as written, every result is still a mentioning sentence |
| Search.AsWrittenMissesSecondSentence | src/services/SentenceService.ts:51-58 | as written, in "The cat sat. A cat ran." only the first sentence is found for "cat"; the corrected search finds both |
| TagsInput.Display | src/components/editor/FieldInputs.tsx:39 | a missing or empty list shows one blank row; otherwise the rows are the values |
| TagsInput.HandleChangeSpec | src/components/editor/FieldInputs.tsx:41-45 | a change gives the non-blank rows before the edited one, the new text unless blank, and the non-blank rows after it |
| TagsInput.HandleChangeReplaces | src/components/editor/FieldInputs.tsx:41-45 | with no blank row, a change replaces that row and nothing else |
| TagsInput.HandleAdd | src/components/editor/FieldInputs.tsx:47-49 | adding appends one blank row to the shown rows |
| TagsInput.HandleRemoveSpec | src/components/editor/FieldInputs.tsx:51-54 | with a remove control shown (line 71), removing takes out exactly that row; a single row leaves one blank row |
| TagsInput.RemoveUndoesAdd | src/components/editor/FieldInputs.tsx:47-54 | removing the row just added gives back the rows shown before |
| Templates.GetTemplate | src/config/templates.ts:211-213 | the registered template for a known id, otherwise the English reading template |
| Templates.GetTemplateSpec | src/config/templates.ts:207-213 | a known id gives the template with that id; any other id gives the default template |
| Templates.GetTemplateList | src/config/templates.ts:216-218 | the list holds the registered templates in registration order |
| Templates.ListRoundTrip | src/config/templates.ts:55-218 | each listed template is what the lookup by its id returns, and every registered template is listed |
| Templates.KeysDistinct | src/config/templates.ts:55-205 | the registry's keys are `english-reading` and `knowledge-notes`, without repetition |
| Templates.DefaultRegistered | src/config/templates.ts:208 | the default id is registered and names the English reading template |
| Templates.TemplatesWellFormed | src/config/templates.ts:55-205 | every template starts with the required `word` field and lays out only fields it declares |

## Left out

- Strs.Lower: `toLowerCase` is modelled on ASCII letters only. Other letters keep their case, so words outside ASCII compare as written.
- Text is a sequence of characters, one per UTF-16 code unit. Lengths such as `s.length > 5` and `word.length` count characters, which is what they count for text inside the Basic Multilingual Plane.
- White space (`\s`, `trim`) is the JavaScript set of white-space and line-terminator characters, written out in `Strs.IsSpace`.
- Database access (Dexie tables, `getVocabularyByProject`, the paragraph and project queries) is not modelled. Their results are parameters, in the order the queries return them.
- Asynchrony, autosave and every render path (JSX, hover and fisheye effects, the display configuration of fields) are not modelled.
- `handleUpdateExample` in the editor is not modelled. It only replaces one element of the list.
- Search.Test: the regular-expression engine is modelled only for what the search builds: case-insensitive literal alternatives between `\b` word boundaries, with the `g` flag's `lastIndex`. Word characters are the ASCII letters, digits and `_`.
- A paragraph's missing `excludedWords` is modelled as the empty list, which is what `\|\| []` turns it into.
- Templates.GetTemplate: an id that names a property inherited by every JavaScript object (such as `constructor`) is treated as unknown. The source would return that inherited property.
- TagsInput.HandleChange: the index is one of the shown rows, which is the only way the input calls the handler.
- Scope.VocabularyStats: the paragraphs of the project are a list parameter; only their count is used.
- The CSV export does not double quotes inside cells. The source does not do it either (RFC 4180, section 2, asks for it), so no round trip through a CSV parser is claimed.
- `Templates.Field` drops the `displayConfig` of a field, which only affects rendering.

## Findings

| source | as written | input that shows it | evidently intended | confidence | as-written member | corrected member |
|---|---|---|---|---|---|---|
| src/services/VocabularyService.ts:171-174 | `v.phonetic`, `v.definition` and `v.translation` are interpolated into `"${cell}"` without a fallback | an entry without phonetic | an empty cell, as line 172 does for the part of speech | not executed | Scope.ExportPrintsUndefined | Scope.ExportToCsv |
| src/services/VocabularyService.ts:175 | `v.examples.join('; ')` is called on an optional field | an entry saved without examples | an empty cell | not executed | Scope.ExportFailsWithoutExamples | Scope.ExportAgrees |
| src/services/SentenceService.ts:51-58 | one regular expression with the `g` flag is reused by `test` across sentences, so its `lastIndex` carries over from a successful test | paragraph "The cat sat. A cat ran.", word "cat": the second test starts at position 7 of "A cat ran." and fails | every sentence is tested from its start | not executed | Search.AsWrittenMissesSecondSentence | Search.SearchResultsComplete |
