# DS346 preprocessing and deduplication, modelled in Dafny

This project models the two text pipelines of the DS346 question-and-answer
data project.

- **Preprocessor** (`Preprocessor/data_preprocessor.py`) turns a scraped JSON
  file into something `json.loads` accepts, then normalises and counts what it
  holds. Its operations, in pipeline order:
  - `process_code_blocks` escapes the inside of every `<code>…</code>` with
    `sanitize_code_block`;
  - `fix_json_structure` strips whitespace and byte-order marks, wraps the text
    in `[`…`]`, inserts `},{` between adjacent objects and drops trailing commas;
  - `load_json_safely` parses the text, keeps the entries `validate_json_entry`
    accepts, and reports a decode error with a 400-character context window;
  - `unescape_json`, `clean_text`, `preprocess_text` and `preprocess_code`
    normalise text and code;
  - `transform_to_bag_of_words_data` sums per-string count vectors over a given
    vocabulary.
- **Combiner** (`WebScraper/wrangling.py`) merges scraped files.
  - It cleans each entry's HTML with `clean_html`: notice elements are removed,
    all attributes except the `href` of a link are dropped, and every tag other
    than `p`, `code` and `a` is unwrapped.
  - It hashes the canonical question text and keeps an entry only when its hash
    is new, logging every other entry as a duplicate.
  - It reports statistics.

Modules, one per file:

| module | file | what it holds |
|---|---|---|
| `Results` | `results.dfy` | `Option` and `Result` |
| `Strings` | `strings.dfy` | Python string built-ins the program uses (`startswith`, `replace`, `strip`, `lower`, and the `re.sub(r'\s+', ' ', s).strip()` normaliser), and `Find`, a first-occurrence search that the span scanner uses to locate the closing delimiter |
| `Words` | `words.dfy` | `str.split()` and `' '.join`, and the proof that the whitespace normaliser is `' '.join(s.split())` |
| `Escaping` | `escaping.dfy` | `unescape_json`, `sanitize_code_block`, and the character-by-character reading of the latter |
| `Spans` | `spans.dfy` | the non-greedy `re.sub(open(.*?)close, …)` used for code blocks and block comments; `process_code_blocks` |
| `JsonRepair` | `json_repair.dfy` | `fix_json_structure` |
| `Normalize` | `normalize.dfy` | `clean_text`, `preprocess_text`, `preprocess_code` |
| `JsonValues` | `json_value.dfy` | parsed JSON values |
| `Loading` | `loading.dfy` | `validate_json_entry`, the filter loop and error context of `load_json_safely`, `preprocess_file` |
| `BagOfWords` | `bag_of_words.dfy` | `transform_to_bag_of_words_data` |
| `HtmlTree` | `html_tree.dfy` | `clean_html` on an element tree, and `get_text` |
| `Dedup` | `dedup.dfy` | `process_file`, `hash_entry`, `extract_question_content`, `combine_files` |

Modelling choices:

- **Character classes.** Python's `\s`, `\w` and `lower()` are read on ASCII.
  - `\s` is space, tab, newline, vertical tab, form feed, carriage return and
    the separators U+001C to U+001F, the ASCII characters `str.isspace` accepts.
  - `\w` is letters, digits and `_`.
- **Replacement.** `str.replace` is the leftmost, non-overlapping replacement
  `Strings.Replace`. The escaping functions are written as literal chains of
  it, in the order `unescape_json` and `sanitize_code_block` apply them.
- **Foreign calls become parameters.**
  - `json.loads` is `parse: string -> ParseOutcome`.
  - `html.unescape` is `decode: string -> string`.
  - MD5 is `hash: string -> string`. No injectivity is assumed: every statement
    about duplicates speaks of equal hashes, never of equal texts.
  - The vectoriser is a vocabulary plus a tokenizer.
- **HTML is a tree.** It is `Node = Element(tag, attrs, children) | Text(text)`,
  where a class attribute is a list of class names, as BeautifulSoup stores it.
  `get_text()` is `HtmlTree.TextOf`.
- **The key.** `hash_entry` is `Dedup.KeyBy(hash)`. `process_file` and the
  `combine_files` loop are written for any key function (`Dedup.ProcessFileBy`,
  `Dedup.CombineBatches`), so what is proved about them holds for `hash_entry`
  in particular.
- **The duplicate index.** `duplicate_indices` is an insertion-ordered list of
  groups, `Dedup.GroupByKey`, built from the log of `(hash, index, file)`
  records that `process_file` appends in order.

## Model

| member | source | states |
|---|---|---|
| `Strings.NormalizeSpace` | Preprocessor/data_preprocessor.py:63 | the result of `re.sub(r'\s+', ' ', s).strip()` has only single plain spaces and none at either end |
| `Strings.NormalizeSpaceFixed` | Preprocessor/data_preprocessor.py:63 | text already in that form is left unchanged |
| `Strings.NormalizeSpaceKeepsContent` | Preprocessor/data_preprocessor.py:63 | whitespace normalisation keeps every non-whitespace character in order, and applying it twice is applying it once |
| `Words.NormalizeSpaceSplit` | Preprocessor/data_preprocessor.py:63 | the normalised text has exactly the words (maximal non-whitespace runs) of the input: a whitespace run between two words becomes a separator, never nothing |
| `Words.NormalizeSpaceJoin` | Preprocessor/data_preprocessor.py:63 | `re.sub(r'\s+', ' ', s).strip()` equals `' '.join(s.split())` for every `s` |
| `Words.NormalizedByWords` | Preprocessor/data_preprocessor.py:63 | two normalised texts with the same words are equal, so shape and words together fix the normaliser's result |
| `Strings.CollapseSpaceFixed` | Preprocessor/data_preprocessor.py:105 | collapsing whitespace runs leaves single-spaced text unchanged |
| `Strings.LStripSpaces` | Preprocessor/data_preprocessor.py:224 | everything `lstrip` removes is whitespace |
| `Strings.RStripSpaces` | Preprocessor/data_preprocessor.py:224 | everything `rstrip` removes is whitespace |
| `Strings.FindSpec` | Preprocessor/data_preprocessor.py:216 | the search for the closing delimiter returns the first occurrence, or none when there is none |
| `Strings.ReplaceNoOccurrence` | Preprocessor/data_preprocessor.py:37 | `str.replace` changes nothing when the target never occurs |
| `Strings.ReplaceCharAppend` | Preprocessor/data_preprocessor.py:191-199 | replacing a single character distributes over concatenation |
| `Escaping.UnescapeWithoutBackslash` | Preprocessor/data_preprocessor.py:20-39 | `unescape_json` is the identity on text with no backslash |
| `Escaping.SanitizeCodeBlock` | Preprocessor/data_preprocessor.py:186-204 | the sanitised code has no raw newline, carriage return or tab; every `"` and every `/` in it directly follows a backslash |
| `Escaping.EscapeEach` | Preprocessor/data_preprocessor.py:190-202 | escaping each character on its own gives the same guarantees; a leading slash is left bare only when the text follows a backslash |
| `Escaping.SanitizeIsCharwise` | Preprocessor/data_preprocessor.py:190-202 | the five ordered replacements followed by the slash substitution equal escaping each character on its own |
| `Escaping.EscapeSpecialsAppend` | Preprocessor/data_preprocessor.py:190-199 | the five replacements distribute over concatenation |
| `Escaping.EscapeBareSlashesAppend` | Preprocessor/data_preprocessor.py:202 | the look-behind slash substitution on a concatenation depends on the last character of the first part only |
| `Escaping.UnescapeSanitize` | Preprocessor/data_preprocessor.py:20-39 | round trip: `unescape_json(sanitize_code_block(s)) == s` for text with no backslash, newline, carriage return or tab |
| `Spans.ScanKeepsPrefix` | Preprocessor/data_preprocessor.py:216 | characters at which no match starts are kept one by one |
| `Spans.ScanSpan` | Preprocessor/data_preprocessor.py:216 | a match runs from its opening to the nearest following closing, and the scan resumes after that closing |
| `Spans.ScanKeptChars` | Preprocessor/data_preprocessor.py:216 | every character the scan keeps comes from the input |
| `Spans.RenderAppend` | Preprocessor/data_preprocessor.py:216 | replacing matches distributes over a concatenation of pieces |
| `Spans.RenderKeptAll` | Preprocessor/data_preprocessor.py:216 | kept characters render as themselves |
| `Spans.SubstituteUnchanged` | Preprocessor/data_preprocessor.py:216 | text in which no match starts is returned unchanged |
| `Spans.SubstituteSpan` | Preprocessor/data_preprocessor.py:216 | text before the first match is kept; the match up to the nearest closing is replaced; the rest is substituted in turn |
| `Spans.SubstituteRemoveChars` | Preprocessor/data_preprocessor.py:80 | removing block comments introduces no character that was not in the input |
| `Spans.ProcessCodeBlocks` | Preprocessor/data_preprocessor.py:206-217 | content without a `<code>` that has a later `</code>` comes back unchanged |
| `Spans.ProcessCodeBlocksSpan` | Preprocessor/data_preprocessor.py:206-217 | the first `<code>` pairs with the nearest `</code>`; its inside is replaced by the sanitised inside; the text before it is kept |
| `JsonRepair.WrapInArray` | Preprocessor/data_preprocessor.py:223-230 | whatever the content, the result starts with `[` and ends with `]` |
| `JsonRepair.Wrap` | Preprocessor/data_preprocessor.py:227-230 | applied to the stripped, BOM-less text, the result is that text itself, with `[` added in front unless it starts with one and `]` added at the end unless it ends with one; empty text becomes `[]` |
| `JsonRepair.FixJsonStructureFixed` | Preprocessor/data_preprocessor.py:219-238 | a bracketed text with no `}`-whitespace-`{` and no comma before `}` or `]` comes back unchanged: the repair keeps the text and only adds or drops what its patterns match |
| `JsonRepair.WrapInArrayFixed` | Preprocessor/data_preprocessor.py:223-230 | bracketed text is neither stripped nor wrapped again |
| `JsonRepair.InsertObjectCommasUnchanged` | Preprocessor/data_preprocessor.py:233 | with no `}` followed by optional whitespace and `{`, no comma is inserted |
| `JsonRepair.DropTrailingCommasUnchanged` | Preprocessor/data_preprocessor.py:236 | with no comma followed by optional whitespace and `}` or `]`, nothing is dropped |
| `JsonRepair.InsertObjectCommasAfter` | Preprocessor/data_preprocessor.py:233 | text before the first `}` is copied as it is |
| `JsonRepair.DropTrailingCommasAfter` | Preprocessor/data_preprocessor.py:236 | text before the first comma is copied as it is |
| `JsonRepair.FixJsonStructureTrailingComma` | Preprocessor/data_preprocessor.py:219-238 | `[{"a":1},]` becomes `[{"a":1}]` |
| `JsonRepair.FixJsonStructureAdjacentObjects` | Preprocessor/data_preprocessor.py:219-238 | `{} {}` becomes `[{},{}]`: brackets added and a comma put between the objects |
| `JsonRepair.FixJsonStructureBracketed` | Preprocessor/data_preprocessor.py:219-238 | the repaired text starts with `[` and ends with `]` |
| `JsonRepair.FixJsonStructureBlank` | Preprocessor/data_preprocessor.py:223-230 | blank input becomes `[]` |
| `JsonRepair.FixJsonStructureNoGap` | Preprocessor/data_preprocessor.py:232-233 | no `}` in the result is followed by optional whitespace and then `{` |
| `JsonRepair.FixJsonStructureNoDangling` | Preprocessor/data_preprocessor.py:235-236 | if the wrapped text has no two commas separated only by whitespace, no comma in the result is followed by optional whitespace and then `}` or `]` |
| `JsonRepair.FixJsonStructureNotIdempotent` | Preprocessor/data_preprocessor.py:219-238 | `,,]` becomes `[,]`: one pass loses only one comma |
| `JsonRepair.FixJsonStructureSecondPass` | Preprocessor/data_preprocessor.py:219-238 | a second pass turns `[,]` into `[]`, so the repair is not idempotent |
| `JsonRepair.InsertObjectCommasBracketed` | Preprocessor/data_preprocessor.py:233 | inserting `},{` keeps the brackets at both ends |
| `JsonRepair.InsertObjectCommasNoBrace` | Preprocessor/data_preprocessor.py:233 | text without `}` is unchanged by the comma insertion |
| `JsonRepair.InsertObjectCommasNoDoubleComma` | Preprocessor/data_preprocessor.py:233 | inserting `},{` never creates two commas separated only by whitespace |
| `JsonRepair.DropTrailingCommasBracketed` | Preprocessor/data_preprocessor.py:236 | dropping trailing commas keeps the brackets at both ends |
| `JsonRepair.DropTrailingCommasNoComma` | Preprocessor/data_preprocessor.py:236 | text without a comma is unchanged by the trailing-comma removal |
| `JsonRepair.DropTrailingCommasNoGap` | Preprocessor/data_preprocessor.py:236 | dropping trailing commas never creates a `}` followed by whitespace and `{` |
| `Normalize.CleanText` | Preprocessor/data_preprocessor.py:47-64 | a non-string gives `""`; a string gives normalised text with the words, and so the non-whitespace content, of the unescaped, entity-decoded input, which fixes the text for a given decoder |
| `Normalize.PreprocessText` | Preprocessor/data_preprocessor.py:90-107 | the result uses only `a-z`, `0-9`, `.` and single inner spaces, with none at either end |
| `Normalize.PreprocessTextIdempotent` | Preprocessor/data_preprocessor.py:90-107 | preprocessing preprocessed text changes nothing |
| `Normalize.PreprocessTextKeepsContent` | Preprocessor/data_preprocessor.py:98-107 | the non-whitespace content is that of the masked, lower-cased, unescaped input |
| `Normalize.PreprocessTextWords` | Preprocessor/data_preprocessor.py:98-107 | the result has the words of the masked text, in which every disallowed character has become whitespace |
| `Normalize.PreprocessTextSeparates` | Preprocessor/data_preprocessor.py:103 | disallowed characters become spaces, not deletions: two runs of allowed characters joined by a disallowed one come out separated by one space (`"a,b"` gives `"a b"`) |
| `Normalize.PreprocessCode` | Preprocessor/data_preprocessor.py:66-88 | the result has no `#`, no whitespace but the plain space, none at either end, and a space on each side of every symbol not at an end |
| `Normalize.PreprocessCodeWords` | Preprocessor/data_preprocessor.py:82-88 | the result has the words of the comment-free code with every symbol spaced out; collapsing whitespace first changes no word |
| `Normalize.PreprocessCodeKeepsContent` | Preprocessor/data_preprocessor.py:82-88 | whitespace collapsing and symbol spacing keep the non-whitespace content of the comment-free, unescaped code |
| `Normalize.DropLineCommentsChars` | Preprocessor/data_preprocessor.py:78-79 | dropping line comments only deletes characters, and no `#` survives the `#` pass |
| `Normalize.DropLineCommentsUnchanged` | Preprocessor/data_preprocessor.py:78-79 | code without the comment marker is unchanged |
| `Normalize.StripCommentsNoHash` | Preprocessor/data_preprocessor.py:77-80 | after the three comment passes there is no `#`, and every character comes from the input |
| `Normalize.SpaceOutSymbolsSpaced` | Preprocessor/data_preprocessor.py:86 | every symbol gets a space on each side |
| `Normalize.SpaceOutSymbolsContent` | Preprocessor/data_preprocessor.py:86 | spacing out symbols adds only spaces |
| `Loading.ValidateJsonEntry` | Preprocessor/data_preprocessor.py:240-254 | true exactly for an object with a `question` key and an `answers` key whose value is a list |
| `Loading.ValidateEntries` | Preprocessor/data_preprocessor.py:306-312 | the loop keeps the valid entries in order and reports every other index, ascending |
| `Loading.FilterValidMembers` | Preprocessor/data_preprocessor.py:306-310 | an entry is kept exactly when it is in the input and valid |
| `Loading.FilterValidAppend` | Preprocessor/data_preprocessor.py:306-310 | the filter keeps the input order: it distributes over concatenation |
| `Loading.FilterValidIdempotent` | Preprocessor/data_preprocessor.py:306-310 | filtering twice is filtering once, and all-valid input is kept whole |
| `Loading.ErrorContext` | Preprocessor/data_preprocessor.py:322-329 | the context is the slice from `max(0, pos - 200)` up to `min(len, pos + 200)`, at most 400 characters; the caret column is `min(200, pos)` and points at the failing character; a position past the end leaves only the tail from `pos - 200`, or nothing |
| `Loading.ParseAndValidate` | Preprocessor/data_preprocessor.py:302-339 | a decode error is re-raised with its context; otherwise success holds exactly when the parsed list has a valid entry, and the value is the valid entries in order |
| `Loading.PreprocessFileBracketed` | Preprocessor/data_preprocessor.py:272-282 | the text handed to the parser starts with `[` and ends with `]` |
| `BagOfWords.EncodeChannel` | Preprocessor/data_preprocessor.py:161-164 | a channel's vector has the vocabulary's length and counts each vocabulary term over all strings; all zeros when there are none |
| `BagOfWords.TransformToBagOfWords` | Preprocessor/data_preprocessor.py:154-184 | each of the four vectors has its vocabulary's length and holds the summed per-string counts |
| `BagOfWords.SumRowsCounts` | Preprocessor/data_preprocessor.py:162 | the element-wise sum of the per-string rows counts each term over all the strings' tokens |
| `BagOfWords.EncodeChannelAppend` | Preprocessor/data_preprocessor.py:160-182 | the vector of a concatenation of string lists is the sum of the two vectors |
| `BagOfWords.OccurrencesAppend` | Preprocessor/data_preprocessor.py:162 | counting a term distributes over concatenation of token lists |
| `HtmlTree.KeptAttrs` | WebScraper/wrangling.py:30-36 | a link keeps at most its `href`, unchanged; every other tag keeps no attribute |
| `HtmlTree.RemoveNoticesFree` | WebScraper/wrangling.py:26-28 | no notice element remains anywhere |
| `HtmlTree.RemoveNoticesUnchanged` | WebScraper/wrangling.py:26-28 | a tree without notices is unchanged |
| `HtmlTree.StripAttrsKept` | WebScraper/wrangling.py:30-36 | only `a` may carry an attribute, and only `href` |
| `HtmlTree.StripAttrsUnchanged` | WebScraper/wrangling.py:30-36 | a tree whose attributes already conform is unchanged |
| `HtmlTree.StripAttrsText` | WebScraper/wrangling.py:30-36 | stripping attributes does not change the text |
| `HtmlTree.UnwrapEvery` | WebScraper/wrangling.py:38-42 | unwrapping leaves only `p`, `code` and `a` and keeps every property shared by all elements |
| `HtmlTree.UnwrapUnchanged` | WebScraper/wrangling.py:38-42 | a tree of allowed tags only is unchanged |
| `HtmlTree.UnwrapText` | WebScraper/wrangling.py:38-42 | unwrapping does not change the text |
| `HtmlTree.KeptIsNoticeFree` | WebScraper/wrangling.py:26-36 | once attributes are stripped no element can carry the notice class |
| `HtmlTree.CleanForestShape` | WebScraper/wrangling.py:14-48 | after cleaning: no notice, only `p`, `code` and `a`, only an `href` on links; the text is that of the tree without its notices |
| `HtmlTree.CleanForestKeepsText` | WebScraper/wrangling.py:14-48 | without notices, cleaning keeps the text |
| `HtmlTree.CleanUnchanged` | WebScraper/wrangling.py:14-48 | a tree already of the cleaned shape is unchanged |
| `HtmlTree.CleanForestIdempotent` | WebScraper/wrangling.py:14-48 | cleaning twice is cleaning once |
| `Dedup.StringAnswers` | WebScraper/wrangling.py:111-116 | every string answer, cleaned, is in the result, which is no longer than the input |
| `Dedup.StringAnswersCount` | WebScraper/wrangling.py:111-116 | exactly the string answers are kept |
| `Dedup.StringAnswersAppend` | WebScraper/wrangling.py:111-116 | the answers keep their order |
| `Dedup.ProcessEntry` | WebScraper/wrangling.py:100-116 | the cleaned entry has a question exactly when the raw one has a string or object question, and answers exactly when it has answers |
| `Dedup.ProcessedQuestionDoc` | WebScraper/wrangling.py:102-109 | the question the hash reads is the cleaned markup of the raw question, stored plain or under `content` |
| `Dedup.EntryHashOfDoc` | WebScraper/wrangling.py:81-87 | the hash of a processed entry depends only on its raw question |
| `Dedup.EntryHashOfRaw` | WebScraper/wrangling.py:70-87 | a string question and the same markup under `content` hash alike, whatever the answers |
| `Dedup.EntryHashNoQuestion` | WebScraper/wrangling.py:74-79 | an entry with no usable question hashes as the empty text |
| `Dedup.CanonicalTextCleaned` | WebScraper/wrangling.py:50-68 | cleaning the already cleaned question again does not change its canonical text |
| `Dedup.DedupPrefixReference` | WebScraper/wrangling.py:119-129 | after each entry the hash set holds exactly the earlier hashes and those seen; the kept entries are exactly the first occurrences; the log holds exactly the others, with their indices |
| `Dedup.FirstsRepeatsCount` | WebScraper/wrangling.py:99-131 | kept entries plus logged duplicates equal the number of entries |
| `Dedup.DedupPrefixSeen` | WebScraper/wrangling.py:126-128 | a hash is added to the set exactly for a kept entry |
| `Dedup.DedupPrefixKept` | WebScraper/wrangling.py:121-129 | kept entries have distinct hashes, none seen before, and the set grows by one per kept entry |
| `Dedup.ProcessFileDedup` | WebScraper/wrangling.py:89-131 | `process_file`, for any key function, keeps the first occurrences, logs the rest with their indices, and accounts for every entry |
| `Dedup.FindGroup` | WebScraper/wrangling.py:123-125 | the group lookup finds the group with the given hash, or reports that none has it |
| `Dedup.GroupByKeyTotal` | WebScraper/wrangling.py:121-125 | the duplicate index lists every logged duplicate once |
| `Dedup.GroupByKeyLocations` | WebScraper/wrangling.py:121-125 | one group per hash, holding exactly that hash's locations in order |
| `Dedup.CombinePrefixCounts` | WebScraper/wrangling.py:142-146 | each file's entries are either added to the unique list or logged; the running total counts the added ones |
| `Dedup.CombinePrefixDistinct` | WebScraper/wrangling.py:142-146 | across files the hash set is exactly the hashes of the unique entries, which are distinct |
| `Dedup.CombinePrefixGrowth` | WebScraper/wrangling.py:126-128 | the hash set grows by exactly the number of entries added |
| `Dedup.CombineFilesUnique` | WebScraper/wrangling.py:133-161 | on a fresh combiner and for any key function, the unique entries have pairwise distinct hashes and the hash set has as many elements as there are unique entries |
| `Dedup.CombineFilesAsWritten` | WebScraper/wrangling.py:142-157 | as written and for any key function, `duplicates_removed` is minus the number of entries held before the call, and `total_original_entries` equals `unique_entries` on a fresh combiner |
| `Dedup.CombineBatchesMissesRepeat` | WebScraper/wrangling.py:142-157 | for any key function, a cleaned file holding one entry twice logs one duplicate yet reports zero removed |
| `Dedup.CombineFilesMissesRepeat` | WebScraper/wrangling.py:142-157 | a file holding one entry twice logs one duplicate yet reports zero removed |
| `Dedup.IntendedStatsCount` | WebScraper/wrangling.py:142-157 | with the counts taken from the input, the removed count is the number of logged duplicates, never negative, and equals the duplicate index's size on a fresh combiner |
| `Dedup.InputSizeCounts` | WebScraper/wrangling.py:142-145 | cleaning keeps the number of entries per file |

## Left out

- **The surrounding I/O.** File reading and writing, the debug files, `print`,
  `json.dump`, `pickle`, `main` and `print_duplicate_report` are not modelled.
  `preprocess_file` is the pure composition `Loading.PreprocessFile`.
- **`json.loads`.** It is a parameter.
  - Parsing the repaired text is not modelled.
  - Numbers are integers; floats are not modelled.
  - Enumerating a parsed object or string yields no valid entry, so both are
    modelled as an empty list.
- **`html.unescape`.** It is a parameter of `Normalize.CleanText`; the entity
  table is not modelled.
- **BeautifulSoup.**
  - Parsing an HTML string into a tree, serialising it with `str(soup)`, and the
    string-level whitespace collapse of the serialised markup (`WebScraper/wrangling.py:45-46`)
    are not modelled. The question hash collapses whitespace again on the text,
    and that step is modelled.
  - `clean_html` of a non-string is the empty forest.
  - An answer that is not a list is not modelled: answers are a list of strings
    and other values.
  - Entries that are not objects are not modelled.
- **`hashlib.md5`.** It is a parameter, without injectivity.
- **The vectoriser.** `CountVectorizer.fit`, `max_features` selection, its
  lower-casing and its token pattern are not modelled: the vocabulary and
  tokenizer are parameters. `create_vocabulary` and `extract_code_and_text` are
  not modelled. `min_word_freq` is stored and never used
  (`Preprocessor/data_preprocessor.py:14-18`). `max_vocab_size` is passed as
  `max_features` to both vectorisers (`Preprocessor/data_preprocessor.py:17-18`)
  and so limits the vocabulary; that selection is left out, because the
  vocabulary is a parameter.
- **String literals in JSON.** `fix_json_structure` rewrites the text blindly,
  inside string literals too. The model does the same and claims nothing about
  string contents.
- **Unicode.** `\s`, `\w` and `lower()` are ASCII only: non-ASCII whitespace
  such as U+0085 or U+00A0, non-ASCII letters and their case mapping are not modelled.
- **The Python `process_file` of the preprocessor, the scrapers.** These are
  outside the modelled core.
- Normalize.PreprocessCode: states the words of the result and a space on each
  side of every inner symbol, not where every space falls. Spacing out symbols
  after the whitespace collapse can leave two spaces in a row, which
  `preprocess_code` does not collapse again.
- JsonRepair.FixJsonStructureNoDangling: needs the premise that the wrapped
  text has no two commas separated only by whitespace. Without it, `,,]` keeps a
  dangling comma.

## Findings

| source | as written | input that shows it | evidently intended | confidence | as-written member | corrected member |
|---|---|---|---|---|---|---|
| WebScraper/wrangling.py:142-157 | `original_counts` and `total_entries` are taken from `process_file`'s result, the entries kept after deduplication, so `duplicates_removed` is `total_entries - len(self.unique_entries)` | a single file holding the same entry twice: one duplicate is logged, `total_original_entries == unique_entries == 1`, `duplicates_removed == 0` | count the entries each file held before deduplication, so that `duplicates_removed` is the number of duplicates logged | high, not executed | `Dedup.CombineBatchesMissesRepeat` | `Dedup.IntendedStatsCount` |
