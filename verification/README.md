# Leveled news articles: a verified model of the parser core

`parse_articles.py` reads a folder of Word documents. Each document is one
reading level (`Lvl 1 …`, `Lvl 3 …`, `Lvl 6 …`) of one news article. The
script turns them into fixed-schema article records. This project models the
text processing at its core and proves properties of that model:

- `Text`: the handful of Python `str` operations the parser relies on. These
  are `isspace`, ASCII `lower`, `strip`, `find`, `split('\n')`, `'\n'.join`,
  and the decimal digits used by `int()` and `f'{n:03d}'`.
- `Filename`: `parse_filename` and the `^Lvl (\d+)` level token. The model
  removes every `.docx`, strips the `Lvl N` prefix and the
  `_ Breaking News English…` suffix, then slugifies.
- `Segment`: cutting one document's text into article text, instruction,
  questions and writing prompt. This covers `parse_level_content`,
  `parse_level_6_content`, `parse_level_1_and_3_content` and
  `extract_instruction_and_questions`. It also covers the numbered-question
  splitter `parse_article_content`.
- `Aggregate`: the two loops of `main`. A batch is the sequence of
  (filename, extracted text) pairs in listing order. Each pair is classified
  as skipped or stored. Stored entries are folded into an insertion-ordered
  association list keyed by slug, where the last write wins. The groups then
  become records numbered `rec001`, `rec002`, …, with the level 3 → 1 → 6
  headline rule and the fixed 21-key schema.
  `BuildNewsData` does the same with an explicit order list and map, and is
  proved equal to the functional definition.

Every marker list is tried in list order, and the first marker that occurs
anywhere wins. Where in the text the other markers sit does not matter. The
model keeps this priority-over-position behaviour and proves it
(`Segment.WritingPriorityOverPosition`).

The model follows the code in these details:

- The per-file headline is the first line of the text, stripped, even when
  that line is blank (parse_articles.py:165). The script's own comment calls
  the first line only "usually the headline" (parse_articles.py:116).
- The `_ Breaking News English` suffix is matched case-sensitively
  (parse_articles.py:26).
- `filename.replace('.docx', '')` removes every occurrence of `.docx`
  anywhere in the name, although the comment above it speaks of removing the
  extension (parse_articles.py:24-25).
- At level 6, instruction and questions are taken from the homework block
  before the writing marker, stripped (parse_articles.py:69-73).
- In `parse_article_content`, `lines[1:q]` is empty when `q` is 0
  (parse_articles.py:130).
- Ids are zero-padded to a minimum width of 3. A counter of 1000 or more
  gives a longer id (parse_articles.py:187).
- Level keys are the integer value of the digit run, so `Lvl 01` and `Lvl 1`
  share a level (parse_articles.py:152, 164).

## Model

| member | source | states |
|---|---|---|
| Text.Strip | parse_articles.py:40 | `strip()` leaves no whitespace at either end, only drops characters, and gives empty exactly for all-whitespace input |
| Text.StripUnique | parse_articles.py:43 | any slice with all-whitespace margins and trimmed content is the result of `strip()` |
| Text.StripIdempotent | parse_articles.py:46 | stripping twice is stripping once |
| Text.Find | parse_articles.py:38 | `find` returns -1 exactly when the pattern is absent, and otherwise returns the leftmost occurrence |
| Text.CIFind | parse_articles.py:62 | `s.lower().find(m.lower())` returns the leftmost occurrence in the lower-cased text, or -1 exactly when none exists |
| Text.Lines | parse_articles.py:97 | `split('\n')` gives at least one piece and no piece contains a newline |
| Text.Join | parse_articles.py:103 | a newline-join opens with its first line; with `Text.JoinLines` and `Text.LinesJoin` it is the inverse of `split('\n')` |
| Text.JoinLines | parse_articles.py:97-103 | joining the pieces of `split('\n')` with newlines rebuilds the string |
| Text.LinesJoin | parse_articles.py:97-103 | splitting a newline-join of newline-free lines gives back those lines |
| Text.OccurrenceInLine | parse_articles.py:95-101 | a newline-free pattern present in the text lies inside one of its lines |
| Text.CIOccurrenceInLine | parse_articles.py:95-101 | a marker found case-insensitively in the block is found case-insensitively in some line, so the line loop finds a line |
| Text.FirstWhereFinds | parse_articles.py:100-105 | a left-to-right scan that stops at the first satisfying element returns exactly the first satisfying index |
| Text.StripKeepsPrefix | parse_articles.py:70 | a trimmed piece that opens a text after only whitespace still opens it once stripped |
| Text.Decimal | parse_articles.py:187 | the decimal form of `n` is non-empty digits that read back as `n`, with no leading zero (0 is written `0`) |
| Text.ZeroPad | parse_articles.py:187 | `{n:03d}` is all digits, reads back as `n`, and has length max(3, number of digits) |
| Filename.RemoveExtension | parse_articles.py:25 | `replace('.docx', '')` never lengthens a name; `Filename.RemoveExtensionDrops` and `Filename.RemoveExtensionKeeps` fix each step of its left-to-right scan |
| Filename.RemoveExtensionDotFree | parse_articles.py:25 | text without a dot is copied unchanged, whatever follows it |
| Filename.RemoveExtensionKeeps | parse_articles.py:25 | a character that does not open `.docx` (a lone `.`, say) is copied and the scan goes on after it; with `Filename.RemoveExtensionDrops` this fixes `replace('.docx', '')` on every name |
| Filename.RemoveExtensionDrops | parse_articles.py:25 | an occurrence of `.docx` at the scan position is dropped and the scan resumes after it, so every occurrence between dot-free pieces is removed |
| Filename.RemoveExtensionNoDot | parse_articles.py:25 | a name without a dot is unchanged |
| Filename.RemoveExtensionTrailing | parse_articles.py:25 | a trailing `.docx` disappears and the stem is treated as if on its own |
| Filename.StripLevelPrefix | parse_articles.py:25 | without a `Lvl <digit>` prefix the name is unchanged; with one, a proper suffix remains that does not start with whitespace |
| Filename.StripLevelPrefixSpec | parse_articles.py:25 | `Lvl ` + digits + whitespace + rest leaves exactly rest, so the digit and whitespace runs are taken greedily |
| Filename.LevelToken | parse_articles.py:146-152 | no level exactly when the name does not start with `Lvl ` and a digit |
| Filename.LevelTokenSpec | parse_articles.py:146-152 | the level is the value of the whole digit run after `Lvl ` |
| Filename.AttributionFrom | parse_articles.py:26 | finds the leftmost position from which the suffix pattern matches, or reports that there is none |
| Filename.StripAttribution | parse_articles.py:26 | with no match the name is unchanged; otherwise it is cut at the leftmost match, keeping a final newline as `$` does |
| Filename.KeepSlugChars | parse_articles.py:28 | only `[a-zA-Z0-9\s-]` characters survive |
| Filename.KeepSlugCharsAppend | parse_articles.py:28 | the filter distributes over concatenation, so surviving characters keep their order |
| Filename.KeepSlugCharsOne | parse_articles.py:28 | a single character survives exactly when it is in `[a-zA-Z0-9\s-]`; with the lemma above this determines the filter on every string |
| Filename.HyphenateAlphabet | parse_articles.py:29 | the result has no whitespace; every character is `-` or a non-space character of the input |
| Filename.HyphenateKeeps | parse_articles.py:29 | a non-space character is copied and the scan goes on after it |
| Filename.HyphenateWord | parse_articles.py:29 | a run of non-space characters is copied as it is |
| Filename.HyphenateRun | parse_articles.py:29 | a maximal whitespace run becomes exactly one `-`; with `Filename.HyphenateKeeps` this determines `re.sub(r'\s+', '-', s)` on every string |
| Filename.Slugify | parse_articles.py:28-29 | the slug has only lower-case ASCII letters, digits and `-` |
| Filename.ParseFilename | parse_articles.py:22-30 | `parse_filename` always yields a slug of that shape |
| Filename.StripAttributionAfterTitle | parse_articles.py:26 | after a trimmed title without `_`, the suffix ` _ Breaking News English` is cut exactly at the end of the title |
| Filename.ParseFilenameOfTitle | parse_articles.py:22-30 | `Lvl N <title> _ Breaking News English.docx` gives exactly the slugify of the title, for any digits and whitespace after `Lvl `, when the title is non-empty, has no leading or trailing whitespace, holds no `.` and no `_`, and does not start with a digit if no whitespace follows the digits |
| Filename.LevelPrefixDropped | parse_articles.py:25 | after `replace('.docx', '')` the level prefix `Lvl <digits><whitespace>` goes and leaves exactly what the replacement makes of the rest of the name, whenever the rest does not start with whitespace or `.docx` (nor with a digit when no whitespace follows the digits) |
| Filename.SameTitleSameSlug | parse_articles.py:22-30 | two names that differ only in the level prefix `Lvl <digits><whitespace>` get the same slug, so the levels of one title are grouped together; the rest of the name is arbitrary except that it may not start with whitespace or `.docx`, nor with a digit when no whitespace follows the digits |
| Filename.SlugifyFixesSlugs | parse_articles.py:28-29 | a slug is a fixed point of slugify |
| Filename.SlugifyIdempotent | parse_articles.py:28-29 | slugify(slugify(x)) == slugify(x) |
| Filename.ParseFilenameFixesSlugs | parse_articles.py:22-30 | a slug is a fixed point of `parse_filename`: no `.docx`, prefix, suffix or whitespace is left to change |
| Filename.ParseFilenameIdempotent | parse_articles.py:22-30 | parse_filename(parse_filename(f)) == parse_filename(f) |
| Segment.FirstLineWith | parse_articles.py:100-105 | the line loop stops at the first line containing the marker, ignoring case, or finds none |
| Segment.MarkerHit | parse_articles.py:95-105 | a marker that does not occur gives no hit; a hit is some line holding the marker, stripped, with the later lines joined and stripped |
| Segment.ExtractWith | parse_articles.py:91-110 | with no marker present the result is `('', content)`; otherwise it is `('', content)` or the hit of one of the markers |
| Segment.MarkerLineExists | parse_articles.py:95-101 | a single-line marker that occurs in the block is contained in one of its lines, so the inner loop always breaks |
| Segment.ExtractWithFirstPresent | parse_articles.py:94-108 | markers before the first present one are passed over; the first present one picks its first line, which is not blank |
| Segment.InstructionMarkersSingleLine | parse_articles.py:90 | each of the five instruction markers is non-empty, opens with a non-space and has no newline |
| Segment.ExtractWithSpec | parse_articles.py:88-110 | for any list of such markers: no marker present gives `('', content)`; otherwise the first listed marker present picks the first line containing it, the instruction is that line stripped and non-blank, and the questions are the later lines joined and stripped |
| Segment.ExtractInstructionAndQuestions | parse_articles.py:88-110 | the same promise for the five markers of the source |
| Segment.SelectMarker | parse_articles.py:61-65 | the chosen marker occurs, and no marker listed before it occurs |
| Segment.ParseLevel6Content | parse_articles.py:55-80 | with no writing marker the prompt is empty and extraction runs on the whole block; otherwise, at the first listed marker present, the prompt is the block from that marker on, stripped, and extraction runs on the stripped text before it |
| Segment.WritingPromptStartsWithMarker | parse_articles.py:67-70 | the writing prompt begins with the chosen marker, ignoring case |
| Segment.StripFromMarker | parse_articles.py:69-70 | cutting at a case-insensitive find of a trimmed marker and stripping leaves a text that opens with the marker, ignoring case |
| Segment.WritingMarkerTrimmed | parse_articles.py:58 | the four writing markers are non-empty and trimmed |
| Segment.WritingPriorityOverPosition | parse_articles.py:58-70 | a lower-priority marker that occurs earlier in the block does not move the split: the prompt starts at the higher-priority marker |
| Segment.ParseLevel1And3Content | parse_articles.py:82-86 | the article text passes through, the prompt is empty, and instruction and questions come from extraction on the block |
| Segment.ParseLevelContent | parse_articles.py:32-53 | empty text gives four empty strings; text without `Homework:` gives the stripped text and three empty strings; otherwise the article text is the stripped text before the first `Homework:`, level 6 goes to the writing-prompt split of the stripped text after the marker, and every other level has an empty prompt |
| Segment.HomeworkMarkerExcluded | parse_articles.py:38-46 | neither the text before the first `Homework:` nor the article text (that text stripped) holds a `Homework:`, and the text is exactly the part before + marker + the part after |
| Segment.FirstNumbered | parse_articles.py:120-124 | the question loop stops at the first line that matches `^\d+\.` once stripped, or finds none |
| Segment.SplitArticle | parse_articles.py:112-133 | the headline is the first line stripped; with no numbered line the body is the unstripped join of lines 1.. and questions are empty; otherwise body and questions split at the first numbered line, and non-empty questions start with digits and a dot |
| Segment.ParseArticleContent | parse_articles.py:112-133 | the headline is the per-file headline `main` stores; without a numbered line there are no questions; questions, when present, start with digits and a dot |
| Segment.QuestionsStayNumbered | parse_articles.py:131 | joining lines whose first line is numbered and stripping keeps a `^\d+\.` start |
| Segment.Headline | parse_articles.py:165 | the headline is trimmed and holds no newline |
| Segment.HeadlineIsFirstLine | parse_articles.py:165 | the headline is the text up to its first newline, stripped, or the whole text stripped when there is no newline |
| Segment.HeadlineIgnoresRest | parse_articles.py:165 | nothing after the first newline affects the headline |
| Aggregate.Classify | parse_articles.py:141-171 | a file is skipped for a wrong extension, a missing level token, or empty text, each exactly when that is the first failing test; a stored file has its level token value, the `parse_filename` slug of its name, its filename, its first-line headline, and the article text, instruction, questions and prompt that `parse_level_content` gives for its text and level |
| Aggregate.IndexOf | parse_articles.py:164 | finds the group with the slug, or reports exactly that no group has it |
| Aggregate.Add | parse_articles.py:164 | storing a known slug keeps the list of slugs; a new slug is appended at the end |
| Aggregate.Accumulate | parse_articles.py:139-171 | the first loop yields at most one group per file and no two groups with the same slug |
| Aggregate.FirstSeenKnown | parse_articles.py:164 | storing an already-grouped slug keeps the groups' slugs distinct, complete and in first-encounter order |
| Aggregate.FirstSeenNew | parse_articles.py:164 | a new slug appended at the end keeps the groups' slugs distinct, complete and in first-encounter order |
| Aggregate.AccumulateFirstSeen | parse_articles.py:139-171 | after any batch, the group slugs are distinct, are exactly the stored slugs, and are ordered by first storage |
| Aggregate.AccumulateSlugs | parse_articles.py:139-164 | the groups hold each stored slug exactly once, no other slug, in first-encounter order |
| Aggregate.LookupAdd | parse_articles.py:164 | storing an entry changes only that slug's levels and only at that level |
| Aggregate.AccumulateLevels | parse_articles.py:164-171 | a slug has a group exactly when some file stored it; a level is present exactly when some stored file had that slug and level, and it holds the last such file's entry |
| Aggregate.GroupLevels | parse_articles.py:181-183 | `levels.get('level_N')` of a group is the last stored entry for its slug and level N |
| Aggregate.RecordId | parse_articles.py:187 | the id is `rec` followed by digits from which the counter reads back, so distinct counters give distinct ids |
| Aggregate.ResolveHeadline | parse_articles.py:189 | the headline is that of the first of levels 3, 1, 6 the record has, or empty when it has none of them |
| Aggregate.BuildRecord | parse_articles.py:179-211 | the record has the id of its counter and the group's slug |
| Aggregate.Finalize | parse_articles.py:176-214 | one record per group, in group order, record i built from group i with counter i+1 |
| Aggregate.RecordIdWidth | parse_articles.py:187 | counters below 1000 give six-character ids |
| Aggregate.RecordIdExample | parse_articles.py:187 | counter 7 gives `rec007` |
| Aggregate.FieldEntries | parse_articles.py:188-210 | the emitted fields are exactly the 21 schema keys in the written order |
| Aggregate.RecordsOrder | parse_articles.py:177-214 | the record count is the number of distinct stored slugs; record i has id `rec` + counter i+1; records are in first-encounter order of their slugs; every stored slug has a record and no slug has two |
| Aggregate.FinalizeCovers | parse_articles.py:177-214 | distinct groups holding exactly the stored slugs give one record per distinct stored slug, numbered from `rec001`, and every stored slug gets a record |
| Aggregate.FinalizeOrdered | parse_articles.py:179-214 | records come out in the groups' order, so their slugs differ and follow first storage |
| Aggregate.FinalizeSlugs | parse_articles.py:179-190 | the records of distinct groups carry exactly the groups' slugs |
| Aggregate.RecordIdsDistinct | parse_articles.py:187 | no two records share an id |
| Aggregate.RecordFields | parse_articles.py:179-209 | the level 0/2/4/5 and Image URL fields are empty; a level 1/3/6 field is the last stored file's value for that slug and level, or empty; the headline is level 3's, else level 1's, else level 6's, else empty |
| Aggregate.SkippedFilesIgnored | parse_articles.py:141-158 | appending a skipped file changes neither the records nor the stored slugs |
| Aggregate.AccumulateSkipsSkipped | parse_articles.py:141-158 | a skipped outcome at any position leaves the grouping as it would be without it |
| Aggregate.SkippedFileAnywhere | parse_articles.py:141-158 | a skipped file at any position of the listing leaves the records unchanged |
| Aggregate.StoreOverwrites | parse_articles.py:164-171 | after storing an entry, its slug has a group whose level holds exactly that entry |
| Aggregate.LaterFileOverwrites | parse_articles.py:164-171 | after a stored file, its slug's entry at its level is that file's entry |
| Aggregate.SameSlugMerges | parse_articles.py:164 | two stored files with the same slug give one record, whatever their levels |
| Aggregate.MirrorsAdd | parse_articles.py:164 | updating the map in place for a known slug, or appending a new slug to the order list, keeps the order list and map in step with the association list |
| Aggregate.GroupOutcomes | parse_articles.py:139-171 | the order-list-and-map loop builds the same groups as the fold, with distinct keys in insertion order |
| Aggregate.FinalizeStep | parse_articles.py:179-214 | numbering one more group appends exactly its record with the next id |
| Aggregate.NumberGroups | parse_articles.py:176-214 | the numbering loop over the order list produces exactly the functional records |
| Aggregate.BuildNewsData | parse_articles.py:139-214 | the imperative two-loop `main` produces exactly the functional records, one per distinct stored slug |

## Left out

- `extract_text_from_docx` (parse_articles.py:9-20) calls into python-docx. A file's extracted text is an input, and a failed extraction is the empty text it returns.
- The order of `os.listdir` (parse_articles.py:141) is up to the operating system. A batch is a given sequence of (filename, text) pairs.
- Writing `src/data/newsData.js` and the `json.dumps` escaping (parse_articles.py:218-232) are output I/O. The model stops at the record sequence and its key order (`Aggregate.FieldEntries`).
- `print` diagnostics are not modelled.
- Whitespace follows Python's `str.isspace` set, which CPython's `re` also uses for `\s` (`Text.IsSpace`). `str.lower` is modelled for ASCII only, and `\d` as ASCII digits. Full Unicode case mapping can change a string's length, so with non-ASCII text `s.lower().find(...)` may index the original string at a shifted position (parse_articles.py:62, 69-70). That shift is not modelled.
- Regular expressions are not modelled in general. The six patterns the script uses are hand-coded as string functions: `^Lvl \d+\s*` (`Filename.StripLevelPrefix`), `\s*_\s*Breaking News English.*$` (`Filename.StripAttribution`), `[^a-zA-Z0-9\s-]` (`Filename.KeepSlugChars`), `\s+` (`Filename.Hyphenate`), `^Lvl (\d+)` (`Filename.LevelToken`) and `^\d+\.` (`Segment.NumberedLine`).
- `parse_article_content` is modelled, but `main` never calls it (parse_articles.py:112-133).
