# R1 paper catalogue: a Dafny model of its string and list logic

The system is a bot that keeps an "Awesome R1" README up to date. It does five things:

- It searches arXiv for papers whose title or abstract mentions an R1 model.
- It keeps only the papers that look like genuine R1 machine-learning work, and drops repeats within the batch.
- It rebuilds an index of the arXiv ids and titles already listed in the README's `## Papers` table, and rejects candidates that are already there, either exactly or by a near-identical title.
- It enriches each new paper with a code link, a project page, model names and dataset names, and validates the result.
- It writes the paper as a new table row, keeping the rows sorted newest first, and composes the commit message.

The network, the GitHub API and the XML parser are outside the model. The project models the pure string and sequence processing between them, as pure functions over immutable datatypes. The one exception is the edit distance, written as the source writes it: a dynamic-programming method checked against a recursive definition.

Modules, one per file:

| module | file | models |
|---|---|---|
| `Wrappers` | wrappers.dfy | `Option` |
| `Text` | text.dfy | JavaScript string helpers: ASCII case mapping, `\s` and `\w`, `trim`, `includes`, `replace`, `/\s+/g` collapsing, `split`, `join` |
| `Seqs`, `OrderedSets` | seqs.dfy, ordered_set.dfy | filtering; insertion-ordered sets, which is what a JavaScript `Set` is |
| `Papers` | papers.dfy | the search candidate record and the processed paper record |
| `TitleNormal` | normalize.dfy | `normalizeTitle` |
| `EditDistance` | levenshtein.dfy | `levenshteinDistance`, `calculateSimilarity` |
| `CatalogIndex` | catalog_index.dfy | `parseExistingPapers` and its `extract*` helpers, `isDuplicate` |
| `Enrichment` | enrich.dfy | `enrichPaperInfo`, the outcome of `enrichFromGitHub`, `validateProcessedPaper` |
| `ReadmeTable` | table.dfy | `generateTableRow`, `extractDateFromRow`, `createPapersTable`, `insertPaperIntoReadme`, `generateCommitMessage` |
| `ArxivSearch` | arxiv.dfy | `buildSearchQueries`, `parseEntry`, `isValidR1Paper`, `removeDuplicates` |
| `RowRoundTrip` | roundtrip.dfy | written rows read back by the index (the finding below) |

Modelling choices:

- Strings are `seq<char>`. Case mapping is ASCII-only. `\w` is `[A-Za-z0-9_]` and `\s` is the finite list of ECMAScript white-space and line-terminator code points.
- `removeDuplicates` keys titles by `ArxivSearch.TitleKey`, which is defined as `TitleNormal.NormalizeTitle`. The inline normalisation at lib/arxiv-search.js:277-280 is character for character the body of `normalizeTitle`, so both places share one definition.
- Regular expressions are not executed. A pattern test is a `Matcher` parameter, used by `isValidR1Paper`. The match lists of `enrichPaperInfo` arrive as a `PatternMatches` value. The located `## Papers` section of a README arrives as a `TableMatch`: before, header, rows and after, with their concatenation equal to the README.
- Dates are `YYYY-MM-DD` strings. The `new Date` comparator becomes lexicographic order, and `Array.prototype.sort` becomes a stable insertion sort (ECMAScript 2019 requires `sort` to be stable).
- The similarity ratio is an exact `real`. The `> 0.9` test is proved equivalent to an integer inequality (`EditDistance.SimilarIffIntegers`). For two 12-character titles it asks for 10·(12 − d) > 108, so at most one edit. A swapped pair of letters ("Foo R1 Modle" against "Foo R1 Model") costs two edits, 10/12, and is therefore not a duplicate.

## Model

| member | source | states |
|---|---|---|
| TitleNormal.NormalizeTitle | lib/paper-processor.js:355-360 | the result is normalised: only lower-case letters, digits, `_` and single inner spaces, nothing at either end; it is never longer than the input |
| TitleNormal.NormalizedIsFixpoint | lib/paper-processor.js:355-360 | an already normalised title is returned unchanged |
| TitleNormal.NormalizeIdempotent | lib/paper-processor.js:355-360 | normalising twice equals normalising once |
| TitleNormal.NormalizeKeepsWords | lib/paper-processor.js:355-360 | normalising loses no word character: the word characters of the result are exactly those of the lower-cased title, in order |
| EditDistance.Dist | lib/paper-processor.js:372-398 | the recursive edit distance is at most the longer length and at least the length difference |
| EditDistance.LevenshteinDistance | lib/paper-processor.js:372-398 | the matrix computation, filled row by row, returns exactly the recursive edit distance |
| EditDistance.DistSelf | lib/paper-processor.js:372-398 | a string is at distance 0 from itself |
| EditDistance.DistZeroIff | lib/paper-processor.js:372-398 | the distance is 0 exactly when the two strings are equal |
| EditDistance.DistToEmpty | lib/paper-processor.js:372-398 | the distance to or from the empty string is the other string's length |
| EditDistance.DistSymmetric | lib/paper-processor.js:372-398 | the distance does not depend on argument order |
| EditDistance.CalculateSimilarity | lib/paper-processor.js:362-370 | the ratio lies in [0, 1]; two empty strings give 1.0; it is 1.0 exactly when the strings are equal |
| EditDistance.SimilaritySymmetric | lib/paper-processor.js:362-370 | similarity does not depend on argument order |
| EditDistance.SimilarIffIntegers | lib/paper-processor.js:362-370 | `similarity > 0.9` holds exactly when 10·(longer − distance) > 9·longer |
| CatalogIndex.ExtractArxivUrl | lib/paper-processor.js:340-343 | the result is the match at the leftmost position that starts `http://arxiv.org/` or `https://arxiv.org/` followed by a character other than `)` and `]`: the scheme and host plus the longest run of characters other than `)` and `]`, which ends at the end of the cell or before such a character; it occurs in the cell; no match means no position of the cell starts such a URL |
| CatalogIndex.ExtractArxivId | lib/paper-processor.js:345-348 | an id is found exactly when some position of the URL starts `arxiv.org/abs/` followed by a non-empty rest without a line break; it comes from the leftmost such position and is that rest, minus a final `.pdf` when something precedes the `.pdf`; it is non-empty and follows `arxiv.org/abs/` in the URL; no match means every occurrence of the marker is followed by nothing or by a rest holding a line break |
| CatalogIndex.ExtractTitleText | lib/paper-processor.js:350-353 | a found title is the text of the `[...]` at the leftmost position that starts a non-empty one: it is non-empty, has no `]`, and occurs bracketed in the cell; no match means no position starts a bracketed title |
| CatalogIndex.CellKey | lib/paper-processor.js:91-106 | a title is recorded exactly when some position of the cell starts a non-empty `[...]`; it is a normalised title, the normalisation of a bracketed run found in the cell. An id is recorded exactly when the cell holds an arXiv URL whose text carries a readable `arxiv.org/abs/` id; it is non-empty, holds no `)` or `]`, and follows `arxiv.org/abs/` in the cell, so a cell without that marker records no id |
| CatalogIndex.RowKeyAsWritten | lib/paper-processor.js:86-106 | the line filter as written: a line without a bar character, with `Paper` or `---` anywhere, or with fewer than 6 cells records nothing |
| CatalogIndex.RowKeyOf | lib/paper-processor.js:86-106 | the corrected filter: a line without a bar character or with fewer than 6 cells records nothing; otherwise the keys come from the second cell |
| CatalogIndex.AsWrittenAgreesOnCandidates | lib/paper-processor.js:86 | on every line the written filter accepts, the corrected filter records the same keys |
| CatalogIndex.CellWithoutLinkHasNoKey | lib/paper-processor.js:91-106 | a paper cell with no `[` and no `:` yields neither an id nor a title |
| CatalogIndex.ParseLinesCollects | lib/paper-processor.js:82-112 | with the corrected filter (see Findings): after parsing, an id or title is indexed exactly when it was indexed before or some line yields it; titles stay duplicate-free |
| CatalogIndex.ParseLinesAsWrittenCollects | lib/paper-processor.js:82-112 | with the filter as written: after parsing, an id or title is indexed exactly when it was indexed before or some line that passes the filter yields it; titles stay duplicate-free |
| CatalogIndex.AsWrittenParseAgrees | lib/paper-processor.js:86 | when every line passes the filter as written, parsing as written and parsing with the corrected filter build the same index |
| CatalogIndex.ParseExistingPapers | lib/paper-processor.js:74-79 | with the corrected filter (see Findings): without a Papers section the index is unchanged; parsing never removes an id or title |
| CatalogIndex.SkippedLineAddsNothing | lib/paper-processor.js:86-90 | a line without a bar character, with fewer than 6 cells, or whose paper cell has no link adds nothing, so the header and separator rows add nothing |
| CatalogIndex.IdComesFromAbsUrl | lib/paper-processor.js:88-99 | an id that a line adds is read from the arXiv URL found in that line's second cell: the URL holds `arxiv.org/abs/` followed by the id, or by the id and `.pdf` |
| CatalogIndex.FirstSimilar | lib/paper-processor.js:298-303 | the scan returns a stored title that is similar to the candidate, and returns none exactly when no stored title is similar |
| CatalogIndex.Classify | lib/paper-processor.js:286-306 | the decision is an id hit exactly when the id is indexed, a title hit exactly when it is not but the normalised title is, and accepted exactly when neither holds and no stored title is similar |
| CatalogIndex.IsDuplicate | lib/paper-processor.js:286-306 | a duplicate exactly when the id is indexed, or the normalised title is, or some stored title is similar; always a duplicate on an id hit whatever the title; never a duplicate against an empty index |
| Enrichment.StripTrailingPunct | lib/paper-processor.js:157 | the result is the URL with at most its last character removed, and one is removed exactly when it is one of `.,;:` |
| Enrichment.FirstProjectPage | lib/paper-processor.js:161-174 | the page chosen is the first match whose stripped form is not on an excluded host; none exactly when every match is excluded |
| Enrichment.CollectModels | lib/paper-processor.js:186-199 | the collected names are the names found so far followed by each new candidate in the order it is first seen, pattern by pattern: the upper-cased title matches, then the first two abstract matches; no name twice |
| Enrichment.ModelList | lib/paper-processor.js:186-204 | at most 3 distinct names, each a real candidate, listed in the order first seen; no unlisted candidate is seen before a listed one; fewer than 3 means every candidate is listed; empty exactly when there is no candidate |
| Enrichment.CleanedMatches | lib/paper-processor.js:216-219 | exactly the first two matches of a dataset pattern, or all of them when there are fewer, each with whitespace collapsed and trimmed |
| Enrichment.CollectDatasets | lib/paper-processor.js:213-226 | the collected names are the names found so far followed by each new candidate that passes the length filter, in the order first seen, pattern by pattern; no name twice |
| Enrichment.DatasetList | lib/paper-processor.js:213-228 | at most 2 distinct names, each 3 to 29 characters and a real candidate, listed in the order first seen; no unlisted candidate is seen before a listed one; fewer than 2 means every candidate is listed; empty exactly when there is no candidate |
| Enrichment.VerifyCodeUrl | lib/paper-processor.js:242-264 | only the code URL can change, and it is cleared exactly when it was set and the probe reports 404 |
| Enrichment.EnrichPaperInfo | lib/paper-processor.js:151-240 | only the code, project, models and dataset fields change; a 404 clears the code URL; otherwise the first GitHub match, stripped, sets it; the first allowed project page sets the project field, which is unchanged when there is none; a non-empty model list sets models to the names joined with `, `, and a non-empty dataset list does the same for the dataset; an empty list leaves its field unchanged |
| Enrichment.ModelCellEntries | lib/paper-processor.js:201-202 | when names contain no comma, the models cell splits into 1 to 3 comma-separated entries |
| Enrichment.DatasetCellEntries | lib/paper-processor.js:227-228 | when names contain no comma, the dataset cell splits into 1 to 2 comma-separated entries |
| Enrichment.ValidateProcessedPaper | lib/paper-processor.js:266-284 | rejected exactly when the title, id or date is empty or the title is over 200 characters; otherwise only the code URL and project page can change, each cleared exactly when it is set and invalid |
| Enrichment.ValidateIdempotent | lib/paper-processor.js:266-284 | an accepted record passes a second validation unchanged |
| ReadmeTable.RowCellsRoundTrip | lib/github-operations.js:272-281 | when no field holds a bar character, the row splits into 8 trimmed cells: empty ends, the `[title](absUrl)` link, `[Code](u)` or `-`, models or `-`, dataset or `-`, `[Project](u)` or `-`, and the date |
| ReadmeTable.ExtractDateFromRow | lib/github-operations.js:307-313 | the result is never empty; it is the seventh trimmed cell when there is a non-empty one, and `1970-01-01` otherwise |
| ReadmeTable.DateRoundTrip | lib/github-operations.js:307-313 | when no field holds a bar character, reading the date back from a written row gives the trimmed date, or `1970-01-01` when that is empty |
| ReadmeTable.CreatedTableLines | lib/github-operations.js:296-305 | the created table is the section heading, a blank line, the header and the separator, then exactly one line per paper row, in order |
| ReadmeTable.LexLessTotal | lib/github-operations.js:186 | the date order is total; `LexLessIrreflexive` and `LexLessTransitive` make it a strict order |
| ReadmeTable.InsertKeepsOrder | lib/github-operations.js:183-186 | inserting a row into a newest-first list keeps it newest-first |
| ReadmeTable.InsertIsStable | lib/github-operations.js:183-186 | inserting a row puts it after every existing row of the same date, and keeps the order among them |
| ReadmeTable.SortIsStableNewestFirst | lib/github-operations.js:186 | the sort is a permutation, orders rows newest first, and keeps rows of equal date in input order |
| ReadmeTable.TableLines | lib/github-operations.js:175-176 | the rows kept are exactly the existing lines that contain a bar character and are not blank, each kept as often as it occurs |
| ReadmeTable.TableLinesInOrder | lib/github-operations.js:175-176 | the kept lines stay in file order: filtering two stretches of lines together gives the first stretch's kept lines followed by the second's |
| ReadmeTable.InsertPaperIntoReadme | lib/github-operations.js:158-193 | without a Papers table the result is the README, two newlines and a fresh one-row table; with one, the text before the table and the header come first unchanged, and the text after the table comes last unchanged |
| ReadmeTable.MergedRowsFacts | lib/github-operations.js:175-186 | the new row list holds exactly the kept existing rows plus the new row, each once, newest first, with equal dates in their original order |
| ReadmeTable.NewRowAfterSameDate | lib/github-operations.js:183-186 | the new row comes after every existing row that has the same date |
| ReadmeTable.InsertedRowsReadBack | lib/github-operations.js:188-192 | when the new paper has no line break in its fields, the lines between the header and the trailing text are exactly the sorted rows |
| ReadmeTable.ShortTitle | lib/github-operations.js:227-229 | the shown title is at most 50 characters; it is the title exactly when that has at most 50 characters, and otherwise its first 47 characters and `...` |
| ReadmeTable.CommitMessageLines | lib/github-operations.js:226-232 | the message splits into the subject `Add: ` plus the shortened title, a blank line, the arXiv id line and the date line |
| ArxivSearch.BuildSearchQueries | lib/arxiv-search.js:69-78 | exactly 4 queries, each ending in the same parenthesised disjunction over the 18 categories |
| ArxivSearch.QueriesCoverEveryCategory | lib/arxiv-search.js:69-78 | every query contains `cat:X` for each of the 18 computer-science categories |
| ArxivSearch.CatClauseInOrder | lib/arxiv-search.js:70 | in the disjunction, an earlier category's term ends, with its ` OR `, before a later category's term starts |
| ArxivSearch.FindHref | lib/arxiv-search.js:145-156 | the link found is the first one of the wanted type; none exactly when no link has that type |
| ArxivSearch.UpdatedOrPublished | lib/arxiv-search.js:177 | `updated` is kept when it is present and non-empty, and otherwise replaced by `published` |
| ArxivSearch.StripAbsPrefix | lib/arxiv-search.js:126 | an id starting with `http://arxiv.org/abs/` loses exactly that prefix; an id without the prefix is unchanged; the result is empty exactly when the raw id is empty or is the bare prefix |
| ArxivSearch.ParseEntry | lib/arxiv-search.js:124-186 | null exactly when the id is missing, the collapsed title is empty, or the stripped id is empty; otherwise the id is stripped, title and abstract have whitespace collapsed and trimmed, and `updated` falls back to `published` |
| ArxivSearch.ParseEntryOfCandidate | lib/arxiv-search.js:124-186 | any candidate with a non-empty id and a non-empty clean title and abstract is what parsing its own feed entry returns |
| ArxivSearch.SomeCsCategory | lib/arxiv-search.js:220 | true exactly when some category is one of the 18 |
| ArxivSearch.SomeKeyword | lib/arxiv-search.js:257-259 | true exactly when some keyword is a substring of the title or the abstract |
| ArxivSearch.IsValidR1Paper | lib/arxiv-search.js:188-266 | accepted exactly when there is R1 evidence, a listed category, no exclusion match and an AI keyword; false without a listed category or with any exclusion match; acceptance implies some AI keyword occurs in the lower-cased title or abstract |
| ArxivSearch.RemoveDuplicates | lib/arxiv-search.js:268-290 | the loop computes the reference definition of the kept list; no two kept papers share an id or a normalised title; every kept paper is an input; every dropped input collides with a kept paper |
| ArxivSearch.KeptPapersIsSubsequence | lib/arxiv-search.js:272-289 | the kept papers are the inputs at strictly increasing positions |
| ArxivSearch.KeptExactlyWhenNew | lib/arxiv-search.js:272-289 | a paper is kept exactly when its id and normalised title both differ from those of every paper kept before it |
| ArxivSearch.KeptPapersUnique | lib/arxiv-search.js:269-287 | no two kept papers share an id or a normalised title |
| ArxivSearch.KeptPapersCover | lib/arxiv-search.js:273-284 | every input is kept or shares an id or normalised title with a kept paper |
| ArxivSearch.UniqueIsKept | lib/arxiv-search.js:268-290 | a list with no shared id or normalised title passes through unchanged |
| ArxivSearch.RemoveDuplicatesIdempotent | lib/arxiv-search.js:268-290 | removing duplicates twice equals removing them once |
| RowRoundTrip.LinkTitleReadBack | lib/paper-processor.js:350-353 | the title extractor reads back the title of a written `[title](url)` link when the title is non-empty and has no `]` |
| RowRoundTrip.WordFilterDropsRow | lib/paper-processor.js:86 | a written row whose title contains `Paper` yields no key under the filter as written, and parsing it leaves the index unchanged, although the corrected filter reads its title back |
| RowRoundTrip.RowTitleRoundTrip | lib/paper-processor.js:86-106 | with the corrected filter, every written row gives back the normalised title of its paper |
| RowRoundTrip.LinkUrlReadBack | lib/paper-processor.js:340-343 | the URL extractor reads back the URL of a written `[title](http://arxiv.org/abs/<id>)` link when the title holds no arXiv URL and the id holds no `)` or `]` |
| RowRoundTrip.IdAtAbsUrl | lib/paper-processor.js:345-348 | the id extractor reads `<id>` back from `http://arxiv.org/abs/<id>` when the id is non-empty, on one line, and does not end in `.pdf` |
| RowRoundTrip.RowIdRoundTrip | lib/paper-processor.js:91-99 | with the corrected filter, a written row whose link is the abs URL of its paper's id gives back that id |
| RowRoundTrip.WrittenPaperIsDuplicate | lib/paper-processor.js:286-306 | once a paper's row is indexed, the same paper is a duplicate under any id |

## Left out

- Network, GitHub API and file I/O: the Octokit calls, `sleep`, `generatePRBody` (it reads the clock), `loadExistingPapers`, `processAndFilterPapers`, `processSinglePaper`, `searchR1Papers`, `performSearch`, and the orchestration in `index.js`. None of them computes anything the model's operations do not already cover.
- `parseEntry` XML handling: an `Entry` arrives already parsed, with optional fields. The mapping of the category and author shapes (a single object or an array) to lists is not modelled. `ArxivSearch.ParseEntry` copies categories and authors as given.
- The regular-expression engine. The model and dataset patterns, the GitHub and project-page patterns, the R1, model and exclusion patterns, and the two `## Papers` section regexes are all inputs: a `Matcher` predicate, `PatternMatches` lists or a `TableMatch` split. The model proves the caps, order, precedence and filtering applied to their results, not what a pattern matches.
- `enrichFromGitHub` is the three-way `ProbeOutcome`. The owner/repo pre-check, the timeout and the exceptions all become `Unknown`, which keeps the URL.
- `isValidUrl` relies on the WHATWG URL parser. It is a parameter of `Enrichment.ValidateProcessedPaper`.
- `formatDate` and `new Date(...)` parsing. Rows are ordered by comparing their date strings lexicographically. This agrees with the source for well-formed `YYYY-MM-DD` dates; a malformed date (a `NaN` comparison) is out of scope.
- Unicode: case mapping is ASCII-only, and strings are code-point sequences, not UTF-16. `String.length` counts in the 200-character title cap and the 50-character commit-subject cap therefore differ from the source on astral characters.
- Floating point: `calculateSimilarity` is an exact rational. On the `> 0.9` boundary a double could round differently.
- Logging, counters such as `paperCount`, and the `try`/`catch` around each line in `parseExistingPapers`. No modelled step can throw there.
- RowRoundTrip.RowIdRoundTrip: covers only rows whose link is `http://arxiv.org/abs/<id>`, whose id has no `)`, `]`, line break or final `.pdf`, and whose title holds no arXiv URL. Outside these, the id read back can differ from the paper's: a final `.pdf` is dropped, and a URL in the title is read first.
- CatalogIndex.ParseExistingPapers: states only the missing-section case and that the index only grows. The exact contents after parsing are stated by `CatalogIndex.ParseLinesCollects`.
- ReadmeTable.InsertPaperIntoReadme: the row block itself is stated by `ReadmeTable.InsertedRowsReadBack` and `ReadmeTable.MergedRowsFacts`, and only for a new paper whose fields have no line break.

## Findings

| source | as written | input that shows it | evidently intended | confidence | as-written member | corrected member |
|---|---|---|---|---|---|---|
| lib/paper-processor.js:86 | a table line is skipped when it contains the word `Paper` or `---` anywhere | a paper titled "PaperBench: R1 agents replicate papers": its own row is skipped when the index is rebuilt, so its id and title are never indexed and the same paper can be proposed again | skip only the header row (the line of column names) and the separator row, both of which have no link in their first cell and so yield no key anyway | not executed; medium | CatalogIndex.RowKeyAsWritten, RowRoundTrip.WordFilterDropsRow | CatalogIndex.RowKeyOf, RowRoundTrip.RowTitleRoundTrip |

The index the rest of the model uses (`CatalogIndex.ParseLines`, and so `CatalogIndex.ParseExistingPapers`) reads rows through the corrected `CatalogIndex.RowKeyOf`. `CatalogIndex.SkippedLineAddsNothing` shows that the header and separator rows still add nothing. `CatalogIndex.AsWrittenAgreesOnCandidates` shows that the correction changes nothing on lines the written filter accepts. The loop as written is `CatalogIndex.ParseLinesAsWritten`; `CatalogIndex.AsWrittenParseAgrees` shows that both loops build the same index when every line passes the written filter.
