# law-search: a verified model of the search engine

law-search is a small Flask service with a browser front end. It searches two
collections of Korean court decisions:

- the legacy collection, a JSON file of precedents grouped by statute, searched
  by `/search`;
- the criminal collection, a CSV file of recent criminal decisions, searched by
  `/criminal/search`.

Both searches use the same steps:

1. Each record is reduced to a list of strings. A keyword "matches" when it
   occurs after whitespace and zero-width characters are deleted from both sides.
2. Four query modes are evaluated: SINGLE, OR, AND and AND_OR. Exclusion terms
   and a statute filter (plus an article filter in the criminal search) are then
   applied.
3. A date key is extracted from every surviving record. The records are copied
   with the keywords wrapped in `<mark>`.
4. The results are sorted stably by the date key, oldest or newest first, and
   one page is cut out with a Python slice.

For the criminal collection, the service also builds a statute→article index
from the cited provisions (참조조문). It also rewrites that column for display,
grouping the articles of each statute.

In the browser (script.js), the keyword box is split into keywords. Results are
highlighted again with one combined regular expression, and page buttons are
drawn around the current page.

The model is split into these modules:

| module | file | what it covers |
|---|---|---|
| `Wrappers` | wrappers.dfy | `Option` and `Result` |
| `Text` | text.dfy | Python's whitespace class, `strip`, `split`, `join`, substring search, `int` of digits |
| `Matching` | matching.dfy | `strict_match`, `strip_zero_width_and_spaces`, `criminal_strict_match` |
| `Records` | records.dfy | JSON values, `get_all_strings`, CSV rows, `criminal_row_strings` |
| `Query` | query.dfy | the four query modes, exclusion, the statute selection, the statute/article filter |
| `Citation` | citation.dfy | the article token language and `parse_refs_to_law_and_article` |
| `LawIndex` | lawindex.dfy | the statute→article index that `load_criminal_csv` builds; `/criminal/articles` |
| `Grouping` | grouping.dfy | `group_reference_articles` |
| `Dates` | dates.dfy | the calendar, `parse_korean_date`, `extract_date_from_info` |
| `Elastic` | elastic.dfy | a hand-written matcher for the highlight patterns `k1\s*k2\s*…` (case-insensitive) |
| `Highlight` | highlight.dfy | `criminal_highlight_matches` and `highlight_matches` |
| `Sorting` | sorting.dfy | the stable latest/oldest sort on date keys |
| `Paging` | paging.dfy | Python slices, the page cut, the response, and list helpers |
| `CriminalHandler` | criminal.dfy | the body of `criminal_search` |
| `LegacyHandler` | legacy.dfy | the body of `search` |
| `Client` | client.dfy | the keyword list, `highlightText` and `createPagination` of script.js |

Regular expressions are replaced by hand-written matchers over `seq<char>`.
Dates are `(year, month, day)` triples, with the proleptic Gregorian validity
rule of `datetime`. `datetime.min` is `Dates.MinDate`.

The imperative code keeps its form:

- `get_all_strings`, the token scanner, the index fold, the grouping loops, both
  highlight loops, both handler loops and `createPagination` are methods with
  loops.
- Each of these methods is proved equal to a specification function.
- The properties are proved as lemmas about those functions.

Both Flask handlers are modelled as functions on the request body and the
loaded records:

- The legacy handler can raise, and then the request fails. It returns a
  `Result`.
- The criminal handler cannot fail on the modelled inputs. Every CSV value is a
  string, and the highlighter catches `re.error` (app.py:169-170). It returns a
  plain `Response`.

## Model

| member | source | states |
|---|---|---|
| Text.Trim | app.py:122 | `str.strip()`: the result starts and ends with non-whitespace (Python's `\s` set) and consists of characters of the input |
| Text.TrimPadded | app.py:104-105 | stripping whitespace around an already stripped text gives that text back |
| Text.SplitJoin | app.py:126 | `split` undoes `join`: splitting a separator-free list joined by the separator gives back the list |
| Text.JoinSplit | app.py:187 | joining the pieces of `split(sep)` with `sep` gives back the text |
| Text.ContainsIff | app.py:53 | the substring test `in` holds exactly when the needle occurs at some position |
| Matching.StrictMatch | app.py:50-53 | `strict_match`: the keyword, normalised, is a substring of the text, normalised; characterised by `SpacingInsensitive`, `LiteralOccurrenceMatches` and `EmptyKeywordDivergence` |
| Matching.CriminalStrictMatch | app.py:153-156 | `criminal_strict_match`: as `strict_match`, but a literally empty keyword never matches; a blank keyword such as `" "` matches every text, the empty one included; characterised by the same three lemmas |
| Matching.Normalize | app.py:149-151 | the normalised text holds no whitespace and no U+200B–U+200D/U+FEFF, and only characters of the input |
| Matching.NormalizeIdempotent | app.py:149-151 | normalising twice is normalising once |
| Matching.SpacingInsensitive | app.py:50-53 | inserting whitespace or zero-width characters into the keyword or the text does not change `strict_match` |
| Matching.LiteralOccurrenceMatches | app.py:50-53 | a keyword that occurs literally in the text matches, in both dialects (non-empty for the criminal one) |
| Matching.EmptyKeywordDivergence | app.py:153-156 | the empty keyword matches every text in `strict_match` and none in `criminal_strict_match`; a blank keyword `" "` matches everything in the criminal dialect |
| Records.GetAllStrings | app.py:35-47 | the recursive collection loop returns exactly `Leaves(v)`, the text leaves in document order |
| Records.EntryLeavesMember | app.py:37-39 | a string is collected from a dict exactly when it is collected from one of its values |
| Records.ItemLeavesMember | app.py:40-42 | a string is collected from a list exactly when it is collected from one of its items |
| Records.LeavesSound | app.py:35-47 | every collected string is the text of a string or scalar leaf reachable in the value |
| Records.LeavesComplete | app.py:35-47 | the text of every reachable string or scalar leaf is collected |
| Records.CriminalRowStrings | app.py:206-213 | five strings, the row's title, case number, decision date, cited provisions and holdings, "" when missing |
| Records.OtherColumnsIgnored | app.py:206-213 | extra columns do not change the five searchable strings |
| Query.Evaluate | app.py:256-279 | the keyword test of both searches in the four modes, for either match dialect; characterised by `EvaluateMeaning` and `AndOrNeedsTwo` |
| Query.Passes | app.py:252-282 | exclusion first, then the keyword test; characterised by `ExclusionWins` and `EmptyExcludeTerm` |
| Query.ReferenceFilter | app.py:371-378 | the statute/article filter on the cited provisions; characterised by `ReferenceFilterMeaning` |
| Query.AnyFieldIff | app.py:262 | the `any(... for s in strings)` loop holds exactly when the keyword matches some string |
| Query.AnyKeywordIff | app.py:265-269 | OR holds exactly when some keyword matches some string |
| Query.AllKeywordsIff | app.py:270-273 | AND holds exactly when every keyword matches some string, not necessarily the same one |
| Query.EvaluateMeaning | app.py:256-279 | no keywords match everything; SINGLE, OR, AND and AND_OR mean what their names say, AND_OR needs two keywords; an unknown mode matches nothing |
| Query.AndOrNeedsTwo | app.py:274-279 | AND_OR with one keyword never matches: it does not fall back to SINGLE |
| Query.ExclusionWins | app.py:253-254 | one matching exclusion term rejects the record whatever the keywords say |
| Query.EmptyExcludeTerm | app.py:253-254 | an empty exclusion term rejects every legacy record and no criminal record |
| Query.ReferenceFilterMeaning | app.py:371-378 | with a statute and an article selected the filter is the substring test for "statute article"; with no statute every row passes, whatever the article |
| Citation.IsArticleToken | app.py:87-90 | `is_article_token`, the whole-token match of `ARTICLE_RE`; characterised by `ArticleTokenLanguage`, `ParseRender` and `RenderParse` |
| Citation.LawAndArticle | app.py:92-106 | `parse_refs_to_law_and_article` as a function; characterised by `RefsPartition` and `FirstArticleIsFirst`, and computed by the method `ParseRefs` |
| Citation.ParseRender | app.py:87-90 | every well-formed article (`제N조`, optional `의N`, optional `-N`) is parsed back from its rendering |
| Citation.RenderParse | app.py:87-90 | every parsed token is well formed and renders back to itself |
| Citation.ArticleTokenLanguage | app.py:87-90 | `ARTICLE_RE` accepts exactly the renderings of well-formed articles |
| Citation.ArticleTokenExamples | app.py:87-90 | "제1조" and "제2조의2" are article tokens |
| Citation.StatuteNumberIsNotArticle | app.py:87-90 | "제17571호로" is not an article token |
| Citation.BlankDelimiters | app.py:94 | commas and parentheses become spaces, every other character is kept |
| Citation.Scan | app.py:96-103 | the two-state token loop puts exactly the tokens before the first article token in the statute part, and that token and all after it in the article part |
| Citation.ParseRefs | app.py:92-106 | the method computes `LawAndArticle(ref)` |
| Citation.FirstArticleIsFirst | app.py:97-103 | no token before the split point is an article token, and the token at it is one |
| Citation.RefsPartition | app.py:92-106 | the statute words followed by the article words are the tokens; the statute has no article token; a non-empty article starts with one |
| LawIndex.ParseAll | app.py:128-129 | every cited fragment is parsed into a (statute, article) pair, elementwise |
| LawIndex.ScanRow | app.py:126-135 | the row loop with `last_law` computes `RowPairs` |
| LawIndex.ScanFragment | app.py:129-135 | one step registers a pair only with a statute, inheriting the last one, and only with an article |
| LawIndex.PairsFrom | app.py:130-135 | every registered pair has a non-empty statute and a non-empty article |
| LawIndex.RowPairsMeaning | app.py:126-135 | a pair is registered for a row exactly when some fragment gives that article with that statute, or with no statute and that row's most recent statute |
| LawIndex.NoStatuteYet | app.py:130-135 | an article before any statute in its row registers nothing |
| LawIndex.CollectMeaning | app.py:120-135 | the collected map has a statute exactly when some row registers a pair for it, and an article under it exactly when that pair is registered |
| LawIndex.FirstIntOf | app.py:138-142 | the article sort key is the value of the first run of digits |
| LawIndex.FirstIntNone | app.py:139-140 | with no digit the key is 0 |
| LawIndex.ArticleOrderExamples | app.py:138-145 | "제2조" < "제2조의2" < "제10조", unlike plain string order |
| LawIndex.LessTransitive | app.py:138-145 | the article order is transitive (with `LessIrreflexive` and `LessTotal`, a strict total order) |
| LawIndex.SortSet | app.py:144-147 | `sorted` of a set: ascending without duplicates, and exactly the set's elements |
| LawIndex.AscendingUnique | app.py:144-147 | there is only one ascending list of given elements |
| LawIndex.BuildIndex | app.py:120-147 | the fold builds an index whose statutes are the sorted registered statutes and whose articles are each statute's registered articles, sorted |
| LawIndex.IndexMeaning | app.py:120-147 | a statute is listed exactly when a pair registers it; an article is indexed under it exactly when that pair is registered |
| LawIndex.ArticlesFor | app.py:322-327 | the `/criminal/articles` lookup; characterised by `ArticlesForMeaning` |
| LawIndex.ArticlesForMeaning | app.py:322-327 | `/criminal/articles` returns the sorted articles of the stripped statute; an empty or unknown statute gives `[]` |
| Grouping.Grouped | app.py:184-204 | `group_reference_articles` as a function; characterised by `GroupedEmpty`, `GroupKeys`, `GroupValues`, `GroupKeepsFragments`, `CellOfStatute` and the examples, and computed by the method `GroupReferenceArticles` |
| Grouping.GroupReferenceArticles | app.py:184-204 | the method computes `Grouped(text)` |
| Grouping.CollectGroups | app.py:188-195 | the loop builds the same buckets as `GroupAll`, via `setdefault(...).append` |
| Grouping.RenderGroups | app.py:196-204 | the loop emits the same cells as `Cells` |
| Grouping.GroupedEmpty | app.py:185-186 | the empty text gives "" |
| Grouping.GroupKeys | app.py:188-204 | groups come out in the order each statute first appears, once each |
| Grouping.FirstAppearancesDistinct | app.py:188-197 | the group keys are distinct and are exactly the statutes that appear |
| Grouping.GroupValues | app.py:189-195 | each group holds the articles of its statute, in input order, across the whole text, not only consecutive runs |
| Grouping.GroupKeepsFragments | app.py:189-204 | every article fragment ends up in exactly one group |
| Grouping.CellOfStatute | app.py:200-203 | a statute's cell is the statute, a space, then its articles joined by ", " |
| Grouping.UnfiledFragmentUnchanged | app.py:194-199 | a fragment with no statute before its first article is emitted unchanged |
| Grouping.StatuteFragment | app.py:190-193 | "statute 제N조…" is split into the statute and the article text, for every stripped statute in which no `제` is followed by a digit (a `제` inside a word such as 특정경제범죄 is allowed) |
| Grouping.StatuteWithJeExample | app.py:190-193 | "특정경제범죄 가중처벌 등에 관한 법률 제3조" is split after the statute, not at the `제` inside 특정경제범죄 |
| Grouping.MergeExample | app.py:184-204 | "형법 제1조", "민법 제2조", "형법 제3조" become "형법 제1조, 제3조, 민법 제2조" |
| Dates.MakeDate | app.py:178-181 | `datetime(y, m, d)` guarded by `except ValueError`: always a valid date |
| Dates.MakeDateMeaning | app.py:74-77 | the date is kept exactly when it is a valid calendar date, otherwise it is `datetime.min` |
| Dates.CalendarExamples | app.py:74-77 | month 13, 2023-02-29, 1900-02-29, 2023-04-31 and year 0 fall back; 2024-02-29 and 2000-02-29 are kept |
| Dates.BeforeIsStrictTotal | app.py:297-300 | date order is irreflexive, transitive and total |
| Dates.MinDateIsEarliest | app.py:73 | the fallback comes before every other valid date |
| Dates.ParseKoreanDate | app.py:173-181 | `parse_korean_date` as a function; characterised by `ParseKoreanDateOf`, `ParseKoreanDateSound`, `NoDigitNoDate`, `RenderParse` and the examples |
| Dates.SearchNone | app.py:175-177 | `re.search` finds nothing exactly when the pattern matches at no position |
| Dates.SearchLeftmost | app.py:175 | what `re.search` finds is the match at a position before which the pattern matches nowhere |
| Dates.DateHeadSound | app.py:175 | a match of `(\d{4})\.\s*(\d{1,2})\.\s*(\d{1,2})` is four digits, a dot, whitespace, one or two digits, a dot, whitespace, one or two digits; the groups are those digits and the date is `datetime` of their values |
| Dates.ParseKoreanDateOf | app.py:173-181 | when the stripped text is any prefix with no match in it followed by `YYYY.` whitespace `M.` whitespace `D` (a one-digit day not followed by a digit), the key is that calendar date (or the fallback) |
| Dates.ParseKoreanDateSound | app.py:173-181 | with no match in the stripped text the key is `datetime.min`; any other key is the date of the leftmost match |
| Dates.NoDigitNoDate | app.py:175-177 | a text with no digit gives `datetime.min` |
| Dates.RenderParse | app.py:173-181 | every valid date is read back from its rendering "YYYY. M. D.": a four-digit year, a dot and a space, the month unpadded, a dot and a space, the day unpadded, and a final dot |
| Dates.ParseInvalidExample | app.py:178-181 | "2023. 2. 30." gives `datetime.min` |
| Dates.ParseCompactExample | app.py:175 | "2023.12.5" gives 2023-12-05 |
| Dates.ParseAfterInstanceExample | app.py:175 | "제1심 2023. 5. 12." gives 2023-05-12: the digit of 제1심 does not start a match |
| Dates.ExtractDateFromInfo | app.py:69-77 | `extract_date_from_info` as a function; characterised by `ExtractDateOf`, `ExtractDateSound`, `NoCourtNoDate`, `ExtractIgnoresZeroWidth` and the examples |
| Dates.ExtractDateOf | app.py:69-77 | when the text without zero-width characters is any prefix with no match in it followed by a court label "대법원" or "헌법재판소", whitespace, the date, an optional dot, whitespace and "선고", the key is that date (or the fallback) |
| Dates.CourtDateSound | app.py:71 | a match of the court pattern is a court label, whitespace, and a date match followed by the `선고` tail |
| Dates.DeclaredSound | app.py:71 | the tail `\.?\s*선고` is an optional dot, whitespace and "선고" |
| Dates.ExtractDateSound | app.py:69-77 | with no match in the text without zero-width characters the key is `datetime.min`; any other key is the date of the leftmost match |
| Dates.ExtractIgnoresZeroWidth | app.py:70 | zero-width characters anywhere are ignored |
| Dates.NoCourtNoDate | app.py:70-73 | when the text without zero-width characters contains neither "대법원" nor "헌법재판소", the key is `datetime.min` |
| Dates.ExtractAfterMentionExample | app.py:70-77 | "헌법 위반, 대법원 2023. 5. 12. 선고" gives 2023-05-12: the 헌법 of the mention does not start a match |
| Dates.LowerCourtExample | app.py:71-73 | "대구지방법원 2023. 5. 12. 선고" gives `datetime.min`: only the two named courts count |
| Elastic.MatchLen | app.py:165-168 | a match is a non-empty prefix of the text |
| Elastic.MatchSound | app.py:165-168 | a match found is a loose occurrence: the keyword's letters, case-insensitively, with whitespace runs between them |
| Elastic.MatchComplete | app.py:165-168 | if a prefix is a loose occurrence, a match is found |
| Elastic.LiteralLoose | app.py:165-168 | the keyword itself is a loose occurrence of itself |
| Highlight.HighlightAll | app.py:158-171 | `criminal_highlight_matches` as a function; characterised by `SubKeepsText`, `SubMarksLoose`, `SubPlainMeansNoMatch`, `SubWithoutOccurrence` and `NestedMarks`, and computed by the method `CriminalHighlightMatches` |
| Highlight.LegacyHighlight | app.py:56-66 | `highlight_matches` as a function returning a `Result`; characterised by `LegacyErrIff` and `LegacyAgrees`, and computed by the method `HighlightMatches` |
| Highlight.CriminalHighlightMatches | app.py:158-171 | the keyword loop computes `HighlightAll`; empty keywords are skipped and no keywords leave the text unchanged |
| Highlight.HighlightMatches | app.py:56-66 | the keyword loop computes `LegacyHighlight`, which fails on a keyword of at most one character |
| Highlight.SubKeepsText | app.py:166-168 | removing the markers from one substitution gives back the text |
| Highlight.SubMarksLoose | app.py:166-168 | every marked piece is a loose occurrence of the keyword |
| Highlight.SubPlainMeansNoMatch | app.py:166-168 | where a character is left unmarked, no occurrence starts there |
| Highlight.SubWithoutOccurrence | app.py:166-168 | a text with no occurrence is left unchanged |
| Highlight.SubOfKeyword | app.py:166-168 | the keyword alone is wrapped whole: `<mark>kw</mark>` |
| Highlight.LegacyErrIff | app.py:61-65 | `highlight_matches` raises exactly when some keyword has at most one character |
| Highlight.LegacyAgrees | app.py:56-66 | with every keyword at least two characters long, the two highlighters agree |
| Highlight.OneCharacterKeyword | app.py:63-65 | for the one-character keyword `c` the legacy highlighter fails, while the criminal one marks `c` |
| Highlight.NestedMarks | app.py:162-168 | keyword after keyword, a later keyword is marked inside an earlier mark: `<mark>a<mark>b</mark></mark>` |
| Sorting.Order | app.py:297-300 | the `sort_by` dispatch; characterised by `OrderMeaning`, `SortPermutes`, `SortOrders` and `SortStable` |
| Sorting.SortPermutes | app.py:297-300 | the sort is a permutation |
| Sorting.SortOrders | app.py:297-300 | the sort orders by date, newest or oldest first |
| Sorting.SortStable | app.py:297-300 | results with the same date keep their order, also newest first |
| Sorting.OrderMeaning | app.py:393-396 | "latest" and "oldest" order stably and keep the results; any other value keeps the input order |
| Paging.SliceBound | app.py:306-308 | a slice bound counts negative values from the end and is clamped to the list |
| Paging.Paginate | app.py:305-308 | the page cut `results[start:end]`; characterised by `PaginateMeaning` and `PageBelowOne` |
| Paging.PaginateMeaning | app.py:305-308 | from page 1 on, a page is `[(page-1)·size, page·size)` clamped to the results, at most `size` long and empty past the end |
| Paging.PageBelowOne | app.py:306-308 | page 0 is empty, but page -1 counts from the end, as Python slices do |
| Client.PagesOfButtons | script.js:397-398 | every page the buttons offer holds at least one result; the one after the last holds none |
| Paging.Strip | app.py:302-303 | dropping the sort keys keeps the results, elementwise |
| Paging.RespondMeaning | app.py:305-315 | `total` counts every collected result before paging; each result on the page is one of them |
| Paging.MapAllMeaning | app.py:281-290 | collecting succeeds exactly when every element succeeds, and then holds each element's value in order |
| Paging.FilterMeaning | app.py:245-290 | the filter keeps exactly the admitted elements of the input |
| CriminalHandler.ShowRow | app.py:382-390 | the column loop groups the cited provisions, highlights every value and drops `_sort_date` |
| CriminalHandler.Search | app.py:330-404 | the handler computes `Answer`: filter, key, highlight, sort and page |
| CriminalHandler.ShownRowColumns | app.py:382-399 | the shown row has no `_sort_date` column, has the other columns of the row, and shows each value grouped (cited provisions only) and highlighted |
| CriminalHandler.Answer | app.py:341-404 | the body of `criminal_search` as a function; characterised by `AnswerMeaning` and `OnePageInFileOrder`, and computed by the method `Search` |
| CriminalHandler.AnswerMeaning | app.py:341-404 | `total` counts the rows passing the keyword, exclusion and statute filters; each result is the shown form of such a row |
| CriminalHandler.OnePageInFileOrder | app.py:393-404 | unsorted, on a first page large enough, the answer is every surviving row in file order |
| LegacyHandler.ShowCase | app.py:285-303 | the dict comprehension highlights top-level string values, fails as `highlight_matches` fails, and drops `_sort_date` |
| LegacyHandler.Search | app.py:232-316 | the nested loop computes `Answer`, stopping at the first error |
| LegacyHandler.CollectCases | app.py:248-290 | one statute's precedents are collected on top of those already seen, stopping at the first error |
| LegacyHandler.UnselectedStatute | app.py:245-247 | a statute outside the selection contributes nothing |
| LegacyHandler.PairsMembers | app.py:245-248 | the precedents visited are exactly those of the file, each with its statute name |
| LegacyHandler.ShownCaseErr | app.py:285-288 | highlighting a precedent fails exactly when it has a string value and some keyword has at most one character |
| LegacyHandler.ShownCaseAgrees | app.py:285-288 | with keywords of two or more characters, the precedent is shown entry by entry as the criminal highlighter would show it, without `_sort_date` |
| LegacyHandler.Answer | app.py:245-315 | the body of `search` as a function returning a `Result`; characterised by `AnswerErr`, `AnswerMeaning` and `OneCharacterQueryFails`, and computed by the method `Search` |
| LegacyHandler.AnswerErr | app.py:281-290 | the request fails exactly when a surviving precedent has a non-string "판례 정보" or cannot be highlighted |
| LegacyHandler.OneCharacterQueryFails | app.py:281-288 | a one-character keyword fails every request in which a precedent passing the filters has a top-level string value |
| LegacyHandler.AnswerMeaning | app.py:301-315 | a successful answer counts the surviving precedents; each result is the highlighted copy of one of them |
| Client.JsTrimMeaning | script.js:158 | `trim()` gives a trimmed slice of the input, and is the identity on trimmed text |
| Client.ParseKeywords | script.js:156-159 | `split(",").map(trim).filter(Boolean)`; characterised by `ParseKeywordsProper` and `ParseKeywordsJoin` |
| Client.ParseKeywordsProper | script.js:156-159 | no keyword is empty, has leading or trailing whitespace, or contains a comma |
| Client.ParseKeywordsJoin | script.js:156-159 | parsing a comma-joined list of proper keywords gives the list back |
| Client.FirstAltMeaning | script.js:374-380 | the alternation matches exactly when some keyword matches, and then with the earliest-listed matching keyword |
| Client.AltPiecesKeepText | script.js:383-386 | removing the markers gives back the text |
| Client.AltPiecesMarkLoose | script.js:383-386 | every marked piece is a loose occurrence of some keyword |
| Client.HighlightText | script.js:366-386 | the one-pass highlighter; characterised by `HighlightTextMeaning`, `AltPiecesKeepText`, `AltPiecesMarkLoose` and `MarksOnce` |
| Client.HighlightTextMeaning | script.js:366-386 | no keywords or an empty text leave the text unchanged; otherwise one pass marks the alternation's matches |
| Client.MarksOnce | script.js:369-386 | in one pass, markers never nest: keywords "ab" and "b" mark "ab" once |
| Client.CorrectedDecodes | script.js:373-376 | escaping each character before joining with `\s*` gives a pattern that reads back as that keyword's characters |
| Client.DotAsWritten | script.js:373-376 | for "a.b" the code as written builds `a\s*\\s*.\s*b`: whitespace, a literal backslash, `s*`, then a wildcard, which does not read back as "a.b" |
| Client.AsWrittenSameWithoutSpecials | script.js:373-376 | for keywords without regex-special characters the code as written builds the intended pattern |
| Client.OpenParenAsWritten | script.js:373-376 | for "(" the code as written builds `\\s*(`: an escaped backslash and an unclosed group, which does not read back as "(" |
| Client.TotalPages | script.js:397 | `Math.ceil(total / pageSize)`; characterised by `TotalPagesMeaning` and `PagesOfButtons` |
| Client.TotalPagesMeaning | script.js:397 | `ceil(total / pageSize)`: enough pages for every result and no empty last page; zero pages exactly when there is nothing |
| Client.Window | script.js:414-417 | the window of page numbers around the current page; characterised by `WindowMeaning` and `NumberButtons` |
| Client.WindowMeaning | script.js:414-417 | for 1 ≤ page ≤ totalPages: 1 ≤ start ≤ page ≤ end ≤ totalPages, and the window holds min(5, totalPages) pages |
| Client.CreatePagination | script.js:388-429 | no buttons when totalPages ≤ 1; otherwise "<<" and "<" disabled exactly on page 1, the numbered window with the current page active, ">" and ">>" disabled exactly on the last page |
| Client.NumberButtons | script.js:419-423 | one button per page of the window, in order, the current one active |

## Left out

- Flask plumbing is not modelled: routes, `request.get_json`, `jsonify`, `render_template`. A handler body is a function of the request body's fields and the loaded records.
- Values outside the model's types are not modelled: a `page` or `pageSize` that `int()` cannot parse, keywords that are not strings, and JSON `null` in place of a list.
- Data loading is not modelled: the JSON and CSV reading, `os.path`, `sys.exit`, the startup prints and the debug prints of matched keywords. These are file I/O and logging.
- `csv.DictReader`'s `None` key for surplus cells is not modelled, and a row is modelled as its columns with stripped values.
- The duplicate-key rules of a Python dict are not modelled: a precedent and a row are sequences of entries whose names are assumed distinct.
- The regular-expression engine and `datetime` are not modelled. Each pattern the core uses is a hand-written matcher.
  - `\d` and case-insensitive matching are restricted to ASCII.
  - `\s` is Python's whitespace set, or the JavaScript one in script.js.
- JavaScript strings are UTF-16, but the model splits keywords by code point.
- In-place sorting is modelled as a value: `list.sort` becomes the function `Sorting.Order`, which the handler methods call.
- In-place `pop` is modelled the same way: `pop("_sort_date")` becomes the dropping of that key.
- Client.HighlightText: models the single-pass highlighter with each keyword character escaped separately. This is the pattern `CorrectedAlternative` builds. The pattern the code builds as written differs from it only for keywords with regex-special characters (see Findings).
- Client.HighlightText: requires non-empty keywords, which the keyword parsing guarantees (`Client.ParseKeywordsProper`).
- Client.HighlightText: does not model `String(text)` of a non-string value.
- Client.CreatePagination: requires `pageSize` ≥ 1. Every caller in script.js passes 10 or 20.
- Client.CreatePagination: drawing buttons and `onclick` handlers is DOM work, so the model returns the list of buttons instead.
- Everything else in script.js (navigation, login, bookmarks, result rendering, fetch) is DOM and network code and is not modelled. static/script.js is not part of this model.
- Reloading the global tables (`global` in `load_criminal_csv`) is not modelled. The index is a value produced by a fold.

## Findings

| source | as written | input that shows it | evidently intended | confidence | as-written member | corrected member |
|---|---|---|---|---|---|---|
| app.py:62-65 | for a keyword of at most one character the pattern has no group, but the replacement still refers to group 1, so `re.sub` raises, and `/search` fails as soon as a precedent that passes the statute, exclusion and keyword filters has a top-level string value | request `{mode: "SINGLE", keywords: ["a"]}` on data `{"형법": [{"제목": "a"}]}` | wrap the match in `<mark>` like the criminal highlighter, which always builds a group | not executed | Highlight.LegacyHighlight, with Highlight.OneCharacterKeyword and LegacyHandler.OneCharacterQueryFails | Highlight.HighlightAll, with Highlight.LegacyAgrees and LegacyHandler.ShownCaseAgrees |
| script.js:373-376 | the keyword is escaped first and then split into characters, so an escape's backslash is separated from the character it escapes | keyword "(" gives the source `\\s*(`, an unclosed group (the `RegExp` constructor throws); "a.b" gives `a\s*\\s*.\s*b`, which asks for a literal backslash before a wildcard, so the keyword never marks the text "a.b" | escape each character after splitting | not executed | Client.AsWrittenAlternative, with Client.OpenParenAsWritten and Client.DotAsWritten | Client.CorrectedAlternative, with Client.CorrectedDecodes |
