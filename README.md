# ElsevierAPI sequential helpers in Dafny

This project models and proves the small sequential helpers around the
ElsevierAPI clients:

- **`utils.py` collection and string utilities.**
  - The balanced chunk partitioner `list2chunks_generator`.
  - The first-true binary search `bisect`.
  - Order-preserving `remove_duplicates` and `unpack`.
  - `normalize_filename`, the Greek-letter transliteration `greek2english`, `sortdict`, `list2str`, `most_frequent` and `match_tokens`.
  - The POSIX path helpers `path2folderlist` and `fname`.
- **Response decoders of the CM2 and QPE annotation clients.**
  - `_bodyCpToIdMap`.
  - The `_createConcept*` builders, with their two-pass stable sort of `sty_info`.
- **Ngram helpers of `EmbaseSearchAPI.py`.**
  - The in-place counter of `count_tuple`/`count_tuples`.
  - Substring and dictionary-word tests, ngram merging, `mention_substrings` and `mention_dic_word`.
  - The per-line rule of `load_medscan_dic`, applied to a sequence of lines.
- **Other helpers.**
  - The offset merge of `SodaMatcher.concept_list_with_offsets`, with the SoDA response as a parameter.
  - `get_annotator_input` and the default URL choice of `run_annotation.py`.
  - `rank_cells` of `CellIndications.py`.

Files, one module each:

- **Shared modules.**
  - `wrappers.dfy`: `Option` and `Result`. A Python exception becomes `Failure` with the exception's name.
  - `json.dfy`: decoded JSON values, `dict.get` and Python truthiness.
  - `strings.dfy`: `split`, `join`, `strip`, `lower`, `replace` and `in` on strings.
  - `sorting.dfy`: Python's stable `sorted` with `key` and `reverse`, over keys ordered lexicographically.
  - `styinfo.dfy`: the `sty_info` entries and their sort, used by both `_createConcept` builders.
- **One module per source file.** `utils.dfy`, `cm2access.dfy`, `qpeaccess.dfy`, `embase.dfy`, `sodamatch.dfy`, `runannotation.dfy` and `cellindications.dfy`.

Conventions:

- **Failures.**
  - A missing key, a wrong JSON type inside a response or a failed tuple unpacking is a `Failure`, not a precondition. The response itself is a JSON object by type (see Left out).
  - A plain function models pure code. A loop in the source becomes a `method` with loop invariants, proved against a specification function.
- **Imperative code.**
  - The `counter` dictionary that `count_tuple` updates is the field of a class.
  - The list of concept dictionaries that `concept_list_with_offsets` updates in place is an array.
- **Sort keys.** A key is a sequence of integers: code points for strings, `[0]`/`[1]` for booleans (`False < True`). Python orders `str` by code points, so lexicographic order on keys is Python's order.

## Model

| member | source | states |
|---|---|---|
| Utils.ListToChunks | ElsevierAPI/utils/utils.py:421-449 | fails exactly when neither `chunk_size` nor a positive `num_chunks` is given; an empty list yields nothing; otherwise yields `min(n, L)` pairs numbered 0, 1, 2, … whose chunks are the balanced partition |
| Utils.YieldChunks | ElsevierAPI/utils/utils.py:437-449 | the loop yields chunk i as pair `(i, Balanced(input, n)[i])` for every i below `min(n, L)`; the `continue` branch is shown unreachable |
| Utils.Balanced | ElsevierAPI/utils/utils.py:437-446 | the balanced partition has `min(n, L)` chunks |
| Utils.BalancedConcat | ElsevierAPI/utils/utils.py:437-449 | concatenating the chunks in order gives back the input exactly |
| Utils.BalancedSizes | ElsevierAPI/utils/utils.py:437-441 | chunk i has size `L//n + 1` when `i < L%n` and `L//n` otherwise; no chunk is empty and sizes never grow along the list nor differ by more than one |
| Utils.ChunkSizeBound | ElsevierAPI/utils/utils.py:427-428 | with `chunk_size` c the chunk count is `ceil(L/c)` and every chunk has at most c elements |
| Utils.Bisect | ElsevierAPI/utils/utils.py:452-473 | a result r ≥ 0 satisfies the criterion and its left neighbour does not; -1 means empty or the last element fails; on a monotone criterion, -1 iff no element satisfies it, and r is the smallest true index |
| Utils.DedupProperties | ElsevierAPI/utils/utils.py:161-166 | the deduplicated list has the same members as the input, no repeats, and lists them in first-occurrence order |
| Utils.RemoveDuplicates | ElsevierAPI/utils/utils.py:161-166 | the loop with its `seen` set computes the deduplicated list |
| Utils.ConcatMembers | ElsevierAPI/utils/utils.py:173 | an element is in the flattened list iff it is in one of the lists |
| Utils.Unpack | ElsevierAPI/utils/utils.py:169-173 | every element of the result comes from one of the lists and every element of the lists is in the result; with `make_unique` nothing repeats |
| Utils.UnpackProperties | ElsevierAPI/utils/utils.py:169-173 | both modes keep exactly the elements of the lists; without `make_unique` the length is that of the concatenation; with it there are no repeats and elements come in first-occurrence order of the concatenation |
| Utils.NormalizeFilename | ElsevierAPI/utils/utils.py:133-138 | length is preserved, `:` becomes `_`, `<>` `|` `/` become `-`, every other character is kept, and no illegal character remains |
| Utils.NormalizeFilenameIdempotent | ElsevierAPI/utils/utils.py:133-138 | normalizing twice equals normalizing once |
| Utils.GreekKey | ElsevierAPI/utils/utils.py:228-277 | every key of the table is a Greek-block letter and every replacement is a non-empty string of ASCII letters `A`–`Z`, `a`–`z` |
| Utils.Transliterate | ElsevierAPI/utils/utils.py:280-281 | a table letter becomes its table entry, a non-empty run of ASCII letters; any other character stays as it is |
| Utils.Greek2English | ElsevierAPI/utils/utils.py:279-281 | the output holds no character of the table |
| Utils.Greek2EnglishPerChar | ElsevierAPI/utils/utils.py:279-281 | the output is the concatenation, in order, of each input character's replacement |
| Utils.Greek2EnglishConcat | ElsevierAPI/utils/utils.py:279-281 | the substitution works character by character: transliterating `a + b` is transliterating a, then b |
| Utils.Greek2EnglishNoGreek | ElsevierAPI/utils/utils.py:279-281 | text without table letters is unchanged |
| Utils.Greek2EnglishIdempotent | ElsevierAPI/utils/utils.py:279-281 | transliterating twice equals transliterating once |
| Utils.TakeTop | ElsevierAPI/utils/utils.py:218 | Python's `[:top]` slice gives a prefix: `min(top, n)` elements for top ≥ 0, and `n + top` (or none) for negative top |
| Utils.SortDict | ElsevierAPI/utils/utils.py:215-218 | never more items than the input; with `return_top` 0 exactly the input items, rearranged |
| Utils.SortDictOrdered | ElsevierAPI/utils/utils.py:215-218 | the items come out sorted by key or by value in the requested direction; with `return_top` 0 they are a permutation of the input, otherwise as many as the slice keeps, all taken from the input |
| Utils.SortDictTop | ElsevierAPI/utils/utils.py:217-218 | no dropped item precedes a kept one in the sort order |
| Utils.SortDictStable | ElsevierAPI/utils/utils.py:217 | items with equal sort keys keep their input order |
| Utils.List2Str | ElsevierAPI/utils/utils.py:221-225 | the result has exactly the keys of the input |
| Utils.List2StrRoundTrip | ElsevierAPI/utils/utils.py:221-225 | splitting a value on `;` gives back the list when no element holds `;`, and joining the split gives back the value |
| Utils.FirstMostCommon | ElsevierAPI/utils/utils.py:514-516 | among candidates in first-seen order, the chosen one has the largest count and is the first with that count |
| Utils.MostCommonChoice | ElsevierAPI/utils/utils.py:514-516 | the value chosen occurs in the data, no value occurs more often, and of the values tied with it, it is the one seen first |
| Utils.MostFrequent | ElsevierAPI/utils/utils.py:507-516 | `None` iff the list is empty; otherwise a member of the list with the highest count, the first-seen one among ties |
| Utils.MatchTokensAsWritten | ElsevierAPI/utils/utils.py:309-316 | as written: lists of different lengths do not match; the call raises exactly when both lists have one token; a match needs equal lengths and all tokens of the first list equal |
| Utils.MatchTokensAsWrittenRejectsEqual | ElsevierAPI/utils/utils.py:309-316 | as written, the equal lists `["a","b"]` do not match and `["a"]` against itself raises `IndexError` |
| Utils.MatchTokens | ElsevierAPI/utils/utils.py:309-316 | the corrected comparison is true iff the two token lists are equal |
| Utils.PathSplit | ElsevierAPI/utils/utils.py:126 | `os.path.split` gives a head that is a prefix of the path and a tail without `/`; when the head is the whole path the tail is empty |
| Utils.PathSplitValue | ElsevierAPI/utils/utils.py:126 | the tail is the longest `/`-free suffix; the head is the text before it, kept whole when it is only slashes (or empty) and otherwise with its trailing slashes removed |
| Utils.PathSplitNames | ElsevierAPI/utils/utils.py:126 | `abc` splits into `''` and `abc`, `/a` into `/` and `a` |
| Utils.PathSplitDoubleSlash | ElsevierAPI/utils/utils.py:126 | `a//b` splits into `a` and `b` |
| Utils.PathSplitTrailingSlash | ElsevierAPI/utils/utils.py:126 | `a/b/` splits into `a/b` and `''` |
| Utils.Walk | ElsevierAPI/utils/utils.py:125-129 | where the walk ends, it lists only folder names without `/` and never `first_folder` |
| Utils.WalkMissingFolder | ElsevierAPI/utils/utils.py:125-129 | as written, `/a/b` with a `first_folder` of `x` never ends: the walk reaches `/`, which splits into `/` and `''` forever |
| Utils.WalkToRootFolders | ElsevierAPI/utils/utils.py:118-130 | the corrected walk lists only folder names without `/` and never `first_folder` |
| Utils.WalkToRootAgrees | ElsevierAPI/utils/utils.py:118-130 | wherever the source's walk ends, the corrected walk gives the same folders |
| Utils.WalkToRootMissingFolder | ElsevierAPI/utils/utils.py:118-130 | the corrected walk lists both folders of `/a/b` for a missing `x` |
| Utils.Path2FolderListToRoot | ElsevierAPI/utils/utils.py:118-130 | the corrected loop, stopping also at the root, returns the corrected walk |
| Utils.Path2FolderList | ElsevierAPI/utils/utils.py:118-130 | the loop that strips tails and inserts them at the front returns the folders below `first_folder`, in path order |
| Utils.WalkExtend | ElsevierAPI/utils/utils.py:125-129 | appending folders to a path appends them to the folder list |
| Utils.WalkAbsolute | ElsevierAPI/utils/utils.py:118-130 | for an absolute path `/c1/…/cn` and `first_folder` left empty the result is `[c1, …, cn]` |
| Utils.WalkRelative | ElsevierAPI/utils/utils.py:118-130 | for a relative path `c0/c1/…/cn` and `first_folder` left empty the result is `[c0, …, cn]` |
| Utils.WalkToFolder | ElsevierAPI/utils/utils.py:118-130 | for a path `…/first/c1/…/cn` the result is `[c1, …, cn]`; `first` itself is not listed |
| Utils.Basename | ElsevierAPI/utils/utils.py:87 | `os.path.basename` is the suffix after the last `/`: it holds no `/`, and it is the whole path or is preceded by a `/` |
| Utils.SplitExtRoot | ElsevierAPI/utils/utils.py:87 | `splitext(b)[0]` is a prefix of b; it is shorter exactly when b has a `.` not preceded only by dots, and then a `.` follows it and no later `.` occurs |
| Utils.LastDot | ElsevierAPI/utils/utils.py:87 | the index found is the last `.` of the string; none means no `.` at all |
| Utils.Fname | ElsevierAPI/utils/utils.py:83-87 | the name is a prefix of the base name without `/`; it is shorter exactly when the base name has a `.` not preceded only by dots, and then what was cut is the last extension |
| Strings.Split | api/hGraphAPI/cm2access/CM2Access.py:123 | `str.split(sep)` yields at least one piece and no piece contains the separator |
| Strings.JoinSplit | ElsevierAPI/api/hGraphAPI/cm2access/QPEAccess.py:74-76 | joining the pieces with the separator gives back the string |
| Strings.SplitJoin | ElsevierAPI/api/hGraphAPI/cm2access/QPEAccess.py:74-76 | splitting a join of separator-free pieces gives back the pieces |
| Strings.SplitMaxCount | api/hGraphAPI/cm2access/run_annotation.py:55 | `split(sep, maxsplit)` yields one more piece than there are separators, capped at `maxsplit + 1` |
| Strings.SplitMaxOneSep | api/hGraphAPI/cm2access/run_annotation.py:55 | with exactly one separator, two pieces come back, split at that separator |
| Strings.ReplaceChar | api/hGraphAPI/cm2access/run_annotation.py:56 | `replace` on one character keeps length and rewrites exactly the occurrences |
| Strings.ReplaceCharAbsent | api/hGraphAPI/cm2access/run_annotation.py:56 | replacing a character that does not occur changes nothing |
| Strings.LStripSpaces | api/hGraphAPI/cm2access/run_annotation.py:55 | `lstrip()` removes only whitespace |
| Strings.RStripSpaces | api/hGraphAPI/cm2access/run_annotation.py:55 | `rstrip()` removes only whitespace |
| Strings.StripShape | api/hGraphAPI/cm2access/run_annotation.py:55 | `strip()` returns the middle segment of its input: what it cuts off at each end is whitespace, and the segment starts and ends with non-whitespace or is empty |
| Strings.StripIdempotent | api/hGraphAPI/cm2access/run_annotation.py:55 | stripping twice gives what stripping once gives |
| Strings.WsSplitPieces | api/hGraphAPI/cm2access/CM2Access.py:123 | `split()` yields non-empty pieces without whitespace |
| Strings.WsSplitEmpty | api/hGraphAPI/cm2access/CM2Access.py:123 | `split()` gives no piece exactly when the string is all whitespace |
| Strings.WsSplitLStrip | api/hGraphAPI/cm2access/CM2Access.py:123 | leading whitespace does not change `split()` |
| Strings.WsSplitWordSpace | api/hGraphAPI/cm2access/CM2Access.py:123 | a word followed by whitespace is the first piece, and the rest of `split()` is the split of what follows |
| Strings.WsSplitJoin | api/hGraphAPI/cm2access/CM2Access.py:123 | `split()` of words joined by single spaces gives back the words |
| Strings.Lower | api/EmbaseAPI/EmbaseSearchAPI.py:270 | `lower()` keeps length and lower-cases each character |
| Strings.LowerIdempotent | api/EmbaseAPI/EmbaseSearchAPI.py:277 | lower-casing twice equals lower-casing once |
| Strings.IsSubstring | api/EmbaseAPI/EmbaseSearchAPI.py:271 | `needle in hay` iff needle occurs at some position of hay |
| Sorting.SortBy | api/hGraphAPI/cm2access/CM2Access.py:91-92 | `sorted` returns a permutation of its input |
| Sorting.SortBySorted | api/hGraphAPI/cm2access/CM2Access.py:91-92 | `sorted` output is ordered by the key, descending when `reverse` |
| Sorting.SortByStable | api/hGraphAPI/cm2access/CM2Access.py:91-92 | elements with equal keys keep their input order |
| Sorting.SortByThenBy | api/hGraphAPI/cm2access/CM2Access.py:91-94 | sorting an already name-sorted list by a second key gives a list ordered by the second key, then by name |
| Sorting.Insert | api/hGraphAPI/cm2access/CM2Access.py:91-92 | one insertion step adds exactly the new element to the multiset |
| Sorting.LexTotal | api/hGraphAPI/cm2access/CM2Access.py:91-92 | the key order is total |
| Sorting.LexTransitive | api/hGraphAPI/cm2access/CM2Access.py:91-92 | the key order is transitive |
| Sorting.StrKeyInjective | api/hGraphAPI/cm2access/CM2Access.py:91-92 | distinct names have distinct keys |
| Json.Get | api/hGraphAPI/cm2access/CM2Access.py:74-82 | `dict.get(key, default)` gives the stored value or the default |
| Json.Or | ElsevierAPI/api/hGraphAPI/cm2access/QPEAccess.py:120-121 | `a or b` gives a when truthy, else b |
| StyInfo.StyEntries | api/hGraphAPI/cm2access/CM2Access.py:88-92 | `sorted` iterates a list's items and nothing for `''` or `{}`; every other value is a `TypeError` |
| StyInfo.DecodeSty | api/hGraphAPI/cm2access/CM2Access.py:91-94 | a sty entry decodes exactly when it is a dictionary with a string `name`, a boolean `preferred` and a `code`, and keeps them; otherwise `KeyError` or `TypeError` |
| StyInfo.DecodeStys | api/hGraphAPI/cm2access/CM2Access.py:88-95 | the list decodes iff every entry does, entry by entry |
| StyInfo.SortStysOrder | api/hGraphAPI/cm2access/CM2Access.py:91-94 | the two-pass sort is a permutation ordered preferred first, then by ascending name within each group |
| StyInfo.StyCodes | api/hGraphAPI/cm2access/CM2Access.py:94 | the codes of the sorted entries, in order |
| StyInfo.ClassNameChoice | api/hGraphAPI/cm2access/CM2Access.py:96-101 | with no preferred entry the class name is `''`; otherwise it is the `class_name` of the sorted list's head, which is preferred and has the smallest name among the preferred |
| CM2Access.TokenPieces | api/hGraphAPI/cm2access/CM2Access.py:123 | each whitespace token split on `$`, in order |
| CM2Access.BodyCpToIdMap | api/hGraphAPI/cm2access/CM2Access.py:118-131 | the nested loop computes the code map of the token pieces |
| CM2Access.AssignSpec | api/hGraphAPI/cm2access/CM2Access.py:129-130 | after the inner loop every listed code maps to the term and every other key is unchanged |
| CM2Access.CodeMapKeys | api/hGraphAPI/cm2access/CM2Access.py:124-130 | a code is a key iff some token has it before its last `$` segment |
| CM2Access.CodeMapLatest | api/hGraphAPI/cm2access/CM2Access.py:125-130 | a code maps to the term of the last token that lists it |
| CM2Access.TokenWithoutCodes | api/hGraphAPI/cm2access/CM2Access.py:126-128 | a token without `$` contributes no code |
| CM2Access.DocstringExample | api/hGraphAPI/cm2access/CM2Access.py:119-131 | the docstring's input gives its three mappings and also `'8815274': 'cost'` |
| CM2Access.QueryToken | api/hGraphAPI/cm2access/CM2Access.py:75 | `idMap[imuid]` when present, otherwise `'notoken'` |
| CM2Access.FindStyCodes | api/hGraphAPI/cm2access/CM2Access.py:81 | every match is a capital letter followed by three digits |
| CM2Access.MatchStartsLeftmost | api/hGraphAPI/cm2access/CM2Access.py:81 | the scan's start positions are matches, each at or after the end of the one before, with no match starting before the first, in a gap, or after the last |
| CM2Access.FindStyCodesLeftmost | api/hGraphAPI/cm2access/CM2Access.py:81 | `findall` returns the codes at the leftmost non-overlapping match positions, in order |
| CM2Access.FindStyCodesJoin | api/hGraphAPI/cm2access/CM2Access.py:81 | codes joined by separators without capitals are found again, all of them, in order |
| CM2Access.CreateConceptOrig | api/hGraphAPI/cm2access/CM2Access.py:73-84 | fails iff `semanticCodes` is not a string; otherwise `conceptID` is `imuid`, the other fields are the response values or `''`, and the sty codes are the code matches in order |
| CM2Access.CreateConcept | api/hGraphAPI/cm2access/CM2Access.py:87-110 | succeeds iff `sty_info` is `''`, `{}` or a list of well-formed entries; `conceptID` is `imuid`, the sty codes are those of the sorted entries and the class name is the first preferred one's |
| CM2Access.CreateConceptEmptyStyInfo | api/hGraphAPI/cm2access/CM2Access.py:88-101 | a `sty_info` of `''` or `{}` sorts to nothing: no sty codes and the class name `''` |
| QPEAccess.PipeList | ElsevierAPI/api/hGraphAPI/cm2access/QPEAccess.py:74-76 | a missing key or `''` gives `[]`; any other string gives `|`-free pieces; a non-string fails |
| QPEAccess.PipeListJoin | ElsevierAPI/api/hGraphAPI/cm2access/QPEAccess.py:74-76 | joining the pieces with `|` gives back the string |
| QPEAccess.PipeListOfJoin | ElsevierAPI/api/hGraphAPI/cm2access/QPEAccess.py:74-76 | a list of `|`-free strings other than `[""]` comes back from its join |
| QPEAccess.CreateConceptOrig | ElsevierAPI/api/hGraphAPI/cm2access/QPEAccess.py:72-86 | succeeds iff `sty_codes` and `synonyms` are strings; every field is its response value or its default (`''`, `'notoken'` for the query, `[]` for the lists) |
| QPEAccess.CreateConceptOrigDefaults | ElsevierAPI/api/hGraphAPI/cm2access/QPEAccess.py:72-86 | an empty response gives the all-defaults concept |
| QPEAccess.CreateConcept | ElsevierAPI/api/hGraphAPI/cm2access/QPEAccess.py:89-113 | succeeds iff `sty_info` is `''`, `{}` or a list of well-formed entries and `synonyms` a string; sty codes come from the sorted entries, the class name from the first preferred one, the synonyms from the `|` split |
| QPEAccess.CreateConceptEmptyStyInfo | ElsevierAPI/api/hGraphAPI/cm2access/QPEAccess.py:90-102 | a `sty_info` of `''` or `{}` sorts to nothing: no sty codes and the class name `''` |
| QPEAccess.CreateConceptTmp | ElsevierAPI/api/hGraphAPI/cm2access/QPEAccess.py:116-126 | `conceptID` falls back to `imuid` and `medicalName` to `medicalName` when the first key is missing or falsy; class name is always `'diseases'`, query token `'notoken'`, sty codes from `semanticTypeCodes` or `[]` |
| EmbaseSearch.Bumped | api/EmbaseAPI/EmbaseSearchAPI.py:256-261 | the key's count becomes its old count plus one (1 for a new key); every other key is unchanged |
| EmbaseSearch.NgramCounter.CountTuple | api/EmbaseAPI/EmbaseSearchAPI.py:255-261 | the counter becomes the bumped counter for the space-joined ngram |
| EmbaseSearch.NgramCounter.CountTuples | api/EmbaseAPI/EmbaseSearchAPI.py:264-266 | the counter becomes the old counter with every ngram counted |
| EmbaseSearch.CountAllSpec | api/EmbaseAPI/EmbaseSearchAPI.py:264-266 | each key's count has grown by exactly the number of ngrams with that key, and a key is present iff it was present or some ngram has it |
| EmbaseSearch.HasSubstring | api/EmbaseAPI/EmbaseSearchAPI.py:269-273 | true iff some keyword occurs in some lower-cased word |
| EmbaseSearch.CapitalKeywordNeverMatches | api/EmbaseAPI/EmbaseSearchAPI.py:270-271 | keywords are not lower-cased, so keywords with a capital letter never match |
| EmbaseSearch.LowerWords | api/EmbaseAPI/EmbaseSearchAPI.py:277 | each word lower-cased, in order |
| EmbaseSearch.HasDicWord | api/EmbaseAPI/EmbaseSearchAPI.py:276-282 | exactly the dictionary entries whose alias equals a lower-cased word of the ngram, with their ids |
| EmbaseSearch.FirstWords | api/EmbaseAPI/EmbaseSearchAPI.py:286-288 | the first word of each ngram, in order |
| EmbaseSearch.MergeNgrams | api/EmbaseAPI/EmbaseSearchAPI.py:285-290 | fails iff some ngram is empty; otherwise the first words joined by single spaces |
| EmbaseSearch.MergeNgramsSplit | api/EmbaseAPI/EmbaseSearchAPI.py:285-290 | splitting the merged phrase on spaces gives back the first words |
| EmbaseSearch.SubstringNgrams | api/EmbaseAPI/EmbaseSearchAPI.py:294 | the order-preserving filter keeps exactly the ngrams that pass `has_substring` |
| EmbaseSearch.SubstringNgramsConcat | api/EmbaseAPI/EmbaseSearchAPI.py:294 | filtering distributes over concatenation |
| EmbaseSearch.MentionSubstrings | api/EmbaseAPI/EmbaseSearchAPI.py:293-295 | merges the filtered ngrams, failing iff a kept ngram is empty |
| EmbaseSearch.MentionDicWords | api/EmbaseAPI/EmbaseSearchAPI.py:298-304 | the set of aliases equal to a lower-cased word of some ngram |
| EmbaseSearch.ParseInt | api/EmbaseAPI/EmbaseSearchAPI.py:238 | `int()` succeeds exactly when the stripped string is digits, optionally after one `+` or `-`; a digit string gives its decimal value, and the value has the sign written; ParseIntStrip and ParseIntSigned give the value of every accepted string |
| EmbaseSearch.ParseIntStrip | api/EmbaseAPI/EmbaseSearchAPI.py:238 | `int(s) == int(s.strip())`: surrounding whitespace never changes the result |
| EmbaseSearch.ParseIntSigned | api/EmbaseAPI/EmbaseSearchAPI.py:238 | `int('-' + d)` is minus the decimal value of the digits `d`, and `int('+' + d)` is their value |
| EmbaseSearch.ParseIntShow | api/EmbaseAPI/EmbaseSearchAPI.py:238 | `int(str(n)) == n` |
| EmbaseSearch.MedscanRow | api/EmbaseAPI/EmbaseSearchAPI.py:234-250 | a kept line maps the alias (verbatim iff the flag starts with `l`, lower-cased otherwise) to the first column; without ranges every parsed line is kept; with a range a line is kept iff its id lies in `[range, range + 999999]`; `ValueError` exactly when a range is given and the id is no integer, `IndexError` exactly when a kept line has no non-empty third column |
| EmbaseSearch.LoadKeeps | api/EmbaseAPI/EmbaseSearchAPI.py:227-252 | an alias no line yields keeps its old entry or stays absent |
| EmbaseSearch.LoadLast | api/EmbaseAPI/EmbaseSearchAPI.py:227-252 | an alias maps to the id of the last line that yields it |
| EmbaseSearch.ReadLines | api/EmbaseAPI/EmbaseSearchAPI.py:235-250 | the `while line` loop computes the loaded dictionary and stops at end of file |
| EmbaseSearch.LoadMedscanDic | api/EmbaseAPI/EmbaseSearchAPI.py:227-252 | only the first id range is in effect, because its pass exhausts the file |
| SodaMatch.Annotations | api/hGraphAPI/cm2access/SodaMatch.py:66-67 | a missing key or a present `''` gives no annotations; a list gives its items; every other value is a `TypeError` |
| SodaMatch.AnnotationIndex | api/hGraphAPI/cm2access/SodaMatch.py:67 | the index is built exactly when every annotation is a dictionary with a hashable `id`; every annotation in it is stored under its own id |
| SodaMatch.AnnotationIndexFirst | api/hGraphAPI/cm2access/SodaMatch.py:67 | an id is indexed iff some annotation has it, and the indexed annotation is the first one in response order with that id |
| SodaMatch.Offset | api/hGraphAPI/cm2access/SodaMatch.py:69-73 | fails iff `conceptID` is missing or unhashable, or its annotation lacks `begin`/`end`; a concept with an annotation gains its `begin` and `end` with every other field unchanged; one without is unchanged |
| SodaMatch.ConceptListWithOffsets | api/hGraphAPI/cm2access/SodaMatch.py:61-76 | without a response the list comes back unchanged; otherwise the result has the length and order of the input and each concept is its offset-merged self; a failure comes from a malformed response or concept |
| RunAnnotation.GetAnnotatorInput | api/hGraphAPI/cm2access/run_annotation.py:53-60 | without `ignore_first_col` both parts are the stripped line; with it the unpacking succeeds iff the stripped line has exactly one tab |
| RunAnnotation.FirstColumnInput | api/hGraphAPI/cm2access/run_annotation.py:54-57 | with one tab the result is the stripped line and the text after its tab, and the `replace` changes nothing |
| RunAnnotation.ServiceUrl | api/hGraphAPI/cm2access/run_annotation.py:65-71 | an explicit url is kept; otherwise `qpe` and `qpe-lookup` get the QPE default and every other service the CM2 default |
| RunAnnotation.ServiceDefaults | api/hGraphAPI/cm2access/run_annotation.py:17 | of the three services only `cm2` gets the CM2 default |
| CellIndications.RankCells | api/ResnetAPI/CellIndications.py:47-55 | every value is the group's ontology entry; a dict gives keys `(group, rank)` for exactly its known groups; a list gives keys `(group, position)` for its known groups, so skipped positions leave gaps |
| CellIndications.RankCellsSize | api/ResnetAPI/CellIndications.py:52-55 | the output never has more entries than the input |
| CellIndications.RankedAllKnown | api/ResnetAPI/CellIndications.py:52-53 | when every group of a dict is known the output has one entry per group |
| CellIndications.RankedCellOntology | api/ResnetAPI/CellIndications.py:44-53 | every group of the ranked T-cell ontology is known and keeps its rank, so the output has one entry per group (7) |
| CellIndications.ListedRanksHaveGaps | api/ResnetAPI/CellIndications.py:55 | the list `CD8+, Monocytes, CD4+` gives ranks 0 and 2 |
| CellIndications.ListedGap | api/ResnetAPI/CellIndications.py:55 | an unknown group between two known ones leaves a gap in the ranks |

## Left out

- Utils.ListToChunks: `chunk_size` is a natural number; a negative `chunk_size` (which would make `num_chunks` zero or negative and divide by zero) is not modelled. `ceil` on a float is modelled as exact integer ceiling.
- Utils.YieldChunks: the `num_chunks == 0` branch and the `continue` of `list2chunks_generator` are unreachable for natural chunk sizes; the model shows this instead of reproducing them.
- Utils.Path2FolderList: requires that the walk ends. Python loops forever when `first_folder` never turns up, and that case has no result here (see Findings). Drive letters (`os.path.splitdrive`) are ignored: paths are POSIX.
- Utils.Fname: POSIX `os.path.basename` and `splitext` only.
- Utils.MostFrequent: the `if_data_empty_return` parameter is unused by the source and left out.
- Utils.List2Str: values are lists of strings; `str()` of other element types is not modelled, and dictionary order is not part of a `map`.
- Utils.Greek2English: modelled per character, as the table's keys are single characters; the regular-expression engine is not modelled.
- Utils.SortDict: the result is the sorted item list; building a `dict` from it (insertion-ordered in Python) is left implicit.
- Strings.Strip, Strings.WsSplit: their properties are stated by lemmas (StripShape, LStripSpaces, RStripSpaces, WsSplitPieces, WsSplitEmpty, WsSplitLStrip, WsSplitWordSpace) rather than on the functions, to keep their callers' proofs small.
- Strings.Lower: lower-casing is ASCII only; `\d` in the CM2 code pattern is ASCII digits only.
- EmbaseSearch.ParseInt: `int()` is modelled on ASCII digits only; other Unicode decimal digits and `_` digit separators, which Python also accepts, are rejected.
- StyInfo.DecodeSty: a sty entry whose `preferred` is not a boolean or whose `name` is not a string is reported as `TypeError`, although Python would compare some such values anyway.
- SodaMatch.ConceptListWithOffsets, CM2Access.CreateConcept, CM2Access.CreateConceptOrig, QPEAccess.CreateConcept, QPEAccess.CreateConceptOrig, QPEAccess.CreateConceptTmp: the decoded response is a JSON object (`map<string, Value>`) by type. A response of another JSON type, on which Python's `.get` raises `AttributeError`, is not modelled.
- SodaMatch.AnnotationIndex: Python's key equality across types (`1 == 1.0 == True`) is not modelled: keys are JSON values compared structurally.
- EmbaseSearch.MentionDicWords: returns the set of aliases; the order in which `','.join` lists a Python set is unspecified and not modelled.
- Where the source could raise several exceptions, the model may report a different exception name, but it fails on exactly the inputs where the source raises.
- QPEAccess.PipeListOfJoin: the list `[""]` does not round-trip, because its join is `''`, which gives `[]`.
- CellIndications.RankedCellOntology: states the count as the size of the ranked ontology, which holds 7 groups.
- File opening and reading (`open`, `readline`) become a sequence of lines ending at the first empty string; the SoDA request and `requests.exceptions.ConnectionError` become an optional response.
- Network clients, `processRNEF` and the thread pools, argument parsing, pandas reports, Unicode normalisation and plotting are not part of this model: they are I/O, concurrency or foreign libraries.

## Findings

| source | as written | input that shows it | evidently intended | confidence | as-written member | corrected member |
|---|---|---|---|---|---|---|
| ElsevierAPI/utils/utils.py:312 | each token of `tokens1` is compared with `tokens2[1]` | `match_tokens(["a","b"], ["a","b"])` is `False`; `match_tokens(["a"], ["a"])` raises `IndexError` | compare `token1` with `tokens2[i]` | not executed | Utils.MatchTokensAsWrittenRejectsEqual | Utils.MatchTokens |
| ElsevierAPI/utils/utils.py:125-129 | the split loop ends only when the tail equals `first_folder` | `path2folderlist('/a/b', 'x')` never returns: `os.path.split('/')` is `('/', '')` again and again | stop at the root and return the folders found | not executed; the intended result is inferred from the docstring | Utils.WalkMissingFolder | Utils.Path2FolderListToRoot |
