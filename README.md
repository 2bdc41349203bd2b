# Design checker: model and proofs

This project models the part of the design checker that compares a
design document with a specification.

- The design document is a Figma-style JSON tree of nodes.
- The specification is a JSON list of entries. Each entry names the texts
  the design has to show.

The model covers five steps, and proves what each one computes:

1. **Flattening the design tree.** The walk is depth-first and pre-order.
   It goes into every member that holds a dict or a list, whatever its key.
   It yields one `DesignElement` per `TEXT` node whose text is not blank.
   - The element keeps the stripped text.
   - It records the path. A member adds `.key`, except that a member of the
     root (whose path is still empty) gets the bare key; a list item adds `[i]`.
2. **Loading the specification.** Each entry of the `specifications` member
   becomes a `SpecificationElement`. Absent members default to the empty
   string, except `design_texts`, which defaults to the empty list.
3. **Checking one entry.** Each required text is compared with the design
   texts in document order, ignoring case. A match is equality, or either
   text contained in the other. The first matching design text is taken:
   `exact` if the two are equal ignoring case, `partial` otherwise.
   - The implementation rate is the found count divided by the required count, and 0 when nothing is required.
   - The status is `complete` at rate 1, `partial` above 0, and `missing` otherwise.
4. **Comparing all entries.** The results are split into matches (complete
   or partial) and issues (missing), both kept in specification order.
5. **Extracting the file key from a Figma URL**, as the regular expression
   `figma\.com/file/([a-zA-Z0-9]+)` does under `re.search`.

The work is split into specification functions and stateful methods:

- **Specification functions (pure):** `Flattener`, `SpecLoader`,
  `MatchEngine` and `FigmaUrl`.
- **Stateful class:** the class `Checker.DesignChecker` holds the state
  of the source's `DesignChecker`. Its methods do what the source does,
  loop by loop, and each is proved to compute the specification function
  of the same operation.
- **Fixed inputs:** `Scenarios` works the model through small documents
  and URLs.

Modelling choices:

- **Parsed input, not files.** The methods take the already-parsed JSON
  value, so opening and reading files is not modelled. A specification
  file that does not exist is the input `None`.
- **Exceptions as `Failure` results.** The source lets several Python
  exceptions escape. Each becomes a `Failure` value:
  - `.strip()` on non-string `characters` of a TEXT node: `CharactersNotAString`.
  - `.get` on a root or an entry that is not a dict: `RootNotAnObject`, `ItemNotAnObject`.
  - Iterating over a `specifications` value that cannot be iterated: `SpecificationsNotIterable`.
- **Python iteration.** `for item in v` goes through a list's items, a
  string's characters and a dict's keys, and the model follows it.
- **JSON values.** A JSON dict is a sequence of key/value members in
  insertion order, which is the order Python iterates a dict in.
- **First match wins.** The matcher takes the first design text that
  matches in document order. A design text that matches exactly but comes
  later is never preferred over an earlier partial match.
  `Scenarios.FirstMatchWins` shows this.

Modules, in dependency order:

| module | file | role |
|---|---|---|
| `Wrappers` | wrappers.dfy | `Option` and `Result` |
| `JsonValue` | json.dfy | parsed JSON values, dict lookup |
| `Text` | text.dfy | Python `strip`, `lower`, `in`, decimal rendering of an index |
| `Seqs` | seqs.dfy | order-preserving subsequence |
| `Elements` | elements.dfy | `DesignElement`, `SpecificationElement` |
| `Flattener` | flattener.dfy | the flattening walk as functions, and its properties |
| `SpecLoader` | loader.dfy | the specification loader as functions |
| `MatchEngine` | matcher.dfy | text matching, rate, status, matches and issues |
| `Checker` | checker.dfy | the `DesignChecker` class and its methods |
| `FigmaUrl` | figma_url.dfy | the file key of a Figma URL |
| `Scenarios` | scenarios.dfy | worked examples |

## Model

| member | source | states |
|---|---|---|
| JsonValue.Lookup | design_checker.py:48 | `dict.get`: there is no value exactly when no member has the key; otherwise the value belongs to a member with that key |
| Text.StripStart | design_checker.py:61 | the result is a suffix of the input that does not start with whitespace, and everything cut off is whitespace |
| Text.StripEnd | design_checker.py:61 | the result is a prefix of the input that does not end with whitespace, and everything cut off is whitespace |
| Text.StripCharacterisation | design_checker.py:61-66 | `strip` returns a contiguous slice of its input with only whitespace cut from either end, and the result neither begins nor ends with whitespace |
| Text.StripEmptyIff | design_checker.py:61 | a stripped text is empty exactly when every character of the text is whitespace |
| Text.StripIdempotent | design_checker.py:66 | stripping an already stripped text changes nothing |
| Text.LowerSpec | design_checker.py:131-133 | `lower` turns each ASCII capital into the same letter in lower case, keeps every other character, leaves no capital, and lower-casing twice is lower-casing once |
| Text.LowerEqualIff | design_checker.py:131-137 | two texts are equal after lower-casing exactly when they have the same length and agree character by character up to ASCII case |
| Text.ContainsFacts | design_checker.py:131-133 | `in` is reflexive and holds of the empty text, and a text contained in one no longer than itself equals it |
| Text.NatToString | design_checker.py:90 | a list index is written as a non-empty run of decimal digits with no leading zero: a text starting with `0` is `0` itself, written for index 0 |
| Text.DecimalRoundTrip | design_checker.py:90 | reading back the digits written for an index gives that index |
| Flattener.ElementOfSpec | design_checker.py:59-82 | a dict yields at most one element of its own, and yields one exactly when it is a TEXT node whose text is not blank; that element has type TEXT, the node's path and its stripped text |
| Flattener.FlattenByVisits | design_checker.py:56-90 | the elements the walk yields are exactly those of the nodes it visits, in pre-order: a dict before what its members hold, members in order, list items in index order |
| Flattener.FieldsByVisits | design_checker.py:85-87 | the walk over a dict's members yields the elements of the nodes visited under those members, in member order |
| Flattener.ItemsByVisits | design_checker.py:88-90 | the walk over a list yields the elements of the nodes visited under its items, in index order |
| Flattener.FlattenedElements | design_checker.py:56-90 | every element has type TEXT and non-empty stripped text, and comes from a visited TEXT node with that node's path and stripped characters; every visited TEXT node with non-blank text contributes its element |
| Flattener.NoTextNoElements | design_checker.py:59 | a tree in which the walk meets no TEXT node yields no element |
| Flattener.VisitPathsExtend | design_checker.py:85-90 | every path the walk reaches extends the path it started from |
| Flattener.RaisesByVisits | design_checker.py:60-61 | the walk raises exactly when it visits a TEXT node whose `characters` is not a string |
| SpecLoader.Iterate | design_checker.py:102 | `for item in v` goes through a list's items as they are, a string's characters one by one as one-character strings, a dict's keys in order as strings, and raises for any other value |
| SpecLoader.Strings | design_checker.py:110 | a list of JSON values gives its strings, one for one and in order, exactly when every item is a string |
| SpecLoader.DesignTextsSpec | design_checker.py:110 | `design_texts` gives a list's strings, a string's characters or a dict's keys; otherwise it is rejected |
| SpecLoader.Gather | design_checker.py:101-113 | a run of per-entry outcomes succeeds exactly when every outcome does, giving their records in order; otherwise it gives the first failure |
| SpecLoader.SpecsOf | design_checker.py:101-113 | it loads when every entry loads, giving one record per entry in order; otherwise it gives the error of the first entry that cannot be read |
| SpecLoader.SpecOfRecord | design_checker.py:103-111 | an entry loads exactly when it is a dict with usable `design_texts`; each member of the record comes from the entry and defaults to `''`, and absent `design_texts` gives no required texts |
| SpecLoader.LoadSpecification | design_checker.py:95-116 | a missing file gives no records, a root that is not a dict fails, and a `specifications` that is null, a boolean or a number fails as not iterable |
| SpecLoader.LoadedRecords | design_checker.py:101-113 | with `specifications` absent there are no records; with `specifications` a list there is one record per entry, in order, when every entry loads |
| SpecLoader.SpecificationsStringOrDict | design_checker.py:101-104 | a `specifications` that is an empty string or dict gives no records; a non-empty one fails, since its first character or key is not a dict |
| SpecLoader.FailureIsFinal | design_checker.py:101-113 | once an entry fails to load, nothing after it changes the result |
| MatchEngine.TextsMatchIsContainment | design_checker.py:131-133 | the three-way test is containment in either direction after lower-casing |
| MatchEngine.FindFrom | design_checker.py:129-140 | it finds the first position at or after the start whose design text matches, and finds nothing exactly when no such position exists |
| MatchEngine.FoundFor | design_checker.py:128-140 | there is a found entry exactly when some design text matches; that entry is the first matching design text, and is exact exactly when the two are equal ignoring case |
| MatchEngine.StatusByCounts | design_checker.py:146-155 | the status is complete exactly when at least one text is required and all are found, partial exactly when some but not all are found, and missing exactly when none is found |
| MatchEngine.FoundPlusMissingIsRequired | design_checker.py:127-143 | the found texts and the missing texts together number the required texts |
| MatchEngine.FoundKeepsOrder | design_checker.py:127-143 | the found entries follow the order of the required texts |
| MatchEngine.MissingKeepsOrder | design_checker.py:127-143 | the missing texts follow the order of the required texts |
| MatchEngine.MissingIffUnmatched | design_checker.py:142-143 | a text is missing exactly when it is required and no design text matches it |
| MatchEngine.FoundIffMatched | design_checker.py:134-139 | an entry is found exactly when its text is required and it is the found entry for that text |
| MatchEngine.EmptyCorpusAllMissing | design_checker.py:127-143 | with no design text, nothing is found and every required text is missing |
| MatchEngine.CheckResultSpec | design_checker.py:148-156 | the result carries the entry's id, name and required texts; found and missing add up to required; the status follows the counts |
| MatchEngine.MatchesPlusIssuesIsSpecs | design_checker.py:164-172 | every entry lands in exactly one of matches and issues |
| MatchEngine.MatchesKeepOrder | design_checker.py:167-170 | the matches keep specification order |
| MatchEngine.IssuesKeepOrder | design_checker.py:171-172 | the issues keep specification order |
| MatchEngine.MatchesByStatus | design_checker.py:164-170 | a result is among the matches exactly when it is one of the entries' results and its status is complete or partial |
| MatchEngine.IssuesByStatus | design_checker.py:164-172 | a result is among the issues exactly when it is one of the entries' results and its status is missing |
| Checker.DesignChecker.constructor | design_checker.py:31-35 | a new checker holds no design elements, specification entries, matches or issues |
| Checker.DesignChecker.ExtractDesignElements | design_checker.py:37-93 | the method yields the flattened elements of the document, or fails exactly when the walk meets a TEXT node whose text is not a string |
| Checker.DesignChecker.TraverseNodes | design_checker.py:56-90 | it appends what the walk over the node yields to the elements gathered so far, and reports failure exactly when the walk raises |
| Checker.DesignChecker.TraverseDict | design_checker.py:57-87 | a dict adds its own element, then what its members hold |
| Checker.DesignChecker.TraverseMembers | design_checker.py:85-87 | the member loop adds what every dict- or list-valued member holds, in member order |
| Checker.DesignChecker.NodeElement | design_checker.py:44-82 | it yields the element of a TEXT node with non-blank text, and fails exactly when the node is a TEXT node whose text is not a string |
| Checker.DesignChecker.TraverseList | design_checker.py:88-90 | the item loop adds what every item holds, in index order, each one reached along its index |
| Checker.DesignChecker.LoadSpecificationFromFile | design_checker.py:95-116 | the loop builds the records the loader specifies, stopping at the first entry that cannot be read |
| Checker.DesignChecker.CheckTextImplementation | design_checker.py:118-156 | the loops build the found and missing texts, rate and status the match engine specifies |
| Checker.DesignChecker.FindRequiredText | design_checker.py:128-140 | the inner scan stops at the first matching design text and gives the found entry for it, or nothing |
| Checker.DesignChecker.CompareElements | design_checker.py:158-174 | the loop builds the matches and issues the match engine specifies for the checker's specification entries and design elements |
| FigmaUrl.KeyRun | web_app.py:18 | the greedy group takes the longest prefix made of ASCII letters and digits |
| FigmaUrl.SearchFrom | web_app.py:19 | the search finds the leftmost position at or after the start where the pattern matches, or nothing when there is none |
| FigmaUrl.ExtractFigmaFileKey | web_app.py:15-22 | there is no key exactly when the pattern matches nowhere in the URL |
| FigmaUrl.KeyRunOf | web_app.py:18 | the greedy group takes exactly a run of letters and digits that is followed by the end or by some other character |
| FigmaUrl.LeftmostMatch | web_app.py:19-21 | a key comes from the leftmost position where the pattern matches, and the text after the literal part starts with a letter or digit |
| FigmaUrl.KeyOfRun | web_app.py:18-21 | the group taken at a letter or digit is a non-empty slice of the URL there, made of letters and digits and ending where they end |
| FigmaUrl.FileKeySpec | web_app.py:18-21 | a key is a non-empty run of letters and digits that starts right after the leftmost match of the pattern; it is followed by a character outside that class or by the end of the URL |
| Scenarios.NestedPath | design_checker.py:85-90 | in `{"a": {"b": [X]}}` the TEXT node X is reached along `a.b[0]` |
| Scenarios.RootListPath | design_checker.py:88-90 | an item of a top-level list is reached along `[0]` |
| Scenarios.BlankTextDropped | design_checker.py:61 | a TEXT node whose text is blank yields nothing |
| Scenarios.ParentBeforeChild | design_checker.py:59-87 | a TEXT node's own element comes before the one found in its `children` |
| Scenarios.CompleteScenario | design_checker.py:118-156 | `Save` and `Cancel` against `Save` and `cancel now`: one exact and one partial match, rate 1, complete |
| Scenarios.PartialScenario | design_checker.py:118-156 | the same entry against `Save` alone: rate one half, partial, `Cancel` missing |
| Scenarios.MissingScenario | design_checker.py:118-172 | against `OK` alone: nothing found, rate 0, missing, and the entry is an issue |
| Scenarios.CaseInsensitive | design_checker.py:131-137 | `SAVE` matches `save` exactly |
| Scenarios.EarlierExactWins | design_checker.py:129-140 | `Save` before `Save Now` gives the exact match at position 0 |
| Scenarios.FirstMatchWins | design_checker.py:129-140 | `Save Now` before `Save` gives the partial match at position 0 |
| Scenarios.KeyOfUrl | web_app.py:15-22 | `https://www.figma.com/file/AbC123/Title` gives the key `AbC123` |
| Scenarios.NoKeyInOtherUrl | web_app.py:20-22 | a URL without the pattern gives no key |

## Definitions

The functions the contracts above are stated in terms of, and the lines
each one models:

- `Flattener.Flatten` — design_checker.py:56-90: the elements `traverse_nodes` appends for a node and its path.
- `Flattener.FlattenFields` — design_checker.py:85-87: the elements gathered under the first `n` members of a dict.
- `Flattener.FlattenItems` — design_checker.py:88-90: the elements gathered under the items of a list.
- `Flattener.ElementOf` — design_checker.py:59-82: the element a dict contributes itself.
- `Flattener.IsTextNode` — design_checker.py:59: `node.get('type') == 'TEXT'`.
- `Flattener.HasText` — design_checker.py:59-61: a TEXT node whose text is not blank.
- `Flattener.StripRaises` — design_checker.py:60-61: `.strip()` on a value that is not a string.
- `Flattener.ExtractTextContent` — design_checker.py:44-54: the raw text of a node.
- `Flattener.ChildPath` — design_checker.py:87: `f"{path}.{key}" if path else key`.
- `Flattener.IndexPath` — design_checker.py:90: `f"{path}[{i}]"`.
- `Flattener.Raises`, `Flattener.FieldsRaise`, `Flattener.ItemsRaise` — design_checker.py:56-90: the walk reaches a `.strip()` that raises.
- `Flattener.Extracted` — design_checker.py:37-93: the result of `extract_design_elements` on the parsed document.
- `SpecLoader.SpecOf` — design_checker.py:103-111: the record built from one entry.
- `SpecLoader.DesignTexts`, `SpecLoader.DesignTextsOf` — design_checker.py:110: the required texts of an entry.
- `SpecLoader.Attempts` — design_checker.py:102-111: the outcome of building each entry, in order.
- `MatchEngine.Corpus` — design_checker.py:125: `all_design_texts`.
- `MatchEngine.TextsMatch` — design_checker.py:131-133: the three-way test.
- `MatchEngine.FirstMatch` — design_checker.py:129-140: the position the inner loop stops at.
- `MatchEngine.FoundTexts` — design_checker.py:127-140: `found_texts`.
- `MatchEngine.MissingTexts` — design_checker.py:127-143: `missing_texts`.
- `MatchEngine.ImplementationRate` — design_checker.py:146: the rate.
- `MatchEngine.StatusOf` — design_checker.py:155: the status.
- `MatchEngine.Check` — design_checker.py:118-156: the result dict of `check_text_implementation`.
- `MatchEngine.Results` — design_checker.py:164-165: the result of every entry, in order.
- `MatchEngine.MatchesOf` — design_checker.py:164-170: `matches`.
- `MatchEngine.IssuesOf` — design_checker.py:164-172: `issues`.
- `MatchEngine.Requireds` — design_checker.py:135: the `required` field of each found entry.
- `Text.IsSpace` — design_checker.py:61: the characters `str.isspace()` accepts.
- `Text.Strip` — design_checker.py:61,66: `str.strip()`.
- `Text.Lower` — design_checker.py:131-133: `str.lower()`, on ASCII letters.
- `Text.SameIgnoringCase` — design_checker.py:131: two characters equal up to ASCII case.
- `Text.Contains` — design_checker.py:132-133: `in` on strings.
- `JsonValue.IsContainer` — design_checker.py:86: `isinstance(value, (dict, list))`.
- `JsonValue.GetOr` — design_checker.py:63-67: `dict.get(key, default)`.
- `FigmaUrl.IsKeyChar`, `FigmaUrl.FilePrefix`, `FigmaUrl.MatchesAt` — web_app.py:18: the pattern.

## Left out

- Reading files and `json.load`: the methods take the parsed value, and JSON syntax errors are not modelled.
- The `FileNotFoundError` branch: it is the input `None`, and its message to standard output is not modelled.
- `DesignElement.properties` (design_checker.py:69-80): it is built but never read by the matcher, so it is not modelled.
- `extract_text_content`'s `characters` and `name` branches for non-TEXT dicts (design_checker.py:50-53): `Flattener.ExtractTextContent` has them, but the walk only calls it on TEXT nodes, so no result depends on them.
- `generate_html_report`, `run_check`, `main`, the Flask routes, `get_figma_json`, and the deployment, team-sharing and server scripts: they are HTML output, files, network and process glue.
- Assigning `design_elements` and `spec_elements` after external calls: the methods return their results; they do not store them in the checker's fields. `matches` and `issues` are declared but never written by the source either. `CompareElements` reads the fields as they are.
- JSON numbers are integers: floats, and Python's `int`/`float` distinction, are not modelled, because no number reaches the matcher.
- Duplicate keys in a JSON object: the model assumes the distinct keys `json.load` produces. Lookup takes the first member with the key.
- Text.Lower: only ASCII letters are lower-cased, not Python's full Unicode `str.lower`.
- MatchEngine.ImplementationRate: the rate is an exact rational, not a Python float. For counts below 2^53 this rounds the same way for the comparisons with 1.0 and 0 that decide the status.
- SpecLoader.DesignTexts: a `design_texts` value that is not iterable, or that iterates to non-strings, is rejected when the entry is loaded. Python instead raises later, in `check_text_implementation`: when iterating (a value that cannot be iterated) or when calling `.lower()` (a non-string list item). With no design text at all, Python would list a non-string as missing without raising.
- Recursion depth: Python's recursion limit on very deep trees is not modelled.
- Concurrency and the web server's request handling: not part of this model.
