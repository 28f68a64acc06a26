# Field-record recovery from model output, in Dafny

This project models the two text-recovery routines of `prompt.py`. Both pull
form-field records (a field name and a bounding box `x`, `y`, `width`, `height`) out
of the noisy text a vision-language model returns. It then proves properties of that
model.

- **Span isolation** (`parse_json_from_response`). This finds an anchor string with
  `str.find`. It takes the first `{` at or after the anchor, or the first `{`
  anywhere when the anchor is absent, and the last `}` anywhere (`str.rfind`). It
  returns the inclusive substring between them, or `None` for three separate reasons:
  no `{`, no `}`, or the `{` lies after the `}`. The result is the **unparsed** text.
  The `json.loads` call after the `return` can never run.
- **Pattern-based reconstruction** (`parse_and_reconstruct_fields`). Two fixed regular
  expressions are run with `re.finditer`. One spells the keys with an escaped
  underscore (`field\_name`, `bounding\_box`), the other plainly. Every match's four
  numeric captures go through `float`. The records are appended to
  `{"form_fields": [...]}`: all escaped-pattern matches in scan order, then all
  standard-pattern matches in scan order, with no deduplication.

The modules follow the structure of the code:

| file | module | what it holds |
|---|---|---|
| `wrappers.dfy` | `Wrappers` | `Option` and `Result` |
| `text.dfy` | `Text` | Python's `str.find` / `str.rfind`, and `str.isspace` (the meaning of `\s`) |
| `span.dfy` | `JsonSpan` | `parse_json_from_response` and its exact characterisation |
| `pattern.dfy` | `RecordPattern` | a regular expression as a list of tokens (literal, `\s*`, `(cls+)`), a greedy matcher for such lists, and when greedy matching is exact |
| `records.dfy` | `FieldRecords` | the records built, and what a match guarantees about them |
| `reconstruct.dfy` | `Reconstruct` | the two record patterns and the one-position matcher `MatchAt` |
| `scan.dfy` | `Scan` | the `finditer` scan over the attempts at each index |
| `conversion.dfy` | `Conversion` | `float` on the captures, the two `for` loops, and the result |
| `fields.dfy` | `Fields` | `finditer` for each pattern, and `parse_and_reconstruct_fields` |

How the regular expressions are modelled:
- Each pattern is a list of 34 tokens.
- `MatchTokens` matches the list greedily, left to right, one token at a time.
- The meaning of the regular expression is stated separately (`PatternMatch`). It
  says the pieces, one per token, each fit their token, and their concatenation
  occurs at the index.
- Every `\s*` and every `(…+)` in the two patterns is followed by text that begins
  outside its class (`NoBacktrack`). Under that condition, `MatchTokens` is proved
  sound and complete for that meaning.
- So `MatchAt` answers exactly what the backtracking regex engine answers.

How `float` is modelled: `float` on a `[0-9.]+` capture succeeds exactly when the text
has a digit and at most one dot, which is the decimal-number grammar (proved). The
records keep the captured text, and a refused capture becomes
`Failure(ValueError(capture))`.

## Model

| member | source | states |
|---|---|---|
| Text.Find | prompt.py:61-68 | `find(pat, from)`: -1, or the least index at or after `from` where `pat` occurs; no occurrence between `from` and the answer |
| Text.RFind | prompt.py:75 | `rfind(pat)`: -1, or the greatest index where `pat` occurs; no occurrence after it |
| JsonSpan.LocateSpan | prompt.py:61-83 | on success, the `{` index is below the `}` index, both are within the text, and they hold `{` and `}` |
| JsonSpan.ParseJsonFromResponse | prompt.py:51-88 | a result is a substring of the response, at least two characters long, starting with `{` and ending with `}` |
| JsonSpan.SearchStartExists | prompt.py:61-68 | the index the `{` search starts from exists and is unique: the first occurrence of the anchor, or 0 without one |
| JsonSpan.FindOpen | prompt.py:65-70 | `find("{", k)` is -1 exactly when no `{` is at or after `k`, and otherwise is the first such `{` |
| JsonSpan.FindClose | prompt.py:75-76 | `rfind("}")` is -1 exactly when there is no `}`, and otherwise is the last `}` |
| JsonSpan.LocateSpanExact | prompt.py:61-83 | the three failures in terms of the text alone: no `{` in the searched region; else no `}`; else the first `{` lies after the last `}`; otherwise the span is those two indices |
| JsonSpan.LocateSpanAt | prompt.py:61-83 | once the first `{` from the search start and the last `}` are known, the span is those indices if they are in order, else the inverted-span failure |
| JsonSpan.ParseJsonFromResponseNone | prompt.py:70-83 | `None` exactly when there is no `{` in the searched region, no `}` anywhere, or the first `{` after the search start lies after the last `}` |
| JsonSpan.ParseJsonFromResponseSpan | prompt.py:61-88 | otherwise the result is `raw[s..e+1]`, where `s` is the first `{` from the search start and `e` the last `}` |
| JsonSpan.FoundAnchorRestrictsSearch | prompt.py:61-72 | once the anchor is found, only a `{` after it counts: with none, the result is `None` even when a `{` stands earlier |
| JsonSpan.EmptyAnchorIsNoAnchor | prompt.py:61-68 | an empty anchor gives the same result as an anchor that occurs nowhere |
| JsonSpan.ParseJsonFromResponseIdempotent | prompt.py:86-88 | isolating the returned span again, with an empty anchor, returns it unchanged: the result is raw text, not a parsed value |
| RecordPattern.RunEnd | prompt.py:101 | the end of the longest run of characters of a class from `i` |
| RecordPattern.MatchTokensSound | prompt.py:101-104 | a greedy match yields pieces, one per token, each fitting its token, whose concatenation is the matched text |
| RecordPattern.MatchTokensOccurs | prompt.py:101-104 | the pieces of a greedy match occur in the text at its start, and it ends after their total length |
| RecordPattern.PieceEndComplete | prompt.py:101-104 | any piece fitting a token, followed by text beginning outside the token's class, is the piece the greedy step takes |
| RecordPattern.MatchTokensComplete | prompt.py:101-104 | for a token list that cannot backtrack, every regex match at `i` is the one the greedy matcher returns, pieces and end included |
| RecordPattern.NoBacktrackAppend | prompt.py:101-104 | two token lists that cannot backtrack, the first ending in a literal whose text begins outside every class it must stop, join into one that cannot |
| Reconstruct.PatternShape | prompt.py:101-104 | each pattern has 34 tokens, opens with `{`, `\s*` and the name key, and has its five groups at fixed positions |
| Reconstruct.PatternNoBacktrack | prompt.py:101-104 | in both patterns, every `\s*` and every group is followed by text that begins outside its class |
| Reconstruct.PatternCaptures | prompt.py:101-104 | any match has a non-empty name without `"` and four non-empty coordinates over `0-9` and `.`; no sign or exponent can be captured |
| Reconstruct.MatchAt | prompt.py:101-108 | one attempt at `i`: a match starts at `i`, ends after it within the text, and captures a well-formed record |
| Reconstruct.MatchAtSound | prompt.py:101-104 | a reported match is a match of the regular expression, with the record read from its groups and the span it covers |
| Reconstruct.MatchAtComplete | prompt.py:101-104 | every match of the regular expression at `i` is reported, with that record and span |
| Reconstruct.MatchAtExact | prompt.py:101-104 | `MatchAt` succeeds exactly when the regular expression matches at `i` |
| Reconstruct.PatternMatchTokens | prompt.py:101-104 | the greedy token matcher finds every match of either pattern |
| Reconstruct.NameKeyAfterBlank | prompt.py:101-104 | a match has its name key, colon included, right after `{` and the longest run of whitespace: a space before the colon is not matched |
| Reconstruct.VariantsExclusive | prompt.py:101-104 | no index is matched by both the escaped and the standard pattern |
| Reconstruct.RecordTwice | prompt.py:101-104 | a record's text written twice in a row is matched at both copies |
| Scan.ScanFrom | prompt.py:107-108 | the matches from `i` are successful attempts, in order and not overlapping |
| Scan.ScanComplete | prompt.py:107-108 | every index where an attempt succeeds lies inside a reported match |
| Scan.ScanEmpty | prompt.py:107-108 | the scan is empty exactly when every attempt fails |
| Scan.ScanSkip | prompt.py:107-108 | failed attempts are passed over |
| Scan.ScanOnly | prompt.py:107-108 | a text with exactly one successful attempt yields exactly that match |
| Scan.ScanAdjacent | prompt.py:107-108 | two matches that tile the text are both reported, in order |
| Scan.ScanAll | prompt.py:107-108 | the scanning loop (record a match and jump to its end, else step by one) computes the scan |
| Fields.Attempts | prompt.py:107-108 | the attempt at every index is `MatchAt` there; each success starts at its index and ends within the text |
| Fields.FindIter | prompt.py:107-108 | `finditer` for one pattern: successful `MatchAt` results, in order, not overlapping, each with a well-formed record |
| Fields.FindAll | prompt.py:107-108 | the scan loop for one pattern returns exactly `FindIter` |
| Fields.FindIterSound | prompt.py:107-108 | every reported match is a regex match, carrying the record of its groups |
| Fields.FindIterComplete | prompt.py:107-108 | no match is missed: every index where the pattern matches lies within a reported match |
| Fields.FindIterEmpty | prompt.py:107-108 | the scan finds nothing exactly when the pattern matches at no index |
| Fields.SingleRecordRecovered | prompt.py:107-108 | a record alone in a text, whatever other text surrounds it, is recovered exactly once with its span |
| Fields.DuplicatesKept | prompt.py:107-149 | a record written twice is recovered twice: no deduplication |
| Conversion.FloatLiteralIsDecimal | prompt.py:116-119 | on a `[0-9.]+` capture, the acceptance test is exactly the decimal grammar `digits [. [digits]] \| . digits` |
| Conversion.FirstUnconvertible | prompt.py:116-119 | the first of x, y, width, height that `float` refuses, if any; `None` exactly when all four convert |
| Conversion.Convert | prompt.py:114-130 | converting the matches in order: success exactly when every box converts, and then the records in order; else the error of the first failing match |
| Conversion.ConvertStopsAt | prompt.py:114-130 | conversion stops with the error of the first match whose box does not convert |
| Conversion.RecordsSnoc | prompt.py:114-130 | one more match in the prefix appends its record to the prefix's records |
| Conversion.AppendRecords | prompt.py:114-149 | one `for` loop appends every match's record, in order, to the list it is given, or returns the first `ValueError`; the outcome is `Convert` of the matches |
| Conversion.ReconstructionFields | prompt.py:111-154 | on success, the fields are the escaped records followed by the standard records, each well formed and convertible |
| Conversion.ReconstructionFailure | prompt.py:114-149 | fails exactly when some match of either pattern has a coordinate `float` refuses; the error names such a coordinate; escaped-match errors come first |
| Conversion.ConvertFailureLiteral | prompt.py:116-119 | the coordinate named by a conversion error is one `float` refuses |
| Conversion.ConvertedRecordsValid | prompt.py:114-130 | every record a successful conversion yields converts, and is well formed when the matches are |
| Fields.ParseAndReconstructFields | prompt.py:98-156 | scans with both patterns, runs the escaped loop and then the standard loop, and returns exactly `Reconstruction` of the two scans |
| Fields.NoMatchNoFields | prompt.py:111-156 | a response where neither pattern matches anywhere gives `{"form_fields": []}` |

## Left out

- `encode_image`, `get_image_dimensions` and `get_prompt` (prompt.py:6-47): file I/O, image decoding and string formatting, with no logic to verify. `get_prompt` does not check the image dimensions.
- `zach_vllm_example.py` and `example.py`: HTTP server and inference-library plumbing. They are not part of this model.
- Floating-point values: records keep the captured coordinate text. Only whether `float` accepts it is modelled.
- The `print` diagnostics of span isolation (prompt.py:71, 77, 82): they are output only. `LocateSpan` keeps which of the three failures occurred, and `ParseJsonFromResponse` returns `None` for all of them, like the source.
- The unreachable `json.loads` block (prompt.py:90-95): it cannot run, so it is not modelled.
- General regular-expression semantics: only the two fixed patterns are modelled. Each is a token list, with `\s` taken as Python's `str.isspace` character set.
- `finditer`'s attempt at index `len(text)`: it always fails, because both patterns begin with `{`. The scan stops before it.
- Laziness of `finditer`: the source converts each match as the scan produces it. The model scans first and converts afterwards. The result and the first error are the same.
- The message text of the `ValueError` raised by `float`: the model keeps only the refused capture.
- Differences from the design description, where the model follows the code:
  - The description asks that the isolated span be parsed as JSON and validated. The code returns the raw substring.
  - The description has a coordinator that falls back from span isolation to reconstruction. The code has no such function.
  - The description says reconstruction never raises. The code lets `float` raise `ValueError` on captures such as `1.2.3` or `.`, which the patterns accept. This is modelled as a `Failure` result.
  - The description says prompt construction fails on non-positive dimensions. `get_prompt` performs no such check.
