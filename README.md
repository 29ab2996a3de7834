# Express calculator: verified model of its statistics and input validation

The service answers `GET /mean`, `/median` and `/mode` with a statistic over
the comma-separated numbers in the `nums` query parameter. This project models
three parts of `mean.js` in Dafny and proves what they compute:

- `calculateMode` (module `Mode`). It is a single pass with a frequency table,
  a running maximum frequency and a tie list. `Mode.ScanFrequencies` is the
  loop, with its invariants. `Mode.CalculateMode` adds the final collapse of a
  one-element list to a scalar. The specification functions are `Count`,
  `MaxCount` and `Reachers`/`Modes`. `Reachers(s, k)` lists, in scan order, the
  values at the positions where a value's running count reaches `k`.
- `calculateMedian` (module `Median`). It makes a sorted copy, then selects the
  middle element or averages the two middle elements. `SortAscending` is an
  insertion sort. `SortedPermutationUnique` shows that any ascending sort gives
  the same sequence, so the model does not depend on which algorithm the
  JavaScript engine uses. The copy (`slice()`) is implicit: values are
  immutable, so the argument is never changed.
- The validation loop of the `/mean` handler (modules `Tokens`, `Validation`).
  It rejects a missing or empty parameter, splits on commas, and converts each
  piece in order, stopping at the first piece that does not convert.
  `Tokens.Split` models the comma split. `Validation.ValidateNums` is the loop.
  `Validation.Validate` is its reference definition.
- Module `Endpoints` connects these the way the handlers are evidently meant to
  work: validate, then compute. It also models what the `/median` and `/mode`
  handlers do as written (see "## Findings").

Numbers are Dafny `real`s, an exact idealisation of JavaScript doubles. NaN
never reaches the statistics, because the validation rejects it. `-0` and `0`
are the same real, just as they share the frequency key `"0"` in
`calculateMode`. `parseFloat` followed by `isNaN` is a parameter
`parse: string -> Option<real>`. `None` means "NaN". Its internals (prefix
parsing, leading whitespace) are not modelled.

Three behaviours of the code are worth stating outright:
- The tie list is in the order in which each value's count reaches the final
  maximum, not in first-occurrence order. `Mode.ModeOrderExample` shows this:
  `a, b, b, a` gives `[b, a]`.
- `/median` and `/mode` validate with `.map`, not with the loop of `/mean`. The
  client still gets the correct 400 answer for a bad piece, but the handler
  then throws; see "## Findings".
- The median of an empty array is NaN in the code, and `Median.Median` returns
  `None` for it. No handler can reach that case: `Endpoints.Handle` proves that
  a validated input is never empty.

## Model

| member | source | states |
|---|---|---|
| `Tokens.Split` | mean.js:31 | the comma split returns at least one piece, and no piece contains a comma |
| `Tokens.JoinSplit` | mean.js:31 | splitting loses nothing: joining the pieces with commas gives back the input |
| `Tokens.SplitJoin` | mean.js:31 | splitting recovers any non-empty list of comma-free pieces that were joined with commas |
| `Validation.Validate` | mean.js:26-28 | the result is the "nums are required" error exactly when the parameter is absent or empty; the parsing step never produces that error |
| `Validation.ParseTokens` | mean.js:33-40 | a parse failure is always an invalid-number error naming one of the pieces |
| `Validation.ParseTokensAll` | mean.js:33-40 | when every piece parses, the result is one number per piece, in input order |
| `Validation.ParseTokensFirstFailure` | mean.js:33-38 | when pieces before position k parse and piece k does not, the error names piece k, the first bad piece |
| `Validation.ParseTokensSuccess` | mean.js:33-40 | a success has exactly one number per piece, each the parse of the piece at the same position |
| `Validation.ValidateNums` | mean.js:26-40 | the loop (early return on a missing parameter, push per piece, return at the first bad piece) computes exactly `Validate` |
| `Validation.MessageInjective` | mean.js:27-37 | distinct failures give distinct error texts ("nums are required", "<token> is not a number"), so the text names the offending piece |
| `Median.Insert` | mean.js:51 | inserting into a sorted sequence keeps it sorted and adds exactly the one value |
| `Median.SortAscending` | mean.js:51 | the sorted copy is ascending and a permutation of the input |
| `Median.SortedPermutationUnique` | mean.js:51 | two ascending permutations of the same numbers are equal, so every correct sort gives the same copy |
| `Median.Middle` | mean.js:52-61 | no value for an empty sequence; otherwise a value no smaller than the first half of the sorted sequence (rounded up) and no larger than the second half |
| `Median.Median` | mean.js:49-62 | the median is undefined exactly for an empty input |
| `Median.MedianOfAnySort` | mean.js:51-61 | the median equals the middle selection over any ascending permutation of the input |
| `Median.MedianPermutationInvariant` | mean.js:49-62 | reordering the input does not change the median |
| `Median.MedianWithinRange` | mean.js:52-61 | for a non-empty input, some input is at most the median and some input is at least it |
| `Median.MedianBalanced` | mean.js:52-61 | for a non-empty input, at least half of the inputs are at most the median and at least half are at least it |
| `Mode.CountPositive` | mean.js:95-99 | a value has a positive count exactly when it occurs, so the table's truthiness test means "seen before" |
| `Mode.MaxCountIsMax` | mean.js:102-104 | no value occurs more often than `MaxCount`, and in a non-empty input some value occurs exactly that often |
| `Mode.ReachersBeyondMax` | mean.js:102-104 | no value reaches a count above the maximum, which is why the tie list resets to one value when the maximum grows |
| `Mode.ReachersMembers` | mean.js:102-107 | a value is listed for count k exactly when it occurs at least k times |
| `Mode.ReachersDistinct` | mean.js:105-107 | a value is listed for a given count at most once |
| `Mode.ModesExact` | mean.js:102-107 | the tie list holds exactly the values whose count equals the maximum count |
| `Mode.ModesDistinct` | mean.js:102-107 | the tie list never holds a value twice |
| `Mode.ModesNonEmpty` | mean.js:94-107 | a non-empty input has a non-empty tie list |
| `Mode.TabulateStep` | mean.js:95-99 | one table update keeps every stored count equal to the value's number of occurrences so far |
| `Mode.ScanFrequencies` | mean.js:89-108 | after the loop the table maps exactly the input values to their counts, `maxFreq` is the largest count and `modes` is the tie list in the order values reached it |
| `Mode.CalculateMode` | mean.js:88-112 | a scalar exactly when one value attains the largest count (every other value occurs less often); otherwise the whole tie list, which has at least two values for a non-empty input |
| `Mode.ModeOrderExample` | mean.js:101-107 | the tie list follows reach order, not first occurrence: `a, b, b, a` gives `[b, a]` |
| `Endpoints.Handle` | mean.js:65-135 | answers exactly `Respond`: 400 with the validation message exactly when validation fails, otherwise the statistic of the validated numbers, and the median is always defined there |
| `Endpoints.ParseTokensFailing` | mean.js:33-40 | validation of the pieces fails exactly when at least one piece does not parse, which is also when the `.map` callbacks at 72-79 and 122-129 reject a piece |
| `Endpoints.MapPassAnswered` | mean.js:72-79 | once a 400 answer has gone out, the `.map` pass sends nothing more, and it throws at the next bad piece if there is one |
| `Endpoints.MapPassFresh` | mean.js:72-79 | the `.map` pass sends nothing when every piece parses; otherwise it sends exactly the 400 answer naming the first bad piece, and it throws exactly when a second piece is bad |
| `Endpoints.MapHandlerAnswersAsIntended` | mean.js:65-85 | the `/median` and `/mode` handlers as written send the client exactly one answer, the same one `Handle` gives |
| `Endpoints.MapHandlerThrows` | mean.js:115-135 | the handlers as written throw exactly when validation fails on a piece that is not a number, at a second `res.json` call; otherwise they call `res.json` once |

## Findings

| source | as written | input that shows it | evidently intended | confidence | as-written member | corrected member |
|---|---|---|---|---|---|---|
| mean.js:72-84 (and 122-134) | `return res.status(400).json(...)` is inside the `.map` callback, so it leaves only the callback. The first bad piece's 400 answer goes out correctly. The handler then calls `res.json` again: at 76/126 for the next bad piece, or at 84/134 with a statistic computed over an array that holds the response object. That call throws, because the response has already been sent | `nums=1,a`, or any `nums` with a piece `parseFloat` rejects | the 400 answer naming the first bad piece and nothing more: no second `res.json` call, no statistic and no exception, as in the `/mean` loop at 33-40 | high, not executed | `Endpoints.MapHandlerThrows` | `Endpoints.Handle` |

## Left out

- `calculateMean` (mean.js:16-21) and the `/mean` answer: floating-point summation and division, whose rounding cannot be modelled with reals. The `/mean` handler's validation loop is modelled.
- HTTP: the Express application, `app.listen`, the console message, routing, status codes and JSON serialisation (mean.js:1-13 and the `res.json` calls). `Endpoints.Response` stands for the two kinds of answer.
- `parseFloat` and `isNaN`: a parameter `parse`, as described above.
- Floating point: reals cannot represent `Infinity`, which `parseFloat` accepts, and the even-case average and the `a - b` comparator are exact here.
- `req.query.nums` given more than once (an array) is not modelled. The parameter is `Option<string>`.
- `Endpoints.MapHandlerRun`: takes as given, from Node and Express, that a `res.json` call after the response was sent throws. (For `nums=a`, serialising the response object throws earlier, with the same outcome.) It does not model the statistic computed over an array that holds the response object, or what Express does with the exception.
- `Endpoints.Handle` covers `/median` and `/mode`, not `/mean`, because the mean itself is left out.
