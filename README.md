# Accept-Language negotiation, modelled in Dafny

This project models the viewer-request handler in
`src/language_negotiation_lambda.js`. For each request whose `Accept-Language`
header is truthy, the handler picks one of the supported languages (`en`, `es`)
and writes it to `X-Accept-Language`. It then passes the request on. Selection
works in four steps:

1. Split the header at `,`. Split each token at `;`. Lower-case the locale and
   cut it to two characters.
2. The weight defaults to 1.0. When the text between the first and second `;`
   (or after the first `;` when there is no second one) is non-empty, the weight
   is `parseFloat` of that text from its third character on, with NaN and zero
   read as 0.0.
3. Keep only the tokens whose locale is supported.
4. Sort the candidates ascending by `a.weight - b.weight` with a stable sort and
   pop the last one. With no candidate, the result is the default `en`.

Modules:

- `JsStrings` (`js_strings.dfy`): the JavaScript string operations used,
  `split`, `toLowerCase` and `substring`.
- `JsNumbers` (`js_numbers.dfy`): the number operations used.
  - JavaScript numbers other than NaN are `Number`. NaN is `None`.
  - `parseFloat` follows the `StrDecimalLiteral` grammar of the ECMAScript
    specification: leading white space, sign, `Infinity`, digits, fraction,
    exponent, longest prefix.
  - `n || 0.0`.
  - The comparator `a - b`, with a NaN result read as 0 as
    `Array.prototype.sort` does.
- `Candidates` (`candidates.dfy`): `getSelectableLangugaes`. It is an imperative
  loop (`GetSelectableLanguages`) proved equal to the recursive specification
  `Selectable`, which has its own properties.
- `WeightSort` (`weight_sort.dfy`): the sort.
  - The specification is the stable insertion sort `SortByWeight` on sequences.
    It is proved to be a permutation, sorted and stable.
  - `SortByWeight` is proved to be the only stable sort.
  - The last element of the sorted sequence is proved to be the latest candidate
    of greatest weight.
  - `SortAscending` sorts an `array` in place and is proved equal to
    `SortByWeight`.
- `Negotiation` (`negotiation.dfy`): the handler.
  - `Negotiate` is the body of the `if`: it builds the candidates, copies them
    into an array, sorts the array in place and reads the last element.
  - `Request` is a class. Its `headers` map is changed in place by `Handle`.
  - Lemmas state what the handler promises about the selected language and the
    headers.
- `NegotiationCases` (`negotiation_cases.dfy`): the sixteen string header values
  of the repository's test file, plus the tie `en,es`, which the file does not
  contain. Each is evaluated through general lemmas about one, two or three
  tokens.
- `Wrappers` (`wrappers.dfy`): `Option`.

Where the handler's apparent intent and its code differ, the model follows the
code:

- Weights are not clamped to `[0, 1]`. `en;q=5` has weight 5, and a negative
  weight stays negative.
- The two characters before the number are dropped without being checked.
  `en;x=0.5` has weight 0.5 (`Candidates.TokenWithDecimalWeight`).
- Only the text between the first and second `;` is read as the weight.
- No default is written when `Accept-Language` is missing or is the empty
  string. The header is only set inside `if (headers[acceptLanguage])`
  (`Negotiation.HandledHeadersFrame`, `NegotiationCases.EmptyHeaderIsLeftAlone`).

## Model

| member | source | states |
|---|---|---|
| JsStrings.Split | src/language_negotiation_lambda.js:13 | `split` yields at least one piece (so `language_data[0]` always exists), and no piece contains the separator |
| JsStrings.JoinSplit | src/language_negotiation_lambda.js:39 | joining the pieces of a split with the separator gives back the original string: no text is lost or reordered |
| JsStrings.SplitJoin | src/language_negotiation_lambda.js:39 | splitting a join of separator-free pieces gives back exactly those pieces |
| JsStrings.SplitAtFirstSeparator | src/language_negotiation_lambda.js:13-16 | the first piece runs up to the first separator and the rest is the split of what follows it |
| JsStrings.SplitHead | src/language_negotiation_lambda.js:13-16 | `language_data[0]` is the text before the first `;`, `language_data[1]` exists exactly when there is a `;`, and the pieces after the first are the split of the text after it |
| JsStrings.SplitWithoutSeparator | src/language_negotiation_lambda.js:13-16 | a token without `;` is a single piece, so it has no weight part |
| JsStrings.SubstringFrom | src/language_negotiation_lambda.js:24 | `substring(2)` is empty for strings shorter than three characters and is the suffix from index 2 otherwise |
| JsStrings.ToLowerCaseAt | src/language_negotiation_lambda.js:18 | `toLowerCase` keeps the length, maps each ASCII capital to its small letter and leaves every other character unchanged |
| JsNumbers.ComparesAtMostIsTotalOrder | src/language_negotiation_lambda.js:42-44 | the comparator `a.weight - b.weight` (NaN read as 0) is reflexive, antisymmetric, transitive and total on non-NaN numbers, so the sort is well defined |
| JsNumbers.ComparesAtMostFinite | src/language_negotiation_lambda.js:43 | on finite weights the comparator orders as the reals do |
| JsNumbers.OrZero | src/language_negotiation_lambda.js:24 | `x \|\| 0.0` is 0.0 exactly when `x` is NaN or zero; any other result is `x` itself |
| JsNumbers.TrimStart | src/language_negotiation_lambda.js:24 | `parseFloat` skips exactly the leading white space: what it drops is white space and what remains does not start with white space |
| JsNumbers.CountDigits | src/language_negotiation_lambda.js:24 | the digit run `parseFloat` reads is all digits and is maximal |
| JsNumbers.ParseFloatNaN | src/language_negotiation_lambda.js:24 | `parseFloat` gives NaN exactly when, after white space and sign, the text starts neither with `Infinity`, nor with a digit, nor with `.` and a digit |
| JsNumbers.ParseFloatDecimal | src/language_negotiation_lambda.js:24 | `parseFloat` of digits `a`, `.`, digits `b`, followed by nothing or by a character other than a digit, `e` or `E`, is exactly the decimal `a.b` |
| JsNumbers.ParseFloatInteger | src/language_negotiation_lambda.js:24 | `parseFloat` of a digit run followed by nothing or by a character other than a digit, `.`, `e` or `E` is the integer value of the run |
| Candidates.SanitizeLocale | src/language_negotiation_lambda.js:18 | the sanitized locale has the first two characters of the locale (fewer when it is shorter), each lower-cased |
| Candidates.SanitizedLocaleSupported | src/language_negotiation_lambda.js:18-27 | a locale passes the supported-language filter exactly when it starts with `e`/`E` followed by `n`/`N`/`s`/`S`; nothing is trimmed |
| Candidates.TokenCandidateParts | src/language_negotiation_lambda.js:13-25 | for every token, read off by position: the locale is the sanitized text before the first `;`; the weight is 1.0 when there is no `;` or the text between the first and second `;` is empty (so `en;q=0.5;level=1` reads `q=0.5`), and otherwise `parseFloat` of that text from its third character on, with NaN and zero read as 0.0 |
| Candidates.WeightOfPart | src/language_negotiation_lambda.js:22-24 | a non-empty weight part gives 0.0 exactly when `parseFloat` of it from its third character is NaN or zero, and the parsed number otherwise |
| Candidates.GetSelectableLanguages | src/language_negotiation_lambda.js:10-36 | the `forEach` loop pushes exactly the candidates of `Selectable`: the supported tokens' pairs, in input order |
| Candidates.SelectableIsFilter | src/language_negotiation_lambda.js:12-33 | the candidate list is the order-preserving filter of the tokens: its `k`-th entry is the pair of the `k`-th supported token, and a token is represented exactly when its sanitized locale is supported |
| Candidates.SelectableSupported | src/language_negotiation_lambda.js:27-32 | every candidate's locale is supported, and there are no more candidates than tokens |
| Candidates.TokenWithoutWeight | src/language_negotiation_lambda.js:16-20 | a token without `;` has weight 1.0 |
| Candidates.TokenWithEmptyWeight | src/language_negotiation_lambda.js:16-22 | an empty weight part (`en;`, `en;;q=0.5`) is falsy, so the weight stays 1.0 |
| Candidates.TokenInTwoParts | src/language_negotiation_lambda.js:13-16 | a token with one `;` has the text before it as locale and the text after it as weight |
| Candidates.TokenWithDecimalWeight | src/language_negotiation_lambda.js:22-25 | a weight part made of any two characters followed by `a.b` gives weight `a.b`: the `q=` prefix is not checked (in JavaScript, for two characters of the Basic Multilingual Plane; see "Left out") |
| Candidates.TokenWithUnparsableWeight | src/language_negotiation_lambda.js:22-25 | a weight part with no number after its first two characters gives weight 0.0; the pair is still built, so a bad weight never drops the candidate |
| Candidates.WeightOfUnparsable | src/language_negotiation_lambda.js:24 | a non-empty weight whose `parseFloat` is NaN is read as 0.0 |
| WeightSort.InOrderTransitive | src/language_negotiation_lambda.js:42-44 | the comparator order on candidates is transitive |
| WeightSort.InOrderAntisymmetric | src/language_negotiation_lambda.js:42-44 | two candidates that the comparator allows in either order have equal weights |
| WeightSort.WithWeightMembers | src/language_negotiation_lambda.js:42-44 | the candidates of one weight are exactly the members of that weight |
| WeightSort.SortByWeightPermutation | src/language_negotiation_lambda.js:42-44 | the sort is a permutation of the candidates |
| WeightSort.SortByWeightSorted | src/language_negotiation_lambda.js:42-44 | the sorted candidates are ascending under the comparator |
| WeightSort.SortByWeightStable | src/language_negotiation_lambda.js:42-44 | the sort is stable: among candidates of equal weight the input order is kept |
| WeightSort.SortedStableIsUnique | src/language_negotiation_lambda.js:42-44 | two sorted sequences that are stable rearrangements of each other are equal |
| WeightSort.SortByWeightIsTheStableSort | src/language_negotiation_lambda.js:42-44 | any sorted, stable rearrangement of the candidates is `SortByWeight` of them, whatever stable algorithm produced it |
| WeightSort.LatestMaximumIsUnique | src/language_negotiation_lambda.js:45 | there is at most one latest candidate of greatest weight |
| WeightSort.LastOfSortByWeight | src/language_negotiation_lambda.js:42-45 | the last sorted candidate, the one `pop` takes, is the latest candidate of greatest weight |
| WeightSort.LatestMaximumAtPositions | src/language_negotiation_lambda.js:27-45 | the latest maximum of the filtered candidates is also the latest maximum among the kept positions of all tokens |
| WeightSort.InsertInPlace | src/language_negotiation_lambda.js:42-44 | shifting the heavier elements right and storing the element makes the prefix the stable insertion of that element, and leaves the rest of the array unchanged |
| WeightSort.SortAscending | src/language_negotiation_lambda.js:42-44 | sorting the array in place leaves it equal to `SortByWeight` of its old contents |
| Negotiation.Negotiate | src/language_negotiation_lambda.js:39-46 | the language read after the in-place sort is `NegotiatedLanguage` of the header value |
| Negotiation.Request.constructor | src/language_negotiation_lambda.js:3-4 | a request carries the given headers |
| Negotiation.Request.Handle | src/language_negotiation_lambda.js:38-50 | the handler forwards the same request object, and its headers become `HandledHeaders` of the old headers |
| Negotiation.HandledHeadersFrame | src/language_negotiation_lambda.js:38-49 | every header other than `X-Accept-Language` keeps its presence and value; `X-Accept-Language` is set to the negotiated language when `Accept-Language` is truthy; otherwise the headers are unchanged |
| Negotiation.NegotiatedIsSupported | src/language_negotiation_lambda.js:40-45 | the selected language is always `en` or `es` |
| Negotiation.NegotiatedDefault | src/language_negotiation_lambda.js:40-41 | when no token has a supported locale, the selected language is the default `en` |
| Negotiation.NegotiatedFromCandidates | src/language_negotiation_lambda.js:41-45 | the selected language is the locale of the latest candidate of greatest weight |
| Negotiation.KeptTokensAtMost | src/language_negotiation_lambda.js:27-45 | no supported token weighs more than the token of the selected candidate |
| Negotiation.LaterKeptTokensLess | src/language_negotiation_lambda.js:27-45 | every supported token after the selected one weighs strictly less |
| Negotiation.NegotiatedIsLatestMaximum | src/language_negotiation_lambda.js:39-45 | when some token is supported, the selected language is that of a supported token that no supported token outweighs and after which every supported token weighs strictly less |
| NegotiationCases.TokensOfTwo | src/language_negotiation_lambda.js:39 | a header with one comma is its two tokens |
| NegotiationCases.SelectableOfTwoKept | src/language_negotiation_lambda.js:12-33 | two supported tokens give their two candidates in order |
| NegotiationCases.SortTwo | src/language_negotiation_lambda.js:42-44 | two candidates already in comparator order stay in place |
| NegotiationCases.EnSelectsEn | spec/src/language_negotiation_lambda_spec.js:42 | header `en` selects `en` |
| NegotiationCases.DeSelectsDefault | spec/src/language_negotiation_lambda_spec.js:44 | header `de` selects the default `en` |
| NegotiationCases.WeightedEnThenEsSelectsEs | spec/src/language_negotiation_lambda_spec.js:45 | header `en;q=0.8,es` selects `es`, whose weight defaults to 1.0 |
| NegotiationCases.NaNWeightKeepsEs | spec/src/language_negotiation_lambda_spec.js:49 | header `es;q=NaN` still selects `es`, with weight 0.0 |
| NegotiationCases.NaNEsThenEnSelectsEn | spec/src/language_negotiation_lambda_spec.js:50 | header `es;q=NaN,en;q=0.01` selects `en`: 0.01 beats the coerced 0.0 |
| NegotiationCases.EnUsSelectsEn | spec/src/language_negotiation_lambda_spec.js:54 | header `EN-US` selects `en` |
| NegotiationCases.TokenWithNaNWeight | src/language_negotiation_lambda.js:22-25 | a weight part whose number text starts with `N` gives weight 0.0 |
| NegotiationCases.SingleSupportedToken | src/language_negotiation_lambda.js:39-45 | a header that is one token with no `,` or `;` and a supported sanitized locale selects that locale |
| NegotiationCases.TwoKeptTokens | src/language_negotiation_lambda.js:39-45 | with two supported tokens whose weights are in comparator order, the second is selected |
| NegotiationCases.UnkeptThenKept | src/language_negotiation_lambda.js:39-45 | an unsupported token followed by a supported one selects the supported one |
| NegotiationCases.TokensOfThree | src/language_negotiation_lambda.js:39 | a header with two commas splits into its three tokens |
| NegotiationCases.UnkeptThenTwoKept | src/language_negotiation_lambda.js:39-45 | an unsupported token followed by two supported ones in comparator order selects the last |
| NegotiationCases.EsSelectsEs | spec/src/language_negotiation_lambda_spec.js:43 | header `es` selects `es` |
| NegotiationCases.WeightedEsThenEnSelectsEn | spec/src/language_negotiation_lambda_spec.js:46 | header `es;q=0.8,en` selects `en`, whose weight defaults to 1.0 |
| NegotiationCases.DeThenWeightedEnSelectsEn | spec/src/language_negotiation_lambda_spec.js:47 | header `de,en;q=0.8` selects `en`: `de` is dropped |
| NegotiationCases.DeThenWeightedEsSelectsEs | spec/src/language_negotiation_lambda_spec.js:48 | header `de,es;q=0.8` selects `es`: `de` is dropped |
| NegotiationCases.ThreeTokensSelectHeaviest | spec/src/language_negotiation_lambda_spec.js:51 | header `de,en;q=0.2,es;q=0.8` selects `es`: `de` is dropped and 0.8 outweighs 0.2 |
| NegotiationCases.UpperEnSelectsEn | spec/src/language_negotiation_lambda_spec.js:52 | header `EN` selects `en` |
| NegotiationCases.UpperEsSelectsEs | spec/src/language_negotiation_lambda_spec.js:53 | header `ES` selects `es` |
| NegotiationCases.EsLatinAmericaSelectsEs | spec/src/language_negotiation_lambda_spec.js:55 | header `ES-419` is cut to `es` and selects it |
| NegotiationCases.TieSelectsLater | src/language_negotiation_lambda.js:42-45 | with equal weights the later token wins: `en,es` selects `es` |
| NegotiationCases.SingleUnsupportedToken | src/language_negotiation_lambda.js:39-41 | a header of one token, with no `,` or `;` and a first character other than `e`/`E`, selects the default |
| NegotiationCases.GarbageSelectsDefault | spec/src/language_negotiation_lambda_spec.js:78 | header `dhbeiyu292dfiue2` selects the default `en` |
| NegotiationCases.EmptyHeaderIsLeftAlone | src/language_negotiation_lambda.js:38 | an empty `Accept-Language` string is falsy, so `X-Accept-Language` is not written |

## Left out

- Cookies are not part of this model. The handler in
  `src/language_negotiation_lambda.js` does not read them.
- The Lambda event envelope (`event.Records[0].cf.request`) is left out. The
  `callback(null, request)` call is left out too; it is modelled as `Handle`
  returning the request it changed.
- Header values are plain strings, as the handler indexes them. The test file
  wraps each value in an array (`[header]`), so its rows for `""`, `undefined`,
  `NaN` and `null` see a truthy array and expect the default. In the model, the
  empty string is falsy and the header is left alone
  (`NegotiationCases.EmptyHeaderIsLeftAlone`). Non-string values are outside the
  model, and the `TypeError` a non-string value raises is left out.
- Exceptions, `try`/`catch` and console logging are left out, because the
  handler has none.
- `JsNumbers.ParseFloat`: finite weights are exact reals. IEEE 754 rounding,
  overflow to `Infinity`, underflow to zero and signed zero are not modelled.
  `-0` is read as 0.0 by `|| 0.0` either way. Underflow changes the result.
  In JavaScript, `parseFloat("1e-400")` is 0, which `|| 0.0` turns into 0.0.
  The model keeps the exact value 10^-400. So for `en;q=1e-400,es;q=0`,
  JavaScript ties the two at 0.0 and selects `es`, while the model selects
  `en`.
- SubstringFrom: strings are sequences of Unicode scalar values, so
  `JsStrings.SubstringFrom` counts characters, while `substring(2)` counts
  UTF-16 code units. The two agree when the first two characters of the weight
  part are in the Basic Multilingual Plane. For a part starting with a character
  outside it, the model drops one character too many: for `en;😀1.5` the model
  reads `.5` (weight 0.5), where JavaScript reads `1.5`. `split` at `,` and `;`
  and the locale filter on `e`, `n`, `s` are not affected.
- TokenWithDecimalWeight: "any two characters before the number" holds in
  JavaScript only when both are in the Basic Multilingual Plane, for the same
  reason as for `SubstringFrom`. With a prefix such as `😀x`, JavaScript parses
  `x0.5` to NaN and the weight is 0.0.
- `JsStrings.ToLowerCase`: only ASCII letters are lower-cased. Full Unicode
  case mapping is not modelled. No non-ASCII character lower-cases to `e`, `n`
  or `s`, so the supported-language filter decides the same.
- `WeightSort.SortAscending`: V8 uses a TimSort, and the model uses a stable
  insertion sort. `WeightSort.SortByWeightIsTheStableSort` shows that every
  stable sort under this comparator gives the same array.
- `Negotiation.Negotiate`: `pop` is modelled as reading the last element. The
  removal is not modelled, because the array is discarded right after.
- Numbers are always `Number` values here. The `weight` field is never
  `undefined` or a string.
