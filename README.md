# Stock target-price calculator: valuation engine and language negotiation

This project models the two computational parts of the stock target-price
calculator in Dafny and proves properties of them.

* **The valuation engine** (`utils/pricing.ts`) starts from a stock's
  current price and its current multiples: PER (price to earnings), PBR
  (price to book value) and dividend yield in percent. From these it
  derives the implied per-share fundamentals: EPS, BPS and dividend.
  It then computes the price at which each *target* multiple would hold.
  Finally it reports the "bottleneck": the lowest valid candidate price
  and the method that produced it. Ties go to the method listed first
  (PER, then PBR, then yield).
* **Language negotiation** (`utils/i18n.ts`) reads an HTTP Accept-Language
  header (section 5.3.5 of RFC 7231) and picks English or Japanese. The
  steps are:
  1. Split the header on `,`.
  2. Trim each entry.
  3. Split each entry on `;` into a tag and an optional `q=` parameter.
  4. Read the quality with `parseFloat`.
  5. Sort the entries by descending quality with a stable sort.
  6. Return the language of the first tag that is `ja`/`ja-…` or `en`/`en-…`.
  7. If no tag matches, return the default locale, English.

  Qualities are read more loosely than section 5.3.1 of RFC 7231 describes
  (`utils/i18n.ts:14-15`), and the model reads them the same way:
  * The parameter's name is not checked. Only the first parameter is read,
    so `ja;level=1;q=0.1` has quality 1.
  * Values outside 0 to 1 are kept as they are: `q=5` is quality 5.
  * `q=0` does not rule a language out. `ja;q=0` still selects Japanese
    when no other entry is recognised (`utils/i18n.ts:19-21`).

The project has five modules.

* `Wrappers` holds `Option`. `None` stands for JavaScript's `null`, or for
  NaN where the source would produce one.
* `StableSort` (`stable_sort.dfy`) sorts by a real-valued key.
  * `Sort` is the reference definition. It is an insertion sort, which is
    stable.
  * `SortByKey` sorts an array in place. It is proved equal to `Sort`.
  * Lemmas prove that the sort is a permutation, that it is stable, and
    what its head is. The lemma for the head is used twice: for "first
    minimum" in the bottleneck and for "first recognised after sorting" in
    negotiation.
* `Text` (`text.dfy`) models the ECMAScript string operations the parser
  uses: `split` on one character, `trim`, `startsWith` and `parseFloat`.
* `Pricing` (`pricing.dfy`) models the valuation engine.
* `I18n` (`i18n.dfy`) models language negotiation.

`calculateTargetPrices` and `detectLanguage` are modelled as methods.
Each one copies its candidates into an array, sorts that array in place
with `SortByKey` and reads the result, as the source does with
`Array.prototype.sort`.

Numbers are modelled as mathematical reals. The engine's guards test
JavaScript truthiness, which for a number means "non-zero", and the model
writes them that way. A `null` input behaves as `0` in every expression of
the engine, so inputs are plain reals.

Points where the code's behaviour is easy to misread:

* EPS is derived for any non-zero PER, so a negative PER gives a negative
  EPS; BPS and PBR work the same way (`utils/pricing.ts:24-25`).
  `CalculateFundamentals` states this.
* An unreadable quality is NaN (`utils/i18n.ts:15`). The quality is
  `parseFloat` of the text after `=`, or of `undefined` when there is no
  `=`. The model keeps the NaN (`None`).
  * With a NaN the comparator `b.q - a.q` is inconsistent, and the
    ECMAScript standard leaves the resulting order to the implementation.
    The model therefore promises only what holds for every order: the
    result is the language of some recognised entry.
  * The precise "highest quality, leftmost among equals" result is
    promised only when no quality is NaN.
* Only the whole entry is trimmed (`utils/i18n.ts:14`). A space just
  before `;` therefore stays part of the tag, so `ja ;q=0.9` is not
  recognised. The model does the same.

## Model

| member | source | states |
|---|---|---|
| Pricing.CalculateFundamentals | utils/pricing.ts:22-28 | Each derived figure reproduces its multiple: EPS × PER = price and BPS × PBR = price when the multiple is non-zero. A zero multiple gives a zero figure. The dividend is price × yield / 100. |
| Pricing.PerPrice | utils/pricing.ts:34 | The PER price is absent exactly when EPS is zero. Otherwise it is the price whose ratio to EPS is the target PER. |
| Pricing.PbrPrice | utils/pricing.ts:35 | The PBR price is absent exactly when BPS is zero. Otherwise it is the price whose ratio to BPS is the target PBR. |
| Pricing.YieldPrice | utils/pricing.ts:36-38 | The yield price is absent exactly when the dividend or the target yield is zero. Otherwise it is the non-zero price at which the dividend yields exactly the target percentage. |
| Pricing.ValidPrices | utils/pricing.ts:40-46 | The filtered candidate list holds exactly the positive candidates, each tagged with its own method and price, in per, pbr, yield order. |
| Pricing.FirstMinIsBottleneck | utils/pricing.ts:58-60 | The first of the lowest valid candidates is its method's own positive price. It is no higher than any valid candidate. No equally low candidate comes before it in method order. |
| Pricing.CalculateTargetPrices | utils/pricing.ts:30-69 | Returns the three candidates unchanged. When no candidate is valid, minPrice and bottleneck are both null. Otherwise minPrice is the bottleneck's own candidate, it is valid, no valid candidate is lower, and among equal minima the bottleneck is the earliest of per, pbr, yield. |
| Pricing.UnchangedMultiplesGiveCurrentPrice | utils/pricing.ts:22-38 | Round trip: with targets equal to the current multiples, every method that applies gives back the current price. |
| Pricing.FundamentalsExamples | utils/pricing_test.ts:4-28 | The derivations for price 1000 with PER 20, PBR 2 and yield 3, and with all multiples zero. |
| StableSort.FilterMembers | utils/i18n.ts:19-26 | Filtering keeps exactly the elements that satisfy the predicate, and only those. The negotiation contracts use it to name the recognised entries in header order. |
| StableSort.Sort | utils/pricing.ts:59 | The reference sort: same length as its input and in non-decreasing key order. |
| StableSort.SortPermutes | utils/pricing.ts:59 | Sorting neither adds nor drops elements: the result has the same multiset as the input. |
| StableSort.SortIsStable | utils/i18n.ts:17 | Filtering after sorting equals sorting after filtering. |
| StableSort.SortEqualKeys | utils/i18n.ts:17 | A sequence whose elements all have the same key is left unchanged by the sort. |
| StableSort.SortKeepsEqualKeyOrder | utils/i18n.ts:17 | Stability: elements that share one key appear in the sorted sequence in the same order as in the input. |
| StableSort.SortHead | utils/pricing.ts:59-60 | The head of the sorted sequence is the first element that has the least key. |
| StableSort.FirstMatchAfterSort | utils/i18n.ts:17-26 | The first element of the sorted sequence that satisfies a predicate is the first least-keyed element among the elements that satisfy it. |
| StableSort.NoMatchAfterSort | utils/i18n.ts:19-28 | If no element of the sorted sequence satisfies a predicate, no element of the input does. |
| StableSort.SortByKey | utils/i18n.ts:17 | After the in-place sort the array holds exactly the reference sort of its old contents. |
| Text.Split | utils/i18n.ts:13 | `split` returns at least one piece, and no piece contains the separator. |
| Text.JoinSplit | utils/i18n.ts:13 | Joining the pieces of a split with the separator gives back the original string. |
| Text.SplitJoin | utils/i18n.ts:13 | Splitting a join of separator-free pieces gives back those pieces. |
| Text.SplitFirst | utils/i18n.ts:14 | The first piece is the prefix of the string up to its first separator. |
| Text.SplitNoSeparator | utils/i18n.ts:14-15 | A string without the separator splits into itself alone. |
| Text.Trim | utils/i18n.ts:14 | `trim` returns a contiguous part of its input. Only whitespace lies outside that part, and the result neither starts nor ends with whitespace. |
| Text.TrimIgnoresPadding | utils/i18n.ts:14 | Whitespace added around a string does not change its trim. |
| Text.TrimNoPadding | utils/i18n.ts:14 | A non-empty string with no whitespace at either end is its own trim. |
| Text.TrimIdempotent | utils/i18n.ts:14 | Trimming twice is the same as trimming once. |
| Text.ParseFloat | utils/i18n.ts:15 | `parseFloat` gives NaN exactly when no numeral follows the leading whitespace and sign. Without a minus sign the value is non-negative. |
| Text.ParseFloatInteger | utils/i18n.ts:15 | `parseFloat` of an integer numeral is the value of its digits. |
| Text.ParseFloatSkipsBlanks | utils/i18n.ts:15 | Leading whitespace does not change what `parseFloat` reads, as in `q= 0.5`. |
| Text.ParseFloatDecimal | utils/i18n.ts:15 | `parseFloat` of a decimal numeral `ds.fs` is the value of its integer digits plus the value of its fraction digits. |
| I18n.QualityOf | utils/i18n.ts:15 | The quality is NaN when the parameter has no `=`. Otherwise it is `parseFloat` of the text between the first and the second `=`. |
| I18n.QualityOfNumeral | utils/i18n.ts:15 | For a parameter `key=num` with no other `=`, the quality is `parseFloat(num)`. |
| I18n.ParseEntry | utils/i18n.ts:13-16 | The tag is the part of the trimmed entry before its first `;` and contains no `;`. An entry without `;` has its trimmed self as tag and quality 1.0. |
| I18n.EmptyParamIsOne | utils/i18n.ts:14-15 | An entry `code;` with an empty parameter has tag `code` and quality 1.0. |
| I18n.ParseTaggedEntry | utils/i18n.ts:14-16 | An entry `code;param` with nothing to trim has tag `code`, and its quality is read from `param`. |
| I18n.ParseEntryIgnoresPadding | utils/i18n.ts:14 | Whitespace around an entry does not change how it is read. |
| I18n.ParseEntriesOfPieces | utils/i18n.ts:13-16 | A header joined with `,` from any number of comma-free pieces parses to one entry per piece, each parsed on its own, in header order. |
| I18n.FirstMinIsPreferred | utils/i18n.ts:17 | The first entry with the least key `-q` has the highest quality and is the leftmost entry with that quality. |
| I18n.FirstRecognisedIsPreferred | utils/i18n.ts:17-26 | After the stable descending sort, the first recognised entry is the recognised entry with the highest quality, the leftmost one among equals. |
| I18n.ChooseLanguage | utils/i18n.ts:17-28 | With no recognised entry the result is the default locale. Otherwise it is the language of some recognised entry. When no quality is NaN, it is the language of the preferred recognised entry. |
| I18n.DetectLanguage | utils/i18n.ts:8-29 | An absent or empty header gives the default locale. Any other header is parsed, and the language is chosen as ChooseLanguage states. |

## Left out

- The HTTP server, the page views, the client-side store, the scripts and the translated-text dictionary (`utils/i18n.ts:31` on) are not part of this model. The header reaches `DetectLanguage` as a parameter.
- The implied multiples that the calculator view derives from the minimum price are not part of this model.
- IEEE-754 doubles: the model computes with exact reals. Rounding, overflow to Infinity, and NaN arising inside the engine are not modelled. This includes the engine's `!== Infinity` and `isNaN` checks on candidates, which reals make vacuous.
- Text.ParseFloat: exponents (`1e-1`) and the `Infinity` spelling are not read. A numeral is read only up to its decimal digits.
- I18n.ChooseLanguage: when some quality is NaN, the engine's order is implementation-defined. The model sorts such an entry as if its quality were 1.0, and the contract promises only what holds for every order.
- Strings are sequences of Unicode characters rather than UTF-16 code units. This matters only for whitespace outside the Basic Multilingual Plane, which ECMAScript does not have.
