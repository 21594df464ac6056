# Quote collection model

A Dafny model of the logic of the dynamic quote page in
`dom-manipulation/script.js`: the module-level `quotes` collection of
`{text, category}` records, `addQuote` (the only operation that changes it),
the real-time `validateForm` check of the add form, the two filters
`filterQuotesByCategory` and `searchQuotes`, the random pick of
`showRandomQuote` and `getRandomQuoteFromCategory`, and the two numbers of
the statistics line.

`script.js` keeps its quotes in memory only; it has no persistence,
networking or synchronisation code.

Layout:

- `text.dfy`, module `Text`: the ECMAScript string operations the page
  relies on: `trim` (`TrimStart`, `TrimEnd`, `Trim`, with the exact set of
  WhiteSpace and LineTerminator code points), `toLowerCase` (`Lower`, ASCII
  letters only) and `includes` (`Contains`).
- `quotes.dfy`, module `Quotes`: the `Quote` record, a generic
  `Array.prototype.filter` (`Filter`) with its full characterisation, the
  two filters, the random picks (the value of `Math.random()` is a
  parameter in `[0, 1)`), `Validate` and the statistics.
- `store.dfy`, module `Store`: the eight initial quotes and the class
  `QuoteStore`, whose `quotes` field is the page's array and whose method
  `AddQuote` is `addQuote` (`ShowRandomQuote` is the pick of
  `showRandomQuote`). Its invariant `Valid()` says every record has
  non-empty text and category and that the collection is never empty.

## Model

| member | source | states |
|---|---|---|
| Text.TrimStart | dom-manipulation/script.js:69-70 | the result is a suffix of the input, everything dropped is whitespace, and it does not start with whitespace |
| Text.TrimEnd | dom-manipulation/script.js:69-70 | the result is a prefix of the input, everything dropped is whitespace, and it does not end with whitespace |
| Text.Trim | dom-manipulation/script.js:69-70 | the result has no whitespace at either end and is a slice of the input surrounded only by whitespace |
| Text.TrimOfTrimmed | dom-manipulation/script.js:138-139 | trimming a string without whitespace at its ends returns it unchanged |
| Text.TrimIdempotent | dom-manipulation/script.js:138-139 | trimming twice is trimming once |
| Text.TrimEmptyIff | dom-manipulation/script.js:73 | an input trims to the empty string exactly when it consists of whitespace only |
| Text.Lower | dom-manipulation/script.js:210 | lower-casing keeps the length, maps each character through the ASCII case map and leaves no upper-case letter |
| Text.LowerOfSameIgnoringCase | dom-manipulation/script.js:210 | strings that differ only in letter case lower-case to the same string |
| Text.LowerIdempotent | dom-manipulation/script.js:217 | lower-casing twice is lower-casing once |
| Text.Contains | dom-manipulation/script.js:210 | `includes` holds exactly when the term occurs at some index of the string |
| Text.ContainsEmpty | dom-manipulation/script.js:217 | every string includes the empty string |
| Text.ContainsSelf | dom-manipulation/script.js:210 | every string includes itself |
| Quotes.Filter | dom-manipulation/script.js:209-211 | `filter` returns no more elements than its input, all of them accepted by the test |
| Quotes.SubsequenceMultiset | dom-manipulation/script.js:209-211 | a subsequence holds each element at most as often as the sequence it comes from |
| Quotes.FilterSubsequence | dom-manipulation/script.js:209-211 | the result of `filter` is a subsequence of its input (original relative order) |
| Quotes.FilterCounts | dom-manipulation/script.js:216-218 | `filter` keeps every accepted element exactly as often as it occurs and nothing else |
| Quotes.FilterMembers | dom-manipulation/script.js:216-218 | an element is in the result exactly when it is in the input and accepted |
| Quotes.FilterUnique | dom-manipulation/script.js:209-211 | any subsequence of accepted elements with the input's multiplicities of accepted elements is the filter result |
| Quotes.FilterCharacterized | dom-manipulation/script.js:209-211 | a sequence is the filter result if and only if it is such a subsequence |
| Quotes.FilterCongruent | dom-manipulation/script.js:216-218 | two tests that agree on every element filter identically |
| Quotes.FilterAll | dom-manipulation/script.js:216-218 | a test accepting every element keeps the whole input |
| Quotes.FilterAppend | dom-manipulation/script.js:209-211 | filtering `s + [x]` gives the filter of `s`, then `x` when it is accepted |
| Quotes.FilterByCategory | dom-manipulation/script.js:208-212 | the result is a subsequence of the collection holding exactly the quotes whose lower-cased category includes the lower-cased query, with their multiplicities |
| Quotes.Search | dom-manipulation/script.js:215-219 | the result is a subsequence of the collection holding exactly the quotes whose lower-cased text includes the lower-cased term, with their multiplicities |
| Quotes.FilterByCategoryIgnoresCase | dom-manipulation/script.js:210 | two category queries that differ only in letter case give the same result |
| Quotes.SearchIgnoresCase | dom-manipulation/script.js:217 | two search terms that differ only in letter case give the same result |
| Quotes.SearchEmptyTermKeepsAll | dom-manipulation/script.js:215-219 | an empty search term returns the whole collection |
| Quotes.FilterByCategoryAppend | dom-manipulation/script.js:208-212 | after an append, the category filter gains the new quote at its end exactly when it matches |
| Quotes.SearchAppend | dom-manipulation/script.js:215-219 | after an append, the search gains the new quote at its end exactly when it matches |
| Quotes.PickIndex | dom-manipulation/script.js:227 | `Math.floor(Math.random() * n)` is an index below `n` |
| Quotes.PickIndexReaches | dom-manipulation/script.js:227 | every index below `n` is drawn by some random value in `[0, 1)` |
| Quotes.RandomQuote | dom-manipulation/script.js:42-43 | the random pick of a non-empty collection is one of its quotes |
| Quotes.RandomFromCategory | dom-manipulation/script.js:222-229 | the result is null exactly when the category filter is empty; otherwise it is a quote of the collection whose category matches |
| Quotes.RandomFromPresentCategory | dom-manipulation/script.js:222-229 | a query that the category of some stored quote matches (case-insensitive substring) always yields a quote |
| Quotes.Validate | dom-manipulation/script.js:137-153 | valid exactly when both trimmed fields are non-empty, the "fill in both" outcome exactly when one is, and the blank outcome exactly when both inputs are all whitespace |
| Quotes.ValidateIffWellFormed | dom-manipulation/script.js:141-144 | the form is valid exactly when the record built from the trimmed inputs keeps the collection invariant |
| Quotes.MessageIffIncomplete | dom-manipulation/script.js:145-151 | the "Please fill in both fields" message is shown exactly when one trimmed field is empty and the other is not |
| Quotes.Categories | dom-manipulation/script.js:182 | a string is a category exactly when some quote has it; there are at most as many categories as quotes, and at least one when there are quotes |
| Quotes.Statistics | dom-manipulation/script.js:181-182 | the total is the number of quotes and the category count is at most the total, and positive when the total is |
| Quotes.CategoriesAppend | dom-manipulation/script.js:182 | appending a quote adds exactly its category to the category set |
| Quotes.StatisticsAfterAppend | dom-manipulation/script.js:181-182 | after an append the total grows by one and the category count grows by one exactly when the category is new (the formula of the statistics line; the page computes that line only once, at load, and `addQuote` does not refresh it) |
| Store.InitialQuotes | dom-manipulation/script.js:2-35 | the initial collection has eight records, all with non-empty text and category |
| Store.QuoteStore.constructor | dom-manipulation/script.js:2-35 | the store starts with the initial collection and satisfies its invariant |
| Store.QuoteStore.ShowRandomQuote | dom-manipulation/script.js:38-43 | the quote shown is one of the collection's, and it has non-empty text and category |
| Store.QuoteStore.AddQuote | dom-manipulation/script.js:68-98 | adds exactly when the form would validate; then appends one record of the trimmed inputs and nothing else changes, otherwise the collection is unchanged; the invariant is kept |

## Left out

- DOM work, styles, opacity animation, `alert`, the success message, clearing the inputs, event listeners, the `DOMContentLoaded` bootstrap and the `window.QuoteGenerator` export: presentation and browser plumbing with no logic of the collection.
- `setTimeout`: it only delays rendering.
- `Math.random()` is a parameter of the random picks, a real number in `[0, 1)`.
- Quotes.PickIndex: computes `floor(rnd * n)` over exact real numbers; the rounding of the floating-point product is not modelled.
- Text.Lower: maps only the ASCII letters `A`-`Z`; the full Unicode case mapping of `toLowerCase` (including mappings that change the length of a string) is not modelled, so the case-insensitivity lemmas speak of ASCII letter case.
- Text.Trim: the whitespace set is the fixed list of ECMAScript WhiteSpace and LineTerminator code points (space separators as of current Unicode), not a Unicode database lookup.
- Store.InitialQuotes: its contract states the count and the invariant; the texts themselves are the body.
- The category count compares category strings exactly, as a JavaScript `Set` of strings does; the model does not treat categories that differ only in case as equal, and neither does the source.
- Strings are sequences of Unicode scalar values, while JavaScript strings are sequences of UTF-16 code units; strings holding lone surrogates, and the indices of characters outside the Basic Multilingual Plane, are not modelled.
- The arguments of `filterQuotesByCategory`, `searchQuotes` and `getRandomQuoteFromCategory` are typed as strings; called with a non-string, the page throws a `TypeError` at `toLowerCase`, and that failure is not modelled.
