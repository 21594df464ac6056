/**
 * The quote records and the pure operations over a collection of them:
 * the category filter, the text search, the random pick from a category,
 * the add-form validation and the statistics line.
 */
module Quotes {
  import opened Text

  /** One entry of the collection: `{text, category}`. */
  datatype Quote = Quote(text: string, category: string)

  datatype Option<T> = None | Some(value: T)

  /** The invariant every stored record keeps: both fields are non-empty. */
  predicate WellFormed(q: Quote) {
    |q.text| > 0 && |q.category| > 0
  }

  // ---------------------------------------------------------------------------
  // Filtering
  // ---------------------------------------------------------------------------

  /** `a` can be obtained from `b` by deleting elements. */
  predicate Subsequence<T(==)>(a: seq<T>, b: seq<T>)
    decreases |b|
  {
    |a| == 0 || (|b| > 0 && ((a[0] == b[0] && Subsequence(a[1..], b[1..])) || Subsequence(a, b[1..])))
  }

  lemma {:induction false} SubsequenceMultiset<T>(a: seq<T>, b: seq<T>)
    requires Subsequence(a, b)
    ensures multiset(a) <= multiset(b)
    decreases |b|
  {
    if a == [] {
    } else if a[0] == b[0] && Subsequence(a[1..], b[1..]) {
      SubsequenceMultiset(a[1..], b[1..]);
      assert a == [a[0]] + a[1..] && b == [b[0]] + b[1..];
    } else {
      SubsequenceMultiset(a, b[1..]);
      assert b == [b[0]] + b[1..];
    }
  }

  /** `Array.prototype.filter`: the elements `keep` accepts, in their original order. */
  function Filter<T>(s: seq<T>, keep: T -> bool): (r: seq<T>)
    ensures |r| <= |s|
    ensures forall i :: 0 <= i < |r| ==> keep(r[i])
    decreases |s|
  {
    if s == [] then []
    else
      var rest := Filter(s[1..], keep);
      if keep(s[0]) then [s[0]] + rest else rest
  }

  /** The result of a filter is a subsequence of its input. */
  lemma {:induction false} FilterSubsequence<T>(s: seq<T>, keep: T -> bool)
    ensures Subsequence(Filter(s, keep), s)
    decreases |s|
  {
    if s != [] {
      FilterSubsequence(s[1..], keep);
      var rest := Filter(s[1..], keep);
      if keep(s[0]) {
        assert ([s[0]] + rest)[1..] == rest;
      }
    }
  }

  /** A filter keeps every accepted element as often as it occurs, and nothing else. */
  lemma {:induction false} FilterCounts<T(!new)>(s: seq<T>, keep: T -> bool)
    ensures forall x :: multiset(Filter(s, keep))[x] == if keep(x) then multiset(s)[x] else 0
    decreases |s|
  {
    if s != [] {
      FilterCounts(s[1..], keep);
      assert s == [s[0]] + s[1..];
    }
  }

  /** An element is in a filter's result exactly when it is in the input and accepted. */
  lemma FilterMembers<T(!new)>(s: seq<T>, keep: T -> bool)
    ensures forall x :: x in Filter(s, keep) <==> x in s && keep(x)
  {
  }

  /** The properties stated by `Filter` determine its result: any subsequence of
      accepted elements with the right multiplicities is the filter. */
  lemma {:induction false} FilterUnique<T(!new)>(s: seq<T>, keep: T -> bool, r: seq<T>)
    requires Subsequence(r, s)
    requires forall i :: 0 <= i < |r| ==> keep(r[i])
    requires forall x :: multiset(r)[x] == if keep(x) then multiset(s)[x] else 0
    ensures r == Filter(s, keep)
    decreases |s|
  {
    if s == [] {
      return;
    }
    var h := s[0];
    assert s == [h] + s[1..];
    if keep(h) {
      assert multiset(r)[h] > 0;
      assert r != [] && r[0] in r;
      if r[0] == h && Subsequence(r[1..], s[1..]) {
        assert r == [h] + r[1..];
        forall i | 0 <= i < |r[1..]| ensures keep(r[1..][i]) {
          assert r[1..][i] == r[i + 1];
        }
        FilterUnique(s[1..], keep, r[1..]);
      } else {
        assert Subsequence(r, s[1..]);
        SubsequenceMultiset(r, s[1..]);
        assert false;
      }
    } else {
      if r != [] {
        assert keep(r[0]);
        assert r[0] != h;
      }
      assert Subsequence(r, s[1..]);
      forall x ensures multiset(r)[x] == if keep(x) then multiset(s[1..])[x] else 0 {
        if keep(x) {
          assert x != h;
        }
      }
      FilterUnique(s[1..], keep, r);
    }
  }

  /** Subsequence, acceptance and multiplicities characterise a filter's result completely. */
  lemma FilterCharacterized<T(!new)>(s: seq<T>, keep: T -> bool, r: seq<T>)
    ensures r == Filter(s, keep) <==>
      && Subsequence(r, s)
      && (forall i :: 0 <= i < |r| ==> keep(r[i]))
      && (forall x :: multiset(r)[x] == if keep(x) then multiset(s)[x] else 0)
  {
    FilterSubsequence(s, keep);
    FilterCounts(s, keep);
    if Subsequence(r, s) && (forall i :: 0 <= i < |r| ==> keep(r[i]))
       && (forall x :: multiset(r)[x] == if keep(x) then multiset(s)[x] else 0) {
      FilterUnique(s, keep, r);
    }
  }

  /** Filters with tests that agree on every element give the same result. */
  lemma FilterCongruent<T(!new)>(s: seq<T>, keep: T -> bool, keep': T -> bool)
    requires forall x :: keep(x) == keep'(x)
    ensures Filter(s, keep) == Filter(s, keep')
  {
  }

  /** A test that accepts everything keeps the whole sequence. */
  lemma {:induction false} FilterAll<T(!new)>(s: seq<T>, keep: T -> bool)
    requires forall x :: x in s ==> keep(x)
    ensures Filter(s, keep) == s
    decreases |s|
  {
    if s != [] {
      FilterAll(s[1..], keep);
      assert s == [s[0]] + s[1..];
    }
  }

  /** Filtering a longer sequence: the result on `s + [x]` is the result on `s`,
      followed by `x` when `x` is accepted. */
  lemma {:induction false} FilterAppend<T(!new)>(s: seq<T>, x: T, keep: T -> bool)
    ensures Filter(s + [x], keep) == Filter(s, keep) + (if keep(x) then [x] else [])
    decreases |s|
  {
    var t := s + [x];
    var tail := if keep(x) then [x] else [];
    if s == [] {
      assert t[1..] == [];
      assert Filter(t, keep) == tail;
      assert Filter(s, keep) == [];
      assert [] + tail == tail;
    } else {
      assert t[0] == s[0] && t[1..] == s[1..] + [x];
      FilterAppend(s[1..], x, keep);
      var rest := Filter(s[1..], keep);
      assert Filter(t[1..], keep) == rest + tail;
      if keep(s[0]) {
        assert Filter(t, keep) == [s[0]] + (rest + tail);
        assert Filter(s, keep) == [s[0]] + rest;
        assert [s[0]] + (rest + tail) == ([s[0]] + rest) + tail;
      } else {
        assert Filter(t, keep) == rest + tail;
        assert Filter(s, keep) == rest;
      }
    }
  }

  /** The case-insensitive substring test of both filters, applied to `field`. */
  predicate MatchesTerm(field: string, term: string) {
    Contains(Lower(field), Lower(term))
  }

  /** filterQuotesByCategory: the quotes whose category includes `category`, ignoring case. */
  function FilterByCategory(qs: seq<Quote>, category: string): (r: seq<Quote>)
    ensures Subsequence(r, qs) && |r| <= |qs|
    ensures forall q :: q in r <==> q in qs && MatchesTerm(q.category, category)
    ensures forall q :: multiset(r)[q] == if MatchesTerm(q.category, category) then multiset(qs)[q] else 0
  {
    var keep := (q: Quote) => MatchesTerm(q.category, category);
    FilterSubsequence(qs, keep);
    FilterMembers(qs, keep);
    FilterCounts(qs, keep);
    Filter(qs, keep)
  }

  /** searchQuotes: the quotes whose text includes `searchTerm`, ignoring case. */
  function Search(qs: seq<Quote>, searchTerm: string): (r: seq<Quote>)
    ensures Subsequence(r, qs) && |r| <= |qs|
    ensures forall q :: q in r <==> q in qs && MatchesTerm(q.text, searchTerm)
    ensures forall q :: multiset(r)[q] == if MatchesTerm(q.text, searchTerm) then multiset(qs)[q] else 0
  {
    var keep := (q: Quote) => MatchesTerm(q.text, searchTerm);
    FilterSubsequence(qs, keep);
    FilterMembers(qs, keep);
    FilterCounts(qs, keep);
    Filter(qs, keep)
  }

  /** Two category queries that differ only in letter case give the same result. */
  lemma FilterByCategoryIgnoresCase(qs: seq<Quote>, a: string, b: string)
    requires SameIgnoringCase(a, b)
    ensures FilterByCategory(qs, a) == FilterByCategory(qs, b)
  {
    LowerOfSameIgnoringCase(a, b);
    FilterCongruent(qs, (q: Quote) => MatchesTerm(q.category, a), (q: Quote) => MatchesTerm(q.category, b));
  }

  /** Two search terms that differ only in letter case give the same result. */
  lemma SearchIgnoresCase(qs: seq<Quote>, a: string, b: string)
    requires SameIgnoringCase(a, b)
    ensures Search(qs, a) == Search(qs, b)
  {
    LowerOfSameIgnoringCase(a, b);
    FilterCongruent(qs, (q: Quote) => MatchesTerm(q.text, a), (q: Quote) => MatchesTerm(q.text, b));
  }

  /** Every text includes the empty string, so an empty search keeps the whole collection. */
  lemma SearchEmptyTermKeepsAll(qs: seq<Quote>)
    ensures Search(qs, "") == qs
  {
    forall q | q in qs ensures MatchesTerm(q.text, "") {
      ContainsEmpty(Lower(q.text));
    }
    FilterAll(qs, (q: Quote) => MatchesTerm(q.text, ""));
  }

  /** Adding a quote extends a category filter's result by that quote exactly when it matches. */
  lemma FilterByCategoryAppend(qs: seq<Quote>, q: Quote, category: string)
    ensures FilterByCategory(qs + [q], category)
         == FilterByCategory(qs, category) + (if MatchesTerm(q.category, category) then [q] else [])
  {
    FilterAppend(qs, q, (q': Quote) => MatchesTerm(q'.category, category));
  }

  /** Adding a quote extends a search's result by that quote exactly when it matches. */
  lemma SearchAppend(qs: seq<Quote>, q: Quote, searchTerm: string)
    ensures Search(qs + [q], searchTerm)
         == Search(qs, searchTerm) + (if MatchesTerm(q.text, searchTerm) then [q] else [])
  {
    FilterAppend(qs, q, (q': Quote) => MatchesTerm(q'.text, searchTerm));
  }

  // ---------------------------------------------------------------------------
  // Random picks
  // ---------------------------------------------------------------------------

  /** `Math.floor(rnd * n)` for `rnd` drawn from `[0, 1)`: an index below `n`. */
  function PickIndex(n: nat, rnd: real): (i: nat)
    requires n > 0 && 0.0 <= rnd < 1.0
    ensures i < n
  {
    assert 0.0 <= rnd * n as real < n as real;
    (rnd * n as real).Floor
  }

  /** Every index can be drawn: `rnd = k / n` picks index `k`. */
  lemma PickIndexReaches(n: nat, k: nat)
    requires k < n
    ensures 0.0 <= k as real / n as real < 1.0
    ensures PickIndex(n, k as real / n as real) == k
  {
  }

  /** The pick of showRandomQuote: the quote at a random index of a non-empty collection. */
  function RandomQuote(qs: seq<Quote>, rnd: real): (r: Quote)
    requires qs != [] && 0.0 <= rnd < 1.0
    ensures r in qs
  {
    qs[PickIndex(|qs|, rnd)]
  }

  /** getRandomQuoteFromCategory: `None` (null) when no category matches, otherwise a
      quote of the filtered list. */
  function RandomFromCategory(qs: seq<Quote>, category: string, rnd: real): (r: Option<Quote>)
    requires 0.0 <= rnd < 1.0
    ensures r.None? <==> FilterByCategory(qs, category) == []
    ensures r.Some? ==> r.value in qs && MatchesTerm(r.value.category, category)
  {
    var matching := FilterByCategory(qs, category);
    if |matching| == 0 then None else Some(RandomQuote(matching, rnd))
  }

  /** A query that some stored quote's category matches always yields a quote. */
  lemma RandomFromPresentCategory(qs: seq<Quote>, q: Quote, category: string, rnd: real)
    requires q in qs && MatchesTerm(q.category, category) && 0.0 <= rnd < 1.0
    ensures RandomFromCategory(qs, category, rnd).Some?
  {
  }

  // ---------------------------------------------------------------------------
  // Form validation
  // ---------------------------------------------------------------------------

  /** The three outcomes of validateForm. */
  datatype Feedback =
    | Accepted    // both fields filled: no message, the form may be submitted
    | Incomplete  // exactly one field filled: "Please fill in both fields"
    | Blank       // both fields empty: no message, nothing to submit

  /** validateForm, on the raw values of the two inputs. */
  function Validate(rawText: string, rawCategory: string): (v: Feedback)
    ensures v == Accepted <==> Trim(rawText) != [] && Trim(rawCategory) != []
    ensures v == Incomplete <==> (Trim(rawText) == []) != (Trim(rawCategory) == [])
    ensures v == Blank <==> AllWhitespace(rawText) && AllWhitespace(rawCategory)
  {
    TrimEmptyIff(rawText);
    TrimEmptyIff(rawCategory);
    var text := Trim(rawText);
    var category := Trim(rawCategory);
    if |text| > 0 && |category| > 0 then Accepted
    else if |text| > 0 || |category| > 0 then Incomplete
    else Blank
  }

  /** The text shown under the form for each outcome. */
  function FeedbackMessage(v: Feedback): string {
    if v == Incomplete then "Please fill in both fields" else ""
  }

  /** validateForm returns true only for Accepted. */
  function IsValid(v: Feedback): bool {
    v == Accepted
  }

  /** The form is valid exactly when a quote built from the trimmed inputs is well formed. */
  lemma ValidateIffWellFormed(rawText: string, rawCategory: string)
    ensures IsValid(Validate(rawText, rawCategory)) <==> WellFormed(Quote(Trim(rawText), Trim(rawCategory)))
  {
  }

  /** A message is shown exactly when one field is filled and the other is not. */
  lemma MessageIffIncomplete(rawText: string, rawCategory: string)
    ensures FeedbackMessage(Validate(rawText, rawCategory)) != ""
        <==> (Trim(rawText) == []) != (Trim(rawCategory) == [])
  {
  }

  // ---------------------------------------------------------------------------
  // Statistics
  // ---------------------------------------------------------------------------

  /** `new Set(quotes.map(q => q.category))`: the distinct category strings (compared exactly). */
  function Categories(qs: seq<Quote>): (cs: set<string>)
    ensures forall c :: c in cs <==> exists i :: 0 <= i < |qs| && qs[i].category == c
    ensures |cs| <= |qs|
    ensures qs != [] ==> |cs| >= 1
    decreases |qs|
  {
    if qs == [] then {}
    else
      var rest := Categories(qs[1..]);
      assert forall i :: 1 <= i < |qs| ==> qs[i] == qs[1..][i - 1];
      assert forall i :: 0 <= i < |qs| - 1 ==> qs[1..][i] == qs[i + 1];
      assert |rest + {qs[0].category}| <= |rest| + 1;
      rest + {qs[0].category}
  }

  /** The two numbers of the statistics line. */
  datatype Stats = Stats(total: nat, categories: nat)

  /** showQuoteStats: the total and the number of distinct categories. */
  function Statistics(qs: seq<Quote>): (s: Stats)
    ensures s.total == |qs|
    ensures s.categories <= s.total
    ensures s.total > 0 ==> s.categories > 0
  {
    Stats(|qs|, |Categories(qs)|)
  }

  /** Adding a quote adds its category to the set of categories. */
  lemma CategoriesAppend(qs: seq<Quote>, q: Quote)
    ensures Categories(qs + [q]) == Categories(qs) + {q.category}
  {
    var all := qs + [q];
    var after, before := Categories(all), Categories(qs);
    forall c | c in after ensures c in before + {q.category} {
      var i :| 0 <= i < |all| && all[i].category == c;
      if i < |qs| { assert qs[i] == all[i]; }
    }
    forall c | c in before + {q.category} ensures c in after {
      if c == q.category {
        assert all[|qs|] == q;
      } else {
        var i :| 0 <= i < |qs| && qs[i].category == c;
        assert all[i] == qs[i];
      }
    }
  }

  /** After an add, the category count grows by one exactly when the category is new. */
  lemma StatisticsAfterAppend(qs: seq<Quote>, q: Quote)
    ensures Statistics(qs + [q]).total == Statistics(qs).total + 1
    ensures Statistics(qs + [q]).categories
         == Statistics(qs).categories + (if q.category in Categories(qs) then 0 else 1)
  {
    CategoriesAppend(qs, q);
    var cs := Categories(qs);
    if q.category in cs {
      assert cs + {q.category} == cs;
    } else {
      assert |cs + {q.category}| == |cs| + 1;
    }
  }
}
