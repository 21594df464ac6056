/**
 * The module-level `quotes` array of the page: its initial contents and
 * `addQuote`, the only operation that changes it.
 */
module Store {
  import opened Text
  import opened Quotes

  /** The eight quotes the page starts with. (The texts are written as
      concatenations of short literals: the verifier handles those far more
      cheaply than one long literal.) */
  function InitialQuotes(): (qs: seq<Quote>)
    ensures |qs| == 8
    ensures forall q :: q in qs ==> WellFormed(q)
  {
    var motivation := Quote(
      "The only way " + "to do great " + "work is to " + "love what you " + "do.",
      "Motivation");
    var leadership := Quote(
      "Innovation " + "distinguishes " + "between a " + "leader and a " + "follower.",
      "Leadership");
    var life := Quote(
      "Life is what " + "happens to " + "you while " + "you're busy " + "making other " + "plans.",
      "Life");
    var dreams := Quote(
      "The future " + "belongs to " + "those who " + "believe in " + "the beauty of " + "their dreams.",
      "Dreams");
    var hope := Quote(
      "It is during " + "our darkest " + "moments that " + "we must focus " + "to see the " + "light.",
      "Hope");
    var success := Quote(
      "Success is " + "not final, " + "failure is " + "not fatal: it " + "is the " + "courage to " + "continue that " + "counts.",
      "Success");
    var action := Quote(
      "The way to " + "get started " + "is to quit " + "talking and " + "begin doing.",
      "Action");
    var growth := Quote(
      "Don't be " + "afraid to " + "give up the " + "good to go " + "for the great.",
      "Growth");
    var qs := [motivation, leadership, life, dreams, hope, success, action, growth];
    qs
  }

  /** Appending a well-formed record to well-formed records keeps them well-formed. */
  lemma AppendWellFormed(qs: seq<Quote>, q: Quote)
    requires forall i :: 0 <= i < |qs| ==> WellFormed(qs[i])
    requires WellFormed(q)
    ensures forall i :: 0 <= i < |qs + [q]| ==> WellFormed((qs + [q])[i])
  {
    forall i | 0 <= i < |qs + [q]| ensures WellFormed((qs + [q])[i]) {
      if i < |qs| {
        assert (qs + [q])[i] == qs[i];
      } else {
        assert (qs + [q])[i] == q;
      }
    }
  }

  class QuoteStore {
    /** The collection, in insertion order. */
    var quotes: seq<Quote>

    /** Every record has non-empty text and category, and the collection
        is never empty (it starts with eight quotes and only ever grows). */
    ghost predicate Valid()
      reads this
    {
      quotes != [] && forall i :: 0 <= i < |quotes| ==> WellFormed(quotes[i])
    }

    constructor ()
      ensures Valid()
      ensures quotes == InitialQuotes()
    {
      quotes := InitialQuotes();
    }

    /** addQuote: trims both inputs; rejects the add when either is empty,
        otherwise appends one record built from the trimmed inputs. */
    method AddQuote(rawText: string, rawCategory: string) returns (added: bool)
      requires Valid()
      modifies this
      ensures Valid()
      ensures added <==> IsValid(Validate(rawText, rawCategory))
      ensures added ==> quotes == old(quotes) + [Quote(Trim(rawText), Trim(rawCategory))]
      ensures !added ==> quotes == old(quotes)
    {
      var text := Trim(rawText);
      var category := Trim(rawCategory);
      ValidateIffWellFormed(rawText, rawCategory);
      if text == [] || category == [] {
        return false;
      }
      var q := Quote(text, category);
      AppendWellFormed(quotes, q);
      quotes := quotes + [q];
      added := true;
    }

    /** showRandomQuote: the quote shown is one of the collection's, at the
        index `Math.floor(rnd * quotes.length)`. */
    method ShowRandomQuote(rnd: real) returns (q: Quote)
      requires Valid() && 0.0 <= rnd < 1.0
      ensures q in quotes
      ensures WellFormed(q)
    {
      q := RandomQuote(quotes, rnd);
    }
  }
}
