/** The card catalog: a fixed, read-only list of term/definition records,
    and the lookups the session performs on it. */
module Catalog {
  import opened Shuffle

  datatype Option<+T> = None | Some(value: T)

  /** One flashcard. */
  datatype Card = Card(term: string, definition: string)

  /** The ten sample cards the application ships with (Week 1 and Week 2). */
  const AppCatalog: seq<Card> := [
    Card("acronym", "A word formed from the initial letter of the major parts of a compound term."),
    Card("acute", "Condition that has a rapid onset, a severe course, and a relatively short duration."),
    Card("angiography", "Process of producing an x-ray study of blood vessels after injection of a contrast medium."),
    Card("appendectomy", "Surgical removal of the appendix."),
    Card("arteriosclerosis", "Abnormal hardening of the walls of an artery or arteries."),
    Card("aden/o", "Gland."),
    Card("adip/o", "Fat."),
    Card("anter/o", "Before, front."),
    Card("caud/o", "Lower part of body, tail."),
    Card("cephal/o", "Head.")
  ]

  /** No two cards share a term: matching and lookup by term rely on it. */
  predicate DistinctTerms(cards: seq<Card>) {
    forall i, j :: 0 <= i < j < |cards| ==> cards[i].term != cards[j].term
  }

  /** The definition column of the catalog, in catalog order (`flashcards.map(f => f.definition)`). */
  function Definitions(cards: seq<Card>): (r: seq<string>)
    ensures |r| == |cards|
    ensures forall i :: 0 <= i < |cards| ==> r[i] == cards[i].definition
  {
    seq(|cards|, i requires 0 <= i < |cards| => cards[i].definition)
  }

  /** The set of terms in the catalog. */
  function Terms(cards: seq<Card>): (r: set<string>)
    ensures forall t :: t in r <==> exists i :: 0 <= i < |cards| && cards[i].term == t
    ensures |r| <= |cards|
    ensures DistinctTerms(cards) ==> |r| == |cards|
  {
    if cards == [] then {}
    else
      var rest := Terms(cards[1..]);
      assert forall i :: 1 <= i < |cards| ==> cards[1..][i - 1] == cards[i];
      {cards[0].term} + rest
  }

  /** `flashcards.find(f => f.term === term)?.definition`: the definition of the
      FIRST card carrying `term`, or None when no card does. */
  function FindDefinition(cards: seq<Card>, term: string): (r: Option<string>)
    ensures r.None? <==> forall i :: 0 <= i < |cards| ==> cards[i].term != term
    ensures r.Some? ==> exists i :: 0 <= i < |cards| && cards[i].term == term
                                    && r.value == cards[i].definition
                                    && forall j :: 0 <= j < i ==> cards[j].term != term
  {
    if cards == [] then None
    else if cards[0].term == term then Some(cards[0].definition)
    else
      var r := FindDefinition(cards[1..], term);
      assert forall i :: 1 <= i < |cards| ==> cards[1..][i - 1] == cards[i];
      r
  }

  /** With distinct terms the lookup of a card's term yields exactly that card's definition. */
  lemma FindDefinitionOfCard(cards: seq<Card>, i: nat)
    requires DistinctTerms(cards) && i < |cards|
    ensures FindDefinition(cards, cards[i].term) == Some(cards[i].definition)
  {
    // The first card carrying the term is card i: any earlier one would repeat it.
  }

  /** The shipped catalog has ten cards and its terms are distinct. */
  lemma AppCatalogTermsDistinct()
    ensures |AppCatalog| == 10
    ensures DistinctTerms(AppCatalog)
  {
  }

  /** The shipped catalog's definitions are distinct. */
  lemma AppCatalogDefinitionsDistinct()
    ensures NoDups(Definitions(AppCatalog))
  {
  }
}
