/** The two lists the view derives from the catalog on each render: the quiz
    mode's answer buttons and the match mode's definition column. Both are
    pure; the shuffles act on fresh copies, so the catalog is never changed. */
module Derivations {
  import opened Catalog
  import opened Shuffle

  /** `arr.slice(0, k)`: the first `k` elements, or all of them when there are fewer. */
  function Take<T>(k: nat, s: seq<T>): (r: seq<T>)
    ensures |r| == if k < |s| then k else |s|
    ensures forall i :: 0 <= i < |r| ==> r[i] == s[i]
  {
    if k < |s| then s[..k] else s
  }

  /** Length of the candidate list: three drawn definitions (fewer in a smaller
      catalog) plus the correct one. */
  function CandidateCount(n: nat): nat {
    (if 3 < n then 3 else n) + 1
  }

  /** The quiz buttons as the code builds them: shuffle all definitions by `p1`,
      keep the first three, append the current card's definition, shuffle the
      four by `p2`. Nothing stops the correct definition from being among the
      first three as well. */
  function QuizCandidates(cards: seq<Card>, index: nat, p1: seq<nat>, p2: seq<nat>): (r: seq<string>)
    requires index < |cards|
    requires IsPermutation(p1, |cards|)
    requires IsPermutation(p2, CandidateCount(|cards|))
    ensures |r| == CandidateCount(|cards|)
    ensures cards[index].definition in r
    ensures forall x :: x in r ==> x in Definitions(cards)
    ensures multiset(r) == multiset(Take(3, Permute(Definitions(cards), p1))) + multiset{cards[index].definition}
  {
    var drawn := Take(3, Permute(Definitions(cards), p1));
    var r := Permute(drawn + [cards[index].definition], p2);
    assert cards[index].definition in multiset(r);
    forall x | x in r ensures x in Definitions(cards) {
      assert x in multiset(drawn + [cards[index].definition]);
      if x in drawn {
        assert x in multiset(Permute(Definitions(cards), p1));
      }
    }
    r
  }

  /** The correct definition can appear twice among the quiz buttons: on the
      shipped catalog, with both shuffles leaving the order as it is, the first
      card's buttons are its own definition, the next two, and its own again. */
  lemma QuizCandidatesCanRepeatAnswer()
    ensures multiset(QuizCandidates(AppCatalog, 0, Identity(10), Identity(4)))[AppCatalog[0].definition] == 2
  {
    var defs := Definitions(AppCatalog);
    var drawn := Take(3, Permute(defs, Identity(10)));
    assert drawn == [defs[0], defs[1], defs[2]];
    assert AppCatalog[0].definition != AppCatalog[1].definition;
    assert AppCatalog[0].definition != AppCatalog[2].definition;
  }

  /** `s` with every occurrence of `x` removed. */
  function Without(s: seq<string>, x: string): (r: seq<string>)
    ensures x !in r
    ensures forall y :: y in r <==> y in s && y != x
    ensures NoDups(s) ==> NoDups(r)
    ensures NoDups(s) && x in s ==> |r| == |s| - 1
    ensures x !in s ==> r == s
  {
    if s == [] then []
    else
      var rest := Without(s[1..], x);
      assert forall i :: 1 <= i < |s| ==> s[1..][i - 1] == s[i];
      assert NoDups(s) ==> NoDups(s[1..]) by {
        if NoDups(s) {
          forall i, j | 0 <= i < j < |s| - 1 ensures s[1..][i] != s[1..][j] {
            assert s[1..][i] == s[i + 1] && s[1..][j] == s[j + 1];
          }
        }
      }
      assert NoDups(s) ==> s[0] !in s[1..] by {
        if NoDups(s) {
          forall k | 0 <= k < |s| - 1 ensures s[1..][k] != s[0] {
            assert s[1..][k] == s[k + 1];
          }
        }
      }
      if s[0] == x then rest else [s[0]] + rest
  }

  /** The distractors the quiz evidently means: three definitions drawn from
      the shuffled column after the correct one is taken out of it. */
  function Distractors(cards: seq<Card>, index: nat, p1: seq<nat>): (r: seq<string>)
    requires index < |cards|
    requires IsPermutation(p1, |cards|)
    ensures |r| <= 3
    ensures cards[index].definition !in r
    ensures forall x :: x in r ==> x in Definitions(cards)
    ensures NoDups(Definitions(cards)) ==> NoDups(r) && |r| == CandidateCount(|cards| - 1) - 1
  {
    var defs := Definitions(cards);
    var shuffled := Permute(defs, p1);
    var rest := Without(shuffled, cards[index].definition);
    forall x | x in shuffled ensures x in defs {
      assert x in multiset(shuffled);
    }
    assert NoDups(defs) ==> NoDups(shuffled) && defs[index] in shuffled by {
      if NoDups(defs) {
        PermuteKeepsDistinct(defs, p1);
        assert defs[index] in multiset(shuffled);
      }
    }
    Take(3, rest)
  }

  /** The quiz buttons with the distractors drawn from the other cards: the
      correct definition appears exactly once, and when the catalog's
      definitions are distinct so are the buttons, one per card up to four. */
  function DistinctQuizCandidates(cards: seq<Card>, index: nat, p1: seq<nat>, p2: seq<nat>): (r: seq<string>)
    requires index < |cards|
    requires IsPermutation(p1, |cards|)
    requires IsPermutation(p2, |Distractors(cards, index, p1)| + 1)
    ensures multiset(r)[cards[index].definition] == 1
    ensures forall x :: x in r ==> x in Definitions(cards)
    ensures NoDups(Definitions(cards)) ==> NoDups(r) && |r| == CandidateCount(|cards| - 1)
  {
    var answer := cards[index].definition;
    var distractors := Distractors(cards, index, p1);
    var buttons := distractors + [answer];
    var r := Permute(buttons, p2);
    assert multiset(distractors)[answer] == 0;
    forall x | x in r ensures x in Definitions(cards) {
      assert x in multiset(buttons);
    }
    assert NoDups(Definitions(cards)) ==> NoDups(r) by {
      if NoDups(Definitions(cards)) {
        assert NoDups(buttons);
        PermuteKeepsDistinct(buttons, p2);
      }
    }
    r
  }

  /** On the shipped catalog the corrected quiz shows four distinct buttons,
      one of them the current card's definition. */
  lemma AppQuizButtonsDistinct(index: nat, p1: seq<nat>, p2: seq<nat>)
    requires index < |AppCatalog|
    requires IsPermutation(p1, |AppCatalog|)
    requires IsPermutation(p2, |Distractors(AppCatalog, index, p1)| + 1)
    ensures |DistinctQuizCandidates(AppCatalog, index, p1, p2)| == 4
    ensures NoDups(DistinctQuizCandidates(AppCatalog, index, p1, p2))
    ensures AppCatalog[index].definition in DistinctQuizCandidates(AppCatalog, index, p1, p2)
  {
    AppCatalogDefinitionsDistinct();
  }

  /** The match mode's definition column: every definition, shuffled by `p`. */
  function MatchColumn(cards: seq<Card>, p: seq<nat>): (r: seq<string>)
    requires IsPermutation(p, |cards|)
    ensures |r| == |cards|
    ensures multiset(r) == multiset(Definitions(cards))
    ensures forall i :: 0 <= i < |cards| ==> cards[i].definition in r
    ensures forall x :: x in r ==> x in Definitions(cards)
  {
    var r := Permute(Definitions(cards), p);
    forall i | 0 <= i < |cards| ensures cards[i].definition in r {
      assert Definitions(cards)[i] in multiset(r);
    }
    forall x | x in r ensures x in Definitions(cards) {
      assert x in multiset(r);
    }
    r
  }
}
