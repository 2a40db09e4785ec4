/** The study session: the React state of the flashcard component as a class
    whose fields the event handlers update, one atomic step per handler. */
module Session {
  import opened Catalog

  datatype Mode = Flashcards | Test | Match

  /** The user actions the view offers (buttons, drag start, drop). */
  datatype Event =
    | ToggleAnswer
    | Next
    | Answer(choice: string)
    | DragStart(term: string)
    | Drop(target: string)
    | FlashcardsButton
    | TestButton
    | MatchButton

  /** Flashcard advance on the index: one step forward, wrapping after the last card. */
  function NextIndex(i: nat, n: nat): (r: nat)
    requires i < n
    ensures r < n
    ensures i + 1 < n ==> r == i + 1
    ensures i + 1 == n ==> r == 0
  {
    (i + 1) % n
  }

  /** The index after `k` successive advances from `i`. */
  function AdvanceBy(i: nat, k: nat, n: nat): (r: nat)
    requires i < n
    ensures r < n
  {
    if k == 0 then i else NextIndex(AdvanceBy(i, k - 1, n), n)
  }

  /** How many presses of Next lead from card `i` to card `j`. */
  function Distance(i: nat, j: nat, n: nat): (k: nat)
    requires i < n && j < n
    ensures k < n
  {
    if i <= j then j - i else j + n - i
  }

  /** Fewer than `n` advances move the index forward, wrapping past the last card once. */
  lemma {:induction false} AdvanceByWraps(i: nat, k: nat, n: nat)
    requires i < n && k <= n
    ensures AdvanceBy(i, k, n) == if i + k < n then i + k else i + k - n
  {
    if k > 0 {
      AdvanceByWraps(i, k - 1, n);
    }
  }

  /** Pressing Next as many times as there are cards comes back to the starting
      card, and every card is reached on the way. */
  lemma AdvanceCycles(i: nat, n: nat)
    requires i < n
    ensures AdvanceBy(i, n, n) == i
    ensures forall j :: 0 <= j < n ==> AdvanceBy(i, Distance(i, j, n), n) == j
  {
    AdvanceByWraps(i, n, n);
    forall j | 0 <= j < n ensures AdvanceBy(i, Distance(i, j, n), n) == j {
      AdvanceByWraps(i, Distance(i, j, n), n);
    }
  }

  /** The number of the given answers that were correct: answer `k` is
      compared with the definition of card `k`. */
  function CorrectCount(cards: seq<Card>, answers: seq<string>): (r: nat)
    requires |answers| <= |cards|
    ensures r <= |answers|
    ensures r == |answers| <==> forall k :: 0 <= k < |answers| ==> answers[k] == cards[k].definition
  {
    if answers == [] then 0
    else
      var last := |answers| - 1;
      var r := CorrectCount(cards, answers[..last]) + (if answers[last] == cards[last].definition then 1 else 0);
      assert forall k :: 0 <= k < last ==> answers[..last][k] == answers[k];
      r
  }

  /** Answering one more card adds one to the count exactly when the answer is that card's definition. */
  lemma CorrectCountAppend(cards: seq<Card>, answers: seq<string>, choice: string)
    requires |answers| < |cards|
    ensures CorrectCount(cards, answers + [choice])
            == CorrectCount(cards, answers) + (if choice == cards[|answers|].definition then 1 else 0)
  {
  }

  /** Every recorded match pairs a term with that term's definition. */
  ghost predicate MatchesCorrect(cards: seq<Card>, matches: map<string, string>) {
    forall t :: t in matches ==> FindDefinition(cards, t) == Some(matches[t])
  }

  /** Each card's term is matched to its own definition. */
  ghost predicate AllCardsMatched(cards: seq<Card>, matches: map<string, string>) {
    forall i :: 0 <= i < |cards| ==> cards[i].term in matches && matches[cards[i].term] == cards[i].definition
  }

  /** Correct matches are keyed by catalog terms, so there are at most as many as cards. */
  lemma MatchCountBounded(cards: seq<Card>, matches: map<string, string>)
    requires MatchesCorrect(cards, matches)
    ensures matches.Keys <= Terms(cards)
    ensures |matches.Keys| <= |cards|
  {
    forall t | t in matches ensures t in Terms(cards) {
      assert FindDefinition(cards, t).Some?;
    }
    SubsetCardinality(matches.Keys, Terms(cards));
  }

  lemma SubsetCardinality<T>(a: set<T>, b: set<T>)
    requires a <= b
    ensures |a| <= |b|
    ensures |a| == |b| ==> a == b
  {
    assert b == a + (b - a);
  }

  /** The completion test of the match mode (key count equals the number of
      cards) holds exactly when every card has been matched correctly. */
  lemma {:induction false} CompleteIffAllMatched(cards: seq<Card>, matches: map<string, string>)
    requires DistinctTerms(cards) && MatchesCorrect(cards, matches)
    ensures |matches.Keys| == |cards| <==> AllCardsMatched(cards, matches)
  {
    MatchCountBounded(cards, matches);
    if |matches.Keys| == |cards| {
      SubsetCardinality(matches.Keys, Terms(cards));
      forall i | 0 <= i < |cards|
        ensures cards[i].term in matches && matches[cards[i].term] == cards[i].definition
      {
        assert cards[i].term in Terms(cards);
        FindDefinitionOfCard(cards, i);
      }
    }
    if AllCardsMatched(cards, matches) {
      assert Terms(cards) <= matches.Keys by {
        forall t | t in Terms(cards) ensures t in matches {
          var i :| 0 <= i < |cards| && cards[i].term == t;
        }
      }
      SubsetCardinality(Terms(cards), matches.Keys);
    }
  }

  /** In a running or finished quiz the score never exceeds the cards answered,
      so the final score is at most the number of cards. */
  lemma ScoreWithinProgress(s: StudySession)
    requires s.Valid() && s.mode == Test
    ensures s.score <= s.index + (if s.testComplete then 1 else 0)
    ensures s.score <= |s.cards|
  {
  }

  /** JavaScript truthiness of the pending drag: null and the empty string are falsy. */
  predicate Truthy(dragged: Option<string>) {
    dragged.Some? && dragged.value != ""
  }

  class StudySession {
    const cards: seq<Card>
    var mode: Mode
    var index: nat
    var showAnswer: bool
    var score: nat
    var testComplete: bool
    var matches: map<string, string>
    var draggedTerm: Option<string>
    /** The choices answered since the Test button was last pressed. */
    ghost var answers: seq<string>

    /** What every handler keeps, whatever mode the session is in. */
    ghost predicate WellFormed()
      reads this
    {
      |cards| > 0 && DistinctTerms(cards) &&
      index < |cards| &&
      MatchesCorrect(cards, matches)
    }

    /** In the quiz, the index, the completion flag and the score are
        determined by the answers given since the quiz began. */
    ghost predicate TestRunConsistent()
      reads this
    {
      mode == Test ==>
        |answers| <= |cards| &&
        testComplete == (|answers| == |cards|) &&
        index == (if testComplete then |cards| - 1 else |answers|) &&
        score == CorrectCount(cards, answers)
    }

    ghost predicate Valid()
      reads this
    {
      WellFormed() && TestRunConsistent()
    }

    /** The component's initial state. */
    constructor (catalog: seq<Card>)
      requires |catalog| > 0 && DistinctTerms(catalog)
      ensures Valid() && cards == catalog
      ensures mode == Flashcards && index == 0 && !showAnswer
      ensures score == 0 && !testComplete
      ensures matches == map[] && draggedTerm == None
    {
      cards := catalog;
      mode := Flashcards;
      index := 0;
      showAnswer := false;
      score := 0;
      testComplete := false;
      matches := map[];
      draggedTerm := None;
      answers := [];
    }

    /** The Show/Hide Answer button. */
    method Toggle()
      requires WellFormed()
      modifies this
      ensures WellFormed()
      ensures showAnswer == !old(showAnswer)
      ensures mode == old(mode) && index == old(index) && score == old(score)
      ensures testComplete == old(testComplete) && matches == old(matches)
      ensures draggedTerm == old(draggedTerm) && answers == old(answers)
    {
      showAnswer := !showAnswer;
    }

    /** `handleNext`: hide the answer and move to the next card, wrapping. */
    method HandleNext()
      requires WellFormed()
      modifies this
      ensures WellFormed()
      ensures !showAnswer && index == NextIndex(old(index), |cards|)
      ensures mode == old(mode) && score == old(score) && testComplete == old(testComplete)
      ensures matches == old(matches) && draggedTerm == old(draggedTerm) && answers == old(answers)
    {
      showAnswer := false;
      index := (index + 1) % |cards|;
    }

    /** `handleAnswer`: score a correct choice; on the last card finish the
        quiz, otherwise move to the next card. */
    method HandleAnswer(choice: string)
      requires WellFormed()
      modifies this
      ensures WellFormed()
      ensures score == old(score) + (if choice == cards[old(index)].definition then 1 else 0)
      ensures old(index) + 1 == |cards| ==> testComplete && index == old(index)
      ensures old(index) + 1 < |cards| ==> testComplete == old(testComplete) && index == old(index) + 1
      ensures answers == old(answers) + [choice]
      ensures mode == old(mode) && showAnswer == old(showAnswer)
      ensures matches == old(matches) && draggedTerm == old(draggedTerm)
    {
      if choice == cards[index].definition {
        score := score + 1;
      }
      if index + 1 == |cards| {
        testComplete := true;
      } else {
        index := index + 1;
      }
      answers := answers + [choice];
    }

    /** `onDragStart` on a term: remember it as the pending drag. */
    method HandleDragStart(term: string)
      requires WellFormed()
      modifies this
      ensures WellFormed()
      ensures draggedTerm == Some(term)
      ensures mode == old(mode) && index == old(index) && showAnswer == old(showAnswer)
      ensures score == old(score) && testComplete == old(testComplete)
      ensures matches == old(matches) && answers == old(answers)
    {
      draggedTerm := Some(term);
    }

    /** `handleDrop`: record the pair only when `definition` is the term's
        definition, and clear the pending drag in every case. */
    method HandleDrop(term: string, definition: string)
      requires WellFormed()
      modifies this
      ensures WellFormed()
      ensures FindDefinition(cards, term) == Some(definition) ==> matches == old(matches)[term := definition]
      ensures FindDefinition(cards, term) != Some(definition) ==> matches == old(matches)
      ensures old(term in matches && matches[term] == definition) ==> matches == old(matches)
      ensures draggedTerm == None
      ensures mode == old(mode) && index == old(index) && showAnswer == old(showAnswer)
      ensures score == old(score) && testComplete == old(testComplete) && answers == old(answers)
    {
      var correctDef := FindDefinition(cards, term);
      if correctDef == Some(definition) {
        matches := matches[term := definition];
      }
      draggedTerm := None;
    }

    /** `onDrop` on a definition: hand the pending drag to `handleDrop`, or do
        nothing when no drag is pending. */
    method DropOn(target: string)
      requires WellFormed()
      modifies this
      ensures WellFormed()
      ensures !Truthy(old(draggedTerm)) ==> draggedTerm == old(draggedTerm) && matches == old(matches)
      ensures Truthy(old(draggedTerm)) ==> draggedTerm == None
      ensures Truthy(old(draggedTerm)) ==>
                (FindDefinition(cards, old(draggedTerm).value) == Some(target) ==> matches == old(matches)[old(draggedTerm).value := target])
      ensures Truthy(old(draggedTerm)) ==>
                (FindDefinition(cards, old(draggedTerm).value) != Some(target) ==> matches == old(matches))
      ensures mode == old(mode) && index == old(index) && showAnswer == old(showAnswer)
      ensures score == old(score) && testComplete == old(testComplete) && answers == old(answers)
    {
      if Truthy(draggedTerm) {
        HandleDrop(draggedTerm.value, target);
      }
    }

    /** The Flashcards button: switch mode and go back to the first card;
        nothing else is reset. */
    method ChooseFlashcards()
      requires WellFormed()
      modifies this
      ensures Valid()
      ensures mode == Flashcards && index == 0
      ensures showAnswer == old(showAnswer) && score == old(score) && testComplete == old(testComplete)
      ensures matches == old(matches) && draggedTerm == old(draggedTerm) && answers == old(answers)
    {
      mode := Flashcards;
      index := 0;
    }

    /** The Test button: switch mode and start the quiz afresh. */
    method ChooseTest()
      requires WellFormed()
      modifies this
      ensures Valid()
      ensures mode == Test && index == 0 && score == 0 && !testComplete && answers == []
      ensures showAnswer == old(showAnswer) && matches == old(matches) && draggedTerm == old(draggedTerm)
    {
      mode := Test;
      index := 0;
      score := 0;
      testComplete := false;
      answers := [];
    }

    /** The Match button: switch mode and forget the matches; the index and
        the pending drag are left as they are. */
    method ChooseMatch()
      requires WellFormed()
      modifies this
      ensures Valid()
      ensures mode == Match && matches == map[]
      ensures index == old(index) && showAnswer == old(showAnswer) && score == old(score)
      ensures testComplete == old(testComplete) && draggedTerm == old(draggedTerm) && answers == old(answers)
    {
      mode := Match;
      matches := map[];
    }

    /** The events the view renders a control for in the current state: the
        flashcard buttons in flashcard mode, the answer buttons (each a catalog
        definition) while the quiz is running, the draggable terms and the
        definition drop targets in match mode, the mode buttons always. */
    ghost predicate Enabled(e: Event)
      reads this
    {
      match e
      case ToggleAnswer => mode == Flashcards
      case Next => mode == Flashcards
      case Answer(choice) => mode == Test && !testComplete && choice in Definitions(cards)
      case DragStart(term) => mode == Match && term in Terms(cards)
      case Drop(target) => mode == Match && target in Definitions(cards)
      case FlashcardsButton => true
      case TestButton => true
      case MatchButton => true
    }

    /** One user action, dispatched to its handler; every action the view
        offers keeps the session valid. */
    method Step(e: Event)
      requires Valid() && Enabled(e)
      modifies this
      ensures Valid()
      ensures e == ToggleAnswer ==>
                showAnswer == !old(showAnswer) && mode == old(mode) && index == old(index) &&
                score == old(score) && testComplete == old(testComplete) &&
                matches == old(matches) && draggedTerm == old(draggedTerm)
      ensures e == Next ==>
                !showAnswer && index == NextIndex(old(index), |cards|) && mode == old(mode) &&
                score == old(score) && testComplete == old(testComplete) &&
                matches == old(matches) && draggedTerm == old(draggedTerm)
      ensures e.Answer? ==>
                mode == Test &&
                score == old(score) + (if e.choice == cards[old(index)].definition then 1 else 0) &&
                (old(index) + 1 == |cards| ==> testComplete && index == old(index)) &&
                (old(index) + 1 < |cards| ==> !testComplete && index == old(index) + 1) &&
                answers == old(answers) + [e.choice] && showAnswer == old(showAnswer) &&
                matches == old(matches) && draggedTerm == old(draggedTerm)
      ensures e.DragStart? ==>
                draggedTerm == Some(e.term) && mode == Match && index == old(index) &&
                showAnswer == old(showAnswer) && score == old(score) &&
                testComplete == old(testComplete) && matches == old(matches)
      ensures e.Drop? ==>
                mode == Match && index == old(index) && showAnswer == old(showAnswer) &&
                score == old(score) && testComplete == old(testComplete) &&
                (!Truthy(old(draggedTerm)) ==> draggedTerm == old(draggedTerm) && matches == old(matches)) &&
                (Truthy(old(draggedTerm)) ==>
                  (draggedTerm == None &&
                   matches == if FindDefinition(cards, old(draggedTerm).value) == Some(e.target)
                              then old(matches)[old(draggedTerm).value := e.target]
                              else old(matches)))
      ensures e == FlashcardsButton ==>
                mode == Flashcards && index == 0 && showAnswer == old(showAnswer) &&
                score == old(score) && testComplete == old(testComplete) &&
                matches == old(matches) && draggedTerm == old(draggedTerm)
      ensures e == TestButton ==>
                mode == Test && index == 0 && score == 0 && !testComplete && answers == [] &&
                showAnswer == old(showAnswer) && matches == old(matches) && draggedTerm == old(draggedTerm)
      ensures e == MatchButton ==>
                mode == Match && matches == map[] && index == old(index) &&
                showAnswer == old(showAnswer) && score == old(score) &&
                testComplete == old(testComplete) && draggedTerm == old(draggedTerm)
    {
      match e {
        case ToggleAnswer => Toggle();
        case Next => HandleNext();
        case Answer(choice) =>
          CorrectCountAppend(cards, answers, choice);
          HandleAnswer(choice);
        case DragStart(term) => HandleDragStart(term);
        case Drop(target) => DropOn(target);
        case FlashcardsButton => ChooseFlashcards();
        case TestButton => ChooseTest();
        case MatchButton => ChooseMatch();
      }
    }

    /** The quiz's closing line, "Score: score/total". */
    method TestResult() returns (s: nat, total: nat)
      requires Valid() && mode == Test && testComplete
      ensures total == |cards| && s <= total
      ensures s == CorrectCount(cards, answers) && |answers| == total
    {
      s, total := score, |cards|;
    }

    /** The match mode's progress line and completion test. */
    method MatchProgress() returns (matched: nat, total: nat, complete: bool)
      requires Valid()
      ensures total == |cards| && matched == |matches.Keys| && matched <= total
      ensures complete <==> AllCardsMatched(cards, matches)
    {
      matched, total := |matches.Keys|, |cards|;
      complete := matched == total;
      MatchCountBounded(cards, matches);
      CompleteIffAllMatched(cards, matches);
    }
  }
}
