/** The two worked sessions on a two-card catalog: a quiz with one wrong and
    one right answer, and a match game with one rejected and two accepted drops.
    Both are driven through `Step`, that is, only by the controls the view shows. */
module Scenarios {
  import opened Catalog
  import opened Session

  /** Quiz on [(A, defA), (B, defB)], answering "defB" twice: the first answer
      is wrong, the second right, and the quiz ends at 1/2. */
  method QuizScenario() returns (score: nat, total: nat, complete: bool)
    ensures score == 1 && total == 2 && complete
  {
    var cards := [Card("A", "defA"), Card("B", "defB")];
    assert Definitions(cards)[1] == "defB";
    var s := new StudySession(cards);
    s.Step(TestButton);
    s.Step(Answer("defB"));
    assert s.score == 0 && s.index == 1 && !s.testComplete;
    ScoreWithinProgress(s);
    s.Step(Answer("defB"));
    ScoreWithinProgress(s);
    score, total := s.TestResult();
    complete := s.testComplete;
  }

  /** One drag gesture in match mode: pick up `term`, release it on `target`. */
  method DragOnto(s: StudySession, term: string, target: string)
    requires s.Valid() && s.mode == Match
    requires term in Terms(s.cards) && term != "" && target in Definitions(s.cards)
    modifies s
    ensures s.Valid() && s.mode == Match && s.draggedTerm == None
    ensures s.matches == if FindDefinition(s.cards, term) == Some(target)
                         then old(s.matches)[term := target] else old(s.matches)
  {
    s.Step(DragStart(term));
    s.Step(Drop(target));
  }

  /** Match game on the same catalog: dropping A on defB is rejected, A on
      defA and B on defB are accepted. */
  method MatchGame() returns (s: StudySession)
    ensures fresh(s) && s.Valid() && s.cards == [Card("A", "defA"), Card("B", "defB")]
    ensures s.mode == Match && s.matches == map["A" := "defA", "B" := "defB"]
  {
    var cards := [Card("A", "defA"), Card("B", "defB")];
    assert cards[0].term == "A" && cards[1].term == "B";
    assert Definitions(cards)[0] == "defA" && Definitions(cards)[1] == "defB";
    assert FindDefinition(cards, "A") == Some("defA") && FindDefinition(cards, "B") == Some("defB");
    s := new StudySession(cards);
    s.Step(MatchButton);
    DragOnto(s, "A", "defB");
    assert s.matches == map[];
    DragOnto(s, "A", "defA");
    assert s.matches == map["A" := "defA"];
    DragOnto(s, "B", "defB");
  }

  /** After that game the progress line reads 2 / 2 and the completion message shows. */
  method MatchScenario() returns (matched: nat, total: nat, complete: bool)
    ensures matched == 2 && total == 2 && complete
  {
    var s := MatchGame();
    assert s.matches.Keys == {"A", "B"};
    matched, total, complete := s.MatchProgress();
  }
}
