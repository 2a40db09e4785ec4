# Flashcard study session, modelled in Dafny

The flashcard application is one React component. It shows a fixed catalog
of ten medical-terminology cards (term and definition) in three modes:

- **Flashcards** flips a card and steps through the catalog, wrapping around.
- **Test** is a multiple-choice quiz. Each button shows a definition, and the quiz keeps a score.
- **Match** lets the user drag terms onto a shuffled column of definitions. Only correct pairs are kept.

This project models the component's state and its event handlers as a Dafny
class, `Session.StudySession`. Its fields are the component's state variables:
`mode`, `index`, `showAnswer`, `score`, `testComplete`, `matches` and
`draggedTerm`. Each handler is one method that changes these fields. The two
lists the view derives on each render are pure functions: the quiz buttons and
the match mode's definition column.

Files:

- `catalog.dfy` (module `Catalog`): the card record and the shipped catalog. It also holds the definition column and the lookup of a term's definition (`find`).
- `shuffle.dfy` (module `Shuffle`): `shuffle` as a permutation supplied by the caller, with the proof that applying it keeps the multiset of elements.
- `derivations.dfy` (module `Derivations`): the quiz candidate list and the match-mode definition column.
- `session.dfy` (module `Session`): the session class and its handlers. Also the invariants they keep, and the lemmas about cycling, scoring and matching.
- `scenarios.dfy` (module `Scenarios`): two worked sessions on a two-card catalog, as client code of the class.

The class takes its catalog as a constructor argument, so that the scenarios
can use a small one. The constructor requires a non-empty catalog with distinct
terms. The shipped catalog `Catalog.AppCatalog` meets both requirements
(`AppCatalogTermsDistinct`).

Two invariants are proved:

- `WellFormed()` is kept by every handler in every mode. The index is in range, and every stored match is a correct pair.
- `Valid()` adds the quiz invariant: in Test mode, `index`, `testComplete` and `score` are fixed by the answers given since the Test button. A ghost log `answers` holds those answers. Handlers keep `Valid()` when they are called only from the controls the view renders (`Enabled`, `Step`).

The model follows the code:
the mode buttons reset only their own fields. Flashcards resets `index`. Test
resets `index`, `score` and `testComplete`. Match resets `matches`, and leaves
`index` and the pending drag alone. There is no blanket reset. Flashcard mode has
a single show/hide toggle; there is no separate "reveal" operation. The quiz
buttons can show the correct definition twice (see Findings), so the buttons
are not always the answer plus three distinct other definitions.

## Model

| member | source | states |
|---|---|---|
| `Catalog.Definitions` | src/App.jsx:88 | the definition column has one entry per card, in catalog order |
| `Catalog.FindDefinition` | src/App.jsx:51 | `find(...)?.definition` is None exactly when no card has the term; otherwise it is the definition of the first card with that term |
| `Catalog.FindDefinitionOfCard` | src/App.jsx:51 | with distinct terms, looking up a card's term gives that card's definition |
| `Catalog.AppCatalogTermsDistinct` | src/App.jsx:4-17 | the shipped catalog has ten cards with pairwise distinct terms |
| `Catalog.AppCatalogDefinitionsDistinct` | src/App.jsx:4-17 | the shipped catalog's definitions are pairwise distinct |
| `Shuffle.Permute` | src/App.jsx:45 | a shuffle returns the same elements, each as often, in the order the permutation gives |
| `Shuffle.PermutedMultiset` | src/App.jsx:45 | picking elements by a permutation of positions keeps the multiset of elements |
| `Shuffle.PermuteKeepsDistinct` | src/App.jsx:45 | shuffling a list without duplicates gives a list without duplicates |
| `Derivations.Take` | src/App.jsx:88 | `slice(0, 3)` keeps the first three elements, or all of them when there are fewer |
| `Derivations.QuizCandidates` | src/App.jsx:88 | the quiz buttons number min(3, N) + 1; they always include the current card's definition; every button is some card's definition; they are the three drawn definitions plus the answer, reordered |
| `Derivations.QuizCandidatesCanRepeatAnswer` | src/App.jsx:88 | on the shipped catalog, the first card's buttons can show its definition twice |
| `Derivations.Without` | src/App.jsx:88 | removing a value leaves every other element; it keeps distinctness; it shortens a duplicate-free list by one when the value occurs |
| `Derivations.Distractors` | src/App.jsx:88 | at most three distractors; never the answer; all catalog definitions; with distinct definitions, min(3, N - 1) distinct ones |
| `Derivations.DistinctQuizCandidates` | src/App.jsx:88 | the corrected buttons show the answer exactly once, and all are catalog definitions; with distinct definitions they are distinct and number min(3, N - 1) + 1 |
| `Derivations.AppQuizButtonsDistinct` | src/App.jsx:4-17 | on the shipped catalog the corrected quiz shows four distinct buttons, one of them the current card's definition |
| `Derivations.MatchColumn` | src/App.jsx:120 | the definition column in match mode is a reordering of all definitions: each card's definition appears, and nothing else |
| `Session.NextIndex` | src/App.jsx:29 | advancing moves to the next card, and from the last card back to the first; the index stays in range |
| `Session.AdvanceBy` | src/App.jsx:27-30 | any number of advances keeps the index in range |
| `Session.AdvanceByWraps` | src/App.jsx:29 | up to N advances from `i` reach `i + k`, wrapping past the last card once |
| `Session.AdvanceCycles` | src/App.jsx:27-30 | N presses of Next return to the starting card, and every card is reached on the way |
| `Session.CorrectCount` | src/App.jsx:33-42 | the count of correct answers is at most the number of answers, and equals it exactly when every answer was right |
| `Session.CorrectCountAppend` | src/App.jsx:34-36 | one more answer adds one to the count exactly when it is the current card's definition |
| `Session.MatchCountBounded` | src/App.jsx:51-53 | correct matches are keyed by catalog terms, so there are at most N of them |
| `Session.CompleteIffAllMatched` | src/App.jsx:132 | the "all matches correct" test (key count equals N) holds exactly when every card's term is matched to its definition |
| `Session.ScoreWithinProgress` | src/App.jsx:33-42 | in the quiz, the score is at most the index (plus one once complete), so the final score is at most N |
| `Session.StudySession.constructor` | src/App.jsx:20-25 | the initial state: flashcard mode, first card, answer hidden, score 0, quiz not complete, no matches, no pending drag |
| `Session.StudySession.Toggle` | src/App.jsx:73 | the show/hide button flips `showAnswer` and changes nothing else |
| `Session.StudySession.HandleNext` | src/App.jsx:27-30 | `handleNext` hides the answer and advances the index with wrap-around; nothing else changes |
| `Session.StudySession.HandleAnswer` | src/App.jsx:33-42 | the score rises by one exactly on a correct choice; on the last card the quiz completes and the index stays; otherwise the index moves on and the completion flag is unchanged |
| `Session.StudySession.HandleDragStart` | src/App.jsx:112 | starting a drag records the term as the pending drag |
| `Session.StudySession.HandleDrop` | src/App.jsx:50-56 | the pair is added exactly when the definition is the term's own; otherwise `matches` is unchanged; re-dropping a matched pair changes nothing; the pending drag is cleared in every case |
| `Session.StudySession.DropOn` | src/App.jsx:124 | a drop with no truthy pending drag does nothing; otherwise it is `handleDrop` of the pending term |
| `Session.StudySession.ChooseFlashcards` | src/App.jsx:62 | the Flashcards button sets the mode and resets only the index |
| `Session.StudySession.ChooseTest` | src/App.jsx:63 | the Test button sets the mode and resets index, score and completion; this establishes the quiz invariant |
| `Session.StudySession.ChooseMatch` | src/App.jsx:64 | the Match button sets the mode and clears only the matches |
| `Session.StudySession.Step` | src/App.jsx:62-124 | every action the view offers keeps the session valid, and has exactly the effect of its handler: the toggle, Next, an answer, a drag start, a drop, or one of the three mode buttons, each with the fields it leaves alone |
| `Session.StudySession.TestResult` | src/App.jsx:96 | the "Score: s/N" line reports the number of correct answers among exactly N answers, and s is at most N |
| `Session.StudySession.MatchProgress` | src/App.jsx:105-134 | the progress count is the number of matched terms and is at most N; the completion message shows exactly when every card is matched correctly |
| `Scenarios.QuizScenario` | src/App.jsx:33-42 | on cards [(A, defA), (B, defB)], pressing Test and answering defB twice through the view's controls gives a completed quiz with score 1 of 2 |
| `Scenarios.DragOnto` | src/App.jsx:112-124 | dragging a term onto a definition in match mode records the pair exactly when it is correct, and leaves no pending drag |
| `Scenarios.MatchGame` | src/App.jsx:50-56 | on the same cards, A dropped on defB is rejected; A on defA and B on defB are accepted |
| `Scenarios.MatchScenario` | src/App.jsx:105-134 | after that game the progress reads 2 of 2 and the completion message shows |

## Findings

| source | as written | input that shows it | evidently intended | confidence | as-written member | corrected member |
|---|---|---|---|---|---|---|
| src/App.jsx:88 | the three other buttons are the first three of a shuffle of ALL definitions, the correct one included, and then the correct one is appended | shipped catalog, card 0, both shuffles keeping the order: the buttons are d0, d1, d2, d0 | three distractors drawn from the other cards, and the answer shown once | medium; not executed | `Derivations.QuizCandidatesCanRepeatAnswer` | `Derivations.DistinctQuizCandidates` |

Both halves of the finding are stated about the candidate list alone. The
session uses neither list directly: `Enabled` admits any catalog definition as
an answer, and that covers both versions.

## Left out

- src/makeZip.js is not part of this model. It passes a folder to an archiving library and has no logic of its own.
- JSX markup, styling, and the text of the progress and completion lines are left out. Only the values those lines show are modelled (`TestResult`, `MatchProgress`).
- The green highlights are view-only and are left out. These are `matches[f.term]` at line 113 and `Object.values(matches).includes(d)` at line 125.
- `Math.random` and the comparator-based `sort` in `shuffle` (lines 45, 88, 120) are not modelled. The caller supplies the permutation instead. The model does not say which permutations are likely, nor that a re-render reshuffles.
- Each handler is one atomic step. This leaves out React's batching of state updates, re-rendering, and the closures that capture `index` and `score` from the last render.
- DOM drag-and-drop events (`preventDefault` at line 123) are left out. A drop is modelled as the call at line 124.
- JavaScript numbers are doubles. `index` and `score` stay below 11, so they are modelled as natural numbers.
- `matches` is a plain object in the source and a map here. Property names with special meaning in JavaScript (such as `__proto__`) are not modelled.
- `Session.StudySession.Enabled` lets an answer be any catalog definition, not just one of the four rendered buttons. The rendered buttons are a subset of these (`QuizCandidates`).
