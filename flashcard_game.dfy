/** The flashcard component (src/components/FlashcardGame.tsx): which field
    holds a question's expected answer, the synchronous per-type graders of
    `check`, the asynchronous free-response outcome, and the per-question
    session state that `check`, `next` and the reset effect update. */
module FlashcardGame {
  import opened Wrappers
  import opened Text

  // ---------------------------------------------------------------------------
  // Questions and selections

  /** The `type` tag of a question; `OtherType` is any tag the model
      service returns outside the documented seven. */
  datatype QuestionType =
    | MultipleChoice
    | Sata
    | FillInBlank
    | Matching
    | Frq
    | Model3dMatching
    | DiagramMcq
    | OtherType(tag: string)

  datatype Pair = Pair(left: string, right: string)

  /** A question as the component reads it; absent optional fields are `None`. */
  datatype Question = Question(
    id: string,
    kind: QuestionType,
    question: string,
    options: Option<seq<string>>,
    correctAnswer: Option<string>,
    answer: Option<string>,
    correctAnswers: Option<seq<string>>,
    pairs: Option<seq<Pair>>,
    correctLabel: Option<string>,
    modelAnswer: Option<string>)

  /** The component's `selected` state: `null`, a string (radio group, text
      input, text area, 3D model click) or an array (checkbox group). */
  datatype Selection = NoSelection | TextChoice(text: string) | ListChoice(values: seq<string>)

  const MISSING_ANSWER := "Error: Answer missing"
  const FALLBACK_FEEDBACK := "Could not grade automatically."

  /** A string field that is present and non-empty, i.e. truthy. */
  predicate IsFilled(x: Option<string>) {
    x.Some? && x.value != ""
  }

  // ---------------------------------------------------------------------------
  // getCorrectAnswer

  /** `getCorrectAnswer`: the label for a 3D question; otherwise the first
      filled one of `correctAnswer` and `answer`, or a fixed error text. */
  function CorrectAnswer(q: Question): (r: Option<string>)
    ensures q.kind == Model3dMatching ==> r == q.correctLabel
    ensures q.kind != Model3dMatching ==>
              IsFilled(r) && (r == q.correctAnswer || r == q.answer || r == Some(MISSING_ANSWER))
    ensures q.kind != Model3dMatching && IsFilled(q.correctAnswer) ==> r == q.correctAnswer
    ensures q.kind != Model3dMatching && !IsFilled(q.correctAnswer) && IsFilled(q.answer) ==> r == q.answer
    ensures q.kind != Model3dMatching && !IsFilled(q.correctAnswer) && !IsFilled(q.answer) ==>
              r == Some(MISSING_ANSWER)
  {
    if q.kind == Model3dMatching then q.correctLabel
    else if IsFilled(q.correctAnswer) then q.correctAnswer
    else if IsFilled(q.answer) then q.answer
    else Some(MISSING_ANSWER)
  }

  /** An empty `correctAnswer` is skipped exactly as a missing one is. */
  lemma CorrectAnswerSkipsEmpty(q: Question)
    requires q.correctAnswer == Some("")
    ensures CorrectAnswer(q) == CorrectAnswer(q.(correctAnswer := None))
  {
  }

  // ---------------------------------------------------------------------------
  // Multiple choice and diagram questions

  /** `selected === expected` for a string expectation or `undefined`. */
  predicate Matches(sel: Selection, expected: Option<string>) {
    sel.TextChoice? && expected == Some(sel.text)
  }

  /** `k` is the first position of `options[k]`. */
  predicate FirstOccurrence(options: seq<string>, k: int) {
    0 <= k < |options| && forall j :: 0 <= j < k ==> options[j] != options[k]
  }

  function IndexOfText(options: seq<string>, s: string): (r: int)
    ensures -1 <= r < |options|
    ensures r == -1 <==> s !in options
    ensures r >= 0 ==> options[r] == s && FirstOccurrence(options, r)
  {
    if |options| == 0 then -1
    else if options[0] == s then 0
    else
      var k := IndexOfText(options[1..], s);
      if k == -1 then -1 else k + 1
  }

  /** `options.indexOf(selected)`: the first position holding the selected
      string, or -1 (always -1 for `null` and for an array). */
  function IndexOf(options: seq<string>, sel: Selection): (r: int)
    ensures -1 <= r < |options|
    ensures r == -1 <==> !(sel.TextChoice? && sel.text in options)
    ensures r >= 0 ==> sel == TextChoice(options[r]) && FirstOccurrence(options, r)
  {
    if sel.TextChoice? then IndexOfText(options, sel.text) else -1
  }

  /** `c.toUpperCase().charCodeAt(0) - 65`: 'A' and 'a' give 0, 'B' and 'b' 1, ... */
  function LetterIndex(c: char): int {
    UpperChar(c) as int - 'A' as int
  }

  /** The multiple-choice grader: the exact expected string, or, when the
      expected answer is a single character and the question has options,
      the option at that letter's position. */
  predicate McqCorrect(options: Option<seq<string>>, expected: Option<string>, sel: Selection) {
    Matches(sel, expected)
    || (expected.Some? && |expected.value| == 1 && options.Some?
        && IndexOf(options.value, sel) == LetterIndex(expected.value[0]))
  }

  /** What the multiple-choice grader accepts, in terms of the options
      themselves: the exact answer; or, for a one-character answer, the first
      option at that letter's position; or, when the letter maps to -1
      (the answer "@"), any selection that is not one of the options. */
  lemma McqAccepts(options: Option<seq<string>>, expected: string, sel: Selection)
    ensures McqCorrect(options, Some(expected), sel) <==>
      || sel == TextChoice(expected)
      || (|expected| == 1 && options.Some? &&
          var k := LetterIndex(expected[0]);
          || (FirstOccurrence(options.value, k) && sel == TextChoice(options.value[k]))
          || (k == -1 && !(sel.TextChoice? && sel.text in options.value)))
  {
    if |expected| == 1 && options.Some? {
      var k := LetterIndex(expected[0]);
      var opts := options.value;
      if FirstOccurrence(opts, k) && sel == TextChoice(opts[k]) {
        var i := IndexOf(opts, sel);
        assert opts[k] in opts;
        assert 0 <= i && opts[i] == opts[k];
      }
    }
  }

  /** The letter of a one-letter answer is read case-insensitively. */
  lemma McqLetterIgnoresCase(options: seq<string>, c: char, sel: Selection)
    requires 'a' <= c <= 'z'
    requires sel != TextChoice([c]) && sel != TextChoice([UpperChar(c)])
    ensures McqCorrect(Some(options), Some([c]), sel) == McqCorrect(Some(options), Some([UpperChar(c)]), sel)
  {
  }

  /** The quirk of the answer "@": its letter position is -1, the value
      `indexOf` gives for a selection that is not among the options. */
  lemma McqAtSignAcceptsUnlisted(options: seq<string>, sel: Selection)
    requires !(sel.TextChoice? && sel.text in options)
    ensures McqCorrect(Some(options), Some("@"), sel)
  {
  }

  // ---------------------------------------------------------------------------
  // Fill in the blank

  /** `s.toLowerCase().trim()`. */
  function Normalized(s: string): string {
    Trim(Lower(s))
  }

  /** `selected?.toLowerCase().trim() === expected?.toLowerCase().trim()`,
      where `null`/`undefined` on either side stays `undefined`. */
  predicate FillInCorrect(sel: Selection, expected: Option<string>) {
    var given := if sel.TextChoice? then Some(Normalized(sel.text)) else None;
    var wanted := if expected.Some? then Some(Normalized(expected.value)) else None;
    given == wanted
  }

  /** Letter case and surrounding white space of the typed answer never
      change the verdict. */
  lemma {:induction false} FillInIgnoresCaseAndPadding(p: string, s: string, q: string, expected: Option<string>)
    requires AllWhiteSpace(p) && AllWhiteSpace(q)
    ensures FillInCorrect(TextChoice(p + Upper(s) + q), expected) == FillInCorrect(TextChoice(s), expected)
  {
    LowerAppend(p, Upper(s));
    LowerAppend(p + Upper(s), q);
    LowerKeepsWhiteSpace(p);
    LowerKeepsWhiteSpace(q);
    LowerForgetsCase(s);
    TrimIgnoresPadding(p, Lower(s), q);
  }

  /** The comparison is symmetric: the typed text and the expected answer can
      trade places. */
  lemma FillInSymmetric(a: string, b: string)
    ensures FillInCorrect(TextChoice(a), Some(b)) == FillInCorrect(TextChoice(b), Some(a))
  {
  }

  /** Comparing after trimming is comparing the lower-cased trimmed texts. */
  lemma FillInComparesTrimmedText(s: string, expected: string)
    ensures FillInCorrect(TextChoice(s), Some(expected)) <==> Lower(Trim(s)) == Lower(Trim(expected))
  {
    TrimLowerCommute(s);
    TrimLowerCommute(expected);
  }

  // ---------------------------------------------------------------------------
  // Select all that apply

  function Elements(xs: seq<string>): set<string> {
    set x | x in xs
  }

  /** `userSet.size === correctSet.size && [...userSet].every(v => correctSet.has(v))`,
      for an array selection and a present `correctAnswers`. */
  predicate SataCorrect(sel: Selection, correctAnswers: Option<seq<string>>) {
    sel.ListChoice? && correctAnswers.Some? &&
      var chosen := Elements(sel.values);
      var wanted := Elements(correctAnswers.value);
      |chosen| == |wanted| && forall v :: v in chosen ==> v in wanted
  }

  /** The size-and-membership test is exactly set equality. */
  lemma SataIsSetEquality(xs: seq<string>, cs: seq<string>)
    ensures SataCorrect(ListChoice(xs), Some(cs)) <==> Elements(xs) == Elements(cs)
  {
    var chosen, wanted := Elements(xs), Elements(cs);
    if |chosen| == |wanted| && chosen <= wanted {
      var extra := wanted - chosen;
      assert wanted == chosen + extra && chosen !! extra;
      assert |wanted| == |chosen| + |extra|;
      assert extra == {};
    }
  }

  /** Order and repetition in the selection are ignored. */
  lemma SataIgnoresOrderAndRepeats(xs: seq<string>, ys: seq<string>, cs: seq<string>)
    requires Elements(xs) == Elements(ys)
    ensures SataCorrect(ListChoice(xs), Some(cs)) == SataCorrect(ListChoice(ys), Some(cs))
  {
    SataIsSetEquality(xs, cs);
    SataIsSetEquality(ys, cs);
  }

  // ---------------------------------------------------------------------------
  // Matching

  /** `q.pairs && Object.keys(matchState).length === q.pairs.length &&
      q.pairs.every(pair => matchState[pair.left] === pair.right)`. */
  predicate MatchingCorrect(pairs: Option<seq<Pair>>, matchState: map<string, string>) {
    pairs.Some? && |matchState| == |pairs.value| &&
      forall p :: p in pairs.value ==> p.left in matchState && matchState[p.left] == p.right
  }

  function Lefts(pairs: seq<Pair>): set<string> {
    set p | p in pairs :: p.left
  }

  predicate DistinctLefts(pairs: seq<Pair>) {
    forall i, j :: 0 <= i < j < |pairs| ==> pairs[i].left != pairs[j].left
  }

  /** The answer key: each left term mapped to its right term. */
  function AnswerKey(pairs: seq<Pair>): (key: map<string, string>)
    requires DistinctLefts(pairs)
    ensures key.Keys == Lefts(pairs)
    ensures forall p :: p in pairs ==> key[p.left] == p.right
  {
    map p | p in pairs :: p.left := p.right
  }

  /** There are as many distinct left terms as pairs exactly when no left
      term repeats. */
  lemma {:induction false} LeftsCount(pairs: seq<Pair>)
    ensures |Lefts(pairs)| <= |pairs|
    ensures |Lefts(pairs)| == |pairs| <==> DistinctLefts(pairs)
  {
    if pairs != [] {
      var init, last := pairs[..|pairs| - 1], pairs[|pairs| - 1];
      assert pairs == init + [last];
      LeftsSnoc(init, last);
      DistinctSnoc(init, last);
      LeftsCount(init);
    }
  }

  /** Helper: the left terms of a list with one more pair. */
  lemma LeftsSnoc(init: seq<Pair>, last: Pair)
    ensures Lefts(init + [last]) == Lefts(init) + {last.left}
  {
    var pairs := init + [last];
    forall x | x in Lefts(pairs) ensures x in Lefts(init) + {last.left} {
      var p :| p in pairs && p.left == x;
      if p != last { assert p in init; }
    }
  }

  /** Helper: one more pair keeps the left terms distinct exactly when its
      left term is new. */
  lemma DistinctSnoc(init: seq<Pair>, last: Pair)
    ensures DistinctLefts(init + [last]) <==> DistinctLefts(init) && last.left !in Lefts(init)
  {
    var pairs := init + [last];
    if last.left in Lefts(init) {
      var p :| p in init && p.left == last.left;
      var i :| 0 <= i < |init| && init[i] == p;
      assert pairs[i].left == pairs[|pairs| - 1].left;
    } else if DistinctLefts(init) {
      forall i, j | 0 <= i < j < |pairs| ensures pairs[i].left != pairs[j].left {
        if j == |pairs| - 1 { assert init[i] in init; }
        else { assert pairs[i] == init[i] && pairs[j] == init[j]; }
      }
    }
    if DistinctLefts(pairs) {
      forall i, j | 0 <= i < j < |init| ensures init[i].left != init[j].left {
        assert init[i] == pairs[i] && init[j] == pairs[j];
      }
    }
  }

  /** With distinct left terms, the matching grader accepts exactly the
      answer key: every pair chosen right and nothing else chosen. */
  lemma MatchingAcceptsExactlyTheKey(pairs: seq<Pair>, matchState: map<string, string>)
    requires DistinctLefts(pairs)
    ensures MatchingCorrect(Some(pairs), matchState) <==> matchState == AnswerKey(pairs)
  {
    if MatchingCorrect(Some(pairs), matchState) {
      CorrectStateIsKey(pairs, matchState);
    }
    if matchState == AnswerKey(pairs) {
      KeyIsCorrect(pairs);
    }
  }

  lemma CorrectStateIsKey(pairs: seq<Pair>, matchState: map<string, string>)
    requires DistinctLefts(pairs) && MatchingCorrect(Some(pairs), matchState)
    ensures matchState == AnswerKey(pairs)
  {
    LeftsCount(pairs);
    var key := AnswerKey(pairs);
    assert Lefts(pairs) <= matchState.Keys;
    assert |matchState| == |matchState.Keys|;
    SubsetSize(Lefts(pairs), matchState.Keys);
    assert matchState.Keys == key.Keys;
    forall k | k in matchState ensures matchState[k] == key[k] {
      var p :| p in pairs && p.left == k;
    }
  }

  lemma KeyIsCorrect(pairs: seq<Pair>)
    requires DistinctLefts(pairs)
    ensures MatchingCorrect(Some(pairs), AnswerKey(pairs))
  {
    LeftsCount(pairs);
    var key := AnswerKey(pairs);
    assert |key| == |key.Keys|;
  }

  /** A subset is no larger than its superset, and equally large only when
      the two are equal. */
  lemma SubsetSize<T>(a: set<T>, b: set<T>)
    requires a <= b
    ensures |a| <= |b|
    ensures |a| == |b| ==> a == b
  {
    var extra := b - a;
    assert b == a + extra && a !! extra;
    assert |b| == |a| + |extra|;
    if |a| == |b| { assert extra == {}; }
  }

  /** A partially filled `matchState` is never correct. */
  lemma MatchingPartialIsWrong(pairs: seq<Pair>, matchState: map<string, string>)
    requires matchState.Keys < Lefts(pairs)
    ensures !MatchingCorrect(Some(pairs), matchState)
  {
    LeftsCount(pairs);
    SubsetSize(matchState.Keys, Lefts(pairs));
    assert |matchState| == |matchState.Keys|;
  }

  /** When two pairs share a left term, no `matchState` built from the
      question's own left terms is ever graded correct. */
  lemma MatchingRepeatedLeftIsUnanswerable(pairs: seq<Pair>, matchState: map<string, string>)
    requires !DistinctLefts(pairs)
    requires matchState.Keys <= Lefts(pairs)
    ensures !MatchingCorrect(Some(pairs), matchState)
  {
    LeftsCount(pairs);
    SubsetSize(matchState.Keys, Lefts(pairs));
    assert |matchState| == |matchState.Keys|;
  }

  // ---------------------------------------------------------------------------
  // The synchronous grading switch

  /** The `switch (q.type)` of `check`; a type it does not list grades false. */
  predicate Grade(q: Question, sel: Selection, matchState: map<string, string>) {
    match q.kind
    case MultipleChoice => McqCorrect(q.options, CorrectAnswer(q), sel)
    case DiagramMcq => McqCorrect(q.options, CorrectAnswer(q), sel)
    case FillInBlank => FillInCorrect(sel, CorrectAnswer(q))
    case Sata => SataCorrect(sel, q.correctAnswers)
    case Matching => MatchingCorrect(q.pairs, matchState)
    case Model3dMatching => Matches(sel, q.correctLabel)
    case Frq => false
    case OtherType(_) => false
  }

  /** An unanswered fill-in-the-blank question is never correct, because its
      expected answer is always a string. */
  lemma FillInNeedsAnswer(q: Question, matchState: map<string, string>)
    requires q.kind == FillInBlank
    ensures !Grade(q, NoSelection, matchState)
  {
  }

  /** A 3D question is right exactly when the clicked part is its label;
      a type the switch does not handle is always wrong. */
  lemma LabelAndUnknownTypes(q: Question, sel: Selection, matchState: map<string, string>)
    ensures q.kind == Model3dMatching ==>
              (Grade(q, sel, matchState) <==> q.correctLabel.Some? && sel == TextChoice(q.correctLabel.value))
    ensures q.kind.OtherType? ==> !Grade(q, sel, matchState)
  {
  }

  /** What each case of the switch accepts, in terms of the question itself
      rather than of the individual checks. */
  lemma GradeMeaning(q: Question, sel: Selection, matchState: map<string, string>)
    ensures (q.kind == MultipleChoice || q.kind == DiagramMcq) ==>
              var expected := CorrectAnswer(q).value;
              (Grade(q, sel, matchState) <==>
                || sel == TextChoice(expected)
                || (|expected| == 1 && q.options.Some? &&
                    var k := LetterIndex(expected[0]);
                    || (FirstOccurrence(q.options.value, k) && sel == TextChoice(q.options.value[k]))
                    || (k == -1 && !(sel.TextChoice? && sel.text in q.options.value))))
    ensures q.kind == FillInBlank ==>
              (Grade(q, sel, matchState) <==>
                sel.TextChoice? && Lower(Trim(sel.text)) == Lower(Trim(CorrectAnswer(q).value)))
    ensures q.kind == Sata ==>
              (Grade(q, sel, matchState) <==>
                sel.ListChoice? && q.correctAnswers.Some? && Elements(sel.values) == Elements(q.correctAnswers.value))
    ensures q.kind == Matching ==>
              (q.pairs.None? ==> !Grade(q, sel, matchState))
              && (q.pairs.Some? && DistinctLefts(q.pairs.value) ==>
                    (Grade(q, sel, matchState) <==> matchState == AnswerKey(q.pairs.value)))
    ensures q.kind == Frq ==> !Grade(q, sel, matchState)
  {
    match q.kind
    case MultipleChoice => McqAccepts(q.options, CorrectAnswer(q).value, sel);
    case DiagramMcq => McqAccepts(q.options, CorrectAnswer(q).value, sel);
    case FillInBlank =>
      if sel.TextChoice? {
        FillInComparesTrimmedText(sel.text, CorrectAnswer(q).value);
      }
    case Sata =>
      if sel.ListChoice? && q.correctAnswers.Some? {
        SataIsSetEquality(sel.values, q.correctAnswers.value);
      }
    case Matching =>
      if q.pairs.Some? && DistinctLefts(q.pairs.value) {
        MatchingAcceptsExactlyTheKey(q.pairs.value, matchState);
      }
    case _ =>
  }

  // ---------------------------------------------------------------------------
  // Moving through the questions

  /** `(i + 1) % questions.length`. */
  function NextIndex(i: nat, n: nat): (r: nat)
    requires n > 0
    ensures r < n
  {
    (i + 1) % n
  }

  /** The index after `k` presses of "Next" from `i`. */
  function AdvanceBy(i: nat, n: nat, k: nat): nat
    requires n > 0
  {
    if k == 0 then i else NextIndex(AdvanceBy(i, n, k - 1), n)
  }

  /** Up to `n` presses of "Next" from question `i` walk forward one
      question at a time and wrap from the last question to the first; after
      exactly `n` presses the quiz is back at question `i`. */
  lemma {:induction false} AdvanceWraps(i: nat, n: nat, k: nat)
    requires i < n && k <= n
    ensures AdvanceBy(i, n, k) == if i + k < n then i + k else i + k - n
  {
    if k > 0 {
      AdvanceWraps(i, n, k - 1);
      NextIndexStep(AdvanceBy(i, n, k - 1), n);
    }
  }

  /** One press of "Next" moves to the following question, or from the last
      question back to the first. */
  lemma NextIndexStep(i: nat, n: nat)
    requires i < n
    ensures NextIndex(i, n) == if i + 1 < n then i + 1 else 0
  {
  }

  // ---------------------------------------------------------------------------
  // The session

  /** What the grading endpoint answers for a free-response question. */
  datatype GraderReply = GraderReply(correct: bool, feedback: string)

  /** The component's state: the quiz it was given and the per-question
      state the reset effect clears. */
  class QuizSession {
    var questions: seq<Question>
    var index: nat
    var selected: Selection
    var matchState: map<string, string>
    var isAnswered: bool
    var grading: bool
    var aiFeedback: string

    /** The state right after the reset effect. */
    predicate Cleared()
      reads this
    {
      selected == NoSelection && matchState == map[] && !isAnswered && !grading && aiFeedback == ""
    }

    /** The question on screen; none once the index is past the end ("Quiz Complete!"). */
    function Current(): Option<Question>
      reads this
    {
      if index < |questions| then Some(questions[index]) else None
    }

    /** The game is mounted only while the page holds at least one question. */
    constructor (questions: seq<Question>)
      requires |questions| > 0
      ensures this.questions == questions && index == 0 && Cleared()
    {
      this.questions := questions;
      index := 0;
      selected := NoSelection;
      matchState := map[];
      isAnswered := false;
      grading := false;
      aiFeedback := "";
    }

    /** The effect on `[index]`: clears the per-question state. */
    method ResetForNewQuestion()
      modifies this
      ensures Cleared()
      ensures questions == old(questions) && index == old(index)
    {
      selected := NoSelection;
      matchState := map[];
      isAnswered := false;
      aiFeedback := "";
      grading := false;
    }

    /** `setSelected` from a radio group, checkbox group, text field or model click. */
    method Select(sel: Selection)
      modifies this
      ensures selected == sel
      ensures questions == old(questions) && index == old(index) && matchState == old(matchState)
      ensures isAnswered == old(isAnswered) && grading == old(grading) && aiFeedback == old(aiFeedback)
    {
      selected := sel;
    }

    /** `setMatchState(prev => ({...prev, [left]: right}))` from a pair's drop-down. */
    method ChooseMatch(left: string, right: string)
      modifies this
      ensures matchState == old(matchState)[left := right]
      ensures questions == old(questions) && index == old(index) && selected == old(selected)
      ensures isAnswered == old(isAnswered) && grading == old(grading) && aiFeedback == old(aiFeedback)
    {
      matchState := matchState[left := right];
    }

    /** `check`: a free-response question is graded by the endpoint, whose
        reply is `reply` (`None` when the request throws); every other type is
        graded by `Grade`. Returns the value passed to `onFeedback`. For a
        free-response question this is `BeginGrading` and `FinishGrading`
        with nothing in between. */
    method Check(reply: Option<GraderReply>) returns (correct: bool)
      requires index < |questions|
      modifies this
      ensures isAnswered
      ensures questions == old(questions) && index == old(index)
      ensures selected == old(selected) && matchState == old(matchState)
      ensures old(questions[index].kind) == Frq ==>
                !grading
                && (reply.Some? ==> correct == reply.value.correct && aiFeedback == reply.value.feedback)
                && (reply.None? ==> correct && aiFeedback == FALLBACK_FEEDBACK)
      ensures old(questions[index].kind) != Frq ==>
                correct == Grade(questions[index], selected, matchState)
                && grading == old(grading) && aiFeedback == old(aiFeedback)
    {
      var q := questions[index];
      if q.kind == Frq {
        BeginGrading();
        correct := FinishGrading(reply);
        return;
      }
      isAnswered := true;
      correct := Grade(q, selected, matchState);
    }

    /** The synchronous part of `check` on a free-response question: the
        spinner is on while the request is out. */
    method BeginGrading()
      requires index < |questions| && questions[index].kind == Frq
      modifies this
      ensures grading
      ensures questions == old(questions) && index == old(index)
      ensures selected == old(selected) && matchState == old(matchState)
      ensures isAnswered == old(isAnswered) && aiFeedback == old(aiFeedback)
    {
      grading := true;
    }

    /** The continuation of `check` once the grading request settles. It
        writes the verdict into whatever state the game is in by then: it
        does not look at the question on screen, which may have changed
        while the request was out. */
    method FinishGrading(reply: Option<GraderReply>) returns (correct: bool)
      modifies this
      ensures isAnswered && !grading
      ensures reply.Some? ==> correct == reply.value.correct && aiFeedback == reply.value.feedback
      ensures reply.None? ==> correct && aiFeedback == FALLBACK_FEEDBACK
      ensures questions == old(questions) && index == old(index)
      ensures selected == old(selected) && matchState == old(matchState)
    {
      isAnswered := true;
      if reply.Some? {
        aiFeedback := reply.value.feedback;
        correct := reply.value.correct;
      } else {
        aiFeedback := FALLBACK_FEEDBACK;
        correct := true;
      }
      grading := false;
    }

    /** `next`, followed by the reset effect, which React runs only when the
        index actually changes: with a single question nothing is reset. */
    method Next()
      requires index < |questions|
      modifies this
      ensures questions == old(questions)
      ensures index == NextIndex(old(index), |questions|)
      ensures index != old(index) ==> Cleared()
      ensures index == old(index) ==>
                selected == old(selected) && matchState == old(matchState)
                && isAnswered == old(isAnswered) && grading == old(grading) && aiFeedback == old(aiFeedback)
    {
      var next := NextIndex(index, |questions|);
      if next != index {
        index := next;
        ResetForNewQuestion();
      }
    }

    /** A new non-empty `questions` prop while the game stays mounted: the
        index and the per-question state stay. An empty list unmounts the
        game instead, and the next list meets a fresh one. */
    method ReceiveQuestions(qs: seq<Question>)
      requires |qs| > 0
      modifies this
      ensures questions == qs && index == old(index)
      ensures selected == old(selected) && matchState == old(matchState)
      ensures isAnswered == old(isAnswered) && grading == old(grading) && aiFeedback == old(aiFeedback)
    {
      questions := qs;
    }
  }
}
