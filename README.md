# The Nursing Cottage: quiz generation, grading and note import

The Nursing Cottage is a study web application. A student pastes notes or
uploads PDFs, slide decks and text files. The application sends the notes
to a quiz route. That route asks a language model for the notes' topics,
then for questions on each topic, and returns every question in one list
numbered "1".."n". The student answers the questions one at a time on
flashcards. Each question type has its own grader.

This project models four parts of the application in Dafny:

- **Grading and flashcard session** (`FlashcardGame`,
  src/components/FlashcardGame.tsx). Which field holds the expected answer.
  How multiple-choice, fill-in-the-blank, select-all-that-apply, matching
  and 3D-model answers are judged. The free-response outcome. The session
  state that `check`, `next` and the reset effect change, as the class
  `QuizSession`.
- **Quiz route** (`GenerateQuiz`, src/app/api/generate-quiz/route.ts).
  The text cuts. The fallbacks when a reply or its fields are missing. The
  six-backtick clean-up of replies. The flattening of the per-topic lists in
  topic order. The renumbering of ids.
- **Text extraction** (`FileParser`, src/utils/fileParser.ts).
  - `parsePptx`: selects slide files, orders them by slide number, pulls
    out the `<a:t>` text runs (DrawingML text runs of Office Open XML,
    ECMA-376 Part 1, section 21.1.2.3.11) and writes the "--- Slide N ---"
    blocks. It is the method `ParsePptx`.
  - `parsePdf`: writes one "--- Page i ---" block per page. It is the method
    `ParsePdf`.
  - Both methods are proved against specification functions (`PptxText`,
    `PdfText`).
- **Study page** (`StudyPage`, src/app/page.tsx). The multi-file upload,
  which dispatches on the name suffix, skips blank or failing files and
  joins the rest with headers. The guards of "Generate Assessment". Both are
  methods of the class `Page`, whose fields are the page's state.

Supporting modules:

- `Text` models the JavaScript string operations the quiz app uses: `trim`
  with the ECMAScript white-space set, ASCII case mapping, `join`,
  `substring`, decimal numerals and the first `\d+` run.
- `JsonValues` models JSON values with JavaScript truthiness, property
  reads, `||` and object spread.
- `Wrappers` holds `Option` and `Result`.

The language model is a parameter: a function from prompt to completion.
So are `JSON.parse`, the zip and PDF readers and `fetch`.

## Model

| member | source | states |
|---|---|---|
| `FlashcardGame.CorrectAnswer` | src/components/FlashcardGame.tsx:39-42 | A 3D question yields its `correctLabel`. Any other type yields the first truthy one of `correctAnswer` and `answer`, and the text "Error: Answer missing" when neither is truthy; the result is always a truthy string. |
| `FlashcardGame.CorrectAnswerSkipsEmpty` | src/components/FlashcardGame.tsx:41 | An empty `correctAnswer` is the same as a missing one, because the `or` operator skips falsy strings. |
| `FlashcardGame.IndexOfText` | src/components/FlashcardGame.tsx:90 | `indexOf` gives -1 exactly when the string is not an option. Otherwise it gives the first position holding it. |
| `FlashcardGame.IndexOf` | src/components/FlashcardGame.tsx:90 | `options.indexOf(selected)` gives -1 for a selection that is not a listed string. Otherwise it gives the first position of that string. |
| `FlashcardGame.McqAccepts` | src/components/FlashcardGame.tsx:84-94 | Both directions. The multiple-choice grader accepts exactly these selections: the exact answer; for a one-character answer, the first option at that letter's position; for the answer "@" (letter index -1), any selection that is not an option. |
| `FlashcardGame.McqLetterIgnoresCase` | src/components/FlashcardGame.tsx:91 | A lower-case answer letter grades like its upper-case form. |
| `FlashcardGame.McqAtSignAcceptsUnlisted` | src/components/FlashcardGame.tsx:89-92 | With the expected answer "@", every selection outside the options is graded correct. |
| `FlashcardGame.FillInIgnoresCaseAndPadding` | src/components/FlashcardGame.tsx:96-98 | Surrounding white space and letter case of the typed answer never change the fill-in verdict. |
| `FlashcardGame.FillInSymmetric` | src/components/FlashcardGame.tsx:97 | Swapping the typed answer and the expected answer does not change the fill-in verdict. |
| `FlashcardGame.FillInComparesTrimmedText` | src/components/FlashcardGame.tsx:97 | Both directions. A fill-in answer is right exactly when the lower-cased trimmed texts are equal. |
| `FlashcardGame.FillInNeedsAnswer` | src/components/FlashcardGame.tsx:96-98 | With no selection, a fill-in question is never graded correct. |
| `FlashcardGame.SataIsSetEquality` | src/components/FlashcardGame.tsx:100-106 | Both directions. The size-plus-membership test on an array selection is exactly equality of the element sets. |
| `FlashcardGame.SataIgnoresOrderAndRepeats` | src/components/FlashcardGame.tsx:102-104 | Two selections with the same elements get the same select-all verdict, whatever their order or repeats. |
| `FlashcardGame.AnswerKey` | src/components/FlashcardGame.tsx:108-111 | When left terms are distinct, the key maps exactly the left terms, each to its pair's right term. |
| `FlashcardGame.LeftsCount` | src/components/FlashcardGame.tsx:109 | Both directions. There are at most as many distinct left terms as pairs, and exactly as many when the left terms are distinct. |
| `FlashcardGame.MatchingAcceptsExactlyTheKey` | src/components/FlashcardGame.tsx:108-112 | Both directions. With distinct left terms, a matching answer is right exactly when the match state equals the answer key. |
| `FlashcardGame.CorrectStateIsKey` | src/components/FlashcardGame.tsx:109-110 | With distinct left terms, a match state the matching check accepts is the answer key. |
| `FlashcardGame.KeyIsCorrect` | src/components/FlashcardGame.tsx:109-110 | The answer key is always accepted. |
| `FlashcardGame.MatchingPartialIsWrong` | src/components/FlashcardGame.tsx:109 | A match state that covers only part of the left terms is never accepted. |
| `FlashcardGame.MatchingRepeatedLeftIsUnanswerable` | src/components/FlashcardGame.tsx:109-110 | When two pairs share a left term, no match state built from the question's left terms is accepted. The key count can never reach the pair count. |
| `FlashcardGame.LabelAndUnknownTypes` | src/components/FlashcardGame.tsx:114-117 | A 3D question is right exactly when the selection is its label. A type outside the switch is always wrong. |
| `FlashcardGame.GradeMeaning` | src/components/FlashcardGame.tsx:83-117 | Per question type, both directions: what the multiple-choice, fill-in, select-all and matching cases accept, stated on the question itself (its options, its expected answer, its set of correct answers, its answer key). A free-response question is never graded by the switch. |
| `FlashcardGame.NextIndex` | src/components/FlashcardGame.tsx:122-124 | The next index always lies in [0, length). |
| `FlashcardGame.NextIndexStep` | src/components/FlashcardGame.tsx:123 | `next` moves to the following question, and from the last question back to the first. |
| `FlashcardGame.AdvanceWraps` | src/components/FlashcardGame.tsx:123 | k presses of `next` from i, with k at most the length, land on i+k, wrapped once past the end. |
| `FlashcardGame.QuizSession.constructor` | src/components/FlashcardGame.tsx:28-34 | A new session, which the page mounts only for a non-empty question list, starts on the first question with cleared per-question state. |
| `FlashcardGame.QuizSession.ResetForNewQuestion` | src/components/FlashcardGame.tsx:44-50 | The reset effect clears the selection, the matches, the answered flag, the feedback and the grading flag, and nothing else. |
| `FlashcardGame.QuizSession.Select` | src/components/FlashcardGame.tsx:147-242 | Choosing an answer sets the selection and nothing else. |
| `FlashcardGame.QuizSession.ChooseMatch` | src/components/FlashcardGame.tsx:220 | Picking a right term for a left term updates that one entry of the match state and nothing else. |
| `FlashcardGame.QuizSession.Check` | src/components/FlashcardGame.tsx:52-120 | Checking always marks the question answered. A free-response question reports the grading endpoint's verdict and feedback. If grading throws, it reports correct with "Could not grade automatically.". Every other type reports the `Grade` verdict and leaves the feedback alone. |
| `FlashcardGame.QuizSession.BeginGrading` | src/components/FlashcardGame.tsx:54-55 | Sending a free-response answer for grading turns the grading flag on and changes nothing else. |
| `FlashcardGame.QuizSession.FinishGrading` | src/components/FlashcardGame.tsx:65-74 | When the grading request settles, the game is marked answered and the flag goes off. The verdict and feedback are the endpoint's, or correct with the fallback feedback if the request threw. The questions, the index, the selection and the matches stay as they are by then. |
| `FlashcardGame.QuizSession.Next` | src/components/FlashcardGame.tsx:122-124 | The index becomes (i+1) mod length. The state is cleared exactly when the index changes: with one question it stays as it was. |
| `FlashcardGame.QuizSession.ReceiveQuestions` | src/components/FlashcardGame.tsx:27-36 | A new non-empty question list replaces the old one but keeps the index and the per-question state. |
| `GenerateQuiz.ReplyText` | src/app/api/generate-quiz/route.ts:84 | A missing or empty reply becomes exactly "{}". Any other reply is kept as it is. The result is never empty. |
| `GenerateQuiz.RemoveFencesKeepsPlainText` | src/app/api/generate-quiz/route.ts:85 | Text without backticks passes through the clean-up unchanged. |
| `GenerateQuiz.UnwrapFencedReply` | src/app/api/generate-quiz/route.ts:85 | A reply wrapped in six backticks on both sides is unwrapped to its inner text. |
| `GenerateQuiz.RemoveFencesOnRun` | src/app/api/generate-quiz/route.ts:85 | A run of n backticks shrinks to n mod 6, since the single pass removes six at a time from the left. |
| `GenerateQuiz.RemoveFencesLeavesNoFence` | src/app/api/generate-quiz/route.ts:85 | After the clean-up, no six consecutive backticks remain anywhere. |
| `GenerateQuiz.CleanReply` | src/app/api/generate-quiz/route.ts:84-85 | The text handed to `JSON.parse` has no six-backtick fence left in it, neither starts nor ends with white space, and is no longer than the reply. |
| `GenerateQuiz.TopicExcerpt` | src/app/api/generate-quiz/route.ts:22 | The topic prompt quotes a prefix of the text of at most 15000 characters. |
| `GenerateQuiz.ExtractTopics` | src/app/api/generate-quiz/route.ts:11-32 | A throwing model call fails with the call's error, a reply that is not JSON with a syntax error and a `null` reply with a type error. Otherwise the result is the reply's `topics` when truthy, else []; a successful result is always truthy or []. |
| `GenerateQuiz.TopicQuestions` | src/app/api/generate-quiz/route.ts:73-91 | A topic yields []: when the model call throws, when the cleaned reply is not JSON, and when it is `null`. Otherwise it yields the reply's `questions` when truthy, else []. |
| `GenerateQuiz.MissingQuestionsGiveEmptyList` | src/app/api/generate-quiz/route.ts:84-87 | A cleaned reply whose object has no `questions` yields an empty list. |
| `GenerateQuiz.TopicResults` | src/app/api/generate-quiz/route.ts:108-112 | There is one result per topic, in topic order. Each is that topic's questions for its own prompt, and what those are is stated by the contract of `GenerateQuiz.TopicQuestions`. |
| `GenerateQuiz.FlattenAppend` | src/app/api/generate-quiz/route.ts:115 | Flattening distributes over concatenation of the per-topic results, and so does their item count. |
| `GenerateQuiz.Flatten` | src/app/api/generate-quiz/route.ts:115 | The flattened list is as long as the per-topic contributions summed. |
| `GenerateQuiz.FlattenPosition` | src/app/api/generate-quiz/route.ts:115 | Question j of topic k sits at position (items of the earlier topics) + j of the flattened list. |
| `GenerateQuiz.FailedTopicDropsOut` | src/app/api/generate-quiz/route.ts:88-115 | A topic that yields [] leaves the other topics' questions exactly as they would be without it. |
| `GenerateQuiz.Renumbered` | src/app/api/generate-quiz/route.ts:118-121 | Renumbering keeps the number of questions, and question k is question k of the input given the id for position k. What that id is and which fields stay is stated by the contract of `GenerateQuiz.WithId`. |
| `GenerateQuiz.WithId` | src/app/api/generate-quiz/route.ts:118-121 | The renumbered question is an object whose `id` is index+1 in decimal. Its other keys are exactly those the original spreads, with the same values. |
| `GenerateQuiz.RenumberedIds` | src/app/api/generate-quiz/route.ts:118-121 | The question at position k gets the id "k+1" in decimal. Distinct positions get distinct ids. |
| `GenerateQuiz.RenumberedKeepsFields` | src/app/api/generate-quiz/route.ts:118-121 | Renumbering adds or overwrites `id` and keeps every other field of an object question. |
| `GenerateQuiz.PostReadsOnlyPrefix` | src/app/api/generate-quiz/route.ts:22-98 | Requests whose texts agree on the first 45000 characters get the same response. The topic prompt sees only the first 15000. |
| `GenerateQuiz.MissingTopicsGiveEmptyQuiz` | src/app/api/generate-quiz/route.ts:29-31 | A topic reply without `topics` gives an empty question list. |
| `GenerateQuiz.GenerateFromSucceeds` | src/app/api/generate-quiz/route.ts:102-125 | With a topic array and a `types` array, the response is the per-topic lists flattened in topic order and renumbered. |
| `GenerateQuiz.Post` | src/app/api/generate-quiz/route.ts:95-130 | A body that is not JSON fails with that error. A `null` body, or one whose `text` is not a string, fails with a type error. Otherwise the handler runs on the text cut to 45000 characters with the body's `types` and `mode`. |
| `GenerateQuiz.GenerateFrom` | src/app/api/generate-quiz/route.ts:98-125 | A failure of the topic request is the response. Topics that are not an array, or a non-array `types` with at least one topic, give the `TypeError` fault. The handler answers with questions exactly when neither happens. The question at position k then has the id k+1. No topics give an empty quiz. |
| `FileParser.SlideEntries` | src/utils/fileParser.ts:51-52 | Exactly the entries named "ppt/slides/slide…xml" are kept. Each slide entry is kept as often as it occurs in the archive, and every other entry not at all. |
| `FileParser.SlideEntriesAppend` | src/utils/fileParser.ts:51-52 | The filter works entry by entry, so it keeps the archive order: filtering two parts in a row is filtering each. |
| `FileParser.SlideEntriesOne` | src/utils/fileParser.ts:52 | A single entry is kept exactly when its name is a slide name. |
| `FileParser.SlideNumber` | src/utils/fileParser.ts:54-55 | A name without digits sorts as slide 0. |
| `FileParser.SortPermutes` | src/utils/fileParser.ts:53-57 | The sort is a permutation of its input. |
| `FileParser.SortSorts` | src/utils/fileParser.ts:53-57 | The sort's output ascends by key. |
| `FileParser.SortIsStable` | src/utils/fileParser.ts:53-57 | Entries with equal keys keep their relative order: the comparator returns 0 for them and `Array.prototype.sort` is stable. |
| `FileParser.SlideOrderSpec` | src/utils/fileParser.ts:51-57 | The ordered slide list ascends by slide number. It holds the slide entries with their multiplicities and nothing else. Entries with equal numbers keep their archive order. |
| `FileParser.SlideOrderDistinct` | src/utils/fileParser.ts:51-57 | When the archive's names are distinct, as the keys of `zip.files` are, every slide appears in the ordered list once. |
| `FileParser.SlideNameNumber` | src/utils/fileParser.ts:52-70 | "ppt/slides/slide" + n + ".xml" is a slide name. Its number is n and its label is n in decimal. |
| `FileParser.SlidesInNumericOrder` | src/utils/fileParser.ts:53-57 | A slide numbered m comes before a slide numbered n whenever m < n, so slide2 precedes slide10. |
| `FileParser.RunMatches` | src/utils/fileParser.ts:63 | Every match of the global `<a:t>([^<]*)</a:t>` scan is a tag pair around text without '<'. |
| `FileParser.RunAt` | src/utils/fileParser.ts:63 | A match found at a position is the opening tag, text without '<' and the closing tag, and that text is what is captured. |
| `FileParser.RunAtWrapped` | src/utils/fileParser.ts:63 | A run written out in full at a position is matched there, with its whole text captured. |
| `FileParser.RunMatchesSkipsMarkup` | src/utils/fileParser.ts:63 | Markup in which `<a:t>` starts nowhere gives no match: the scan finds exactly the matches of what follows. |
| `FileParser.RunMatchesSkipsText` | src/utils/fileParser.ts:63 | Text without '<' before the runs contributes no match. |
| `FileParser.RunMatchesOfRun` | src/utils/fileParser.ts:63 | A run at the front is the first match, and the scan resumes after it. |
| `FileParser.StripRunMatch` | src/utils/fileParser.ts:67 | Removing the `<a:t>`/`</a:t>` tags from a match leaves exactly its inner text, entities undecoded. |
| `FileParser.PiecesOfRuns` | src/utils/fileParser.ts:63-68 | A slide written as text runs reads back as exactly those texts, in order. |
| `FileParser.PiecesOfLayout` | src/utils/fileParser.ts:63-68 | A slide whose runs are interleaved with other markup containing no `<a:t>` reads back as exactly the runs' texts, in order. |
| `FileParser.SlideWithoutRunsIsOmitted` | src/utils/fileParser.ts:65-72 | A slide without text runs contributes no block. The blocks of the slides around it are unchanged. |
| `FileParser.SlideLabel` | src/utils/fileParser.ts:70 | The label is "?" exactly when the name has no digit. Otherwise it is a run of digits whose value is the number the slide is sorted by. |
| `FileParser.SlideBlock` | src/utils/fileParser.ts:63-72 | A slide gives no block exactly when it has no text run. Its block starts with "--- Slide " and its label. |
| `FileParser.CollectAppend` | src/utils/fileParser.ts:59-73 | Collecting the blocks of two runs of slides in a row gives those of the first followed by those of the second. |
| `FileParser.CollectStep` | src/utils/fileParser.ts:59-73 | The loop step: one more element adds its result, if any, at the end. |
| `FileParser.CollectOrigin` | src/utils/fileParser.ts:59-73 | Every collected result is the result of some element of the input. |
| `FileParser.CollectSkips` | src/utils/fileParser.ts:65-72 | An element without a result leaves the others' results as they would be without it. |
| `FileParser.ParsePptx` | src/utils/fileParser.ts:48-75 | The loop's result is the slide blocks of the ordered slides, joined by blank lines. |
| `FileParser.NoSlidesGiveEmptyText` | src/utils/fileParser.ts:51-75 | An archive without slide files gives "". |
| `FileParser.SingleSlideText` | src/utils/fileParser.ts:59-75 | A one-slide deck numbered n gives "--- Slide n ---" and a newline, then its run texts joined by spaces and trimmed. |
| `FileParser.PdfText` | src/utils/fileParser.ts:20-35 | The PDF text is "" exactly when the document has no pages. |
| `FileParser.PageBlock` | src/utils/fileParser.ts:32 | A page's block starts with a newline, "--- Page i ---" and a newline, and ends with a newline. |
| `FileParser.ParsePdf` | src/utils/fileParser.ts:20-35 | The loop over pages 1..numPages builds the concatenation of the page blocks. |
| `FileParser.PdfPagesInOrder` | src/utils/fileParser.ts:23-33 | Page k+1's block follows the text of pages 1..k. The text of the first k+1 pages is a prefix of the whole text. |
| `StudyPage.KindOf` | src/app/page.tsx:54-63 | Both directions for each kind. ".pdf" goes to the PDF reader and ".pptx" to the slide reader, since no name ends in both. Everything else is read as text. |
| `StudyPage.Extract` | src/app/page.tsx:53-63 | A file yields no text exactly when the reader its name selects throws. A readable PDF yields `FileParser.PdfText` of its pages, which is "" exactly when it has no pages. A readable PPTX yields `FileParser.PptxText` of its entries. A plain file yields its own text. |
| `StudyPage.Contribution` | src/app/page.tsx:65-68 | A file contributes exactly when its text exists and is not all white space, and then contributes its header followed by that text. |
| `StudyPage.Contributions` | src/app/page.tsx:49-81 | No more contributions than files. |
| `StudyPage.CombinedNotes` | src/app/page.tsx:87-88 | The combined notes are "" exactly when no file contributes. Otherwise they start with the first contribution. |
| `StudyPage.FirstContributionNotEmpty` | src/app/page.tsx:67 | A contribution is never empty, since it starts with its header. |
| `StudyPage.UploadToasts` | src/app/page.tsx:42-102 | An upload shows the "Processing" toast, one toast per failing file, and then the error toast when no file contributes, else the success toast with the number of contributing files. |
| `StudyPage.ReadFile` | src/app/page.tsx:53-69 | The file's text from the reader its name selects, or nothing exactly when that reader throws. |
| `StudyPage.ReadAll` | src/app/page.tsx:48-81 | The loop collects the headed text of every file with non-blank text, in upload order. It collects a warning for every file whose reader throws. |
| `StudyPage.ReadOutcome` | src/app/page.tsx:53-77 | A file contributes its header and text exactly when the text exists and is not blank. It draws a warning exactly when its reader throws. |
| `StudyPage.ContributionsStep` | src/app/page.tsx:49-81 | One more file appends its own contribution and warning, if any, at the end. |
| `StudyPage.ContributionsAppend` | src/app/page.tsx:49-81 | The contributions of two selections in a row are those of the first followed by those of the second. |
| `StudyPage.SkippedFileLeavesNoTrace` | src/app/page.tsx:65-77 | A blank or failing file is skipped. The other files contribute as if it had not been selected. |
| `StudyPage.NothingExtractedFails` | src/app/page.tsx:83-85 | When no file contributes, nothing is collected, so the upload fails. |
| `StudyPage.SingleTextFileBecomesNotes` | src/app/page.tsx:62-88 | Uploading one text file with non-blank text makes the notes "\n========== name ==========\n" followed by the text. |
| `StudyPage.EmptyPdfIsSkipped` | src/app/page.tsx:54-65 | A PDF without pages gives no text and is skipped. |
| `StudyPage.Page.constructor` | src/app/page.tsx:21-24 | The page starts with empty notes, the types "multiple_choice" and "3d_model_matching", no quiz and not loading. |
| `StudyPage.Page.HandleFileUpload` | src/app/page.tsx:31-112 | An empty selection changes nothing. Otherwise the page shows the processing, skip and final toasts. When some file contributes, the notes become the contributions joined by "\n\n"; otherwise the notes stay as they were. |
| `StudyPage.Page.StartUpload` | src/app/page.tsx:31-36 | An empty selection starts nothing and changes nothing. Otherwise the spinner goes on and nothing else changes. |
| `StudyPage.Page.FinishUpload` | src/app/page.tsx:83-105 | After the files are read, no text gives the error toast and keeps the notes. Otherwise the notes become the texts joined by "\n\n" and the toast counts them. The spinner goes off either way. |
| `StudyPage.Page.Generate` | src/app/page.tsx:114-139 | Blank notes send no request and change nothing. Otherwise the notes and types are posted. The quiz becomes the reply's `questions` array when there is one, and stays as it was on any failure. |
| `StudyPage.Page.StartGenerate` | src/app/page.tsx:114-124 | Blank notes send nothing and change nothing. Otherwise the request body is built from the notes and types of that moment, and the spinner goes on. |
| `StudyPage.Page.FinishGenerate` | src/app/page.tsx:126-138 | When the request settles, a reply carrying a `questions` array replaces the quiz, whatever it is by then. Any failure keeps the quiz. The spinner goes off either way, and the notes and types are untouched. |
| `StudyPage.QuestionsOf` | src/app/page.tsx:126-134 | A reply yields questions exactly when it is ok and its body is an object with a `questions` array. Those are the questions kept. |
| `StudyPage.TypesJson` | src/app/page.tsx:123 | The chosen types are sent as an array of strings, in order. |
| `StudyPage.RequestBody` | src/app/page.tsx:123 | The request body is an object with exactly the keys `text` and `types`: the notes, and the types as a string array. |
| `StudyPage.Delivered` | src/app/api/generate-quiz/route.ts:125-130 | The route's answer is ok exactly when it carries questions. An error answer carries only the error message. |
| `StudyPage.RequestReachesRoute` | src/app/page.tsx:121-124 | The page's request reaches the quiz route with its notes cut to 45000 characters, its types and no mode. |
| `StudyPage.QuizFollowsRoute` | src/app/page.tsx:126-134 | The route's `{ questions }` answer becomes the quiz. Its status-500 `{ error }` answer leaves the quiz alone. |
| `Text.TrimEmptyIff` | src/app/page.tsx:65 | Both directions. `trim()` gives "" exactly when the text is all white space. |
| `Text.Trim` | src/components/FlashcardGame.tsx:97 | The trimmed text neither starts nor ends with white space, and is no longer than the text. |
| `Text.TrimUnique` | src/components/FlashcardGame.tsx:97 | Trimming a text made of white space, a core with non-white ends, and white space gives that core. |
| `Text.TrimIgnoresPadding` | src/components/FlashcardGame.tsx:97 | White space added around a text does not change its trimmed form. |
| `Text.TrimLowerCommute` | src/components/FlashcardGame.tsx:97 | Lower-casing and trimming can be done in either order. |
| `Text.Lower` | src/components/FlashcardGame.tsx:97 | Lower-casing keeps the length, leaves no ASCII capital and changes no other character. |
| `Text.LowerForgetsCase` | src/components/FlashcardGame.tsx:97 | Lower-casing an upper-cased text gives the lower-cased text: case is forgotten. |
| `Text.Join` | src/utils/fileParser.ts:66-75 | Joining nothing gives "", and one part gives that part. Otherwise the result starts with the first part and ends with the last. |
| `Text.JoinAppend` | src/utils/fileParser.ts:66-75 | Joining two non-empty lists puts exactly one separator between their joins, so the separator sits between every two consecutive parts. |
| `Text.Take` | src/app/api/generate-quiz/route.ts:98 | `substring(0, n)` gives the first n characters, or the whole text when it is shorter. |
| `Text.TakeTake` | src/app/api/generate-quiz/route.ts:22-98 | Cutting to m and then to n ≤ m characters is the same as cutting to n. |
| `Text.NatToStringInjective` | src/app/api/generate-quiz/route.ts:120 | Different numbers have different decimal strings. |
| `Text.NatToString` | src/app/api/generate-quiz/route.ts:120 | A decimal numeral is a non-empty run of digits, with a leading 0 only for the number 0. |
| `Text.DigitsValueOfNatToString` | src/utils/fileParser.ts:54 | `parseInt` of a decimal string gives back its number. |
| `Text.FirstDigitRun` | src/utils/fileParser.ts:54-70 | `match(/\d+/)` fails exactly when there is no digit. Otherwise it gives the first maximal run of digits: no digit comes before it, and it ends at the end of the name or before a non-digit. |
| `Text.FirstDigitRunAfter` | src/utils/fileParser.ts:54-70 | In a digit-free prefix, then a numeral, then a non-digit, the first digit run is that numeral. |
| `JsonValues.Member` | src/app/api/generate-quiz/route.ts:31-97 | A property read finds a value exactly when the value is an object with that key. |
| `JsonValues.OrElse` | src/app/api/generate-quiz/route.ts:31-87 | The `or` fallback gives x when x is truthy and the fallback otherwise. |
| `JsonValues.Spread` | src/app/api/generate-quiz/route.ts:119 | Spreading an object copies its fields. |
| `JsonValues.IndexedFields` | src/app/api/generate-quiz/route.ts:119 | Spreading an array gives exactly the keys "0", "1", ... with the elements as values. |

## Left out

- Rendering is not modelled: the Chakra layout, animations, 3D canvases, diagram hotspots and the green/red colouring of the answer box.
- The language-model calls are not modelled. They are a deterministic function from prompt to completion. Prompt wording beyond what a prompt carries from the request is not modelled.
- The `mode` parameter only shapes the prompt, so it is passed through unexamined.
- `JSON.parse`, pdf.js, JSZip, `File.text()` and `fetch` are parameters. Their decoding, and the errors they raise, become `None` inputs.
- `item.str` is taken to be a string for every PDF text item.
- Each zip entry's content is taken as the string JSZip gives.
- `Promise.all` over the topics is an ordered sequential map. Only the order of the results is observable.
- Strings are sequences of Dafny `char`s, which are Unicode scalar values. JavaScript counts UTF-16 code units, so a character outside the Basic Multilingual Plane has length 1 here and 2 in the source. This changes the one-character test of a multiple-choice answer (src/components/FlashcardGame.tsx:89) and where the 45000- and 15000-character cuts fall (src/app/api/generate-quiz/route.ts:22 and :98) for such text.
- `toLowerCase` and `toUpperCase` map only the ASCII letters. `trim` uses the full ECMAScript white-space and line-terminator set.
- Numbers in JSON are reals. Object prototypes and getters play no part.
- `FileParser.SlideNumber`: `parseInt` is exact here. The source loses precision past 2^53.
- Upload progress (src/app/page.tsx:80) is floating point and not modelled. The loading spinners and the disabled state of the "Check Answer" button (src/components/FlashcardGame.tsx:266) are not modelled either.
- The file input reset (src/app/page.tsx:109-111) is not modelled. Console logging is not modelled.
- `StudyPage.Page.Generate` models the page's test `!notes.trim()` as "all white space", which is the same test by `Text.TrimEmptyIff`. The same holds for the `content.trim()` test in `StudyPage.Contribution`.
- `FlashcardGame.QuizSession.Check`: a fill-in selection that is an array would throw a TypeError in the source. The model grades it as wrong. The page never produces one for that type.
- `FlashcardGame.QuizSession.Check`: the grading endpoint's reply is taken as a well-formed verdict and feedback. `undefined` fields are not modelled.
- `FlashcardGame.QuizSession.ReceiveQuestions` and the `QuizSession` constructor require a non-empty list. The page renders the game only while its quiz is non-empty (src/app/page.tsx:260-266), and only on the quiz tab, keyed by the tab (src/app/page.tsx:177-183). An empty quiz or a tab switch therefore discards the session, and the next quiz starts from the constructor. The page and the game are modelled as separate objects, so that mounting and unmounting is not modelled.
- `FlashcardGame.QuizSession.Check`, `StudyPage.Page.HandleFileUpload` and `StudyPage.Page.Generate` are each one atomic step, which does not capture events arriving while a request is out. `BeginGrading`/`FinishGrading`, `StartUpload`/`FinishUpload` and `StartGenerate`/`FinishGenerate` model the two halves around the await, with the pending `grading` and `loading` flags. Between them a caller may run any other step, for example a generate that replaces the quiz while an answer is being graded. The model has no scheduler that orders those steps, and the per-file awaits inside the upload loop are one step (`StudyPage.ReadAll`).
- These files are not part of this model:
  - src/components/DocumentScanner.tsx (camera, OCR);
  - src/app/api/grade-answer/route.ts and src/app/actions/ai.ts (thin model-call wrappers);
  - the authentication actions;
  - configuration and theme files.
- The quiz route's response layout is stated as two lemmas, not one. `GenerateQuiz.GenerateFromSucceeds` gives the flattened, renumbered list. `GenerateQuiz.FlattenPosition` and `GenerateQuiz.RenumberedIds` locate each question and its id in it.
