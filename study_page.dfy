/** The study-notes page (src/app/page.tsx): the multi-file upload that
    turns PDFs, slide decks and text files into one block of notes, and the
    "Generate Assessment" action that posts the notes to the quiz route and
    keeps the questions it answers with.

    The page's React state becomes the fields of `StudyPage`; each toast the
    page shows is returned to the caller, in order. What the browser hands
    over (the selected files, what the PDF and zip libraries read from each
    of them, the HTTP answer to the request) is given as parameters. */
module StudyPage {
  import opened Wrappers
  import opened Text
  import opened JsonValues
  import FileParser
  import GenerateQuiz

  // ---------------------------------------------------------------------------
  // Files

  /** Which reader a file goes to. */
  datatype FileKind = Pdf | Pptx | PlainText

  /** What the browser libraries make of one selected file: the item
      strings of each page as pdf.js reads them, the entries of the zip
      archive as JSZip reads them, and the text `File.text()` gives. `None`
      stands for a reader that throws on this file. */
  datatype FileData = FileData(
    pdfPages: Option<seq<seq<string>>>,
    zipEntries: Option<seq<FileParser.Entry>>,
    text: Option<string>)

  datatype UploadedFile = UploadedFile(name: string, data: FileData)

  /** The dispatch on the file name looks for ".pdf" first, then ".pptx";
      everything else is read as plain text. No name ends in both, so the
      order of the tests never hides a slide deck. */
  function KindOf(name: string): (k: FileKind)
    ensures k == Pdf <==> EndsWith(name, ".pdf")
    ensures k == Pptx <==> EndsWith(name, ".pptx")
    ensures k == PlainText <==> !EndsWith(name, ".pdf") && !EndsWith(name, ".pptx")
  {
    if EndsWith(name, ".pdf") then
      assert name[|name| - 1] == 'f';
      Pdf
    else if EndsWith(name, ".pptx") then Pptx
    else PlainText
  }

  /** The text extracted from a file, or `None` when its reader throws. */
  function Extract(f: UploadedFile): (r: Option<string>)
    ensures r.None? <==> match KindOf(f.name)
                         case Pdf => f.data.pdfPages.None?
                         case Pptx => f.data.zipEntries.None?
                         case PlainText => f.data.text.None?
    ensures KindOf(f.name) == Pdf && f.data.pdfPages.Some? ==>
              r == Some(FileParser.PdfText(f.data.pdfPages.value)) && (r == Some("") <==> f.data.pdfPages.value == [])
    ensures KindOf(f.name) == Pptx && f.data.zipEntries.Some? ==> r == Some(FileParser.PptxText(f.data.zipEntries.value))
    ensures KindOf(f.name) == PlainText ==> r == f.data.text
  {
    match KindOf(f.name)
    case Pdf => if f.data.pdfPages.Some? then Some(FileParser.PdfText(f.data.pdfPages.value)) else None
    case Pptx => if f.data.zipEntries.Some? then Some(FileParser.PptxText(f.data.zipEntries.value)) else None
    case PlainText => f.data.text
  }

  /** The line that introduces a file's text in the notes. */
  function Header(name: string): (r: string)
    ensures r != "" && StartsWith(r, "\n========== " + name)
  {
    "\n========== " + name + " ==========\n"
  }

  /** What a file adds to the notes: its header and text, or nothing when
      the text could not be extracted or is blank. The page tests
      `content.trim()`, which is empty exactly when the content is white
      space only (`Text.TrimEmptyIff`); the model tests the latter, here and
      in `Generate`. */
  function Contribution(f: UploadedFile): (r: Option<string>)
    ensures r.Some? <==> Extract(f).Some? && !AllWhiteSpace(Extract(f).value)
    ensures r.Some? ==> r.value == Header(f.name) + Extract(f).value
  {
    match Extract(f)
    case Some(content) => if !AllWhiteSpace(content) then Some(Header(f.name) + content) else None
    case None => None
  }

  /** The contributions of the selected files, in upload order. */
  function Contributions(files: seq<UploadedFile>): (r: seq<string>)
    ensures |r| <= |files|
  {
    FileParser.Collect(files, Contribution)
  }

  /** The notes an upload produces when at least one file contributes. */
  function CombinedNotes(files: seq<UploadedFile>): (r: string)
    ensures r == "" <==> Contributions(files) == []
    ensures Contributions(files) != [] ==> StartsWith(r, Contributions(files)[0])
  {
    FirstContributionNotEmpty(files);
    Join(Contributions(files), "\n\n")
  }

  /** A contribution starts with its file's header, so it is never empty. */
  lemma FirstContributionNotEmpty(files: seq<UploadedFile>)
    ensures Contributions(files) != [] ==> Contributions(files)[0] != ""
  {
    var parts := Contributions(files);
    if parts != [] {
      var i := FileParser.CollectOrigin(files, Contribution, 0);
      assert |parts[0]| >= |Header(files[i].name)| > 0;
    }
  }

  // ---------------------------------------------------------------------------
  // Toasts

  datatype Status = Info | Warning | Success | Error

  datatype Toast = Toast(status: Status, title: string, description: string)

  /** The "s" of "files" when there is more than one. */
  function Plural(n: nat): string {
    if n > 1 then "s" else ""
  }

  function ProcessingToast(n: nat): Toast {
    Toast(Info, "Processing " + NatToString(n) + " file" + Plural(n) + "...", "")
  }

  /** The warning for a file whose reader threw. */
  function SkipToast(f: UploadedFile): Option<Toast> {
    if Extract(f).None? then Some(Toast(Warning, "Skipped: " + f.name, "Could not extract text.")) else None
  }

  function UploadErrorToast(): Toast {
    Toast(Status.Error, "Error", "Failed to process files.")
  }

  function ImportedToast(n: nat): Toast {
    Toast(Status.Success, "Success!", NatToString(n) + " file" + Plural(n) + " imported.")
  }

  /** Every toast of an upload of a non-empty selection, in the order shown. */
  function UploadToasts(files: seq<UploadedFile>): (r: seq<Toast>)
    ensures |r| == 2 + |FileParser.Collect(files, SkipToast)| && r[0] == ProcessingToast(|files|)
    ensures r[|r| - 1] == if Contributions(files) == [] then UploadErrorToast() else ImportedToast(|Contributions(files)|)
  {
    var kept := |Contributions(files)|;
    [ProcessingToast(|files|)] + FileParser.Collect(files, SkipToast)
      + [if kept == 0 then UploadErrorToast() else ImportedToast(kept)]
  }

  // ---------------------------------------------------------------------------
  // The request to the quiz route and its answer

  /** `JSON.stringify({ text: notes, types })`, as the route parses it back. */
  function RequestBody(notes: string, types: seq<string>): (r: Json)
    ensures r.JObj? && r.fields.Keys == {"text", "types"}
    ensures Member(r, "text") == Some(JStr(notes)) && Member(r, "types") == Some(TypesJson(types))
  {
    JObj(map["text" := JStr(notes), "types" := TypesJson(types)])
  }

  function TypesJson(types: seq<string>): (r: Json)
    ensures r.JArr? && |r.items| == |types|
    ensures forall i :: 0 <= i < |types| ==> r.items[i] == JStr(types[i])
  {
    JArr(seq(|types|, i requires 0 <= i < |types| => JStr(types[i])))
  }

  /** What `fetch` delivers: a network failure, or a status and a body that
      `res.json()` either parses or throws on. */
  datatype HttpReply = NetworkError | HttpResponse(ok: bool, body: Option<Json>)

  /** The questions the page keeps from a reply: those of an ok response
      whose body has a `questions` array. */
  function QuestionsOf(reply: HttpReply): (r: Option<seq<Json>>)
    ensures r.Some? <==> reply.HttpResponse? && reply.ok && reply.body.Some?
                         && reply.body.value.JObj? && "questions" in reply.body.value.fields
                         && reply.body.value.fields["questions"].JArr?
    ensures r.Some? ==> r.value == reply.body.value.fields["questions"].items
  {
    if reply.NetworkError? || !reply.ok || reply.body.None? then None
    else if reply.body.value == JNull then None
    else match Member(reply.body.value, "questions")
      case Some(JArr(xs)) => Some(xs)
      case _ => None
  }

  /** How the quiz route's answer reaches the page: `{ questions }` with
      status 200, or `{ error: message }` with status 500. */
  function Delivered(resp: GenerateQuiz.Response, message: string): (r: HttpReply)
    ensures r.HttpResponse? && r.body.Some? && r.body.value.JObj?
    ensures r.ok <==> resp.QuizResponse?
    ensures !r.ok ==> r.body.value.fields == map["error" := JStr(message)]
  {
    match resp
    case QuizResponse(qs) => HttpResponse(true, Some(JObj(map["questions" := JArr(qs)])))
    case ErrorResponse(_) => HttpResponse(false, Some(JObj(map["error" := JStr(message)])))
  }

  const MISSING_NOTES := Toast(Warning, "Please enter study notes first.", "")
  const GENERATED := Toast(Status.Success, "Assessment Generated!", "")
  const GENERATE_FAILED := Toast(Status.Error, "Error generating quiz", "Please try again.")

  // ---------------------------------------------------------------------------
  // The page

  class Page {
    var notes: string
    var types: seq<string>
    var quiz: seq<Json>
    var loading: bool

    constructor ()
      ensures notes == "" && types == ["multiple_choice", "3d_model_matching"] && quiz == [] && !loading
    {
      notes := "";
      types := ["multiple_choice", "3d_model_matching"];
      quiz := [];
      loading := false;
    }

    /** `handleFileUpload`: reads every selected file, keeps the ones that
        give text and, when there is at least one, replaces the notes with
        their headed texts. A file that fails is reported and skipped. */
    method HandleFileUpload(files: seq<UploadedFile>) returns (toasts: seq<Toast>)
      modifies this
      ensures files == [] ==> toasts == [] && unchanged(this)
      ensures files != [] ==> toasts == UploadToasts(files) && !loading
      ensures files != [] && Contributions(files) != [] ==> notes == CombinedNotes(files)
      ensures Contributions(files) == [] ==> notes == old(notes)
      ensures types == old(types) && quiz == old(quiz)
    {
      var started := StartUpload(files);
      if !started {
        return [];
      }
      var allContent, warnings := ReadAll(files);
      var last := FinishUpload(allContent);
      toasts := [ProcessingToast(|files|)] + warnings + [last];
    }

    /** The synchronous start of `handleFileUpload`: nothing happens without
        files; otherwise the spinner is on while the files are read. */
    method StartUpload(files: seq<UploadedFile>) returns (started: bool)
      modifies this
      ensures started <==> files != []
      ensures started ==> loading
      ensures !started ==> unchanged(this)
      ensures notes == old(notes) && types == old(types) && quiz == old(quiz)
    {
      if |files| == 0 {
        return false;
      }
      loading := true;
      started := true;
    }

    /** The end of `handleFileUpload` once every file has been read: the
        notes become the joined texts when there is one, and the spinner
        goes off. Returns the closing toast. */
    method FinishUpload(allContent: seq<string>) returns (last: Toast)
      modifies this
      ensures !loading
      ensures allContent == [] ==> last == UploadErrorToast() && notes == old(notes)
      ensures allContent != [] ==> last == ImportedToast(|allContent|) && notes == Join(allContent, "\n\n")
      ensures types == old(types) && quiz == old(quiz)
    {
      if |allContent| == 0 {
        last := UploadErrorToast();
      } else {
        notes := Join(allContent, "\n\n");
        last := ImportedToast(|allContent|);
      }
      loading := false;
    }

    /** `generate`: without notes it only asks for them; otherwise it posts
        the notes and the chosen types and keeps the questions of a
        well-formed answer, leaving the quiz as it was on any failure. This is
        `StartGenerate` and `FinishGenerate` with nothing in between. */
    method Generate(server: Json -> HttpReply) returns (sent: Option<Json>, toast: Toast)
      modifies this
      ensures AllWhiteSpace(old(notes)) ==> sent == None && toast == MISSING_NOTES && unchanged(this)
      ensures !AllWhiteSpace(old(notes)) ==> sent == Some(RequestBody(old(notes), old(types))) && !loading
      ensures !AllWhiteSpace(old(notes)) && QuestionsOf(server(sent.value)).Some? ==>
                quiz == QuestionsOf(server(sent.value)).value && toast == GENERATED
      ensures !AllWhiteSpace(old(notes)) && QuestionsOf(server(sent.value)).None? ==>
                quiz == old(quiz) && toast == GENERATE_FAILED
      ensures notes == old(notes) && types == old(types)
    {
      sent := StartGenerate();
      if sent.None? {
        return None, MISSING_NOTES;
      }
      toast := FinishGenerate(server(sent.value));
    }

    /** The synchronous start of `generate`: blank notes send nothing;
        otherwise the spinner goes on and the request body is fixed from the
        notes and types of this moment. */
    method StartGenerate() returns (sent: Option<Json>)
      modifies this
      ensures AllWhiteSpace(old(notes)) ==> sent == None && unchanged(this)
      ensures !AllWhiteSpace(old(notes)) ==> sent == Some(RequestBody(old(notes), old(types))) && loading
      ensures notes == old(notes) && types == old(types) && quiz == old(quiz)
    {
      if AllWhiteSpace(notes) {
        return None;
      }
      loading := true;
      sent := Some(RequestBody(notes, types));
    }

    /** The continuation of `generate` once the request settles: a
        well-formed answer replaces the quiz, whatever happened meanwhile;
        any failure leaves it. The spinner goes off either way. */
    method FinishGenerate(reply: HttpReply) returns (toast: Toast)
      modifies this
      ensures !loading
      ensures QuestionsOf(reply).Some? ==> quiz == QuestionsOf(reply).value && toast == GENERATED
      ensures QuestionsOf(reply).None? ==> quiz == old(quiz) && toast == GENERATE_FAILED
      ensures notes == old(notes) && types == old(types)
    {
      var questions := QuestionsOf(reply);
      if questions.Some? {
        quiz := questions.value;
        toast := GENERATED;
      } else {
        toast := GENERATE_FAILED;
      }
      loading := false;
    }
  }

  /** The loop of `handleFileUpload`: each file in turn through its reader,
      pushing its headed text when it has some and warning when the reader
      throws; one file's failure does not stop the others. */
  method ReadAll(files: seq<UploadedFile>) returns (allContent: seq<string>, warnings: seq<Toast>)
    ensures allContent == Contributions(files)
    ensures warnings == FileParser.Collect(files, SkipToast)
  {
    allContent, warnings := [], [];
    for i := 0 to |files|
      invariant allContent == Contributions(files[..i])
      invariant warnings == FileParser.Collect(files[..i], SkipToast)
    {
      var file := files[i];
      var content := ReadFile(file);
      ContributionsStep(files, i);
      ReadOutcome(file, content);
      if content.Some? {
        if !AllWhiteSpace(content.value) {
          allContent := allContent + [Header(file.name) + content.value];
        }
      } else {
        warnings := warnings + [Toast(Warning, "Skipped: " + file.name, "Could not extract text.")];
      }
    }
    assert files[..|files|] == files;
  }

  /** One file through the reader its name selects. */
  method ReadFile(f: UploadedFile) returns (content: Option<string>)
    ensures content == Extract(f)
    ensures content.None? <==> SkipToast(f).Some?
  {
    match KindOf(f.name)
    case Pdf =>
      if f.data.pdfPages.Some? {
        var text := FileParser.ParsePdf(f.data.pdfPages.value);
        content := Some(text);
      } else {
        content := None;
      }
    case Pptx =>
      if f.data.zipEntries.Some? {
        var text := FileParser.ParsePptx(f.data.zipEntries.value);
        content := Some(text);
      } else {
        content := None;
      }
    case PlainText =>
      content := f.data.text;
  }

  // ---------------------------------------------------------------------------
  // Properties of the upload

  /** What one file contributes and reports, in terms of what its reader gave. */
  lemma ReadOutcome(f: UploadedFile, content: Option<string>)
    requires content == Extract(f)
    ensures Contribution(f) == if content.Some? && !AllWhiteSpace(content.value)
                               then Some(Header(f.name) + content.value) else None
    ensures SkipToast(f) == if content.None?
                            then Some(Toast(Warning, "Skipped: " + f.name, "Could not extract text.")) else None
  {
  }

  /** One more file adds its own contribution and warning, if any, at the end. */
  lemma ContributionsStep(files: seq<UploadedFile>, i: nat)
    requires i < |files|
    ensures Contributions(files[..i + 1]) == Contributions(files[..i])
              + (if Contribution(files[i]).Some? then [Contribution(files[i]).value] else [])
    ensures FileParser.Collect(files[..i + 1], SkipToast) == FileParser.Collect(files[..i], SkipToast)
              + (if SkipToast(files[i]).Some? then [SkipToast(files[i]).value] else [])
  {
    assert files[..i + 1] == files[..i] + [files[i]];
    FileParser.CollectAppend(files[..i], [files[i]], Contribution);
    FileParser.CollectOne(files[i], Contribution);
    FileParser.CollectAppend(files[..i], [files[i]], SkipToast);
    FileParser.CollectOne(files[i], SkipToast);
  }

  /** Uploading two selections at once gives the contributions of the first
      followed by those of the second. */
  lemma ContributionsAppend(a: seq<UploadedFile>, b: seq<UploadedFile>)
    ensures Contributions(a + b) == Contributions(a) + Contributions(b)
  {
    FileParser.CollectAppend(a, b, Contribution);
  }

  /** A file that is blank or whose reader throws is skipped: the files
      around it contribute exactly as if it had not been selected. */
  lemma SkippedFileLeavesNoTrace(files: seq<UploadedFile>, k: nat)
    requires k < |files|
    requires Extract(files[k]).None? || AllWhiteSpace(Extract(files[k]).value)
    ensures Contributions(files) == Contributions(files[..k]) + Contributions(files[k + 1..])
  {
    FileParser.CollectSkips(files, k, Contribution);
  }

  /** A selection in which no file has text contributes nothing, so the
      upload fails and leaves the notes alone. */
  lemma {:induction false} NothingExtractedFails(files: seq<UploadedFile>)
    requires forall i :: 0 <= i < |files| ==> Contribution(files[i]).None?
    ensures Contributions(files) == []
    decreases |files|
  {
    if files != [] {
      var n := |files| - 1;
      assert forall i :: 0 <= i < n ==> files[..n][i] == files[i];
      NothingExtractedFails(files[..n]);
      ContributionsStep(files, n);
      assert files[..n + 1] == files;
    }
  }

  /** Uploading a single text file with some non-blank text makes the notes
      its header followed by its text. */
  lemma SingleTextFileBecomesNotes(name: string, text: string)
    requires !EndsWith(name, ".pdf") && !EndsWith(name, ".pptx")
    requires !AllWhiteSpace(text)
    ensures CombinedNotes([UploadedFile(name, FileData(None, None, Some(text)))])
         == "\n========== " + name + " ==========\n" + text
  {
    var f := UploadedFile(name, FileData(None, None, Some(text)));
    FileParser.CollectOne(f, Contribution);
  }

  /** A PDF upload reads the document page by page: a PDF without pages
      gives no text and is skipped like a blank file. */
  lemma EmptyPdfIsSkipped(name: string, data: FileData)
    requires EndsWith(name, ".pdf") && data.pdfPages == Some([])
    ensures Contribution(UploadedFile(name, data)).None?
  {
  }

  // ---------------------------------------------------------------------------
  // Properties of the request

  /** The page's request reaches the quiz route as its notes (cut to the
      route's limit) and its types, without a mode. */
  lemma RequestReachesRoute(notes: string, types: seq<string>, llm: GenerateQuiz.Llm, parse: GenerateQuiz.JsonParser)
    ensures GenerateQuiz.Post(Some(RequestBody(notes, types)), llm, parse)
         == GenerateQuiz.GenerateFrom(Take(notes, GenerateQuiz.REQUEST_TEXT_LIMIT), Some(TypesJson(types)), None, llm, parse)
  {
    var body := RequestBody(notes, types);
    assert Member(body, "text") == Some(JStr(notes));
    assert Member(body, "types") == Some(TypesJson(types));
    assert Member(body, "mode") == None;
  }

  /** The quiz follows the route: its questions replace the quiz when it
      answers with questions, and an error answer changes nothing. */
  lemma QuizFollowsRoute(resp: GenerateQuiz.Response, message: string)
    ensures QuestionsOf(Delivered(resp, message))
         == if resp.QuizResponse? then Some(resp.questions) else None
  {
  }
}
