/** The quiz-generation route (src/app/api/generate-quiz/route.ts): the
    request text is cut, a topic list is asked for, questions are asked for
    per topic (a topic whose call fails contributes nothing), and the
    per-topic lists are flattened in topic order and renumbered "1".."n".

    The language-model service is a function from prompt to completion, and
    `JSON.parse` a function from text to a value or a syntax error; both are
    parameters. `Promise.all` over the topics is an ordered map. */
module GenerateQuiz {
  import opened Wrappers
  import opened Text
  import opened JsonValues

  const REQUEST_TEXT_LIMIT: nat := 45000
  const TOPIC_TEXT_LIMIT: nat := 15000
  /** The regular expression /``````/g of the reply clean-up. */
  const FENCE := "``````"

  /** What a call of the completion API gives: a thrown error, or the first
      choice's message content (`None` for `null`). */
  datatype Completion = CallFailed | Replied(content: Option<string>)

  /** What each prompt carries from the request. */
  datatype Prompt =
    | TopicPrompt(excerpt: string)
    | QuestionPrompt(text: string, topic: Json, types: seq<Json>, mode: Option<Json>)

  type Llm = Prompt -> Completion

  /** `JSON.parse`: the value, or `None` where it throws a SyntaxError. */
  type JsonParser = string -> Option<Json>

  /** Why the handler's `try` block fails. */
  datatype Fault = BodyNotJson | TypeError | SyntaxError | CompletionError

  /** The handler's answer: `{ questions }`, or `{ error }` with status 500. */
  datatype Response = QuizResponse(questions: seq<Json>) | ErrorResponse(fault: Fault)

  // ---------------------------------------------------------------------------
  // Reply clean-up

  /** `message.content || "{}"`. */
  function ReplyText(content: Option<string>): (r: string)
    ensures r != ""
    ensures content.Some? && content.value != "" ==> r == content.value
    ensures !(content.Some? && content.value != "") ==> r == "{}"
  {
    if content.Some? && content.value != "" then content.value else "{}"
  }

  /** `s.replace(/``````/g, "")`: one left-to-right pass that deletes each
      run of six backticks it meets. */
  function RemoveFences(s: string): (r: string)
    ensures |r| <= |s|
  {
    if |s| == 0 then ""
    else if StartsWith(s, FENCE) then RemoveFences(s[|FENCE|..])
    else [s[0]] + RemoveFences(s[1..])
  }

  predicate NoBacktick(s: string) {
    forall i :: 0 <= i < |s| ==> s[i] != '`'
  }

  /** Text without backticks passes through untouched. */
  lemma {:induction false} RemoveFencesKeepsPlainText(t: string, u: string)
    requires NoBacktick(t)
    ensures RemoveFences(t + u) == t + RemoveFences(u)
  {
    if t == [] {
      assert t + u == u;
    } else {
      var c, t' := t[0], t[1..];
      assert t == [c] + t';
      Assoc([c], t', u);
      NoFenceAtOther(c, t' + u);
      KeepFirst(c, t' + u);
      RemoveFencesKeepsPlainText(t', u);
      Assoc([c], t', RemoveFences(u));
    }
  }

  /** A reply wrapped in fences of six backticks comes out as the bare reply. */
  lemma UnwrapFencedReply(t: string)
    requires NoBacktick(t)
    ensures RemoveFences(FENCE + t + FENCE) == t
  {
    var s := FENCE + t + FENCE;
    assert StartsWith(s, FENCE);
    assert s[|FENCE|..] == t + FENCE;
    RemoveFencesKeepsPlainText(t, FENCE);
    assert StartsWith(FENCE, FENCE) && FENCE[|FENCE|..] == [];
  }

  /** `n` backticks. */
  function Ticks(n: nat): (r: string)
    ensures |r| == n && forall i :: 0 <= i < n ==> r[i] == '`'
  {
    seq(n, _ => '`')
  }

  /** Six consecutive backticks start at position `i` of `s`. */
  predicate FenceAt(s: string, i: nat) {
    i + |FENCE| <= |s| && s[i..i + |FENCE|] == FENCE
  }

  /** No six consecutive backticks anywhere in `s`. */
  predicate FenceFree(s: string) {
    forall i: nat | i < |s| :: !FenceAt(s, i)
  }

  /** The number of backticks `s` starts with. */
  function LeadingTicks(s: string): (n: nat)
    ensures n <= |s| && s[..n] == Ticks(n)
    ensures n == |s| || s[n] != '`'
  {
    if |s| > 0 && s[0] == '`' then 1 + LeadingTicks(s[1..]) else 0
  }

  /** A run of backticks is one backtick followed by the rest of the run. */
  lemma TicksCons(n: nat)
    requires n > 0
    ensures Ticks(n) == ['`'] + Ticks(n - 1)
  {
  }

  /** A run of at least six backticks is a fence followed by the rest of the run. */
  lemma TicksFence(n: nat)
    requires n >= 6
    ensures Ticks(n) == FENCE + Ticks(n - 6)
  {
  }

  /** A fence at the front is deleted. */
  lemma DropFence(t: string)
    ensures RemoveFences(FENCE + t) == RemoveFences(t)
  {
    assert (FENCE + t)[..|FENCE|] == FENCE;
    assert (FENCE + t)[|FENCE|..] == t;
  }

  /** A character that does not start a fence is kept. */
  lemma KeepFirst(c: char, t: string)
    requires !StartsWith([c] + t, FENCE)
    ensures RemoveFences([c] + t) == [c] + RemoveFences(t)
  {
    assert ([c] + t)[1..] == t;
  }

  /** A run of fewer than six backticks followed by something else is not a fence. */
  lemma ShortRunIsNoFence(n: nat, rest: string)
    requires 0 < n < 6 && (rest == [] || rest[0] != '`')
    ensures !StartsWith(Ticks(n) + rest, FENCE)
  {
    var s := Ticks(n) + rest;
    if |s| >= 6 {
      assert s[n] == rest[0];
      assert s[..6][n] != FENCE[n];
    }
  }

  /** A run of `n` backticks comes out as `n mod 6` backticks. */
  lemma {:induction false} RemoveFencesOnRun(n: nat, rest: string)
    requires rest == [] || rest[0] != '`'
    ensures RemoveFences(Ticks(n) + rest) == Ticks(n % 6) + RemoveFences(rest)
  {
    if n >= 6 {
      RemoveFencesOnRun(n - 6, rest);
      LongRunStep(n, rest);
    } else if n > 0 {
      RemoveFencesOnRun(n - 1, rest);
      ShortRunStep(n, rest);
    } else {
      assert Ticks(0) == [];
      assert Ticks(0) + rest == rest;
    }
  }

  /** Helper: the two instances of `% 6` the run lemmas need. */
  lemma ModSix(n: nat)
    ensures n < 6 ==> n % 6 == n
    ensures n >= 6 ==> (n - 6) % 6 == n % 6
  {
  }

  /** The clean-up drops a fence at the front of a long run. */
  lemma LongRunStep(n: nat, rest: string)
    requires n >= 6
    requires RemoveFences(Ticks(n - 6) + rest) == Ticks((n - 6) % 6) + RemoveFences(rest)
    ensures RemoveFences(Ticks(n) + rest) == Ticks(n % 6) + RemoveFences(rest)
  {
    TicksFence(n);
    Assoc(FENCE, Ticks(n - 6), rest);
    DropFence(Ticks(n - 6) + rest);
    ModSix(n);
  }

  /** The clean-up keeps the first backtick of a short run. */
  lemma ShortRunStep(n: nat, rest: string)
    requires 0 < n < 6 && (rest == [] || rest[0] != '`')
    requires RemoveFences(Ticks(n - 1) + rest) == Ticks((n - 1) % 6) + RemoveFences(rest)
    ensures RemoveFences(Ticks(n) + rest) == Ticks(n % 6) + RemoveFences(rest)
  {
    ModSix(n - 1);
    ModSix(n);
    ShortRunIsNoFence(n, rest);
    TicksCons(n);
    Assoc(['`'], Ticks(n - 1), rest);
    KeepFirst('`', Ticks(n - 1) + rest);
    Assoc(['`'], Ticks(n - 1), RemoveFences(rest));
  }

  /** The clean-up leaves no run of six backticks behind: each run of
      backticks is cut to its length modulo six, and runs are never joined
      because the characters between them stay. */
  lemma {:induction false} RemoveFencesLeavesNoFence(s: string)
    ensures FenceFree(RemoveFences(s))
    decreases |s|
  {
    var n := LeadingTicks(s);
    var rest := s[n..];
    SplitRun(s);
    RemoveFencesOnRun(n, rest);
    var m := n % 6;
    if rest != [] {
      var c := rest[0];
      var tail := rest[1..];
      assert rest == [c] + tail;
      NoFenceAtOther(c, tail);
      KeepFirst(c, tail);
      RemoveFencesLeavesNoFence(tail);
      NoFenceAcross(m, c, RemoveFences(tail));
      Assoc(Ticks(m), [c], RemoveFences(tail));
    }
  }

  /** Every string is its leading run of backticks followed by the rest. */
  lemma SplitRun(s: string)
    ensures s == Ticks(LeadingTicks(s)) + s[LeadingTicks(s)..]
  {
    var n := LeadingTicks(s);
    assert s == s[..n] + s[n..];
  }

  /** A string starting with anything but a backtick does not start with a fence. */
  lemma NoFenceAtOther(c: char, t: string)
    requires c != '`'
    ensures !StartsWith([c] + t, FENCE)
  {
    if |[c] + t| >= |FENCE| {
      assert ([c] + t)[..|FENCE|][0] == c;
    }
  }

  /** A short run of backticks, one other character and a fence-free tail
      make no fence. */
  lemma NoFenceAcross(m: nat, c: char, tail: string)
    requires m < |FENCE| && c != '`' && FenceFree(tail)
    ensures FenceFree(Ticks(m) + [c] + tail)
  {
    var r := Ticks(m) + [c] + tail;
    forall i: nat | i < |r| ensures !FenceAt(r, i) {
      if i + |FENCE| <= |r| {
        if i <= m {
          assert r[i..i + |FENCE|][m - i] == r[m] == c;
        } else {
          assert r[i..i + |FENCE|] == tail[i - m - 1..i - m - 1 + |FENCE|];
          assert !FenceAt(tail, i - m - 1);
        }
      }
    }
  }

  /** What is handed to `JSON.parse` for a question reply: no fence is left
      in it and it neither starts nor ends with white space. */
  function CleanReply(content: Option<string>): (r: string)
    ensures FenceFree(r)
    ensures r == [] || (!IsWhiteSpace(r[0]) && !IsWhiteSpace(r[|r| - 1]))
    ensures |r| <= |ReplyText(content)|
  {
    var cut := RemoveFences(ReplyText(content));
    RemoveFencesLeavesNoFence(ReplyText(content));
    TrimKeepsFenceFree(cut);
    Trim(cut)
  }

  /** Trimming cuts a stretch out of a string, so it adds no fence. */
  lemma TrimKeepsFenceFree(s: string)
    requires FenceFree(s)
    ensures FenceFree(Trim(s))
  {
    var p, m, q := TrimSplit(s);
    FenceFreeInfix(p, m, q);
  }

  /** A stretch of a fence-free string is fence-free. */
  lemma FenceFreeInfix(p: string, m: string, q: string)
    requires FenceFree(p + m + q)
    ensures FenceFree(m)
  {
    var s := p + m + q;
    forall i: nat | i < |m| ensures !FenceAt(m, i) {
      if i + |FENCE| <= |m| {
        assert s[|p| + i..|p| + i + |FENCE|] == m[i..i + |FENCE|];
        assert !FenceAt(s, |p| + i);
      }
    }
  }

  // ---------------------------------------------------------------------------
  // extractTopics and generateQuestionsForTopic

  /** The part of the (already cut) request text the topic prompt quotes. */
  function TopicExcerpt(text: string): (r: string)
    ensures |r| <= TOPIC_TEXT_LIMIT && |r| <= |text| && r == text[..|r|]
  {
    Take(text, TOPIC_TEXT_LIMIT)
  }

  /** `extractTopics`: `parsed.topics || []`. Nothing is caught here, so a
      failed call, a reply that is not JSON and a reply that is `null` all
      fail the request. */
  function ExtractTopics(text: string, llm: Llm, parse: JsonParser): (r: Result<Json, Fault>)
    ensures llm(TopicPrompt(TopicExcerpt(text))).CallFailed? ==> r == Failure(CompletionError)
    ensures llm(TopicPrompt(TopicExcerpt(text))).Replied? ==>
              var parsed := parse(ReplyText(llm(TopicPrompt(TopicExcerpt(text))).content));
              && (parsed.None? ==> r == Failure(SyntaxError))
              && (parsed == Some(JNull) ==> r == Failure(TypeError))
              && (parsed.Some? && parsed.value != JNull ==>
                    var topics := Member(parsed.value, "topics");
                    if topics.Some? && Truthy(topics.value) then r == Success(topics.value)
                    else r == Success(JArr([])))
    ensures r.Success? ==> r.value == JArr([]) || Truthy(r.value)
  {
    match llm(TopicPrompt(TopicExcerpt(text)))
    case CallFailed => Failure(CompletionError)
    case Replied(content) =>
      match parse(ReplyText(content))
      case None => Failure(SyntaxError)
      case Some(parsed) =>
        if parsed == JNull then Failure(TypeError)
        else Success(OrElse(Member(parsed, "topics"), JArr([])))
  }

  /** The `try` block of `generateQuestionsForTopic`: `data.questions || []`,
      with every failure caught and turned into `[]`. */
  function TopicQuestions(reply: Completion, parse: JsonParser): (r: Json)
    ensures reply.CallFailed? ==> r == JArr([])
    ensures reply.Replied? && parse(CleanReply(reply.content)) == None ==> r == JArr([])
    ensures reply.Replied? && parse(CleanReply(reply.content)) == Some(JNull) ==> r == JArr([])
    ensures reply.Replied? && parse(CleanReply(reply.content)).Some? ==>
              var data := parse(CleanReply(reply.content)).value;
              data != JNull ==> r == OrElse(Member(data, "questions"), JArr([]))
  {
    match reply
    case CallFailed => JArr([])
    case Replied(content) =>
      match parse(CleanReply(content))
      case None => JArr([])
      case Some(data) =>
        if data == JNull then JArr([]) else OrElse(Member(data, "questions"), JArr([]))
  }

  /** A reply without a `questions` field gives the empty list. */
  lemma MissingQuestionsGiveEmptyList(content: Option<string>, parse: JsonParser, fields: map<string, Json>)
    requires parse(CleanReply(content)) == Some(JObj(fields))
    requires "questions" !in fields
    ensures TopicQuestions(Replied(content), parse) == JArr([])
  {
  }

  /** The per-topic results, in topic order. */
  function TopicResults(text: string, topics: seq<Json>, types: seq<Json>, mode: Option<Json>,
                        llm: Llm, parse: JsonParser): (r: seq<Json>)
    ensures |r| == |topics|
    ensures forall k :: 0 <= k < |topics| ==>
              r[k] == TopicQuestions(llm(QuestionPrompt(text, topics[k], types, mode)), parse)
  {
    seq(|topics|, k requires 0 <= k < |topics| =>
      TopicQuestions(llm(QuestionPrompt(text, topics[k], types, mode)), parse))
  }

  // ---------------------------------------------------------------------------
  // results.flat()

  /** The elements one result contributes to `flat()`: an array's elements,
      any other value itself. */
  function Items(v: Json): seq<Json> {
    if v.JArr? then v.items else [v]
  }

  /** The number of elements contributed by the results. */
  function ItemCount(results: seq<Json>): nat {
    if results == [] then 0 else |Items(results[0])| + ItemCount(results[1..])
  }

  /** `results.flat()`: as long as all the contributions together. */
  function Flatten(results: seq<Json>): (r: seq<Json>)
    ensures |r| == ItemCount(results)
  {
    if results == [] then [] else Items(results[0]) + Flatten(results[1..])
  }

  /** Flattening distributes over concatenation of the result lists. */
  lemma {:induction false} FlattenAppend(a: seq<Json>, b: seq<Json>)
    ensures Flatten(a + b) == Flatten(a) + Flatten(b)
    ensures ItemCount(a + b) == ItemCount(a) + ItemCount(b)
  {
    if a == [] {
      assert a + b == b;
    } else {
      assert (a + b)[0] == a[0] && (a + b)[1..] == a[1..] + b;
      FlattenAppend(a[1..], b);
    }
  }

  /** Element `j` of topic `k`'s list sits at position (items of the
      earlier topics) + `j` of the flattened list. */
  lemma FlattenPosition(results: seq<Json>, k: nat, j: nat)
    requires k < |results| && results[k].JArr? && j < |results[k].items|
    ensures ItemCount(results[..k]) + j < |Flatten(results)|
    ensures Flatten(results)[ItemCount(results[..k]) + j] == results[k].items[j]
  {
    var before, after := results[..k], results[k + 1..];
    var rest := [results[k]] + after;
    var items := results[k].items;
    SplitAround(results, k);
    FlattenAppend(before, rest);
    FlattenAppend([results[k]], after);
    FlattenSingle(results[k]);
    var front, back := Flatten(before), Flatten(rest);
    assert back == items + Flatten(after);
    assert Flatten(results) == front + back;
    assert |front| == ItemCount(before);
    assert (front + back)[|front| + j] == back[j] == items[j];
  }

  lemma SplitAround(results: seq<Json>, k: nat)
    requires k < |results|
    ensures results == results[..k] + ([results[k]] + results[k + 1..])
  {
  }

  lemma FlattenSingle(v: Json)
    ensures Flatten([v]) == Items(v)
  {
    assert [v][1..] == [];
  }

  /** A topic that produced the empty list drops out without disturbing
      the other topics' questions. */
  lemma FailedTopicDropsOut(results: seq<Json>, k: nat)
    requires k < |results| && results[k] == JArr([])
    ensures Flatten(results) == Flatten(results[..k]) + Flatten(results[k + 1..])
  {
    var before, after := results[..k], results[k + 1..];
    SplitAround(results, k);
    FlattenAppend(before, [results[k]] + after);
    FlattenAppend([results[k]], after);
    FlattenSingle(results[k]);
    assert Flatten(results) == Flatten(before) + ([] + Flatten(after));
    assert [] + Flatten(after) == Flatten(after);
  }

  // ---------------------------------------------------------------------------
  // Renumbering

  /** `{ ...q, id: (index + 1).toString() }`: an object whose `id` is
      `index + 1` in decimal and whose other fields are the ones `q` spreads. */
  function WithId(q: Json, index: nat): (r: Json)
    ensures r.JObj? && "id" in r.fields && r.fields["id"] == JStr(NatToString(index + 1))
    ensures r.fields.Keys == Spread(q).Keys + {"id"}
    ensures forall key :: key in Spread(q) && key != "id" ==> r.fields[key] == Spread(q)[key]
  {
    JObj(Spread(q)["id" := JStr(NatToString(index + 1))])
  }

  /** `allQuestions.map((q, index) => ({ ...q, id: (index + 1).toString() }))`. */
  function Renumbered(questions: seq<Json>): (r: seq<Json>)
    ensures |r| == |questions|
    ensures forall k :: 0 <= k < |r| ==> r[k] == WithId(questions[k], k)
  {
    seq(|questions|, k requires 0 <= k < |questions| => WithId(questions[k], k))
  }

  /** Question `k` carries the id `k + 1` in decimal, so ids are "1".."n" and
      pairwise distinct. */
  lemma RenumberedIds(questions: seq<Json>, k: nat, j: nat)
    requires k < |questions| && j < |questions|
    ensures var r := Renumbered(questions);
      r[k].JObj? && "id" in r[k].fields && r[k].fields["id"] == JStr(NatToString(k + 1))
      && (k != j ==> r[k].fields["id"] != r[j].fields["id"])
  {
    if k != j && NatToString(k + 1) == NatToString(j + 1) {
      NatToStringInjective(k + 1, j + 1);
    }
  }

  /** Renumbering changes only `id`: an object question keeps every other
      field, and an incoming `id` is overwritten. */
  lemma RenumberedKeepsFields(questions: seq<Json>, k: nat, key: string)
    requires k < |questions| && questions[k].JObj? && key != "id"
    ensures var r := Renumbered(questions);
      r[k].JObj?
      && (key in r[k].fields <==> key in questions[k].fields)
      && (key in r[k].fields ==> r[k].fields[key] == questions[k].fields[key])
      && r[k].fields.Keys == questions[k].fields.Keys + {"id"}
  {
  }

  // ---------------------------------------------------------------------------
  // POST

  /** `POST`: read the body, cut the text, ask for topics, ask for each
      topic's questions, flatten and renumber. `body` is `None` when
      `req.json()` throws. */
  function Post(body: Option<Json>, llm: Llm, parse: JsonParser): (r: Response)
    ensures body.None? ==> r == ErrorResponse(BodyNotJson)
    ensures body == Some(JNull) ==> r == ErrorResponse(TypeError)
    ensures body.Some? && body.value != JNull ==>
              var text := Member(body.value, "text");
              if text.Some? && text.value.JStr? then
                r == GenerateFrom(Take(text.value.s, REQUEST_TEXT_LIMIT),
                                  Member(body.value, "types"), Member(body.value, "mode"), llm, parse)
              else r == ErrorResponse(TypeError)
  {
    if body.None? then ErrorResponse(BodyNotJson)
    else if body.value == JNull then ErrorResponse(TypeError)
    else match Member(body.value, "text")
      case Some(JStr(text)) =>
        GenerateFrom(Take(text, REQUEST_TEXT_LIMIT), Member(body.value, "types"),
                     Member(body.value, "mode"), llm, parse)
      case _ => ErrorResponse(TypeError)
  }

  /** The handler after `text.substring(0, 45000)`. `types.join` is evaluated
      before each topic's `try`, so a `types` that is not an array fails the
      whole request as soon as there is one topic. */
  function GenerateFrom(text: string, types: Option<Json>, mode: Option<Json>,
                        llm: Llm, parse: JsonParser): (r: Response)
    ensures ExtractTopics(text, llm, parse).Failure? ==> r == ErrorResponse(ExtractTopics(text, llm, parse).error)
    ensures r.QuizResponse? <==>
              ExtractTopics(text, llm, parse).Success? && ExtractTopics(text, llm, parse).value.JArr?
              && (ExtractTopics(text, llm, parse).value.items == [] || (types.Some? && types.value.JArr?))
    ensures r.QuizResponse? ==> forall k :: 0 <= k < |r.questions| ==>
              r.questions[k].JObj? && "id" in r.questions[k].fields && r.questions[k].fields["id"] == JStr(NatToString(k + 1))
    ensures ExtractTopics(text, llm, parse).Success? && !ExtractTopics(text, llm, parse).value.JArr? ==>
              r == ErrorResponse(TypeError)
    ensures ExtractTopics(text, llm, parse).Success? && ExtractTopics(text, llm, parse).value.JArr?
            && ExtractTopics(text, llm, parse).value.items != [] && !(types.Some? && types.value.JArr?) ==>
              r == ErrorResponse(TypeError)
    ensures ExtractTopics(text, llm, parse) == Success(JArr([])) ==> r == QuizResponse([])
  {
    match ExtractTopics(text, llm, parse)
    case Failure(f) => ErrorResponse(f)
    case Success(topics) =>
      if !topics.JArr? then ErrorResponse(TypeError)
      else if topics.items != [] && !(types.Some? && types.value.JArr?) then ErrorResponse(TypeError)
      else
        var typeList := if types.Some? && types.value.JArr? then types.value.items else [];
        QuizResponse(Renumbered(Flatten(TopicResults(text, topics.items, typeList, mode, llm, parse))))
  }

  /** Nothing past the first 45000 characters of the request text can
      influence the response; the topic prompt sees at most 15000. */
  lemma PostReadsOnlyPrefix(fields: map<string, Json>, t1: string, t2: string, llm: Llm, parse: JsonParser)
    requires Take(t1, REQUEST_TEXT_LIMIT) == Take(t2, REQUEST_TEXT_LIMIT)
    ensures Post(Some(JObj(fields["text" := JStr(t1)])), llm, parse)
         == Post(Some(JObj(fields["text" := JStr(t2)])), llm, parse)
    ensures TopicExcerpt(Take(t1, REQUEST_TEXT_LIMIT)) == Take(t1, TOPIC_TEXT_LIMIT)
  {
    TakeTake(t1, REQUEST_TEXT_LIMIT, TOPIC_TEXT_LIMIT);
  }

  /** A topic reply without `topics` yields an empty quiz. */
  lemma MissingTopicsGiveEmptyQuiz(text: string, types: Option<Json>, mode: Option<Json>,
                                   llm: Llm, parse: JsonParser, content: Option<string>, fields: map<string, Json>)
    requires llm(TopicPrompt(TopicExcerpt(text))) == Replied(content)
    requires parse(ReplyText(content)) == Some(JObj(fields))
    requires "topics" !in fields
    ensures GenerateFrom(text, types, mode, llm, parse) == QuizResponse([])
  {
  }

  /** With a topic array and a `types` array the handler answers with the
      renumbered, flattened per-topic results. */
  lemma GenerateFromSucceeds(text: string, types: Option<Json>, mode: Option<Json>, llm: Llm, parse: JsonParser,
                             topics: seq<Json>)
    requires ExtractTopics(text, llm, parse) == Success(JArr(topics))
    requires types.Some? && types.value.JArr?
    ensures GenerateFrom(text, types, mode, llm, parse)
         == QuizResponse(Renumbered(Flatten(TopicResults(text, topics, types.value.items, mode, llm, parse))))
  {
  }
}
