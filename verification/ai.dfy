/** Question generation through the AI chat service: the prompt sent, the
    retrying call, the fenced JSON block cut out of the reply and the mapping
    of its records onto import records. The chat service and the JSON parser
    are outside the model: the call outcomes are a given sequence and the
    parser is a function parameter. */
module AiGeneration {
  import opened Base
  import opened Strings
  import Store
  import opened Imports

  /** the generation request; absent fields are the Java nulls */
  datatype GenerateRequest = GenerateRequest(
    topic: string,
    count: int,
    types: Option<string>,
    includeMultiple: Option<bool>,
    difficulty: Option<string>,
    requirements: Option<string>,
    categoryId: Option<nat>)

  // ----- prompt -----

  const CountLead: string := "请为我生成"

  /** the opening sentence with the count and the topic, and the heading of
      the requirement list */
  function Header(req: GenerateRequest): string {
    Lead(req) + "的题目。\n\n要求：\n"
  }

  function Lead(req: GenerateRequest): string {
    CountLead + IntToString(req.count) + "道关于【" + req.topic + "】"
  }

  /** the fragment one listed type adds; unknown types add nothing */
  function TypeFragment(t: string, includeMultiple: Option<bool>): (r: string)
    ensures Trim(t) != Store.CHOICE && Trim(t) != Store.JUDGE && Trim(t) != Store.TEXT ==> r == ""
  {
    var k := Trim(t);
    if k == Store.CHOICE then "选择题" + (if includeMultiple == Some(true) then "(包含单选和多选)" else "") + " "
    else if k == Store.JUDGE then "判断题（**重要：确保正确答案和错误答案的数量大致平衡，不要全部都是正确或错误**） "
    else if k == Store.TEXT then "简答题 "
    else ""
  }

  /** the fragments of the listed types, one per list item, in list order */
  function Fragments(ts: seq<string>, includeMultiple: Option<bool>): seq<string> {
    seq(|ts|, i requires 0 <= i < |ts| => TypeFragment(ts[i], includeMultiple))
  }

  /** the type line, present when the type list is given and not empty */
  function TypesSection(req: GenerateRequest): string {
    if req.types.Some? && req.types.value != "" then
      "- 题目类型：" + Concat(Fragments(JavaSplit(req.types.value, ','), req.includeMultiple)) + "\n"
    else ""
  }

  /** the difficulty wording; anything but EASY and HARD reads as medium */
  function DifficultyText(d: string): (r: string)
    ensures r == "简单" <==> d == "EASY"
    ensures r == "困难" <==> d == "HARD"
    ensures r == "中等" <==> d != "EASY" && d != "HARD"
  {
    if d == "EASY" then "简单" else if d == "MEDIUM" then "中等" else if d == "HARD" then "困难" else "中等"
  }

  function DifficultySection(req: GenerateRequest): string {
    if req.difficulty.Some? then "- 难度等级：" + DifficultyText(req.difficulty.value) + "\n" else ""
  }

  function RequirementsSection(req: GenerateRequest): string {
    if req.requirements.Some? && req.requirements.value != "" then "- 特殊要求：" + req.requirements.value + "\n" else ""
  }

  /** the extra instructions for true/false questions */
  const JudgeBlock: string :=
      "- **判断题特别要求**：\n"
      + "  * 确保生成的判断题中，正确答案(TRUE)和错误答案(FALSE)的数量尽量平衡\n"
      + "  * 不要所有判断题都是正确的或都是错误的\n"
      + "  * 错误的陈述应该是常见的误解或容易混淆的概念\n"
      + "  * 正确的陈述应该是重要的基础知识点\n"

  function JudgeSection(req: GenerateRequest): string {
    if req.types.Some? && Contains(req.types.value, "JUDGE") then JudgeBlock else ""
  }

  /** the reply format, fenced as a JSON block */
  const FormatBlock: string :=
      "\n请严格按照以下JSON格式返回，不要包含任何其他文字：\n"
      + "```json\n"
      + "{\n"
      + "  \"questions\": [\n"
      + "    {\n"
      + "      \"title\": \"题目内容\",\n"
      + "      \"type\": \"CHOICE|JUDGE|TEXT\",\n"
      + "      \"multi\": true/false,\n"
      + "      \"difficulty\": \"EASY|MEDIUM|HARD\",\n"
      + "      \"score\": 5,\n"
      + "      \"choices\": [\n"
      + "        {\"content\": \"选项内容\", \"isCorrect\": true/false, \"sort\": 1}\n"
      + "      ],\n"
      + "      \"answer\": \"TRUE或FALSE(判断题专用)|文本答案(简答题专用)\",\n"
      + "      \"analysis\": \"题目解析\"\n"
      + "    }\n"
      + "  ]\n"
      + "}\n"
      + "```\n\n"

  const NotesBlock: string :=
      "注意：\n"
      + "1. 选择题必须有choices数组，判断题和简答题设置answer字段\n"
      + "2. 多选题的multi字段设为true，单选题设为false\n"
      + "3. **判断题的answer字段只能是\"TRUE\"或\"FALSE\"，请确保答案分布合理**\n"
      + "4. 每道题都要有详细的解析\n"
      + "5. 题目要有实际价值，贴近实际应用场景\n"
      + "6. 严格按照JSON格式返回，确保可以正确解析\n"

  /** the true and false counts asked for: equal halves of an even count,
      a range `lo`-`hi` of an odd one */
  function BalanceHalves(count: int): (r: (int, int))
    requires count > 1
    ensures r.0 + r.1 == count
    ensures r.0 <= r.1 <= r.0 + 1
    ensures r.0 == r.1 <==> count % 2 == 0
  {
    var half := count / 2;
    if count % 2 == 0 then (half, half) else (half, half + 1)
  }

  function BalanceText(count: int): string
    requires count > 1
  {
    var (lo, hi) := BalanceHalves(count);
    if lo == hi then "请生成" + IntToString(lo) + "道正确(TRUE)和" + IntToString(lo) + "道错误(FALSE)的题目"
    else "请生成约" + IntToString(lo) + "-" + IntToString(hi) + "道正确(TRUE)和约" + IntToString(lo) + "-" + IntToString(hi) + "道错误(FALSE)的题目"
  }

  /** the closing line, only when true/false questions alone are asked for */
  function BalanceSection(req: GenerateRequest): string {
    if req.types == Some("JUDGE") && req.count > 1 then
      "7. **判断题答案分布要求**：在" + IntToString(req.count) + "道判断题中，" + BalanceText(req.count)
    else ""
  }

  /** the sections of the prompt, in the order they are appended */
  function Sections(req: GenerateRequest): (r: seq<string>)
    ensures |r| == 8
  {
    [Header(req), TypesSection(req), DifficultySection(req), RequirementsSection(req), JudgeSection(req),
     FormatBlock, NotesBlock, BalanceSection(req)]
  }

  function Concat(parts: seq<string>): string {
    if |parts| == 0 then "" else parts[0] + Concat(parts[1..])
  }

  /** `buildPrompt` */
  function BuildPrompt(req: GenerateRequest): string {
    Concat(Sections(req))
  }

  /** a joined list is what precedes part `k`, part `k`, and what follows */
  lemma {:induction false} ConcatAround(parts: seq<string>, k: nat)
    requires k < |parts|
    ensures Concat(parts) == Concat(parts[..k]) + parts[k] + Concat(parts[k + 1..])
  {
    if k > 0 {
      ConcatAround(parts[1..], k - 1);
      assert Concat(parts) == parts[0] + Concat(parts[1..]);
      assert parts[1..][..k - 1] == parts[1..k];
      assert parts[1..][k..] == parts[k + 1..];
      assert parts[..k] == [parts[0]] + parts[1..k];
      assert Concat(parts[..k]) == parts[0] + Concat(parts[1..k]);
    } else {
      assert parts[..0] == [];
    }
  }

  lemma ContainsPart(parts: seq<string>, k: nat, p: string)
    requires k < |parts| && parts[k] == p
    ensures Contains(Concat(parts), p)
  {
    ConcatAround(parts, k);
    ContainsConcat(Concat(parts[..k]), parts[k], Concat(parts[k + 1..]));
  }

  /** The prompt opens with the request's count and topic, and the count
      reads back from the digits written. */
  lemma PromptHeader(req: GenerateRequest)
    ensures StartsWith(BuildPrompt(req), Lead(req))
    ensures ParseInt(BuildPrompt(req)[|CountLead|..|CountLead| + |IntToString(req.count)|]) == req.count
  {
    var ps := Sections(req);
    ConcatAround(ps, 0);
    assert ps[..0] == [];
    LeadPrefix(Lead(req), "的题目。\n\n要求：\n", Concat(ps[1..]));
    assert BuildPrompt(req) == Lead(req) + "的题目。\n\n要求：\n" + Concat(ps[1..]);
    LeadCount(req);
    IntToStringRoundTrip(req.count);
  }

  lemma LeadCount(req: GenerateRequest)
    ensures Lead(req)[|CountLead|..|CountLead| + |IntToString(req.count)|] == IntToString(req.count)
  {
    var d := IntToString(req.count);
    assert Lead(req) == CountLead + d + ("道关于【" + req.topic + "】");
  }

  lemma LeadPrefix(lead: string, more: string, rest: string)
    ensures StartsWith(lead + more + rest, lead)
    ensures forall i, j :: 0 <= i <= j <= |lead| ==> (lead + more + rest)[i..j] == lead[i..j]
  {
  }

  /** A type list naming no known type yields an empty type line. */
  lemma UnknownTypesAddNothing(ts: seq<string>, includeMultiple: Option<bool>)
    requires forall i :: 0 <= i < |ts| ==> !(Trim(ts[i]) in {Store.CHOICE, Store.JUDGE, Store.TEXT})
    ensures Concat(Fragments(ts, includeMultiple)) == ""
  {
    EmptyParts(Fragments(ts, includeMultiple));
  }

  lemma {:induction false} EmptyParts(parts: seq<string>)
    requires forall i :: 0 <= i < |parts| ==> parts[i] == ""
    ensures Concat(parts) == ""
  {
    if |parts| > 0 {
      EmptyParts(parts[1..]);
    }
  }

  /** When the type list mentions JUDGE, the true/false instructions are
      part of the prompt. */
  lemma PromptJudgeBlock(req: GenerateRequest)
    requires req.types.Some? && Contains(req.types.value, "JUDGE")
    ensures Contains(BuildPrompt(req), JudgeBlock)
  {
    ContainsPart(Sections(req), 4, JudgeBlock);
  }

  /** The balance line closes the prompt exactly when JUDGE alone is asked
      for more than once; otherwise the prompt ends with the notes. */
  lemma PromptBalance(req: GenerateRequest)
    ensures req.types == Some("JUDGE") && req.count > 1 ==>
      EndsWith(BuildPrompt(req), "7. **判断题答案分布要求**：在" + IntToString(req.count) + "道判断题中，" + BalanceText(req.count))
    ensures !(req.types == Some("JUDGE") && req.count > 1) ==> EndsWith(BuildPrompt(req), NotesBlock)
  {
    var ps := Sections(req);
    ConcatAround(ps, 6);
    assert ps[7..] == [ps[7]];
    assert Concat(ps[7..]) == ps[7] + Concat([]);
    TailSuffix(Concat(ps[..6]), ps[6], ps[7]);
  }

  lemma TailSuffix(a: string, n: string, b: string)
    ensures EndsWith(a + n + b, b)
    ensures b == "" ==> EndsWith(a + n + b, n)
  {
    assert (a + n + b)[|a + n + b| - |b|..] == b;
    if b == "" {
      assert a + n + b == a + n;
      assert (a + n)[|a + n| - |n|..] == n;
    }
  }

  /** A type string without a comma is a single type. */
  lemma SingleTypeSection(req: GenerateRequest)
    requires req.types.Some? && req.types.value != "" && ',' !in req.types.value
    ensures TypesSection(req) == "- 题目类型：" + TypeFragment(req.types.value, req.includeMultiple) + "\n"
  {
    assert Fragments([req.types.value], req.includeMultiple) == [TypeFragment(req.types.value, req.includeMultiple)];
    assert Concat([TypeFragment(req.types.value, req.includeMultiple)]) == TypeFragment(req.types.value, req.includeMultiple) + Concat([]);
  }

  /** Four true/false questions ask for two of each; five ask for two to
      three of each. */
  lemma BalanceExamples()
    ensures BalanceHalves(4) == (2, 2)
    ensures BalanceHalves(5) == (2, 3)
  {
  }

  // ----- fenced block -----

  const JsonFence: string := "```json"
  const Fence: string := "```"

  /** a JSON fence is never followed by another fence within its own
      seven characters */
  lemma FenceGap(s: string, start: int, end: int)
    requires OccursAt(s, JsonFence, start) && OccursAt(s, Fence, end) && start < end
    ensures start + |JsonFence| <= end
  {
    assert s[start..start + 7] == JsonFence;
    assert s[start + 3] == 'j' && s[start + 4] == 's' && s[start + 5] == 'o' && s[start + 6] == 'n';
    assert s[end..end + 3] == Fence;
    assert s[end] == '`' && s[end + 1] == '`' && s[end + 2] == '`';
  }

  /** the text between the first JSON fence and the last fence of the reply */
  function ExtractPayload(content: string): (r: Result<string>)
    ensures r.Err? <==> IndexOf(content, JsonFence) == -1 || LastIndexOf(content, Fence) <= IndexOf(content, JsonFence)
    ensures r.Err? ==> r.error == MalformedAiResponse(content)
    ensures r.Ok? ==>
      var start := IndexOf(content, JsonFence);
      var end := start + |JsonFence| + |r.value|;
      && OccursAt(content, JsonFence, start) && OccursAt(content, Fence, end)
      && content[start + |JsonFence|..end] == r.value
      && (forall i :: end < i ==> !OccursAt(content, Fence, i))
  {
    var start := IndexOf(content, JsonFence);
    var end := LastIndexOf(content, Fence);
    if start != -1 && end != -1 && start < end then
      FenceGap(content, start, end);
      Ok(content[start + 7..end])
    else Err(MalformedAiResponse(content))
  }

  /** `p` cannot occur at `i` when the text differs from `p` at offset `k` */
  lemma MismatchAt(s: string, p: string, i: int, k: nat)
    requires 0 <= i && k < |p| && (i + |p| <= |s| ==> s[i + k] != p[k])
    ensures !OccursAt(s, p, i)
  {
    if i + |p| <= |s| {
      assert s[i..i + |p|][k] == s[i + k];
    }
  }

  /** no JSON fence starts in a backtick-free prefix */
  lemma NoJsonFenceBefore(s: string, n: nat)
    requires n <= |s| && forall i :: 0 <= i < n ==> s[i] != '`'
    ensures forall i :: 0 <= i < n ==> !OccursAt(s, JsonFence, i)
  {
    forall i | 0 <= i < n
      ensures !OccursAt(s, JsonFence, i)
    {
      MismatchAt(s, JsonFence, i, 0);
    }
  }

  /** after a fence at `m` followed by backtick-free text, no later fence */
  lemma NoFenceAfter(s: string, m: nat)
    requires m + 3 <= |s| && forall i :: m + 3 <= i < |s| ==> s[i] != '`'
    ensures forall i :: m < i ==> !OccursAt(s, Fence, i)
  {
    forall i | m < i
      ensures !OccursAt(s, Fence, i)
    {
      if i + 3 <= |s| {
        if i <= m + 2 {
          MismatchAt(s, Fence, i, m + 3 - i);
        } else {
          MismatchAt(s, Fence, i, 0);
        }
      } else {
        MismatchAt(s, Fence, i, 0);
      }
    }
  }

  /** When a JSON fence opens the block, no backtick precedes it and none
      appears in or after the payload, extraction returns the payload. */
  lemma ExtractWrapped(pre: string, payload: string, post: string)
    requires '`' !in pre && '`' !in payload && '`' !in post
    ensures ExtractPayload(pre + JsonFence + payload + Fence + post) == Ok(payload)
  {
    var s := pre + JsonFence + payload + Fence + post;
    var m := |pre| + 7 + |payload|;
    assert s[|pre|..|pre| + 7] == JsonFence;
    assert s[m..m + 3] == Fence;
    forall i | 0 <= i < |pre| ensures s[i] != '`' {
      assert s[i] == pre[i];
    }
    forall i | m + 3 <= i < |s| ensures s[i] != '`' {
      assert s[i] == post[i - m - 3];
    }
    NoJsonFenceBefore(s, |pre|);
    NoFenceAfter(s, m);
    IndexOfIs(s, JsonFence, |pre|);
    LastIndexOfIs(s, Fence, m);
    assert s[|pre| + 7..m] == payload;
  }

  // ----- records -----

  /** a choice object of the parsed reply */
  datatype JsonChoice = JsonChoice(content: Option<string>, isCorrect: Option<bool>, sort: Option<int>)

  /** a question object of the parsed reply; absent keys are None */
  datatype JsonQuestion = JsonQuestion(
    title: Option<string>,
    qtype: Option<string>,
    multi: Option<bool>,
    difficulty: Option<string>,
    score: Option<int>,
    analysis: Option<string>,
    choices: Option<seq<JsonChoice>>,
    answer: Option<string>)

  /** what the JSON parser makes of the payload */
  datatype Parsed = Unparsable | Parsed(questions: Option<seq<JsonQuestion>>)

  function MapChoices(cs: seq<JsonChoice>): (r: seq<ImportChoice>)
    ensures |r| == |cs|
    ensures forall i :: 0 <= i < |cs| ==> r[i] == ImportChoice(cs[i].content, cs[i].isCorrect, cs[i].sort)
  {
    if |cs| == 0 then [] else MapChoices(cs[..|cs| - 1]) + [ImportChoice(cs[|cs| - 1].content, cs[|cs| - 1].isCorrect, cs[|cs| - 1].sort)]
  }

  /** one question object as an import record; a choice question without a
      choice array dereferences null */
  function MapRecord(j: JsonQuestion, categoryId: Option<nat>): (r: Result<ImportRecord>)
    ensures r.Err? <==> j.qtype == Some(Store.CHOICE) && j.choices.None?
    ensures r.Err? ==> r.error == NullReference
    ensures r.Ok? ==> r.value.categoryId == categoryId
    ensures r.Ok? ==> r.value.title == j.title && r.value.qtype == j.qtype && r.value.answer == j.answer
    ensures r.Ok? ==>
      && r.value.multi == j.multi && r.value.difficulty == j.difficulty
      && r.value.score == j.score && r.value.analysis == j.analysis
    ensures r.Ok? ==> (r.value.choices.Some? <==> j.qtype == Some(Store.CHOICE))
  {
    var base := ImportRecord(j.title, j.qtype, j.multi, j.difficulty, j.score, j.analysis, categoryId, None, j.answer);
    if j.qtype == Some(Store.CHOICE) then
      if j.choices.None? then Err(NullReference) else Ok(base.(choices := Some(MapChoices(j.choices.value))))
    else Ok(base)
  }

  /** the records in reply order; the first failing one aborts the whole list */
  function MapRecords(js: seq<JsonQuestion>, categoryId: Option<nat>): (r: Result<seq<ImportRecord>>)
    ensures r.Ok? ==> |r.value| == |js|
    ensures r.Ok? ==> forall i :: 0 <= i < |js| ==> MapRecord(js[i], categoryId) == Ok(r.value[i])
    ensures r.Err? ==> exists i :: 0 <= i < |js| && MapRecord(js[i], categoryId).Err?
  {
    if |js| == 0 then Ok([])
    else
      match MapRecords(js[..|js| - 1], categoryId)
      case Err(e) => Err(e)
      case Ok(prev) =>
        match MapRecord(js[|js| - 1], categoryId)
        case Err(e) => Err(e)
        case Ok(x) => Ok(prev + [x])
  }

  /** Every mapped record carries the request's category; choices appear
      only on choice records, copied field by field. */
  lemma MapRecordsFacts(js: seq<JsonQuestion>, categoryId: Option<nat>)
    requires MapRecords(js, categoryId).Ok?
    ensures forall i :: 0 <= i < |js| ==> MapRecords(js, categoryId).value[i].categoryId == categoryId
    ensures forall i :: 0 <= i < |js| && js[i].qtype == Some(Store.CHOICE) ==>
      MapRecords(js, categoryId).value[i].choices == Some(MapChoices(js[i].choices.value))
    ensures forall i :: 0 <= i < |js| && js[i].qtype != Some(Store.CHOICE) ==>
      MapRecords(js, categoryId).value[i].choices.None?
  {
    var rs := MapRecords(js, categoryId).value;
    forall i | 0 <= i < |js|
      ensures rs[i].categoryId == categoryId
      ensures js[i].qtype == Some(Store.CHOICE) ==> rs[i].choices == Some(MapChoices(js[i].choices.value))
      ensures js[i].qtype != Some(Store.CHOICE) ==> rs[i].choices.None?
    {
      assert MapRecord(js[i], categoryId) == Ok(rs[i]);
    }
  }

  // ----- the call -----

  /** the outcome of one call: an exception, a reply carrying an `error`
      key, or a reply with its content (absent when null) */
  datatype Outcome = Threw | ErrorReply | Reply(content: Option<string>)

  const MaxTries: nat := 3

  /** an attempt that returns: no error key and a non-empty content */
  predicate Good(o: Outcome) {
    o.Reply? && o.content.Some? && o.content.value != ""
  }

  /** the outcome of attempt `i` (from 0); a missing entry counts as a failure */
  function At(outcomes: seq<Outcome>, i: nat): Outcome {
    if i < |outcomes| then outcomes[i] else Threw
  }

  /** the reference: the content of the first good attempt among the first
      three, or the retry error */
  function FirstGood(outcomes: seq<Outcome>, i: nat): (r: Result<string>)
    requires i <= MaxTries
    decreases MaxTries - i
  {
    if i == MaxTries then Err(AiUnavailable)
    else if Good(At(outcomes, i)) then Ok(At(outcomes, i).content.value)
    else FirstGood(outcomes, i + 1)
  }

  /** `callKimiAi`: up to three attempts, returning the first good content */
  method CallWithRetry(outcomes: seq<Outcome>) returns (r: Result<string>, attempts: nat)
    ensures 1 <= attempts <= MaxTries
    ensures r == FirstGood(outcomes, 0)
    ensures r.Ok? ==> Good(At(outcomes, attempts - 1)) && r.value == At(outcomes, attempts - 1).content.value
    ensures forall k :: 0 <= k < attempts - 1 ==> !Good(At(outcomes, k))
    ensures r.Err? ==> r.error == AiUnavailable && attempts == MaxTries && !Good(At(outcomes, MaxTries - 1))
  {
    var i := 1;
    while i <= MaxTries
      invariant 1 <= i <= MaxTries + 1
      invariant forall k :: 0 <= k < i - 1 ==> !Good(At(outcomes, k))
      invariant FirstGood(outcomes, 0) == FirstGood(outcomes, i - 1)
      decreases MaxTries + 1 - i
    {
      var o := At(outcomes, i - 1);
      if Good(o) {
        return Ok(o.content.value), i;
      }
      if i == MaxTries {
        return Err(AiUnavailable), i;
      }
      i := i + 1;
    }
    return Err(AiUnavailable), MaxTries;
  }

  /** The call succeeds exactly when one of the first three attempts is good. */
  lemma {:induction false} FirstGoodSucceeds(outcomes: seq<Outcome>, i: nat)
    requires i <= MaxTries
    ensures FirstGood(outcomes, i).Ok? <==> exists k :: i <= k < MaxTries && Good(At(outcomes, k))
    decreases MaxTries - i
  {
    if i < MaxTries {
      FirstGoodSucceeds(outcomes, i + 1);
    }
  }

  /** `aiGenerateQuestions`: prompt, call, extraction, parsing and mapping */
  function Generate(req: GenerateRequest, outcomes: seq<Outcome>, parse: string -> Parsed): (r: Result<seq<ImportRecord>>)
    ensures r.Ok? ==> forall i :: 0 <= i < |r.value| ==> r.value[i].categoryId == req.categoryId
  {
    match FirstGood(outcomes, 0)
    case Err(e) => Err(e)
    case Ok(content) =>
      match ExtractPayload(content)
      case Err(e) => Err(e)
      case Ok(payload) =>
        match parse(payload)
        case Unparsable => Err(JsonError)
        case Parsed(None) => Err(NullReference)
        case Parsed(Some(js)) =>
          var r := MapRecords(js, req.categoryId);
          if r.Ok? then MapRecordsFacts(js, req.categoryId); r else r
  }

  /** Generation fails with the retry error when no attempt is good, and
      with the raw reply when it holds no fenced block. */
  lemma GenerateFailures(req: GenerateRequest, outcomes: seq<Outcome>, parse: string -> Parsed)
    ensures (forall k :: 0 <= k < MaxTries ==> !Good(At(outcomes, k))) ==> Generate(req, outcomes, parse) == Err(AiUnavailable)
    ensures FirstGood(outcomes, 0).Ok? && IndexOf(FirstGood(outcomes, 0).value, JsonFence) == -1 ==>
      Generate(req, outcomes, parse) == Err(MalformedAiResponse(FirstGood(outcomes, 0).value))
  {
    FirstGoodSucceeds(outcomes, 0);
  }
}
