/** Import records: the shape in which generated or uploaded questions enter
    the bank, and the per-record check run before they are stored. */
module Imports {
  import opened Base
  import opened Strings
  import Store

  /** one choice of an import record; every field may be absent (null) */
  datatype ImportChoice = ImportChoice(content: Option<string>, isCorrect: Option<bool>, sort: Option<int>)

  /** one import record; every field may be absent (null) */
  datatype ImportRecord = ImportRecord(
    title: Option<string>,
    qtype: Option<string>,
    multi: Option<bool>,
    difficulty: Option<string>,
    score: Option<int>,
    analysis: Option<string>,
    categoryId: Option<nat>,
    choices: Option<seq<ImportChoice>>,
    answer: Option<string>)

  /** the reasons a record is refused, in the order they are checked */
  datatype Problem =
    | TitleEmpty
    | TypeEmpty
    | TypeUnknown
    | NoChoices
    | TooFewChoices
    | NoCorrectChoice
    /** `judge` tells which kind of question lacks its answer */
    | AnswerMissing(judge: bool)

  /** null, or blank once trimmed */
  predicate Absent(s: Option<string>) {
    s.None? || Trim(s.value) == ""
  }

  predicate KnownType(t: string) {
    t == Store.CHOICE || t == Store.JUDGE || t == Store.TEXT
  }

  /** some choice is marked correct; an unset flag counts as not correct */
  predicate HasCorrect(cs: seq<ImportChoice>) {
    exists i :: 0 <= i < |cs| && cs[i].isCorrect == Some(true)
  }

  /** `validateSingleQuestion`: the first failing check, or None when the
      record passes them all */
  function Validate(q: ImportRecord): (r: Option<Problem>)
    ensures r == Some(TitleEmpty) <==> Absent(q.title)
    ensures r.None? <==>
      && !Absent(q.title)
      && q.qtype.Some? && KnownType(q.qtype.value)
      && (q.qtype.value == Store.CHOICE ==> q.choices.Some? && |q.choices.value| >= 2 && HasCorrect(q.choices.value))
      && (q.qtype.value != Store.CHOICE ==> !Absent(q.answer))
  {
    if Absent(q.title) then Some(TitleEmpty)
    else if Absent(q.qtype) then Some(TypeEmpty)
    else if !KnownType(q.qtype.value) then Some(TypeUnknown)
    else if q.qtype.value == Store.CHOICE then
      if q.choices.None? || |q.choices.value| == 0 then Some(NoChoices)
      else if |q.choices.value| < 2 then Some(TooFewChoices)
      else if !HasCorrect(q.choices.value) then Some(NoCorrectChoice)
      else None
    else if Absent(q.answer) then Some(AnswerMissing(q.qtype.value == Store.JUDGE))
    else None
  }

  /** The answer of a choice record does not affect the verdict. */
  lemma ChoiceAnswerIgnored(q: ImportRecord, answer: Option<string>)
    requires q.qtype == Some(Store.CHOICE)
    ensures Validate(q.(answer := answer)) == Validate(q)
  {
  }

  /** a known type is never blank */
  lemma KnownTypePresent(t: string)
    requires KnownType(t)
    ensures !Absent(Some(t))
  {
    assert !IsSpace(t[0]);
  }

  /** Checks run in order: the type is looked at only once the title
      passed. */
  lemma ValidateOrderType(q: ImportRecord)
    ensures Validate(q) == Some(TypeEmpty) <==> !Absent(q.title) && Absent(q.qtype)
    ensures Validate(q) == Some(TypeUnknown) <==>
      !Absent(q.title) && !Absent(q.qtype) && !KnownType(q.qtype.value)
  {
  }

  /** The choice checks run only for a choice record with a usable title,
      in the order: present, at least two, one marked correct. */
  lemma ValidateOrderChoices(q: ImportRecord)
    ensures Validate(q) == Some(NoChoices) <==>
      !Absent(q.title) && q.qtype == Some(Store.CHOICE) && (q.choices.None? || q.choices.value == [])
    ensures Validate(q) == Some(TooFewChoices) <==>
      !Absent(q.title) && q.qtype == Some(Store.CHOICE) && q.choices.Some? && |q.choices.value| == 1
    ensures Validate(q) == Some(NoCorrectChoice) <==>
      !Absent(q.title) && q.qtype == Some(Store.CHOICE) && q.choices.Some? && |q.choices.value| >= 2
      && !HasCorrect(q.choices.value)
  {
    if q.qtype == Some(Store.CHOICE) {
      KnownTypePresent(Store.CHOICE);
    }
  }

  /** A judgement or text record without an answer fails last. */
  lemma ValidateOrderAnswer(q: ImportRecord)
    ensures Validate(q).Some? && Validate(q).value.AnswerMissing? <==>
      !Absent(q.title) && q.qtype.Some? && (q.qtype.value == Store.JUDGE || q.qtype.value == Store.TEXT)
      && Absent(q.answer)
  {
    if q.qtype.Some? && KnownType(q.qtype.value) {
      KnownTypePresent(q.qtype.value);
    }
  }

  /** the message text of a problem for record number `index` */
  function Message(p: Problem, index: int): (m: string)
    ensures StartsWith(m, "第" + IntToString(index) + "题：")
  {
    var head := "第" + IntToString(index) + "题：";
    var tail := match p
      case TitleEmpty => "题目内容不能为空"
      case TypeEmpty => "题目类型不能为空"
      case TypeUnknown => "题目类型必须是CHOICE、JUDGE或TEXT"
      case NoChoices => "选择题必须有选项"
      case TooFewChoices => "选择题至少需要2个选项"
      case NoCorrectChoice => "选择题必须有正确答案"
      case AnswerMissing(judge) => (if judge then "判断题" else "简答题") + "必须有答案";
    assert (head + tail)[..|head|] == head;
    head + tail
  }

  /** The record number reads back from the message. */
  lemma MessageIndex(p: Problem, index: int)
    ensures ParseInt(Message(p, index)[1..1 + |IntToString(index)|]) == index
  {
    var m := Message(p, index);
    var d := IntToString(index);
    assert m[..|"第" + d + "题："|] == "第" + d + "题：";
    assert m[1..1 + |d|] == ("第" + d + "题：")[1..1 + |d|] == d;
    IntToStringRoundTrip(index);
  }

  lemma ValidateExamples()
    ensures Validate(ImportRecord(Some("  "), Some("TEXT"), None, None, None, None, None, None, Some("x"))) == Some(TitleEmpty)
    ensures Validate(ImportRecord(Some("t"), Some("ESSAY"), None, None, None, None, None, None, Some("x"))) == Some(TypeUnknown)
    ensures Validate(ImportRecord(Some("t"), Some("CHOICE"), None, None, None, None, None,
      Some([ImportChoice(Some("a"), None, None), ImportChoice(Some("b"), Some(false), None)]), None)) == Some(NoCorrectChoice)
    ensures Validate(ImportRecord(Some("t"), Some("JUDGE"), None, None, None, None, None, None, Some(" "))) == Some(AnswerMissing(true))
  {
    assert !IsSpace("t"[0]);
    assert !IsSpace("x"[0]);
    assert !IsSpace("ESSAY"[0]);
    assert !IsSpace("CHOICE"[0]);
    assert !IsSpace("JUDGE"[0]);
    assert !IsSpace("TEXT"[0]);
    var cs := [ImportChoice(Some("a"), None, None), ImportChoice(Some("b"), Some(false), None)];
    assert !HasCorrect(cs) by {
      assert forall i :: 0 <= i < |cs| ==> cs[i].isCorrect != Some(true);
    }
  }
}
