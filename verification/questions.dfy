/** Question lifecycle: create, update and delete with the uniqueness and
    reference checks, the lettering of a choice question's answer, and the
    batched attachment of answers and sorted choices (hydration).
    Each operation is one all-or-nothing transaction: `Err` carries no store. */
module Questions {
  import opened Base
  import opened Store
  import opened StableSort
  import Strings

  // ----- answer lettering -----

  /** `(char)('A' + i)`: Java keeps the low 16 bits of the code. A lone UTF-16
      surrogate cannot be a Dafny char and is shown as U+FFFD. */
  function Letter(i: nat): (c: char)
    ensures i < 26 ==> 'A' <= c <= 'Z' && c as int == 'A' as int + i
  {
    var code := (65 + i) % 0x1_0000;
    if 0xD800 <= code < 0xE000 then '\U{FFFD}' else code as char
  }

  /** The answer a choice question gets: the letters of the correct choices,
      in index order, separated by commas. This follows the StringBuilder
      loop: a comma goes in front of every letter but the first. */
  function AnswerLetters(flags: seq<bool>): string
  {
    if |flags| == 0 then ""
    else
      var prev := AnswerLetters(flags[..|flags| - 1]);
      if flags[|flags| - 1] then (if |prev| > 0 then prev + "," else prev) + [Letter(|flags| - 1)]
      else prev
  }

  /** the indices of the correct choices, ascending */
  function CorrectIndices(flags: seq<bool>): (r: seq<nat>)
    ensures forall k :: 0 <= k < |r| ==> r[k] < |flags| && flags[r[k]]
    ensures forall i :: 0 <= i < |flags| && flags[i] ==> i in r
  {
    if |flags| == 0 then []
    else CorrectIndices(flags[..|flags| - 1]) + (if flags[|flags| - 1] then [|flags| - 1] else [])
  }

  function LetterStrings(ids: seq<nat>): (r: seq<string>)
    ensures |r| == |ids|
    ensures forall k :: 0 <= k < |ids| ==> r[k] == [Letter(ids[k])]
  {
    if |ids| == 0 then [] else LetterStrings(ids[..|ids| - 1]) + [[Letter(ids[|ids| - 1])]]
  }

  /** The lettering loop computes exactly the comma-join of the letters of
      the correct choices. */
  lemma {:induction false} AnswerLettersIsJoin(flags: seq<bool>)
    ensures AnswerLetters(flags) == Strings.Join(LetterStrings(CorrectIndices(flags)), ",")
    ensures AnswerLetters(flags) == "" <==> |CorrectIndices(flags)| == 0
  {
    if |flags| > 0 {
      var f0 := flags[..|flags| - 1];
      var n := |flags| - 1;
      AnswerLettersIsJoin(f0);
      var ids0 := CorrectIndices(f0);
      var prev := AnswerLetters(f0);
      if flags[n] {
        assert AnswerLetters(flags) == (if |prev| > 0 then prev + "," else prev) + [Letter(n)];
        assert CorrectIndices(flags) == ids0 + [n];
        assert LetterStrings(ids0 + [n]) == LetterStrings(ids0) + [[Letter(n)]];
        if |ids0| > 0 {
          Strings.JoinSnoc(LetterStrings(ids0), [Letter(n)], ",");
        }
      } else {
        assert CorrectIndices(flags) == ids0;
      }
    }
  }

  /** Every char of the answer is a comma or the letter of a correct choice,
      and every correct choice's letter occurs in it. */
  lemma {:induction false} AnswerLettersChars(flags: seq<bool>)
    ensures forall c :: c in AnswerLetters(flags) ==> c == ',' || exists j :: 0 <= j < |flags| && flags[j] && c == Letter(j)
    ensures forall j :: 0 <= j < |flags| && flags[j] ==> Letter(j) in AnswerLetters(flags)
  {
    if |flags| > 0 {
      var f0 := flags[..|flags| - 1];
      AnswerLettersChars(f0);
      forall c | c in AnswerLetters(flags)
        ensures c == ',' || exists j :: 0 <= j < |flags| && flags[j] && c == Letter(j)
      {
        if c in AnswerLetters(f0) && c != ',' {
          var j :| 0 <= j < |f0| && f0[j] && c == Letter(j);
          assert flags[j];
        }
      }
      forall j | 0 <= j < |flags| && flags[j] ensures Letter(j) in AnswerLetters(flags) {
        if j < |f0| { assert f0[j]; }
      }
    }
  }

  /** Reading the answer back: with at most 26 choices, choice `i` is correct
      exactly when its letter occurs in the answer, so the answer determines
      the correct set. */
  lemma AnswerLettersDecode(flags: seq<bool>, i: nat)
    requires |flags| <= 26 && i < |flags|
    ensures Letter(i) in AnswerLetters(flags) <==> flags[i]
  {
    AnswerLettersChars(flags);
    if Letter(i) in AnswerLetters(flags) {
      var j :| 0 <= j < |flags| && flags[j] && Letter(i) == Letter(j);
      assert i == j;
    }
  }

  lemma AnswerLettersExamples()
    ensures AnswerLetters([false, false, true, false]) == "C"
    ensures AnswerLetters([false, true, false, true]) == "B,D"
    ensures AnswerLetters([true, false]) == "A"
    ensures AnswerLetters([false, false]) == ""
  {
    assert [false, false, true, false][..3] == [false, false, true];
    assert [false, false, true][..2] == [false, false];
    assert [false, false][..1] == [false];
    assert [false][..0] == [];
    assert [false, true, false, true][..3] == [false, true, false];
    assert [false, true, false][..2] == [false, true];
    assert [false, true][..1] == [false];
    assert [true, false][..1] == [true];
    assert [true][..0] == [];
  }

  // ----- create -----

  /** a choice as the caller supplies it; any caller-supplied `sort` is overwritten */
  datatype ChoiceInput = ChoiceInput(content: string, isCorrect: Option<bool>)

  datatype QuestionInput = QuestionInput(
    qtype: string,
    title: string,
    difficulty: string,
    categoryId: nat,
    score: int,
    multi: bool,
    analysis: string,
    /** the text of the answer object; None stands for a null answer object */
    answer: Option<string>,
    /** None stands for a null choice list */
    choices: Option<seq<ChoiceInput>>)

  /** the supplied choices, a null list read as none; the operations read a
      list only after a CHOICE question has failed on a null one */
  function ChoiceList(cs: Option<seq<ChoiceInput>>): (r: seq<ChoiceInput>)
    ensures cs.Some? ==> r == cs.value
    ensures cs.None? ==> r == []
  {
    if cs.Some? then cs.value else []
  }

  predicate AllFlagsSet(cs: seq<ChoiceInput>) {
    forall i :: 0 <= i < |cs| ==> cs[i].isCorrect.Some?
  }

  /** the unboxed `isCorrect` flags; it is applied only once `AllFlagsSet`
      holds, a null flag being the `NullReference` of the save and the update */
  function Flags(cs: seq<ChoiceInput>): (r: seq<bool>)
    ensures |r| == |cs|
    ensures forall i :: 0 <= i < |cs| ==> (r[i] <==> cs[i].isCorrect == Some(true))
  {
    if |cs| == 0 then [] else Flags(cs[..|cs| - 1]) + [cs[|cs| - 1].isCorrect == Some(true)]
  }

  /** the rows inserted for a choice list: fresh ids from `firstId`, `sort` = position */
  function ChoiceRows(cs: seq<ChoiceInput>, qid: nat, firstId: nat): (r: seq<ChoiceRow>)
    ensures |r| == |cs|
    ensures forall i :: 0 <= i < |cs| ==> r[i] == ChoiceRow(firstId + i, qid, cs[i].content, cs[i].isCorrect == Some(true), i)
  {
    if |cs| == 0 then []
    else
      var n := |cs| - 1;
      ChoiceRows(cs[..n], qid, firstId) + [ChoiceRow(firstId + n, qid, cs[n].content, cs[n].isCorrect == Some(true), n)]
  }

  /** some question already has this (type, title) pair */
  predicate TypeTitleTaken(qs: seq<Question>, qtype: string, title: string) {
    exists q :: q in qs && q.qtype == qtype && q.title == title
  }

  function NewQuestionRow(q: QuestionInput, id: nat, now: int): Question {
    Question(id, q.qtype, q.title, q.difficulty, q.categoryId, q.score, q.multi, q.analysis, now)
  }

  /** the store after the inserts of a create that passed its checks */
  function CreatedDb(db: Db, q: QuestionInput, now: int): Db
    requires q.answer.Some?
  {
    var id := db.nextId;
    var row := NewQuestionRow(q, id, now);
    if q.qtype == CHOICE then
      var rows := ChoiceRows(ChoiceList(q.choices), id, id + 1);
      db.(questions := db.questions + [row], choices := db.choices + rows,
          answers := db.answers + [AnswerRow(id + 1 + |rows|, id, AnswerLetters(Flags(ChoiceList(q.choices))))],
          nextId := id + 2 + |rows|)
    else
      db.(questions := db.questions + [row], answers := db.answers + [AnswerRow(id + 1, id, q.answer.value)],
          nextId := id + 2)
  }

  /** `customSaveQuestion`: the new question takes id `db.nextId`; a choice
      question's rows and answer follow it. A null answer object, a null
      choice list of a CHOICE question and a null `isCorrect` (unboxed) each
      fail with a null dereference, which rolls the whole insert back. */
  function CreateQuestion(db: Db, q: QuestionInput, now: int): (r: Result<Db>)
    ensures TypeTitleTaken(db.questions, q.qtype, q.title) ==> r == Err(DuplicateQuestion(q.qtype, q.title))
    ensures r.Ok? <==>
      && !TypeTitleTaken(db.questions, q.qtype, q.title)
      && q.answer.Some?
      && (q.qtype == CHOICE ==> q.choices.Some? && AllFlagsSet(q.choices.value))
    ensures r.Err? && !TypeTitleTaken(db.questions, q.qtype, q.title) ==> r == Err(NullReference)
    ensures r.Ok? ==> r.value.links == db.links && r.value.papers == db.papers && r.value.categories == db.categories
  {
    if TypeTitleTaken(db.questions, q.qtype, q.title) then Err(DuplicateQuestion(q.qtype, q.title))
    else if q.answer.None? then Err(NullReference)
    else if q.qtype == CHOICE && (q.choices.None? || !AllFlagsSet(q.choices.value)) then Err(NullReference)
    else Ok(CreatedDb(db, q, now))
  }

  /** the answer text a create or update stores */
  function ExpectedAnswer(qtype: string, cs: seq<ChoiceInput>, supplied: string): string {
    if qtype == CHOICE then AnswerLetters(Flags(cs)) else supplied
  }

  lemma {:induction false} ChoicesOfAppend(a: seq<ChoiceRow>, b: seq<ChoiceRow>, qid: nat)
    ensures ChoicesOf(a + b, qid) == ChoicesOf(a, qid) + ChoicesOf(b, qid)
    decreases |b|
  {
    if |b| > 0 {
      ChoicesOfAppend(a, b[..|b| - 1], qid);
      assert (a + b)[..|a + b| - 1] == a + b[..|b| - 1];
    } else {
      assert a + b == a;
    }
  }

  lemma {:induction false} AnswersOfAppend(a: seq<AnswerRow>, b: seq<AnswerRow>, qid: nat)
    ensures AnswersOf(a + b, qid) == AnswersOf(a, qid) + AnswersOf(b, qid)
    decreases |b|
  {
    if |b| > 0 {
      AnswersOfAppend(a, b[..|b| - 1], qid);
      assert (a + b)[..|a + b| - 1] == a + b[..|b| - 1];
    } else {
      assert a + b == a;
    }
  }

  lemma {:induction false} ChoicesOfOwn(rows: seq<ChoiceRow>, qid: nat)
    requires forall c :: c in rows ==> c.questionId == qid
    ensures ChoicesOf(rows, qid) == rows
  {
    if |rows| > 0 {
      ChoicesOfOwn(rows[..|rows| - 1], qid);
      assert rows == rows[..|rows| - 1] + [rows[|rows| - 1]];
    }
  }

  lemma {:induction false} ChoicesOfNone(rows: seq<ChoiceRow>, qid: nat)
    requires forall c :: c in rows ==> c.questionId != qid
    ensures ChoicesOf(rows, qid) == []
  {
    if |rows| > 0 {
      ChoicesOfNone(rows[..|rows| - 1], qid);
    }
  }

  lemma {:induction false} AnswersOfNone(rows: seq<AnswerRow>, qid: nat)
    requires forall a :: a in rows ==> a.questionId != qid
    ensures AnswersOf(rows, qid) == []
  {
    if |rows| > 0 {
      AnswersOfNone(rows[..|rows| - 1], qid);
    }
  }

  /** A successful create keeps the store valid: the new question, choice
      and answer ids are fresh and distinct, and the counter moves past them. */
  lemma CreateQuestionValid(db: Db, q: QuestionInput, now: int)
    requires Valid(db)
    requires CreateQuestion(db, q, now).Ok?
    ensures Valid(CreateQuestion(db, q, now).value)
  {
    var db' := CreatedDb(db, q, now);
    var id := db.nextId;
    forall i, j | 0 <= i < j < |db'.choices| ensures db'.choices[i].id != db'.choices[j].id {
      if j >= |db.choices| && i < |db.choices| {
        assert db.choices[i] in db.choices;
      }
    }
    forall i, j | 0 <= i < j < |db'.questions| ensures db'.questions[i].id != db'.questions[j].id {
      if j >= |db.questions| {
        assert db.questions[i] in db.questions;
      }
    }
    forall i, j | 0 <= i < j < |db'.answers| ensures db'.answers[i].id != db'.answers[j].id {
      if j >= |db.answers| {
        assert db.answers[i] in db.answers;
      }
    }
  }

  /** A successful create adds the question under an id no row had and
      leaves every existing row in place. */
  lemma CreateQuestionAdds(db: Db, q: QuestionInput, now: int)
    requires forall r :: r in db.questions ==> r.id < db.nextId
    requires CreateQuestion(db, q, now).Ok?
    ensures var db' := CreateQuestion(db, q, now).value;
      var id := db.nextId;
      && FindQuestion(db.questions, id).None?
      && FindQuestion(db'.questions, id) == Some(NewQuestionRow(q, id, now))
      && db'.questions[..|db.questions|] == db.questions
      && db'.choices[..|db.choices|] == db.choices
      && db'.answers[..|db.answers|] == db.answers
  {
    CreateQuestionOk(db, q, now);
    var db' := CreatedDb(db, q, now);
    var id := db.nextId;
    CreatedDbShape(db, q, now);
    FindAppendFresh(db.questions, NewQuestionRow(q, id, now));
    PrefixOfAppend(db.questions, [NewQuestionRow(q, id, now)]);
    PrefixOfAppend(db.choices, db'.choices[|db.choices|..]);
    PrefixOfAppend(db.answers, [AnswerRow(db'.nextId - 1, id, ExpectedAnswer(q.qtype, ChoiceList(q.choices), q.answer.value))]);
  }

  /** A successful create gives the new question exactly one answer row, the
      last id taken: the letters of the correct choices for CHOICE, the
      supplied text otherwise. */
  lemma CreateQuestionAnswer(db: Db, q: QuestionInput, now: int)
    requires forall a :: a in db.answers ==> a.questionId < db.nextId
    requires CreateQuestion(db, q, now).Ok?
    ensures var db' := CreateQuestion(db, q, now).value;
      AnswersOf(db'.answers, db.nextId) == [AnswerRow(db'.nextId - 1, db.nextId, ExpectedAnswer(q.qtype, ChoiceList(q.choices), q.answer.value))]
  {
    CreateQuestionOk(db, q, now);
    var db' := CreatedDb(db, q, now);
    CreatedDbShape(db, q, now);
    AnswerAppendFresh(db.answers, AnswerRow(db'.nextId - 1, db.nextId, ExpectedAnswer(q.qtype, ChoiceList(q.choices), q.answer.value)));
  }

  lemma CreateQuestionOk(db: Db, q: QuestionInput, now: int)
    requires CreateQuestion(db, q, now).Ok?
    ensures CreateQuestion(db, q, now).value == CreatedDb(db, q, now)
  {
  }

  /** the three tables a create appends to, and the counter */
  lemma CreatedDbShape(db: Db, q: QuestionInput, now: int)
    requires q.answer.Some?
    ensures var db' := CreatedDb(db, q, now);
      var id := db.nextId;
      && db'.questions == db.questions + [NewQuestionRow(q, id, now)]
      && db'.answers == db.answers + [AnswerRow(db'.nextId - 1, id, ExpectedAnswer(q.qtype, ChoiceList(q.choices), q.answer.value))]
      && |db'.choices| >= |db.choices|
      && db'.choices == db.choices + db'.choices[|db.choices|..]
  {
  }

  lemma PrefixOfAppend<T>(a: seq<T>, b: seq<T>)
    ensures (a + b)[..|a|] == a
  {
  }

  lemma AnswerAppendFresh(ans: seq<AnswerRow>, row: AnswerRow)
    requires forall a :: a in ans ==> a.questionId < row.questionId
    ensures AnswersOf(ans + [row], row.questionId) == [row]
    ensures (ans + [row])[..|ans|] == ans
  {
    AnswersOfNone(ans, row.questionId);
    assert (ans + [row])[..|ans|] == ans;
  }

  /** A successful CHOICE create inserts one row per supplied choice, in
      order, with `sort` equal to its position and the new question id; any
      other type inserts no choice row. */
  lemma CreateQuestionChoices(db: Db, q: QuestionInput, now: int)
    requires forall c :: c in db.choices ==> c.questionId < db.nextId
    requires CreateQuestion(db, q, now).Ok?
    ensures var db' := CreateQuestion(db, q, now).value;
      var id := db.nextId;
      && (q.qtype == CHOICE ==>
            |ChoicesOf(db'.choices, id)| == |q.choices.value|
            && forall i :: 0 <= i < |q.choices.value| ==>
                 var c := ChoicesOf(db'.choices, id)[i];
                 c.sort == i && c.questionId == id && c.content == q.choices.value[i].content
                 && (c.isCorrect <==> q.choices.value[i].isCorrect == Some(true)))
      && (q.qtype != CHOICE ==> ChoicesOf(db'.choices, id) == [])
  {
    var db' := CreatedDb(db, q, now);
    var id := db.nextId;
    ChoicesOfNone(db.choices, id);
    if q.qtype == CHOICE {
      var rows := ChoiceRows(q.choices.value, id, id + 1);
      assert db'.choices == db.choices + rows;
      ChoicesOfAppend(db.choices, rows, id);
      ChoicesOfOwn(rows, id);
    } else {
      assert db'.choices == db.choices;
    }
  }

  lemma FindAppendFresh(qs: seq<Question>, row: Question)
    requires forall q :: q in qs ==> q.id < row.id
    ensures FindQuestion(qs, row.id).None?
    ensures FindQuestion(qs + [row], row.id) == Some(row)
  {
    if |qs| > 0 {
      assert (qs + [row])[1..] == qs[1..] + [row];
      FindAppendFresh(qs[1..], row);
    }
  }

  // ----- update -----

  datatype QuestionUpdate = QuestionUpdate(
    id: nat,
    qtype: string,
    title: string,
    difficulty: string,
    categoryId: nat,
    score: int,
    multi: bool,
    analysis: string,
    /** the supplied answer object; None stands for a null object */
    answer: Option<AnswerInput>,
    /** None stands for a null choice list */
    choices: Option<seq<ChoiceInput>>)

  /** an answer object as the caller supplies it: the id it carries and its
      text, where a null text leaves the stored text alone */
  datatype AnswerInput = AnswerInput(id: nat, text: Option<string>)

  /** another question (a different id) already uses the title, whatever its type */
  predicate TitleTakenByOther(qs: seq<Question>, id: nat, title: string) {
    exists q :: q in qs && q.id != id && q.title == title
  }

  /** `updateById` on the question table: the row with the id takes the new
      fields and keeps its creation time */
  function ReplaceQuestion(qs: seq<Question>, u: QuestionUpdate): (r: seq<Question>)
    ensures |r| == |qs|
    ensures forall i :: 0 <= i < |qs| ==> r[i] == (if qs[i].id == u.id then UpdatedRow(qs[i], u) else qs[i])
  {
    seq(|qs|, i requires 0 <= i < |qs| => if qs[i].id == u.id then UpdatedRow(qs[i], u) else qs[i])
  }

  function UpdatedRow(prior: Question, u: QuestionUpdate): Question {
    Question(u.id, u.qtype, u.title, u.difficulty, u.categoryId, u.score, u.multi, u.analysis, prior.createTime)
  }

  /** `updateById` on the answer table: a null text changes nothing, and an
      id that matches no row updates nothing */
  function SetAnswerText(ans: seq<AnswerRow>, answerId: nat, text: Option<string>): (r: seq<AnswerRow>)
    ensures |r| == |ans|
    ensures forall i :: 0 <= i < |ans| ==> r[i].id == ans[i].id && r[i].questionId == ans[i].questionId
    ensures forall i :: 0 <= i < |ans| ==>
      r[i].text == (if ans[i].id == answerId && text.Some? then text.value else ans[i].text)
  {
    seq(|ans|, i requires 0 <= i < |ans| =>
      if ans[i].id == answerId && text.Some? then ans[i].(text := text.value) else ans[i])
  }

  /** `customUpdateQuestion`: replace-not-merge for a choice question's rows.
      A null answer object, a null choice list of a CHOICE update and a null
      `isCorrect` each fail with a null dereference and roll back. */
  function UpdateQuestion(db: Db, u: QuestionUpdate): (r: Result<Db>)
    ensures TitleTakenByOther(db.questions, u.id, u.title) ==> r == Err(DuplicateTitle(u.id, u.title))
    ensures !TitleTakenByOther(db.questions, u.id, u.title) && FindQuestion(db.questions, u.id).None? ==> r == Err(RowNotChanged(u.id))
    ensures r.Err? && !TitleTakenByOther(db.questions, u.id, u.title) && FindQuestion(db.questions, u.id).Some? ==>
      r == Err(NullReference)
    ensures r.Ok? <==>
      && !TitleTakenByOther(db.questions, u.id, u.title)
      && FindQuestion(db.questions, u.id).Some?
      && u.answer.Some?
      && (u.qtype == CHOICE ==> u.choices.Some? && AllFlagsSet(u.choices.value))
    ensures r.Ok? ==> r.value.links == db.links && r.value.papers == db.papers && r.value.categories == db.categories
    ensures r.Ok? ==> r.value.questions == ReplaceQuestion(db.questions, u)
    ensures r.Ok? && u.qtype != CHOICE ==>
      r.value.choices == db.choices && r.value.nextId == db.nextId
      && r.value.answers == SetAnswerText(db.answers, u.answer.value.id, u.answer.value.text)
    ensures r.Ok? && u.qtype == CHOICE ==>
      r.value.answers == SetAnswerText(db.answers, u.answer.value.id, Some(AnswerLetters(Flags(u.choices.value))))
  {
    if TitleTakenByOther(db.questions, u.id, u.title) then Err(DuplicateTitle(u.id, u.title))
    else if FindQuestion(db.questions, u.id).None? then Err(RowNotChanged(u.id))
    else if u.answer.None? then Err(NullReference)
    else
      var qs := ReplaceQuestion(db.questions, u);
      if u.qtype == CHOICE then
        if u.choices.None? || !AllFlagsSet(u.choices.value) then Err(NullReference)
        else
          var rows := ChoiceRows(u.choices.value, u.id, db.nextId);
          Ok(db.(questions := qs,
                 choices := DropChoicesOf(db.choices, u.id) + rows,
                 answers := SetAnswerText(db.answers, u.answer.value.id, Some(AnswerLetters(Flags(u.choices.value)))),
                 nextId := db.nextId + |rows|))
      else
        Ok(db.(questions := qs, answers := SetAnswerText(db.answers, u.answer.value.id, u.answer.value.text)))
  }

  /** In a store with unique question ids, a successful update leaves the
      question with the updated fields under its id (creation time kept), and
      every other question row as it was. */
  lemma UpdateQuestionRow(db: Db, u: QuestionUpdate)
    requires Valid(db)
    requires UpdateQuestion(db, u).Ok?
    ensures var prior := FindQuestion(db.questions, u.id).value;
      FindQuestion(UpdateQuestion(db, u).value.questions, u.id) == Some(UpdatedRow(prior, u))
    ensures forall q :: q in db.questions && q.id != u.id ==> q in UpdateQuestion(db, u).value.questions
    ensures forall q :: q in UpdateQuestion(db, u).value.questions ==> q.id == u.id || q in db.questions
  {
    var prior := FindQuestion(db.questions, u.id).value;
    var qs := UpdateQuestion(db, u).value.questions;
    assert qs == ReplaceQuestion(db.questions, u);
    var i :| 0 <= i < |db.questions| && db.questions[i] == prior;
    forall j | 0 <= j < |db.questions| && db.questions[j].id == u.id ensures j == i {
    }
    assert qs[i] == UpdatedRow(prior, u);
    forall j | 0 <= j < i ensures qs[j].id != u.id {
      assert db.questions[j].id != u.id;
    }
    FindFirst(qs, u.id, i);
    forall q | q in db.questions && q.id != u.id ensures q in qs {
      var j :| 0 <= j < |db.questions| && db.questions[j] == q;
      assert qs[j] == q;
    }
    forall q | q in qs ensures q.id == u.id || q in db.questions {
      var j :| 0 <= j < |qs| && qs[j] == q;
    }
  }

  /** lookup finds the first row with the id */
  lemma {:induction false} FindFirst(qs: seq<Question>, id: nat, i: nat)
    requires i < |qs| && qs[i].id == id
    requires forall j :: 0 <= j < i ==> qs[j].id != id
    ensures FindQuestion(qs, id) == Some(qs[i])
  {
    if i > 0 {
      FindFirst(qs[1..], id, i - 1);
    }
  }

  /** After a successful CHOICE update the question's choice rows are exactly
      the supplied list, in order, under ids at or above the counter, with
      `sort` equal to position. */
  lemma UpdateChoiceRows(db: Db, u: QuestionUpdate)
    requires UpdateQuestion(db, u).Ok? && u.qtype == CHOICE
    ensures var db' := UpdateQuestion(db, u).value;
      && |ChoicesOf(db'.choices, u.id)| == |u.choices.value|
      && (forall i :: 0 <= i < |u.choices.value| ==>
            var c := ChoicesOf(db'.choices, u.id)[i];
            && c.sort == i && c.questionId == u.id && c.content == u.choices.value[i].content
            && (c.isCorrect <==> u.choices.value[i].isCorrect == Some(true))
            && c.id >= db.nextId)
  {
    UpdatedChoicesAre(db, u);
  }

  lemma UpdatedChoicesAre(db: Db, u: QuestionUpdate)
    requires UpdateQuestion(db, u).Ok? && u.qtype == CHOICE
    ensures ChoicesOf(UpdateQuestion(db, u).value.choices, u.id) == ChoiceRows(u.choices.value, u.id, db.nextId)
  {
    var rows := ChoiceRows(u.choices.value, u.id, db.nextId);
    var kept := DropChoicesOf(db.choices, u.id);
    assert UpdateQuestion(db, u).value.choices == kept + rows;
    ChoicesOfAppend(kept, rows, u.id);
    DropChoicesOfMembers(db.choices, u.id);
    ChoicesOfNone(kept, u.id);
    ChoicesOfOwn(rows, u.id);
  }

  /** Replace, not merge: in a valid store no choice row the question had
      before a successful CHOICE update survives it. */
  lemma UpdateDropsOldChoices(db: Db, u: QuestionUpdate)
    requires Valid(db)
    requires UpdateQuestion(db, u).Ok? && u.qtype == CHOICE
    ensures forall c :: c in db.choices && c.questionId == u.id ==> c !in UpdateQuestion(db, u).value.choices
  {
    var rows := ChoiceRows(u.choices.value, u.id, db.nextId);
    var kept := DropChoicesOf(db.choices, u.id);
    assert UpdateQuestion(db, u).value.choices == kept + rows;
    DropChoicesOfMembers(db.choices, u.id);
    OldChoicesGone(db.choices, kept, rows, u.id, db.nextId);
  }

  /** Rows of the question that were below the counter are neither kept nor
      among the fresh rows. */
  lemma OldChoicesGone(cs: seq<ChoiceRow>, kept: seq<ChoiceRow>, rows: seq<ChoiceRow>, qid: nat, next: nat)
    requires forall c :: c in cs ==> c.id < next
    requires forall c :: c in kept ==> c.questionId != qid
    requires forall i :: 0 <= i < |rows| ==> rows[i].id >= next
    ensures forall c :: c in cs && c.questionId == qid ==> c !in kept + rows
  {
    forall c | c in cs && c.questionId == qid ensures c !in kept + rows {
      assert forall i :: 0 <= i < |rows| ==> rows[i] != c;
    }
  }

  /** A CHOICE update leaves the choice rows of every other question as they
      were, and the answer row the caller named carries the re-derived letters. */
  lemma UpdateChoiceFrame(db: Db, u: QuestionUpdate)
    requires UpdateQuestion(db, u).Ok? && u.qtype == CHOICE
    ensures var db' := UpdateQuestion(db, u).value;
      && (forall other :: other != u.id ==> ChoicesOf(db'.choices, other) == ChoicesOf(db.choices, other))
      && (forall a :: a in db'.answers && a.id == u.answer.value.id ==> a.text == AnswerLetters(Flags(u.choices.value)))
  {
    var db' := UpdateQuestion(db, u).value;
    var rows := ChoiceRows(u.choices.value, u.id, db.nextId);
    var kept := DropChoicesOf(db.choices, u.id);
    assert db'.choices == kept + rows;
    forall other | other != u.id ensures ChoicesOf(db'.choices, other) == ChoicesOf(db.choices, other) {
      ChoicesOfAppend(kept, rows, other);
      ChoicesOfNone(rows, other);
      DropKeepsOthers(db.choices, u.id, other);
    }
    forall a | a in db'.answers && a.id == u.answer.value.id ensures a.text == AnswerLetters(Flags(u.choices.value)) {
      var i :| 0 <= i < |db'.answers| && db'.answers[i] == a;
    }
  }

  lemma {:induction false} DropKeepsOthers(cs: seq<ChoiceRow>, qid: nat, other: nat)
    requires other != qid
    ensures ChoicesOf(DropChoicesOf(cs, qid), other) == ChoicesOf(cs, other)
  {
    if |cs| > 0 {
      DropKeepsOthers(cs[..|cs| - 1], qid, other);
      var d0 := DropChoicesOf(cs[..|cs| - 1], qid);
      var last := cs[|cs| - 1];
      if last.questionId != qid {
        assert DropChoicesOf(cs, qid) == d0 + [last];
        assert (d0 + [last])[..|d0|] == d0;
      } else {
        assert DropChoicesOf(cs, qid) == d0;
      }
    }
  }

  lemma UpdateExamples()
    ensures AnswerLetters(Flags([ChoiceInput("X", Some(true)), ChoiceInput("Y", Some(false))])) == "A"
  {
    assert Flags([ChoiceInput("X", Some(true)), ChoiceInput("Y", Some(false))]) == [true, false];
  }

  // ----- delete -----

  /** `customRemoveQuestionById`: refused while any paper links the question;
      otherwise the question, its answers and its choices go. */
  function DeleteQuestion(db: Db, id: nat): (r: Result<Db>)
    ensures LinksTo(db.links, id) > 0 ==> r == Err(Referenced(id, LinksTo(db.links, id)))
    ensures LinksTo(db.links, id) == 0 && FindQuestion(db.questions, id).None? ==> r == Err(RowNotChanged(id))
    ensures r.Ok? <==> LinksTo(db.links, id) == 0 && FindQuestion(db.questions, id).Some?
    ensures r.Ok? ==>
      && (forall q :: q in r.value.questions <==> q in db.questions && q.id != id)
      && (forall c :: c in r.value.choices <==> c in db.choices && c.questionId != id)
      && (forall a :: a in r.value.answers <==> a in db.answers && a.questionId != id)
      && r.value.links == db.links && r.value.papers == db.papers
      && r.value.categories == db.categories && r.value.nextId == db.nextId
  {
    DropQuestionMembers(db.questions, id);
    DropAnswersOfMembers(db.answers, id);
    DropChoicesOfMembers(db.choices, id);
    var n := LinksTo(db.links, id);
    if n > 0 then Err(Referenced(id, n))
    else if FindQuestion(db.questions, id).None? then Err(RowNotChanged(id))
    else Ok(db.(questions := DropQuestion(db.questions, id),
                answers := DropAnswersOf(db.answers, id),
                choices := DropChoicesOf(db.choices, id)))
  }

  // ----- hydration -----

  /** a question with its answer (null when none) and, for CHOICE, its choices */
  datatype Hydrated = Hydrated(question: Question, answer: Option<AnswerRow>, choices: Option<seq<ChoiceRow>>)

  /** `Collectors.toMap` over the fetched answers throws on a repeated question id */
  predicate AnswerKeyRepeats(ans: seq<AnswerRow>, qs: seq<Question>) {
    exists q :: q in qs && |AnswersOf(ans, q.id)| > 1
  }

  function SortKey(c: ChoiceRow): int { c.sort }

  function Attach(db: Db, q: Question): (h: Hydrated)
    ensures h.question == q
  {
    var ans := AnswersOf(db.answers, q.id);
    Hydrated(q,
             if |ans| == 0 then None else Some(ans[0]),
             if q.qtype == CHOICE then Some(SortBy(ChoicesOf(db.choices, q.id), SortKey)) else None)
  }

  /** `fillQuestionChoiceAndAnswer` as written: a CHOICE question with no
      choice row finds no group, and sorting the missing list throws. */
  function HydrateAsWritten(db: Db, qs: seq<Question>): (r: Result<seq<Hydrated>>)
    ensures |qs| == 0 ==> r == Ok([])
    ensures r.Ok? ==> |r.value| == |qs|
  {
    if |qs| == 0 then Ok([])
    else if AnswerKeyRepeats(db.answers, qs) then Err(DuplicateKey)
    else if exists q :: q in qs && q.qtype == CHOICE && ChoicesOf(db.choices, q.id) == [] then Err(NullReference)
    else Ok(seq(|qs|, i requires 0 <= i < |qs| => Attach(db, qs[i])))
  }

  /** Batched hydration as intended: a choice question without rows gets an
      empty list. Every question keeps its place, gets the answer row keyed by
      its id (none when there is none) and, for CHOICE, a permutation of its
      own choice rows in ascending `sort` order. */
  function Hydrate(db: Db, qs: seq<Question>): (r: Result<seq<Hydrated>>)
    ensures |qs| == 0 ==> r == Ok([])
    ensures r.Err? <==> AnswerKeyRepeats(db.answers, qs)
    ensures r.Err? ==> r.error == DuplicateKey
    ensures r.Ok? ==> |r.value| == |qs| && forall i :: 0 <= i < |qs| ==>
      var h := r.value[i];
      && h.question == qs[i]
      && (h.answer.Some? ==> h.answer.value in db.answers && h.answer.value.questionId == qs[i].id)
      && (h.answer.None? <==> forall a :: a in db.answers ==> a.questionId != qs[i].id)
      && (h.choices.Some? <==> qs[i].qtype == CHOICE)
      && (h.choices.Some? ==>
            && SortedBy(h.choices.value, SortKey)
            && multiset(h.choices.value) == multiset(ChoicesOf(db.choices, qs[i].id)))
  {
    if |qs| == 0 then Ok([])
    else if AnswerKeyRepeats(db.answers, qs) then Err(DuplicateKey)
    else
      var hs := seq(|qs|, i requires 0 <= i < |qs| => Attach(db, qs[i]));
      assert forall i :: 0 <= i < |qs| ==> hs[i] == Attach(db, qs[i]);
      forall i | 0 <= i < |qs| ensures AttachFacts(db, qs[i]) { AttachCorrect(db, qs[i]); }
      Ok(hs)
  }

  ghost predicate AttachFacts(db: Db, q: Question) {
    var h := Attach(db, q);
    && (h.answer.Some? ==> h.answer.value in db.answers && h.answer.value.questionId == q.id)
    && (h.answer.None? <==> forall a :: a in db.answers ==> a.questionId != q.id)
    && (h.choices.Some? <==> q.qtype == CHOICE)
    && (h.choices.Some? ==>
          && SortedBy(h.choices.value, SortKey)
          && multiset(h.choices.value) == multiset(ChoicesOf(db.choices, q.id)))
  }

  lemma AttachCorrect(db: Db, q: Question)
    ensures AttachFacts(db, q)
  {
    SortByCorrect(ChoicesOf(db.choices, q.id), SortKey);
    var ans := AnswersOf(db.answers, q.id);
    AnswersOfMembers(db.answers, q.id);
    if |ans| > 0 { assert ans[0] in ans; }
  }

  /** Where the as-written hydration succeeds it agrees with `Hydrate`; it
      fails only where a CHOICE question has no choice row. */
  lemma HydrateAgreesWhenChoicesPresent(db: Db, qs: seq<Question>)
    ensures HydrateAsWritten(db, qs).Ok? ==> HydrateAsWritten(db, qs) == Hydrate(db, qs)
    ensures HydrateAsWritten(db, qs).Err? && Hydrate(db, qs).Ok? ==>
      HydrateAsWritten(db, qs) == Err(NullReference)
      && exists q :: q in qs && q.qtype == CHOICE && ChoicesOf(db.choices, q.id) == []
  {
  }

  /** The discrepancy: `customSaveQuestion` accepts a CHOICE question with an
      empty choice list, and the as-written hydration of that question then
      fails, where the intended one returns it with no choices. */
  lemma EmptyChoiceQuestionBreaksHydration()
    ensures var q := QuestionInput(CHOICE, "t", "EASY", 1, 5, false, "", Some(""), Some([]));
      var empty := Db([], [], [], [], [], [], 1);
      var created := CreateQuestion(empty, q, 0);
      && created.Ok?
      && var row := created.value.questions[0];
         && HydrateAsWritten(created.value, [row]) == Err(NullReference)
         && Hydrate(created.value, [row]).Ok?
         && Hydrate(created.value, [row]).value[0].choices == Some([])
  {
    var q := QuestionInput(CHOICE, "t", "EASY", 1, 5, false, "", Some(""), Some([]));
    var empty := Db([], [], [], [], [], [], 1);
    var created := CreateQuestion(empty, q, 0);
    assert !TypeTitleTaken(empty.questions, q.qtype, q.title);
    assert q.answer.Some? && q.choices.Some? && AllFlagsSet(q.choices.value);
    assert created == Ok(CreatedDb(empty, q, 0));
    var db := created.value;
    var row := db.questions[0];
    assert row.id == 1 && row.qtype == CHOICE;
    assert db.choices == [];
    assert db.answers == [AnswerRow(2, 1, "")];
    assert AnswersOf(db.answers, 1) == [AnswerRow(2, 1, "")];
    assert !AnswerKeyRepeats(db.answers, [row]);
    assert ChoicesOf(db.choices, row.id) == [];
  }

  // ----- detail -----

  /** `customDetailQuestion`: the hydrated question, or NotFound for an id that
      does not resolve. The background popularity increment it starts is
      modelled separately (`Popular.RecordView`). */
  function DetailQuestion(db: Db, id: nat): (r: Result<Hydrated>)
    ensures FindQuestion(db.questions, id).None? <==> r == Err(NotFound(id))
    ensures FindQuestion(db.questions, id).Some? ==>
      (r.Ok? <==> !AnswerKeyRepeats(db.answers, [FindQuestion(db.questions, id).value]))
    ensures r.Err? ==> r == Err(NotFound(id)) || r == Err(DuplicateKey)
    ensures r.Ok? ==> r.value.question == FindQuestion(db.questions, id).value
    ensures r.Ok? ==> r.value.question.id == id && r.value.question in db.questions
    ensures r.Ok? ==> (r.value.choices.Some? <==> r.value.question.qtype == CHOICE)
    ensures r.Ok? && r.value.answer.Some? ==>
      r.value.answer.value in db.answers && r.value.answer.value.questionId == id
    ensures r.Ok? ==> (r.value.answer.None? <==> forall a :: a in db.answers ==> a.questionId != id)
    ensures r.Ok? && r.value.choices.Some? ==>
      && SortedBy(r.value.choices.value, SortKey)
      && multiset(r.value.choices.value) == multiset(ChoicesOf(db.choices, id))
  {
    match FindQuestion(db.questions, id)
    case None => Err(NotFound(id))
    case Some(q) =>
      match Hydrate(db, [q])
      case Ok(hs) => Ok(hs[0])
      case Err(e) => Err(e)
  }
}
