/** The rows of the exam bank and the store that holds them.
    Each table is a sequence in primary-key order (the order a full-table
    read returns); ids come from one auto-increment counter. */
module Store {
  import opened Base

  const CHOICE: string := "CHOICE"
  const JUDGE: string := "JUDGE"
  const TEXT: string := "TEXT"

  /** a row of the question table; `qtype` is free text, as in the source */
  datatype Question = Question(
    id: nat,
    qtype: string,
    title: string,
    difficulty: string,
    categoryId: nat,
    score: int,
    multi: bool,
    analysis: string,
    createTime: int)

  /** a row of the choice table; `sort` fixes the displayed letter */
  datatype ChoiceRow = ChoiceRow(id: nat, questionId: nat, content: string, isCorrect: bool, sort: int)

  /** a row of the answer table */
  datatype AnswerRow = AnswerRow(id: nat, questionId: nat, text: string)

  /** a row of the paper-question link table */
  datatype PaperQuestion = PaperQuestion(paperId: nat, questionId: nat, score: int)

  datatype Paper = Paper(
    id: nat,
    name: string,
    description: string,
    duration: int,
    status: string,
    questionCount: nat,
    totalScore: int)

  datatype Category = Category(id: nat, name: string, parentId: nat, sort: int)

  datatype Db = Db(
    questions: seq<Question>,
    choices: seq<ChoiceRow>,
    answers: seq<AnswerRow>,
    links: seq<PaperQuestion>,
    papers: seq<Paper>,
    categories: seq<Category>,
    nextId: nat)

  /** Ids are unique in every table and below the counter, and so is every
      question id a choice or answer row carries. */
  ghost predicate Valid(db: Db) {
    && (forall i, j :: 0 <= i < j < |db.questions| ==> db.questions[i].id != db.questions[j].id)
    && (forall i, j :: 0 <= i < j < |db.choices| ==> db.choices[i].id != db.choices[j].id)
    && (forall i, j :: 0 <= i < j < |db.answers| ==> db.answers[i].id != db.answers[j].id)
    && (forall i, j :: 0 <= i < j < |db.papers| ==> db.papers[i].id != db.papers[j].id)
    && (forall i, j :: 0 <= i < j < |db.categories| ==> db.categories[i].id != db.categories[j].id)
    && (forall q :: q in db.questions ==> q.id < db.nextId)
    && (forall c :: c in db.choices ==> c.id < db.nextId && c.questionId < db.nextId)
    && (forall a :: a in db.answers ==> a.id < db.nextId && a.questionId < db.nextId)
    && (forall p :: p in db.papers ==> p.id < db.nextId)
    && (forall c :: c in db.categories ==> c.id < db.nextId)
  }

  /** `getById` on the question table */
  function FindQuestion(qs: seq<Question>, id: nat): (r: Option<Question>)
    ensures r.Some? ==> r.value in qs && r.value.id == id
    ensures r.None? <==> forall q :: q in qs ==> q.id != id
  {
    if |qs| == 0 then None
    else if qs[0].id == id then Some(qs[0])
    else FindQuestion(qs[1..], id)
  }

  function FindPaper(ps: seq<Paper>, id: nat): (r: Option<Paper>)
    ensures r.Some? ==> r.value in ps && r.value.id == id
    ensures r.None? <==> forall p :: p in ps ==> p.id != id
  {
    if |ps| == 0 then None
    else if ps[0].id == id then Some(ps[0])
    else FindPaper(ps[1..], id)
  }

  function FindCategory(cs: seq<Category>, id: nat): (r: Option<Category>)
    ensures r.Some? ==> r.value in cs && r.value.id == id
    ensures r.None? <==> forall c :: c in cs ==> c.id != id
  {
    if |cs| == 0 then None
    else if cs[0].id == id then Some(cs[0])
    else FindCategory(cs[1..], id)
  }

  /** the choice rows of one question, in table order */
  function ChoicesOf(cs: seq<ChoiceRow>, qid: nat): (r: seq<ChoiceRow>)
    ensures |r| <= |cs|
  {
    if |cs| == 0 then []
    else ChoicesOf(cs[..|cs| - 1], qid) + (if cs[|cs| - 1].questionId == qid then [cs[|cs| - 1]] else [])
  }

  /** the table less the choice rows of one question */
  function DropChoicesOf(cs: seq<ChoiceRow>, qid: nat): (r: seq<ChoiceRow>)
    ensures |r| <= |cs|
  {
    if |cs| == 0 then []
    else DropChoicesOf(cs[..|cs| - 1], qid) + (if cs[|cs| - 1].questionId != qid then [cs[|cs| - 1]] else [])
  }

  /** the answer rows of one question, in table order */
  function AnswersOf(ans: seq<AnswerRow>, qid: nat): (r: seq<AnswerRow>)
    ensures |r| <= |ans|
  {
    if |ans| == 0 then []
    else AnswersOf(ans[..|ans| - 1], qid) + (if ans[|ans| - 1].questionId == qid then [ans[|ans| - 1]] else [])
  }

  function DropAnswersOf(ans: seq<AnswerRow>, qid: nat): (r: seq<AnswerRow>)
    ensures |r| <= |ans|
  {
    if |ans| == 0 then []
    else DropAnswersOf(ans[..|ans| - 1], qid) + (if ans[|ans| - 1].questionId != qid then [ans[|ans| - 1]] else [])
  }

  function DropQuestion(qs: seq<Question>, id: nat): (r: seq<Question>)
    ensures |r| <= |qs|
  {
    if |qs| == 0 then []
    else DropQuestion(qs[..|qs| - 1], id) + (if qs[|qs| - 1].id != id then [qs[|qs| - 1]] else [])
  }

  /** `ChoicesOf` keeps exactly the rows of the question. */
  lemma {:induction false} ChoicesOfMembers(cs: seq<ChoiceRow>, qid: nat)
    ensures forall c :: c in ChoicesOf(cs, qid) <==> c in cs && c.questionId == qid
  {
    if |cs| > 0 {
      ChoicesOfMembers(cs[..|cs| - 1], qid);
      assert cs == cs[..|cs| - 1] + [cs[|cs| - 1]];
    }
  }

  /** `DropChoicesOf` keeps exactly the rows of other questions. */
  lemma {:induction false} DropChoicesOfMembers(cs: seq<ChoiceRow>, qid: nat)
    ensures forall c :: c in DropChoicesOf(cs, qid) <==> c in cs && c.questionId != qid
  {
    if |cs| > 0 {
      DropChoicesOfMembers(cs[..|cs| - 1], qid);
      assert cs == cs[..|cs| - 1] + [cs[|cs| - 1]];
    }
  }

  lemma {:induction false} AnswersOfMembers(ans: seq<AnswerRow>, qid: nat)
    ensures forall a :: a in AnswersOf(ans, qid) <==> a in ans && a.questionId == qid
  {
    if |ans| > 0 {
      AnswersOfMembers(ans[..|ans| - 1], qid);
      assert ans == ans[..|ans| - 1] + [ans[|ans| - 1]];
    }
  }

  lemma {:induction false} DropAnswersOfMembers(ans: seq<AnswerRow>, qid: nat)
    ensures forall a :: a in DropAnswersOf(ans, qid) <==> a in ans && a.questionId != qid
  {
    if |ans| > 0 {
      DropAnswersOfMembers(ans[..|ans| - 1], qid);
      assert ans == ans[..|ans| - 1] + [ans[|ans| - 1]];
    }
  }

  lemma {:induction false} DropQuestionMembers(qs: seq<Question>, id: nat)
    ensures forall q :: q in DropQuestion(qs, id) <==> q in qs && q.id != id
  {
    if |qs| > 0 {
      DropQuestionMembers(qs[..|qs| - 1], id);
      assert qs == qs[..|qs| - 1] + [qs[|qs| - 1]];
    }
  }

  /** `selectCount` of the links that reference a question */
  function LinksTo(links: seq<PaperQuestion>, qid: nat): (n: nat)
    ensures n == 0 <==> forall l :: l in links ==> l.questionId != qid
    ensures n <= |links|
  {
    if |links| == 0 then 0
    else LinksTo(links[..|links| - 1], qid) + (if links[|links| - 1].questionId == qid then 1 else 0)
  }
}
