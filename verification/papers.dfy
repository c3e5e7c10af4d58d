/** Paper composition: a paper built from a selection of questions with
    their scores, and the detail view that lists a paper's questions grouped
    by type. */
module Papers {
  import opened Base
  import opened Store
  import opened StableSort

  const DRAFT: string := "DRAFT"

  /** one entry of the selection map: question id to the score it carries */
  datatype Entry = Entry(questionId: nat, score: int)

  /** the creation request; `entries` lists the selection map in its
      iteration order, and an absent map is the empty list */
  datatype PaperInput = PaperInput(name: string, description: string, duration: int, entries: seq<Entry>)

  /** a map has one entry per key */
  predicate KeysDistinct(es: seq<Entry>) {
    forall i, j :: 0 <= i < j < |es| ==> es[i].questionId != es[j].questionId
  }

  /** the sum of the scores, starting from zero */
  function Total(es: seq<Entry>): int {
    if |es| == 0 then 0 else Total(es[..|es| - 1]) + es[|es| - 1].score
  }

  /** one link row per entry, in entry order */
  function LinkRows(pid: nat, es: seq<Entry>): (r: seq<PaperQuestion>)
    ensures |r| == |es|
    ensures forall i :: 0 <= i < |es| ==> r[i] == PaperQuestion(pid, es[i].questionId, es[i].score)
  {
    if |es| == 0 then [] else LinkRows(pid, es[..|es| - 1]) + [PaperQuestion(pid, es[|es| - 1].questionId, es[|es| - 1].score)]
  }

  datatype Created = Created(db: Db, paper: Paper)

  /** `customCreatePaper`: the paper takes the next id; an empty selection
      saves a paper with no questions and no links */
  function CreatePaper(db: Db, p: PaperInput): (r: Created)
    requires KeysDistinct(p.entries)
    ensures r.paper.status == DRAFT
    ensures r.paper.id == db.nextId && r.db.nextId == db.nextId + 1
    ensures r.db.papers == db.papers + [r.paper]
    ensures r.paper.questionCount == |p.entries|
    ensures |r.db.links| == |db.links| + |p.entries| && r.db.links[..|db.links|] == db.links
    ensures r.db.questions == db.questions && r.db.choices == db.choices && r.db.answers == db.answers
    ensures r.db.categories == db.categories
  {
    var id := db.nextId;
    if |p.entries| == 0 then
      var paper := Paper(id, p.name, p.description, p.duration, DRAFT, 0, 0);
      Created(db.(papers := db.papers + [paper], nextId := id + 1), paper)
    else
      var paper := Paper(id, p.name, p.description, p.duration, DRAFT, |p.entries|, Total(p.entries));
      var links := LinkRows(id, p.entries);
      assert (db.links + links)[..|db.links|] == db.links;
      Created(db.(papers := db.papers + [paper], links := db.links + links, nextId := id + 1), paper)
  }

  /** The total is the sum of the selection, whatever order the map yields
      its entries in. */
  lemma CreatePaperTotal(db: Db, p: PaperInput, order: seq<Entry>)
    requires KeysDistinct(p.entries)
    requires multiset(order) == multiset(p.entries)
    ensures CreatePaper(db, p).paper.totalScore == Total(order)
  {
    TotalPermutation(p.entries, order);
  }

  /** An empty selection yields no score and no link rows. */
  lemma CreatePaperEmpty(db: Db, p: PaperInput)
    requires p.entries == []
    ensures CreatePaper(db, p).paper.questionCount == 0
    ensures CreatePaper(db, p).paper.totalScore == 0
    ensures CreatePaper(db, p).db.links == db.links
  {
  }

  /** A non-empty selection appends exactly its link rows. */
  lemma CreatePaperAppends(db: Db, p: PaperInput)
    requires KeysDistinct(p.entries)
    ensures CreatePaper(db, p).db.links == db.links + LinkRows(db.nextId, p.entries)
  {
  }

  /** The new link rows of the paper are one per selection entry: an entry's
      question is linked with the entry's score, and nothing else is linked
      to the new paper. */
  lemma CreatePaperLinks(db: Db, p: PaperInput)
    requires KeysDistinct(p.entries)
    requires forall l :: l in db.links ==> l.paperId != db.nextId
    ensures forall e :: e in p.entries ==> PaperQuestion(db.nextId, e.questionId, e.score) in CreatePaper(db, p).db.links
    ensures forall l :: l in CreatePaper(db, p).db.links && l.paperId == db.nextId ==> Entry(l.questionId, l.score) in p.entries
  {
    CreatePaperAppends(db, p);
    NewLinks(db.links, db.nextId, p.entries);
  }

  lemma NewLinks(old_: seq<PaperQuestion>, pid: nat, es: seq<Entry>)
    requires forall l :: l in old_ ==> l.paperId != pid
    ensures forall e :: e in es ==> PaperQuestion(pid, e.questionId, e.score) in old_ + LinkRows(pid, es)
    ensures forall l :: l in old_ + LinkRows(pid, es) && l.paperId == pid ==> Entry(l.questionId, l.score) in es
  {
    var rows := LinkRows(pid, es);
    forall e | e in es
      ensures PaperQuestion(pid, e.questionId, e.score) in old_ + rows
    {
      var i :| 0 <= i < |es| && es[i] == e;
      assert rows[i] in old_ + rows;
    }
    forall l | l in old_ + rows && l.paperId == pid
      ensures Entry(l.questionId, l.score) in es
    {
      var i :| 0 <= i < |rows| && rows[i] == l;
      assert es[i] == Entry(l.questionId, l.score);
    }
  }

  /** Each selected question is linked to the new paper exactly once. */
  lemma CreatePaperLinksOnce(db: Db, p: PaperInput)
    requires KeysDistinct(p.entries)
    requires forall l :: l in db.links ==> l.paperId != db.nextId
    ensures forall e :: e in p.entries ==> LinksTo(PaperLinks(CreatePaper(db, p).db.links, db.nextId), e.questionId) == 1
  {
    CreatePaperAppends(db, p);
    LinkedOnce(db.links, db.nextId, p.entries);
  }

  lemma LinkedOnce(old_: seq<PaperQuestion>, pid: nat, es: seq<Entry>)
    requires KeysDistinct(es)
    requires forall l :: l in old_ ==> l.paperId != pid
    ensures forall e :: e in es ==> LinksTo(PaperLinks(old_ + LinkRows(pid, es), pid), e.questionId) == 1
  {
    var rows := LinkRows(pid, es);
    PaperLinksAppend(old_, rows, pid);
    PaperLinksOther(old_, pid);
    PaperLinksOwn(rows, pid);
    assert PaperLinks(old_ + rows, pid) == rows;
    forall e | e in es
      ensures LinksTo(rows, e.questionId) == 1
    {
      var i :| 0 <= i < |es| && es[i] == e;
      LinkRowsCount(pid, es, i);
    }
  }

  /** the link rows of one paper, in table order */
  function PaperLinks(links: seq<PaperQuestion>, pid: nat): (r: seq<PaperQuestion>)
    ensures |r| <= |links|
  {
    if |links| == 0 then []
    else PaperLinks(links[..|links| - 1], pid) + (if links[|links| - 1].paperId == pid then [links[|links| - 1]] else [])
  }

  lemma {:induction false} PaperLinksAppend(a: seq<PaperQuestion>, b: seq<PaperQuestion>, pid: nat)
    ensures PaperLinks(a + b, pid) == PaperLinks(a, pid) + PaperLinks(b, pid)
  {
    if |b| > 0 {
      PaperLinksAppend(a, b[..|b| - 1], pid);
      assert (a + b)[..|a + b| - 1] == a + b[..|b| - 1];
    } else {
      assert a + b == a;
    }
  }

  lemma {:induction false} PaperLinksOther(links: seq<PaperQuestion>, pid: nat)
    requires forall l :: l in links ==> l.paperId != pid
    ensures PaperLinks(links, pid) == []
  {
    if |links| > 0 {
      assert links[..|links| - 1] <= links;
      PaperLinksOther(links[..|links| - 1], pid);
    }
  }

  lemma {:induction false} PaperLinksOwn(links: seq<PaperQuestion>, pid: nat)
    requires forall i :: 0 <= i < |links| ==> links[i].paperId == pid
    ensures PaperLinks(links, pid) == links
  {
    if |links| > 0 {
      PaperLinksOwn(links[..|links| - 1], pid);
    }
  }

  /** with distinct keys, entry `i`'s question is linked once */
  lemma {:induction false} LinkRowsCount(pid: nat, es: seq<Entry>, i: nat)
    requires KeysDistinct(es) && i < |es|
    ensures LinksTo(LinkRows(pid, es), es[i].questionId) == 1
  {
    var n := |es| - 1;
    var rows := LinkRows(pid, es);
    assert rows[..n] == LinkRows(pid, es[..n]);
    if i == n {
      assert forall l :: l in LinkRows(pid, es[..n]) ==> l.questionId != es[i].questionId by {
        forall l | l in LinkRows(pid, es[..n])
          ensures l.questionId != es[i].questionId
        {
          var k :| 0 <= k < n && LinkRows(pid, es[..n])[k] == l;
          assert es[..n][k] == es[k];
        }
      }
    } else {
      assert es[..n][i] == es[i];
      LinkRowsCount(pid, es[..n], i);
    }
  }

  /** a sum of the remaining entries after removing position `j` */
  lemma {:induction false} TotalRemove(s: seq<Entry>, j: nat)
    requires j < |s|
    ensures Total(s) == s[j].score + Total(s[..j] + s[j + 1..])
  {
    var n := |s| - 1;
    if j == n {
      assert s[..j] + s[j + 1..] == s[..n];
    } else {
      TotalRemove(s[..n], j);
      assert s[..n][..j] + s[..n][j + 1..] == (s[..j] + s[j + 1..])[..n - 1];
      assert (s[..j] + s[j + 1..])[n - 1] == s[n];
    }
  }

  /** the total depends only on the multiset of entries */
  lemma {:induction false} TotalPermutation(s: seq<Entry>, t: seq<Entry>)
    requires multiset(s) == multiset(t)
    ensures Total(s) == Total(t)
    decreases |s|
  {
    if |s| > 0 {
      var n := |s| - 1;
      assert s[n] in multiset(t) by {
        assert s == s[..n] + [s[n]];
      }
      var j :| 0 <= j < |t| && t[j] == s[n];
      MultisetRemoveLast(s);
      MultisetRemoveAt(t, j);
      TotalPermutation(s[..n], t[..j] + t[j + 1..]);
      TotalRemove(t, j);
    } else {
      assert |t| == 0;
    }
  }

  lemma MultisetRemoveLast<T>(s: seq<T>)
    requires |s| > 0
    ensures multiset(s[..|s| - 1]) == multiset(s) - multiset{s[|s| - 1]}
  {
    assert s == s[..|s| - 1] + [s[|s| - 1]];
  }

  lemma MultisetRemoveAt<T>(t: seq<T>, j: nat)
    requires j < |t|
    ensures multiset(t[..j] + t[j + 1..]) == multiset(t) - multiset{t[j]}
  {
    assert t == t[..j] + [t[j]] + t[j + 1..];
  }

  /** The example selection {10: 5, 11: 3} gives two questions worth 8. */
  lemma CreatePaperExample(db: Db)
    ensures CreatePaper(db, PaperInput("p", "", 60, [Entry(10, 5), Entry(11, 3)])).paper.questionCount == 2
    ensures CreatePaper(db, PaperInput("p", "", 60, [Entry(10, 5), Entry(11, 3)])).paper.totalScore == 8
  {
    var es := [Entry(10, 5), Entry(11, 3)];
    assert es[..1] == [Entry(10, 5)] && es[..1][..0] == [];
    assert Total(es[..1]) == 5;
    assert Total(es) == 8;
  }

  // ----- detail -----

  /** `typeToInt`: the display rank of a question type */
  function TypeRank(t: string): (r: int)
    ensures 1 <= r <= 4
    ensures r == 1 <==> t == CHOICE
    ensures r == 2 <==> t == JUDGE
    ensures r == 3 <==> t == TEXT
  {
    if t == CHOICE then 1 else if t == JUDGE then 2 else if t == TEXT then 3 else 4
  }

  function Rank(q: Question): int { TypeRank(q.qtype) }

  /** the join of a paper's links with the question table, in link order;
      a link whose question is gone contributes nothing */
  function LinkedQuestions(links: seq<PaperQuestion>, qs: seq<Question>, pid: nat): (r: seq<Question>)
    ensures forall q :: q in r ==> q in qs
    ensures |r| <= |links|
  {
    if |links| == 0 then []
    else
      var l := links[|links| - 1];
      LinkedQuestions(links[..|links| - 1], qs, pid)
        + (if l.paperId == pid then (match FindQuestion(qs, l.questionId) case Some(q) => [q] case None => []) else [])
  }

  datatype PaperDetail = PaperDetail(paper: Paper, questions: seq<Question>)

  /** `customPaperDetailById` */
  function DetailPaper(db: Db, id: nat): (r: Result<PaperDetail>)
    ensures r.Err? <==> FindPaper(db.papers, id).None?
    ensures r.Err? ==> r.error == NotFound(id)
    ensures r.Ok? ==> r.value.paper == FindPaper(db.papers, id).value && r.value.paper.id == id
    ensures r.Ok? ==> |r.value.questions| == |LinkedQuestions(db.links, db.questions, id)|
  {
    match FindPaper(db.papers, id)
    case None => Err(NotFound(id))
    case Some(paper) =>
      var joined := LinkedQuestions(db.links, db.questions, id);
      if |joined| == 0 then Ok(PaperDetail(paper, []))
      else Ok(PaperDetail(paper, SortBy(joined, Rank)))
  }

  /** The detail lists the joined questions, rearranged, ordered by type
      rank, with questions of one rank in join order. */
  lemma DetailPaperSorted(db: Db, id: nat)
    requires DetailPaper(db, id).Ok?
    ensures multiset(DetailPaper(db, id).value.questions) == multiset(LinkedQuestions(db.links, db.questions, id))
    ensures SortedBy(DetailPaper(db, id).value.questions, Rank)
    ensures Stable(LinkedQuestions(db.links, db.questions, id), DetailPaper(db, id).value.questions, Rank)
  {
    SortByCorrect(LinkedQuestions(db.links, db.questions, id), Rank);
  }

  /** Read in type terms: choice questions come first, then judgement, then
      text, then any other type. */
  lemma DetailPaperGrouped(db: Db, id: nat)
    requires DetailPaper(db, id).Ok?
    ensures var qs := DetailPaper(db, id).value.questions;
      forall i, j :: 0 <= i < j < |qs| && qs[j].qtype == CHOICE ==> qs[i].qtype == CHOICE
    ensures var qs := DetailPaper(db, id).value.questions;
      forall i, j :: 0 <= i < j < |qs| && qs[j].qtype == JUDGE ==> qs[i].qtype == CHOICE || qs[i].qtype == JUDGE
    ensures var qs := DetailPaper(db, id).value.questions;
      forall i, j :: 0 <= i < j < |qs| && qs[j].qtype == TEXT ==> qs[i].qtype in {CHOICE, JUDGE, TEXT}
  {
    DetailPaperSorted(db, id);
    var qs := DetailPaper(db, id).value.questions;
    assert forall i, j :: 0 <= i < j < |qs| ==> Rank(qs[i]) <= Rank(qs[j]);
  }

  /** A paper with no linked questions shows an empty list, not an error. */
  lemma DetailPaperEmpty(db: Db, id: nat)
    requires FindPaper(db.papers, id).Some?
    requires forall l :: l in db.links ==> l.paperId != id
    ensures DetailPaper(db, id) == Ok(PaperDetail(FindPaper(db.papers, id).value, []))
  {
    LinkedNone(db.links, db.questions, id);
  }

  lemma {:induction false} LinkedNone(links: seq<PaperQuestion>, qs: seq<Question>, pid: nat)
    requires forall l :: l in links ==> l.paperId != pid
    ensures LinkedQuestions(links, qs, pid) == []
  {
    if |links| > 0 {
      assert links[..|links| - 1] <= links;
      LinkedNone(links[..|links| - 1], qs, pid);
    }
  }
}
