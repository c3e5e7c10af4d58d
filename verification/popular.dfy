/** The popular-question list: the ids the ranking cache holds, best score
    first, resolved against the question table with stale ids skipped, then
    topped up with the newest questions the cache does not mention, and the
    whole list hydrated. The cache is a Redis sorted set; it is given here as
    the sequence a reverse range read walks (descending score). */
module Popular {
  import opened Base
  import opened Store
  import opened StableSort
  import Questions

  /** a ranking-cache entry: a question id and its view count (the
      `intValue` of the stored score) */
  datatype ScoredId = ScoredId(member: nat, score: int)

  /** a cache entry whose id resolved, with the row it resolved to */
  datatype Hit = Hit(entry: ScoredId, question: Question)

  function Min(a: int, b: int): int { if a <= b then a else b }

  /** sort key for "higher score first" */
  function ByScoreDesc(e: ScoredId): int { -e.score }

  /** sort key for "newer `createTime` first" */
  function NewestFirst(q: Question): int { -q.createTime }

  /** `ZREVRANGE key 0 stop` on a board listed best first: a negative stop
      counts from the end, and a stop past the end is clamped. */
  function RangeRead(board: seq<ScoredId>, stop: int): (r: seq<ScoredId>)
    ensures |r| <= |board| && r == board[..|r|]
    ensures stop >= 0 ==> |r| == Min(stop + 1, |board|)
    ensures stop == -1 ==> r == board
  {
    var last := if stop < 0 then |board| + stop else stop;
    if last < 0 then [] else board[..Min(last + 1, |board|)]
  }

  function Members(es: seq<ScoredId>): (r: seq<nat>)
    ensures |r| == |es| && forall k :: 0 <= k < |es| ==> r[k] == es[k].member
  {
    seq(|es|, k requires 0 <= k < |es| => es[k].member)
  }

  /** the entries whose id resolves through `getById`, in entry order */
  function Hits(qs: seq<Question>, es: seq<ScoredId>): (r: seq<Hit>)
    ensures |r| <= |es|
    ensures forall k :: 0 <= k < |r| ==> r[k].entry in es && r[k].question in qs && r[k].question.id == r[k].entry.member
  {
    if |es| == 0 then []
    else
      var prev := Hits(qs, es[..|es| - 1]);
      match FindQuestion(qs, es[|es| - 1].member)
      case None => prev
      case Some(q) => prev + [Hit(es[|es| - 1], q)]
  }

  function HitRows(hs: seq<Hit>): (r: seq<Question>)
    ensures |r| == |hs| && forall k :: 0 <= k < |hs| ==> r[k] == hs[k].question
  {
    seq(|hs|, k requires 0 <= k < |hs| => hs[k].question)
  }

  /** the questions whose id is not excluded, in table order */
  function Candidates(qs: seq<Question>, exclude: seq<nat>): (r: seq<Question>)
    ensures |r| <= |qs|
    ensures forall k :: 0 <= k < |r| ==> r[k] in qs && r[k].id !in exclude
  {
    if |qs| == 0 then []
    else Candidates(qs[..|qs| - 1], exclude) + (if qs[|qs| - 1].id !in exclude then [qs[|qs| - 1]] else [])
  }

  /** `notIn(id, exclude).orderByDesc(createTime).last("limit n")`; rows with
      the same creation time keep table order */
  function Fallback(qs: seq<Question>, exclude: seq<nat>, n: nat): (r: seq<Question>)
    ensures |r| == Min(n, |Candidates(qs, exclude)|)
  {
    var s := SortBy(Candidates(qs, exclude), NewestFirst);
    s[..Min(n, |s|)]
  }

  /** the cache hits of a request for `size` questions, best score first */
  function PopularHits(qs: seq<Question>, board: seq<ScoredId>, size: int): seq<Hit>
  {
    Hits(qs, SortBy(RangeRead(board, size - 1), ByScoreDesc))
  }

  /** the ids the top-up query excludes: every id the range read returned,
      resolved or not */
  function Excluded(board: seq<ScoredId>, size: int): seq<nat>
  {
    Members(SortBy(RangeRead(board, size - 1), ByScoreDesc))
  }

  /** the top-up for the gap `size - found`, when there is one */
  function TopUp(qs: seq<Question>, board: seq<ScoredId>, size: int): seq<Question>
  {
    var diff := size - |PopularHits(qs, board, size)|;
    if diff > 0 then Fallback(qs, Excluded(board, size), diff) else []
  }

  /** the list `customFindPopularQuestions` hydrates */
  function PopularList(qs: seq<Question>, board: seq<ScoredId>, size: int): seq<Question>
  {
    HitRows(PopularHits(qs, board, size)) + TopUp(qs, board, size)
  }

  /** `customFindPopularQuestions` as written: the list above, hydrated by the
      batched query, which fails on a repeated answer key and on a listed
      choice question that has no choice rows. */
  function FindPopular(db: Db, board: seq<ScoredId>, size: int): (r: Result<seq<Questions.Hydrated>>)
    ensures var list := PopularList(db.questions, board, size);
      r.Err? <==>
        || Questions.AnswerKeyRepeats(db.answers, list)
        || exists q :: q in list && q.qtype == CHOICE && ChoicesOf(db.choices, q.id) == []
    ensures Questions.AnswerKeyRepeats(db.answers, PopularList(db.questions, board, size)) ==> r == Err(DuplicateKey)
    ensures r.Err? ==> r.error == DuplicateKey || r.error == NullReference
    ensures r.Ok? ==> |r.value| == |PopularList(db.questions, board, size)|
    ensures r.Ok? ==> forall i :: 0 <= i < |r.value| ==> r.value[i].question in db.questions
  {
    var list := PopularList(db.questions, board, size);
    PopularRowsExist(db.questions, board, size);
    Questions.HydrateAgreesWhenChoicesPresent(db, list);
    Questions.HydrateAsWritten(db, list)
  }

  /** The same list hydrated as intended: a choice question without rows
      comes back with an empty choice list, so only a repeated answer key
      fails. */
  function FindPopularIntended(db: Db, board: seq<ScoredId>, size: int): (r: Result<seq<Questions.Hydrated>>)
    ensures r.Err? <==> Questions.AnswerKeyRepeats(db.answers, PopularList(db.questions, board, size))
    ensures r.Err? ==> r.error == DuplicateKey
    ensures r.Ok? ==> |r.value| == |PopularList(db.questions, board, size)|
    ensures r.Ok? ==> forall i :: 0 <= i < |r.value| ==> r.value[i].question in db.questions
  {
    var list := PopularList(db.questions, board, size);
    PopularRowsExist(db.questions, board, size);
    Questions.Hydrate(db, list)
  }

  /** The two agree whenever the as-written one succeeds; where they differ,
      the as-written one fails with a null dereference on a choice question
      without rows. */
  lemma FindPopularAgrees(db: Db, board: seq<ScoredId>, size: int)
    ensures FindPopular(db, board, size).Ok? ==> FindPopular(db, board, size) == FindPopularIntended(db, board, size)
    ensures FindPopular(db, board, size) != FindPopularIntended(db, board, size) ==>
      && FindPopular(db, board, size) == Err(NullReference)
      && FindPopularIntended(db, board, size).Ok?
  {
    Questions.HydrateAgreesWhenChoicesPresent(db, PopularList(db.questions, board, size));
  }

  // ----- properties -----

  /** Every listed question is a row of the table: ids the cache still holds
      after the row went are skipped. */
  lemma PopularRowsExist(qs: seq<Question>, board: seq<ScoredId>, size: int)
    ensures forall i :: 0 <= i < |PopularList(qs, board, size)| ==> PopularList(qs, board, size)[i] in qs
  {
    var diff := size - |PopularHits(qs, board, size)|;
    if diff > 0 {
      FallbackFacts(qs, Excluded(board, size), diff);
    }
  }

  /** The top-up query's rows: table rows whose id is not excluded, newest
      first, and no candidate left out is newer than one taken. */
  lemma FallbackFacts(qs: seq<Question>, exclude: seq<nat>, n: nat)
    ensures var r := Fallback(qs, exclude, n);
      && (forall k :: 0 <= k < |r| ==> r[k] in qs && r[k].id !in exclude)
      && (forall i, j :: 0 <= i < j < |r| ==> r[i].createTime >= r[j].createTime)
      && (forall c :: c in Candidates(qs, exclude) && c !in r ==> forall k :: 0 <= k < |r| ==> c.createTime <= r[k].createTime)
  {
    var cands := Candidates(qs, exclude);
    var s := SortBy(cands, NewestFirst);
    SortByCorrect(cands, NewestFirst);
    var m := Min(n, |s|);
    assert Fallback(qs, exclude, n) == s[..m];
    PrefixRows(cands, s, m);
    PrefixNewest(s, m);
    PrefixTopN(cands, s, m);
  }

  lemma PrefixRows(cands: seq<Question>, s: seq<Question>, m: nat)
    requires multiset(s) == multiset(cands) && m <= |s|
    ensures forall k :: 0 <= k < m ==> s[k] in cands
  {
    forall k | 0 <= k < m ensures s[k] in cands {
      assert s[k] in multiset(cands);
    }
  }

  lemma PrefixNewest(s: seq<Question>, m: nat)
    requires SortedBy(s, NewestFirst) && m <= |s|
    ensures forall i, j :: 0 <= i < j < m ==> s[..m][i].createTime >= s[..m][j].createTime
  {
    forall i, j | 0 <= i < j < m ensures s[i].createTime >= s[j].createTime {
      assert NewestFirst(s[i]) <= NewestFirst(s[j]);
    }
  }

  lemma PrefixTopN(cands: seq<Question>, s: seq<Question>, m: nat)
    requires SortedBy(s, NewestFirst) && multiset(s) == multiset(cands) && m <= |s|
    ensures forall c :: c in cands && c !in s[..m] ==> forall k :: 0 <= k < m ==> c.createTime <= s[k].createTime
  {
    forall c | c in cands && c !in s[..m] ensures forall k :: 0 <= k < m ==> c.createTime <= s[k].createTime {
      assert c in multiset(s);
      var j :| 0 <= j < |s| && s[j] == c;
      assert j >= m;
      forall k | 0 <= k < m ensures c.createTime <= s[k].createTime {
        assert NewestFirst(s[k]) <= NewestFirst(s[j]);
      }
    }
  }

  /** Every resolvable entry is hit. */
  lemma {:induction false} HitsComplete(qs: seq<Question>, es: seq<ScoredId>, e: ScoredId)
    requires e in es && FindQuestion(qs, e.member).Some?
    ensures exists k :: 0 <= k < |Hits(qs, es)| && Hits(qs, es)[k].entry == e
  {
    var n := |es| - 1;
    if es[n] != e {
      assert e in es[..n] by {
        var i :| 0 <= i < |es| && es[i] == e;
        assert es[..n][i] == e;
      }
      HitsComplete(qs, es[..n], e);
      var k :| 0 <= k < |Hits(qs, es[..n])| && Hits(qs, es[..n])[k].entry == e;
      assert Hits(qs, es)[k] == Hits(qs, es[..n])[k];
    } else {
      var r := Hits(qs, es);
      assert r[|r| - 1].entry == e;
    }
  }

  /** Hits of a best-first entry list are best-first too. */
  lemma {:induction false} HitsOrdered(qs: seq<Question>, es: seq<ScoredId>)
    requires SortedBy(es, ByScoreDesc)
    ensures forall i, j :: 0 <= i < j < |Hits(qs, es)| ==> Hits(qs, es)[i].entry.score >= Hits(qs, es)[j].entry.score
  {
    if |es| > 0 {
      var n := |es| - 1;
      var prev := Hits(qs, es[..n]);
      assert SortedBy(es[..n], ByScoreDesc);
      HitsOrdered(qs, es[..n]);
      forall k | 0 <= k < |prev| ensures prev[k].entry.score >= es[n].score {
        var i :| 0 <= i < n && es[..n][i] == prev[k].entry;
        assert ByScoreDesc(es[i]) <= ByScoreDesc(es[n]);
      }
    }
  }

  /** The cache-derived questions come first: they are the hits of the range
      read, each a row whose id is a cached member, in non-increasing score
      order. */
  lemma PopularCacheFirst(qs: seq<Question>, board: seq<ScoredId>, size: int)
    ensures var r := PopularList(qs, board, size);
      var hits := PopularHits(qs, board, size);
      && |hits| <= |r|
      && (forall k :: 0 <= k < |hits| ==>
            r[k] == hits[k].question && r[k] in qs && hits[k].entry in board && r[k].id == hits[k].entry.member)
      && (forall i, j :: 0 <= i < j < |hits| ==> hits[i].entry.score >= hits[j].entry.score)
  {
    var ranked := RangeRead(board, size - 1);
    var es := SortBy(ranked, ByScoreDesc);
    SortByCorrect(ranked, ByScoreDesc);
    HitsOrdered(qs, es);
    var hits := Hits(qs, es);
    var r := PopularList(qs, board, size);
    assert r == HitRows(hits) + TopUp(qs, board, size);
    forall k | 0 <= k < |hits| ensures r[k] == hits[k].question && hits[k].entry in board {
      assert r[k] == HitRows(hits)[k];
      HitFromBoard(board, ranked, es, hits[k].entry);
    }
  }

  lemma HitFromBoard(board: seq<ScoredId>, ranked: seq<ScoredId>, es: seq<ScoredId>, e: ScoredId)
    requires |ranked| <= |board| && ranked == board[..|ranked|]
    requires multiset(es) == multiset(ranked) && e in es
    ensures e in board
  {
    assert e in multiset(ranked);
    var i :| 0 <= i < |ranked| && ranked[i] == e;
    assert board[i] == ranked[i];
  }

  /** The list is the hits' rows followed by the top-up. */
  lemma PopularSplit(qs: seq<Question>, board: seq<ScoredId>, size: int)
    ensures var r := PopularList(qs, board, size);
      var found := |PopularHits(qs, board, size)|;
      && found <= |r|
      && r[..found] == HitRows(PopularHits(qs, board, size))
      && r[found..] == TopUp(qs, board, size)
  {
  }

  /** The top-up after the hits: none of its ids was returned by the range
      read, it is newest first, it holds `size - found` questions or every
      candidate when there are fewer, and no candidate left out is newer
      than one taken. */
  lemma PopularFallback(qs: seq<Question>, board: seq<ScoredId>, size: int)
    ensures var found := |PopularHits(qs, board, size)|;
      var cands := Candidates(qs, Excluded(board, size));
      var tail := PopularList(qs, board, size)[found..];
      && |tail| == (if size - found > 0 then Min(size - found, |cands|) else 0)
      && (forall k :: 0 <= k < |tail| ==> tail[k] in qs && forall e :: e in RangeRead(board, size - 1) ==> tail[k].id != e.member)
      && (forall i, j :: 0 <= i < j < |tail| ==> tail[i].createTime >= tail[j].createTime)
      && (forall c :: c in cands && c !in tail ==> forall k :: 0 <= k < |tail| ==> c.createTime <= tail[k].createTime)
  {
    PopularSplit(qs, board, size);
    TopUpFacts(qs, board, size);
  }

  lemma TopUpFacts(qs: seq<Question>, board: seq<ScoredId>, size: int)
    ensures var found := |PopularHits(qs, board, size)|;
      var cands := Candidates(qs, Excluded(board, size));
      var tail := TopUp(qs, board, size);
      && |tail| == (if size - found > 0 then Min(size - found, |cands|) else 0)
      && (forall k :: 0 <= k < |tail| ==> tail[k] in qs && forall e :: e in RangeRead(board, size - 1) ==> tail[k].id != e.member)
      && (forall i, j :: 0 <= i < j < |tail| ==> tail[i].createTime >= tail[j].createTime)
      && (forall c :: c in cands && c !in tail ==> forall k :: 0 <= k < |tail| ==> c.createTime <= tail[k].createTime)
  {
    var diff := size - |PopularHits(qs, board, size)|;
    if diff > 0 {
      var ex := Excluded(board, size);
      FallbackFacts(qs, ex, diff);
      ExcludedCoversRange(board, size);
    }
  }

  /** every id the range read returned is excluded from the top-up */
  lemma ExcludedCoversRange(board: seq<ScoredId>, size: int)
    ensures forall e :: e in RangeRead(board, size - 1) ==> e.member in Excluded(board, size)
  {
    var ranked := RangeRead(board, size - 1);
    var es := SortBy(ranked, ByScoreDesc);
    SortByCorrect(ranked, ByScoreDesc);
    forall e | e in ranked ensures e.member in Excluded(board, size) {
      assert e in multiset(es);
      var j :| 0 <= j < |es| && es[j] == e;
      assert Excluded(board, size)[j] == e.member;
    }
  }

  /** how many table rows the top-up may draw from */
  function CandidateCount(qs: seq<Question>, board: seq<ScoredId>, size: int): nat {
    |Candidates(qs, Excluded(board, size))|
  }

  /** A request for `size >= 1` questions gets at most `size` of them:
      exactly `size` when the hits and the candidates together suffice, and
      all of both otherwise. */
  lemma PopularBound(qs: seq<Question>, board: seq<ScoredId>, size: int)
    requires size >= 1
    ensures |PopularList(qs, board, size)| <= size
    ensures |PopularHits(qs, board, size)| + CandidateCount(qs, board, size) >= size ==>
      |PopularList(qs, board, size)| == size
    ensures |PopularHits(qs, board, size)| + CandidateCount(qs, board, size) < size ==>
      |PopularList(qs, board, size)| == |PopularHits(qs, board, size)| + CandidateCount(qs, board, size)
  {
    PopularHitsBound(qs, board, size);
    PopularLength(qs, board, size);
    GapFilled(size, |PopularHits(qs, board, size)|, CandidateCount(qs, board, size), |TopUp(qs, board, size)|);
  }

  lemma PopularHitsBound(qs: seq<Question>, board: seq<ScoredId>, size: int)
    requires size >= 1
    ensures |PopularHits(qs, board, size)| <= size
  {
    assert |RangeRead(board, size - 1)| <= size;
  }

  /** the list is as long as the hits plus the top-up */
  lemma PopularLength(qs: seq<Question>, board: seq<ScoredId>, size: int)
    ensures |PopularList(qs, board, size)| == |PopularHits(qs, board, size)| + |TopUp(qs, board, size)|
    ensures var found := |PopularHits(qs, board, size)|;
      |TopUp(qs, board, size)| ==
        if size - found > 0 then Min(size - found, |Candidates(qs, Excluded(board, size))|) else 0
  {
  }

  lemma GapFilled(size: int, found: int, c: nat, t: int)
    requires found <= size && t == if size - found > 0 then Min(size - found, c) else 0
    ensures found + t <= size
    ensures found + c >= size ==> found + t == size
    ensures found + c < size ==> found + t == found + c
  {
  }

  /** A request for 0 questions reads the range 0..-1, which is the whole
      board, and so returns every resolvable cached question. */
  lemma PopularZeroSize(qs: seq<Question>, board: seq<ScoredId>)
    ensures PopularList(qs, board, 0) == HitRows(Hits(qs, SortBy(board, ByScoreDesc)))
  {
  }

  /** no two questions of the list share an id */
  predicate IdsDistinct(qs: seq<Question>) {
    forall i, j :: 0 <= i < j < |qs| ==> qs[i].id != qs[j].id
  }

  predicate MembersDistinct(es: seq<ScoredId>) {
    forall i, j :: 0 <= i < j < |es| ==> es[i].member != es[j].member
  }

  lemma {:induction false} HitsDistinct(qs: seq<Question>, es: seq<ScoredId>)
    requires MembersDistinct(es)
    ensures IdsDistinct(HitRows(Hits(qs, es)))
  {
    if |es| > 0 {
      var n := |es| - 1;
      var prev := Hits(qs, es[..n]);
      assert MembersDistinct(es[..n]);
      HitsDistinct(qs, es[..n]);
      forall k | 0 <= k < |prev| ensures prev[k].question.id != es[n].member {
        var i :| 0 <= i < n && es[..n][i] == prev[k].entry;
        assert es[i].member != es[n].member;
      }
    }
  }

  lemma {:induction false} CandidatesDistinct(qs: seq<Question>, exclude: seq<nat>)
    requires IdsDistinct(qs)
    ensures IdsDistinct(Candidates(qs, exclude))
  {
    if |qs| > 0 {
      var n := |qs| - 1;
      assert IdsDistinct(qs[..n]);
      CandidatesDistinct(qs[..n], exclude);
      var prev := Candidates(qs[..n], exclude);
      forall k | 0 <= k < |prev| ensures prev[k].id != qs[n].id {
        var i :| 0 <= i < n && qs[..n][i] == prev[k];
      }
    }
  }

  lemma {:induction false} InsertDistinct(r: seq<Question>, x: Question)
    requires IdsDistinct(r) && forall y :: y in r ==> y.id != x.id
    ensures IdsDistinct(Insert(r, x, NewestFirst))
  {
    if |r| > 0 && NewestFirst(x) < NewestFirst(r[|r| - 1]) {
      var r0 := r[..|r| - 1];
      assert IdsDistinct(r0);
      InsertDistinct(r0, x);
      InsertPermutes(r0, x, NewestFirst);
      var ins := Insert(r0, x, NewestFirst);
      forall k | 0 <= k < |ins| ensures ins[k].id != r[|r| - 1].id {
        assert ins[k] in multiset(r0) + multiset{x};
      }
    }
  }

  lemma {:induction false} SortDistinct(s: seq<Question>)
    requires IdsDistinct(s)
    ensures IdsDistinct(SortBy(s, NewestFirst))
  {
    if |s| > 0 {
      var s0 := s[..|s| - 1];
      assert IdsDistinct(s0);
      SortDistinct(s0);
      SortByCorrect(s0, NewestFirst);
      forall y | y in SortBy(s0, NewestFirst) ensures y.id != s[|s| - 1].id {
        assert y in multiset(s0);
      }
      InsertDistinct(SortBy(s0, NewestFirst), s[|s| - 1]);
    }
  }

  /** With a table whose ids are unique and a board whose members are
      distinct (both hold of the stores the service reads), the list
      never names a question twice. */
  lemma PopularDistinct(qs: seq<Question>, board: seq<ScoredId>, size: int)
    requires IdsDistinct(qs) && MembersDistinct(board)
    ensures IdsDistinct(PopularList(qs, board, size))
  {
    var found := HitRows(PopularHits(qs, board, size));
    var tail := TopUp(qs, board, size);
    PopularHitsDistinct(qs, board, size);
    TopUpDistinct(qs, board, size);
    PopularHitsExcluded(qs, board, size);
    AppendDistinct(found, tail, Excluded(board, size));
  }

  lemma PopularHitsDistinct(qs: seq<Question>, board: seq<ScoredId>, size: int)
    requires MembersDistinct(board)
    ensures IdsDistinct(HitRows(PopularHits(qs, board, size)))
  {
    var ranked := RangeRead(board, size - 1);
    var es := SortBy(ranked, ByScoreDesc);
    SortByCorrect(ranked, ByScoreDesc);
    assert MembersDistinct(ranked);
    MembersStayDistinct(ranked, es);
    HitsDistinct(qs, es);
  }

  lemma TopUpDistinct(qs: seq<Question>, board: seq<ScoredId>, size: int)
    requires IdsDistinct(qs)
    ensures IdsDistinct(TopUp(qs, board, size))
    ensures forall k :: 0 <= k < |TopUp(qs, board, size)| ==> TopUp(qs, board, size)[k].id !in Excluded(board, size)
  {
    var diff := size - |PopularHits(qs, board, size)|;
    if diff > 0 {
      FallbackDistinct(qs, Excluded(board, size), diff);
      FallbackFacts(qs, Excluded(board, size), diff);
    }
  }

  lemma PopularHitsExcluded(qs: seq<Question>, board: seq<ScoredId>, size: int)
    ensures forall k :: 0 <= k < |PopularHits(qs, board, size)| ==> HitRows(PopularHits(qs, board, size))[k].id in Excluded(board, size)
  {
    HitsExcluded(qs, SortBy(RangeRead(board, size - 1), ByScoreDesc));
  }

  /** every hit's id is among the members the entries carry */
  lemma HitsExcluded(qs: seq<Question>, es: seq<ScoredId>)
    ensures forall k :: 0 <= k < |Hits(qs, es)| ==> Hits(qs, es)[k].question.id in Members(es)
  {
    forall k | 0 <= k < |Hits(qs, es)| ensures Hits(qs, es)[k].question.id in Members(es) {
      var p :| 0 <= p < |es| && es[p] == Hits(qs, es)[k].entry;
      assert Members(es)[p] == es[p].member;
    }
  }

  lemma FallbackDistinct(qs: seq<Question>, exclude: seq<nat>, n: nat)
    requires IdsDistinct(qs)
    ensures IdsDistinct(Fallback(qs, exclude, n))
  {
    CandidatesDistinct(qs, exclude);
    SortDistinct(Candidates(qs, exclude));
  }

  lemma AppendDistinct(a: seq<Question>, b: seq<Question>, ex: seq<nat>)
    requires IdsDistinct(a) && IdsDistinct(b)
    requires forall i :: 0 <= i < |a| ==> a[i].id in ex
    requires forall j :: 0 <= j < |b| ==> b[j].id !in ex
    ensures IdsDistinct(a + b)
  {
  }

  lemma MembersStayDistinct(a: seq<ScoredId>, b: seq<ScoredId>)
    requires MembersDistinct(a) && multiset(a) == multiset(b)
    ensures MembersDistinct(b)
  {
    forall i, j | 0 <= i < j < |b| ensures b[i].member != b[j].member {
      assert b[i] in multiset(a) && b[j] in multiset(a);
      var p :| 0 <= p < |a| && a[p] == b[i];
      var q :| 0 <= q < |a| && a[q] == b[j];
      OccursOnce(a, p);
      TwiceCounted(b, i, j);
    }
  }

  /** in a list with distinct members every entry occurs once */
  lemma OccursOnce(a: seq<ScoredId>, p: nat)
    requires MembersDistinct(a) && p < |a|
    ensures multiset(a)[a[p]] == 1
  {
    assert a == a[..p] + [a[p]] + a[p + 1..];
    forall k | 0 <= k < |a| && k != p ensures a[k] != a[p] {
      if k < p { assert a[k].member != a[p].member; } else { assert a[p].member != a[k].member; }
    }
    assert a[p] !in a[..p];
    assert a[p] !in a[p + 1..];
  }

  lemma TwiceCounted(b: seq<ScoredId>, i: nat, j: nat)
    requires i < j < |b|
    ensures b[i] == b[j] ==> multiset(b)[b[i]] >= 2
  {
    assert b == b[..i] + [b[i]] + b[i + 1..j] + [b[j]] + b[j + 1..];
  }

  /** the background `zIncrementScore(key, id, 1)` a detail view starts */
  function RecordView(scores: map<nat, int>, id: nat): (r: map<nat, int>)
    ensures id in r && r[id] == (if id in scores then scores[id] else 0) + 1
    ensures forall k :: k in scores && k != id ==> k in r && r[k] == scores[k]
    ensures r.Keys == scores.Keys + {id}
  {
    scores[id := (if id in scores then scores[id] else 0) + 1]
  }
}
