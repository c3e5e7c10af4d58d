/** The category tree: per-category question counts, children grouped by
    parent id, the single roll-up pass over the list, the roots, and the
    sibling-name and delete guards of the category operations.

    The tree is an arena: node `i` is the `i`-th category of the list and its
    children are indices into the same list. The source hands out the very
    same objects as list entries and as children, so a count written to a
    category is seen wherever that category appears; indices say the same. */
module Categories {
  import opened Base
  import opened Store
  import opened StableSort

  datatype Node = Node(category: Category, count: int, children: seq<nat>)

  datatype Tree = Tree(nodes: seq<Node>, roots: seq<nat>)

  /** the order `orderByAsc(sort)` reads the table in; equal sorts keep
      table order */
  function SortOf(c: Category): int { c.sort }

  // ----- counts -----

  /** `fillQuestionCount`: each category's count is its entry in the count
      map, or 0 when the map has none */
  function FillCounts(cs: seq<Category>, countMap: map<nat, nat>): (r: seq<int>)
    ensures |r| == |cs|
    ensures forall i :: 0 <= i < |cs| ==> r[i] == (if cs[i].id in countMap then countMap[cs[i].id] else 0)
  {
    if |cs| == 0 then []
    else
      var c := cs[|cs| - 1];
      FillCounts(cs[..|cs| - 1], countMap) + [if c.id in countMap then countMap[c.id] else 0]
  }

  // ----- grouping -----

  /** `groupingBy(parentId).getOrDefault(id, [])`: the indices of the
      categories whose parent id is `id`, in list order */
  function ChildIndices(cs: seq<Category>, id: nat): (r: seq<nat>)
    ensures forall k :: 0 <= k < |r| ==> r[k] < |cs|
  {
    if |cs| == 0 then []
    else
      var prev := ChildIndices(cs[..|cs| - 1], id);
      if cs[|cs| - 1].parentId == id then prev + [|cs| - 1] else prev
  }

  /** The child list holds exactly the categories whose parent id is `id`,
      each once, in list order. */
  lemma {:induction false} ChildIndicesCorrect(cs: seq<Category>, id: nat)
    ensures forall k :: 0 <= k < |ChildIndices(cs, id)| ==> cs[ChildIndices(cs, id)[k]].parentId == id
    ensures forall k, l :: 0 <= k < l < |ChildIndices(cs, id)| ==> ChildIndices(cs, id)[k] < ChildIndices(cs, id)[l]
    ensures forall j :: 0 <= j < |cs| && cs[j].parentId == id ==> j in ChildIndices(cs, id)
  {
    if |cs| > 0 {
      var n := |cs| - 1;
      ChildIndicesCorrect(cs[..n], id);
      var prev := ChildIndices(cs[..n], id);
      var r := ChildIndices(cs, id);
      assert forall k :: 0 <= k < |prev| ==> cs[prev[k]] == cs[..n][prev[k]];
      if cs[n].parentId == id {
        assert r == prev + [n];
        assert forall k :: 0 <= k < |prev| ==> r[k] == prev[k] && r[k] < n;
      } else {
        assert r == prev;
      }
      forall j | 0 <= j < |cs| && cs[j].parentId == id
        ensures j in ChildIndices(cs, id)
      {
        if j < n {
          assert cs[..n][j] == cs[j];
        }
      }
    }
  }

  /** the roots: the categories whose parent id is 0, in list order */
  function Roots(cs: seq<Category>): (r: seq<nat>)
    ensures forall k :: 0 <= k < |r| ==> r[k] < |cs|
  {
    ChildIndices(cs, 0)
  }

  // ----- roll-up -----

  /** the sum of `vals` at the given indices */
  function SumAt(vals: seq<int>, idx: seq<nat>): int
    requires forall k :: 0 <= k < |idx| ==> idx[k] < |vals|
  {
    if |idx| == 0 then 0 else SumAt(vals, idx[..|idx| - 1]) + vals[idx[|idx| - 1]]
  }

  /** one step of the `forEach`: category `i` takes its current count plus
      the current counts of its children */
  function Visit(cs: seq<Category>, cur: seq<int>, i: nat): (r: seq<int>)
    requires |cur| == |cs| && i < |cs|
    ensures |r| == |cs|
  {
    cur[i := cur[i] + KidsSum(cs, cur, cs[i].id, |cs|)]
  }

  /** the current counts of the categories among the first `m` whose parent
      is `id` */
  function KidsSum(cs: seq<Category>, cur: seq<int>, id: nat, m: nat): int
    requires |cur| == |cs| && m <= |cs|
  {
    if m == 0 then 0 else KidsSum(cs, cur, id, m - 1) + (if cs[m - 1].parentId == id then cur[m - 1] else 0)
  }

  /** the children's sum read off the child index list */
  lemma {:induction false} KidsSumIsSumAt(cs: seq<Category>, cur: seq<int>, id: nat, m: nat)
    requires |cur| == |cs| && m <= |cs|
    ensures KidsSum(cs, cur, id, m) == SumAt(cur, ChildIndices(cs[..m], id))
  {
    if m > 0 {
      KidsSumIsSumAt(cs, cur, id, m - 1);
      assert cs[..m][..m - 1] == cs[..m - 1];
      var prev := ChildIndices(cs[..m - 1], id);
      if cs[m - 1].parentId == id {
        assert ChildIndices(cs[..m], id) == prev + [m - 1];
        assert (prev + [m - 1])[..|prev|] == prev;
      } else {
        assert ChildIndices(cs[..m], id) == prev;
      }
    } else {
      assert cs[..0] == [];
    }
  }

  /** the counts after the first `n` categories have been visited */
  function RollUp(cs: seq<Category>, own: seq<int>, n: nat): (r: seq<int>)
    requires |own| == |cs| && n <= |cs|
    ensures |r| == |cs|
  {
    if n == 0 then own else Visit(cs, RollUp(cs, own, n - 1), n - 1)
  }

  /** the counts a category saw when it was visited: final counts for the
      categories visited before it, own counts for the rest */
  function Seen(final: seq<int>, own: seq<int>, i: nat): (r: seq<int>)
    requires |final| == |own|
    ensures |r| == |own|
  {
    seq(|own|, j requires 0 <= j < |own| => if j < i then final[j] else own[j])
  }

  lemma {:induction false} SumAtAgree(a: seq<int>, b: seq<int>, idx: seq<nat>)
    requires |a| == |b|
    requires forall k :: 0 <= k < |idx| ==> idx[k] < |a| && a[idx[k]] == b[idx[k]]
    ensures SumAt(a, idx) == SumAt(b, idx)
  {
    if |idx| > 0 {
      SumAtAgree(a, b, idx[..|idx| - 1]);
    }
  }

  /** A visit changes only the visited category, so after `n` visits the
      unvisited categories still hold their own counts and each visited one
      holds what it got when it was visited. */
  lemma {:induction false} RollUpFrame(cs: seq<Category>, own: seq<int>, n: nat, j: nat)
    requires |own| == |cs| && n <= |cs| && j < |cs|
    ensures j >= n ==> RollUp(cs, own, n)[j] == own[j]
    ensures j < n ==> RollUp(cs, own, n)[j] == RollUp(cs, own, j + 1)[j]
  {
    if n > 0 && j != n - 1 {
      RollUpFrame(cs, own, n - 1, j);
      VisitOther(cs, RollUp(cs, own, n - 1), n - 1, j);
    }
  }

  /** a visit leaves the other categories alone */
  lemma VisitOther(cs: seq<Category>, cur: seq<int>, i: nat, j: nat)
    requires |cur| == |cs| && i < |cs| && j < |cs| && j != i
    ensures Visit(cs, cur, i)[j] == cur[j]
  {
  }

  /** The roll-up as written: every category ends with its own count plus,
      for each child, the child's final count if the child came earlier in
      the list and its own count otherwise. */
  lemma RollUpSpec(cs: seq<Category>, own: seq<int>, i: nat)
    requires |own| == |cs| && i < |cs|
    ensures var final := RollUp(cs, own, |cs|);
      final[i] == own[i] + SumAt(Seen(final, own, i), ChildIndices(cs, cs[i].id))
  {
    var final := RollUp(cs, own, |cs|);
    var before := RollUp(cs, own, i);
    var kids := ChildIndices(cs, cs[i].id);
    RollUpFrame(cs, own, |cs|, i);
    RollUpFrame(cs, own, i, i);
    KidsSumIsSumAt(cs, before, cs[i].id, |cs|);
    assert cs[..|cs|] == cs;
    forall k | 0 <= k < |kids| ensures before[kids[k]] == Seen(final, own, i)[kids[k]] {
      var j := kids[k];
      RollUpFrame(cs, own, i, j);
      RollUpFrame(cs, own, |cs|, j);
    }
    SumAtAgree(before, Seen(final, own, i), kids);
  }

  /** When every child is listed before its parent, the pass computes true
      subtree totals: each count is the own count plus the children's final
      counts. */
  lemma RollUpChildrenFirst(cs: seq<Category>, own: seq<int>, i: nat)
    requires |own| == |cs| && i < |cs|
    requires forall j :: 0 <= j < |cs| && cs[j].parentId == cs[i].id ==> j < i
    ensures var final := RollUp(cs, own, |cs|);
      final[i] == own[i] + SumAt(final, ChildIndices(cs, cs[i].id))
  {
    var final := RollUp(cs, own, |cs|);
    RollUpSpec(cs, own, i);
    ChildIndicesCorrect(cs, cs[i].id);
    SumAtAgree(Seen(final, own, i), final, ChildIndices(cs, cs[i].id));
  }

  /** In a two-level tree a category whose children have no children of
      their own ends with its own count plus its children's own counts. */
  lemma RollUpTwoLevel(cs: seq<Category>, own: seq<int>, i: nat)
    requires |own| == |cs| && i < |cs|
    requires forall j :: 0 <= j < |cs| && cs[j].parentId == cs[i].id ==> j != i && ChildIndices(cs, cs[j].id) == []
    ensures RollUp(cs, own, |cs|)[i] == own[i] + SumAt(own, ChildIndices(cs, cs[i].id))
  {
    var final := RollUp(cs, own, |cs|);
    var kids := ChildIndices(cs, cs[i].id);
    RollUpSpec(cs, own, i);
    ChildIndicesCorrect(cs, cs[i].id);
    forall k | 0 <= k < |kids| ensures Seen(final, own, i)[kids[k]] == own[kids[k]] {
      var j := kids[k];
      RollUpSpec(cs, own, j);
    }
    SumAtAgree(Seen(final, own, i), own, kids);
  }

  /** The pass depends on list order: a three-level chain A > B > C with own
      counts 2, 3, 5 gives the root 5 when listed parent first, and the
      subtree total 10 when listed child first. */
  lemma RollUpOrderMatters()
    ensures RollUp(ParentFirst, [2, 3, 5], 3)[0] == 5
    ensures RollUp(ChildFirst, [5, 3, 2], 3)[2] == 10
  {
    ParentFirstSteps();
    ChildFirstSteps();
  }

  const ParentFirst := [Category(1, "A", 0, 1), Category(2, "B", 1, 2), Category(3, "C", 2, 3)]
  const ChildFirst := [Category(3, "C", 2, 3), Category(2, "B", 1, 2), Category(1, "A", 0, 1)]

  lemma ParentFirstKids()
    ensures ChildIndices(ParentFirst, 1) == [1]
    ensures ChildIndices(ParentFirst, 2) == [2]
    ensures ChildIndices(ParentFirst, 3) == []
  {
    var a, b, c := Category(1, "A", 0, 1), Category(2, "B", 1, 2), Category(3, "C", 2, 3);
    assert ParentFirst == [a, b, c];
    assert [a, b, c][..2] == [a, b] && [a, b][..1] == [a] && [a][..0] == [];
    assert ChildIndices([a], 1) == [] && ChildIndices([a], 2) == [] && ChildIndices([a], 3) == [];
    assert ChildIndices([a, b], 1) == [1];
    assert ChildIndices([a, b], 2) == [];
    assert ChildIndices([a, b], 3) == [];
  }

  lemma ParentFirstSteps()
    ensures RollUp(ParentFirst, [2, 3, 5], 3)[0] == 5
  {
    var own := [2, 3, 5];
    var final := RollUp(ParentFirst, own, 3);
    ParentFirstKids();
    RollUpSpec(ParentFirst, own, 0);
    assert SumAt(Seen(final, own, 0), [1]) == SumAt(Seen(final, own, 0), []) + 3 by {
      assert [1][..0] == [];
    }
  }

  lemma ChildFirstKids()
    ensures ChildIndices(ChildFirst, 3) == []
    ensures ChildIndices(ChildFirst, 2) == [0]
    ensures ChildIndices(ChildFirst, 1) == [1]
  {
    var c, b, a := Category(3, "C", 2, 3), Category(2, "B", 1, 2), Category(1, "A", 0, 1);
    assert ChildFirst == [c, b, a];
    assert [c, b, a][..2] == [c, b] && [c, b][..1] == [c] && [c][..0] == [];
    assert ChildIndices([c], 3) == [] && ChildIndices([c], 2) == [0] && ChildIndices([c], 1) == [];
    assert ChildIndices([c, b], 3) == [];
    assert ChildIndices([c, b], 2) == [0];
    assert ChildIndices([c, b], 1) == [1];
  }

  lemma ChildFirstSteps()
    ensures RollUp(ChildFirst, [5, 3, 2], 3)[2] == 10
  {
    var own := [5, 3, 2];
    var final := RollUp(ChildFirst, own, 3);
    ChildFirstKids();
    RollUpSpec(ChildFirst, own, 0);
    RollUpSpec(ChildFirst, own, 1);
    RollUpSpec(ChildFirst, own, 2);
    assert final[0] == 5;
    assert SumAt(Seen(final, own, 1), [0]) == SumAt(Seen(final, own, 1), []) + final[0] by {
      assert [0][..0] == [];
    }
    assert final[1] == 8;
    assert SumAt(Seen(final, own, 2), [1]) == SumAt(Seen(final, own, 2), []) + final[1] by {
      assert [1][..0] == [];
    }
  }

  // ----- the tree -----

  /** `buildTree` over a list whose counts are filled: every category gets its
      children and its rolled-up count; the roots are returned */
  function BuildTree(cs: seq<Category>, own: seq<int>): (t: Tree)
    requires |own| == |cs|
    ensures |t.nodes| == |cs|
    ensures forall i :: 0 <= i < |cs| ==> t.nodes[i].category == cs[i]
  {
    var final := RollUp(cs, own, |cs|);
    Tree(seq(|cs|, i requires 0 <= i < |cs| => Node(cs[i], final[i], ChildIndices(cs, cs[i].id))), Roots(cs))
  }

  /** Every node's children are exactly the categories naming it as parent,
      in list order, and the roots are exactly the categories with parent 0. */
  lemma BuildTreeShape(cs: seq<Category>, own: seq<int>)
    requires |own| == |cs|
    ensures var t := BuildTree(cs, own);
      forall i, k :: 0 <= i < |cs| && 0 <= k < |t.nodes[i].children| ==>
        t.nodes[i].children[k] < |cs| && cs[t.nodes[i].children[k]].parentId == cs[i].id
    ensures var t := BuildTree(cs, own);
      forall i, j :: 0 <= i < |cs| && 0 <= j < |cs| && cs[j].parentId == cs[i].id ==> j in t.nodes[i].children
    ensures var t := BuildTree(cs, own);
      forall k :: 0 <= k < |t.roots| ==> t.roots[k] < |cs| && cs[t.roots[k]].parentId == 0
    ensures forall j :: 0 <= j < |cs| && cs[j].parentId == 0 ==> j in BuildTree(cs, own).roots
  {
    var t := BuildTree(cs, own);
    forall i | 0 <= i < |cs|
      ensures t.nodes[i].children == ChildIndices(cs, cs[i].id)
      ensures forall k :: 0 <= k < |t.nodes[i].children| ==> cs[t.nodes[i].children[k]].parentId == cs[i].id
      ensures forall j :: 0 <= j < |cs| && cs[j].parentId == cs[i].id ==> j in t.nodes[i].children
    {
      ChildIndicesCorrect(cs, cs[i].id);
    }
    ChildIndicesCorrect(cs, 0);
  }

  /** The counts of the tree are those of the roll-up pass. */
  lemma BuildTreeCounts(cs: seq<Category>, own: seq<int>, i: nat)
    requires |own| == |cs| && i < |cs|
    ensures var t := BuildTree(cs, own);
      var counts := seq(|cs|, j requires 0 <= j < |cs| => t.nodes[j].count);
      t.nodes[i].count == own[i] + SumAt(Seen(counts, own, i), t.nodes[i].children)
  {
    var t := BuildTree(cs, own);
    var counts := seq(|cs|, j requires 0 <= j < |cs| => t.nodes[j].count);
    assert counts == RollUp(cs, own, |cs|);
    RollUpSpec(cs, own, i);
  }

  /** `getCategoryTree`: all categories in `sort` order, counts filled from
      the per-category question counts, built into a tree */
  function CategoryTree(db: Db, countMap: map<nat, nat>): (t: Tree)
    ensures |t.nodes| == |db.categories|
  {
    var cs := SortBy(db.categories, SortOf);
    BuildTree(cs, FillCounts(cs, countMap))
  }

  /** The tree holds every category once, ordered by `sort`, with categories
      of equal `sort` in table order. */
  lemma CategoryTreeNodes(db: Db, countMap: map<nat, nat>)
    ensures var t := CategoryTree(db, countMap);
      var order := seq(|t.nodes|, i requires 0 <= i < |t.nodes| => t.nodes[i].category);
      multiset(order) == multiset(db.categories) && SortedBy(order, SortOf) && Stable(db.categories, order, SortOf)
  {
    var cs := SortBy(db.categories, SortOf);
    SortByCorrect(db.categories, SortOf);
    var t := CategoryTree(db, countMap);
    assert seq(|t.nodes|, i requires 0 <= i < |t.nodes| => t.nodes[i].category) == cs;
  }

  // ----- add, update, delete -----

  datatype CategoryInput = CategoryInput(name: string, parentId: nat, sort: int)

  /** a category other than `self` under `parentId` already has `name` */
  predicate SiblingNamed(cs: seq<Category>, parentId: nat, name: string, self: Option<nat>) {
    exists c :: c in cs && c.parentId == parentId && c.name == name && Some(c.id) != self
  }

  /** the error a duplicate name raises: the message names the parent, so a
      parent id that does not resolve (a root has none) fails on the null
      parent instead */
  function DuplicateError(cs: seq<Category>, parentId: nat, name: string): (e: Error)
    ensures FindCategory(cs, parentId).Some? ==> e == DuplicateCategory(FindCategory(cs, parentId).value.name, name)
    ensures FindCategory(cs, parentId).None? ==> e == NullReference
  {
    match FindCategory(cs, parentId)
    case None => NullReference
    case Some(p) => DuplicateCategory(p.name, name)
  }

  /** `addCategory`: refused when a sibling has the name, else saved under a
      fresh id at the end of the table */
  function AddCategory(db: Db, c: CategoryInput): (r: Result<Db>)
    ensures r.Err? <==> SiblingNamed(db.categories, c.parentId, c.name, None)
    ensures r.Err? ==> r.error == DuplicateError(db.categories, c.parentId, c.name)
    ensures r.Ok? ==>
      && r.value.categories == db.categories + [Category(db.nextId, c.name, c.parentId, c.sort)]
      && r.value.nextId == db.nextId + 1
      && r.value.questions == db.questions && r.value.choices == db.choices && r.value.answers == db.answers
      && r.value.links == db.links && r.value.papers == db.papers
  {
    if SiblingNamed(db.categories, c.parentId, c.name, None) then Err(DuplicateError(db.categories, c.parentId, c.name))
    else Ok(db.(categories := db.categories + [Category(db.nextId, c.name, c.parentId, c.sort)], nextId := db.nextId + 1))
  }

  /** An add keeps category ids unique and below the counter. */
  lemma AddCategoryValid(db: Db, c: CategoryInput)
    requires Valid(db) && AddCategory(db, c).Ok?
    ensures Valid(AddCategory(db, c).value)
  {
    var db' := AddCategory(db, c).value;
    forall i, j | 0 <= i < j < |db'.categories| ensures db'.categories[i].id != db'.categories[j].id {
      if j == |db.categories| {
        assert db.categories[i] in db.categories;
      }
    }
  }

  /** `updateById` on the category table; an id with no row changes nothing */
  function ReplaceCategory(cs: seq<Category>, c: Category): (r: seq<Category>)
    ensures |r| == |cs|
    ensures forall i :: 0 <= i < |cs| ==> r[i] == (if cs[i].id == c.id then c else cs[i])
  {
    if |cs| == 0 then []
    else
      var last := cs[|cs| - 1];
      ReplaceCategory(cs[..|cs| - 1], c) + [if last.id == c.id then c else last]
  }

  /** `updateCategory`: refused only when a different category under the new
      parent has the new name; keeping one's own name is allowed. The result
      of `updateById` is not checked, so an unknown id succeeds and changes
      nothing. */
  function UpdateCategory(db: Db, c: Category): (r: Result<Db>)
    ensures r.Err? <==> SiblingNamed(db.categories, c.parentId, c.name, Some(c.id))
    ensures r.Err? ==> r.error == DuplicateError(db.categories, c.parentId, c.name)
    ensures r.Ok? ==> r.value == db.(categories := ReplaceCategory(db.categories, c))
    ensures r.Ok? && FindCategory(db.categories, c.id).None? ==> r.value == db
  {
    if SiblingNamed(db.categories, c.parentId, c.name, Some(c.id)) then Err(DuplicateError(db.categories, c.parentId, c.name))
    else
      ReplaceAbsent(db.categories, c);
      Ok(db.(categories := ReplaceCategory(db.categories, c)))
  }

  lemma {:induction false} ReplaceAbsent(cs: seq<Category>, c: Category)
    ensures FindCategory(cs, c.id).None? ==> ReplaceCategory(cs, c) == cs
  {
    if |cs| > 0 && FindCategory(cs, c.id).None? {
      ReplaceAbsent(cs[..|cs| - 1], c);
      assert cs[|cs| - 1] in cs;
      assert FindCategory(cs[..|cs| - 1], c.id).None? by {
        forall x | x in cs[..|cs| - 1] ensures x.id != c.id {
          var k :| 0 <= k < |cs| - 1 && cs[..|cs| - 1][k] == x;
          assert cs[k] == x;
        }
      }
      assert cs == cs[..|cs| - 1] + [cs[|cs| - 1]];
    }
  }

  /** `selectCount` of the questions filed under a category */
  function QuestionsIn(qs: seq<Question>, categoryId: nat): (n: nat)
    ensures n == 0 <==> forall q :: q in qs ==> q.categoryId != categoryId
    ensures n <= |qs|
  {
    if |qs| == 0 then 0
    else QuestionsIn(qs[..|qs| - 1], categoryId) + (if qs[|qs| - 1].categoryId == categoryId then 1 else 0)
  }

  /** the table less the category with the id */
  function DropCategory(cs: seq<Category>, id: nat): (r: seq<Category>)
    ensures |r| <= |cs|
  {
    if |cs| == 0 then []
    else DropCategory(cs[..|cs| - 1], id) + (if cs[|cs| - 1].id != id then [cs[|cs| - 1]] else [])
  }

  lemma {:induction false} DropCategoryMembers(cs: seq<Category>, id: nat)
    ensures forall c :: c in DropCategory(cs, id) <==> c in cs && c.id != id
  {
    if |cs| > 0 {
      DropCategoryMembers(cs[..|cs| - 1], id);
      assert cs == cs[..|cs| - 1] + [cs[|cs| - 1]];
    }
  }

  /** `deleteCategory`: an unknown id fails on the null row, a root cannot be
      deleted, nor can a category that questions are filed under (the count
      is reported); otherwise only that category goes. Its children are not
      touched. */
  function DeleteCategory(db: Db, id: nat): (r: Result<Db>)
    ensures FindCategory(db.categories, id).None? <==> r == Err(NullReference)
    ensures r == Err(RootCategory) <==> FindCategory(db.categories, id).Some? && FindCategory(db.categories, id).value.parentId == 0
    ensures r.Ok? <==>
      && FindCategory(db.categories, id).Some?
      && FindCategory(db.categories, id).value.parentId != 0
      && QuestionsIn(db.questions, id) == 0
    ensures r.Err? && r.error.Referenced? ==> r.error == Referenced(id, QuestionsIn(db.questions, id)) && QuestionsIn(db.questions, id) > 0
    ensures r.Ok? ==>
      && (forall c :: c in r.value.categories <==> c in db.categories && c.id != id)
      && r.value.questions == db.questions && r.value.choices == db.choices && r.value.answers == db.answers
      && r.value.links == db.links && r.value.papers == db.papers && r.value.nextId == db.nextId
  {
    DropCategoryMembers(db.categories, id);
    match FindCategory(db.categories, id)
    case None => Err(NullReference)
    case Some(c) =>
      if c.parentId == 0 then Err(RootCategory)
      else
        var n := QuestionsIn(db.questions, id);
        if n > 0 then Err(Referenced(id, n))
        else Ok(db.(categories := DropCategory(db.categories, id)))
  }
}
