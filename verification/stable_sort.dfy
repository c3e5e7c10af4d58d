/** A stable sort on an integer key, the shape of every ordering the services
    perform in memory: `List.sort` with a `Comparator.comparingInt` (paper
    questions by type rank, choices by `sort`) and a `Stream.sorted` (cache
    entries by score). Java's sorts are stable, and so is this one: it is an
    insertion sort that places each element after everything whose key does
    not exceed its own. */
module StableSort {

  predicate SortedBy<T>(s: seq<T>, key: T -> int) {
    forall i, j :: 0 <= i < j < |s| ==> key(s[i]) <= key(s[j])
  }

  /** the subsequence of `s` whose key is `k`, in order */
  function WithKey<T>(s: seq<T>, key: T -> int, k: int): (r: seq<T>)
    ensures |r| <= |s|
  {
    if |s| == 0 then []
    else WithKey(s[..|s| - 1], key, k) + (if key(s[|s| - 1]) == k then [s[|s| - 1]] else [])
  }

  /** Stability: for every key value, the elements carrying it appear in the
      same relative order in `r` as in `s`. */
  ghost predicate Stable<T>(s: seq<T>, r: seq<T>, key: T -> int) {
    forall k :: WithKey(r, key, k) == WithKey(s, key, k)
  }

  /** `x` placed after the last element of `r` whose key is at most `key(x)` */
  function Insert<T>(r: seq<T>, x: T, key: T -> int): (r': seq<T>)
    ensures |r'| == |r| + 1
  {
    if |r| == 0 || key(r[|r| - 1]) <= key(x) then r + [x]
    else Insert(r[..|r| - 1], x, key) + [r[|r| - 1]]
  }

  function SortBy<T>(s: seq<T>, key: T -> int): (r: seq<T>)
    ensures |r| == |s|
  {
    if |s| == 0 then [] else Insert(SortBy(s[..|s| - 1], key), s[|s| - 1], key)
  }

  lemma {:induction false} InsertPermutes<T>(r: seq<T>, x: T, key: T -> int)
    ensures multiset(Insert(r, x, key)) == multiset(r) + multiset{x}
  {
    if |r| > 0 && key(x) < key(r[|r| - 1]) {
      InsertPermutes(r[..|r| - 1], x, key);
      assert r == r[..|r| - 1] + [r[|r| - 1]];
    }
  }

  lemma {:induction false} InsertSorted<T>(r: seq<T>, x: T, key: T -> int)
    requires SortedBy(r, key)
    ensures SortedBy(Insert(r, x, key), key)
    ensures forall i :: 0 <= i < |r| + 1 ==> key(Insert(r, x, key)[i]) == key(x) || key(Insert(r, x, key)[i]) in KeysOf(r, key)
  {
    if |r| > 0 && key(x) < key(r[|r| - 1]) {
      var r0 := r[..|r| - 1];
      InsertSorted(r0, x, key);
      var ins := Insert(r0, x, key);
      forall i | 0 <= i < |ins| ensures key(ins[i]) <= key(r[|r| - 1]) {
        if key(ins[i]) != key(x) {
          var j :| 0 <= j < |r0| && key(r0[j]) == key(ins[i]);
          assert r0[j] == r[j];
        }
      }
      forall i | 0 <= i < |r| + 1
        ensures key(Insert(r, x, key)[i]) == key(x) || key(Insert(r, x, key)[i]) in KeysOf(r, key)
      {
        if i < |ins| && key(ins[i]) != key(x) {
          var j :| 0 <= j < |r0| && key(r0[j]) == key(ins[i]);
          assert r0[j] == r[j];
        }
      }
    }
  }

  /** the key values occurring in `s` */
  ghost function KeysOf<T>(s: seq<T>, key: T -> int): set<int>
  {
    set i | 0 <= i < |s| :: key(s[i])
  }

  lemma {:induction false} InsertStable<T>(r: seq<T>, x: T, key: T -> int, k: int)
    requires SortedBy(r, key)
    ensures WithKey(Insert(r, x, key), key, k) == WithKey(r, key, k) + (if key(x) == k then [x] else [])
  {
    if |r| > 0 && key(x) < key(r[|r| - 1]) {
      var r0 := r[..|r| - 1];
      InsertStable(r0, x, key, k);
      var ins := Insert(r0, x, key);
      assert (ins + [r[|r| - 1]])[..|ins|] == ins;
    } else {
      assert (r + [x])[..|r|] == r;
    }
  }

  /** The result is ordered by key, is a permutation of the input, and keeps
      equal-key elements in their input order. */
  lemma {:induction false} SortByCorrect<T>(s: seq<T>, key: T -> int)
    ensures SortedBy(SortBy(s, key), key)
    ensures multiset(SortBy(s, key)) == multiset(s)
    ensures Stable(s, SortBy(s, key), key)
  {
    if |s| > 0 {
      var s0 := s[..|s| - 1];
      SortByCorrect(s0, key);
      InsertSorted(SortBy(s0, key), s[|s| - 1], key);
      InsertPermutes(SortBy(s0, key), s[|s| - 1], key);
      assert s == s0 + [s[|s| - 1]];
      forall k ensures WithKey(SortBy(s, key), key, k) == WithKey(s, key, k) {
        InsertStable(SortBy(s0, key), s[|s| - 1], key, k);
      }
    }
  }

  /** Sorting an already ordered sequence changes nothing. */
  lemma {:induction false} SortBySortedIsIdentity<T>(s: seq<T>, key: T -> int)
    requires SortedBy(s, key)
    ensures SortBy(s, key) == s
  {
    if |s| > 0 {
      var s0 := s[..|s| - 1];
      assert SortedBy(s0, key);
      SortBySortedIsIdentity(s0, key);
      assert s == s0 + [s[|s| - 1]];
    }
  }

  /** the permutation part of `SortByCorrect` alone */
  lemma SortByPermutes<T>(s: seq<T>, key: T -> int)
    ensures multiset(SortBy(s, key)) == multiset(s)
  {
    SortByCorrect(s, key);
  }
}
