/**
 * The final `myBlocks.sort(...)` of `getAllScratchBlocks`
 * (src/addons/addons/find-bar/userscript.js): by category rank, then by lowered label,
 * then by y. `Array.prototype.sort` is stable, so entries the comparator calls equal
 * keep their order; the model sorts by stable insertion.
 */
module ItemSort {
  import opened Wrappers
  import opened JsStrings
  import opened Categories
  import opened BlockItems

  /** What the comparator looks at. A null y takes part in `a.y - b.y` as 0. */
  datatype SortKey = SortKey(rank: int, lower: string, y: int)

  function KeyOf(item: BlockItem): SortKey {
    SortKey(Rank(item.cls), item.lower, item.y.GetOr(0))
  }

  /** The strict order the comparator induces on keys: lexicographic on (rank, lower, y). */
  predicate KeyLess(a: SortKey, b: SortKey) {
    || a.rank < b.rank
    || (a.rank == b.rank && LexLess(a.lower, b.lower))
    || (a.rank == b.rank && a.lower == b.lower && a.y < b.y)
  }

  lemma {:induction false} KeyLessIrreflexive(a: SortKey)
    ensures !KeyLess(a, a)
  {
    LexLessIrreflexive(a.lower);
  }

  lemma {:induction false} KeyLessTransitive(a: SortKey, b: SortKey, c: SortKey)
    requires KeyLess(a, b) && KeyLess(b, c)
    ensures KeyLess(a, c)
  {
    if a.rank == b.rank == c.rank && LexLess(a.lower, b.lower) && LexLess(b.lower, c.lower) {
      LexLessTransitive(a.lower, b.lower, c.lower);
    }
  }

  /** Distinct keys are ordered one way or the other: the comparator is a total order. */
  lemma {:induction false} KeyLessTotal(a: SortKey, b: SortKey)
    ensures a == b || KeyLess(a, b) || KeyLess(b, a)
  {
    LexLessTrichotomy(a.lower, b.lower);
  }

  /** The comparator passed to `sort`, as written. */
  function Compare(a: BlockItem, b: BlockItem): int {
    var t := Rank(a.cls) - Rank(b.cls);
    if t != 0 then t
    else if LexLess(a.lower, b.lower) then -1
    else if LexLess(b.lower, a.lower) then 1
    else a.y.GetOr(0) - b.y.GetOr(0)
  }

  /**
   * The comparator is consistent: its sign is the key order, it is zero exactly on equal
   * keys, and swapping the arguments flips the sign.
   */
  lemma {:induction false} CompareIsKeyOrder(a: BlockItem, b: BlockItem)
    ensures Compare(a, b) < 0 <==> KeyLess(KeyOf(a), KeyOf(b))
    ensures Compare(a, b) > 0 <==> KeyLess(KeyOf(b), KeyOf(a))
    ensures Compare(a, b) == 0 <==> KeyOf(a) == KeyOf(b)
    ensures Compare(a, b) < 0 <==> Compare(b, a) > 0
  {
    LexLessIrreflexive(a.lower);
    if LexLess(a.lower, b.lower) {
      LexLessAsymmetric(a.lower, b.lower);
    }
    if LexLess(b.lower, a.lower) {
      LexLessAsymmetric(b.lower, a.lower);
    }
    LexLessTrichotomy(a.lower, b.lower);
  }

  /** No later item has a key below an earlier one's. */
  predicate Sorted(s: seq<BlockItem>) {
    forall i, j :: 0 <= i < j < |s| ==> !KeyLess(KeyOf(s[j]), KeyOf(s[i]))
  }

  /** The items of `s` whose key is `k`, in order. */
  function WithKey(s: seq<BlockItem>, k: SortKey): (r: seq<BlockItem>)
    ensures |r| <= |s|
    decreases |s|
  {
    if |s| == 0 then []
    else (if KeyOf(s[0]) == k then [s[0]] else []) + WithKey(s[1..], k)
  }

  /** Places `x` in front of the first item it compares below, after every item it ties with. */
  function Insert(x: BlockItem, s: seq<BlockItem>): (r: seq<BlockItem>)
    ensures |r| == |s| + 1
    ensures forall y :: y in r <==> y == x || y in s
    ensures multiset(r) == multiset(s) + multiset{x}
    decreases |s|
  {
    if |s| == 0 then [x]
    else if Compare(x, s[0]) < 0 then [x] + s
    else
      assert s == [s[0]] + s[1..];
      [s[0]] + Insert(x, s[1..])
  }

  /** No item of `s` has a key below `k`. */
  predicate AtLeast(k: SortKey, s: seq<BlockItem>) {
    forall y :: y in s ==> !KeyLess(KeyOf(y), k)
  }

  lemma {:induction false} SortedCons(a: BlockItem, t: seq<BlockItem>)
    requires Sorted(t) && AtLeast(KeyOf(a), t)
    ensures Sorted([a] + t)
  {
    var r := [a] + t;
    forall i, j | 0 <= i < j < |r| ensures !KeyLess(KeyOf(r[j]), KeyOf(r[i])) {
      if i == 0 {
        assert r[j] == t[j - 1];
      } else {
        assert r[i] == t[i - 1] && r[j] == t[j - 1];
      }
    }
  }

  /** In a sorted sequence the head is a lower bound of the rest. */
  lemma {:induction false} SortedHead(s: seq<BlockItem>)
    requires Sorted(s) && |s| > 0
    ensures AtLeast(KeyOf(s[0]), s) && Sorted(s[1..])
  {
    KeyLessIrreflexive(KeyOf(s[0]));
    forall y | y in s ensures !KeyLess(KeyOf(y), KeyOf(s[0])) {
      var m :| 0 <= m < |s| && s[m] == y;
    }
  }

  /** Below a lower bound of `s` there is nothing of `s`, and so no item of key `k`. */
  lemma {:induction false} WithKeyBelow(s: seq<BlockItem>, k: SortKey, b: SortKey)
    requires AtLeast(b, s) && KeyLess(k, b)
    ensures WithKey(s, k) == []
    decreases |s|
  {
    if |s| > 0 {
      assert s[0] in s;
      assert AtLeast(b, s[1..]) by {
        forall y | y in s[1..] ensures y in s { }
      }
      WithKeyBelow(s[1..], k, b);
    }
  }

  lemma {:induction false} InsertSorted(x: BlockItem, s: seq<BlockItem>)
    requires Sorted(s)
    ensures Sorted(Insert(x, s))
    decreases |s|
  {
    if |s| > 0 {
      CompareIsKeyOrder(x, s[0]);
      SortedHead(s);
      if Compare(x, s[0]) < 0 {
        forall y | y in s ensures !KeyLess(KeyOf(y), KeyOf(x)) {
          if KeyLess(KeyOf(y), KeyOf(x)) {
            KeyLessTransitive(KeyOf(y), KeyOf(x), KeyOf(s[0]));
          }
        }
        SortedCons(x, s);
      } else {
        InsertSorted(x, s[1..]);
        forall y | y in Insert(x, s[1..]) ensures !KeyLess(KeyOf(y), KeyOf(s[0])) {
          if y != x {
            assert y in s[1..];
            assert y in s;
          }
        }
        SortedCons(s[0], Insert(x, s[1..]));
      }
    }
  }

  /** `x` joins its ties last: the items of every key keep their order, `x` after its equals. */
  lemma {:induction false} InsertWithKey(x: BlockItem, s: seq<BlockItem>, k: SortKey)
    requires Sorted(s)
    ensures WithKey(Insert(x, s), k) == WithKey(s, k) + (if KeyOf(x) == k then [x] else [])
    decreases |s|
  {
    if |s| == 0 {
      assert Insert(x, s) == [x];
      WithKeyCons(x, [], k);
    } else if Compare(x, s[0]) < 0 {
      InsertFront(x, s, k);
    } else {
      SortedHead(s);
      InsertWithKey(x, s[1..], k);
      InsertLater(x, s, k);
    }
  }

  lemma {:induction false} InsertFront(x: BlockItem, s: seq<BlockItem>, k: SortKey)
    requires Sorted(s) && |s| > 0 && Compare(x, s[0]) < 0
    ensures WithKey(Insert(x, s), k) == WithKey(s, k) + (if KeyOf(x) == k then [x] else [])
  {
    assert Insert(x, s) == [x] + s;
    CompareIsKeyOrder(x, s[0]);
    SortedHead(s);
    WithKeyFront(x, s, k);
  }

  lemma {:induction false} InsertLater(x: BlockItem, s: seq<BlockItem>, k: SortKey)
    requires |s| > 0 && Compare(x, s[0]) >= 0
    requires WithKey(Insert(x, s[1..]), k) == WithKey(s[1..], k) + (if KeyOf(x) == k then [x] else [])
    ensures WithKey(Insert(x, s), k) == WithKey(s, k) + (if KeyOf(x) == k then [x] else [])
  {
    var rest := Insert(x, s[1..]);
    assert Insert(x, s) == [s[0]] + rest;
    WithKeyCons(s[0], rest, k);
    WithKeyCons(s[0], s[1..], k);
    assert [s[0]] + s[1..] == s;
    var head := if KeyOf(s[0]) == k then [s[0]] else [];
    var tail := if KeyOf(x) == k then [x] else [];
    assert head + (WithKey(s[1..], k) + tail) == (head + WithKey(s[1..], k)) + tail;
  }

  /** `x` in front of items whose keys are all above its own joins its key's items last. */
  lemma {:induction false} WithKeyFront(x: BlockItem, s: seq<BlockItem>, k: SortKey)
    requires |s| > 0 && AtLeast(KeyOf(s[0]), s) && KeyLess(KeyOf(x), KeyOf(s[0]))
    ensures WithKey([x] + s, k) == WithKey(s, k) + (if KeyOf(x) == k then [x] else [])
  {
    WithKeyCons(x, s, k);
    if KeyOf(x) == k {
      WithKeyBelow(s, k, KeyOf(s[0]));
    }
  }

  lemma {:induction false} WithKeyCons(a: BlockItem, t: seq<BlockItem>, k: SortKey)
    ensures WithKey([a] + t, k) == (if KeyOf(a) == k then [a] else []) + WithKey(t, k)
  {
    assert ([a] + t)[1..] == t;
  }

  lemma {:induction false} WithKeyAppend(s: seq<BlockItem>, x: BlockItem, k: SortKey)
    ensures WithKey(s + [x], k) == WithKey(s, k) + (if KeyOf(x) == k then [x] else [])
    decreases |s|
  {
    if |s| > 0 {
      WithKeyAppend(s[1..], x, k);
      assert (s + [x])[1..] == s[1..] + [x];
    }
  }

  /**
   * `r` is `s` sorted stably: in key order, the same items with the same multiplicities,
   * and the items of every key in the order `s` has them.
   */
  ghost predicate StableSortOf(r: seq<BlockItem>, s: seq<BlockItem>) {
    && Sorted(r)
    && multiset(r) == multiset(s)
    && forall k :: WithKey(r, k) == WithKey(s, k)
  }

  /** The stable sort: earlier items are inserted first, so ties keep their order. */
  function Sort(s: seq<BlockItem>): (r: seq<BlockItem>)
    ensures StableSortOf(r, s)
    decreases |s|
  {
    if |s| == 0 then []
    else
      var prev := Sort(s[..|s| - 1]);
      SortStep(s, prev);
      Insert(s[|s| - 1], prev)
  }

  lemma {:induction false} SortStep(s: seq<BlockItem>, prev: seq<BlockItem>)
    requires |s| > 0 && StableSortOf(prev, s[..|s| - 1])
    ensures StableSortOf(Insert(s[|s| - 1], prev), s)
  {
    var init, x := s[..|s| - 1], s[|s| - 1];
    InsertSorted(x, prev);
    assert s == init + [x];
    forall k ensures WithKey(Insert(x, prev), k) == WithKey(s, k) {
      InsertWithKey(x, prev, k);
      WithKeyAppend(init, x, k);
    }
  }
}
