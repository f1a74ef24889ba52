/** `make_happy_tree` in generate.py: sort the (name, value) pairs by name,
    build a balanced binary search tree by always taking the middle element
    of the range, and print it as an Emacs Lisp cons tree. */
module HappyTree {
  import opened Text

  /** A node's payload: a canonical node lists its headers, a pointer node
      names the canonical symbol it stands for. */
  datatype Value = Headers(hdrs: seq<string>) | Pointer(canonical: string)

  type Item = (string, Value)

  datatype Tree = Nil | Node(name: string, value: Value, left: Tree, right: Tree)

  // ---------------------------------------------------------------------
  // Sorting by name (`syms.sort(key=operator.itemgetter(0))`)

  /** Ordered by name, ties allowed. */
  predicate SortedByName(s: seq<Item>)
  {
    forall i, j | 0 <= i < j < |s| :: !Less(s[j].0, s[i].0)
  }

  /** Ordered by name with no two equal names. */
  predicate StrictlySorted(s: seq<Item>)
  {
    forall i, j | 0 <= i < j < |s| :: Less(s[i].0, s[j].0)
  }

  predicate DistinctNames(s: seq<Item>)
  {
    forall i, j | 0 <= i < j < |s| :: s[i].0 != s[j].0
  }

  /** Places `x` before the first element whose name is not smaller, so
      that equal names keep their original order (Python's sort is stable). */
  function Insert(x: Item, s: seq<Item>): (r: seq<Item>)
    requires SortedByName(s)
    ensures SortedByName(r)
    ensures multiset(r) == multiset(s) + multiset{x}
  {
    if |s| == 0 then [x]
    else if Less(s[0].0, x.0) then
      var tail := Insert(x, s[1..]);
      assert s == [s[0]] + s[1..];
      InsertedAbove(x, s, tail);
      [s[0]] + tail
    else
      NotBelowFirst(x, s);
      [x] + s
  }

  /** Every pair of `tail`, which holds `x` and the rest of `s`, is not
      below the head of `s` when `x` is above it. */
  lemma InsertedAbove(x: Item, s: seq<Item>, tail: seq<Item>)
    requires |s| > 0 && SortedByName(s) && Less(s[0].0, x.0)
    requires multiset(tail) == multiset(s[1..]) + multiset{x}
    ensures forall k | 0 <= k < |tail| :: !Less(tail[k].0, s[0].0)
  {
    forall k | 0 <= k < |tail| ensures !Less(tail[k].0, s[0].0) {
      assert tail[k] in multiset(tail);
      if tail[k] == x {
        LessAsymmetric(s[0].0, x.0);
      } else {
        assert tail[k] in s[1..];
      }
    }
  }

  /** When `x` is not above the head of sorted `s`, no pair of `s` is below
      `x`. */
  lemma NotBelowFirst(x: Item, s: seq<Item>)
    requires |s| > 0 && SortedByName(s) && !Less(s[0].0, x.0)
    ensures forall k | 0 <= k < |s| :: !Less(s[k].0, x.0)
  {
    forall k | 0 <= k < |s| ensures !Less(s[k].0, x.0) {
      if k > 0 {
        NotLessTransitive(x.0, s[0].0, s[k].0);
      }
    }
  }

  /** Stable insertion sort by name. */
  function Sort(s: seq<Item>): (r: seq<Item>)
    ensures SortedByName(r)
    ensures multiset(r) == multiset(s)
  {
    if |s| == 0 then []
    else
      assert s == [s[0]] + s[1..];
      Insert(s[0], Sort(s[1..]))
  }

  lemma {:induction false} InsertDistinct(x: Item, s: seq<Item>)
    requires SortedByName(s) && DistinctNames(s)
    requires forall k | 0 <= k < |s| :: s[k].0 != x.0
    ensures DistinctNames(Insert(x, s))
  {
    if |s| > 0 && Less(s[0].0, x.0) {
      InsertDistinct(x, s[1..]);
      var tail := Insert(x, s[1..]);
      forall k | 0 <= k < |tail| ensures tail[k].0 != s[0].0 {
        assert tail[k] in multiset(tail);
        if tail[k] != x {
          assert tail[k] in multiset(s[1..]);
          var j :| 0 <= j < |s[1..]| && s[1..][j] == tail[k];
          assert s[j + 1] == tail[k];
        }
      }
    }
  }

  /** Sorting keeps names distinct, so with distinct names the sorted
      sequence is strictly increasing. */
  lemma {:induction false} SortStrict(s: seq<Item>)
    requires DistinctNames(s)
    ensures StrictlySorted(Sort(s))
  {
    if |s| > 0 {
      SortDistinct(s);
      var r := Sort(s);
      forall i, j | 0 <= i < j < |r| ensures Less(r[i].0, r[j].0) {
        LessTotal(r[i].0, r[j].0);
      }
    }
  }

  lemma {:induction false} SortDistinct(s: seq<Item>)
    requires DistinctNames(s)
    ensures DistinctNames(Sort(s))
  {
    if |s| > 0 {
      SortDistinct(s[1..]);
      var rest := Sort(s[1..]);
      forall k | 0 <= k < |rest| ensures rest[k].0 != s[0].0 {
        assert rest[k] in multiset(s[1..]);
        var j :| 0 <= j < |s[1..]| && s[1..][j] == rest[k];
        assert s[j + 1] == rest[k];
      }
      InsertDistinct(s[0], rest);
    }
  }

  // ---------------------------------------------------------------------
  // Building (`do_node`)

  /** The middle of `[start, end)`, `start + (end - start) / 2`, with `/`
      the floor division Python 2 applies to two ints: the part left of it
      is as long as the part right of it, or one longer. */
  function Pivot(start: nat, end: nat): (p: nat)
    requires start < end
    ensures start <= p < end
    ensures end - (p + 1) <= p - start <= end - (p + 1) + 1
    ensures p - start == (end - start) / 2
  {
    start + (end - start) / 2
  }

  /** `do_node(start, end)`: the pivot becomes the node, the ranges on
      either side of it its subtrees. */
  function BuildRange(s: seq<Item>, start: nat, end: nat): (t: Tree)
    requires start <= end <= |s|
    ensures t == Nil <==> start == end
    decreases end - start
  {
    if start == end then Nil
    else
      var pivot := Pivot(start, end);
      Node(s[pivot].0, s[pivot].1, BuildRange(s, start, pivot), BuildRange(s, pivot + 1, end))
  }

  function InOrder(t: Tree): seq<Item>
  {
    match t
    case Nil => []
    case Node(n, v, l, r) => InOrder(l) + [(n, v)] + InOrder(r)
  }

  function Size(t: Tree): nat
  {
    match t
    case Nil => 0
    case Node(_, _, l, r) => Size(l) + 1 + Size(r)
  }

  function Height(t: Tree): nat
  {
    match t
    case Nil => 0
    case Node(_, _, l, r) => 1 + if Height(l) < Height(r) then Height(r) else Height(l)
  }

  /** At every node the left subtree has as many nodes as the right one, or
      one more. */
  predicate Balanced(t: Tree)
  {
    match t
    case Nil => true
    case Node(_, _, l, r) => Size(r) <= Size(l) <= Size(r) + 1 && Balanced(l) && Balanced(r)
  }

  /** Number of binary digits of `n`, which is ceil(log2(n + 1)). */
  function BitLength(n: nat): nat
  {
    if n == 0 then 0 else 1 + BitLength(n / 2)
  }

  function Pow2(k: nat): nat
  {
    if k == 0 then 1 else 2 * Pow2(k - 1)
  }

  /** `BitLength(n)` is the least `h` with `n + 1 <= 2^h`, that is
      ceil(log2(n + 1)). */
  lemma {:induction false} BitLengthIsCeilLog(n: nat)
    ensures n < Pow2(BitLength(n))
    ensures BitLength(n) > 0 ==> Pow2(BitLength(n) - 1) <= n
  {
    if n > 0 {
      BitLengthIsCeilLog(n / 2);
    }
  }

  lemma {:induction false} BitLengthMonotone(a: nat, b: nat)
    requires a <= b
    ensures BitLength(a) <= BitLength(b)
  {
    if a > 0 {
      BitLengthMonotone(a / 2, b / 2);
    }
  }

  /** The in-order traversal of the tree built on `[start, end)` is exactly
      that slice: every element appears once, in order. */
  lemma {:induction false} BuildInOrder(s: seq<Item>, start: nat, end: nat)
    requires start <= end <= |s|
    ensures InOrder(BuildRange(s, start, end)) == s[start..end]
    decreases end - start
  {
    if start < end {
      var pivot := Pivot(start, end);
      BuildInOrder(s, start, pivot);
      BuildInOrder(s, pivot + 1, end);
      var t := BuildRange(s, start, end);
      assert t == Node(s[pivot].0, s[pivot].1, BuildRange(s, start, pivot), BuildRange(s, pivot + 1, end));
      assert InOrder(t) == s[start..pivot] + [s[pivot]] + s[pivot + 1..end];
      SliceAround(s, start, pivot, end);
    }
  }

  lemma SliceAround<T>(s: seq<T>, lo: nat, p: nat, hi: nat)
    requires lo <= p < hi <= |s|
    ensures s[lo..hi] == s[lo..p] + [s[p]] + s[p + 1..hi]
  {
    assert s[lo..hi] == s[lo..p] + s[p..hi];
    assert s[p..hi] == [s[p]] + s[p + 1..hi];
  }

  lemma {:induction false} BuildSize(s: seq<Item>, start: nat, end: nat)
    requires start <= end <= |s|
    ensures Size(BuildRange(s, start, end)) == end - start
    decreases end - start
  {
    if start < end {
      var pivot := Pivot(start, end);
      BuildSize(s, start, pivot);
      BuildSize(s, pivot + 1, end);
    }
  }

  /** Taking the middle element leaves the two halves within one of each
      other, at every node. */
  lemma {:induction false} BuildBalanced(s: seq<Item>, start: nat, end: nat)
    requires start <= end <= |s|
    ensures Balanced(BuildRange(s, start, end))
    decreases end - start
  {
    if start < end {
      var pivot := Pivot(start, end);
      BuildSize(s, start, pivot);
      BuildSize(s, pivot + 1, end);
      BuildBalanced(s, start, pivot);
      BuildBalanced(s, pivot + 1, end);
    }
  }

  /** The tree built on `n` elements has height ceil(log2(n + 1)). */
  lemma {:induction false} BuildHeight(s: seq<Item>, start: nat, end: nat)
    requires start <= end <= |s|
    ensures Height(BuildRange(s, start, end)) == BitLength(end - start)
    decreases end - start
  {
    if start < end {
      var pivot := Pivot(start, end);
      BuildHeight(s, start, pivot);
      BuildHeight(s, pivot + 1, end);
      HalvesHeight(end - start, pivot - start, end - (pivot + 1));
    }
  }

  /** Splitting `n` elements around the middle leaves a left part of
      `n / 2` and a right part no larger, so the taller side has
      `BitLength(n) - 1` levels. */
  lemma HalvesHeight(n: nat, left: nat, right: nat)
    requires n > 0 && left == n / 2 && right <= left
    ensures BitLength(n) == 1 + BitLength(left)
    ensures BitLength(right) <= BitLength(left)
  {
    BitLengthMonotone(right, left);
  }

  /** `make_happy_tree` without the printing: sort, then build on the whole
      range. */
  function MakeTree(items: seq<Item>): (t: Tree)
    ensures Size(t) == |items|
  {
    var s := Sort(items);
    assert |s| == |items| by {
      assert |multiset(s)| == |multiset(items)|;
    }
    BuildSize(s, 0, |s|);
    BuildRange(s, 0, |s|)
  }

  /** The built tree's in-order traversal is the input sorted by name:
      each input pair appears exactly once, in name order. */
  lemma MakeTreeInOrder(items: seq<Item>)
    ensures InOrder(MakeTree(items)) == Sort(items)
    ensures SortedByName(InOrder(MakeTree(items)))
    ensures multiset(InOrder(MakeTree(items))) == multiset(items)
  {
    var s := Sort(items);
    BuildInOrder(s, 0, |s|);
    assert s[0..|s|] == s;
  }

  /** The built tree has one node per input pair and is balanced at every
      node; an empty input gives `Nil`. */
  lemma MakeTreeBalanced(items: seq<Item>)
    ensures Size(MakeTree(items)) == |items|
    ensures Balanced(MakeTree(items))
    ensures |items| == 0 <==> MakeTree(items) == Nil
  {
    var s := Sort(items);
    var t := BuildRange(s, 0, |s|);
    assert MakeTree(items) == t;
    assert |s| == |items| by {
      assert |multiset(s)| == |multiset(items)|;
    }
    BuildSize(s, 0, |s|);
    BuildBalanced(s, 0, |s|);
  }

  /** The built tree has height ceil(log2(n + 1)) for n input pairs, so a
      search visits at most that many nodes. */
  lemma MakeTreeHeight(items: seq<Item>)
    ensures Height(MakeTree(items)) == BitLength(|items|)
    ensures |items| < Pow2(Height(MakeTree(items)))
  {
    var s := Sort(items);
    assert |s| == |items| by {
      assert |multiset(s)| == |multiset(items)|;
    }
    BuildHeight(s, 0, |s|);
    BitLengthIsCeilLog(|items|);
  }

  // ---------------------------------------------------------------------
  // Searching

  /** Binary search by name, as the Lisp side walks the printed tree:
      smaller names go left, larger ones right. */
  function Find(t: Tree, key: string): (found: Option<Value>)
    ensures found.Some? ==> (key, found.value) in InOrder(t)
  {
    match t
    case Nil => None
    case Node(n, v, l, r) =>
      if Less(key, n) then Find(l, key)
      else if Less(n, key) then Find(r, key)
      else
        LessTotal(key, n);
        Some(v)
  }

  lemma {:induction false} BuildFindsPresent(s: seq<Item>, start: nat, end: nat, i: nat)
    requires start <= i < end <= |s|
    requires StrictlySorted(s)
    ensures Find(BuildRange(s, start, end), s[i].0) == Some(s[i].1)
    decreases end - start
  {
    var pivot := Pivot(start, end);
    if i < pivot {
      LessAsymmetric(s[i].0, s[pivot].0);
      BuildFindsPresent(s, start, pivot, i);
    } else if i > pivot {
      LessAsymmetric(s[pivot].0, s[i].0);
      BuildFindsPresent(s, pivot + 1, end, i);
    } else {
      LessIrreflexive(s[i].0);
    }
  }

  lemma {:induction false} BuildFindsAbsent(s: seq<Item>, start: nat, end: nat, key: string)
    requires start <= end <= |s|
    requires forall k | start <= k < end :: s[k].0 != key
    ensures Find(BuildRange(s, start, end), key) == None
    decreases end - start
  {
    if start < end {
      var pivot := Pivot(start, end);
      BuildFindsAbsent(s, start, pivot, key);
      BuildFindsAbsent(s, pivot + 1, end, key);
      LessTotal(key, s[pivot].0);
    }
  }

  /** With distinct names (as `dict.items()` always has), searching the
      built tree finds a name exactly when it was given, with the value it
      was given. */
  lemma FindMakeTree(items: seq<Item>, key: string, v: Value)
    requires DistinctNames(items)
    ensures Find(MakeTree(items), key) == Some(v) <==> (key, v) in items
  {
    var s := Sort(items);
    assert MakeTree(items) == BuildRange(s, 0, |s|);
    SortStrict(items);
    if (key, v) in items {
      assert (key, v) in multiset(s);
      var i :| 0 <= i < |s| && s[i] == (key, v);
      BuildFindsPresent(s, 0, |s|, i);
    }
    if Find(MakeTree(items), key) == Some(v) {
      if i :| 0 <= i < |s| && s[i].0 == key {
        BuildFindsPresent(s, 0, |s|, i);
        assert s[i] in multiset(s);
      } else {
        BuildFindsAbsent(s, 0, |s|, key);
      }
    }
  }

  /** A name that was not given is not found. */
  lemma FindMakeTreeAbsent(items: seq<Item>, key: string)
    requires forall k | 0 <= k < |items| :: items[k].0 != key
    ensures Find(MakeTree(items), key) == None
  {
    var s := Sort(items);
    assert MakeTree(items) == BuildRange(s, 0, |s|);
    forall k | 0 <= k < |s| ensures s[k].0 != key {
      assert s[k] in multiset(items);
    }
    BuildFindsAbsent(s, 0, |s|, key);
  }
}
