/** The output step of `main`: each finished table is handed to
    `make_happy_tree` as `syms.items()`. Header sets become the header
    lists of canonical nodes and aliases become pointer nodes. */
module IndexOutput {
  import opened Text
  import opened HappyTree
  import opened TreeText
  import opened SymbolTables

  /** The order in which a header set is listed when printed; iterating a
      Python set fixes none, so it is a parameter. */
  type Lister = set<string> -> seq<string>

  /** `list` lists every header of a set once and nothing else, as
      `" ".join` over the set does. */
  ghost predicate Lists(list: Lister)
  {
    forall hs :: Enumerates(list(hs), hs)
  }

  /** The tree value of an index entry. */
  function EntryValue(e: Entry, list: Lister): Value
  {
    match e
    case HeaderSet(hs) => Headers(list(hs))
    case Alias(c) => Pointer(c)
  }

  /** The C index holds only header sets. */
  function AsEntries(t: Table): (r: map<string, Entry>)
    ensures r.Keys == t.Keys
    ensures forall k | k in r :: r[k] == HeaderSet(t[k])
  {
    map k | k in t :: HeaderSet(t[k])
  }

  /** `syms.items()` of the index `r`, listed in iteration order `order`. */
  function Items(r: map<string, Entry>, order: seq<string>, list: Lister): (items: seq<Item>)
    requires forall k | 0 <= k < |order| :: order[k] in r
    ensures |items| == |order|
    ensures forall k | 0 <= k < |items| :: items[k] == (order[k], EntryValue(r[order[k]], list))
  {
    if |order| == 0 then []
    else
      var rest := Items(r, order[1..], list);
      assert forall k | 1 <= k < |order| :: order[k] == order[1..][k - 1];
      [(order[0], EntryValue(r[order[0]], list))] + rest
  }

  /** The elements of a nonempty sequence are its head and those of its tail. */
  lemma ElementsConsed(s: seq<string>)
    requires |s| > 0
    ensures (set x | x in s) == {s[0]} + (set x | x in s[1..])
  {
    assert s == [s[0]] + s[1..];
  }

  /** The elements of `s` number `|s|` at most, and exactly `|s|` only when
      no element repeats. */
  lemma {:induction false} CountDistinct(s: seq<string>)
    ensures |set x | x in s| <= |s|
    ensures |set x | x in s| == |s| ==> forall i, j | 0 <= i < j < |s| :: s[i] != s[j]
  {
    if |s| > 0 {
      var tail := s[1..];
      CountDistinct(tail);
      ElementsConsed(s);
      if |set x | x in s| == |s| {
        assert s[0] !in (set x | x in tail);
        forall i, j | 0 <= i < j < |s| ensures s[i] != s[j] {
          if i == 0 {
            assert s[j] == tail[j - 1];
          } else {
            assert s[i] == tail[i - 1] && s[j] == tail[j - 1];
          }
        }
      }
    }
  }

  /** An iteration order of a dictionary never repeats a key. */
  lemma EnumeratesDistinct(order: seq<string>, keys: set<string>)
    requires Enumerates(order, keys)
    ensures forall i, j | 0 <= i < j < |order| :: order[i] != order[j]
  {
    assert (set x | x in order) == keys;
    CountDistinct(order);
  }

  /** Searching the tree printed for an index finds each key of the index
      with its entry, and finds nothing for any other name. */
  lemma FindIndex(r: map<string, Entry>, order: seq<string>, list: Lister, key: string)
    requires Enumerates(order, r.Keys)
    ensures key in r ==> Find(MakeTree(Items(r, order, list)), key) == Some(EntryValue(r[key], list))
    ensures key !in r ==> Find(MakeTree(Items(r, order, list)), key) == None
    ensures key in r && r[key].HeaderSet? && Lists(list) ==>
      Enumerates(Find(MakeTree(Items(r, order, list)), key).value.hdrs, r[key].headers)
  {
    var items := Items(r, order, list);
    EnumeratesDistinct(order, r.Keys);
    assert DistinctNames(items);
    if key in r {
      var k :| 0 <= k < |order| && order[k] == key;
      assert items[k] == (key, EntryValue(r[key], list));
      FindMakeTree(items, key, EntryValue(r[key], list));
    } else {
      FindMakeTreeAbsent(items, key);
    }
  }

  /** The C index, whose entries are all header sets: searching its tree
      finds each C name with its header list, and nothing else. */
  lemma FindCIndex(c: Table, order: seq<string>, list: Lister, key: string)
    requires Enumerates(order, c.Keys)
    ensures key in c ==> Find(MakeTree(Items(AsEntries(c), order, list)), key) == Some(Headers(list(c[key])))
    ensures key !in c ==> Find(MakeTree(Items(AsEntries(c), order, list)), key) == None
    ensures key in c && Lists(list) ==>
      Enumerates(Find(MakeTree(Items(AsEntries(c), order, list)), key).value.hdrs, c[key])
  {
    FindIndex(AsEntries(c), order, list, key);
  }
}
