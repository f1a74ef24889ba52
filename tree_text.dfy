/** The printed form of the happy tree (`make_happy_tree` writing to `out`),
    and a reader for that form which shows that the printed text determines
    the tree. */
module TreeText {
  import opened Text
  import opened HappyTree

  /** The text that follows a node's name: `. canonical` for a pointer node,
      the headers separated by spaces for a canonical node. */
  function ValueText(v: Value): string
  {
    match v
    case Pointer(c) => " . " + c
    case Headers(hs) => " " + Join(hs, ' ')
  }

  /** The first line of a node: `(("name" . canonical)` or
      `(("name" h1 h2 ...)`, then a newline. */
  function NodeHead(name: string, v: Value): string
  {
    "((\"" + name + "\"" + ValueText(v) + ")\n"
  }

  /** `do_node`: `nil` for an empty range, otherwise the head, the left
      subtree, ` . `, the right subtree and a closing parenthesis. */
  function Serialize(t: Tree): (r: string)
    ensures t.Nil? <==> StartsWith(r, "nil")
  {
    match t
    case Nil => "nil"
    case Node(n, v, l, r) =>
      var out := NodeHead(n, v) + Serialize(l) + " . " + Serialize(r) + ")";
      assert out[1] == NodeHead(n, v)[1] == '(';
      out
  }

  /** What `make_happy_tree(out, syms)` writes: a quote, then the tree. */
  function TreeLiteral(items: seq<Item>): (r: string)
    ensures |r| > 1 && r[0] == '\''
    ensures StartsWith(r[1..], "nil") <==> |items| == 0
  {
    "'" + Serialize(MakeTree(items))
  }

  /** One generated `.el` file: `(setq NAME '<tree>)` and a newline. */
  function IndexFile(varName: string, items: seq<Item>): (r: string)
    ensures StartsWith(r, "(setq ")
    ensures r[|r| - 2..] == ")\n"
  {
    "(setq " + varName + " " + TreeLiteral(items) + ")\n"
  }

  // ---------------------------------------------------------------------
  // Reading the printed form back

  /** A header is printed as a bare Lisp atom. */
  predicate Atom(h: string)
  {
    h != "" && h != "." && ' ' !in h && ')' !in h
  }

  predicate PrintableValue(v: Value)
  {
    match v
    case Pointer(c) => ')' !in c
    case Headers(hs) => forall k | 0 <= k < |hs| :: Atom(hs[k])
  }

  /** Names are printed between double quotes without escaping. */
  predicate Printable(t: Tree)
  {
    match t
    case Nil => true
    case Node(n, v, l, r) => '"' !in n && PrintableValue(v) && Printable(l) && Printable(r)
  }

  function ReadValue(vt: string): Option<Value>
  {
    if StartsWith(vt, " . ") then Some(Pointer(vt[3..]))
    else if vt == " " then Some(Headers([]))
    else if StartsWith(vt, " ") then Some(Headers(Split(vt[1..], ' ')))
    else None
  }

  /** Reads a node's first line from the front of `s`: the name, the value
      and the text after the newline. */
  function ReadHead(s: string): (r: Option<(string, Value, string)>)
    ensures r.Some? ==> |r.value.2| < |s|
  {
    if !StartsWith(s, "((\"") || '"' !in s[3..] then None
    else
      var q := 3 + IndexOf(s[3..], '"');
      var tail := s[q + 1..];
      if ')' !in tail then None
      else
        var c := IndexOf(tail, ')');
        var v := ReadValue(tail[..c]);
        var after := tail[c + 1..];
        if v.None? || !StartsWith(after, "\n") then None
        else Some((s[3..q], v.value, after[1..]))
  }

  /** Reads one tree from the front of `s`, returning it with the text that
      follows it. */
  function ReadTree(s: string): (r: Option<(Tree, string)>)
    ensures r.Some? ==> |r.value.1| < |s|
    decreases |s|
  {
    if StartsWith(s, "nil") then Some((Nil, s[3..]))
    else match ReadHead(s)
      case None => None
      case Some((name, v, body)) =>
        match ReadTree(body)
        case None => None
        case Some((l, rest)) =>
          if !StartsWith(rest, " . ") then None
          else match ReadTree(rest[3..])
            case None => None
            case Some((r, rest2)) =>
              if !StartsWith(rest2, ")") then None
              else Some((Node(name, v, l, r), rest2[1..]))
  }

  lemma ValueTextAvoidsParen(v: Value)
    requires PrintableValue(v)
    ensures ')' !in ValueText(v)
  {
    if v.Headers? {
      JoinAvoids(v.hdrs, ' ', ')');
    }
  }

  lemma {:induction false} ReadValueText(v: Value)
    requires PrintableValue(v)
    ensures ReadValue(ValueText(v)) == Some(v)
  {
    match v
    case Pointer(c) =>
      assert ValueText(v)[3..] == c;
    case Headers(hs) =>
      var vt := ValueText(v);
      if |hs| > 0 {
        var first := hs[0];
        JoinPrefix(hs, ' ');
        var j := Join(hs, ' ');
        assert vt == " " + j;
        assert j[..|first|] == first;
        assert first[0] == j[0] == vt[1];
        if |first| == 1 {
          assert first == [first[0]];
          assert vt[1] != '.';
        } else {
          assert vt[2] == first[1] != ' ';
        }
        assert !StartsWith(vt, " . ");
        assert vt[1..] == j;
        SplitJoin(hs, ' ');
      }
  }

  lemma ReadQuotedName(n: string, tail: string)
    requires '"' !in n
    ensures var s := "((\"" + n + "\"" + tail;
      && StartsWith(s, "((\"") && '"' in s[3..]
      && IndexOf(s[3..], '"') == |n|
      && s[3..3 + |n|] == n && s[3 + |n| + 1..] == tail
  {
    var s := "((\"" + n + "\"" + tail;
    assert s[3..] == n + ['"'] + tail;
    IndexOfAfter(n, '"', tail);
  }

  lemma ReadValueUpToParen(vt: string, body: string)
    requires ')' !in vt
    ensures var tail := vt + ")\n" + body;
      && ')' in tail && IndexOf(tail, ')') == |vt|
      && tail[..|vt|] == vt
      && StartsWith(tail[|vt| + 1..], "\n") && tail[|vt| + 1..][1..] == body
  {
    var tail := vt + ")\n" + body;
    assert tail == vt + [')'] + ("\n" + body);
    IndexOfAfter(vt, ')', "\n" + body);
    assert tail[|vt| + 1..] == "\n" + body;
  }

  lemma ReadNodeHead(n: string, v: Value, body: string)
    requires '"' !in n && PrintableValue(v)
    ensures ReadHead(NodeHead(n, v) + body) == Some((n, v, body))
  {
    var vt := ValueText(v);
    var tail := vt + ")\n" + body;
    var s := NodeHead(n, v) + body;
    var open := "((\"" + n + "\"";
    ConcatAssoc(open + vt, ")\n", body);
    ConcatAssoc(open, vt, ")\n" + body);
    assert s == "((\"" + n + "\"" + tail;
    ReadQuotedName(n, tail);
    var q := 3 + |n|;
    assert s[3..q] == n && s[q + 1..] == tail;
    ValueTextAvoidsParen(v);
    ReadValueUpToParen(vt, body);
    ReadValueText(v);
    assert ReadValue(tail[..|vt|]) == Some(v);
  }

  lemma SerializeNodeSplit(t: Tree, rest: string)
    requires t.Node?
    ensures Serialize(t) + rest
      == NodeHead(t.name, t.value) + (Serialize(t.left) + (" . " + (Serialize(t.right) + (")" + rest))))
  {
    var h := NodeHead(t.name, t.value);
    assert Serialize(t) == h + Serialize(t.left) + " . " + Serialize(t.right) + ")";
    var l, r := Serialize(t.left), Serialize(t.right);
    ConcatAssoc(h + l + " . " + r, ")", rest);
    ConcatAssoc(h + l + " . ", r, ")" + rest);
    ConcatAssoc(h + l, " . ", r + (")" + rest));
    ConcatAssoc(h, l, " . " + (r + (")" + rest)));
  }

  /** A printed node, whatever follows it, does not read as `nil`. */
  lemma SerializeNodeNotNil(t: Tree, rest: string)
    requires t.Node?
    ensures !StartsWith(Serialize(t) + rest, "nil")
  {
    var whole := Serialize(t);
    assert (whole + rest)[..3] == whole[..3];
  }

  /** One step of `ReadTree` on a node: head, left tree, ` . `, right tree,
      closing parenthesis. */
  lemma ReadNodeParts(s: string, n: string, v: Value, body: string, l: Tree, mid: string, r: Tree, rest: string)
    requires !StartsWith(s, "nil")
    requires ReadHead(s) == Some((n, v, body))
    requires ReadTree(body) == Some((l, " . " + mid))
    requires ReadTree(mid) == Some((r, ")" + rest))
    ensures ReadTree(s) == Some((Node(n, v, l, r), rest))
  {
    assert (" . " + mid)[3..] == mid;
    assert (")" + rest)[1..] == rest;
  }

  /** Reading the printed tree gives the tree back and leaves whatever text
      followed it untouched. */
  lemma {:induction false} ReadSerialize(t: Tree, rest: string)
    requires Printable(t)
    ensures ReadTree(Serialize(t) + rest) == Some((t, rest))
  {
    match t
    case Nil =>
      assert (Serialize(t) + rest)[3..] == rest;
    case Node(n, v, l, r) =>
      var mid := Serialize(r) + (")" + rest);
      var body := Serialize(l) + (" . " + mid);
      var s := Serialize(t) + rest;
      SerializeNodeSplit(t, rest);
      SerializeNodeNotNil(t, rest);
      ReadNodeHead(n, v, body);
      ReadSerialize(l, " . " + mid);
      ReadSerialize(r, ")" + rest);
      ReadNodeParts(s, n, v, body, l, mid, r, rest);
  }

  /** The whole printed tree reads back as the tree with nothing left over. */
  lemma ReadSerializeAll(t: Tree)
    requires Printable(t)
    ensures ReadTree(Serialize(t)) == Some((t, ""))
  {
    ReadSerialize(t, "");
    assert Serialize(t) + "" == Serialize(t);
  }

  predicate PrintableItem(it: Item)
  {
    '"' !in it.0 && PrintableValue(it.1)
  }

  lemma {:induction false} PrintableFromItems(t: Tree)
    requires forall k | 0 <= k < |InOrder(t)| :: PrintableItem(InOrder(t)[k])
    ensures Printable(t)
  {
    match t
    case Nil =>
    case Node(n, v, l, r) =>
      var s := InOrder(t);
      assert s == InOrder(l) + [(n, v)] + InOrder(r);
      assert s[|InOrder(l)|] == (n, v);
      assert forall k | 0 <= k < |InOrder(l)| :: InOrder(l)[k] == s[k];
      assert forall k | 0 <= k < |InOrder(r)| :: InOrder(r)[k] == s[|InOrder(l)| + 1 + k];
      PrintableFromItems(l);
      PrintableFromItems(r);
  }

  /** The tree built from printable items is printable. */
  lemma MakeTreePrintable(items: seq<Item>)
    requires forall k | 0 <= k < |items| :: PrintableItem(items[k])
    ensures Printable(MakeTree(items))
  {
    var t := MakeTree(items);
    MakeTreeInOrder(items);
    forall k | 0 <= k < |InOrder(t)| ensures PrintableItem(InOrder(t)[k]) {
      assert InOrder(t)[k] in multiset(items);
    }
    PrintableFromItems(t);
  }

  /** When no name holds a double quote and every header is a bare atom, the
      text `make_happy_tree` writes reads back as exactly the built tree. */
  lemma TreeLiteralReadsBack(items: seq<Item>)
    requires forall k | 0 <= k < |items| :: PrintableItem(items[k])
    ensures TreeLiteral(items)[0] == '\''
    ensures ReadTree(TreeLiteral(items)[1..]) == Some((MakeTree(items), ""))
  {
    var t := MakeTree(items);
    MakeTreePrintable(items);
    ReadSerializeAll(t);
    assert TreeLiteral(items)[1..] == Serialize(t);
  }

  /** A whole `.el` file is `(setq NAME '` followed by text that reads back
      as the built tree, with only the closing `)` and newline left over. */
  lemma IndexFileReadsBack(varName: string, items: seq<Item>)
    requires forall k | 0 <= k < |items| :: PrintableItem(items[k])
    ensures var r := IndexFile(varName, items);
      var p := |varName| + 8;
      && |r| > p
      && r[..p] == "(setq " + varName + " '"
      && ReadTree(r[p..]) == Some((MakeTree(items), ")\n"))
  {
    var t := MakeTree(items);
    var open := "(setq " + varName + " ";
    var body := Serialize(t) + ")\n";
    MakeTreePrintable(items);
    ReadSerialize(t, ")\n");
    assert IndexFile(varName, items) == open + TreeLiteral(items) + ")\n";
    assert TreeLiteral(items) == "'" + Serialize(t);
    SplitAfterQuote(open, Serialize(t), ")\n");
  }

  /** Regrouping `a + ("'" + b) + c` around the quote. */
  lemma SplitAfterQuote(a: string, b: string, c: string)
    ensures var w := a + ("'" + b) + c;
      && |w| >= |a| + 1
      && w[..|a| + 1] == a + "'"
      && w[|a| + 1..] == b + c
  {
    var w := a + ("'" + b) + c;
    var x := a + "'";
    assert w == x + (b + c);
    assert w[..|x|] == x && w[|x|..] == b + c;
  }
}
