/**
 * An abstract XML document, standing in for the `org.w3c.dom` tree the editor
 * parses, queries and mutates.  Nodes are values; an edit produces a new tree.
 *
 * The outline of a forest (its nodes in document order, each with its depth and
 * its own label but without its children) is what an indenting serializer prints
 * line by line; the lemmas below use it to say which parts of a document an edit
 * touches and that everything else stays where it was.
 */
module Dom {
  import opened Wrappers
  import opened Whitespace

  datatype Node =
    | Text(value: string)
    | Comment(data: string)
    | Element(tag: string, attrs: map<string, string>, children: seq<Node>)

  /** A parsed document: its root element. */
  datatype Document = Document(root: Node)

  /** DOM `getTextContent`: the text of a node; comments inside an element do not count. */
  function TextContent(n: Node): string
    decreases n
  {
    match n
    case Text(v) => v
    case Comment(d) => d
    case Element(_, _, cs) => ChildrenText(cs)
  }

  function ChildrenText(cs: seq<Node>): string
    decreases cs
  {
    if cs == [] then ""
    else (if cs[0].Comment? then "" else TextContent(cs[0])) + ChildrenText(cs[1..])
  }

  /** An element with the given tag (a child step of an XPath location path). */
  predicate IsElementTagged(n: Node, tag: string) {
    n.Element? && n.tag == tag
  }

  /** DOM `getChildNodes`: only elements have children. */
  function ChildNodes(n: Node): seq<Node> {
    if n.Element? then n.children else []
  }

  // ---------------------------------------------------------------------------
  // Search in document order (DOM `getElementsByTagName(tag).item(0)`)

  /** Some element of the forest, at any depth, has the given tag. */
  predicate Has(ns: seq<Node>, tag: string)
    decreases ns
  {
    ns != [] && (NodeHas(ns[0], tag) || Has(ns[1..], tag))
  }

  predicate NodeHas(n: Node, tag: string)
    decreases n
  {
    n.Element? && (n.tag == tag || Has(n.children, tag))
  }

  /** The first element with the tag in document order (pre-order). */
  function FirstElement(ns: seq<Node>, tag: string): (r: Option<Node>)
    ensures r.Some? <==> Has(ns, tag)
    ensures r.Some? ==> r.value.Element? && r.value.tag == tag
    decreases ns
  {
    if ns == [] then None
    else if NodeHas(ns[0], tag) then Some(FirstIn(ns[0], tag))
    else FirstElement(ns[1..], tag)
  }

  function FirstIn(n: Node, tag: string): (r: Node)
    requires NodeHas(n, tag)
    ensures r.Element? && r.tag == tag
    decreases n
  {
    if n.tag == tag then n else FirstElement(n.children, tag).value
  }

  // ---------------------------------------------------------------------------
  // Editing the first element with a tag

  /** The two in-place changes the editor makes to an element it has found. */
  datatype Edit =
    | AppendChild(child: Node)            // DOM `appendChild`
    | SetAttribute(key: string, val: string)  // DOM `setAttribute`

  function Apply(e: Edit, n: Node): (r: Node)
    requires n.Element?
    ensures r.Element? && r.tag == n.tag
  {
    match e
    case AppendChild(c) => n.(children := n.children + [c])
    case SetAttribute(k, v) => n.(attrs := n.attrs[k := v])
  }

  /** The forest with `e` applied to its first element tagged `tag` (unchanged if none). */
  function EditFirst(ns: seq<Node>, tag: string, e: Edit): (r: seq<Node>)
    ensures |r| == |ns|
    decreases ns
  {
    if ns == [] then []
    else if NodeHas(ns[0], tag) then [EditIn(ns[0], tag, e)] + ns[1..]
    else [ns[0]] + EditFirst(ns[1..], tag, e)
  }

  function EditIn(n: Node, tag: string, e: Edit): (r: Node)
    requires NodeHas(n, tag)
    ensures r.Element? && r.tag == n.tag
    decreases n
  {
    if n.tag == tag then Apply(e, n) else n.(children := EditFirst(n.children, tag, e))
  }

  /** After the edit, the first element tagged `tag` is the edited one. */
  lemma {:induction false} FirstAfterEdit(ns: seq<Node>, tag: string, e: Edit)
    requires Has(ns, tag)
    ensures FirstElement(EditFirst(ns, tag, e), tag) == Some(Apply(e, FirstElement(ns, tag).value))
    decreases ns
  {
    if NodeHas(ns[0], tag) {
      FirstInAfterEdit(ns[0], tag, e);
    } else {
      FirstAfterEdit(ns[1..], tag, e);
      assert ([ns[0]] + EditFirst(ns[1..], tag, e))[1..] == EditFirst(ns[1..], tag, e);
    }
  }

  lemma {:induction false} FirstInAfterEdit(n: Node, tag: string, e: Edit)
    requires NodeHas(n, tag)
    ensures NodeHas(EditIn(n, tag, e), tag)
    ensures FirstIn(EditIn(n, tag, e), tag) == Apply(e, FirstIn(n, tag))
    decreases n
  {
    if n.tag != tag {
      FirstAfterEdit(n.children, tag, e);
    }
  }

  // ---------------------------------------------------------------------------
  // Removing whitespace-only text nodes (`//text()[normalize-space(.) = '']`)

  predicate IsBlankText(n: Node) {
    n.Text? && NormalizeSpace(n.value) == ""
  }

  function StripNode(n: Node): Node
    decreases n
  {
    if n.Element? then n.(children := StripAll(n.children)) else n
  }

  /** The forest without its whitespace-only text nodes, at every depth. */
  function StripAll(ns: seq<Node>): seq<Node>
    decreases ns
  {
    if ns == [] then []
    else if IsBlankText(ns[0]) then StripAll(ns[1..])
    else [StripNode(ns[0])] + StripAll(ns[1..])
  }

  /** No whitespace-only text node occurs anywhere in the forest. */
  predicate NoBlank(ns: seq<Node>)
    decreases ns
  {
    ns == [] || (NodeNoBlank(ns[0]) && NoBlank(ns[1..]))
  }

  predicate NodeNoBlank(n: Node)
    decreases n
  {
    !IsBlankText(n) && (n.Element? ==> NoBlank(n.children))
  }

  lemma {:induction false} StripAllAppend(a: seq<Node>, b: seq<Node>)
    ensures StripAll(a + b) == StripAll(a) + StripAll(b)
    decreases a
  {
    if a == [] {
      assert a + b == b;
    } else {
      assert (a + b)[0] == a[0] && (a + b)[1..] == a[1..] + b;
      StripAllAppend(a[1..], b);
    }
  }

  /** Stripping leaves no whitespace-only text node. */
  lemma {:induction false} StripAllNoBlank(ns: seq<Node>)
    ensures NoBlank(StripAll(ns))
    decreases ns
  {
    if ns != [] {
      StripAllNoBlank(ns[1..]);
      if !IsBlankText(ns[0]) {
        StripNodeNoBlank(ns[0]);
        assert ([StripNode(ns[0])] + StripAll(ns[1..]))[1..] == StripAll(ns[1..]);
      }
    }
  }

  lemma {:induction false} StripNodeNoBlank(n: Node)
    requires !IsBlankText(n)
    ensures NodeNoBlank(StripNode(n))
    decreases n
  {
    if n.Element? {
      StripAllNoBlank(n.children);
    }
  }

  /** A forest without whitespace-only text is its own stripped form. */
  lemma {:induction false} StripAllNoBlankFixed(ns: seq<Node>)
    requires NoBlank(ns)
    ensures StripAll(ns) == ns
    decreases ns
  {
    if ns != [] {
      StripNodeNoBlankFixed(ns[0]);
      StripAllNoBlankFixed(ns[1..]);
    }
  }

  lemma {:induction false} StripNodeNoBlankFixed(n: Node)
    requires NodeNoBlank(n)
    ensures StripNode(n) == n
    decreases n
  {
    if n.Element? {
      StripAllNoBlankFixed(n.children);
    }
  }

  /** Stripping never removes an element, so the first element with a tag survives it. */
  lemma {:induction false} FirstAfterStrip(ns: seq<Node>, tag: string)
    ensures Has(StripAll(ns), tag) == Has(ns, tag)
    ensures Has(ns, tag) ==> FirstElement(StripAll(ns), tag) == Some(StripNode(FirstElement(ns, tag).value))
    decreases ns
  {
    if ns != [] {
      FirstAfterStrip(ns[1..], tag);
      if !IsBlankText(ns[0]) {
        FirstInAfterStrip(ns[0], tag);
        assert ([StripNode(ns[0])] + StripAll(ns[1..]))[1..] == StripAll(ns[1..]);
      }
    }
  }

  lemma {:induction false} FirstInAfterStrip(n: Node, tag: string)
    ensures NodeHas(StripNode(n), tag) == NodeHas(n, tag)
    ensures NodeHas(n, tag) ==> FirstIn(StripNode(n), tag) == StripNode(FirstIn(n, tag))
    decreases n
  {
    if n.Element? {
      FirstAfterStrip(n.children, tag);
    }
  }

  /** Where the forest is `p + [x] + q` and `x` holds the first element tagged `tag`. */
  lemma {:induction false} FirstInMiddle(p: seq<Node>, x: Node, q: seq<Node>, tag: string, e: Edit)
    requires !Has(p, tag) && NodeHas(x, tag)
    ensures FirstElement(p + [x] + q, tag) == Some(FirstIn(x, tag))
    ensures EditFirst(p + [x] + q, tag, e) == p + [EditIn(x, tag, e)] + q
    decreases p
  {
    if p != [] {
      assert (p + [x] + q)[0] == p[0] && (p + [x] + q)[1..] == p[1..] + [x] + q;
      FirstInMiddle(p[1..], x, q, tag, e);
    } else {
      assert p + [x] + q == [x] + q;
    }
  }

  /** An element at the top of a forest without the tag does not carry it. */
  lemma {:induction false} NotHasTop(ns: seq<Node>, tag: string, i: nat)
    requires !Has(ns, tag) && i < |ns|
    ensures !NodeHas(ns[i], tag)
    decreases ns
  {
    if i > 0 {
      NotHasTop(ns[1..], tag, i - 1);
    }
  }

  /** A text node that is not whitespace-only is in the stripped forest iff it is in the forest. */
  lemma {:induction false} TextSurvivesStrip(ns: seq<Node>, t: Node)
    requires t.Text? && !IsBlankText(t)
    ensures t in StripAll(ns) <==> t in ns
    decreases ns
  {
    if ns != [] {
      TextSurvivesStrip(ns[1..], t);
      assert ns == [ns[0]] + ns[1..];
    }
  }

  /** Every text node of the stripped forest's top level was one of the forest, and not blank. */
  lemma {:induction false} StrippedTextFromOriginal(ns: seq<Node>, i: nat)
    requires i < |StripAll(ns)| && StripAll(ns)[i].Text?
    ensures StripAll(ns)[i] in ns && !IsBlankText(StripAll(ns)[i])
    decreases ns
  {
    if IsBlankText(ns[0]) {
      StrippedTextFromOriginal(ns[1..], i);
    } else if i > 0 {
      assert StripAll(ns)[i] == StripAll(ns[1..])[i - 1];
      StrippedTextFromOriginal(ns[1..], i - 1);
    }
  }

  // ---------------------------------------------------------------------------
  // Outlines

  datatype Item =
    | TextItem(value: string)
    | CommentItem(data: string)
    | ElementItem(tag: string, attrs: map<string, string>)

  datatype Line = Line(depth: nat, item: Item)

  /** What a node shows of itself, without its children. */
  function Label(n: Node): Item {
    match n
    case Text(v) => TextItem(v)
    case Comment(d) => CommentItem(d)
    case Element(t, a, _) => ElementItem(t, a)
  }

  function NodeOutline(n: Node, d: nat): seq<Line>
    decreases n
  {
    [Line(d, Label(n))] + (if n.Element? then Outline(n.children, d + 1) else [])
  }

  /** The nodes of the forest in document order, each with its depth. */
  function Outline(ns: seq<Node>, d: nat): seq<Line>
    decreases ns
  {
    if ns == [] then [] else NodeOutline(ns[0], d) + Outline(ns[1..], d)
  }

  lemma {:induction false} OutlineAppend(a: seq<Node>, b: seq<Node>, d: nat)
    ensures Outline(a + b, d) == Outline(a, d) + Outline(b, d)
    decreases a
  {
    if a == [] {
      assert a + b == b;
    } else {
      assert (a + b)[0] == a[0] && (a + b)[1..] == a[1..] + b;
      OutlineAppend(a[1..], b, d);
    }
  }

  predicate BlankLine(l: Line) {
    l.item.TextItem? && NormalizeSpace(l.item.value) == ""
  }

  /** The outline without its whitespace-only text lines. */
  function DropBlank(ls: seq<Line>): (r: seq<Line>)
    ensures |r| <= |ls|
  {
    if ls == [] then []
    else if BlankLine(ls[0]) then DropBlank(ls[1..])
    else [ls[0]] + DropBlank(ls[1..])
  }

  lemma {:induction false} DropBlankAppend(a: seq<Line>, b: seq<Line>)
    ensures DropBlank(a + b) == DropBlank(a) + DropBlank(b)
    decreases a
  {
    if a == [] {
      assert a + b == b;
    } else {
      assert (a + b)[0] == a[0] && (a + b)[1..] == a[1..] + b;
      DropBlankAppend(a[1..], b);
    }
  }

  /**
   * Stripping removes exactly the whitespace-only text lines of the outline: every
   * other node stays, at its depth, in its order.
   */
  lemma {:induction false} StripOutline(ns: seq<Node>, d: nat)
    ensures Outline(StripAll(ns), d) == DropBlank(Outline(ns, d))
    decreases ns
  {
    if ns != [] {
      StripOutline(ns[1..], d);
      DropBlankAppend(NodeOutline(ns[0], d), Outline(ns[1..], d));
      if IsBlankText(ns[0]) {
        assert NodeOutline(ns[0], d) == [Line(d, Label(ns[0]))];
      } else {
        NodeStripOutline(ns[0], d);
        assert ([StripNode(ns[0])] + StripAll(ns[1..]))[1..] == StripAll(ns[1..]);
      }
    }
  }

  lemma {:induction false} NodeStripOutline(n: Node, d: nat)
    requires !IsBlankText(n)
    ensures NodeOutline(StripNode(n), d) == DropBlank(NodeOutline(n, d))
    decreases n
  {
    assert !BlankLine(Line(d, Label(n)));
    if n.Element? {
      StripOutline(n.children, d + 1);
      DropBlankAppend([Line(d, Label(n))], Outline(n.children, d + 1));
    } else {
      assert NodeOutline(n, d) == [Line(d, Label(n))];
    }
  }

  predicate IsTagLine(l: Line, tag: string) {
    l.item.ElementItem? && l.item.tag == tag
  }

  predicate HasTagLine(ls: seq<Line>, tag: string) {
    exists i :: 0 <= i < |ls| && IsTagLine(ls[i], tag)
  }

  /** Index of the first line of an element tagged `tag`, or -1. */
  function FirstTagLine(ls: seq<Line>, tag: string): (r: int)
    ensures -1 <= r < |ls|
    ensures r == -1 <==> !HasTagLine(ls, tag)
    ensures r >= 0 ==> IsTagLine(ls[r], tag) && forall i :: 0 <= i < r ==> !IsTagLine(ls[i], tag)
  {
    if ls == [] then -1
    else if IsTagLine(ls[0], tag) then 0
    else
      var r := FirstTagLine(ls[1..], tag);
      assert forall i :: 0 < i < |ls| ==> ls[i] == ls[1..][i - 1];
      if r == -1 then -1 else r + 1
  }

  /** An element with the tag exists exactly when the outline has a line for it. */
  lemma {:induction false} HasOutline(ns: seq<Node>, tag: string, d: nat)
    ensures Has(ns, tag) <==> HasTagLine(Outline(ns, d), tag)
    decreases ns
  {
    if ns != [] {
      NodeHasOutline(ns[0], tag, d);
      HasOutline(ns[1..], tag, d);
      HasTagLineAppend(NodeOutline(ns[0], d), Outline(ns[1..], d), tag);
    }
  }

  lemma {:induction false} NodeHasOutline(n: Node, tag: string, d: nat)
    ensures NodeHas(n, tag) <==> HasTagLine(NodeOutline(n, d), tag)
    decreases n
  {
    if n.Element? {
      HasOutline(n.children, tag, d + 1);
      HasTagLineAppend([Line(d, Label(n))], Outline(n.children, d + 1), tag);
      assert NodeOutline(n, d) == [Line(d, Label(n))] + Outline(n.children, d + 1);
      assert HasTagLine([Line(d, Label(n))], tag) <==> n.tag == tag by {
        assert [Line(d, Label(n))][0] == Line(d, Label(n));
      }
    } else {
      assert NodeOutline(n, d) == [Line(d, Label(n))];
    }
  }

  lemma HasTagLineAppend(a: seq<Line>, b: seq<Line>, tag: string)
    ensures HasTagLine(a + b, tag) <==> HasTagLine(a, tag) || HasTagLine(b, tag)
  {
    if HasTagLine(a, tag) {
      var i :| 0 <= i < |a| && IsTagLine(a[i], tag);
      assert (a + b)[i] == a[i];
    }
    if HasTagLine(b, tag) {
      var i :| 0 <= i < |b| && IsTagLine(b[i], tag);
      assert (a + b)[|a| + i] == b[i];
    }
    if HasTagLine(a + b, tag) {
      var i :| 0 <= i < |a + b| && IsTagLine((a + b)[i], tag);
      if i >= |a| {
        assert b[i - |a|] == (a + b)[i];
      } else {
        assert a[i] == (a + b)[i];
      }
    }
  }

  /** The outline lines that come before the first element tagged `tag`. */
  function Before(ns: seq<Node>, tag: string, d: nat): seq<Line>
    requires Has(ns, tag)
    decreases ns
  {
    if NodeHas(ns[0], tag) then BeforeIn(ns[0], tag, d)
    else NodeOutline(ns[0], d) + Before(ns[1..], tag, d)
  }

  function BeforeIn(n: Node, tag: string, d: nat): seq<Line>
    requires NodeHas(n, tag)
    decreases n
  {
    if n.tag == tag then [] else [Line(d, Label(n))] + Before(n.children, tag, d + 1)
  }

  /** The outline lines that come after the block of the first element tagged `tag`. */
  function After(ns: seq<Node>, tag: string, d: nat): seq<Line>
    requires Has(ns, tag)
    decreases ns
  {
    if NodeHas(ns[0], tag) then AfterIn(ns[0], tag, d) + Outline(ns[1..], d)
    else After(ns[1..], tag, d)
  }

  function AfterIn(n: Node, tag: string, d: nat): seq<Line>
    requires NodeHas(n, tag)
    decreases n
  {
    if n.tag == tag then [] else After(n.children, tag, d + 1)
  }

  /** The depth of the first element tagged `tag`. */
  function FirstDepth(ns: seq<Node>, tag: string, d: nat): nat
    requires Has(ns, tag)
    decreases ns
  {
    if NodeHas(ns[0], tag) then FirstDepthIn(ns[0], tag, d) else FirstDepth(ns[1..], tag, d)
  }

  function FirstDepthIn(n: Node, tag: string, d: nat): nat
    requires NodeHas(n, tag)
    decreases n
  {
    if n.tag == tag then d else FirstDepth(n.children, tag, d + 1)
  }

  /**
   * The outline of a forest is the lines before its first element tagged `tag`,
   * that element's own block, and the lines after it.
   */
  lemma {:induction false} OutlineSplit(ns: seq<Node>, tag: string, d: nat)
    requires Has(ns, tag)
    ensures Outline(ns, d)
            == Before(ns, tag, d)
               + NodeOutline(FirstElement(ns, tag).value, FirstDepth(ns, tag, d))
               + After(ns, tag, d)
    decreases ns
  {
    if NodeHas(ns[0], tag) {
      NodeOutlineSplit(ns[0], tag, d);
    } else {
      OutlineSplit(ns[1..], tag, d);
    }
  }

  lemma {:induction false} NodeOutlineSplit(n: Node, tag: string, d: nat)
    requires NodeHas(n, tag)
    ensures NodeOutline(n, d)
            == BeforeIn(n, tag, d) + NodeOutline(FirstIn(n, tag), FirstDepthIn(n, tag, d))
               + AfterIn(n, tag, d)
    decreases n
  {
    if n.tag != tag {
      OutlineSplit(n.children, tag, d + 1);
    } else {
      assert BeforeIn(n, tag, d) == [] && AfterIn(n, tag, d) == [];
    }
  }

  /** No line before that block is an element with the tag. */
  lemma {:induction false} BeforeHasNoTag(ns: seq<Node>, tag: string, d: nat)
    requires Has(ns, tag)
    ensures !HasTagLine(Before(ns, tag, d), tag)
    decreases ns
  {
    if NodeHas(ns[0], tag) {
      BeforeInHasNoTag(ns[0], tag, d);
    } else {
      NodeHasOutline(ns[0], tag, d);
      BeforeHasNoTag(ns[1..], tag, d);
      HasTagLineAppend(NodeOutline(ns[0], d), Before(ns[1..], tag, d), tag);
    }
  }

  lemma {:induction false} BeforeInHasNoTag(n: Node, tag: string, d: nat)
    requires NodeHas(n, tag)
    ensures !HasTagLine(BeforeIn(n, tag, d), tag)
    decreases n
  {
    if n.tag != tag {
      BeforeHasNoTag(n.children, tag, d + 1);
      HasTagLineAppend([Line(d, Label(n))], Before(n.children, tag, d + 1), tag);
    }
  }

  /**
   * Editing the first element tagged `tag` replaces its block of the outline by
   * the block of the edited element and leaves every line before and after it.
   */
  lemma {:induction false} EditFirstOutline(ns: seq<Node>, tag: string, e: Edit, d: nat)
    requires Has(ns, tag)
    ensures Outline(EditFirst(ns, tag, e), d)
            == Before(ns, tag, d)
               + NodeOutline(Apply(e, FirstElement(ns, tag).value), FirstDepth(ns, tag, d))
               + After(ns, tag, d)
    decreases ns
  {
    var n, rest := ns[0], ns[1..];
    if NodeHas(n, tag) {
      EditNodeFirst(ns, tag, e, d);
    } else {
      EditFirstOutline(rest, tag, e, d);
      EditNodeLater(ns, tag, e, d);
    }
  }

  lemma EditNodeFirst(ns: seq<Node>, tag: string, e: Edit, d: nat)
    requires ns != [] && NodeHas(ns[0], tag)
    ensures Outline(EditFirst(ns, tag, e), d)
            == Before(ns, tag, d)
               + NodeOutline(Apply(e, FirstElement(ns, tag).value), FirstDepth(ns, tag, d))
               + After(ns, tag, d)
  {
    var n, rest := ns[0], ns[1..];
    EditInOutline(n, tag, e, d);
    var m := EditIn(n, tag, e);
    var s := [m] + rest;
    assert EditFirst(ns, tag, e) == s;
    assert Outline(s, d) == NodeOutline(m, d) + Outline(rest, d) by {
      assert s[0] == m && s[1..] == rest;
    }
    assert Before(ns, tag, d) == BeforeIn(n, tag, d);
    assert After(ns, tag, d) == AfterIn(n, tag, d) + Outline(rest, d);
    assert FirstElement(ns, tag).value == FirstIn(n, tag);
    assert FirstDepth(ns, tag, d) == FirstDepthIn(n, tag, d);
    var A, X, C := BeforeIn(n, tag, d),
      NodeOutline(Apply(e, FirstIn(n, tag)), FirstDepthIn(n, tag, d)), AfterIn(n, tag, d);
    assert NodeOutline(m, d) == A + X + C;
    assert (A + X + C) + Outline(rest, d) == A + X + (C + Outline(rest, d));
  }

  lemma EditNodeLater(ns: seq<Node>, tag: string, e: Edit, d: nat)
    requires ns != [] && !NodeHas(ns[0], tag) && Has(ns[1..], tag)
    requires Outline(EditFirst(ns[1..], tag, e), d)
             == Before(ns[1..], tag, d)
                + NodeOutline(Apply(e, FirstElement(ns[1..], tag).value), FirstDepth(ns[1..], tag, d))
                + After(ns[1..], tag, d)
    ensures Outline(EditFirst(ns, tag, e), d)
            == Before(ns, tag, d)
               + NodeOutline(Apply(e, FirstElement(ns, tag).value), FirstDepth(ns, tag, d))
               + After(ns, tag, d)
  {
    var n, rest := ns[0], ns[1..];
    var t := EditFirst(rest, tag, e);
    var s := [n] + t;
    assert EditFirst(ns, tag, e) == s;
    assert Outline(s, d) == NodeOutline(n, d) + Outline(t, d) by {
      assert s[0] == n && s[1..] == t;
    }
    assert Before(ns, tag, d) == NodeOutline(n, d) + Before(rest, tag, d);
    assert After(ns, tag, d) == After(rest, tag, d);
    assert FirstElement(ns, tag) == FirstElement(rest, tag);
    assert FirstDepth(ns, tag, d) == FirstDepth(rest, tag, d);
    var A, B, X, C := NodeOutline(n, d), Before(rest, tag, d),
      NodeOutline(Apply(e, FirstElement(rest, tag).value), FirstDepth(rest, tag, d)), After(rest, tag, d);
    assert Outline(t, d) == B + X + C;
    Regroup(A, B, X, C);
  }

  lemma Regroup(A: seq<Line>, B: seq<Line>, X: seq<Line>, C: seq<Line>)
    ensures A + (B + X + C) == (A + B) + X + C
  {
  }

  lemma {:induction false} EditInOutline(n: Node, tag: string, e: Edit, d: nat)
    requires NodeHas(n, tag)
    ensures NodeOutline(EditIn(n, tag, e), d)
            == BeforeIn(n, tag, d) + NodeOutline(Apply(e, FirstIn(n, tag)), FirstDepthIn(n, tag, d))
               + AfterIn(n, tag, d)
    decreases n
  {
    if n.tag != tag {
      var m := EditIn(n, tag, e);
      EditFirstOutline(n.children, tag, e, d + 1);
      assert Label(m) == Label(n);
      assert NodeOutline(m, d) == [Line(d, Label(n))] + Outline(m.children, d + 1);
    } else {
      assert BeforeIn(n, tag, d) == [] && AfterIn(n, tag, d) == [];
    }
  }

  /** Hence the first element line of the outline with that tag is where the block starts. */
  lemma FirstTagLineIsBlock(ns: seq<Node>, tag: string, d: nat)
    requires Has(ns, tag)
    ensures FirstTagLine(Outline(ns, d), tag) == |Before(ns, tag, d)|
  {
    OutlineSplit(ns, tag, d);
    BeforeHasNoTag(ns, tag, d);
    var fe, D := FirstElement(ns, tag).value, FirstDepth(ns, tag, d);
    var ls := Outline(ns, d);
    var b := Before(ns, tag, d);
    assert ls[|b|] == NodeOutline(fe, D)[0];
    assert forall i :: 0 <= i < |b| ==> ls[i] == b[i];
  }

  lemma NodeFirstTagLineIsBlock(n: Node, tag: string, d: nat)
    requires NodeHas(n, tag)
    ensures FirstTagLine(NodeOutline(n, d), tag) == |BeforeIn(n, tag, d)|
  {
    NodeOutlineSplit(n, tag, d);
    BeforeInHasNoTag(n, tag, d);
    var fe, D := FirstIn(n, tag), FirstDepthIn(n, tag, d);
    var ls := NodeOutline(n, d);
    var b := BeforeIn(n, tag, d);
    assert ls[|b|] == NodeOutline(fe, D)[0];
    assert forall i :: 0 <= i < |b| ==> ls[i] == b[i];
  }

  /** Below a node without blank text, the first element with a tag has none either. */
  lemma {:induction false} FirstInNoBlank(n: Node, tag: string)
    requires NodeNoBlank(n) && NodeHas(n, tag)
    ensures NodeNoBlank(FirstIn(n, tag))
    decreases n
  {
    if n.tag != tag {
      FirstNoBlank(n.children, tag);
    }
  }

  lemma {:induction false} FirstNoBlank(ns: seq<Node>, tag: string)
    requires NoBlank(ns) && Has(ns, tag)
    ensures NodeNoBlank(FirstElement(ns, tag).value)
    decreases ns
  {
    if NodeHas(ns[0], tag) {
      FirstInNoBlank(ns[0], tag);
    } else {
      FirstNoBlank(ns[1..], tag);
    }
  }
}
