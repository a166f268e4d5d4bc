/**
 * The edits the editor makes to a server configuration document: list the
 * declared features, add one, remove one, and set `onError` on the HTTP endpoint.
 * Each edit reads the document afresh and either writes back a new document,
 * writes nothing (the feature is already declared), or fails before writing, so a
 * failed edit leaves the stored document as it was.
 */
module FeatureManager {
  import opened Wrappers
  import opened Whitespace
  import opened Dom

  const ServerTag := "server"
  const FeatureManagerTag := "featureManager"
  const FeatureTag := "feature"
  const HttpEndpointTag := "httpEndpoint"
  const OnErrorAttribute := "onError"

  /** Why an edit stopped before writing (the exceptions the editor catches). */
  datatype Error =
    | MissingContainer   // no `featureManager` element
    | FeatureNotFound    // no declaration of the feature under the first `/server/featureManager`
    | MissingElement     // no `httpEndpoint` element

  datatype Outcome =
    | Written(doc: Document)   // the file is rewritten with this document
    | Unchanged                // nothing is written
    | Failed(error: Error)     // nothing is written

  /** What the stored document is after an edit. */
  function Stored(o: Outcome, doc: Document): Document {
    if o.Written? then o.doc else doc
  }

  // ---------------------------------------------------------------------------
  // loadFeatures

  function TextContents(cs: seq<Node>): (r: seq<string>)
    ensures |r| == |cs| && forall i :: 0 <= i < |cs| ==> r[i] == TextContent(cs[i])
  {
    seq(|cs|, i requires 0 <= i < |cs| => TextContent(cs[i]))
  }

  /**
   * The text content of every child of the `featureManager` node, in child order;
   * whitespace and comment children are listed too.
   */
  method LoadFeatures(featuresNode: Node) returns (r: seq<string>)
    ensures |r| == |ChildNodes(featuresNode)|
    ensures forall i :: 0 <= i < |r| ==> r[i] == TextContent(ChildNodes(featuresNode)[i])
  {
    var childFeatures := ChildNodes(featuresNode);
    r := [];
    var i := 0;
    while i < |childFeatures|
      invariant 0 <= i <= |childFeatures|
      invariant |r| == i
      invariant forall j :: 0 <= j < i ==> r[j] == TextContent(childFeatures[j])
    {
      r := r + [TextContent(childFeatures[i])];
      i := i + 1;
    }
  }

  // ---------------------------------------------------------------------------
  // addNewFeature

  /** The element `<feature>id</feature>` the editor creates. */
  function FeatureElement(id: string): Node {
    Element(FeatureTag, map[], [Text(id)])
  }

  /**
   * `addNewFeature`: find the first `featureManager` in document order (the root
   * included); if one of its children already has `id` as its text, write nothing;
   * otherwise append a new feature element to it, drop every whitespace-only text
   * node of the document and write the result.
   */
  function AddFeature(id: string, doc: Document): Outcome {
    if !NodeHas(doc.root, FeatureManagerTag) then Failed(MissingContainer)
    else if id in TextContents(FirstIn(doc.root, FeatureManagerTag).children) then Unchanged
    else Written(Document(StripNode(EditIn(doc.root, FeatureManagerTag, AppendChild(FeatureElement(id))))))
  }

  method AddNewFeature(id: string, doc: Document) returns (r: Outcome)
    ensures r == AddFeature(id, doc)
  {
    var featuresNode := FirstElement([doc.root], FeatureManagerTag);
    if featuresNode.None? {
      return Failed(MissingContainer);
    }
    assert featuresNode.value == FirstIn(doc.root, FeatureManagerTag);
    var serverFeatures := LoadFeatures(featuresNode.value);
    assert serverFeatures == TextContents(featuresNode.value.children);
    if id in serverFeatures {
      return Unchanged;
    }
    var edited := EditIn(doc.root, FeatureManagerTag, AppendChild(FeatureElement(id)));
    r := Written(Document(StripNode(edited)));
  }

  /** The add fails exactly without a `featureManager`, and writes nothing exactly when the id is listed. */
  lemma AddFeatureOutcomes(id: string, doc: Document)
    ensures AddFeature(id, doc).Failed? <==> !Has([doc.root], FeatureManagerTag)
    ensures AddFeature(id, doc).Unchanged? <==>
            Has([doc.root], FeatureManagerTag)
            && id in TextContents(FirstElement([doc.root], FeatureManagerTag).value.children)
    ensures AddFeature(id, doc).Failed? ==> AddFeature(id, doc).error == MissingContainer
  {
    assert [doc.root][1..] == [];
  }

  lemma StripFeatureElement(id: string)
    requires !XmlBlank(id)
    ensures StripAll([FeatureElement(id)]) == [FeatureElement(id)]
    ensures TextContent(FeatureElement(id)) == id
  {
    NormalizeSpaceEmpty(id);
    assert [Text(id)][1..] == [];
    assert StripAll([Text(id)]) == [Text(id)];
    assert [FeatureElement(id)][1..] == [];
    assert ChildrenText([Text(id)]) == TextContent(Text(id)) + ChildrenText([]);
  }

  /** In a written document the first featureManager is the old one, stripped, with the new element last. */
  lemma {:induction false} AddFeatureAppends(id: string, doc: Document)
    requires AddFeature(id, doc).Written?
    requires !XmlBlank(id)
    ensures var fm := FirstIn(doc.root, FeatureManagerTag);
            var r := AddFeature(id, doc).doc;
            && NodeHas(r.root, FeatureManagerTag)
            && FirstIn(r.root, FeatureManagerTag)
               == Element(FeatureManagerTag, fm.attrs, StripAll(fm.children) + [FeatureElement(id)])
  {
    var tag := FeatureManagerTag;
    var fm := FirstIn(doc.root, tag);
    var e := AppendChild(FeatureElement(id));
    var edited := EditIn(doc.root, tag, e);
    FirstInAfterEdit(doc.root, tag, e);
    FirstInAfterStrip(edited, tag);
    StripFeatureElement(id);
    StripAllAppend(fm.children, [FeatureElement(id)]);
  }

  /** A written document holds no whitespace-only text node anywhere. */
  lemma AddFeatureLeavesNoBlank(id: string, doc: Document)
    requires AddFeature(id, doc).Written?
    ensures NodeNoBlank(AddFeature(id, doc).doc.root)
  {
    StripNodeNoBlank(EditIn(doc.root, FeatureManagerTag, AppendChild(FeatureElement(id))));
  }

  /**
   * In outline terms: the written document is the old one with the lines of
   * `<feature>id</feature>` inserted one level below the first featureManager,
   * right after its last descendant, and then every whitespace-only text line
   * dropped.  Every other node keeps its depth and its order.
   */
  lemma AddFeatureOutline(id: string, doc: Document)
    requires AddFeature(id, doc).Written?
    ensures var n, tag := doc.root, FeatureManagerTag;
            var fm, D := FirstIn(n, tag), FirstDepthIn(n, tag, 0);
            && NodeOutline(n, 0) == BeforeIn(n, tag, 0) + NodeOutline(fm, D) + AfterIn(n, tag, 0)
            && NodeOutline(AddFeature(id, doc).doc.root, 0)
               == DropBlank(BeforeIn(n, tag, 0)
                            + (NodeOutline(fm, D) + Outline([FeatureElement(id)], D + 1))
                            + AfterIn(n, tag, 0))
  {
    NodeOutlineSplit(doc.root, FeatureManagerTag, 0);
    AppendStripOutline(doc.root, FeatureManagerTag, FeatureElement(id));
  }

  /** Appending under the first `tag` element and stripping, seen on the outline. */
  lemma AppendStripOutline(n: Node, tag: string, c: Node)
    requires NodeHas(n, tag)
    ensures var fm, D := FirstIn(n, tag), FirstDepthIn(n, tag, 0);
            NodeOutline(StripNode(EditIn(n, tag, AppendChild(c))), 0)
            == DropBlank(BeforeIn(n, tag, 0) + (NodeOutline(fm, D) + Outline([c], D + 1)) + AfterIn(n, tag, 0))
  {
    var e := AppendChild(c);
    var fm, D := FirstIn(n, tag), FirstDepthIn(n, tag, 0);
    var B, A := BeforeIn(n, tag, 0), AfterIn(n, tag, 0);
    var edited := EditIn(n, tag, e);
    var X, Y := NodeOutline(fm, D), Outline([c], D + 1);
    EditInOutline(n, tag, e, 0);
    AppendedOutline(fm, c, D);
    assert NodeOutline(edited, 0) == B + (X + Y) + A;
    StrippedOutlineIs(edited, B + (X + Y) + A);
  }

  lemma StrippedOutlineIs(m: Node, ls: seq<Line>)
    requires m.Element? && NodeOutline(m, 0) == ls
    ensures NodeOutline(StripNode(m), 0) == DropBlank(ls)
  {
    NodeStripOutline(m, 0);
  }

  lemma AppendedOutline(fm: Node, c: Node, D: nat)
    requires fm.Element?
    ensures NodeOutline(Apply(AppendChild(c), fm), D) == NodeOutline(fm, D) + Outline([c], D + 1)
  {
    var m := Apply(AppendChild(c), fm);
    var h, cs := [Line(D, Label(fm))], fm.children;
    assert m.children == cs + [c] && Label(m) == Label(fm);
    assert NodeOutline(m, D) == h + Outline(cs + [c], D + 1);
    OutlineAppend(cs, [c], D + 1);
    assert NodeOutline(fm, D) == h + Outline(cs, D + 1);
    assert h + (Outline(cs, D + 1) + Outline([c], D + 1))
        == (h + Outline(cs, D + 1)) + Outline([c], D + 1);
  }

  /**
   * Adding is idempotent for an id that is not all whitespace: once written, the
   * new declaration is listed, and a second add writes nothing.
   */
  lemma AddFeatureIdempotent(id: string, doc: Document)
    requires !XmlBlank(id)
    ensures var once := Stored(AddFeature(id, doc), doc);
            Stored(AddFeature(id, once), once) == once
    ensures AddFeature(id, doc).Written? ==> AddFeature(id, AddFeature(id, doc).doc) == Unchanged
  {
    if AddFeature(id, doc).Written? {
      AddFeatureAppends(id, doc);
      var fm := FirstIn(doc.root, FeatureManagerTag);
      var cs := StripAll(fm.children) + [FeatureElement(id)];
      StripFeatureElement(id);
      assert TextContents(cs)[|cs| - 1] == id;
    }
  }

  /**
   * An id made only of whitespace is not kept: stripping removes its text, so the
   * second add does not find it and appends another, empty, declaration.
   */
  lemma BlankIdIsAddedAgain()
    ensures var doc := Document(Element(ServerTag, map[], [Element(FeatureManagerTag, map[], [])]));
            var once := AddFeature(" ", doc);
            && once == Written(Document(Element(ServerTag, map[],
                 [Element(FeatureManagerTag, map[], [Element(FeatureTag, map[], [])])])))
            && AddFeature(" ", once.doc).Written?
  {
    NormalizeSpaceEmpty(" ");
    var fm0 := Element(FeatureManagerTag, map[], []);
    var root := Element(ServerTag, map[], [fm0]);
    assert NodeHas(fm0, FeatureManagerTag);
    assert FirstElement(root.children, FeatureManagerTag) == Some(fm0);
    assert TextContents(fm0.children) == [];
    var fm1 := Apply(AppendChild(FeatureElement(" ")), fm0);
    assert EditFirst(root.children, FeatureManagerTag, AppendChild(FeatureElement(" "))) == [fm1];
    var empty := Element(FeatureTag, map[], []);
    assert StripAll([Text(" ")]) == [];
    assert StripNode(FeatureElement(" ")) == empty;
    assert StripAll([FeatureElement(" ")]) == [empty];
    assert fm1.children == [FeatureElement(" ")];
    assert StripNode(fm1) == Element(FeatureManagerTag, map[], [empty]);
    assert StripAll([fm1]) == [Element(FeatureManagerTag, map[], [empty])];
    var fm2 := Element(FeatureManagerTag, map[], [empty]);
    var root2 := Element(ServerTag, map[], [fm2]);
    assert NodeHas(fm2, FeatureManagerTag);
    assert FirstElement(root2.children, FeatureManagerTag) == Some(fm2);
    assert ChildrenText([]) == "";
    assert TextContent(empty) == "";
    assert TextContents([empty]) == [""];
    assert " " !in TextContents([empty]);
  }

  // ---------------------------------------------------------------------------
  // removeFeature

  /** The first child with the tag, or -1. */
  function FirstChildTagged(cs: seq<Node>, tag: string): (k: int)
    ensures -1 <= k < |cs|
    ensures k == -1 <==> forall i :: 0 <= i < |cs| ==> !IsElementTagged(cs[i], tag)
    ensures k >= 0 ==> IsElementTagged(cs[k], tag) && forall i :: 0 <= i < k ==> !IsElementTagged(cs[i], tag)
    decreases |cs|
  {
    if cs == [] then -1
    else if IsElementTagged(cs[0], tag) then 0
    else
      var r := FirstChildTagged(cs[1..], tag);
      assert forall i :: 0 < i < |cs| ==> cs[i] == cs[1..][i - 1];
      if r == -1 then -1 else r + 1
  }

  /** `/server/featureManager`: the position of the first featureManager child of a `server` root. */
  function ContainerIndex(doc: Document): (r: Option<nat>)
    ensures r.Some? ==> IsElementTagged(doc.root, ServerTag) && r.value < |doc.root.children|
    ensures r.Some? ==> IsElementTagged(doc.root.children[r.value], FeatureManagerTag)
  {
    if !IsElementTagged(doc.root, ServerTag) then None
    else
      var j := FirstChildTagged(doc.root.children, FeatureManagerTag);
      if j == -1 then None else Some(j)
  }

  /** `feature[./text()='id']`: a feature element with a text child equal to id. */
  predicate Declares(n: Node, id: string) {
    IsElementTagged(n, FeatureTag) && Text(id) in n.children
  }

  /** The first child declaring the id, or -1. */
  function FirstDeclaration(cs: seq<Node>, id: string): (k: int)
    ensures -1 <= k < |cs|
    ensures k == -1 <==> forall i :: 0 <= i < |cs| ==> !Declares(cs[i], id)
    ensures k >= 0 ==> Declares(cs[k], id) && forall i :: 0 <= i < k ==> !Declares(cs[i], id)
    decreases |cs|
  {
    if cs == [] then -1
    else if Declares(cs[0], id) then 0
    else
      var r := FirstDeclaration(cs[1..], id);
      assert forall i :: 0 < i < |cs| ==> cs[i] == cs[1..][i - 1];
      if r == -1 then -1 else r + 1
  }

  /** The preceding sibling is dropped too when it is text that `trim()` empties. */
  predicate TidiesPrevious(cs: seq<Node>, k: nat)
    requires k < |cs|
  {
    k > 0 && cs[k - 1].Text? && |JavaTrim(cs[k - 1].value)| == 0
  }

  /** The children after removing the declaration at k and, if whitespace, the text before it. */
  function RemoveAt(cs: seq<Node>, k: nat): seq<Node>
    requires k < |cs|
  {
    var s := if TidiesPrevious(cs, k) then k - 1 else k;
    cs[..s] + cs[k + 1..]
  }

  /**
   * `removeFeature`: under the first `/server/featureManager`, remove the first
   * feature element whose text is `id`, together with a whitespace text node right
   * before it.  A declaration found only under a later featureManager fails as well
   * (it is not a child of the node it is removed from).
   */
  function RemoveFeature(id: string, doc: Document): Outcome {
    match ContainerIndex(doc)
    case None => Failed(MissingContainer)
    case Some(j) =>
      var fm := doc.root.children[j];
      var k := FirstDeclaration(fm.children, id);
      if k == -1 then Failed(FeatureNotFound)
      else
        var fm' := fm.(children := RemoveAt(fm.children, k));
        Written(Document(doc.root.(children := doc.root.children[j := fm'])))
  }

  /** Removal writes exactly when the first container declares the id; it never writes nothing. */
  lemma RemoveFeatureOutcomes(id: string, doc: Document)
    ensures RemoveFeature(id, doc) == Failed(MissingContainer) <==> ContainerIndex(doc).None?
    ensures RemoveFeature(id, doc) == Failed(FeatureNotFound) <==>
            ContainerIndex(doc).Some?
            && forall c :: c in doc.root.children[ContainerIndex(doc).value].children ==> !Declares(c, id)
    ensures RemoveFeature(id, doc).Written? || RemoveFeature(id, doc).Failed?
  {
    if ContainerIndex(doc).Some? {
      var cs := doc.root.children[ContainerIndex(doc).value].children;
      if FirstDeclaration(cs, id) != -1 {
        assert cs[FirstDeclaration(cs, id)] in cs;
      }
    }
  }

  /**
   * What a successful removal changes: in the first container, the children
   * k-t..k are cut out, where k is the first declaration of the id and t is 1
   * exactly when the child before it is text that `trim()` empties; the other
   * children keep their order, and nothing outside the container changes.
   */
  lemma RemoveFeatureCuts(id: string, doc: Document)
    requires RemoveFeature(id, doc).Written?
    ensures var j := ContainerIndex(doc).value;
            var fm := doc.root.children[j];
            var cs := fm.children;
            var k := FirstDeclaration(cs, id);
            var t := if k > 0 && cs[k - 1].Text? && TrimBlank(cs[k - 1].value) then 1 else 0;
            && Declares(cs[k], id)
            && RemoveFeature(id, doc).doc.root
               == doc.root.(children := doc.root.children[j := fm.(children := cs[..k - t] + cs[k + 1..])])
  {
    var j := ContainerIndex(doc).value;
    var cs := doc.root.children[j].children;
    var k := FirstDeclaration(cs, id);
    if k > 0 && cs[k - 1].Text? {
      JavaTrimEmpty(cs[k - 1].value);
    }
  }

  /**
   * Adding a feature and then removing it gives back the original document with its
   * whitespace-only text stripped, when: the document is `<server>` with the first
   * featureManager of the document among its children, the id is neither listed nor
   * declared there and is not all whitespace, and its text children use only
   * characters XML 1.0 admits.
   */
  lemma {:induction false} RemoveUndoesAdd(id: string, doc: Document, j: nat)
    requires IsElementTagged(doc.root, ServerTag)
    requires j < |doc.root.children| && IsElementTagged(doc.root.children[j], FeatureManagerTag)
    requires !Has(doc.root.children[..j], FeatureManagerTag)
    requires var cs := doc.root.children[j].children;
             && id !in TextContents(cs)
             && (forall c :: c in cs ==> !Declares(c, id))
             && (forall c :: c in cs && c.Text? ==> XmlChars(c.value))
    requires !XmlBlank(id)
    ensures AddFeature(id, doc).Written?
    ensures RemoveFeature(id, AddFeature(id, doc).doc) == Written(Document(StripNode(doc.root)))
  {
    var rcs := doc.root.children;
    var fm := rcs[j];
    var p, q := rcs[..j], rcs[j + 1..];
    AddToServer(id, doc, j);
    var sf := StripAll(fm.children);
    var fmStripped := fm.(children := sf + [FeatureElement(id)]);
    var sp, sq := StripAll(p), StripAll(q);
    var added := Document(doc.root.(children := sp + [fmStripped] + sq));
    assert AddFeature(id, doc) == Written(added);
    StripServer(doc, j);
    FirstAfterStrip(p, FeatureManagerTag);
    ContainerAfter(sp, fmStripped, sq);
    assert ContainerIndex(added) == Some(|sp|);
    RemoveFromStripped(id, fm.children);
    RemoveInContainer(id, added, |sp|, sf);
    UpdateMiddle(sp, fmStripped, sq, fm.(children := sf));
  }

  lemma UpdateMiddle(p: seq<Node>, x: Node, q: seq<Node>, y: Node)
    ensures (p + [x] + q)[|p| := y] == p + [y] + q
  {
  }

  /** Removal of the declaration at a known position of the container. */
  lemma RemoveInContainer(id: string, doc: Document, j: nat, rest: seq<Node>)
    requires ContainerIndex(doc) == Some(j)
    requires var cs := doc.root.children[j].children;
             FirstDeclaration(cs, id) != -1 && RemoveAt(cs, FirstDeclaration(cs, id)) == rest
    ensures var fm := doc.root.children[j];
            RemoveFeature(id, doc) == Written(Document(doc.root.(children := doc.root.children[j := fm.(children := rest)])))
  {
  }

  /** How the add rewrites such a document. */
  lemma AddToServer(id: string, doc: Document, j: nat)
    requires IsElementTagged(doc.root, ServerTag)
    requires j < |doc.root.children| && IsElementTagged(doc.root.children[j], FeatureManagerTag)
    requires !Has(doc.root.children[..j], FeatureManagerTag)
    requires id !in TextContents(doc.root.children[j].children)
    requires !XmlBlank(id)
    ensures var rcs := doc.root.children;
            var fm := rcs[j];
            AddFeature(id, doc) == Written(Document(doc.root.(children :=
              StripAll(rcs[..j]) + [fm.(children := StripAll(fm.children) + [FeatureElement(id)])]
              + StripAll(rcs[j + 1..]))))
  {
    var root := doc.root;
    var rcs := root.children;
    var fm := rcs[j];
    var p, q := rcs[..j], rcs[j + 1..];
    assert rcs == p + [fm] + q;
    var e := AppendChild(FeatureElement(id));
    FirstInMiddle(p, fm, q, FeatureManagerTag, e);
    assert Has(rcs, FeatureManagerTag) by {
      HasMiddle(p, fm, q, FeatureManagerTag);
    }
    assert FirstIn(root, FeatureManagerTag) == fm;
    var fmAdded := Apply(e, fm);
    assert EditIn(fm, FeatureManagerTag, e) == fmAdded;
    assert EditIn(root, FeatureManagerTag, e) == root.(children := p + [fmAdded] + q);
    StripFeatureElement(id);
    StripAllAppend(fm.children, [FeatureElement(id)]);
    StripMiddle(p, fmAdded, q);
  }

  lemma {:induction false} HasMiddle(p: seq<Node>, x: Node, q: seq<Node>, tag: string)
    requires NodeHas(x, tag)
    ensures Has(p + [x] + q, tag)
    decreases p
  {
    if p == [] {
      assert (p + [x] + q)[0] == x;
    } else {
      assert (p + [x] + q)[1..] == p[1..] + [x] + q;
      HasMiddle(p[1..], x, q, tag);
    }
  }

  lemma StripMiddle(p: seq<Node>, x: Node, q: seq<Node>)
    requires x.Element?
    ensures StripAll(p + [x] + q) == StripAll(p) + [StripNode(x)] + StripAll(q)
  {
    StripAllAppend(p + [x], q);
    StripAllAppend(p, [x]);
    assert [x][1..] == [];
  }

  lemma StripServer(doc: Document, j: nat)
    requires doc.root.Element? && j < |doc.root.children| && doc.root.children[j].Element?
    ensures var rcs := doc.root.children;
            StripNode(doc.root) == doc.root.(children :=
              StripAll(rcs[..j]) + [rcs[j].(children := StripAll(rcs[j].children))] + StripAll(rcs[j + 1..]))
  {
    var rcs := doc.root.children;
    assert rcs == rcs[..j] + [rcs[j]] + rcs[j + 1..];
    StripMiddle(rcs[..j], rcs[j], rcs[j + 1..]);
  }

  /** The container of a server whose children before it hold no featureManager. */
  lemma ContainerAfter(p: seq<Node>, fm: Node, q: seq<Node>)
    requires !Has(p, FeatureManagerTag) && IsElementTagged(fm, FeatureManagerTag)
    ensures FirstChildTagged(p + [fm] + q, FeatureManagerTag) == |p|
  {
    var s := p + [fm] + q;
    forall i | 0 <= i < |p| ensures !IsElementTagged(s[i], FeatureManagerTag) {
      NotHasTop(p, FeatureManagerTag, i);
      assert s[i] == p[i];
    }
    assert s[|p|] == fm;
  }

  /**
   * Removing the new declaration from the stripped container gives the stripped
   * old children back: no stripped child declares the id, and the child before the
   * new one is not text that `trim()` empties.
   */
  lemma RemoveFromStripped(id: string, cs: seq<Node>)
    requires id !in TextContents(cs) && !XmlBlank(id)
    requires forall c :: c in cs ==> !Declares(c, id)
    requires forall c :: c in cs && c.Text? ==> XmlChars(c.value)
    ensures var sf := StripAll(cs);
            var cs' := sf + [FeatureElement(id)];
            && FirstDeclaration(cs', id) == |sf|
            && RemoveAt(cs', |sf|) == sf
  {
    var sf := StripAll(cs);
    var cs' := sf + [FeatureElement(id)];
    forall i | 0 <= i < |sf| ensures !Declares(cs'[i], id) {
      assert cs'[i] == sf[i];
      StrippedDeclaration(id, cs, i);
    }
    assert Declares(cs'[|sf|], id);
    assert FirstDeclaration(cs', id) == |sf|;
    if |sf| > 0 && sf[|sf| - 1].Text? {
      StrippedTextFromOriginal(cs, |sf| - 1);
      var last := sf[|sf| - 1];
      NormalizeSpaceEmpty(last.value);
      BlankTestsAgree(last.value);
      JavaTrimEmpty(last.value);
      assert cs'[|sf| - 1] == last;
      assert !TidiesPrevious(cs', |sf|);
    }
    assert cs'[..|sf|] == sf;
    assert cs'[|sf| + 1..] == [];
  }

  lemma StrippedDeclaration(id: string, cs: seq<Node>, i: nat)
    requires !XmlBlank(id) && i < |StripAll(cs)|
    requires forall c :: c in cs ==> !Declares(c, id)
    ensures !Declares(StripAll(cs)[i], id)
  {
    if Declares(StripAll(cs)[i], id) {
      DeclarationBeforeStrip(id, cs, i);
    }
  }

  /** A declaration in the stripped forest was a declaration before stripping. */
  lemma DeclarationBeforeStrip(id: string, cs: seq<Node>, i: nat)
    requires !XmlBlank(id) && i < |StripAll(cs)| && Declares(StripAll(cs)[i], id)
    ensures exists c :: c in cs && Declares(c, id)
  {
    StrippedElementFrom(cs, i);
    var c :| c in cs && !IsBlankText(c) && StripNode(c) == StripAll(cs)[i];
    NormalizeSpaceEmpty(id);
    TextSurvivesStrip(c.children, Text(id));
  }

  /** Every top-level node of the stripped forest is the stripped form of a non-blank node of it. */
  lemma {:induction false} StrippedElementFrom(ns: seq<Node>, i: nat)
    requires i < |StripAll(ns)|
    ensures exists c :: c in ns && !IsBlankText(c) && StripNode(c) == StripAll(ns)[i]
    decreases ns
  {
    if IsBlankText(ns[0]) {
      StrippedElementFrom(ns[1..], i);
      var c :| c in ns[1..] && !IsBlankText(c) && StripNode(c) == StripAll(ns[1..])[i];
      assert c in ns;
    } else if i == 0 {
      assert ns[0] in ns;
    } else {
      StrippedElementFrom(ns[1..], i - 1);
      var c :| c in ns[1..] && !IsBlankText(c) && StripNode(c) == StripAll(ns[1..])[i - 1];
      assert c in ns;
    }
  }

  // ---------------------------------------------------------------------------
  // addOnError

  /** `addOnError`: set `onError` on the first `httpEndpoint`; the value is not checked. */
  function AddOnError(value: string, doc: Document): Outcome {
    if !NodeHas(doc.root, HttpEndpointTag) then Failed(MissingElement)
    else Written(Document(EditIn(doc.root, HttpEndpointTag, SetAttribute(OnErrorAttribute, value))))
  }

  /**
   * It fails exactly without an `httpEndpoint`; otherwise exactly one line of the
   * outline changes, the line of the first `httpEndpoint`, whose attributes gain
   * `onError` = value; everything else, that element's children included, stays.
   */
  lemma AddOnErrorSetsOneAttribute(value: string, doc: Document)
    ensures AddOnError(value, doc).Failed? <==> !Has([doc.root], HttpEndpointTag)
    ensures AddOnError(value, doc).Written? ==>
            var he := FirstIn(doc.root, HttpEndpointTag);
            var ls := NodeOutline(doc.root, 0);
            var k := FirstTagLine(ls, HttpEndpointTag);
            && 0 <= k < |ls|
            && ls[k] == Line(ls[k].depth, ElementItem(HttpEndpointTag, he.attrs))
            && NodeOutline(AddOnError(value, doc).doc.root, 0)
               == ls[k := Line(ls[k].depth, ElementItem(HttpEndpointTag, he.attrs[OnErrorAttribute := value]))]
  {
    assert [doc.root][1..] == [];
    if NodeHas(doc.root, HttpEndpointTag) {
      OnErrorOutline(value, doc.root);
    }
  }

  lemma OnErrorOutline(value: string, n: Node)
    requires NodeHas(n, HttpEndpointTag)
    ensures var tag := HttpEndpointTag;
            var he := FirstIn(n, tag);
            var ls := NodeOutline(n, 0);
            var k := FirstTagLine(ls, tag);
            && 0 <= k < |ls|
            && ls[k] == Line(ls[k].depth, ElementItem(tag, he.attrs))
            && NodeOutline(EditIn(n, tag, SetAttribute(OnErrorAttribute, value)), 0)
               == ls[k := Line(ls[k].depth, ElementItem(tag, he.attrs[OnErrorAttribute := value]))]
  {
    var tag := HttpEndpointTag;
    var e := SetAttribute(OnErrorAttribute, value);
    var he, D := FirstIn(n, tag), FirstDepthIn(n, tag, 0);
    var B, A := BeforeIn(n, tag, 0), AfterIn(n, tag, 0);
    var X := Outline(he.children, D + 1);
    var L, L' := Line(D, ElementItem(tag, he.attrs)), Line(D, ElementItem(tag, he.attrs[OnErrorAttribute := value]));
    var ls := NodeOutline(n, 0);
    SetAttributeLines(he, D, OnErrorAttribute, value);
    NodeOutlineSplit(n, tag, 0);
    assert ls == B + ([L] + X) + A;
    NodeFirstTagLineIsBlock(n, tag, 0);
    assert FirstTagLine(ls, tag) == |B|;
    EditInOutline(n, tag, e, 0);
    assert NodeOutline(EditIn(n, tag, e), 0) == B + ([L'] + X) + A;
    ReplaceLine(B, L, L', X, A);
  }

  /** An element's outline before and after setting one attribute: only its own line differs. */
  lemma SetAttributeLines(he: Node, D: nat, key: string, val: string)
    requires he.Element?
    ensures NodeOutline(he, D) == [Line(D, ElementItem(he.tag, he.attrs))] + Outline(he.children, D + 1)
    ensures NodeOutline(Apply(SetAttribute(key, val), he), D)
            == [Line(D, ElementItem(he.tag, he.attrs[key := val]))] + Outline(he.children, D + 1)
  {
  }

  lemma ReplaceLine(B: seq<Line>, L: Line, L': Line, X: seq<Line>, A: seq<Line>)
    ensures (B + ([L] + X) + A)[|B|] == L
    ensures B + ([L'] + X) + A == (B + ([L] + X) + A)[|B| := L']
  {
  }
}
