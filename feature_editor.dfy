/**
 * The decisions the editor's tool window makes, without its widgets: whether a
 * chosen file is taken as the server configuration, the rows of the feature
 * table, the add action over the selected rows, and what the three panes show
 * for the current selection.
 */
module FeatureEditor {
  import opened Wrappers
  import opened Whitespace
  import opened Dom
  import opened Features
  import FeatureManager
  import CatalogLoader

  // ---------------------------------------------------------------------------
  // The chosen file

  const XmlSuffix := ".xml"

  /** The UTF-16 code units of one character, as a Java `String` holds it. */
  function CodeUnits(c: char): (u: seq<int>)
    ensures |u| == if (c as int) < 0x1_0000 then 1 else 2
    ensures (c as int) < 0x1_0000 ==> u == [c as int]
    ensures (c as int) >= 0x1_0000 ==> 0xDC00 <= u[1] < 0xE000
  {
    var v := c as int;
    if v < 0x1_0000 then [v]
    else [0xD800 + (v - 0x1_0000) / 0x400, 0xDC00 + (v - 0x1_0000) % 0x400]
  }

  /** The UTF-16 code units of a string: what `length()` counts and `substring` indexes. */
  function Utf16(s: string): (u: seq<int>)
    ensures |u| >= |s|
    decreases |s|
  {
    if s == [] then [] else Utf16(s[..|s| - 1]) + CodeUnits(s[|s| - 1])
  }

  /** The outcome of the name test on a chosen file. */
  datatype FileCheck =
    | Accepted        // the table is loaded
    | Rejected        // an error dialog
    | NameTooShort    // `substring` with a negative index throws; nothing else happens

  /**
   * The last four UTF-16 code units must be exactly those of ".xml"
   * (case-sensitive); fewer than four code units make `substring` throw.
   */
  function CheckChosenFile(name: string): FileCheck {
    var u := Utf16(name);
    if |u| < 4 then NameTooShort
    else if u[|u| - 4..] == Utf16(XmlSuffix) then Accepted
    else Rejected
  }

  /** Below U+D800 a character is one code unit holding its own value. */
  predicate Narrow(t: string) {
    forall i :: 0 <= i < |t| ==> (t[i] as int) < 0xD800
  }

  lemma {:induction false} Utf16Append(a: string, b: string)
    ensures Utf16(a + b) == Utf16(a) + Utf16(b)
    decreases |b|
  {
    if b == [] {
      assert a + b == a;
    } else {
      var b' := b[..|b| - 1];
      assert (a + b)[..|a + b| - 1] == a + b';
      assert (a + b)[|a + b| - 1] == b[|b| - 1];
      Utf16Append(a, b');
    }
  }

  /** A narrow string is its own code units. */
  lemma {:induction false} NarrowUnits(t: string)
    requires Narrow(t)
    ensures |Utf16(t)| == |t| && forall i :: 0 <= i < |t| ==> Utf16(t)[i] == t[i] as int
    decreases |t|
  {
    if t != [] {
      var t' := t[..|t| - 1];
      assert Narrow(t');
      NarrowUnits(t');
    }
  }

  lemma Utf16Snoc(s: string)
    requires s != []
    ensures Utf16(s) == Utf16(s[..|s| - 1]) + CodeUnits(s[|s| - 1])
  {
  }

  /** When the code units end with a narrow unit, the last character is that unit. */
  lemma LastUnitNarrow(A: seq<int>, c: char, B: seq<int>, d: char)
    requires (d as int) < 0xD800
    requires var us := A + CodeUnits(c); |us| >= |B| + 1 && us[|us| - (|B| + 1)..] == B + [d as int]
    ensures c == d && |A| >= |B| && A[|A| - |B|..] == B
  {
    var us := A + CodeUnits(c);
    assert us[|us| - 1] == d as int;
    assert CodeUnits(c) == [c as int];
    var tail := us[|us| - (|B| + 1)..];
    assert A[|A| - |B|..] == tail[..|B|];
  }

  /** A string whose UTF-16 form ends with that of a narrow string t ends with t. */
  lemma {:induction false} NarrowSuffix(s: string, t: string)
    requires Narrow(t)
    requires |Utf16(s)| >= |Utf16(t)| && Utf16(s)[|Utf16(s)| - |Utf16(t)|..] == Utf16(t)
    ensures |s| >= |t| && s[|s| - |t|..] == t
    decreases |t|
  {
    if t != [] {
      NarrowSuffixStep(s, t);
      NarrowSuffix(s[..|s| - 1], t[..|t| - 1]);
      SnocSuffix(s, t);
    }
  }

  /** The last characters agree, and the rest of s ends with the rest of t in code units. */
  lemma NarrowSuffixStep(s: string, t: string)
    requires t != [] && Narrow(t)
    requires |Utf16(s)| >= |Utf16(t)| && Utf16(s)[|Utf16(s)| - |Utf16(t)|..] == Utf16(t)
    ensures s != [] && s[|s| - 1] == t[|t| - 1]
    ensures var s', t' := s[..|s| - 1], t[..|t| - 1];
            && Narrow(t')
            && |Utf16(s')| >= |Utf16(t')| && Utf16(s')[|Utf16(s')| - |Utf16(t')|..] == Utf16(t')
  {
    var t', d := t[..|t| - 1], t[|t| - 1];
    assert Narrow(t');
    Utf16Snoc(t);
    assert CodeUnits(d) == [d as int];
    assert s != [];
    Utf16Snoc(s);
    LastUnitNarrow(Utf16(s[..|s| - 1]), s[|s| - 1], Utf16(t'), d);
  }

  lemma SnocSuffix(s: string, t: string)
    requires s != [] && t != [] && s[|s| - 1] == t[|t| - 1]
    requires var s', t' := s[..|s| - 1], t[..|t| - 1]; |s'| >= |t'| && s'[|s'| - |t'|..] == t'
    ensures |s| >= |t| && s[|s| - |t|..] == t
  {
    var s', t' := s[..|s| - 1], t[..|t| - 1];
    assert s == s' + [s[|s| - 1]] && t == t' + [t[|t| - 1]];
    assert s[|s| - |t|..] == s'[|s'| - |t'|..] + [s[|s| - 1]];
  }

  lemma XmlSuffixUnits()
    ensures Utf16(XmlSuffix) == [0x2E, 0x78, 0x6D, 0x6C]
  {
    assert Narrow(XmlSuffix);
    NarrowUnits(XmlSuffix);
  }

  /**
   * A name is accepted exactly when it ends in ".xml", ".xml" itself included;
   * the test throws exactly when the name has fewer than four UTF-16 code units.
   */
  lemma AcceptedNames(name: string)
    ensures CheckChosenFile(name) == Accepted <==> exists p :: name == p + XmlSuffix
    ensures CheckChosenFile(name) == NameTooShort <==> |Utf16(name)| < 4
  {
    if CheckChosenFile(name) == Accepted {
      AcceptedEndsInSuffix(name);
    }
    if p :| name == p + XmlSuffix {
      SuffixAccepted(p);
    }
  }

  lemma AcceptedEndsInSuffix(name: string)
    requires CheckChosenFile(name) == Accepted
    ensures |name| >= 4 && name == name[..|name| - 4] + XmlSuffix
  {
    XmlSuffixUnits();
    assert Narrow(XmlSuffix);
    NarrowSuffix(name, XmlSuffix);
  }

  lemma SuffixAccepted(p: string)
    ensures CheckChosenFile(p + XmlSuffix) == Accepted
  {
    Utf16Append(p, XmlSuffix);
    XmlSuffixUnits();
    var u := Utf16(p + XmlSuffix);
    assert u[|u| - 4..] == Utf16(XmlSuffix);
  }

  /** The test does not fold case. */
  lemma UpperCaseSuffixRejected()
    ensures CheckChosenFile("server.XML") == Rejected
  {
    var name := "server.XML";
    assert Narrow(name);
    NarrowUnits(name);
    XmlSuffixUnits();
    assert name[7] == 'X' && ('X' as int) == 0x58;
    assert Utf16(name)[|Utf16(name)| - 4..][1] == 0x58;
  }

  /**
   * Two characters beyond U+FFFF are four code units: the name is long enough
   * for the test, and it is rejected rather than making `substring` throw.
   */
  lemma WideShortNameRejected()
    ensures CheckChosenFile("\U{1F600}\U{1F600}") == Rejected
  {
    var s := "\U{1F600}\U{1F600}";
    var w := CodeUnits('\U{1F600}');
    assert w[0] == 0xD83D;
    assert s[..1][..0] == [] && s[..1][0] == '\U{1F600}' && s[1] == '\U{1F600}';
    assert Utf16(s[..1]) == w;
    assert Utf16(s) == w + w;
    XmlSuffixUnits();
    assert Utf16(s)[0..][0] == 0xD83D;
  }

  // ---------------------------------------------------------------------------
  // The feature table

  /** A table row: the key and the display name (null until a display name is set). */
  datatype Row = Row(feature: string, name: Option<string>)

  function RowOf(f: FeatureData): Row {
    Row(f.featureName, f.name)
  }

  function RowsOf(fs: seq<FeatureData>): (r: seq<Row>)
    ensures |r| == |fs| && forall i :: 0 <= i < |fs| ==> r[i] == RowOf(fs[i])
  {
    seq(|fs|, i requires 0 <= i < |fs| => RowOf(fs[i]))
  }

  /** The list position a selected id stands for: the first feature with that key, or 0. */
  function Resolve(fs: seq<FeatureData>, id: string): (k: nat)
    requires |fs| >= 1
  {
    var k := IndexOf(fs, id);
    if k == -1 then 0 else k
  }

  /**
   * The id in row i stands for the first feature with that key; when the keys are
   * distinct, for the feature of row i itself.
   */
  lemma RowsResolveToTheirFeature(fs: seq<FeatureData>, i: nat)
    requires i < |fs|
    ensures var k := Resolve(fs, RowsOf(fs)[i].feature);
            k <= i && fs[k].featureName == fs[i].featureName
    ensures (forall j :: 0 <= j < |fs| && j != i ==> fs[j].featureName != fs[i].featureName)
            ==> Resolve(fs, RowsOf(fs)[i].feature) == i
  {
  }

  // ---------------------------------------------------------------------------
  // The panes

  const MultipleText := "Multiple features selected."
  /** The sentinel of an empty `enables` union (the same words as for one feature). */
  const NoEnablesUnionText := "Does not enable any other features."
  /** The sentinel of an empty `enabledBy` union (not the words used for one feature). */
  const NotEnabledByUnionText := "Is not enabled by any other features."

  /** What a pane shows: a text, or the elements of a set (in no specified order). */
  datatype Pane = Plain(text: string) | Items(items: set<string>)

  datatype Panes = Panes(description: Pane, enables: Pane, enabledBy: Pane)

  function Elements(xs: seq<string>): set<string> {
    set x | x in xs
  }

  /** The union of the `enables` of the features the ids stand for. */
  function EnablesUnion(fs: seq<FeatureData>, ids: seq<string>): set<string>
    requires |fs| >= 1
    decreases |ids|
  {
    if ids == [] then {}
    else EnablesUnion(fs, ids[..|ids| - 1]) + Elements(fs[Resolve(fs, ids[|ids| - 1])].enables)
  }

  /** The union of the `enabledBy` of the features the ids stand for. */
  function EnabledByUnion(fs: seq<FeatureData>, ids: seq<string>): set<string>
    requires |fs| >= 1
    decreases |ids|
  {
    if ids == [] then {}
    else EnabledByUnion(fs, ids[..|ids| - 1]) + Elements(fs[Resolve(fs, ids[|ids| - 1])].enabledBy)
  }

  function UnionPane(items: set<string>, sentinel: string): Pane {
    if items == {} then Plain(sentinel) else Items(items)
  }

  /**
   * `getTableSelection` on the feature list and the ids of the selected rows; None
   * when the list is empty and the panes are left alone.
   */
  function SelectionPanes(fs: seq<FeatureData>, ids: seq<string>): Option<Panes> {
    if |fs| == 0 then None
    else if |ids| == 1 then
      var f := fs[Resolve(fs, ids[0])];
      Some(Panes(Plain(f.description), Plain(Describe(f.enables, NoEnablesText)),
                 Plain(Describe(f.enabledBy, NotEnabledByText))))
    else if |ids| == 0 then Some(Panes(Plain(""), Plain(""), Plain("")))
    else
      Some(Panes(Plain(MultipleText),
                 UnionPane(EnablesUnion(fs, ids), NoEnablesUnionText),
                 UnionPane(EnabledByUnion(fs, ids), NotEnabledByUnionText)))
  }

  lemma {:induction false} EnablesUnionMembers(fs: seq<FeatureData>, ids: seq<string>, x: string)
    requires |fs| >= 1
    ensures x in EnablesUnion(fs, ids) <==> exists i :: 0 <= i < |ids| && x in fs[Resolve(fs, ids[i])].enables
    decreases |ids|
  {
    if ids != [] {
      var n := |ids| - 1;
      var init := ids[..n];
      var last := fs[Resolve(fs, ids[n])].enables;
      assert EnablesUnion(fs, ids) == EnablesUnion(fs, init) + Elements(last);
      EnablesUnionMembers(fs, init, x);
      if x in EnablesUnion(fs, ids) {
        if x in EnablesUnion(fs, init) {
          var i :| 0 <= i < |init| && x in fs[Resolve(fs, init[i])].enables;
          assert ids[i] == init[i];
        } else {
          assert x in fs[Resolve(fs, ids[n])].enables;
        }
      } else {
        forall i | 0 <= i < |ids|
          ensures x !in fs[Resolve(fs, ids[i])].enables
        {
          if i < n {
            assert ids[i] == init[i];
          }
        }
      }
    }
  }

  lemma {:induction false} EnabledByUnionMembers(fs: seq<FeatureData>, ids: seq<string>, x: string)
    requires |fs| >= 1
    ensures x in EnabledByUnion(fs, ids) <==> exists i :: 0 <= i < |ids| && x in fs[Resolve(fs, ids[i])].enabledBy
    decreases |ids|
  {
    if ids != [] {
      var n := |ids| - 1;
      var init := ids[..n];
      var last := fs[Resolve(fs, ids[n])].enabledBy;
      assert EnabledByUnion(fs, ids) == EnabledByUnion(fs, init) + Elements(last);
      EnabledByUnionMembers(fs, init, x);
      if x in EnabledByUnion(fs, ids) {
        if x in EnabledByUnion(fs, init) {
          var i :| 0 <= i < |init| && x in fs[Resolve(fs, init[i])].enabledBy;
          assert ids[i] == init[i];
        } else {
          assert x in fs[Resolve(fs, ids[n])].enabledBy;
        }
      } else {
        forall i | 0 <= i < |ids|
          ensures x !in fs[Resolve(fs, ids[i])].enabledBy
        {
          if i < n {
            assert ids[i] == init[i];
          }
        }
      }
    }
  }

  /** With an empty feature list the panes are left as they are, whatever is selected. */
  lemma EmptyListShowsNothing(ids: seq<string>)
    ensures SelectionPanes([], ids) == None
  {
  }

  /** With features listed and no row selected, all three panes are cleared. */
  lemma NoSelectionClearsPanes(fs: seq<FeatureData>)
    requires |fs| >= 1
    ensures SelectionPanes(fs, []) == Some(Panes(Plain(""), Plain(""), Plain("")))
  {
  }

  /**
   * One selected row shows the feature its id stands for: its description, and
   * its lists joined with ", " or the single-feature sentinels when empty.
   */
  lemma SingleSelection(fs: seq<FeatureData>, id: string)
    requires |fs| >= 1
    ensures var k := IndexOf(fs, id);
            var f := if k == -1 then fs[0] else fs[k];
            && SelectionPanes(fs, [id]).Some?
            && SelectionPanes(fs, [id]).value.description == Plain(f.description)
            && SelectionPanes(fs, [id]).value.enables
               == Plain(if f.enables == [] then NoEnablesText else Join(f.enables))
            && SelectionPanes(fs, [id]).value.enabledBy
               == Plain(if f.enabledBy == [] then NotEnabledByText else Join(f.enabledBy))
  {
  }

  /**
   * Several selected rows: the description pane says so; each list pane shows
   * exactly the names some selected feature lists, or its sentinel exactly when
   * no selected feature lists any.
   */
  lemma MultipleSelection(fs: seq<FeatureData>, ids: seq<string>)
    requires |fs| >= 1 && |ids| >= 2
    ensures var p := SelectionPanes(fs, ids);
            && p.Some? && p.value.description == Plain(MultipleText)
            && (p.value.enables == Plain(NoEnablesUnionText) <==>
                forall i :: 0 <= i < |ids| ==> fs[Resolve(fs, ids[i])].enables == [])
            && (p.value.enabledBy == Plain(NotEnabledByUnionText) <==>
                forall i :: 0 <= i < |ids| ==> fs[Resolve(fs, ids[i])].enabledBy == [])
            && (forall x :: p.value.enables.Items? ==>
                  (x in p.value.enables.items <==>
                   exists i :: 0 <= i < |ids| && x in fs[Resolve(fs, ids[i])].enables))
            && (forall x :: p.value.enabledBy.Items? ==>
                  (x in p.value.enabledBy.items <==>
                   exists i :: 0 <= i < |ids| && x in fs[Resolve(fs, ids[i])].enabledBy))
  {
    forall x ensures x in EnablesUnion(fs, ids) <==>
                     exists i :: 0 <= i < |ids| && x in fs[Resolve(fs, ids[i])].enables {
      EnablesUnionMembers(fs, ids, x);
    }
    forall x ensures x in EnabledByUnion(fs, ids) <==>
                     exists i :: 0 <= i < |ids| && x in fs[Resolve(fs, ids[i])].enabledBy {
      EnabledByUnionMembers(fs, ids, x);
    }
    UnionsEmpty(fs, ids);
  }

  /** A union is empty exactly when every selected feature's list is. */
  lemma UnionsEmpty(fs: seq<FeatureData>, ids: seq<string>)
    requires |fs| >= 1
    ensures EnablesUnion(fs, ids) == {} <==> forall i :: 0 <= i < |ids| ==> fs[Resolve(fs, ids[i])].enables == []
    ensures EnabledByUnion(fs, ids) == {} <==> forall i :: 0 <= i < |ids| ==> fs[Resolve(fs, ids[i])].enabledBy == []
  {
    if EnablesUnion(fs, ids) != {} {
      var x :| x in EnablesUnion(fs, ids);
      EnablesUnionMembers(fs, ids, x);
    } else {
      forall i | 0 <= i < |ids| ensures fs[Resolve(fs, ids[i])].enables == [] {
        var es := fs[Resolve(fs, ids[i])].enables;
        if es != [] {
          EnablesUnionMembers(fs, ids, es[0]);
        }
      }
    }
    if EnabledByUnion(fs, ids) != {} {
      var x :| x in EnabledByUnion(fs, ids);
      EnabledByUnionMembers(fs, ids, x);
    } else {
      forall i | 0 <= i < |ids| ensures fs[Resolve(fs, ids[i])].enabledBy == [] {
        var es := fs[Resolve(fs, ids[i])].enabledBy;
        if es != [] {
          EnabledByUnionMembers(fs, ids, es[0]);
        }
      }
    }
  }

  /** Several selected rows: neither their order nor repeats change what is shown. */
  lemma MultipleSelectionIgnoresOrder(fs: seq<FeatureData>, ids: seq<string>, ids': seq<string>)
    requires |fs| >= 1 && |ids| >= 2 && |ids'| >= 2
    requires forall i :: 0 <= i < |ids| ==> ids[i] in ids'
    requires forall i :: 0 <= i < |ids'| ==> ids'[i] in ids
    ensures SelectionPanes(fs, ids) == SelectionPanes(fs, ids')
  {
    forall x ensures x in EnablesUnion(fs, ids) <==> x in EnablesUnion(fs, ids') {
      if x in EnablesUnion(fs, ids) {
        EnablesUnionWithin(fs, ids, ids', x);
      }
      if x in EnablesUnion(fs, ids') {
        EnablesUnionWithin(fs, ids', ids, x);
      }
    }
    forall x ensures x in EnabledByUnion(fs, ids) <==> x in EnabledByUnion(fs, ids') {
      if x in EnabledByUnion(fs, ids) {
        EnabledByUnionWithin(fs, ids, ids', x);
      }
      if x in EnabledByUnion(fs, ids') {
        EnabledByUnionWithin(fs, ids', ids, x);
      }
    }
    assert EnablesUnion(fs, ids) == EnablesUnion(fs, ids');
    assert EnabledByUnion(fs, ids) == EnabledByUnion(fs, ids');
  }

  /** What the union over some ids holds, the union over ids that include them holds too. */
  lemma EnablesUnionWithin(fs: seq<FeatureData>, ids: seq<string>, ids': seq<string>, x: string)
    requires |fs| >= 1 && forall i :: 0 <= i < |ids| ==> ids[i] in ids'
    requires x in EnablesUnion(fs, ids)
    ensures x in EnablesUnion(fs, ids')
  {
    EnablesUnionMembers(fs, ids, x);
    EnablesUnionMembers(fs, ids', x);
    var i :| 0 <= i < |ids| && x in fs[Resolve(fs, ids[i])].enables;
    var j :| 0 <= j < |ids'| && ids'[j] == ids[i];
  }

  lemma EnabledByUnionWithin(fs: seq<FeatureData>, ids: seq<string>, ids': seq<string>, x: string)
    requires |fs| >= 1 && forall i :: 0 <= i < |ids| ==> ids[i] in ids'
    requires x in EnabledByUnion(fs, ids)
    ensures x in EnabledByUnion(fs, ids')
  {
    EnabledByUnionMembers(fs, ids, x);
    EnabledByUnionMembers(fs, ids', x);
    var i :| 0 <= i < |ids| && x in fs[Resolve(fs, ids[i])].enabledBy;
    var j :| 0 <= j < |ids'| && ids'[j] == ids[i];
  }

  /**
   * The empty `enabledBy` of one selected feature and of several are shown with
   * different sentences, while the empty `enables` sentences agree.
   */
  lemma SentinelsOfOneAndMany()
    ensures NotEnabledByText != NotEnabledByUnionText
    ensures NoEnablesText == NoEnablesUnionText
  {
    assert NotEnabledByText[0] != NotEnabledByUnionText[0];
  }

  // ---------------------------------------------------------------------------
  // The add action

  /** The stored document after `addNewFeature` for each id in turn. */
  function AddAll(doc: Document, ids: seq<string>): Document
    decreases |ids|
  {
    if ids == [] then doc
    else AddAll(FeatureManager.Stored(FeatureManager.AddFeature(ids[0], doc), doc), ids[1..])
  }

  /** The id is listed among the children of the first featureManager. */
  predicate Listed(doc: Document, id: string) {
    NodeHas(doc.root, FeatureManager.FeatureManagerTag)
    && id in FeatureManager.TextContents(FirstIn(doc.root, FeatureManager.FeatureManagerTag).children)
  }

  /** One add of a non-blank id leaves it listed; a written one also leaves no blank text. */
  lemma AddLists(doc: Document, id: string)
    requires NodeHas(doc.root, FeatureManager.FeatureManagerTag) && !XmlBlank(id)
    ensures var d := FeatureManager.Stored(FeatureManager.AddFeature(id, doc), doc);
            && Listed(d, id)
            && (FeatureManager.AddFeature(id, doc).Written? ==> NodeNoBlank(d.root))
  {
    var o := FeatureManager.AddFeature(id, doc);
    if o.Written? {
      FeatureManager.AddFeatureAppends(id, doc);
      FeatureManager.AddFeatureLeavesNoBlank(id, doc);
      var fm := FirstIn(doc.root, FeatureManager.FeatureManagerTag);
      var cs := StripAll(fm.children) + [FeatureManager.FeatureElement(id)];
      FeatureManager.StripFeatureElement(id);
      assert FeatureManager.TextContents(cs)[|cs| - 1] == id;
    }
  }

  /** In a document without blank text, an add keeps every listed id listed. */
  lemma AddKeepsListed(doc: Document, id: string, x: string)
    requires NodeNoBlank(doc.root) && Listed(doc, x) && !XmlBlank(id)
    ensures var d := FeatureManager.Stored(FeatureManager.AddFeature(id, doc), doc);
            Listed(d, x) && NodeNoBlank(d.root)
  {
    var o := FeatureManager.AddFeature(id, doc);
    if o.Written? {
      FeatureManager.AddFeatureAppends(id, doc);
      FeatureManager.AddFeatureLeavesNoBlank(id, doc);
      var fm := FirstIn(doc.root, FeatureManager.FeatureManagerTag);
      FirstInNoBlank(doc.root, FeatureManager.FeatureManagerTag);
      StripAllNoBlankFixed(fm.children);
      var cs := fm.children + [FeatureManager.FeatureElement(id)];
      var i :| 0 <= i < |fm.children| && FeatureManager.TextContents(fm.children)[i] == x;
      assert FeatureManager.TextContents(cs)[i] == x;
    }
  }

  lemma {:induction false} AddAllKeepsListed(doc: Document, ids: seq<string>, x: string)
    requires NodeNoBlank(doc.root) && Listed(doc, x)
    requires forall i :: 0 <= i < |ids| ==> !XmlBlank(ids[i])
    ensures Listed(AddAll(doc, ids), x) && NodeNoBlank(AddAll(doc, ids).root)
    decreases |ids|
  {
    if ids != [] {
      AddKeepsListed(doc, ids[0], x);
      AddAllKeepsListed(FeatureManager.Stored(FeatureManager.AddFeature(ids[0], doc), doc), ids[1..], x);
    }
  }

  /**
   * After the add action every selected (non-blank) id is listed in the stored
   * document, unless it was listed already and the stripping of a later write
   * changed the text of the child that listed it; in a document without blank text
   * every selected id ends up listed.
   */
  lemma {:induction false} AddAllLists(doc: Document, ids: seq<string>)
    requires NodeHas(doc.root, FeatureManager.FeatureManagerTag)
    requires forall i :: 0 <= i < |ids| ==> !XmlBlank(ids[i])
    ensures forall i :: 0 <= i < |ids| ==> Listed(AddAll(doc, ids), ids[i]) || Listed(doc, ids[i])
    ensures NodeNoBlank(doc.root) ==> forall i :: 0 <= i < |ids| ==> Listed(AddAll(doc, ids), ids[i])
    decreases |ids|
  {
    if ids != [] {
      var o := FeatureManager.AddFeature(ids[0], doc);
      var d1 := FeatureManager.Stored(o, doc);
      var rest := ids[1..];
      AddLists(doc, ids[0]);
      assert NodeHas(d1.root, FeatureManager.FeatureManagerTag);
      AddAllLists(d1, rest);
      assert AddAll(doc, ids) == AddAll(d1, rest);
      forall i | 0 <= i < |ids|
        ensures Listed(AddAll(doc, ids), ids[i]) || Listed(doc, ids[i])
        ensures NodeNoBlank(doc.root) ==> Listed(AddAll(doc, ids), ids[i])
      {
        if o.Written? || NodeNoBlank(doc.root) {
          if NodeNoBlank(doc.root) && !o.Written? {
            assert d1 == doc;
          }
          assert NodeNoBlank(d1.root);
          if i == 0 {
            AddAllKeepsListed(d1, rest, ids[0]);
          } else {
            assert ids[i] == rest[i - 1];
          }
        } else {
          assert d1 == doc;
          if i > 0 {
            assert ids[i] == rest[i - 1];
          }
        }
      }
    }
  }

  // ---------------------------------------------------------------------------
  // The tool window's state

  class EditorState {
    /** The file last chosen, accepted or not. */
    var xmlFile: Option<string>
    /** The feature list; None once a load has returned null. */
    var featureList: Option<seq<Feature>>
    var rows: seq<Row>
    var panes: Panes

    constructor ()
      ensures xmlFile == None && featureList == Some([]) && rows == []
      ensures panes == Panes(Plain(""), Plain(""), Plain(""))
    {
      xmlFile := None;
      featureList := Some([]);
      rows := [];
      panes := Panes(Plain(""), Plain(""), Plain(""));
    }

    /**
     * `loadTableFeatures`, given what `loadAllFeatures` returned: the list is
     * replaced by the result and one row per feature is added after the rows
     * already in the table.
     */
    method LoadTableFeatures(loaded: CatalogLoader.LoadResult)
      modifies this
      ensures xmlFile == old(xmlFile) && panes == old(panes)
      ensures loaded.Returned? ==>
              featureList == Some(loaded.list) && rows == old(rows) + RowsOf(Snapshot(loaded.list))
      ensures loaded.ReturnedNull? ==> featureList == None && rows == old(rows)
      ensures loaded.ProcessExited? ==> featureList == old(featureList) && rows == old(rows)
    {
      if loaded.ProcessExited? {
        return;
      }
      if loaded.ReturnedNull? {
        featureList := None;
        return;
      }
      var list := loaded.list;
      featureList := Some(list);
      ghost var before := rows;
      var i := 0;
      while i < |list|
        invariant 0 <= i <= |list|
        invariant featureList == Some(list) && xmlFile == old(xmlFile) && panes == old(panes)
        invariant rows == before + RowsOf(Snapshot(list[..i]))
      {
        assert RowsOf(Snapshot(list[..i + 1])) == RowsOf(Snapshot(list[..i])) + [RowOf(list[i].Data())];
        rows := rows + [Row(list[i].featureName, list[i].name)];
        i := i + 1;
      }
      assert list[..i] == list;
    }

    /**
     * The load button after the dialog: the file is remembered before its name is
     * tested; only an accepted name loads the table.
     */
    method OnFileChosen(name: string, loaded: CatalogLoader.LoadResult) returns (check: FileCheck)
      modifies this
      ensures check == CheckChosenFile(name)
      ensures xmlFile == Some(name) && panes == old(panes)
      ensures check == Accepted && loaded.Returned? ==>
              featureList == Some(loaded.list) && rows == old(rows) + RowsOf(Snapshot(loaded.list))
      ensures check == Accepted && loaded.ReturnedNull? ==> featureList == None && rows == old(rows)
      ensures check != Accepted || loaded.ProcessExited? ==>
              featureList == old(featureList) && rows == old(rows)
    {
      xmlFile := Some(name);
      check := CheckChosenFile(name);
      if check != Accepted {
        return;
      }
      LoadTableFeatures(loaded);
    }

    /**
     * The add button: an error dialog (None) without a chosen file, otherwise
     * `addNewFeature` for the id of every selected row, in selection order, each on
     * the document the previous one stored.
     */
    method AddSelected(stored: Document, ids: seq<string>) returns (r: Option<Document>)
      ensures r == if xmlFile.None? then None else Some(AddAll(stored, ids))
    {
      if xmlFile.None? {
        return None;
      }
      var doc := stored;
      var i := 0;
      while i < |ids|
        invariant 0 <= i <= |ids|
        invariant AddAll(doc, ids[i..]) == AddAll(stored, ids)
      {
        var o := FeatureManager.AddNewFeature(ids[i], doc);
        assert ids[i..][1..] == ids[i + 1..];
        doc := FeatureManager.Stored(o, doc);
        i := i + 1;
      }
      return Some(doc);
    }

    /**
     * `getTableSelection` for the ids of the selected rows: the panes change as
     * `SelectionPanes` says, and nothing changes when the list is empty or null.
     */
    method GetTableSelection(ids: seq<string>)
      modifies this
      ensures xmlFile == old(xmlFile) && featureList == old(featureList) && rows == old(rows)
      ensures featureList.None? ==> panes == old(panes)
      ensures featureList.Some? ==>
              var p := SelectionPanes(Snapshot(featureList.value), ids);
              panes == if p.None? then old(panes) else p.value
    {
      if featureList.None? {
        return;
      }
      var list := featureList.value;
      if |list| < 1 {
        return;
      }
      ghost var fs := Snapshot(list);
      if |ids| == 1 {
        panes := ShowOne(list, ids[0]);
      } else if |ids| == 0 {
        panes := Panes(Plain(""), Plain(""), Plain(""));
      } else {
        panes := ShowMany(list, ids);
      }
      assert Snapshot(list) == fs;
    }
  }

  /** The row a selected id stands for: its feature's position, or the first row when unknown. */
  method Lookup(list: seq<Feature>, id: string) returns (k: nat)
    requires |list| >= 1
    ensures k < |list| && k == Resolve(Snapshot(list), id)
  {
    var index := IndexOfKey(list, id);
    if index == -1 {
      index := 0;
    }
    k := index;
  }

  /** The panes for one selected id. */
  method ShowOne(list: seq<Feature>, id: string) returns (p: Panes)
    requires |list| >= 1
    ensures Some(p) == SelectionPanes(Snapshot(list), [id])
  {
    var comboIndex := Lookup(list, id);
    var f := list[comboIndex];
    var enables := f.EnablesToString();
    var enabledBy := f.EnabledByToString();
    p := Panes(Plain(f.description), Plain(enables), Plain(enabledBy));
  }

  /** Both unions grow by one feature's lists per selected id. */
  lemma UnionsStep(fs: seq<FeatureData>, ids: seq<string>, i: nat)
    requires |fs| >= 1 && i < |ids|
    ensures var f := fs[Resolve(fs, ids[i])];
            && EnablesUnion(fs, ids[..i + 1]) == EnablesUnion(fs, ids[..i]) + Elements(f.enables)
            && EnabledByUnion(fs, ids[..i + 1]) == EnabledByUnion(fs, ids[..i]) + Elements(f.enabledBy)
  {
    var p := ids[..i + 1];
    assert |p| - 1 == i && p[..i] == ids[..i] && p[i] == ids[i];
  }

  /** The panes for several selected ids: two sets filled in one pass over the selection. */
  method ShowMany(list: seq<Feature>, ids: seq<string>) returns (p: Panes)
    requires |list| >= 1 && |ids| >= 2
    ensures Some(p) == SelectionPanes(Snapshot(list), ids)
  {
    ghost var fs := Snapshot(list);
    var enables: set<string> := {};
    var enabledBy: set<string> := {};
    var i := 0;
    while i < |ids|
      invariant 0 <= i <= |ids|
      invariant enables == EnablesUnion(fs, ids[..i]) && enabledBy == EnabledByUnion(fs, ids[..i])
      invariant Snapshot(list) == fs
    {
      var comboIndex := Lookup(list, ids[i]);
      var f := list[comboIndex];
      assert f.Data() == fs[comboIndex];
      UnionsStep(fs, ids, i);
      enabledBy := enabledBy + Elements(f.enabledBy);
      enables := enables + Elements(f.enables);
      i := i + 1;
    }
    assert ids[..i] == ids;
    p := Panes(Plain(MultipleText), UnionPane(enables, NoEnablesUnionText),
               UnionPane(enabledBy, NotEnabledByUnionText));
  }
}
