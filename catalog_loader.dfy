/**
 * Loading the feature catalog (`<featureInfo>` with one `<feature name=…>` per
 * feature, each holding `description`, `displayName` and `enables` children) into
 * the editor's list of `Feature` objects.  The list outlives a load: each load
 * appends to what earlier loads left.
 *
 * The load runs three passes over the catalog, each over the matches of one
 * location path in document order:
 *   1. every `description` creates a feature keyed by its parent's `name`;
 *   2. every `displayName` sets the display name of the feature with that key;
 *   3. every `enables` records the edge both ways: the owner enables the target,
 *      and the target is enabled by the owner.
 * A missing `name` attribute or (in pass 2) a missing key is an exception that
 * ends the load with a null result; a missing key in pass 3 exits the process.
 * What the passes do is first stated on values (`Pass1`, `Pass2`, `Pass3`,
 * `LoadSpec`) and then carried out on the objects by `Catalog.LoadAllFeatures`.
 */
module CatalogLoader {
  import opened Wrappers
  import opened Dom
  import opened Features

  const FeatureInfoTag := "featureInfo"
  const FeatureTag := "feature"
  const DescriptionTag := "description"
  const DisplayNameTag := "displayName"
  const EnablesTag := "enables"
  const NameAttribute := "name"

  // ---------------------------------------------------------------------------
  // The matches of `/featureInfo/feature/<leaf>`

  /** One match: the `name` of its parent feature (absent if the attribute is) and its text. */
  datatype Entry = Entry(owner: Option<string>, text: string)

  function Owner(f: Node): Option<string>
    requires f.Element?
  {
    if NameAttribute in f.attrs then Some(f.attrs[NameAttribute]) else None
  }

  function LeafEntries(owner: Option<string>, cs: seq<Node>, leaf: string): seq<Entry>
    decreases cs
  {
    if cs == [] then []
    else (if IsElementTagged(cs[0], leaf) then [Entry(owner, TextContent(cs[0]))] else [])
         + LeafEntries(owner, cs[1..], leaf)
  }

  function EntriesIn(fs: seq<Node>, leaf: string): seq<Entry>
    decreases fs
  {
    if fs == [] then []
    else (if IsElementTagged(fs[0], FeatureTag) then LeafEntries(Owner(fs[0]), fs[0].children, leaf) else [])
         + EntriesIn(fs[1..], leaf)
  }

  /** The matches of `/featureInfo/feature/<leaf>` in document order. */
  function Entries(catalog: Document, leaf: string): seq<Entry> {
    if IsElementTagged(catalog.root, FeatureInfoTag) then EntriesIn(catalog.root.children, leaf) else []
  }

  /** An entry is found exactly for a `leaf` child of a `feature` child of the root. */
  lemma {:induction false} LeafEntriesMembers(owner: Option<string>, cs: seq<Node>, leaf: string, e: Entry)
    ensures e in LeafEntries(owner, cs, leaf) <==>
            e.owner == owner && exists c :: c in cs && IsElementTagged(c, leaf) && e.text == TextContent(c)
    decreases cs
  {
    if cs != [] {
      LeafEntriesMembers(owner, cs[1..], leaf, e);
      assert cs == [cs[0]] + cs[1..];
      if IsElementTagged(cs[0], leaf) && e == Entry(owner, TextContent(cs[0])) {
        assert cs[0] in cs;
      }
    }
  }

  lemma {:induction false} EntriesInMembers(fs: seq<Node>, leaf: string, e: Entry)
    ensures e in EntriesIn(fs, leaf) <==>
            exists f :: f in fs && IsElementTagged(f, FeatureTag) && e in LeafEntries(Owner(f), f.children, leaf)
    decreases fs
  {
    if fs != [] {
      EntriesInMembers(fs[1..], leaf, e);
      assert fs == [fs[0]] + fs[1..];
      if IsElementTagged(fs[0], FeatureTag) && e in LeafEntries(Owner(fs[0]), fs[0].children, leaf) {
        assert fs[0] in fs;
      }
    }
  }

  lemma EntriesMembers(catalog: Document, leaf: string, e: Entry)
    ensures e in Entries(catalog, leaf) <==>
            && IsElementTagged(catalog.root, FeatureInfoTag)
            && exists f, c :: f in catalog.root.children && IsElementTagged(f, FeatureTag)
                              && c in f.children && IsElementTagged(c, leaf)
                              && e == Entry(Owner(f), TextContent(c))
  {
    if IsElementTagged(catalog.root, FeatureInfoTag) {
      EntriesInMembers(catalog.root.children, leaf, e);
      if e in Entries(catalog, leaf) {
        var f :| f in catalog.root.children && IsElementTagged(f, FeatureTag)
                 && e in LeafEntries(Owner(f), f.children, leaf);
        LeafEntriesMembers(Owner(f), f.children, leaf, e);
      }
      if exists f, c :: f in catalog.root.children && IsElementTagged(f, FeatureTag)
                        && c in f.children && IsElementTagged(c, leaf)
                        && e == Entry(Owner(f), TextContent(c)) {
        var f, c :| f in catalog.root.children && IsElementTagged(f, FeatureTag)
                    && c in f.children && IsElementTagged(c, leaf)
                    && e == Entry(Owner(f), TextContent(c));
        LeafEntriesMembers(Owner(f), f.children, leaf, e);
      }
    }
  }

  // ---------------------------------------------------------------------------
  // The passes, on values

  /** How a pass, or the whole load, ends. */
  datatype Status =
    | Completed
    | Failed    // an exception: `loadAllFeatures` returns null
    | Exited    // `System.exit(0)`

  datatype Progress = Progress(features: seq<FeatureData>, status: Status)

  function NewFeature(e: Entry): FeatureData
    requires e.owner.Some?
  {
    FeatureData(e.owner.value, None, e.text, [], [])
  }

  /** Pass 1: `new Feature(name, description)` appended for each description. */
  function Pass1(fs: seq<FeatureData>, es: seq<Entry>): Progress
    decreases |es|
  {
    if es == [] then Progress(fs, Completed)
    else if es[0].owner.None? then Progress(fs, Failed)
    else Pass1(fs + [NewFeature(es[0])], es[1..])
  }

  /** Pass 2: `get(indexOf(key)).setName(displayName)`; `get(-1)` throws. */
  function Pass2(fs: seq<FeatureData>, es: seq<Entry>): Progress
    decreases |es|
  {
    if es == [] then Progress(fs, Completed)
    else if es[0].owner.None? then Progress(fs, Failed)
    else
      var k := IndexOf(fs, es[0].owner.value);
      if k == -1 then Progress(fs, Failed)
      else Pass2(fs[k := fs[k].(name := Some(es[0].text))], es[1..])
  }

  /** One `enables` entry: the owner at k gains the target, then the target at r gains the owner. */
  function Link(fs: seq<FeatureData>, owner: string, target: string, k: nat, r: nat): seq<FeatureData>
    requires k < |fs| && r < |fs|
  {
    var fs1 := fs[k := fs[k].(enables := fs[k].enables + [target])];
    fs1[r := fs1[r].(enabledBy := fs1[r].enabledBy + [owner])]
  }

  /** Pass 3: both ends are looked up first; if either is missing the process exits. */
  function Pass3(fs: seq<FeatureData>, es: seq<Entry>): Progress
    decreases |es|
  {
    if es == [] then Progress(fs, Completed)
    else if es[0].owner.None? then Progress(fs, Failed)
    else
      var owner := es[0].owner.value;
      var k, r := IndexOf(fs, owner), IndexOf(fs, es[0].text);
      if k == -1 || r == -1 then Progress(fs, Exited)
      else Pass3(Link(fs, owner, es[0].text, k, r), es[1..])
  }

  /** One step of pass 1, from position i of the entries. */
  lemma Pass1Step(fs: seq<FeatureData>, es: seq<Entry>, i: nat)
    requires i < |es| && es[i].owner.Some?
    ensures Pass1(fs, es[i..]) == Pass1(fs + [NewFeature(es[i])], es[i + 1..])
  {
    assert es[i..][0] == es[i] && es[i..][1..] == es[i + 1..];
  }

  /** One step of pass 2, from position i of the entries. */
  lemma Pass2Step(fs: seq<FeatureData>, es: seq<Entry>, i: nat)
    requires i < |es| && es[i].owner.Some?
    ensures var k := IndexOf(fs, es[i].owner.value);
            Pass2(fs, es[i..])
            == if k == -1 then Progress(fs, Failed)
               else Pass2(fs[k := fs[k].(name := Some(es[i].text))], es[i + 1..])
  {
    assert es[i..][0] == es[i] && es[i..][1..] == es[i + 1..];
  }

  /** One step of pass 3, from position i of the entries. */
  lemma Pass3Step(fs: seq<FeatureData>, es: seq<Entry>, i: nat)
    requires i < |es| && es[i].owner.Some?
    ensures var owner, target := es[i].owner.value, es[i].text;
            var k, r := IndexOf(fs, owner), IndexOf(fs, target);
            Pass3(fs, es[i..])
            == if k == -1 || r == -1 then Progress(fs, Exited)
               else Pass3(Link(fs, owner, target, k, r), es[i + 1..])
  {
    assert es[i..][0] == es[i] && es[i..][1..] == es[i + 1..];
  }

  /** The whole load from the list `fs` the earlier loads left. */
  function LoadSpec(fs: seq<FeatureData>, catalog: Document): Progress {
    var p1 := Pass1(fs, Entries(catalog, DescriptionTag));
    if p1.status != Completed then p1
    else
      var p2 := Pass2(p1.features, Entries(catalog, DisplayNameTag));
      if p2.status != Completed then p2
      else Pass3(p2.features, Entries(catalog, EnablesTag))
  }

  // ---------------------------------------------------------------------------
  // Keys

  function Names(fs: seq<FeatureData>): (r: seq<string>)
    ensures |r| == |fs| && forall i :: 0 <= i < |fs| ==> r[i] == fs[i].featureName
  {
    seq(|fs|, i requires 0 <= i < |fs| => fs[i].featureName)
  }

  /** A lookup by key depends on the keys alone. */
  lemma {:induction false} IndexOfNames(a: seq<FeatureData>, b: seq<FeatureData>, key: string)
    requires Names(a) == Names(b)
    ensures IndexOf(a, key) == IndexOf(b, key)
    decreases |a|
  {
    if a != [] {
      assert a[0].featureName == Names(a)[0] == Names(b)[0] == b[0].featureName;
      assert Names(a[1..]) == Names(a)[1..] && Names(b[1..]) == Names(b)[1..];
      IndexOfNames(a[1..], b[1..], key);
    }
  }

  lemma IndexOfFinds(fs: seq<FeatureData>, key: string)
    ensures IndexOf(fs, key) != -1 <==> key in Names(fs)
  {
    if key in Names(fs) {
      var i :| 0 <= i < |fs| && Names(fs)[i] == key;
    }
  }

  /** Whether every entry has an owner. */
  predicate Owned(es: seq<Entry>) {
    forall i :: 0 <= i < |es| ==> es[i].owner.Some?
  }

  function NewFeatures(es: seq<Entry>): (r: seq<FeatureData>)
    requires Owned(es)
    ensures |r| == |es| && forall i :: 0 <= i < |es| ==> r[i] == NewFeature(es[i])
  {
    seq(|es|, i requires 0 <= i < |es| && Owned(es) => NewFeature(es[i]))
  }

  /** How many entries, from the front, have an owner. */
  function OwnedPrefix(es: seq<Entry>): (n: nat)
    ensures n <= |es| && Owned(es[..n])
    ensures n < |es| ==> es[n].owner.None?
    decreases |es|
  {
    if es == [] || es[0].owner.None? then 0
    else
      var m := OwnedPrefix(es[1..]);
      assert es[..m + 1] == [es[0]] + es[1..][..m];
      1 + m
  }

  lemma OwnedPrefixAll(es: seq<Entry>)
    ensures OwnedPrefix(es) == |es| <==> Owned(es)
  {
    if OwnedPrefix(es) == |es| {
      assert es[..|es|] == es;
    }
  }

  /**
   * Pass 1 appends one new feature per description, in order, up to the first
   * description whose feature has no `name`, where it fails; it never exits.
   */
  lemma {:induction false} Pass1Appends(fs: seq<FeatureData>, es: seq<Entry>)
    ensures var n := OwnedPrefix(es);
            Pass1(fs, es) == Progress(fs + NewFeatures(es[..n]), if n == |es| then Completed else Failed)
    decreases |es|
  {
    var n := OwnedPrefix(es);
    if es != [] && es[0].owner.Some? {
      var fs' := fs + [NewFeature(es[0])];
      Pass1Appends(fs', es[1..]);
      var m := OwnedPrefix(es[1..]);
      assert n == m + 1;
      assert es[..n] == [es[0]] + es[1..][..m];
      assert NewFeatures(es[..n]) == [NewFeature(es[0])] + NewFeatures(es[1..][..m]);
      assert fs' + NewFeatures(es[1..][..m]) == fs + NewFeatures(es[..n]);
    } else {
      assert es[..n] == [];
    }
  }

  /** Pass 1 completes exactly when every description has an owner. */
  lemma Pass1Completes(fs: seq<FeatureData>, es: seq<Entry>)
    ensures Pass1(fs, es).status != Exited
    ensures Pass1(fs, es).status == Completed <==> Owned(es)
    ensures Pass1(fs, es).status == Completed ==> Pass1(fs, es).features == fs + NewFeatures(es)
  {
    Pass1Appends(fs, es);
    OwnedPrefixAll(es);
    assert es[..|es|] == es;
  }

  /** Passes 2 and 3 keep every key at its position, however they end. */
  lemma {:induction false} Pass2KeepsNames(fs: seq<FeatureData>, es: seq<Entry>)
    ensures Names(Pass2(fs, es).features) == Names(fs)
    decreases |es|
  {
    if es != [] && es[0].owner.Some? {
      var k := IndexOf(fs, es[0].owner.value);
      if k != -1 {
        var fs' := fs[k := fs[k].(name := Some(es[0].text))];
        RenameNames(fs, k, es[0].text);
        Pass2KeepsNames(fs', es[1..]);
      }
    }
  }

  lemma {:induction false} Pass3KeepsNames(fs: seq<FeatureData>, es: seq<Entry>)
    ensures Names(Pass3(fs, es).features) == Names(fs)
    decreases |es|
  {
    if es != [] && es[0].owner.Some? {
      var owner := es[0].owner.value;
      var k, r := IndexOf(fs, owner), IndexOf(fs, es[0].text);
      if k != -1 && r != -1 {
        var fs' := Link(fs, owner, es[0].text, k, r);
        LinkNames(fs, owner, es[0].text, k, r);
        Pass3KeepsNames(fs', es[1..]);
      }
    }
  }

  /** Pass 2 completes exactly when every display name belongs to a known, named feature. */
  lemma {:induction false} Pass2Completes(fs: seq<FeatureData>, es: seq<Entry>)
    ensures Pass2(fs, es).status != Exited
    ensures Pass2(fs, es).status == Completed <==> Nameable(fs, es)
    decreases |es|
  {
    if es != [] {
      if es[0].owner.Some? {
        var k := IndexOf(fs, es[0].owner.value);
        IndexOfFinds(fs, es[0].owner.value);
        if k != -1 {
          var fs' := fs[k := fs[k].(name := Some(es[0].text))];
          RenameNames(fs, k, es[0].text);
          Pass2Completes(fs', es[1..]);
          assert forall i :: 0 < i < |es| ==> es[i] == es[1..][i - 1];
        }
      }
    }
  }

  /** Pass 3 completes exactly when every `enables` entry names a known owner and a known target. */
  lemma {:induction false} Pass3Completes(fs: seq<FeatureData>, es: seq<Entry>)
    ensures Pass3(fs, es).status == Completed <==> Linkable(fs, es)
    decreases |es|
  {
    if es != [] && es[0].owner.Some? {
      var owner := es[0].owner.value;
      var k, r := IndexOf(fs, owner), IndexOf(fs, es[0].text);
      IndexOfFinds(fs, owner);
      IndexOfFinds(fs, es[0].text);
      if k != -1 && r != -1 {
        var fs' := Link(fs, owner, es[0].text, k, r);
        assert Pass3(fs, es) == Pass3(fs', es[1..]);
        LinkNames(fs, owner, es[0].text, k, r);
        Pass3Completes(fs', es[1..]);
        LinkableNames(fs', fs, es[1..]);
        LinkableFront(fs, es);
      } else {
        assert Pass3(fs, es).status == Exited;
        assert !Linkable(fs, es) by {
          assert !(owner in Names(fs) && es[0].text in Names(fs));
        }
      }
    } else if es != [] {
      assert !Linkable(fs, es) by {
        assert es[0].owner.None?;
      }
    }
  }

  /** Naming changes no key. */
  lemma RenameNames(fs: seq<FeatureData>, k: nat, x: string)
    requires k < |fs|
    ensures Names(fs[k := fs[k].(name := Some(x))]) == Names(fs)
  {
    var fs' := fs[k := fs[k].(name := Some(x))];
    assert forall i :: 0 <= i < |fs| ==> Names(fs')[i] == Names(fs)[i];
  }

  /** Linking changes no key. */
  lemma LinkNames(fs: seq<FeatureData>, owner: string, target: string, k: nat, r: nat)
    requires k < |fs| && r < |fs|
    ensures Names(Link(fs, owner, target, k, r)) == Names(fs)
  {
    var fs' := Link(fs, owner, target, k, r);
    assert forall i :: 0 <= i < |fs| ==> Names(fs')[i] == Names(fs)[i];
  }

  /** Every `enables` entry names a known owner and a known target. */
  predicate Linkable(fs: seq<FeatureData>, es: seq<Entry>) {
    forall i :: 0 <= i < |es| ==>
      es[i].owner.Some? && es[i].owner.value in Names(fs) && es[i].text in Names(fs)
  }

  lemma LinkableFront(fs: seq<FeatureData>, es: seq<Entry>)
    requires es != [] && es[0].owner.Some? && es[0].owner.value in Names(fs) && es[0].text in Names(fs)
    ensures Linkable(fs, es) <==> Linkable(fs, es[1..])
  {
    assert forall i :: 0 < i < |es| ==> es[i] == es[1..][i - 1];
  }

  /** Pass 3 exits only on an entry with an unknown end, and fails only on one without an owner. */
  lemma {:induction false} Pass3Stops(fs: seq<FeatureData>, es: seq<Entry>)
    ensures Pass3(fs, es).status == Exited ==>
            exists i :: 0 <= i < |es| && es[i].owner.Some?
                        && (es[i].owner.value !in Names(fs) || es[i].text !in Names(fs))
    ensures Pass3(fs, es).status == Failed ==> exists i :: 0 <= i < |es| && es[i].owner.None?
    decreases |es|
  {
    if es != [] && es[0].owner.Some? {
      var owner := es[0].owner.value;
      var k, r := IndexOf(fs, owner), IndexOf(fs, es[0].text);
      IndexOfFinds(fs, owner);
      IndexOfFinds(fs, es[0].text);
      if k != -1 && r != -1 {
        var fs' := Link(fs, owner, es[0].text, k, r);
        LinkNames(fs, owner, es[0].text, k, r);
        Pass3Stops(fs', es[1..]);
        if Pass3(fs', es[1..]).status == Exited {
          var i :| 0 <= i < |es[1..]| && es[1..][i].owner.Some?
                   && (es[1..][i].owner.value !in Names(fs') || es[1..][i].text !in Names(fs'));
          assert es[i + 1] == es[1..][i];
        }
        if Pass3(fs', es[1..]).status == Failed {
          var i :| 0 <= i < |es[1..]| && es[1..][i].owner.None?;
          assert es[i + 1] == es[1..][i];
        }
      } else {
        assert es[0].owner.Some? && (owner !in Names(fs) || es[0].text !in Names(fs));
      }
    } else if es != [] {
      assert es[0].owner.None?;
    }
  }

  /**
   * The whole load completes exactly when every `feature` that has a description,
   * display name or `enables` child carries a `name`, and every display name and
   * both ends of every `enables` name a feature that is either already in the list
   * or described in this catalog.
   */
  lemma LoadCompletes(fs: seq<FeatureData>, catalog: Document)
    ensures var ds, ns, es := Entries(catalog, DescriptionTag), Entries(catalog, DisplayNameTag),
                              Entries(catalog, EnablesTag);
            LoadSpec(fs, catalog).status == Completed <==>
            && Owned(ds)
            && Nameable(fs + NewFeatures(ds), ns)
            && Linkable(fs + NewFeatures(ds), es)
  {
    var ds, ns, es := Entries(catalog, DescriptionTag), Entries(catalog, DisplayNameTag),
                      Entries(catalog, EnablesTag);
    Pass1Completes(fs, ds);
    var p1 := Pass1(fs, ds);
    if p1.status == Completed {
      Pass2Completes(p1.features, ns);
      var p2 := Pass2(p1.features, ns);
      Pass2KeepsNames(p1.features, ns);
      Pass3Completes(p2.features, es);
      LinkableNames(p2.features, p1.features, es);
    }
  }

  /** Every display name belongs to a known, named feature. */
  predicate Nameable(fs: seq<FeatureData>, es: seq<Entry>) {
    forall i :: 0 <= i < |es| ==> es[i].owner.Some? && es[i].owner.value in Names(fs)
  }

  lemma LinkableNames(a: seq<FeatureData>, b: seq<FeatureData>, es: seq<Entry>)
    requires Names(a) == Names(b)
    ensures Linkable(a, es) <==> Linkable(b, es)
  {
  }

  lemma NamesAppend(a: seq<FeatureData>, b: seq<FeatureData>)
    ensures Names(a + b) == Names(a) + Names(b)
  {
  }

  // ---------------------------------------------------------------------------
  // What the features hold afterwards

  /** The text of the last entry whose owner looks up to position i, if any. */
  function LastNameFor(fs: seq<FeatureData>, es: seq<Entry>, i: int): Option<string>
    decreases |es|
  {
    if es == [] then None
    else
      var e := es[|es| - 1];
      if e.owner.Some? && IndexOf(fs, e.owner.value) == i then Some(e.text)
      else LastNameFor(fs, es[..|es| - 1], i)
  }

  lemma {:induction false} LastNameForFront(fs: seq<FeatureData>, es: seq<Entry>, i: int)
    requires es != []
    ensures LastNameFor(fs, es, i)
            == if LastNameFor(fs, es[1..], i).Some? then LastNameFor(fs, es[1..], i)
               else if es[0].owner.Some? && IndexOf(fs, es[0].owner.value) == i then Some(es[0].text)
               else None
    decreases |es|
  {
    if |es| > 1 {
      var e := es[|es| - 1];
      assert es[1..][..|es[1..]| - 1] == es[..|es| - 1][1..];
      assert es[1..][|es[1..]| - 1] == e;
      LastNameForFront(fs, es[..|es| - 1], i);
    } else {
      assert es[..0] == [] && es[1..] == [];
    }
  }

  /**
   * After a completed pass 2 each feature's display name is the text of the last
   * `displayName` entry naming it (by first match of the key), or what it was;
   * nothing else about any feature changes.
   */
  lemma {:induction false} Pass2LastNameWins(fs: seq<FeatureData>, es: seq<Entry>)
    requires Pass2(fs, es).status == Completed
    ensures var r := Pass2(fs, es).features;
            |r| == |fs| &&
            forall i :: 0 <= i < |fs| ==>
              r[i] == fs[i].(name := if LastNameFor(fs, es, i).Some? then LastNameFor(fs, es, i) else fs[i].name)
    decreases |es|
  {
    if es != [] {
      var k := IndexOf(fs, es[0].owner.value);
      var fs' := fs[k := fs[k].(name := Some(es[0].text))];
      RenameNames(fs, k, es[0].text);
      Pass2LastNameWins(fs', es[1..]);
      var r := Pass2(fs, es).features;
      forall i | 0 <= i < |fs|
        ensures r[i] == fs[i].(name := if LastNameFor(fs, es, i).Some? then LastNameFor(fs, es, i) else fs[i].name)
      {
        LastNameForNames(fs', fs, es[1..], i);
        LastNameForFront(fs, es, i);
      }
    }
  }

  lemma {:induction false} LastNameForNames(a: seq<FeatureData>, b: seq<FeatureData>, es: seq<Entry>, i: int)
    requires Names(a) == Names(b)
    ensures LastNameFor(a, es, i) == LastNameFor(b, es, i)
    decreases |es|
  {
    if es != [] {
      var e := es[|es| - 1];
      if e.owner.Some? {
        IndexOfNames(a, b, e.owner.value);
      }
      LastNameForNames(a, b, es[..|es| - 1], i);
    }
  }

  /** The targets of the `enables` entries whose owner looks up to position i, in order. */
  function EnablesFor(fs: seq<FeatureData>, es: seq<Entry>, i: int): seq<string>
    decreases |es|
  {
    if es == [] then []
    else (if es[0].owner.Some? && IndexOf(fs, es[0].owner.value) == i then [es[0].text] else [])
         + EnablesFor(fs, es[1..], i)
  }

  /** The owners of the `enables` entries whose target looks up to position i, in order. */
  function EnabledByFor(fs: seq<FeatureData>, es: seq<Entry>, i: int): seq<string>
    decreases |es|
  {
    if es == [] then []
    else (if es[0].owner.Some? && IndexOf(fs, es[0].text) == i then [es[0].owner.value] else [])
         + EnabledByFor(fs, es[1..], i)
  }

  lemma {:induction false} ForNames(a: seq<FeatureData>, b: seq<FeatureData>, es: seq<Entry>, i: int)
    requires Names(a) == Names(b)
    ensures EnablesFor(a, es, i) == EnablesFor(b, es, i)
    ensures EnabledByFor(a, es, i) == EnabledByFor(b, es, i)
    decreases |es|
  {
    if es != [] {
      if es[0].owner.Some? {
        IndexOfNames(a, b, es[0].owner.value);
      }
      IndexOfNames(a, b, es[0].text);
      ForNames(a, b, es[1..], i);
    }
  }

  /**
   * After a completed pass 3 each feature's `enables` list has gained, in order,
   * the target of every entry it owns, and its `enabledBy` list the owner of every
   * entry that targets it; keys, display names and descriptions stay.
   */
  lemma {:induction false} Pass3Records(fs: seq<FeatureData>, es: seq<Entry>)
    requires Pass3(fs, es).status == Completed
    ensures var r := Pass3(fs, es).features;
            |r| == |fs| &&
            forall i :: 0 <= i < |fs| ==>
              r[i] == fs[i].(enables := fs[i].enables + EnablesFor(fs, es, i),
                             enabledBy := fs[i].enabledBy + EnabledByFor(fs, es, i))
    decreases |es|
  {
    if es != [] {
      var owner := es[0].owner.value;
      var k, r := IndexOf(fs, owner), IndexOf(fs, es[0].text);
      var fs' := Link(fs, owner, es[0].text, k, r);
      LinkNames(fs, owner, es[0].text, k, r);
      Pass3Records(fs', es[1..]);
      var res := Pass3(fs, es).features;
      forall i | 0 <= i < |fs|
        ensures res[i] == fs[i].(enables := fs[i].enables + EnablesFor(fs, es, i),
                                 enabledBy := fs[i].enabledBy + EnabledByFor(fs, es, i))
      {
        ForNames(fs', fs, es[1..], i);
        LinkRecords(fs, owner, es[0].text, k, r, i, EnablesFor(fs, es[1..], i), EnabledByFor(fs, es[1..], i));
      }
    }
  }

  /** What one link and the later entries add at position i, against what all entries add. */
  lemma LinkRecords(fs: seq<FeatureData>, owner: string, target: string, k: nat, r: nat, i: nat,
                    later: seq<string>, laterBy: seq<string>)
    requires k < |fs| && r < |fs| && i < |fs|
    ensures var l := Link(fs, owner, target, k, r)[i];
            l.(enables := l.enables + later, enabledBy := l.enabledBy + laterBy)
            == fs[i].(enables := fs[i].enables + ((if k == i then [target] else []) + later),
                      enabledBy := fs[i].enabledBy + ((if r == i then [owner] else []) + laterBy))
  {
    var f := fs[i];
    var t: seq<string> := if k == i then [target] else [];
    var o: seq<string> := if r == i then [owner] else [];
    assert Link(fs, owner, target, k, r)[i] == f.(enables := f.enables + t, enabledBy := f.enabledBy + o);
    assert f.enables + t + later == f.enables + (t + later);
    assert f.enabledBy + o + laterBy == f.enabledBy + (o + laterBy);
  }

  // ---------------------------------------------------------------------------
  // The relationship stays mutual

  /** How often x occurs in ts. */
  function Occurrences(ts: seq<string>, x: string): nat
    decreases |ts|
  {
    if ts == [] then 0 else (if ts[0] == x then 1 else 0) + Occurrences(ts[1..], x)
  }

  lemma {:induction false} OccurrencesSnoc(ts: seq<string>, y: string, x: string)
    ensures Occurrences(ts + [y], x) == Occurrences(ts, x) + (if y == x then 1 else 0)
    decreases |ts|
  {
    if ts == [] {
      assert ([] + [y])[1..] == [];
    } else {
      assert (ts + [y])[1..] == ts[1..] + [y];
      OccurrencesSnoc(ts[1..], y, x);
    }
  }

  /** How often the list says "a enables b": b's occurrences in the `enables` of features keyed a. */
  function OutCount(fs: seq<FeatureData>, a: string, b: string): nat
    decreases |fs|
  {
    if fs == [] then 0
    else (if fs[0].featureName == a then Occurrences(fs[0].enables, b) else 0) + OutCount(fs[1..], a, b)
  }

  /** How often the list says "b is enabled by a": a's occurrences in the `enabledBy` of features keyed b. */
  function InCount(fs: seq<FeatureData>, a: string, b: string): nat
    decreases |fs|
  {
    if fs == [] then 0
    else (if fs[0].featureName == b then Occurrences(fs[0].enabledBy, a) else 0) + InCount(fs[1..], a, b)
  }

  function OutOf(f: FeatureData, a: string, b: string): nat {
    if f.featureName == a then Occurrences(f.enables, b) else 0
  }

  function InOf(f: FeatureData, a: string, b: string): nat {
    if f.featureName == b then Occurrences(f.enabledBy, a) else 0
  }

  /** Every "a enables b" in the list is matched by a "b is enabled by a", counting repeats. */
  ghost predicate Mutual(fs: seq<FeatureData>) {
    forall a, b :: OutCount(fs, a, b) == InCount(fs, a, b)
  }

  lemma {:induction false} CountsUpdate(fs: seq<FeatureData>, k: nat, g: FeatureData, a: string, b: string)
    requires k < |fs|
    ensures OutCount(fs[k := g], a, b) == OutCount(fs, a, b) - OutOf(fs[k], a, b) + OutOf(g, a, b)
    ensures InCount(fs[k := g], a, b) == InCount(fs, a, b) - InOf(fs[k], a, b) + InOf(g, a, b)
    decreases |fs|
  {
    if k > 0 {
      assert fs[k := g][1..] == fs[1..][k - 1 := g];
      CountsUpdate(fs[1..], k - 1, g, a, b);
    } else {
      assert fs[k := g][1..] == fs[1..];
    }
  }

  lemma {:induction false} CountsAppend(fs: seq<FeatureData>, g: FeatureData, a: string, b: string)
    ensures OutCount(fs + [g], a, b) == OutCount(fs, a, b) + OutOf(g, a, b)
    ensures InCount(fs + [g], a, b) == InCount(fs, a, b) + InOf(g, a, b)
    decreases |fs|
  {
    if fs == [] {
      assert ([] + [g])[1..] == [];
    } else {
      assert (fs + [g])[1..] == fs[1..] + [g];
      CountsAppend(fs[1..], g, a, b);
    }
  }

  /** One `enables` entry adds one "owner enables target" and one "target is enabled by owner". */
  lemma LinkAddsEdge(fs: seq<FeatureData>, owner: string, target: string, k: nat, r: nat, a: string, b: string)
    requires k < |fs| && r < |fs| && fs[k].featureName == owner && fs[r].featureName == target
    ensures var one := if a == owner && b == target then 1 else 0;
            && OutCount(Link(fs, owner, target, k, r), a, b) == OutCount(fs, a, b) + one
            && InCount(Link(fs, owner, target, k, r), a, b) == InCount(fs, a, b) + one
  {
    var g := fs[k].(enables := fs[k].enables + [target]);
    var fs1 := fs[k := g];
    CountsUpdate(fs, k, g, a, b);
    OccurrencesSnoc(fs[k].enables, target, b);
    var h := fs1[r].(enabledBy := fs1[r].enabledBy + [owner]);
    CountsUpdate(fs1, r, h, a, b);
    OccurrencesSnoc(fs1[r].enabledBy, owner, a);
  }

  lemma {:induction false} Pass1KeepsMutual(fs: seq<FeatureData>, es: seq<Entry>)
    requires Mutual(fs)
    ensures Mutual(Pass1(fs, es).features)
    decreases |es|
  {
    if es != [] && es[0].owner.Some? {
      var g := NewFeature(es[0]);
      var fs' := fs + [g];
      forall a, b ensures OutCount(fs', a, b) == InCount(fs', a, b) {
        CountsAppend(fs, g, a, b);
      }
      Pass1KeepsMutual(fs', es[1..]);
    }
  }

  lemma {:induction false} Pass2KeepsMutual(fs: seq<FeatureData>, es: seq<Entry>)
    requires Mutual(fs)
    ensures Mutual(Pass2(fs, es).features)
    decreases |es|
  {
    if es != [] && es[0].owner.Some? {
      var k := IndexOf(fs, es[0].owner.value);
      if k != -1 {
        var g := fs[k].(name := Some(es[0].text));
        var fs' := fs[k := g];
        forall a, b ensures OutCount(fs', a, b) == InCount(fs', a, b) {
          CountsUpdate(fs, k, g, a, b);
        }
        Pass2KeepsMutual(fs', es[1..]);
      }
    }
  }

  lemma {:induction false} Pass3KeepsMutual(fs: seq<FeatureData>, es: seq<Entry>)
    requires Mutual(fs)
    ensures Mutual(Pass3(fs, es).features)
    decreases |es|
  {
    if es != [] && es[0].owner.Some? {
      var owner := es[0].owner.value;
      var k, r := IndexOf(fs, owner), IndexOf(fs, es[0].text);
      if k != -1 && r != -1 {
        var fs' := Link(fs, owner, es[0].text, k, r);
        forall a, b ensures OutCount(fs', a, b) == InCount(fs', a, b) {
          LinkAddsEdge(fs, owner, es[0].text, k, r, a, b);
        }
        Pass3KeepsMutual(fs', es[1..]);
      }
    }
  }

  /** However a load ends, a list in which every edge was mutual stays so. */
  lemma LoadKeepsMutual(fs: seq<FeatureData>, catalog: Document)
    requires Mutual(fs)
    ensures Mutual(LoadSpec(fs, catalog).features)
  {
    Pass1KeepsMutual(fs, Entries(catalog, DescriptionTag));
    var p1 := Pass1(fs, Entries(catalog, DescriptionTag));
    Pass2KeepsMutual(p1.features, Entries(catalog, DisplayNameTag));
    var p2 := Pass2(p1.features, Entries(catalog, DisplayNameTag));
    Pass3KeepsMutual(p2.features, Entries(catalog, EnablesTag));
  }

  /** The first load, from the empty static list, ends with every edge mutual. */
  lemma FirstLoadIsMutual(catalog: Document)
    ensures Mutual(LoadSpec([], catalog).features)
  {
    forall a, b ensures OutCount([], a, b) == InCount([], a, b) {
    }
    LoadKeepsMutual([], catalog);
  }

  // ---------------------------------------------------------------------------
  // The list of Feature objects

  /** What `loadAllFeatures` gives its caller. */
  datatype LoadResult =
    | Returned(list: seq<Feature>)   // the shared list itself
    | ReturnedNull
    | ProcessExited

  function StatusOf(r: LoadResult): Status {
    match r
    case Returned(_) => Completed
    case ReturnedNull => Failed
    case ProcessExited => Exited
  }

  /** The list of features that every load appends to. */
  class Catalog {
    var featuresList: seq<Feature>

    /** Every feature object occurs in the list once. */
    ghost predicate Valid()
      reads this
    {
      forall i, j :: 0 <= i < j < |featuresList| ==> featuresList[i] != featuresList[j]
    }

    ghost function Contents(): seq<FeatureData>
      reads this, featuresList
    {
      Snapshot(featuresList)
    }

    constructor ()
      ensures Valid() && featuresList == []
    {
      featuresList := [];
    }

    /** Pass 1 on the objects: a fresh `Feature` is appended per description. */
    method LoadDescriptions(es: seq<Entry>) returns (st: Status)
      requires Valid()
      modifies this
      ensures Valid()
      ensures Progress(Contents(), st) == Pass1(old(Contents()), es)
      ensures st != Exited
      ensures |old(featuresList)| <= |featuresList| && featuresList[..|old(featuresList)|] == old(featuresList)
      ensures forall i :: |old(featuresList)| <= i < |featuresList| ==> fresh(featuresList[i])
    {
      var i := 0;
      while i < |es|
        invariant 0 <= i <= |es|
        invariant Valid()
        invariant Pass1(Contents(), es[i..]) == Pass1(old(Contents()), es)
        invariant |old(featuresList)| <= |featuresList| && featuresList[..|old(featuresList)|] == old(featuresList)
        invariant forall j :: |old(featuresList)| <= j < |featuresList| ==> fresh(featuresList[j])
      {
        var e := es[i];
        if e.owner.None? {
          return Failed;
        }
        Pass1Step(Contents(), es, i);
        AppendDescribed(e);
        i := i + 1;
      }
      return Completed;
    }

    /** `featuresList.add(new Feature(name, description))`. */
    method AppendDescribed(e: Entry)
      requires Valid() && e.owner.Some?
      modifies this
      ensures Valid()
      ensures Contents() == old(Contents()) + [NewFeature(e)]
      ensures |featuresList| == |old(featuresList)| + 1 && featuresList[..|old(featuresList)|] == old(featuresList)
      ensures fresh(featuresList[|old(featuresList)|])
    {
      ghost var before := Contents();
      var tempFeature := new Feature(e.owner.value, e.text);
      assert Snapshot(featuresList) == before;
      featuresList := featuresList + [tempFeature];
      assert Contents() == before + [NewFeature(e)];
    }

    /** `featuresList.get(k).setName(x)`. */
    method SetNameAt(k: nat, x: string)
      requires Valid() && k < |featuresList|
      modifies featuresList[k]
      ensures Contents() == old(Contents())[k := old(Contents())[k].(name := Some(x))]
    {
      featuresList[k].SetName(x);
      assert forall i :: 0 <= i < |featuresList| && i != k ==> featuresList[i] != featuresList[k];
    }

    /** Pass 2 on the objects. */
    method LoadDisplayNames(es: seq<Entry>) returns (st: Status)
      requires Valid()
      modifies featuresList
      ensures Progress(Contents(), st) == Pass2(old(Contents()), es)
      ensures st != Exited
    {
      var i := 0;
      while i < |es|
        invariant 0 <= i <= |es|
        invariant Pass2(Contents(), es[i..]) == Pass2(old(Contents()), es)
      {
        var e := es[i];
        if e.owner.None? {
          return Failed;
        }
        ghost var before := Contents();
        var k := IndexOfKey(featuresList, e.owner.value);
        assert Contents() == before;
        Pass2Step(before, es, i);
        if k == -1 {
          return Failed;
        }
        SetNameAt(k, e.text);
        i := i + 1;
      }
      return Completed;
    }

    /** `featuresList.get(k).addEnables(t)` followed by `featuresList.get(r).addEnabledBy(o)`. */
    method LinkAt(k: nat, r: nat, owner: string, target: string)
      requires Valid() && k < |featuresList| && r < |featuresList|
      modifies featuresList[k], featuresList[r]
      ensures Contents() == Link(old(Contents()), owner, target, k, r)
    {
      AddEnablesAt(k, target);
      AddEnabledByAt(r, owner);
    }

    /** `featuresList.get(k).addEnables(t)`. */
    method AddEnablesAt(k: nat, t: string)
      requires Valid() && k < |featuresList|
      modifies featuresList[k]
      ensures Contents() == old(Contents())[k := old(Contents())[k].(enables := old(Contents())[k].enables + [t])]
    {
      featuresList[k].AddEnables(t);
      assert forall i :: 0 <= i < |featuresList| && i != k ==> featuresList[i] != featuresList[k];
    }

    /** `featuresList.get(r).addEnabledBy(o)`. */
    method AddEnabledByAt(r: nat, o: string)
      requires Valid() && r < |featuresList|
      modifies featuresList[r]
      ensures Contents() == old(Contents())[r := old(Contents())[r].(enabledBy := old(Contents())[r].enabledBy + [o])]
    {
      featuresList[r].AddEnabledBy(o);
      assert forall i :: 0 <= i < |featuresList| && i != r ==> featuresList[i] != featuresList[r];
    }

    /** Pass 3 on the objects. */
    method LoadEnables(es: seq<Entry>) returns (st: Status)
      requires Valid()
      modifies featuresList
      ensures Progress(Contents(), st) == Pass3(old(Contents()), es)
    {
      var i := 0;
      while i < |es|
        invariant 0 <= i <= |es|
        invariant Pass3(Contents(), es[i..]) == Pass3(old(Contents()), es)
      {
        var e := es[i];
        if e.owner.None? {
          return Failed;
        }
        ghost var before := Contents();
        var index := IndexOfKey(featuresList, e.owner.value);
        var reverseIndex := IndexOfKey(featuresList, e.text);
        assert Contents() == before;
        Pass3Step(before, es, i);
        if index == -1 || reverseIndex == -1 {
          return Exited;
        }
        LinkAt(index, reverseIndex, e.owner.value, e.text);
        i := i + 1;
      }
      return Completed;
    }

    /**
     * `loadAllFeatures`: the three passes in turn on the shared list; the list
     * object itself is returned when they all complete.  The objects the list
     * held before stay at the front of it.
     */
    method LoadAllFeatures(catalog: Document) returns (r: LoadResult)
      requires Valid()
      modifies this, featuresList
      ensures Valid()
      ensures Progress(Contents(), StatusOf(r)) == LoadSpec(old(Contents()), catalog)
      ensures r.Returned? ==> r.list == featuresList
      ensures |old(featuresList)| <= |featuresList| && featuresList[..|old(featuresList)|] == old(featuresList)
    {
      var st := LoadDescriptions(Entries(catalog, DescriptionTag));
      if st != Completed {
        return ReturnedNull;
      }
      st := LoadDisplayNames(Entries(catalog, DisplayNameTag));
      if st != Completed {
        return ReturnedNull;
      }
      st := LoadEnables(Entries(catalog, EnablesTag));
      if st == Exited {
        return ProcessExited;
      } else if st == Failed {
        return ReturnedNull;
      }
      return Returned(featuresList);
    }
  }
}
