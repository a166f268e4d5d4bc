/**
 * The feature descriptor of the editor: a mutable record keyed by its symbolic
 * name, with two append-only lists of related feature names and two renderers
 * that join a list with ", " or give a fixed sentence when it is empty.
 */
module Features {
  import opened Wrappers

  /** What `enablesToString` shows for an empty `enables` list. */
  const NoEnablesText := "Does not enable any other features."
  /** What `enabledByToString` shows for an empty `enabledBy` list. */
  const NotEnabledByText := "Not enabled by any other features."

  /** The state of one `Feature` object, as a value. */
  datatype FeatureData = FeatureData(
    featureName: string,
    name: Option<string>,     // the display name; null until `setName`
    description: string,
    enables: seq<string>,
    enabledBy: seq<string>)

  // ---------------------------------------------------------------------------
  // Rendering a list

  /** The items in order, separated by ", ". */
  function Join(xs: seq<string>): string
    decreases |xs|
  {
    if xs == [] then ""
    else if |xs| == 1 then xs[0]
    else xs[0] + ", " + Join(xs[1..])
  }

  /** A list as the renderers show it: the sentinel when empty, else the joined items. */
  function Describe(xs: seq<string>, sentinel: string): string {
    if xs == [] then sentinel else Join(xs)
  }

  /** Appending one more item adds ", " and the item at the end. */
  lemma {:induction false} JoinSnoc(xs: seq<string>, x: string)
    requires xs != []
    ensures Join(xs + [x]) == Join(xs) + ", " + x
    decreases |xs|
  {
    if |xs| > 1 {
      assert (xs + [x])[1..] == xs[1..] + [x];
      JoinSnoc(xs[1..], x);
    } else {
      assert xs + [x] == [xs[0], x];
      assert [xs[0], x][1..] == [x];
    }
  }

  /**
   * The renderer shared by `enablesToString` and `enabledByToString`: the first
   * item unprefixed, each later one prefixed with ", ", in list order.
   */
  method Render(xs: seq<string>, sentinel: string) returns (s: string)
    ensures s == Describe(xs, sentinel)
  {
    if |xs| == 0 {
      return sentinel;
    }
    s := xs[0];
    assert xs[..1] == [xs[0]];
    var i := 1;
    while i < |xs|
      invariant 1 <= i <= |xs|
      invariant s == Join(xs[..i])
    {
      assert xs[..i + 1] == xs[..i] + [xs[i]];
      JoinSnoc(xs[..i], xs[i]);
      s := s + ", " + xs[i];
      i := i + 1;
    }
    assert xs[..i] == xs;
  }

  predicate ContainsSeparator(s: string) {
    exists k :: 0 <= k < |s| - 1 && s[k] == ',' && s[k + 1] == ' '
  }

  lemma {:induction false} JoinOfSeveralHasSeparator(xs: seq<string>)
    requires |xs| >= 2
    ensures ContainsSeparator(Join(xs))
  {
    var s := Join(xs);
    assert s == xs[0] + ", " + Join(xs[1..]);
    assert s[|xs[0]|] == ',' && s[|xs[0]| + 1] == ' ';
  }

  /**
   * The rendering of a list is the sentinel exactly when the list is empty or holds
   * the sentinel itself as its only item: a sentinel without ", " cannot come out
   * of joining two or more items.
   */
  lemma DescribeIsSentinel(xs: seq<string>, sentinel: string)
    requires !ContainsSeparator(sentinel)
    ensures Describe(xs, sentinel) == sentinel <==> xs == [] || xs == [sentinel]
  {
    if |xs| >= 2 {
      JoinOfSeveralHasSeparator(xs);
    }
  }

  lemma SentinelsHaveNoSeparator()
    ensures !ContainsSeparator(NoEnablesText) && !ContainsSeparator(NotEnabledByText)
  {
    assert forall k :: 0 <= k < |NoEnablesText| ==> NoEnablesText[k] != ',';
    assert forall k :: 0 <= k < |NotEnabledByText| ==> NotEnabledByText[k] != ',';
  }

  // ---------------------------------------------------------------------------
  // Hashing: `java.util.Objects.hashCode(featureName)`, i.e. `String.hashCode`

  /** `s[0]*31^(n-1) + ... + s[n-1]` modulo 2^32, as Java's 32-bit int arithmetic computes it. */
  function HashBits(s: string): (h: nat)
    ensures h < 0x1_0000_0000
    decreases |s|
  {
    if s == [] then 0
    else (31 * HashBits(s[..|s| - 1]) + s[|s| - 1] as int) % 0x1_0000_0000
  }

  /** The same bits read as a signed 32-bit `int`. */
  function StringHash(s: string): (h: int)
    ensures -0x8000_0000 <= h < 0x8000_0000
    ensures h % 0x1_0000_0000 == HashBits(s)
  {
    var u := HashBits(s);
    if u >= 0x8000_0000 then u - 0x1_0000_0000 else u
  }

  // ---------------------------------------------------------------------------
  // Lookup by key: `ArrayList.indexOf(new Feature(key, ""))`

  /** The first position whose feature has the key, or -1. */
  function IndexOf(fs: seq<FeatureData>, key: string): (k: int)
    ensures -1 <= k < |fs|
    ensures k == -1 <==> forall i :: 0 <= i < |fs| ==> fs[i].featureName != key
    ensures k >= 0 ==> fs[k].featureName == key && forall i :: 0 <= i < k ==> fs[i].featureName != key
    decreases |fs|
  {
    if fs == [] then -1
    else if fs[0].featureName == key then 0
    else
      var r := IndexOf(fs[1..], key);
      assert forall i :: 0 < i < |fs| ==> fs[i] == fs[1..][i - 1];
      if r == -1 then -1 else r + 1
  }

  // ---------------------------------------------------------------------------
  // The mutable descriptor

  class Feature {
    var featureName: string
    var name: Option<string>
    var description: string
    var enables: seq<string>
    var enabledBy: seq<string>

    /** The object's state as a value; the getters read these fields. */
    function Data(): FeatureData
      reads this
    {
      FeatureData(featureName, name, description, enables, enabledBy)
    }

    /** `new Feature(featureName, description)`: no display name, no relationships yet. */
    constructor (featureName: string, description: string)
      ensures Data() == FeatureData(featureName, None, description, [], [])
    {
      this.featureName := featureName;
      this.name := None;
      this.description := description;
      this.enables := [];
      this.enabledBy := [];
    }

    /** `equals`: another feature with the same key; nothing else is compared. */
    predicate Equals(o: Feature?)
      reads this, o
    {
      o != null && featureName == o.featureName
    }

    /** `hashCode`: the hash of the key alone. */
    function HashCode(): int
      reads this
    {
      StringHash(featureName)
    }

    method AddEnables(x: string)
      modifies this
      ensures Data() == old(Data()).(enables := old(enables) + [x])
    {
      enables := enables + [x];
    }

    method AddEnabledBy(x: string)
      modifies this
      ensures Data() == old(Data()).(enabledBy := old(enabledBy) + [x])
    {
      enabledBy := enabledBy + [x];
    }

    method SetName(x: string)
      modifies this
      ensures Data() == old(Data()).(name := Some(x))
    {
      name := Some(x);
    }

    method EnablesToString() returns (s: string)
      ensures s == Describe(enables, NoEnablesText)
    {
      s := Render(enables, NoEnablesText);
    }

    method EnabledByToString() returns (s: string)
      ensures s == Describe(enabledBy, NotEnabledByText)
    {
      s := Render(enabledBy, NotEnabledByText);
    }
  }

  /** Two features are equal exactly when their keys are; the other fields play no part. */
  lemma EqualsIsKeyEquality(a: Feature, b: Feature)
    ensures a.Equals(b) <==> a.Data().featureName == b.Data().featureName
    ensures a.Equals(b) <==> b.Equals(a)
    ensures a.Equals(a)
  {
  }

  lemma EqualsIsTransitive(a: Feature, b: Feature, c: Feature)
    requires a.Equals(b) && b.Equals(c)
    ensures a.Equals(c)
  {
  }

  /** Equal features have equal hash codes. */
  lemma HashCodeAgreesWithEquals(a: Feature, b: Feature)
    requires a.Equals(b)
    ensures a.HashCode() == b.HashCode()
  {
  }

  /** The states of a list of features, in list order. */
  ghost function Snapshot(fs: seq<Feature>): (r: seq<FeatureData>)
    reads fs
    ensures |r| == |fs| && forall i :: 0 <= i < |fs| ==> r[i] == fs[i].Data()
  {
    seq(|fs|, i requires 0 <= i < |fs| reads fs => fs[i].Data())
  }

  /** `indexOf(new Feature(key, ""))` on a list of features: `equals` against a probe. */
  method IndexOfKey(fs: seq<Feature>, key: string) returns (k: int)
    ensures k == IndexOf(Snapshot(fs), key)
  {
    var probe := new Feature(key, "");
    k := 0;
    while k < |fs|
      invariant 0 <= k <= |fs|
      invariant forall i :: 0 <= i < k ==> fs[i].featureName != key
    {
      if probe.Equals(fs[k]) {
        return;
      }
      k := k + 1;
    }
    k := -1;
  }
}
