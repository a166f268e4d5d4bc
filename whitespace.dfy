/**
 * The two notions of "whitespace-only text" used by the document editor.
 *
 * Adding a feature removes every text node selected by the XPath 1.0 query
 * `//text()[normalize-space(.) = '']` (section 4.2 of XPath 1.0), whose notion of
 * whitespace is the `S` production of section 2.3 of XML 1.0: space, tab, carriage
 * return, line feed.  Removing a feature drops the preceding sibling when Java's
 * `String.trim()` leaves nothing of it, and `trim()` treats every character up to
 * U+0020 as whitespace.
 */
module Whitespace {

  /** The XML 1.0 `S` characters. */
  predicate IsXmlSpace(c: char) {
    c == ' ' || c == '\t' || c == '\r' || c == '\n'
  }

  /** Every character is an XML space. */
  predicate XmlBlank(s: string) {
    forall i :: 0 <= i < |s| ==> IsXmlSpace(s[i])
  }

  /** Every character is at most U+0020, the characters `trim()` removes. */
  predicate TrimBlank(s: string) {
    forall i :: 0 <= i < |s| ==> s[i] <= ' '
  }

  /**
   * XPath `normalize-space`: drop leading and trailing spaces and collapse every
   * inner run of spaces to one ' '.  `started` says a non-space has been emitted,
   * `gap` says spaces were seen since then.
   */
  function NormalizeSpaceFrom(s: string, started: bool, gap: bool): string
    decreases |s|
  {
    if s == [] then ""
    else if IsXmlSpace(s[0]) then NormalizeSpaceFrom(s[1..], started, started)
    else (if gap then " " else "") + [s[0]] + NormalizeSpaceFrom(s[1..], true, false)
  }

  function NormalizeSpace(s: string): string {
    NormalizeSpaceFrom(s, false, false)
  }

  /** `normalize-space(s) = ''` holds exactly for the XML-blank strings. */
  lemma {:induction false} NormalizeSpaceFromEmpty(s: string, started: bool, gap: bool)
    ensures NormalizeSpaceFrom(s, started, gap) == "" <==> XmlBlank(s)
    decreases |s|
  {
    if s != [] {
      NormalizeSpaceFromEmpty(s[1..], if IsXmlSpace(s[0]) then started else true,
                                      if IsXmlSpace(s[0]) then started else false);
      if IsXmlSpace(s[0]) {
        assert XmlBlank(s) <==> XmlBlank(s[1..]) by {
          assert forall i :: 0 < i < |s| ==> s[i] == s[1..][i - 1];
        }
      } else {
        assert !XmlBlank(s);
        assert NormalizeSpaceFrom(s, started, gap)[if gap then 1 else 0] == s[0];
      }
    }
  }

  lemma NormalizeSpaceEmpty(s: string)
    ensures NormalizeSpace(s) == "" <==> XmlBlank(s)
  {
    NormalizeSpaceFromEmpty(s, false, false);
  }

  /** Java `String.trim()`: strip the characters up to U+0020 at both ends. */
  function TrimStart(s: string): string
    decreases |s|
  {
    if s != [] && s[0] <= ' ' then TrimStart(s[1..]) else s
  }

  function TrimEnd(s: string): string
    decreases |s|
  {
    if s != [] && s[|s| - 1] <= ' ' then TrimEnd(s[..|s| - 1]) else s
  }

  function JavaTrim(s: string): string {
    TrimEnd(TrimStart(s))
  }

  lemma {:induction false} TrimStartEmpty(s: string)
    ensures TrimStart(s) == "" <==> TrimBlank(s)
    ensures TrimStart(s) != "" ==> TrimStart(s)[0] > ' '
    decreases |s|
  {
    if s != [] && s[0] <= ' ' {
      TrimStartEmpty(s[1..]);
      assert forall i :: 0 < i < |s| ==> s[i] == s[1..][i - 1];
    }
  }

  lemma {:induction false} TrimEndKeepsHead(s: string)
    requires s != [] && s[0] > ' '
    ensures TrimEnd(s) != "" && TrimEnd(s)[0] == s[0]
    decreases |s|
  {
    if s[|s| - 1] <= ' ' {
      TrimEndKeepsHead(s[..|s| - 1]);
    }
  }

  /** `trim().length() == 0` holds exactly for the strings of characters up to U+0020. */
  lemma JavaTrimEmpty(s: string)
    ensures |JavaTrim(s)| == 0 <==> TrimBlank(s)
  {
    TrimStartEmpty(s);
    if TrimStart(s) != "" {
      TrimEndKeepsHead(TrimStart(s));
    }
  }

  /**
   * The characters below U+0020 that XML 1.0 admits (the `Char` production of its
   * section 2.2) are exactly tab, line feed and carriage return.
   */
  predicate XmlChar(c: char) {
    c == '\t' || c == '\n' || c == '\r' || c >= ' '
  }

  predicate XmlChars(s: string) {
    forall i :: 0 <= i < |s| ==> XmlChar(s[i])
  }

  /**
   * On text an XML parser can deliver, the two whitespace tests agree: the
   * difference between them lies only in characters XML 1.0 forbids.
   */
  lemma BlankTestsAgree(s: string)
    requires XmlChars(s)
    ensures TrimBlank(s) <==> XmlBlank(s)
  {
    if TrimBlank(s) {
      forall i | 0 <= i < |s| ensures IsXmlSpace(s[i]) {
        assert XmlChar(s[i]) && s[i] <= ' ';
      }
    }
  }

  /** Without that restriction they differ: a vertical tab is `trim()`-blank only. */
  lemma VerticalTabSeparatesTests()
    ensures TrimBlank("\U{B}") && !XmlBlank("\U{B}")
  {
    assert !IsXmlSpace("\U{B}"[0]);
  }
}
