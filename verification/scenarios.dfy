/** Worked inputs for the element and entity scanners: a nested element of
    the same name stays inside the outer one; a lone `/>` tag is an element
    of its own; a nested tag whose name only starts with the outer name
    still counts as nested, so the outer element is not matched; and an
    entity written inside an element is not listed as a top-level entity. */
module Scenarios {
  import opened Wrappers
  import opened Text
  import opened Spans
  import opened ElementMatcher
  import opened EntityMatcher

  /** An element holding another element of the same name. */
  const Nested: String := "<stl:x><stl:x></stl:x></stl:x>"

  /** A self-closing element with no closing tag after it. */
  const Lone: String := "<stl:x/>"

  /** An element holding a self-closing tag whose name extends its own. */
  const PrefixNested: String := "<stl:a><stl:ab/></stl:a>"

  const Title: String := "{content.title}"

  /** An element holding an entity, followed by the same entity. */
  const Wrapped: String := "<stl:x>" + Title + "</stl:x>" + Title

  /** The characters of `<stl:x><stl:x></stl:x></stl:x>`. */
  predicate NestedShape(s: String) {
    && |s| == 30
    && OpenLeadAt(s, 0) && s[5] == 'x' && s[6] == '>'
    && OpenLeadAt(s, 7) && s[12] == 'x' && s[13] == '>'
    && CloseLeadAt(s, 14) && s[20] == 'x' && s[21] == '>'
    && CloseLeadAt(s, 22) && s[28] == 'x' && s[29] == '>'
  }

  lemma NestedBody(s: String)
    requires NestedShape(s)
    ensures FindClose(s, "x", 7, 0) == Some(30)
  {
    CloseTagOfLetter(s, 22, 'x');
    CloseTagOfLetter(s, 14, 'x');
    OpenTagOfLetter(s, 7, 'x');
    FindCloseAtClosing(s, "x", 22, 30, 0);
    FindCloseAtClosing(s, "x", 14, 22, 1);
    FindCloseAtOpening(s, "x", 7, 14, 0);
  }

  /** The inner `</stl:x>` closes the inner opening tag, so the element
      runs to the outer closing tag. */
  lemma NestedElement(s: String)
    requires NestedShape(s)
    ensures ElementAt(s, 0) == Some(30)
  {
    OpenTagOfLetter(s, 0, 'x');
    NestedBody(s);
    ElementOfLetter(s, 0, 'x', 7, false);
  }

  /** Two nested same-name elements are listed as one element: the whole
      text. */
  lemma NestedList(s: String)
    requires NestedShape(s)
    ensures GetStlElementList(s) == [s]
  {
    NestedElement(s);
    assert LeftmostMatches(s, ElementsOf(s), 30) == [];
    assert MatchElements(s) == [Span(0, 30)];
    assert s[0..30] == s;
  }

  lemma NestedSameName()
    ensures GetStlElementList(Nested) == [Nested]
  {
    assert NestedShape(Nested);
    NestedList(Nested);
  }

  /** A `/>` opening tag without a matching closing tag is an element. */
  lemma LoneSelfClosing()
    ensures GetStlElementList(Lone) == [Lone]
  {
    var s := Lone;
    assert forall k :: 0 <= k < 5 ==> s[k] == OpenPrefix[k];
    assert Lower(s)[..5] == Lower(OpenPrefix);
    assert s[0..] == s;
    assert WordEnd(s, 6) == 6;
    assert FindChar(s, '>', 6) == Some(7);
    assert Lower(s[5..6]) == "x";
    assert OpenTagAt(s, 0) == Some(Tag("x", 8, true));
    assert ElementAt(s, 0) == Some(8);
    assert LeftmostMatches(s, ElementsOf(s), 8) == [];
    assert MatchElements(s) == [Span(0, 8)];
    assert s[0..8] == s;
  }

  /** The characters of `<stl:a><stl:ab/></stl:a>`. */
  predicate PrefixShape(s: String) {
    && |s| == 24
    && OpenLeadAt(s, 0) && s[5] == 'a' && s[6] == '>'
    && OpenLeadAt(s, 7) && s[12] == 'a' && s[13] == 'b' && s[14] == '/' && s[15] == '>'
    && CloseLeadAt(s, 16) && s[22] == 'a' && s[23] == '>'
  }

  /** At 0 the captured name is `a`; `<stl:ab/>` opens a nested level that
      `</stl:a>` closes, and the text ends before the outer element is
      closed. `<stl:a>` does not end in `/>`, so there is no element. */
  lemma PrefixOuterFails(s: String)
    requires PrefixShape(s)
    ensures ElementAt(s, 0) == None
  {
    OpenTagOfLetter(s, 0, 'a');
    NestedOpenOfLetter(s, 7, 'a', 15);
    CloseTagOfLetter(s, 16, 'a');
    FindCloseAtOpening(s, "a", 7, 16, 0);
    FindCloseAtClosing(s, "a", 16, 24, 1);
    assert FindClose(s, "a", 24, 0) == None;
    ElementOfLetter(s, 0, 'a', 7, false);
  }

  lemma PrefixInnerTag(s: String)
    requires PrefixShape(s)
    ensures OpenTagAt(s, 7) == Some(Tag("ab", 16, true))
  {
    assert forall k :: 0 <= k < 5 ==> s[7 + k] == OpenPrefix[k];
    assert Lower(s[7..])[..5] == Lower(OpenPrefix);
    assert WordEnd(s, 12) == 14;
    assert FindChar(s, '>', 14) == Some(15);
    assert Lower(s[12..14]) == "ab";
  }

  /** At 7 the captured name is `a`, the shortest prefix of `ab`, and the
      closing tag `</stl:a>` ends the element. */
  lemma PrefixInnerElement(s: String)
    requires PrefixShape(s)
    ensures ElementAt(s, 7) == Some(24)
  {
    PrefixInnerTag(s);
    CloseTagOfLetter(s, 16, 'a');
    FindCloseAtClosing(s, "a", 16, 24, 0);
    assert "ab"[..1] == "a";
    ElementRule(s, 7);
  }

  /** Nothing starts before the inner tag. */
  lemma PrefixSkip(s: String)
    requires PrefixShape(s)
    ensures LeftmostMatches(s, ElementsOf(s), 0) == LeftmostMatches(s, ElementsOf(s), 7)
  {
    PrefixSkipFirst(s);
    PrefixSkipRest(s);
  }

  lemma PrefixSkipFirst(s: String)
    requires PrefixShape(s)
    ensures LeftmostMatches(s, ElementsOf(s), 0) == LeftmostMatches(s, ElementsOf(s), 1)
  {
    PrefixOuterFails(s);
  }

  lemma PrefixSkipRest(s: String)
    requires PrefixShape(s)
    ensures LeftmostMatches(s, ElementsOf(s), 1) == LeftmostMatches(s, ElementsOf(s), 7)
  {
    MatchesSkipText(s, 1, 7);
  }

  lemma PrefixMatches(s: String)
    requires PrefixShape(s)
    ensures MatchElements(s) == [Span(7, 24)]
  {
    var m := ElementsOf(s);
    PrefixSkip(s);
    PrefixInnerElement(s);
    assert LeftmostMatches(s, m, 24) == [];
    assert LeftmostMatches(s, m, 7) == [Span(7, 24)];
  }

  /** `<stl:ab/>` opens a nested level of `<stl:a>`, because the pattern
      compares the captured name as a prefix, so the outer element never
      closes; what is listed is the self-closing tag with the closing tag
      after it. */
  lemma PrefixList(s: String)
    requires PrefixShape(s)
    ensures GetStlElementList(s) == [s[7..]]
  {
    PrefixMatches(s);
    assert s[7..24] == s[7..];
  }

  lemma PrefixNameNests()
    ensures GetStlElementList(PrefixNested) == [PrefixNested[7..]]
  {
    PrefixNestedShape();
    PrefixList(PrefixNested);
  }

  lemma PrefixNestedShape()
    ensures PrefixShape(PrefixNested)
    ensures PrefixNested[7..] == "<stl:ab/></stl:a>"
  {
  }

  lemma WrappedChars()
    ensures |Wrapped| == 45
    ensures forall k :: 7 <= k < 22 ==> Wrapped[k] != '<'
    ensures forall k :: 30 <= k < 45 ==> Wrapped[k] != '<'
    ensures Wrapped[..7] == "<stl:x>" && Wrapped[22..30] == "</stl:x>" && Wrapped[30..] == Title
  {
  }

  lemma WrappedElement()
    ensures ElementAt(Wrapped, 0) == Some(30)
  {
    var s := Wrapped;
    WrappedChars();
    assert s[0] == '<' && s[1] == 's' && s[2] == 't' && s[3] == 'l' && s[4] == ':' && s[5] == 'x' && s[6] == '>';
    OpenTagOfLetter(s, 0, 'x');
    FindCloseSkips(s, "x", 7, 22, 0);
    assert s[22] == '<' && s[23] == '/' && s[24] == 's' && s[25] == 't' && s[26] == 'l' && s[27] == ':' && s[28] == 'x' && s[29] == '>';
    CloseTagOfLetter(s, 22, 'x');
    FindCloseAtClosing(s, "x", 22, 30, 0);
    ElementOfLetter(s, 0, 'x', 7, false);
  }

  lemma WrappedMatches()
    ensures MatchElements(Wrapped) == [Span(0, 30)]
  {
    var s := Wrapped;
    WrappedChars();
    WrappedElement();
    var m := ElementsOf(s);
    forall p | 30 <= p < 45 ensures m(p).None? {
      NoTagAt(s, p, []);
    }
    LeftmostSkips(s, m, 30, 45);
    assert LeftmostMatches(s, m, 0) == [Span(0, 30)] + LeftmostMatches(s, m, 30);
  }

  /** Deleting the element leaves only the entity after it. */
  lemma WrappedRemoved()
    ensures RemoveElements(Wrapped) == Title
  {
    var s := Wrapped;
    WrappedChars();
    WrappedMatches();
    assert RemoveElements(s) == Strip(s, [Span(0, 30)]);
    StripOne(s, 0, 30);
  }

  lemma TitlePrefix()
    ensures HasEntityPrefix(Title[1..])
  {
    var u := Title[1..];
    assert u[..8] == "content.";
    LowerOfLower(u);
    LowerOfLower("content.");
    assert "content." in EntityPrefixes;
  }

  lemma TitleEntity()
    ensures EntityAt(Title, 0) == Some(15)
  {
    var t := Title;
    TitlePrefix();
    assert forall k :: 1 <= k < 14 ==> !IsBrace(t[k]);
    FirstBrace(t, 1, 14);
  }

  lemma TitleSpans()
    ensures EntitySpans(Title) == [Span(0, 15)]
  {
    TitleEntity();
    assert LeftmostMatches(Title, EntitiesOf(Title), 15) == [];
  }

  /** Of the two copies of the entity, only the one outside the element is
      listed. */
  lemma EntityInsideElementIgnored()
    ensures EntityMatcher.GetStlEntityList(Wrapped) == [Title]
  {
    WrappedRemoved();
    TitleSpans();
    assert Title[0..15] == Title;
  }
}
