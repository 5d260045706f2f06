/** The element matcher behind `RegexStlElement` and `GetStlElementList`:
    a left-to-right scan that, at each position, tries to read one complete
    top-level STL element and otherwise moves on by one character.

    The element at a position starts with an opening tag `<stl:WORD...>`.
    The name the pattern captures there is lazy: it is the shortest prefix
    of WORD, one character or more, for which the body scan finds a closing
    tag. The body scan counts depth. Every tag `<stl:NAME...>` deepens the
    nesting, including one that ends in `/>`. At positive depth, every tag
    `</stl:NAME...>` undoes one level. The first such closing tag met at
    depth zero ends the element. Because the pattern's backreference is
    followed by `[^>]*`, a tag whose name merely starts with NAME counts.
    When no prefix has a closing tag, an opening tag that ends in `/>` is an
    element on its own. Everything compares without regard to ASCII case. */
module ElementMatcher {
  import opened Wrappers
  import opened Text
  import opened Spans

  const OpenPrefix: String := "<stl:"
  const ClosePrefix: String := "</stl:"

  /** The `\w` class, restricted to ASCII. */
  predicate IsWordChar(c: char) {
    ('a' <= c <= 'z') || ('A' <= c <= 'Z') || ('0' <= c <= '9') || c == '_'
  }

  /** The end of the run of word characters starting at `i`. */
  function WordEnd(s: String, i: nat): (j: nat)
    requires i <= |s|
    ensures i <= j <= |s|
    ensures forall k :: i <= k < j ==> IsWordChar(s[k])
    ensures j == |s| || !IsWordChar(s[j])
    decreases |s| - i
  {
    if i < |s| && IsWordChar(s[i]) then WordEnd(s, i + 1) else i
  }

  /** The first position at or after `i` holding `c`. */
  function FindChar(s: String, c: char, i: nat): (r: Option<nat>)
    requires i <= |s|
    ensures r.Some? ==> i <= r.value < |s| && s[r.value] == c
    ensures r.Some? ==> forall k :: i <= k < r.value ==> s[k] != c
    ensures r.None? ==> forall k :: i <= k < |s| ==> s[k] != c
    decreases |s| - i
  {
    if i == |s| then None
    else if s[i] == c then Some(i)
    else FindChar(s, c, i + 1)
  }

  /** Position `e` is just after a `>` of `s`. */
  predicate AfterGt(s: String, e: nat) {
    0 < e <= |s| && s[e - 1] == '>'
  }

  /** The outer opening tag `<stl:(\w+?)[^>]*>`: the lower-cased run of word
      characters after `stl:`, the position after the first `>` that
      follows, and whether that `>` is preceded by `/`. */
  datatype Tag = Tag(word: String, end: nat, selfClosing: bool)

  /** The outer opening tag at position `i`, if there is one. */
  function OpenTagAt(s: String, i: nat): (r: Option<Tag>)
    requires i <= |s|
    ensures r.Some? ==> i + |OpenPrefix| < r.value.end <= |s| && AfterGt(s, r.value.end)
    ensures r.Some? ==> StartsWithIgnoreCase(s[i..], OpenPrefix) && r.value.word != []
    ensures r.Some? ==> var n := WordEnd(s, i + 5);
      && r.value.word == Lower(s[i + 5..n])
      && n < r.value.end
      && (forall k :: n <= k < r.value.end - 1 ==> s[k] != '>')
      && r.value.selfClosing == (s[r.value.end - 2] == '/')
    ensures r.None? <==>
      || !StartsWithIgnoreCase(s[i..], OpenPrefix)
      || WordEnd(s, i + 5) == i + 5
      || (forall k :: WordEnd(s, i + 5) <= k < |s| ==> s[k] != '>')
  {
    if !StartsWithIgnoreCase(s[i..], OpenPrefix) then None
    else
      var n := WordEnd(s, i + 5);
      if n == i + 5 then None
      else
        match FindChar(s, '>', n)
        case None => None
        case Some(g) => Some(Tag(Lower(s[i + 5..n]), g + 1, s[g - 1] == '/'))
  }

  /** A tag `lead` + `\1` + `[^>]*>` at position `k`, where `lead` is
      `<stl:` or `</stl:` and `name` is the captured name: the name is
      compared in any case with the text that follows `lead`, and anything
      up to the first `>` may come after it, so a longer name that starts
      with `name` matches too. The result is the position after the `>`. */
  function TagAt(s: String, k: nat, lead: String, name: String): (r: Option<nat>)
    requires k <= |s|
    ensures r.Some? <==> (StartsWithIgnoreCase(s[k..], lead + name) &&
      exists g :: k + |lead| + |name| <= g < |s| && s[g] == '>')
    ensures r.Some? ==> k + |lead| + |name| < r.value <= |s| && AfterGt(s, r.value)
    ensures r.Some? ==> forall g :: k + |lead| + |name| <= g < r.value - 1 ==> s[g] != '>'
  {
    if !StartsWithIgnoreCase(s[k..], lead + name) then None
    else
      match FindChar(s, '>', k + |lead| + |name|)
      case None => None
      case Some(g) => Some(g + 1)
  }

  /** A nested opening tag `<stl:\1[^>]*>` of the captured name at `k`. */
  function NestedOpenAt(s: String, k: nat, name: String): (r: Option<nat>)
    requires k <= |s|
    ensures r.Some? <==> (StartsWithIgnoreCase(s[k..], OpenPrefix + name) &&
      exists g :: k + |OpenPrefix| + |name| <= g < |s| && s[g] == '>')
    ensures r.Some? ==> k + |OpenPrefix| + |name| < r.value <= |s| && AfterGt(s, r.value)
  {
    TagAt(s, k, OpenPrefix, name)
  }

  /** A closing tag `</stl:\1[^>]*>` of the captured name at `k`. */
  function CloseTagAt(s: String, k: nat, name: String): (r: Option<nat>)
    requires k <= |s|
    ensures r.Some? <==> (StartsWithIgnoreCase(s[k..], ClosePrefix + name) &&
      exists g :: k + |ClosePrefix| + |name| <= g < |s| && s[g] == '>')
    ensures r.Some? ==> k + |ClosePrefix| + |name| < r.value <= |s| && AfterGt(s, r.value)
  {
    TagAt(s, k, ClosePrefix, name)
  }

  /** What the body scan meets at a position: a closing tag of the name, a
      nested opening tag of it, or any other character. */
  datatype Token = Closing(end: nat) | Opening(end: nat) | Other

  /** The token at `k`; a closing tag is tried first. */
  function TokenAt(s: String, name: String, k: nat): (r: Token)
    requires k < |s|
    ensures !r.Other? ==> k < r.end <= |s|
  {
    match CloseTagAt(s, k, name)
    case Some(c) => Closing(c)
    case None =>
      match NestedOpenAt(s, k, name)
      case Some(e) => Opening(e)
      case None => Other
  }

  /** `tok` gives the tokens of a text of length `n`: a tag token ends
      after its start and inside the text. */
  predicate Steps(n: nat, tok: nat -> Token) {
    forall k :: 0 <= k < n && !tok(k).Other? ==> k < tok(k).end <= n
  }

  /** The depth-counting scan over a token function: a closing tag at depth
      zero ends it; one at positive depth pops a level; an opening tag
      pushes one; any other character is skipped. */
  function Scan(n: nat, tok: nat -> Token, k: nat, depth: nat): (r: Option<nat>)
    requires k <= n && Steps(n, tok)
    ensures r.Some? ==> k < r.value <= n
    decreases n - k
  {
    if k == n then None
    else
      match tok(k)
      case Closing(c) => if depth == 0 then Some(c) else Scan(n, tok, c, depth - 1)
      case Opening(e) => Scan(n, tok, e, depth + 1)
      case Other => Scan(n, tok, k + 1, depth)
  }

  /** The tokens of `s` for the name, as a position-indexed function. */
  function TokensOf(s: String, name: String): (tok: nat -> Token)
    ensures Steps(|s|, tok)
    ensures forall k: nat :: k < |s| ==> tok(k) == TokenAt(s, name, k)
  {
    (k: nat) => if k < |s| then TokenAt(s, name, k) else Other
  }

  /** The body scan of the balanced alternative: from `k`, with `depth`
      nested opening tags still unclosed, the position after the closing
      tag that ends the element. */
  function FindClose(s: String, name: String, k: nat, depth: nat): (r: Option<nat>)
    requires k <= |s|
    ensures r.Some? ==> k < r.value <= |s|
  {
    Scan(|s|, TokensOf(s, name), k, depth)
  }

  /** One step of the body scan at `k`. */
  lemma FindCloseStep(s: String, name: String, k: nat, depth: nat)
    requires k < |s|
    ensures FindClose(s, name, k, depth) ==
      match TokenAt(s, name, k)
      case Closing(c) => if depth == 0 then Some(c) else FindClose(s, name, c, depth - 1)
      case Opening(e) => FindClose(s, name, e, depth + 1)
      case Other => FindClose(s, name, k + 1, depth)
  {
  }

  /** The scan stops just after a closing token that starts at or after `k`. */
  lemma {:induction false} ScanEndsAtClosing(n: nat, tok: nat -> Token, k: nat, depth: nat)
    requires k <= n && Steps(n, tok) && Scan(n, tok, k, depth).Some?
    ensures exists j :: k <= j < n && tok(j) == Closing(Scan(n, tok, k, depth).value)
    decreases n - k
  {
    match tok(k)
    case Closing(c) =>
      if depth > 0 {
        ScanEndsAtClosing(n, tok, c, depth - 1);
      }
    case Opening(e) =>
      ScanEndsAtClosing(n, tok, e, depth + 1);
    case Other =>
      ScanEndsAtClosing(n, tok, k + 1, depth);
  }

  /** The body scan ends just after a closing tag of the name that starts
      at or after `k`. */
  lemma FindCloseEndsAtClose(s: String, name: String, k: nat, depth: nat)
    requires k <= |s| && FindClose(s, name, k, depth).Some?
    ensures var e := FindClose(s, name, k, depth).value;
      AfterGt(s, e) && exists j :: k <= j < e && CloseTagAt(s, j, name) == Some(e)
  {
    var tok := TokensOf(s, name);
    ScanEndsAtClosing(|s|, tok, k, depth);
    var j :| k <= j < |s| && tok(j) == Closing(FindClose(s, name, k, depth).value);
    assert CloseTagAt(s, j, name) == Some(FindClose(s, name, k, depth).value);
  }

  /** The scan from the end of a closing tag, if one was found. */
  function ThenScan(n: nat, tok: nat -> Token, c: Option<nat>, depth: nat): Option<nat>
    requires Steps(n, tok) && (c.Some? ==> c.value <= n)
  {
    match c
    case None => None
    case Some(c) => Scan(n, tok, c, depth)
  }

  lemma {:induction false} ScanDeeper(n: nat, tok: nat -> Token, k: nat, depth: nat)
    requires k <= n && Steps(n, tok)
    ensures Scan(n, tok, k, depth + 1) == ThenScan(n, tok, Scan(n, tok, k, depth), 0)
    decreases n - k
  {
    if k < n {
      match tok(k)
      case Closing(c) =>
        if depth > 0 {
          ScanDeeper(n, tok, c, depth - 1);
        }
      case Opening(e) =>
        ScanDeeper(n, tok, e, depth + 1);
      case Other =>
        ScanDeeper(n, tok, k + 1, depth);
    }
  }

  lemma {:induction false} ScanDepth(n: nat, tok: nat -> Token, k: nat, depth: nat)
    requires k <= n && Steps(n, tok)
    ensures Scan(n, tok, k, depth + 1) == ThenScan(n, tok, Scan(n, tok, k, 0), depth)
    decreases depth
  {
    ScanDeeper(n, tok, k, depth);
    if depth > 0 {
      ScanDepth(n, tok, k, depth - 1);
      var c := Scan(n, tok, k, 0);
      if c.Some? {
        ScanDeeper(n, tok, c.value, depth - 1);
      }
    }
  }

  /** The scan from the end of a closing tag, if one was found. */
  function ThenClose(s: String, name: String, c: Option<nat>, depth: nat): Option<nat>
    requires c.Some? ==> c.value <= |s|
  {
    match c
    case None => None
    case Some(c) => FindClose(s, name, c, depth)
  }

  /** Closing `depth + 1` levels is closing `depth` levels and then one
      more: the scan from the closing tag reached at `depth` goes on at
      depth zero. */
  lemma FindCloseDeeper(s: String, name: String, k: nat, depth: nat)
    requires k <= |s|
    ensures FindClose(s, name, k, depth + 1) == ThenClose(s, name, FindClose(s, name, k, depth), 0)
  {
    ScanDeeper(|s|, TokensOf(s, name), k, depth);
  }

  /** Closing `depth + 1` levels from `k` is closing one level and then
      `depth` more. */
  lemma FindCloseDepth(s: String, name: String, k: nat, depth: nat)
    requires k <= |s|
    ensures FindClose(s, name, k, depth + 1) == ThenClose(s, name, FindClose(s, name, k, 0), depth)
  {
    ScanDepth(|s|, TokensOf(s, name), k, depth);
  }

  /** The balancing rule: a nested opening tag of the name at `k` is passed
      over together with everything up to its own closing tag, found by the
      same scan at depth zero, and the scan goes on after it at the depth it
      had before. */
  lemma NestedSkipped(s: String, name: String, k: nat, e: nat, depth: nat)
    requires k < |s| && NestedOpenAt(s, k, name) == Some(e)
    ensures FindClose(s, name, k, depth) == ThenClose(s, name, FindClose(s, name, e, 0), depth)
  {
    NoCloseWithoutSlash(s, k, name);
    FindCloseStep(s, name, k, depth);
    FindCloseDepth(s, name, e, depth);
  }

  /** The first `m` in `lo..hi` at which `f` finds something. */
  function FirstFound(f: nat -> Option<nat>, lo: nat, hi: nat): (r: Option<nat>)
    ensures r.Some? ==> exists m :: lo <= m <= hi && f(m) == r && forall l :: lo <= l < m ==> f(l).None?
    ensures r.None? ==> forall m :: lo <= m <= hi ==> f(m).None?
    decreases hi + 1 - lo
  {
    if lo > hi then None
    else if f(lo).Some? then f(lo)
    else FirstFound(f, lo + 1, hi)
  }

  /** The body scan for each name length: the first `m` characters of the
      tag's word as the captured name. */
  function ClosingByLength(s: String, word: String, start: nat): (f: nat -> Option<nat>)
    requires start <= |s|
    ensures forall m :: 1 <= m <= |word| ==> f(m) == FindClose(s, word[..m], start, 0)
  {
    (m: nat) => if 1 <= m <= |word| then FindClose(s, word[..m], start, 0) else None
  }

  /** The lazy capture `\w+?`: the balanced form with the shortest prefix
      of the word, at least one character long, that has a closing tag. */
  function ShortestClose(s: String, word: String, start: nat): (r: Option<nat>)
    requires start <= |s|
    ensures r.Some? ==> exists m :: (1 <= m <= |word| && FindClose(s, word[..m], start, 0) == r &&
      forall l :: 1 <= l < m ==> FindClose(s, word[..l], start, 0).None?)
    ensures r.None? ==> forall m :: 1 <= m <= |word| ==> FindClose(s, word[..m], start, 0).None?
  {
    FirstFound(ClosingByLength(s, word, start), 1, |word|)
  }

  /** The balanced form ends just after a `>`. */
  lemma ShortestCloseEnds(s: String, word: String, start: nat)
    requires start <= |s| && ShortestClose(s, word, start).Some?
    ensures start < ShortestClose(s, word, start).value <= |s|
    ensures AfterGt(s, ShortestClose(s, word, start).value)
  {
    var m :| 1 <= m <= |word| && FindClose(s, word[..m], start, 0) == ShortestClose(s, word, start);
    FindCloseEndsAtClose(s, word[..m], start, 0);
  }

  /** The end of the element starting at `i`: the balanced form first, the
      lone `/>` tag when no balanced form exists. */
  function ElementAt(s: String, i: nat): (r: Option<nat>)
    requires i <= |s|
    ensures r.Some? ==> i < r.value <= |s|
    ensures r.Some? ==> StartsWithIgnoreCase(s[i..r.value], OpenPrefix) && s[r.value - 1] == '>'
  {
    match OpenTagAt(s, i)
    case None => None
    case Some(t) =>
      var b := ShortestClose(s, t.word, t.end);
      if b.Some? then
        ShortestCloseEnds(s, t.word, t.end);
        PrefixKept(s, i, b.value);
        b
      else if t.selfClosing then
        PrefixKept(s, i, t.end);
        Some(t.end)
      else None
  }

  /** The element rule. Without an opening tag there is no element. With
      one, the balanced alternative is tried first, for each prefix of the
      tag's word in turn from one character up, so the element ends where
      the shortest prefix that has a closing tag closes; the lone
      alternative, an opening tag that ends in `/>`, is taken only when no
      prefix has one. */
  lemma ElementRule(s: String, i: nat)
    requires i <= |s|
    ensures OpenTagAt(s, i).None? ==> ElementAt(s, i).None?
    ensures OpenTagAt(s, i).Some? ==> var t := OpenTagAt(s, i).value;
      forall m :: (1 <= m <= |t.word| && FindClose(s, t.word[..m], t.end, 0).Some? &&
        (forall l :: 1 <= l < m ==> FindClose(s, t.word[..l], t.end, 0).None?)) ==>
        ElementAt(s, i) == FindClose(s, t.word[..m], t.end, 0)
    ensures OpenTagAt(s, i).Some? ==> var t := OpenTagAt(s, i).value;
      (forall m :: 1 <= m <= |t.word| ==> FindClose(s, t.word[..m], t.end, 0).None?) ==>
        ElementAt(s, i) == if t.selfClosing then Some(t.end) else None
  {
    if OpenTagAt(s, i).Some? {
      var t := OpenTagAt(s, i).value;
      var b := ShortestClose(s, t.word, t.end);
      forall m | 1 <= m <= |t.word| && FindClose(s, t.word[..m], t.end, 0).Some? &&
        (forall l :: 1 <= l < m ==> FindClose(s, t.word[..l], t.end, 0).None?)
        ensures ElementAt(s, i) == FindClose(s, t.word[..m], t.end, 0)
      {
        var m' :| 1 <= m' <= |t.word| && FindClose(s, t.word[..m'], t.end, 0) == b &&
          forall l :: 1 <= l < m' ==> FindClose(s, t.word[..l], t.end, 0).None?;
        assert m' == m;
      }
    }
  }

  /** Cutting the text after the opening prefix keeps the prefix. */
  lemma PrefixKept(s: String, i: nat, e: nat)
    requires i + |OpenPrefix| <= e <= |s| && StartsWithIgnoreCase(s[i..], OpenPrefix)
    ensures StartsWithIgnoreCase(s[i..e], OpenPrefix)
  {
    StartsWithIgnoreCaseCut(s[i..], OpenPrefix, e - i);
    assert s[i..][..e - i] == s[i..e];
  }

  /** The spans of RegexStlElement.Matches(s). */
  function MatchElements(s: String): (r: seq<Span>)
    ensures ValidSpans(s, r)
    ensures forall k :: 0 <= k < |r| ==> ElementAt(s, r[k].start) == Some(r[k].end)
    ensures forall k :: 0 <= k < |s| && ElementAt(s, k).Some? ==> Covered(r, k)
  {
    LeftmostMatches(s, ElementsOf(s), 0)
  }

  /** The element matcher as a position-to-end function. */
  function ElementsOf(s: String): (m: nat -> Option<nat>)
    ensures Advances(s, m)
    ensures forall k: nat :: k <= |s| ==> m(k) == ElementAt(s, k)
  {
    (k: nat) => if k <= |s| then ElementAt(s, k) else None
  }

  /** GetStlElementList: the matched elements as strings, in text order; each
      starts with `<stl:` in any case and ends with `>`, and no element of
      the text starts at a position outside every match. */
  function GetStlElementList(s: String): (r: seq<String>)
    ensures |r| == |MatchElements(s)|
    ensures forall k :: 0 <= k < |r| ==> StartsWithIgnoreCase(r[k], OpenPrefix) && r[k][|r[k]| - 1] == '>'
    ensures forall k :: 0 <= k < |r| ==>
      r[k] == s[MatchElements(s)[k].start..MatchElements(s)[k].end]
  {
    Tokens(s, MatchElements(s))
  }

  /** RegexStlElement.Replace(s, ""): the text with every element deleted. */
  function RemoveElements(s: String): (r: String)
    ensures |r| == |s| - TotalLength(MatchElements(s))
  {
    StripLength(s, MatchElements(s));
    Strip(s, MatchElements(s))
  }

  /** The deleted elements and the text left over rebuild the input. */
  lemma RemoveElementsRebuilds(s: String)
    ensures RemoveElements(s) == Concat(Gaps(s, MatchElements(s), 0))
    ensures Weave(Gaps(s, MatchElements(s), 0), GetStlElementList(s)) == s
  {
    WeaveRebuilds(s, MatchElements(s), 0);
    assert s[0..] == s;
  }

  /** No tag and no element starts at a character other than `<`. */
  lemma NoTagAt(s: String, k: nat, name: String)
    requires k < |s| && s[k] != '<'
    ensures OpenTagAt(s, k) == None && NestedOpenAt(s, k, name) == None
    ensures CloseTagAt(s, k, name) == None && ElementAt(s, k) == None
  {
    assert Lower(s[k..])[0] == LowerChar(s[k]) != '<';
  }

  /** The body scan passes over text without `<` without changing depth. */
  lemma {:induction false} FindCloseSkips(s: String, name: String, k: nat, j: nat, depth: nat)
    requires k <= j <= |s|
    requires forall m :: k <= m < j ==> s[m] != '<'
    ensures FindClose(s, name, k, depth) == FindClose(s, name, j, depth)
    decreases j - k
  {
    if k < j {
      NoTagAt(s, k, name);
      FindCloseSkips(s, name, k + 1, j, depth);
    }
  }

  /** The scan of the element matches passes over text without `<`. */
  lemma MatchesSkipText(s: String, k: nat, j: nat)
    requires k <= j <= |s|
    requires forall p :: k <= p < j ==> s[p] != '<'
    ensures LeftmostMatches(s, ElementsOf(s), k) == LeftmostMatches(s, ElementsOf(s), j)
  {
    var m := ElementsOf(s);
    forall p | k <= p < j ensures m(p).None? {
      NoTagAt(s, p, []);
    }
    LeftmostSkips(s, m, k, j);
  }

  /** `<stl:` at `i`, in lower case. */
  predicate OpenLeadAt(s: String, i: nat) {
    i + 5 <= |s| && s[i] == '<' && s[i + 1] == 's' && s[i + 2] == 't' && s[i + 3] == 'l' && s[i + 4] == ':'
  }

  /** `</stl:` at `i`, in lower case. */
  predicate CloseLeadAt(s: String, i: nat) {
    i + 6 <= |s| && s[i] == '<' && s[i + 1] == '/' && s[i + 2] == 's' && s[i + 3] == 't' && s[i + 4] == 'l' && s[i + 5] == ':'
  }

  /** `<stl:c`, with a lower-case letter `c`, starts a nested opening tag of
      the name `c` that ends after the first `>` at or after `g`, when the
      text up to `g` holds no `>`. */
  lemma NestedOpenOfLetter(s: String, i: nat, c: char, g: nat)
    requires OpenLeadAt(s, i) && i + 6 <= g < |s|
    requires 'a' <= c <= 'z' && s[i + 5] == c && s[g] == '>'
    requires forall k :: i + 6 <= k < g ==> s[k] != '>'
    ensures NestedOpenAt(s, i, [c]) == Some(g + 1)
  {
    assert forall k :: 0 <= k < 6 ==> s[i + k] == (OpenPrefix + [c])[k];
    assert Lower(s[i..])[..6] == Lower(OpenPrefix + [c]);
    assert FindChar(s, '>', i + 6) == Some(g);
  }

  /** `<stl:c>`, with a lower-case one-letter name, is an opening tag of
      that name that does not end in `/>`, and a nested opening tag of it. */
  lemma OpenTagOfLetter(s: String, i: nat, c: char)
    requires i + 7 <= |s| && OpenLeadAt(s, i)
    requires 'a' <= c <= 'z' && s[i + 5] == c && s[i + 6] == '>'
    ensures OpenTagAt(s, i) == Some(Tag([c], i + 7, false))
    ensures NestedOpenAt(s, i, [c]) == Some(i + 7)
  {
    assert forall k :: 0 <= k < 5 ==> s[i + k] == OpenPrefix[k];
    assert Lower(s[i..])[..5] == Lower(OpenPrefix);
    assert WordEnd(s, i + 6) == i + 6;
    assert FindChar(s, '>', i + 6) == Some(i + 6);
    assert Lower(s[i + 5..i + 6]) == [c];
    NestedOpenOfLetter(s, i, c, i + 6);
  }

  /** `</stl:c>`, with a lower-case one-letter name, is a closing tag of
      that name. */
  lemma CloseTagOfLetter(s: String, i: nat, c: char)
    requires i + 8 <= |s| && CloseLeadAt(s, i)
    requires 'a' <= c <= 'z' && s[i + 6] == c && s[i + 7] == '>'
    ensures CloseTagAt(s, i, [c]) == Some(i + 8)
  {
    assert forall k :: 0 <= k < 7 ==> s[i + k] == (ClosePrefix + [c])[k];
    assert Lower(s[i..])[..7] == Lower(ClosePrefix + [c]);
    assert FindChar(s, '>', i + 7) == Some(i + 7);
  }

  /** An opening tag whose word is one letter leaves the lazy capture a
      single choice: that letter. */
  lemma ElementOfLetter(s: String, i: nat, c: char, e: nat, selfClosing: bool)
    requires i <= |s| && OpenTagAt(s, i) == Some(Tag([c], e, selfClosing))
    ensures ElementAt(s, i) ==
      if FindClose(s, [c], e, 0).Some? then FindClose(s, [c], e, 0)
      else if selfClosing then Some(e) else None
  {
    ElementRule(s, i);
    assert [c][..1] == [c];
  }

  /** The body scan at a nested opening tag goes on after it, one level
      deeper. */
  lemma FindCloseAtOpening(s: String, name: String, k: nat, e: nat, depth: nat)
    requires k + 1 < |s| && LowerChar(s[k + 1]) != '/' && NestedOpenAt(s, k, name) == Some(e)
    ensures FindClose(s, name, k, depth) == FindClose(s, name, e, depth + 1)
  {
    NoCloseWithoutSlash(s, k, name);
    FindCloseStep(s, name, k, depth);
  }

  /** The body scan at a closing tag ends there at depth zero, and goes on
      after it one level up otherwise. */
  lemma FindCloseAtClosing(s: String, name: String, k: nat, c: nat, depth: nat)
    requires k < |s| && CloseTagAt(s, k, name) == Some(c)
    ensures FindClose(s, name, k, depth) == if depth == 0 then Some(c) else FindClose(s, name, c, depth - 1)
  {
    FindCloseStep(s, name, k, depth);
  }

  /** No closing tag starts where the second character is not `/`, so in
      particular not at an opening tag. */
  lemma NoCloseWithoutSlash(s: String, i: nat, name: String)
    requires i + 1 < |s| && LowerChar(s[i + 1]) != '/'
    ensures CloseTagAt(s, i, name) == None
  {
    assert Lower(s[i..])[1] == LowerChar(s[i + 1]);
  }
}
