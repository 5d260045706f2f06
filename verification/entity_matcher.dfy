/** The entity scanner behind `RegexStringAll` and `GetStlEntityList`, and
    the cheap `IsStlEntityInclude` pre-filter.

    An entity is `{`, one of ten namespace prefixes in any ASCII case, a run
    of characters holding no brace, and the `}` that ends that run. Each
    alternative of the pattern is `{prefix[^{}]*}`; because no prefix holds
    a brace, the alternative that matches at a position (at most one does)
    ends at the first brace after the `{`, and only when that brace is `}`. */
module EntityMatcher {
  import opened Wrappers
  import opened Text
  import opened Spans
  import ElementMatcher

  /** The namespaces of RegexStringAll, in the pattern's order. */
  const EntityPrefixes: seq<String> :=
    ["stl.", "stl:", "content.", "channel.", "comment.", "request.", "sql.", "user.", "navigation.", "photo."]

  /** The pattern text of GetStlEntityList: one `{prefix[^{}]*}` alternative
      per entry of EntityPrefixes, in the same order, with `.` escaped. */
  const RegexStringAll: String :=
    "{stl\\.[^{}]*}|{stl:[^{}]*}|{content\\.[^{}]*}|{channel\\.[^{}]*}|{comment\\.[^{}]*}|{request\\.[^{}]*}|{sql\\.[^{}]*}|{user\\.[^{}]*}|{navigation\\.[^{}]*}|{photo\\.[^{}]*}"

  predicate IsBrace(c: char) {
    c == '{' || c == '}'
  }

  /** Some namespace prefix begins `t`, in any ASCII case. */
  predicate HasEntityPrefix(t: String) {
    exists p :: p in EntityPrefixes && StartsWithIgnoreCase(t, p)
  }

  /** The shape of every entity: `{`, a prefix, brace-free text, `}`. */
  predicate IsEntityToken(t: String) {
    && 2 <= |t|
    && t[0] == '{'
    && t[|t| - 1] == '}'
    && HasEntityPrefix(t[1..])
    && forall k :: 1 <= k < |t| - 1 ==> !IsBrace(t[k])
  }

  /** The first brace at or after `i`. */
  function FindBrace(s: String, i: nat): (r: Option<nat>)
    requires i <= |s|
    ensures r.Some? ==> i <= r.value < |s| && IsBrace(s[r.value])
    ensures r.Some? ==> forall k :: i <= k < r.value ==> !IsBrace(s[k])
    ensures r.None? ==> forall k :: i <= k < |s| ==> !IsBrace(s[k])
    decreases |s| - i
  {
    if i == |s| then None
    else if IsBrace(s[i]) then Some(i)
    else FindBrace(s, i + 1)
  }

  /** A prefix matched at the start of `t` holds no brace, so the first
      brace of `t` comes after it. */
  lemma PrefixHasNoBrace(t: String, p: String, k: nat)
    requires p in EntityPrefixes && StartsWithIgnoreCase(t, p) && k < |p|
    ensures !IsBrace(t[k])
  {
    assert Lower(t)[k] == Lower(p)[k];
    assert !IsBrace(p[k]);
  }

  /** So a brace of `t` lies at or after the end of the prefix. */
  lemma PrefixBeforeBrace(t: String, p: String, j: nat)
    requires p in EntityPrefixes && StartsWithIgnoreCase(t, p) && j < |t| && IsBrace(t[j])
    ensures |p| <= j
  {
    if j < |p| {
      PrefixHasNoBrace(t, p, j);
    }
  }

  /** The `[^{}]*` run stops at the first brace. */
  lemma FirstBrace(s: String, i: nat, j: nat)
    requires i <= j < |s| && IsBrace(s[j])
    requires forall k :: i <= k < j ==> !IsBrace(s[k])
    ensures FindBrace(s, i) == Some(j)
  {
  }

  /** The end of the entity starting at position `i`, if one starts there. */
  function EntityAt(s: String, i: nat): (r: Option<nat>)
    requires i <= |s|
    ensures r.Some? ==> i < r.value <= |s| && IsEntityToken(s[i..r.value])
  {
    if i < |s| && s[i] == '{' && HasEntityPrefix(s[i + 1..]) then
      match FindBrace(s, i + 1)
      case Some(j) =>
        if s[j] == '}' then
          EntityAtShape(s, i, j);
          Some(j + 1)
        else None
      case None => None
    else None
  }

  lemma EntityAtShape(s: String, i: nat, j: nat)
    requires i < j < |s| && s[i] == '{' && s[j] == '}' && HasEntityPrefix(s[i + 1..])
    requires forall k :: i + 1 <= k < j ==> !IsBrace(s[k])
    ensures IsEntityToken(s[i..j + 1])
  {
    var t := s[i..j + 1];
    assert t[0] == '{' && t[|t| - 1] == '}';
    var u := s[i + 1..];
    assert t[1..] == s[i + 1..j + 1];
    assert u[..j - i] == s[i + 1..j + 1];
    assert HasEntityPrefix(u[..j - i]) by {
      var p :| p in EntityPrefixes && StartsWithIgnoreCase(u, p);
      PrefixBeforeBrace(u, p, j - i - 1);
      StartsWithIgnoreCaseCut(u, p, j - i);
    }
    forall k | 1 <= k < |t| - 1 ensures !IsBrace(t[k]) {
      assert t[k] == s[i + k];
    }
  }

  /** The converse of EntityAt's contract: wherever an entity starts, the
      pattern matches it there, and the match is exactly that entity. */
  lemma EntityAtComplete(s: String, i: nat, j: nat)
    requires i < j <= |s| && IsEntityToken(s[i..j])
    ensures EntityAt(s, i) == Some(j)
  {
    EntityPrefixExtends(s, i, j);
    EntityBodyBraceFree(s, i, j);
    FirstBrace(s, i + 1, j - 1);
  }

  /** The prefix of an entity at `i` is a prefix of the rest of the text. */
  lemma EntityPrefixExtends(s: String, i: nat, j: nat)
    requires i < j <= |s| && IsEntityToken(s[i..j])
    ensures HasEntityPrefix(s[i + 1..])
  {
    var t := s[i..j];
    var u := s[i + 1..];
    var p :| p in EntityPrefixes && StartsWithIgnoreCase(t[1..], p);
    assert t[1..] == u[..j - i - 1];
    StartsWithIgnoreCaseExtends(u, j - i - 1, p);
  }

  /** A case-insensitive prefix of a prefix of `u` is a prefix of `u`. */
  lemma StartsWithIgnoreCaseExtends(u: String, n: nat, p: String)
    requires n <= |u| && StartsWithIgnoreCase(u[..n], p)
    ensures StartsWithIgnoreCase(u, p)
  {
    LowerSlice(u, 0, n);
    assert u[0..n] == u[..n];
  }

  /** The body of an entity at `i` is brace-free and its last character
      is `}`. */
  lemma EntityBodyBraceFree(s: String, i: nat, j: nat)
    requires i < j <= |s| && IsEntityToken(s[i..j])
    ensures s[i] == '{' && i + 1 <= j - 1 && s[j - 1] == '}'
    ensures forall k :: i + 1 <= k < j - 1 ==> !IsBrace(s[k])
  {
    var t := s[i..j];
    forall k | i + 1 <= k < j - 1 ensures !IsBrace(s[k]) {
      assert s[k] == t[k - i];
    }
    assert s[i] == t[0] && s[j - 1] == t[|t| - 1];
  }

  /** No entity starts strictly inside another one. */
  lemma EntitiesDoNotNest(s: String, i: nat, k: nat)
    requires i < k <= |s| && EntityAt(s, i).Some? && k < EntityAt(s, i).value
    ensures EntityAt(s, k).None?
  {
    var e := EntityAt(s, i).value;
    var t := s[i..e];
    assert s[k] == t[k - i];
  }

  /** The entity matcher as a position-to-end function. */
  function EntitiesOf(s: String): (m: nat -> Option<nat>)
    ensures Advances(s, m)
    ensures forall k: nat :: k <= |s| ==> m(k) == EntityAt(s, k)
  {
    (k: nat) => if k <= |s| then EntityAt(s, k) else None
  }

  /** The spans of the RegexStringAll matches of `s`: exactly the positions
      where an entity starts, each with its end. */
  function EntitySpans(s: String): (r: seq<Span>)
    ensures ValidSpans(s, r)
    ensures forall k :: 0 <= k < |r| ==> EntityAt(s, r[k].start) == Some(r[k].end)
    ensures forall k :: 0 <= k < |s| ==> (EntityAt(s, k).Some? <==> k in Starts(r))
  {
    var r := LeftmostMatches(s, EntitiesOf(s), 0);
    forall k | 0 <= k < |s| && EntityAt(s, k).Some? ensures k in Starts(r) {
      CoveredIndex(r, k);
      var j :| 0 <= j < |r| && r[j].start <= k < r[j].end;
      if r[j].start < k {
        EntitiesDoNotNest(s, r[j].start, k);
      }
    }
    r
  }

  /** GetStlEntityList: the entities of the text left once every element
      match has been deleted, in order; each has the entity shape. */
  function GetStlEntityList(content: String): (r: seq<String>)
    ensures var stripped := ElementMatcher.RemoveElements(content);
      && |r| == |EntitySpans(stripped)|
      && (forall k :: 0 <= k < |r| ==>
            r[k] == stripped[EntitySpans(stripped)[k].start..EntitySpans(stripped)[k].end])
    ensures forall k :: 0 <= k < |r| ==> IsEntityToken(r[k])
  {
    var stripped := ElementMatcher.RemoveElements(content);
    Tokens(stripped, EntitySpans(stripped))
  }

  /** The four namespaces the pre-filter looks for. */
  const HintNamespaces: seq<String> := ["stl:", "stl.", "content.", "channel."]

  /** A `{` followed, in any case, by one of the four namespaces the
      pre-filter looks for starts at position `k`. */
  predicate HintAt(s: String, k: nat) {
    k <= |s| && exists h :: h in HintNamespaces && StartsWithIgnoreCase(s[k..], "{" + h)
  }

  /** IsStlEntityInclude: the lower-cased text must hold a `}` and one of
      `{stl:`, `{stl.`, `{content.`, `{channel.`. So it is false for null,
      and otherwise true exactly when the text holds a `}` and, somewhere,
      `{` and one of the four namespaces in any case. */
  function IsStlEntityInclude(content: Option<String>): (r: bool)
    ensures r <==> content.Some? && '}' in content.value && exists k: nat :: HintAt(content.value, k)
  {
    if content.None? then false
    else
      var s := content.value;
      var l := Lower(s);
      CloseBraceLower(s);
      HintsInLower(s);
      '}' in l && (Contains(l, "{stl:") || Contains(l, "{stl.") || Contains(l, "{content.") || Contains(l, "{channel."))
  }

  /** Lower-casing neither adds nor removes a `}`. */
  lemma CloseBraceLower(s: String)
    ensures '}' in Lower(s) <==> '}' in s
  {
    if '}' in s {
      var i :| 0 <= i < |s| && s[i] == '}';
      assert Lower(s)[i] == '}';
    }
    if '}' in Lower(s) {
      var i :| 0 <= i < |Lower(s)| && Lower(s)[i] == '}';
      assert s[i] == '}';
    }
  }

  /** The lower-cased text contains a hint exactly when the text holds it,
      in any case, at some position. */
  lemma HintContains(s: String, p: String)
    requires p in HintNamespaces
    ensures Contains(Lower(s), "{" + p) <==> exists k: nat :: k <= |s| && StartsWithIgnoreCase(s[k..], "{" + p)
  {
    var q := "{" + p;
    LowerOfLower(q);
    ContainsIffOccurs(Lower(s), q);
    if Contains(Lower(s), q) {
      var k :| OccursAt(Lower(s), q, k);
      WindowLower(s, k, q);
    }
    if exists k: nat :: k <= |s| && StartsWithIgnoreCase(s[k..], q) {
      var k: nat :| k <= |s| && StartsWithIgnoreCase(s[k..], q);
      LowerWindow(s, k, q);
    }
  }

  /** The four tests of the pre-filter together find a hint exactly when
      one starts somewhere in the text. */
  lemma HintsInLower(s: String)
    ensures var l := Lower(s);
      (Contains(l, "{stl:") || Contains(l, "{stl.") || Contains(l, "{content.") || Contains(l, "{channel."))
      <==> exists k: nat :: HintAt(s, k)
  {
    HintTests(Lower(s));
    HintListSomewhere(s);
  }

  /** The four tests are one test per namespace of HintNamespaces. */
  lemma HintTests(l: String)
    ensures (Contains(l, "{stl:") || Contains(l, "{stl.") || Contains(l, "{content.") || Contains(l, "{channel."))
      <==> exists p :: p in HintNamespaces && Contains(l, "{" + p)
  {
    assert "{" + "stl:" == "{stl:" && "{" + "stl." == "{stl.";
    assert "{" + "content." == "{content." && "{" + "channel." == "{channel.";
  }

  /** Some hint is contained in the lower-cased text exactly when one
      starts, in any case, somewhere in the text. */
  lemma HintListSomewhere(s: String)
    ensures (exists p :: p in HintNamespaces && Contains(Lower(s), "{" + p)) <==> exists k: nat :: HintAt(s, k)
  {
    forall p | p in HintNamespaces && Contains(Lower(s), "{" + p) ensures exists k: nat :: HintAt(s, k) {
      HintSomewhere(s, p);
    }
    if exists k: nat :: HintAt(s, k) {
      var k: nat :| HintAt(s, k);
      var h :| h in HintNamespaces && StartsWithIgnoreCase(s[k..], "{" + h);
      HintContains(s, h);
    }
  }

  lemma HintSomewhere(s: String, p: String)
    requires p in HintNamespaces && Contains(Lower(s), "{" + p)
    ensures exists k: nat :: HintAt(s, k)
  {
    HintContains(s, p);
    var k: nat :| k <= |s| && StartsWithIgnoreCase(s[k..], "{" + p);
    assert HintAt(s, k);
  }

  /** The pre-filter never misses an entity of the `stl:`, `stl.`,
      `content.` or `channel.` namespace in the text it is given. */
  lemma EntityIncludeSeesHintedEntities(s: String, i: nat, p: String)
    requires i <= |s| && EntityAt(s, i).Some?
    requires p in HintNamespaces && StartsWithIgnoreCase(s[i + 1..], p)
    ensures IsStlEntityInclude(Some(s))
  {
    var e := EntityAt(s, i).value;
    assert s[i..e][e - i - 1] == s[e - 1];
    assert Lower(s)[e - 1] == '}';
    HintOccurs(s, i, p);
    HintFound(s, p);
  }

  /** A `{` followed by a hinted namespace in any case shows up verbatim in
      the lower-cased text. */
  lemma HintOccurs(s: String, i: nat, p: String)
    requires i < |s| && s[i] == '{'
    requires p in HintNamespaces && StartsWithIgnoreCase(s[i + 1..], p)
    ensures Contains(Lower(s), "{" + p)
  {
    var q := "{" + p;
    assert Lower(q) == q by {
      LowerOfLower(q);
    }
    assert s[i..][1..] == s[i + 1..];
    StartsWithIgnoreCaseCons(s[i..], '{', p);
    LowerWindow(s, i, q);
    ContainsIffOccurs(Lower(s), q);
  }

  lemma HintFound(s: String, p: String)
    requires p in HintNamespaces && '}' in Lower(s) && Contains(Lower(s), "{" + p)
    ensures IsStlEntityInclude(Some(s))
  {
    if p == "stl:" {
      assert "{" + p == "{stl:";
    } else if p == "stl." {
      assert "{" + p == "{stl.";
    } else if p == "content." {
      assert "{" + p == "{content.";
    } else {
      assert "{" + p == "{channel.";
    }
  }


  /** Text whose only `{` is its first character, followed by a second
      character that is neither `s` nor `c`, or a third that is not `t`,
      in lower case, holds none of the four hints. */
  lemma NoHintAfterBrace(l: String, h: String)
    requires h in ["{stl:", "{stl.", "{content.", "{channel."]
    requires |l| >= 3 && forall k :: 0 < k < |l| ==> l[k] != '{'
    requires l[1] != 'c' && l[2] != 't'
    ensures !Contains(l, h)
  {
    ContainsIffOccurs(l, h);
    forall k ensures !OccursAt(l, h, k) {
      if 0 <= k && k + |h| <= |l| {
        var w := l[k..k + |h|];
        assert w[0] == l[k] && w[1] == l[k + 1] && w[2] == l[k + 2];
      }
    }
  }

  /** The pre-filter is not conservative for the other six namespaces: the
      scanner finds `{sql.x}` while the pre-filter reports nothing. */
  lemma EntityIncludeMissesSql()
    ensures EntityAt("{sql.x}", 0) == Some(7)
    ensures !IsStlEntityInclude(Some("{sql.x}"))
  {
    var s := "{sql.x}";
    LowerOfLower(s);
    assert StartsWithIgnoreCase(s[1..], "sql.");
    assert "sql." in EntityPrefixes;
    assert FindBrace(s, 1) == Some(6);
    NoHintAfterBrace(s, "{stl:");
    NoHintAfterBrace(s, "{stl.");
    NoHintAfterBrace(s, "{content.");
    NoHintAfterBrace(s, "{channel.");
  }
}
