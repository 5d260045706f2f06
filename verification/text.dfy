/** The string primitives the parser utility leans on: ASCII case folding
    (standing in for ToLower and the ignore-case comparisons), ordinal
    character search, whitespace trimming, `Split` on one character and
    `Replace` of every occurrence by the empty string. */
module Text {

  type String = seq<char>

  // ---------------------------------------------------------------------
  // Case folding

  function LowerChar(c: char): char {
    if 'A' <= c <= 'Z' then (c as int + 32) as char else c
  }

  function Lower(s: String): (r: String)
    ensures |r| == |s|
    ensures forall i :: 0 <= i < |s| ==> r[i] == LowerChar(s[i])
  {
    seq(|s|, i requires 0 <= i < |s| => LowerChar(s[i]))
  }

  lemma LowerSlice(s: String, a: nat, b: nat)
    requires a <= b <= |s|
    ensures Lower(s[a..b]) == Lower(s)[a..b]
  {
  }

  lemma LowerConcat(a: String, b: String)
    ensures Lower(a + b) == Lower(a) + Lower(b)
  {
  }

  /** A string with no upper-case ASCII letter folds to itself. */
  lemma LowerOfLower(s: String)
    requires forall i :: 0 <= i < |s| ==> !('A' <= s[i] <= 'Z')
    ensures Lower(s) == s
  {
  }

  lemma LowerIdempotent(s: String)
    ensures Lower(Lower(s)) == Lower(s)
  {
  }

  predicate StartsWith(s: String, p: String) {
    |p| <= |s| && s[..|p|] == p
  }

  predicate EndsWith(s: String, p: String) {
    |p| <= |s| && s[|s| - |p|..] == p
  }

  predicate StartsWithIgnoreCase(s: String, p: String) {
    StartsWith(Lower(s), Lower(p))
  }

  predicate EndsWithIgnoreCase(s: String, p: String) {
    EndsWith(Lower(s), Lower(p))
  }

  /** Cutting text after a matched prefix keeps the prefix. */
  lemma StartsWithIgnoreCaseCut(s: String, p: String, n: nat)
    requires StartsWithIgnoreCase(s, p) && |p| <= n <= |s|
    ensures StartsWithIgnoreCase(s[..n], p)
  {
    LowerSlice(s, 0, n);
    assert s[0..n] == s[..n];
  }

  lemma StartsWithIgnoreCaseCons(s: String, c: char, p: String)
    requires s != [] && LowerChar(s[0]) == LowerChar(c) && StartsWithIgnoreCase(s[1..], p)
    ensures StartsWithIgnoreCase(s, [c] + p)
  {
    var q := [c] + p;
    assert Lower(q) == [LowerChar(c)] + Lower(p);
    assert Lower(s)[..|q|] == [LowerChar(s[0])] + Lower(s[1..])[..|p|];
  }

  /** A case-insensitive prefix that is already lower case occurs verbatim
      in the lower-cased text. */
  lemma LowerWindow(s: String, a: nat, p: String)
    requires a <= |s| && StartsWithIgnoreCase(s[a..], p) && Lower(p) == p
    ensures OccursAt(Lower(s), p, a)
  {
    LowerSlice(s[a..], 0, |p|);
    assert s[a..][0..|p|] == s[a..a + |p|];
    LowerSlice(s, a, a + |p|);
  }

  /** The converse: a lower-case window of the lower-cased text is a
      case-insensitive prefix of the text from there. */
  lemma WindowLower(s: String, a: nat, p: String)
    requires a <= |s| && OccursAt(Lower(s), p, a) && Lower(p) == p
    ensures StartsWithIgnoreCase(s[a..], p)
  {
    LowerSlice(s, a, a + |p|);
    LowerSlice(s[a..], 0, |p|);
    assert s[a..][0..|p|] == s[a..a + |p|];
  }

  // ---------------------------------------------------------------------
  // Ordinal search

  /** String.IndexOf(char): the first position of `c`, or -1. */
  function IndexOf(s: String, c: char): (r: int)
    ensures -1 <= r < |s|
    ensures r == -1 <==> c !in s
    ensures 0 <= r ==> s[r] == c && c !in s[..r]
  {
    if s == [] then -1
    else if s[0] == c then 0
    else
      var k := IndexOf(s[1..], c);
      if k == -1 then -1
      else
        assert s[..k + 1] == [s[0]] + s[1..][..k];
        k + 1
  }

  /** String.LastIndexOf(char): the last position of `c`, or -1. */
  function LastIndexOf(s: String, c: char): (r: int)
    ensures -1 <= r < |s|
    ensures r == -1 <==> c !in s
    ensures 0 <= r ==> s[r] == c && c !in s[r + 1..]
  {
    if s == [] then -1
    else if s[|s| - 1] == c then |s| - 1
    else
      var k := LastIndexOf(s[..|s| - 1], c);
      assert s == s[..|s| - 1] + [s[|s| - 1]];
      assert 0 <= k ==> s[k + 1..] == s[..|s| - 1][k + 1..] + [s[|s| - 1]];
      k
  }

  /** `t` occurs in `s` at position `k`. */
  predicate OccursAt(s: String, t: String, k: int) {
    0 <= k && k + |t| <= |s| && s[k..k + |t|] == t
  }

  /** String.Contains(string), ordinal. */
  predicate Contains(s: String, t: String)
    decreases |s|
  {
    StartsWith(s, t) || (s != [] && Contains(s[1..], t))
  }

  lemma {:induction false} ContainsIffOccurs(s: String, t: String)
    ensures Contains(s, t) <==> exists k :: OccursAt(s, t, k)
    decreases |s|
  {
    if StartsWith(s, t) {
      assert OccursAt(s, t, 0);
    } else if s == [] {
      forall k | OccursAt(s, t, k) ensures false { }
    } else {
      ContainsIffOccurs(s[1..], t);
      if Contains(s[1..], t) {
        var k :| OccursAt(s[1..], t, k);
        assert s[k + 1..k + 1 + |t|] == s[1..][k..k + |t|];
        assert OccursAt(s, t, k + 1);
      }
      forall k | OccursAt(s, t, k) ensures Contains(s[1..], t) {
        assert s[1..][k - 1..k - 1 + |t|] == s[k..k + |t|];
        assert OccursAt(s[1..], t, k - 1);
      }
    }
  }

  // ---------------------------------------------------------------------
  // Whitespace trimming

  /** The characters String.Trim removes: ASCII blanks and line breaks,
      NEL and NO-BREAK SPACE. */
  predicate IsWhiteSpace(c: char) {
    c == ' ' || ('\t' <= c <= '\r') || c == '\U{0085}' || c == '\U{00A0}'
  }

  predicate AllWhiteSpace(s: String) {
    forall i :: 0 <= i < |s| ==> IsWhiteSpace(s[i])
  }

  function LeadingWhiteSpace(s: String): (n: nat)
    ensures n <= |s|
    ensures AllWhiteSpace(s[..n])
    ensures n == |s| || !IsWhiteSpace(s[n])
  {
    if s != [] && IsWhiteSpace(s[0]) then
      var m := LeadingWhiteSpace(s[1..]);
      assert s[..m + 1] == [s[0]] + s[1..][..m];
      m + 1
    else 0
  }

  function TrailingWhiteSpace(s: String): (n: nat)
    ensures n <= |s|
    ensures AllWhiteSpace(s[|s| - n..])
    ensures n == |s| || !IsWhiteSpace(s[|s| - n - 1])
  {
    if s != [] && IsWhiteSpace(s[|s| - 1]) then
      var init := s[..|s| - 1];
      var m := TrailingWhiteSpace(init);
      assert s[|s| - (m + 1)..] == init[|init| - m..] + [s[|s| - 1]];
      m + 1
    else 0
  }

  /** StringUtils.Trim / String.Trim: drop leading and trailing whitespace. */
  function Trim(s: String): (r: String)
    ensures exists i, j :: 0 <= i <= j <= |s| && r == s[i..j] && AllWhiteSpace(s[..i]) && AllWhiteSpace(s[j..])
    ensures r == [] || (!IsWhiteSpace(r[0]) && !IsWhiteSpace(r[|r| - 1]))
  {
    var i := LeadingWhiteSpace(s);
    var rest := s[i..];
    var n := TrailingWhiteSpace(rest);
    var j := i + |rest| - n;
    var r := rest[..|rest| - n];
    assert r == s[i..j];
    assert s[j..] == rest[|rest| - n..];
    assert AllWhiteSpace(s[..i]) && AllWhiteSpace(s[j..]);
    assert r != [] ==> r[0] == s[i] && r[|r| - 1] == rest[|rest| - n - 1];
    r
  }

  /** Trimming is the identity exactly on strings without surrounding
      whitespace. */
  lemma TrimIdentity(s: String)
    ensures Trim(s) == s <==> (s == [] || (!IsWhiteSpace(s[0]) && !IsWhiteSpace(s[|s| - 1])))
  {
    var r := Trim(s);
    var i, j :| 0 <= i <= j <= |s| && r == s[i..j] && AllWhiteSpace(s[..i]) && AllWhiteSpace(s[j..]);
  }

  lemma TrimIdempotent(s: String)
    ensures Trim(Trim(s)) == Trim(s)
  {
    TrimIdentity(Trim(s));
  }

  /** Trimming yields the empty string exactly for all-whitespace input. */
  lemma TrimEmpty(s: String)
    ensures Trim(s) == [] <==> AllWhiteSpace(s)
  {
    if Trim(s) == [] {
      TrimEmptyAllWhiteSpace(s);
    } else {
      TrimNonEmptyNotWhiteSpace(s);
    }
  }

  lemma TrimEmptyAllWhiteSpace(s: String)
    requires Trim(s) == []
    ensures AllWhiteSpace(s)
  {
    var i, j :| 0 <= i <= j <= |s| && Trim(s) == s[i..j] && AllWhiteSpace(s[..i]) && AllWhiteSpace(s[j..]);
    assert i == j;
    forall k | 0 <= k < |s| ensures IsWhiteSpace(s[k]) {
      if k < i { assert s[..i][k] == s[k]; } else { assert s[j..][k - j] == s[k]; }
    }
  }

  lemma TrimNonEmptyNotWhiteSpace(s: String)
    requires Trim(s) != []
    ensures !AllWhiteSpace(s)
  {
    var i, j :| 0 <= i <= j <= |s| && Trim(s) == s[i..j] && AllWhiteSpace(s[..i]) && AllWhiteSpace(s[j..]);
    assert Trim(s)[0] == s[i] && !IsWhiteSpace(s[i]);
  }

  // ---------------------------------------------------------------------
  // Split on one character

  function Count(s: String, c: char): nat {
    if s == [] then 0 else (if s[0] == c then 1 else 0) + Count(s[1..], c)
  }

  lemma {:induction false} CountZero(s: String, c: char)
    ensures Count(s, c) == 0 <==> c !in s
  {
    if s != [] {
      CountZero(s[1..], c);
      assert s == [s[0]] + s[1..];
    }
  }

  lemma {:induction false} CountConcat(a: String, b: String, c: char)
    ensures Count(a + b, c) == Count(a, c) + Count(b, c)
  {
    if a != [] {
      assert (a + b)[1..] == a[1..] + b;
      CountConcat(a[1..], b, c);
    } else {
      assert a + b == b;
    }
  }

  /** String.Split(char): the pieces between consecutive separators. */
  function Split(s: String, c: char): (parts: seq<String>)
    ensures |parts| >= 1
  {
    if s == [] then [[]]
    else
      var rest := Split(s[1..], c);
      if s[0] == c then [[]] + rest
      else [[s[0]] + rest[0]] + rest[1..]
  }

  /** The inverse of Split: the pieces glued back with the separator. */
  function Join(parts: seq<String>, c: char): String
    requires |parts| >= 1
  {
    if |parts| == 1 then parts[0] else parts[0] + [c] + Join(parts[1..], c)
  }

  /** Split cuts at every separator: one more piece than separators. */
  lemma {:induction false} SplitLength(s: String, c: char)
    ensures |Split(s, c)| == Count(s, c) + 1
  {
    if s != [] {
      SplitLength(s[1..], c);
    }
  }

  /** No piece of a Split contains the separator. */
  lemma {:induction false} SplitPiecesFree(s: String, c: char)
    ensures forall k :: 0 <= k < |Split(s, c)| ==> c !in Split(s, c)[k]
  {
    if s != [] {
      SplitPiecesFree(s[1..], c);
      var rest := Split(s[1..], c);
      if s[0] != c {
        var head := [s[0]] + rest[0];
        assert c !in head;
      }
    }
  }

  /** Joining the pieces of a Split gives back the original string. */
  lemma {:induction false} JoinSplit(s: String, c: char)
    ensures Join(Split(s, c), c) == s
  {
    if s != [] {
      JoinSplit(s[1..], c);
      JoinSplitStep(s, c);
    }
  }

  /** One character in front of a string whose Split joins back. */
  lemma JoinSplitStep(s: String, c: char)
    requires s != [] && Join(Split(s[1..], c), c) == s[1..]
    ensures Join(Split(s, c), c) == s
  {
    var rest := Split(s[1..], c);
    var parts := Split(s, c);
    if s[0] == c {
      assert parts[1..] == rest;
      assert Join(parts, c) == [c] + s[1..];
    } else if |rest| == 1 {
      assert Join(parts, c) == [s[0]] + s[1..];
    } else {
      assert parts[1..] == rest[1..];
      assert Join(parts, c) == [s[0]] + (rest[0] + [c] + Join(rest[1..], c));
    }
  }

  /** Splitting a join of separator-free pieces gives back the pieces. */
  lemma {:induction false} SplitJoin(parts: seq<String>, c: char)
    requires |parts| >= 1
    requires forall k :: 0 <= k < |parts| ==> c !in parts[k]
    ensures Split(Join(parts, c), c) == parts
    decreases |parts|, |parts[0]|
  {
    var p := parts[0];
    if p == [] {
      if |parts| > 1 {
        SplitJoin(parts[1..], c);
        assert Join(parts, c) == [c] + Join(parts[1..], c);
        assert ([c] + Join(parts[1..], c))[1..] == Join(parts[1..], c);
        assert parts == [[]] + parts[1..];
      }
    } else {
      var shorter := [p[1..]] + parts[1..];
      assert shorter[1..] == parts[1..];
      forall k | 0 <= k < |shorter| ensures c !in shorter[k] {
        if k == 0 { assert p == [p[0]] + p[1..]; }
      }
      SplitJoin(shorter, c);
      if |parts| == 1 {
        assert Join(parts, c) == p;
      } else {
        assert Join(parts, c) == [p[0]] + Join(shorter, c);
      }
      assert Join(parts, c)[0] == p[0] && Join(parts, c)[1..] == Join(shorter, c);
      assert p[0] != c;
      assert [p[0]] + p[1..] == p;
    }
  }

  /** With exactly one separator, at position k, Split yields the text before
      and the text after it. */
  lemma SplitOnce(s: String, c: char, k: nat)
    requires k < |s| && s[k] == c && Count(s, c) == 1
    ensures Split(s, c) == [s[..k], s[k + 1..]]
  {
    assert s == s[..k] + [c] + s[k + 1..];
    CountConcat(s[..k] + [c], s[k + 1..], c);
    CountConcat(s[..k], [c], c);
    CountZero(s[..k], c);
    CountZero(s[k + 1..], c);
    var parts := [s[..k], s[k + 1..]];
    assert Join(parts, c) == s;
    SplitJoin(parts, c);
  }

  // ---------------------------------------------------------------------
  // Replace(p, "")

  /** String.Replace(p, ""): every occurrence of `p`, found left to right
      without overlap, is deleted. .NET refuses an empty `p`. */
  function RemoveAll(s: String, p: String): (r: String)
    requires p != []
    ensures |r| <= |s|
    decreases |s|
  {
    if |s| < |p| then s
    else if s[..|p|] == p then RemoveAll(s[|p|..], p)
    else [s[0]] + RemoveAll(s[1..], p)
  }

  /** Without an occurrence of `p` nothing is removed. */
  lemma {:induction false} RemoveAllAbsent(s: String, p: String)
    requires p != []
    requires forall k :: !OccursAt(s, p, k)
    ensures RemoveAll(s, p) == s
    decreases |s|
  {
    if |s| >= |p| {
      assert !OccursAt(s, p, 0);
      assert s[..|p|] == s[0..0 + |p|];
      forall k ensures !OccursAt(s[1..], p, k) {
        if OccursAt(s[1..], p, k) {
          assert s[1..][k..k + |p|] == s[k + 1..k + 1 + |p|];
          assert OccursAt(s, p, k + 1);
        }
      }
      RemoveAllAbsent(s[1..], p);
    }
  }

  /** A prefix in which no occurrence of `p` starts is kept as it is. */
  lemma {:induction false} RemoveAllKeepsPrefix(a: String, b: String, p: String)
    requires p != []
    requires forall k :: 0 <= k < |a| ==> !OccursAt(a + b, p, k)
    ensures RemoveAll(a + b, p) == a + RemoveAll(b, p)
    decreases |a|
  {
    if a != [] {
      var s := a + b;
      assert !OccursAt(s, p, 0);
      if |s| >= |p| {
        RemoveAllHead(s, p);
        assert s[1..] == a[1..] + b;
        NoOccurrenceInTail(a, b, p);
        RemoveAllKeepsPrefix(a[1..], b, p);
        assert a == [a[0]] + a[1..];
      } else {
        assert RemoveAll(b, p) == b;
      }
    } else {
      assert a + b == b;
    }
  }

  lemma RemoveAllHead(s: String, p: String)
    requires p != [] && |s| >= |p| && !OccursAt(s, p, 0)
    ensures RemoveAll(s, p) == [s[0]] + RemoveAll(s[1..], p)
  {
    assert s[..|p|] == s[0..0 + |p|];
  }

  lemma NoOccurrenceInTail(a: String, b: String, p: String)
    requires a != []
    requires forall k :: 0 <= k < |a| ==> !OccursAt(a + b, p, k)
    ensures forall k :: 0 <= k < |a[1..]| ==> !OccursAt(a[1..] + b, p, k)
  {
    var s := a + b;
    forall k | 0 <= k < |a[1..]| ensures !OccursAt(a[1..] + b, p, k) {
      if OccursAt(a[1..] + b, p, k) {
        assert s[k + 1..k + 1 + |p|] == (a[1..] + b)[k..k + |p|];
        assert OccursAt(s, p, k + 1);
      }
    }
  }

  /** When `p` occurs exactly once, at the end of `a`, Replace removes just
      that occurrence: the text is `a + b`. */
  lemma RemoveAllSingle(a: String, p: String, b: String)
    requires p != []
    requires forall k :: k != |a| ==> !OccursAt(a + p + b, p, k)
    ensures RemoveAll(a + p + b, p) == a + b
  {
    var s := a + p + b;
    assert s == a + (p + b);
    forall k | 0 <= k < |a| ensures !OccursAt(a + (p + b), p, k) { }
    RemoveAllKeepsPrefix(a, p + b, p);
    assert (p + b)[..|p|] == p && (p + b)[|p|..] == b;
    forall k ensures !OccursAt(b, p, k) {
      if OccursAt(b, p, k) {
        assert s[|a| + |p| + k..|a| + |p| + k + |p|] == b[k..k + |p|];
        assert OccursAt(s, p, |a| + |p| + k);
      }
    }
    RemoveAllAbsent(b, p);
  }

  /** When `p` occurs, Replace removes at least its length. */
  lemma {:induction false} RemoveAllShrinks(s: String, p: String, k: int)
    requires p != [] && OccursAt(s, p, k)
    ensures |RemoveAll(s, p)| <= |s| - |p|
    decreases |s|
  {
    if s[..|p|] == p {
    } else {
      assert s[1..][k - 1..k - 1 + |p|] == s[k..k + |p|];
      RemoveAllShrinks(s[1..], p, k - 1);
    }
  }
}
