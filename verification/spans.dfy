/** Matches as half-open spans of a text, the strings they cover, and the
    text that is left when every match is replaced by the empty string
    (Regex.Replace with ""). */
module Spans {
  import opened Wrappers
  import opened Text

  /** The match `s[start..end]`. */
  datatype Span = Span(start: nat, end: nat)

  /** Non-empty matches inside `s`, in order and without overlap. */
  predicate ValidSpans(s: String, spans: seq<Span>) {
    && (forall k :: 0 <= k < |spans| ==> spans[k].start < spans[k].end <= |s|)
    && (forall j, k :: 0 <= j < k < |spans| ==> spans[j].end <= spans[k].start)
  }

  lemma ValidTail(s: String, spans: seq<Span>)
    requires ValidSpans(s, spans) && spans != []
    ensures ValidSpans(s, spans[1..])
    ensures |spans| > 1 ==> spans[0].end <= spans[1].start
    ensures SpansFrom(s, spans[1..], spans[0].end)
  {
    var t := spans[1..];
    assert forall k :: 0 <= k < |t| ==> t[k] == spans[k + 1];
  }

  /** Position `k` lies inside one of the spans. */
  predicate Covered(spans: seq<Span>, k: int) {
    spans != [] && (spans[0].start <= k < spans[0].end || Covered(spans[1..], k))
  }

  /** Covered, stated with an index. */
  lemma {:induction false} CoveredIndex(spans: seq<Span>, k: int)
    ensures Covered(spans, k) <==> exists j :: 0 <= j < |spans| && spans[j].start <= k < spans[j].end
  {
    if spans != [] {
      CoveredIndex(spans[1..], k);
      if Covered(spans[1..], k) {
        var j :| 0 <= j < |spans[1..]| && spans[1..][j].start <= k < spans[1..][j].end;
        assert spans[j + 1] == spans[1..][j];
      }
      if exists j :: 0 <= j < |spans| && spans[j].start <= k < spans[j].end {
        var j :| 0 <= j < |spans| && spans[j].start <= k < spans[j].end;
        if j > 0 { assert spans[1..][j - 1] == spans[j]; }
      }
    }
  }

  /** `m` maps a position of `s` to the end of the match starting there, if
      any; a match is never empty and stays inside `s`. */
  predicate Advances(s: String, m: nat -> Option<nat>) {
    forall k :: 0 <= k < |s| && m(k).Some? ==> k < m(k).value <= |s|
  }

  /** The scan of Regex.Matches: from position `i`, take the match starting
      at the current position and continue after it, or move on by one
      character when none starts there. The result lists matches, in
      order, and no match starts at a position the result leaves
      uncovered. */
  function LeftmostMatches(s: String, m: nat -> Option<nat>, i: nat): (r: seq<Span>)
    requires i <= |s| && Advances(s, m)
    ensures ValidSpans(s, r)
    ensures forall k :: 0 <= k < |r| ==> i <= r[k].start && m(r[k].start) == Some(r[k].end)
    ensures forall k :: i <= k < |s| && m(k).Some? ==> Covered(r, k)
    decreases |s| - i
  {
    if i == |s| then []
    else
      match m(i)
      case Some(e) =>
        var rest := LeftmostMatches(s, m, e);
        LeftmostStep(s, m, i, e, rest);
        [Span(i, e)] + rest
      case None => LeftmostMatches(s, m, i + 1)
  }

  lemma LeftmostStep(s: String, m: nat -> Option<nat>, i: nat, e: nat, rest: seq<Span>)
    requires i < e <= |s| && m(i) == Some(e)
    requires ValidSpans(s, rest)
    requires forall k :: 0 <= k < |rest| ==> e <= rest[k].start && m(rest[k].start) == Some(rest[k].end)
    requires forall k :: e <= k < |s| && m(k).Some? ==> Covered(rest, k)
    ensures ValidSpans(s, [Span(i, e)] + rest)
    ensures forall k :: 0 <= k < |[Span(i, e)] + rest| ==>
      i <= ([Span(i, e)] + rest)[k].start && m(([Span(i, e)] + rest)[k].start) == Some(([Span(i, e)] + rest)[k].end)
    ensures forall k :: i <= k < |s| && m(k).Some? ==> Covered([Span(i, e)] + rest, k)
  {
    var r := [Span(i, e)] + rest;
    forall k | 0 <= k < |r| ensures r[k].start < r[k].end <= |s| && i <= r[k].start && m(r[k].start) == Some(r[k].end) {
      if k > 0 { assert r[k] == rest[k - 1]; }
    }
    forall j, k | 0 <= j < k < |r| ensures r[j].end <= r[k].start {
      assert r[k] == rest[k - 1];
      if j > 0 { assert r[j] == rest[j - 1]; }
    }
    assert r[1..] == rest;
  }

  /** The positions where a span begins. */
  function Starts(spans: seq<Span>): set<nat> {
    set j | 0 <= j < |spans| :: spans[j].start
  }

  /** The matched strings (MatchCollection values), in order. */
  function Tokens(s: String, spans: seq<Span>): (r: seq<String>)
    requires ValidSpans(s, spans)
    ensures |r| == |spans|
    ensures forall k :: 0 <= k < |spans| ==> r[k] == s[spans[k].start..spans[k].end]
  {
    if spans == [] then []
    else [s[spans[0].start..spans[0].end]] + Tokens(s, spans[1..])
  }

  /** The spans lie inside `s`, in order, at or after `pos`. */
  predicate SpansFrom(s: String, spans: seq<Span>, pos: nat) {
    pos <= |s| && ValidSpans(s, spans) && (spans != [] ==> pos <= spans[0].start)
  }

  /** The pieces of `s[pos..]` between the spans: one more than spans. */
  function Gaps(s: String, spans: seq<Span>, pos: nat): (r: seq<String>)
    requires SpansFrom(s, spans, pos)
    ensures |r| == |spans| + 1
    decreases |spans|
  {
    if spans == [] then [s[pos..]]
    else [s[pos..spans[0].start]] + Gaps(s, spans[1..], spans[0].end)
  }

  function Concat(parts: seq<String>): String {
    if parts == [] then [] else parts[0] + Concat(parts[1..])
  }

  /** Gaps and matches alternately, starting and ending with a gap. */
  function Weave(gaps: seq<String>, tokens: seq<String>): String
    requires |gaps| == |tokens| + 1
  {
    if tokens == [] then gaps[0] else gaps[0] + tokens[0] + Weave(gaps[1..], tokens[1..])
  }

  /** Regex.Replace(s, ""): the text with every matched span deleted. */
  function Strip(s: String, spans: seq<Span>): (r: String)
    requires ValidSpans(s, spans)
  {
    Concat(Gaps(s, spans, 0))
  }

  function TotalLength(spans: seq<Span>): int {
    if spans == [] then 0 else spans[0].end - spans[0].start + TotalLength(spans[1..])
  }

  /** Weaving the gaps back with the matched strings rebuilds the text, so
      the matches and the stripped text together account for every
      character exactly once. */
  lemma {:induction false} WeaveRebuilds(s: String, spans: seq<Span>, pos: nat)
    requires SpansFrom(s, spans, pos)
    ensures Weave(Gaps(s, spans, pos), Tokens(s, spans)) == s[pos..]
    decreases |spans|
  {
    if spans != [] {
      var sp := spans[0];
      ValidTail(s, spans);
      var g := Gaps(s, spans, pos);
      var t := Tokens(s, spans);
      WeaveRebuilds(s, spans[1..], sp.end);
      assert g[1..] == Gaps(s, spans[1..], sp.end);
      assert t[1..] == Tokens(s, spans[1..]);
      assert g[0] == s[pos..sp.start] && t[0] == s[sp.start..sp.end];
      assert Weave(g, t) == g[0] + t[0] + Weave(g[1..], t[1..]);
      assert s[pos..] == s[pos..sp.start] + s[sp.start..sp.end] + s[sp.end..];
    }
  }

  lemma {:induction false} GapsLength(s: String, spans: seq<Span>, pos: nat)
    requires SpansFrom(s, spans, pos)
    ensures |Concat(Gaps(s, spans, pos))| == |s| - pos - TotalLength(spans)
    decreases |spans|
  {
    if spans != [] {
      ValidTail(s, spans);
      GapsLength(s, spans[1..], spans[0].end);
      assert Gaps(s, spans, pos)[1..] == Gaps(s, spans[1..], spans[0].end);
    }
  }

  /** Stripping removes exactly the matched characters. */
  lemma StripLength(s: String, spans: seq<Span>)
    requires ValidSpans(s, spans)
    ensures |Strip(s, spans)| == |s| - TotalLength(spans)
  {
    GapsLength(s, spans, 0);
  }

  /** Without matches the text is unchanged. */
  lemma StripNothing(s: String)
    ensures Strip(s, []) == s
  {
    assert Gaps(s, [], 0) == [s];
    assert Concat([s]) == s + Concat([]);
  }

  /** The scan passes over positions where no match starts. */
  lemma {:induction false} LeftmostSkips(s: String, m: nat -> Option<nat>, k: nat, j: nat)
    requires k <= j <= |s| && Advances(s, m)
    requires forall p :: k <= p < j ==> m(p).None?
    ensures LeftmostMatches(s, m, k) == LeftmostMatches(s, m, j)
    decreases j - k
  {
    if k < j {
      assert m(k).None?;
      LeftmostSkips(s, m, k + 1, j);
    }
  }

  /** Deleting one match keeps the text on both sides of it. */
  lemma StripOne(s: String, a: nat, b: nat)
    requires a < b <= |s|
    ensures Strip(s, [Span(a, b)]) == s[..a] + s[b..]
  {
    var g := Gaps(s, [Span(a, b)], 0);
    assert g == [s[0..a]] + Gaps(s, [], b);
    assert g == [s[0..a], s[b..]];
    assert Concat(g) == s[0..a] + Concat([s[b..]]);
    assert Concat([s[b..]]) == s[b..] + Concat([]);
  }
}
