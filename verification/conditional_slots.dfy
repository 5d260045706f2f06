/** The conditional-slot extractors: GetLoading, GetYesNo, GetLoadingYesNo
    and GetStlElements. Each walks the element list of its input in order;
    an element specified for a slot's names overwrites that slot with its
    inner HTML, so the last such element wins. The `else if` chains of the
    source give earlier slots priority: an element that is both a loading
    and a yes element fills only the loading slot. */
module ConditionalSlots {
  import opened Wrappers
  import opened Text
  import opened HtmlNode
  import opened ElementFilters
  import ElementMatcher

  /** The element names of the loading, yes and no slots (StlLoading,
      StlYes and StlNo with their second names). */
  datatype Aliases = Aliases(loading: String, yes: String, yes2: String, no: String, no2: String)

  function LoadingNames(a: Aliases): seq<String> { [a.loading] }
  function YesNames(a: Aliases): seq<String> { [a.yes, a.yes2] }
  function NoNames(a: Aliases): seq<String> { [a.no, a.no2] }

  /** The element is specified for one of the names. */
  predicate AnyOf(e: String, names: seq<String>) {
    exists n :: n in names && IsSpecifiedStlElement(Some(e), n)
  }

  /** The element fills the slot of `wanted` in a chain where the slots of
      `excluded` are tested first. */
  predicate Selects(e: String, wanted: seq<String>, excluded: seq<String>) {
    AnyOf(e, wanted) && !AnyOf(e, excluded)
  }

  /** The position of the last element of `list` that `sel` holds for, or
      -1 when there is none. */
  function LastWhere(list: seq<String>, sel: String -> bool): (r: int)
    ensures -1 <= r < |list|
    ensures r == -1 <==> forall i :: 0 <= i < |list| ==> !sel(list[i])
    ensures 0 <= r ==> sel(list[r])
    ensures 0 <= r ==> forall i :: r < i < |list| ==> !sel(list[i])
  {
    if list == [] then -1
    else if sel(list[|list| - 1]) then |list| - 1
    else
      var k := LastWhere(list[..|list| - 1], sel);
      assert forall i :: 0 <= i < |list| - 1 ==> list[..|list| - 1][i] == list[i];
      k
  }

  /** The position of the last element the slot takes, or -1. */
  function LastPick(list: seq<String>, wanted: seq<String>, excluded: seq<String>): (r: int)
    ensures -1 <= r < |list|
    ensures r == -1 <==> forall i :: 0 <= i < |list| ==> !Selects(list[i], wanted, excluded)
    ensures 0 <= r ==> Selects(list[r], wanted, excluded)
    ensures 0 <= r ==> forall i :: r < i < |list| ==> !Selects(list[i], wanted, excluded)
  {
    LastWhere(list, e => Selects(e, wanted, excluded))
  }

  /** What the slot holds after the walk: the inner HTML of the last element
      it takes, or the empty string. */
  function Slot(parse: HtmlParser, list: seq<String>, wanted: seq<String>, excluded: seq<String>): String
  {
    var i := LastPick(list, wanted, excluded);
    if i < 0 then [] else GetInnerHtml(parse, list[i])
  }

  /** The last pick after one more element: that element when the slot
      takes it, the earlier pick otherwise. */
  lemma LastPickStep(list: seq<String>, wanted: seq<String>, excluded: seq<String>)
    requires list != []
    ensures LastPick(list, wanted, excluded) ==
      if Selects(list[|list| - 1], wanted, excluded) then |list| - 1
      else LastPick(list[..|list| - 1], wanted, excluded)
  {
  }

  /** The slot after one more element: that element's inner HTML when the
      slot takes it, the earlier value otherwise. */
  lemma SlotStep(parse: HtmlParser, list: seq<String>, wanted: seq<String>, excluded: seq<String>)
    requires list != []
    ensures Slot(parse, list, wanted, excluded) ==
      if Selects(list[|list| - 1], wanted, excluded) then GetInnerHtml(parse, list[|list| - 1])
      else Slot(parse, list[..|list| - 1], wanted, excluded)
  {
  }

  /** The tests of the source's `if` chains. */
  predicate IsLoading(a: Aliases, e: String) {
    IsSpecifiedStlElement(Some(e), a.loading)
  }

  predicate IsYes(a: Aliases, e: String) {
    IsSpecifiedStlElement(Some(e), a.yes) || IsSpecifiedStlElement(Some(e), a.yes2)
  }

  predicate IsNo(a: Aliases, e: String) {
    IsSpecifiedStlElement(Some(e), a.no) || IsSpecifiedStlElement(Some(e), a.no2)
  }

  /** The slot tests in terms of the alias lists. */
  lemma AliasSelects(a: Aliases, e: String)
    ensures Selects(e, LoadingNames(a), []) == IsLoading(a, e)
    ensures Selects(e, YesNames(a), []) == IsYes(a, e)
    ensures Selects(e, NoNames(a), YesNames(a)) == (IsNo(a, e) && !IsYes(a, e))
    ensures Selects(e, YesNames(a), LoadingNames(a)) == (IsYes(a, e) && !IsLoading(a, e))
    ensures Selects(e, NoNames(a), LoadingNames(a) + YesNames(a)) == (IsNo(a, e) && !IsYes(a, e) && !IsLoading(a, e))
  {
    assert LoadingNames(a) + YesNames(a) == [a.loading, a.yes, a.yes2];
  }

  /** The elements found in a text are never empty. */
  lemma ElementsNonEmpty(s: String)
    ensures forall k :: 0 <= k < |ElementMatcher.GetStlElementList(s)| ==> ElementMatcher.GetStlElementList(s)[k] != []
  {
    var list := ElementMatcher.GetStlElementList(s);
    forall k | 0 <= k < |list| ensures list[k] != [] {
      assert |Lower(ElementMatcher.OpenPrefix)| == 5;
    }
  }

  // ---------------------------------------------------------------------
  // GetLoading

  datatype LoadingTemplate = LoadingTemplate(loading: String, template: String)

  /** The loop of GetLoading: a loading element sets `loading` to its inner
      HTML and `template` to the input with every copy of the element
      removed. */
  function LoadingScan(parse: HtmlParser, a: Aliases, input: String, list: seq<String>): (r: LoadingTemplate)
    requires forall k :: 0 <= k < |list| ==> list[k] != []
    ensures var i := LastPick(list, LoadingNames(a), []);
      && (i < 0 ==> r == LoadingTemplate([], []))
      && (0 <= i ==> r == LoadingTemplate(GetInnerHtml(parse, list[i]), RemoveAll(input, list[i])))
    decreases |list|
  {
    if list == [] then LoadingTemplate([], [])
    else
      var n := |list| - 1;
      assert forall k :: 0 <= k < n ==> list[..n][k] == list[k];
      var prev := LoadingScan(parse, a, input, list[..n]);
      var e := list[n];
      AliasSelects(a, e);
      LastPickStep(list, LoadingNames(a), []);
      if IsLoading(a, e) then LoadingTemplate(GetInnerHtml(parse, e), RemoveAll(input, e))
      else prev
  }

  /** GetLoading: empty input gives two empty strings; otherwise `loading` is
      the inner HTML of the last loading element and `template` the input
      without that element; when both are empty the template is the whole
      input; both come out trimmed. */
  function GetLoading(parse: HtmlParser, a: Aliases, innerHtml: String): (r: LoadingTemplate)
    ensures innerHtml == [] ==> r == LoadingTemplate([], [])
    ensures innerHtml != [] ==>
      var list := ElementMatcher.GetStlElementList(innerHtml);
      var i := LastPick(list, LoadingNames(a), []);
      var loading := if i < 0 then [] else GetInnerHtml(parse, list[i]);
      var template := if i < 0 then [] else RemoveAll(innerHtml, list[i]);
      && r.loading == Trim(loading)
      && r.template == Trim(if loading == [] && template == [] then innerHtml else template)
  {
    if innerHtml == [] then LoadingTemplate([], [])
    else
      var list := ElementMatcher.GetStlElementList(innerHtml);
      ElementsNonEmpty(innerHtml);
      var scan := LoadingScan(parse, a, innerHtml, list);
      var template := if scan.loading == [] && scan.template == [] then innerHtml else scan.template;
      LoadingTemplate(Trim(scan.loading), Trim(template))
  }

  /** When the last loading element occurs once in the input, the template
      is the text around it, trimmed. */
  lemma LoadingTemplateIsTheRest(parse: HtmlParser, a: Aliases, before: String, e: String, after: String)
    requires var innerHtml := before + e + after;
      var list := ElementMatcher.GetStlElementList(innerHtml);
      var i := LastPick(list, LoadingNames(a), []);
      0 <= i && list[i] == e
    requires forall k :: k != |before| ==> !OccursAt(before + e + after, e, k)
    requires before + after != []
    ensures GetLoading(parse, a, before + e + after).template == Trim(before + after)
  {
    var innerHtml := before + e + after;
    ElementsNonEmpty(innerHtml);
    RemoveAllSingle(before, e, after);
  }

  // ---------------------------------------------------------------------
  // GetYesNo and GetLoadingYesNo

  datatype YesNo = YesNo(yes: String, no: String)

  datatype LoadingYesNo = LoadingYesNo(loading: String, yes: String, no: String)

  /** The loop of GetYesNo: a yes element sets `yes`; otherwise a no element
      sets `no`. */
  function YesNoScan(parse: HtmlParser, a: Aliases, list: seq<String>): (r: YesNo)
    ensures r.yes == Slot(parse, list, YesNames(a), [])
    ensures r.no == Slot(parse, list, NoNames(a), YesNames(a))
    decreases |list|
  {
    if list == [] then YesNo([], [])
    else
      var n := |list| - 1;
      var prev := YesNoScan(parse, a, list[..n]);
      var e := list[n];
      var inner := GetInnerHtml(parse, e);
      AliasSelects(a, e);
      SlotStep(parse, list, YesNames(a), []);
      SlotStep(parse, list, NoNames(a), YesNames(a));
      if IsYes(a, e) then prev.(yes := inner)
      else if IsNo(a, e) then prev.(no := inner)
      else prev
  }

  /** GetYesNo: empty input gives two empty strings; otherwise each slot is
      the inner HTML of its last element (a yes element never counts as a
      no element); when both are empty `yes` is the whole input; both come
      out trimmed. */
  function GetYesNo(parse: HtmlParser, a: Aliases, innerHtml: String): (r: YesNo)
    ensures innerHtml == [] ==> r == YesNo([], [])
    ensures innerHtml != [] ==>
      var list := ElementMatcher.GetStlElementList(innerHtml);
      var yes := Slot(parse, list, YesNames(a), []);
      var no := Slot(parse, list, NoNames(a), YesNames(a));
      && r.yes == Trim(if yes == [] && no == [] then innerHtml else yes)
      && r.no == Trim(no)
  {
    if innerHtml == [] then YesNo([], [])
    else
      var scan := YesNoScan(parse, a, ElementMatcher.GetStlElementList(innerHtml));
      var yes := if scan.yes == [] && scan.no == [] then innerHtml else scan.yes;
      YesNo(Trim(yes), Trim(scan.no))
  }

  /** The loop of GetLoadingYesNo: loading first, then yes, then no. */
  function LoadingYesNoScan(parse: HtmlParser, a: Aliases, list: seq<String>): (r: LoadingYesNo)
    ensures r.loading == Slot(parse, list, LoadingNames(a), [])
    ensures r.yes == Slot(parse, list, YesNames(a), LoadingNames(a))
    ensures r.no == Slot(parse, list, NoNames(a), LoadingNames(a) + YesNames(a))
    decreases |list|
  {
    if list == [] then LoadingYesNo([], [], [])
    else
      var n := |list| - 1;
      var prev := LoadingYesNoScan(parse, a, list[..n]);
      var e := list[n];
      var inner := GetInnerHtml(parse, e);
      AliasSelects(a, e);
      SlotStep(parse, list, LoadingNames(a), []);
      SlotStep(parse, list, YesNames(a), LoadingNames(a));
      SlotStep(parse, list, NoNames(a), LoadingNames(a) + YesNames(a));
      if IsLoading(a, e) then prev.(loading := inner)
      else if IsYes(a, e) then prev.(yes := inner)
      else if IsNo(a, e) then prev.(no := inner)
      else prev
  }

  /** GetLoadingYesNo: empty input gives three empty strings; otherwise each
      slot is the inner HTML of its last element under the loading, yes, no
      priority; when all three are empty `yes` is the whole input; all come
      out trimmed. */
  function GetLoadingYesNo(parse: HtmlParser, a: Aliases, innerHtml: String): (r: LoadingYesNo)
    ensures innerHtml == [] ==> r == LoadingYesNo([], [], [])
    ensures innerHtml != [] ==>
      var list := ElementMatcher.GetStlElementList(innerHtml);
      var loading := Slot(parse, list, LoadingNames(a), []);
      var yes := Slot(parse, list, YesNames(a), LoadingNames(a));
      var no := Slot(parse, list, NoNames(a), LoadingNames(a) + YesNames(a));
      && r.loading == Trim(loading)
      && r.yes == Trim(if loading == [] && yes == [] && no == [] then innerHtml else yes)
      && r.no == Trim(no)
  {
    if innerHtml == [] then LoadingYesNo([], [], [])
    else
      var scan := LoadingYesNoScan(parse, a, ElementMatcher.GetStlElementList(innerHtml));
      var yes := if scan.loading == [] && scan.yes == [] && scan.no == [] then innerHtml else scan.yes;
      LoadingYesNo(Trim(scan.loading), Trim(yes), Trim(scan.no))
  }

  /** Excluding names no element is specified for changes no pick. */
  lemma {:induction false} LastPickIgnoresAbsent(list: seq<String>, wanted: seq<String>, excluded: seq<String>, extra: seq<String>)
    requires forall i :: 0 <= i < |list| ==> !AnyOf(list[i], extra)
    ensures LastPick(list, wanted, extra + excluded) == LastPick(list, wanted, excluded)
    decreases |list|
  {
    if list != [] {
      var e := list[|list| - 1];
      assert !AnyOf(e, extra);
      assert AnyOf(e, extra + excluded) == AnyOf(e, excluded);
      LastPickIgnoresAbsent(list[..|list| - 1], wanted, excluded, extra);
    }
  }

  /** Without loading elements the loading slot stays empty and the yes
      and no slots are those of the two-slot walk. */
  lemma SlotsWithoutLoading(parse: HtmlParser, a: Aliases, list: seq<String>)
    requires forall i :: 0 <= i < |list| ==> !AnyOf(list[i], LoadingNames(a))
    ensures Slot(parse, list, LoadingNames(a), []) == []
    ensures Slot(parse, list, YesNames(a), LoadingNames(a)) == Slot(parse, list, YesNames(a), [])
    ensures Slot(parse, list, NoNames(a), LoadingNames(a) + YesNames(a)) == Slot(parse, list, NoNames(a), YesNames(a))
  {
    NoLoadingPick(a, list);
    LastPickIgnoresAbsent(list, YesNames(a), [], LoadingNames(a));
    LastPickIgnoresAbsent(list, NoNames(a), YesNames(a), LoadingNames(a));
    assert LoadingNames(a) + [] == LoadingNames(a);
  }

  lemma NoLoadingPick(a: Aliases, list: seq<String>)
    requires forall i :: 0 <= i < |list| ==> !AnyOf(list[i], LoadingNames(a))
    ensures LastPick(list, LoadingNames(a), []) == -1
  {
  }

  /** Without loading elements, GetLoadingYesNo agrees with GetYesNo and
      leaves `loading` empty. */
  lemma LoadingYesNoWithoutLoading(parse: HtmlParser, a: Aliases, innerHtml: String)
    requires forall i :: 0 <= i < |ElementMatcher.GetStlElementList(innerHtml)| ==>
      !AnyOf(ElementMatcher.GetStlElementList(innerHtml)[i], LoadingNames(a))
    ensures GetLoadingYesNo(parse, a, innerHtml).loading == []
    ensures GetLoadingYesNo(parse, a, innerHtml).yes == GetYesNo(parse, a, innerHtml).yes
    ensures GetLoadingYesNo(parse, a, innerHtml).no == GetYesNo(parse, a, innerHtml).no
  {
    if innerHtml != [] {
      var list := ElementMatcher.GetStlElementList(innerHtml);
      SlotsWithoutLoading(parse, a, list);
      var yes := Slot(parse, list, YesNames(a), []);
      var no := Slot(parse, list, NoNames(a), YesNames(a));
      TrimIdentity([]);
      assert GetLoadingYesNo(parse, a, innerHtml) == LoadingYesNo([], Trim(if yes == [] && no == [] then innerHtml else yes), Trim(no));
      assert GetYesNo(parse, a, innerHtml) == YesNo(Trim(if yes == [] && no == [] then innerHtml else yes), Trim(no));
    }
  }

  /** The outputs are already trimmed. */
  lemma YesNoTrimmed(parse: HtmlParser, a: Aliases, innerHtml: String)
    ensures Trim(GetYesNo(parse, a, innerHtml).yes) == GetYesNo(parse, a, innerHtml).yes
    ensures Trim(GetYesNo(parse, a, innerHtml).no) == GetYesNo(parse, a, innerHtml).no
  {
    if innerHtml == [] {
      TrimIdentity([]);
    } else {
      var list := ElementMatcher.GetStlElementList(innerHtml);
      var yes := Slot(parse, list, YesNames(a), []);
      var no := Slot(parse, list, NoNames(a), YesNames(a));
      TrimIdempotent(if yes == [] && no == [] then innerHtml else yes);
      TrimIdempotent(no);
    }
  }

  // ---------------------------------------------------------------------
  // GetStlElements

  /** The inner loop of GetStlElements over the names for one element; the
      names are already keys. */
  function AssignNames(parse: HtmlParser, e: String, names: seq<String>, dic: map<String, String>): (r: map<String, String>)
    requires forall k :: 0 <= k < |names| ==> names[k] in dic
    ensures r.Keys == dic.Keys
    ensures forall n :: n in r ==>
      r[n] == if n in names && IsSpecifiedStlElement(Some(e), n) then GetInnerHtml(parse, e) else dic[n]
    decreases |names|
  {
    if names == [] then dic
    else
      var n := names[0];
      var next := if IsSpecifiedStlElement(Some(e), n) then dic[n := GetInnerHtml(parse, e)] else dic;
      assert names == [n] + names[1..];
      assert forall m :: m in names <==> m == n || m in names[1..];
      AssignNames(parse, e, names[1..], next)
  }

  /** The outer loop of GetStlElements, over the elements. */
  function ElementsScan(parse: HtmlParser, list: seq<String>, names: seq<String>): (r: map<String, String>)
    ensures r.Keys == set m | m in names
    ensures forall n :: n in names ==> r[n] == Slot(parse, list, [n], [])
    decreases |list|
  {
    if list == [] then
      map m | m in names :: []
    else
      var n := |list| - 1;
      var prev := ElementsScan(parse, list[..n], names);
      var e := list[n];
      var r := AssignNames(parse, e, names, prev);
      assert r.Keys == prev.Keys;
      forall m | m in names ensures r[m] == Slot(parse, list, [m], []) {
        assert r[m] == if IsSpecifiedStlElement(Some(e), m) then GetInnerHtml(parse, e) else prev[m];
        SlotStep(parse, list, [m], []);
        assert Selects(e, [m], []) <==> IsSpecifiedStlElement(Some(e), m);
      }
      r
  }

  /** GetStlElements: one key per requested name; each maps to the inner
      HTML of the last element specified for it, or to the empty string,
      which is also every value for empty input. */
  function GetStlElements(parse: HtmlParser, innerHtml: String, names: seq<String>): (r: map<String, String>)
    ensures r.Keys == set m | m in names
    ensures innerHtml == [] ==> forall n :: n in names ==> r[n] == []
    ensures innerHtml != [] ==> forall n :: n in names ==>
      r[n] == Slot(parse, ElementMatcher.GetStlElementList(innerHtml), [n], [])
  {
    if innerHtml == [] then map m | m in names :: []
    else ElementsScan(parse, ElementMatcher.GetStlElementList(innerHtml), names)
  }

  /** Asking GetStlElements for the loading name finds the same element
      GetLoading takes: its loading output is that value, trimmed. */
  lemma ElementsAgreeWithLoading(parse: HtmlParser, a: Aliases, innerHtml: String)
    ensures a.loading in GetStlElements(parse, innerHtml, [a.loading])
    ensures Trim(GetStlElements(parse, innerHtml, [a.loading])[a.loading]) == GetLoading(parse, a, innerHtml).loading
  {
    assert a.loading in [a.loading];
    if innerHtml == [] {
      TrimIdentity([]);
    } else {
      var list := ElementMatcher.GetStlElementList(innerHtml);
      assert GetStlElements(parse, innerHtml, [a.loading])[a.loading] == Slot(parse, list, LoadingNames(a), []);
      assert GetLoading(parse, a, innerHtml).loading == Trim(Slot(parse, list, LoadingNames(a), []));
    }
  }
}
