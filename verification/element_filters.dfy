/** The tag-string filters applied to the element list: IsSpecifiedStlElement,
    IsStlElementExists and GetStlElement. All compare without regard to
    ASCII case. */
module ElementFilters {
  import opened Wrappers
  import opened Text

  /** The label opens the element `name`: it starts, in any case, with
      `<name ` or `<name>`. */
  predicate OpensAs(tag: String, name: String) {
    StartsWithIgnoreCase(tag, "<" + name + " ") || StartsWithIgnoreCase(tag, "<" + name + ">")
  }

  /** The label ends, in any case, with `</name>` or `/>`. */
  predicate ClosesAs(tag: String, name: String) {
    EndsWithIgnoreCase(tag, "</" + name + ">") || EndsWithIgnoreCase(tag, "/>")
  }

  /** The characters of an opened tag: `<`, the name in any case, then a
      space or `>`. */
  lemma OpensAsShape(tag: String, name: String)
    requires OpensAs(tag, name)
    ensures |tag| >= |name| + 2 && tag[0] == '<'
    ensures Lower(tag[1..|name| + 1]) == Lower(name)
    ensures tag[|name| + 1] == ' ' || LowerChar(tag[|name| + 1]) == '>'
  {
    var d := if StartsWithIgnoreCase(tag, "<" + name + " ") then ' ' else '>';
    var p := "<" + name + [d];
    assert StartsWithIgnoreCase(tag, p);
    LowerConcat("<", name + [d]);
    LowerConcat(name, [d]);
    assert Lower(tag)[0] == Lower(p)[0] == '<';
    forall k | 1 <= k < |name| + 1 ensures LowerChar(tag[k]) == LowerChar(name[k - 1]) {
      assert Lower(tag)[k] == Lower(p)[k] && p[k] == name[k - 1];
    }
    assert Lower(tag)[|name| + 1] == Lower(p)[|name| + 1];
  }

  /** IsSpecifiedStlElement: false for null; otherwise the element both opens
      and closes as `name`. A specified element is `<`, the name in any case,
      a space or `>`, ..., `>`. */
  function IsSpecifiedStlElement(element: Option<String>, name: String): (r: bool)
    ensures element.None? ==> !r
    ensures r ==> var e := element.value;
      && |e| >= |name| + 2 && e[0] == '<' && e[|e| - 1] == '>'
      && Lower(e[1..|name| + 1]) == Lower(name)
      && (e[|name| + 1] == ' ' || e[|name| + 1] == '>')
  {
    if element.Some? && OpensAs(element.value, name) && ClosesAs(element.value, name) then
      SpecifiedShape(element.value, name);
      true
    else false
  }

  /** An element that opens and closes as `name` is `<`, the name, a space
      or `>`, ..., `>`. */
  lemma SpecifiedShape(element: String, name: String)
    requires OpensAs(element, name) && ClosesAs(element, name)
    ensures |element| >= |name| + 2 && element[0] == '<' && element[|element| - 1] == '>'
    ensures Lower(element[1..|name| + 1]) == Lower(name)
    ensures element[|name| + 1] == ' ' || element[|name| + 1] == '>'
  {
    OpensAsShape(element, name);
    var q := if EndsWithIgnoreCase(element, "/>") then "/>" else "</" + name + ">";
    assert EndsWithIgnoreCase(element, q);
    assert Lower(q)[|q| - 1] == '>';
    assert Lower(element)[|element| - 1] == Lower(q)[|q| - 1];
  }

  /** Every element built the way the template language writes one, with
      attribute text and a body, is specified for its name. */
  lemma SpecifiedOfBuilt(name: String, attributes: String, body: String)
    ensures IsSpecifiedStlElement(Some("<" + name + " " + attributes + ">" + body + "</" + name + ">"), name)
  {
    var open := "<" + name + " ";
    var close := "</" + name + ">";
    var e := open + attributes + ">" + body + close;
    assert e == open + (attributes + ">" + body + close);
    LowerConcat(open, attributes + ">" + body + close);
    assert e == (open + attributes + ">" + body) + close;
    LowerConcat(open + attributes + ">" + body, close);
  }

  /** A name made of characters other than space and `>` is determined, up to
      case, by any element specified for it. */
  lemma SpecifiedNameUnique(element: String, n: String, m: String)
    requires forall k :: 0 <= k < |n| ==> n[k] != ' ' && n[k] != '>'
    requires forall k :: 0 <= k < |m| ==> m[k] != ' ' && m[k] != '>'
    requires OpensAs(element, n) && OpensAs(element, m)
    ensures Lower(n) == Lower(m)
  {
    OpensAsShape(element, n);
    OpensAsShape(element, m);
  }

  /** Upper or lower case in the element or in the name does not matter. */
  lemma SpecifiedIgnoresCase(element: String, name: String)
    ensures IsSpecifiedStlElement(Some(element), name) == IsSpecifiedStlElement(Some(Lower(element)), Lower(name))
  {
    LowerIdempotent(element);
    LowerConcat("<", name);
    LowerConcat("<", Lower(name));
    LowerIdempotent(name);
    LowerConcat("<" + name, " ");
    LowerConcat("<" + Lower(name), " ");
    LowerConcat("<" + name, ">");
    LowerConcat("<" + Lower(name), ">");
    LowerConcat("</", name);
    LowerConcat("</", Lower(name));
    LowerConcat("</" + name, ">");
    LowerConcat("</" + Lower(name), ">");
  }

  /** IsStlElementExists: some tag of the list opens as `name`. */
  function IsStlElementExists(name: String, list: seq<String>): (r: bool)
    ensures r <==> exists i :: 0 <= i < |list| && OpensAs(list[i], name)
  {
    if list == [] then false
    else if OpensAs(list[0], name) then true
    else
      var rest := IsStlElementExists(name, list[1..]);
      assert forall i :: 0 < i < |list| ==> list[i] == list[1..][i - 1];
      rest
  }

  /** The position of the first tag that opens as `name`, or -1. */
  function FirstOpening(name: String, list: seq<String>): (r: int)
    ensures -1 <= r < |list|
    ensures r == -1 <==> forall i :: 0 <= i < |list| ==> !OpensAs(list[i], name)
    ensures 0 <= r ==> OpensAs(list[r], name) && forall i :: 0 <= i < r ==> !OpensAs(list[i], name)
  {
    if list == [] then -1
    else if OpensAs(list[0], name) then 0
    else
      var k := FirstOpening(name, list[1..]);
      assert forall i :: 0 < i < |list| ==> list[i] == list[1..][i - 1];
      if k == -1 then -1 else k + 1
  }

  /** GetStlElement: the first tag that opens as `name`, or the empty
      string when there is none. */
  function GetStlElement(name: String, list: seq<String>): (r: String)
    ensures (forall i :: 0 <= i < |list| ==> !OpensAs(list[i], name)) ==> r == []
    ensures forall i :: 0 <= i < |list| && OpensAs(list[i], name) && (forall j :: 0 <= j < i ==> !OpensAs(list[j], name)) ==> r == list[i]
  {
    var k := FirstOpening(name, list);
    if k == -1 then [] else list[k]
  }

  /** GetStlElement finds something exactly when IsStlElementExists holds. */
  lemma GetStlElementFindsExisting(name: String, list: seq<String>)
    ensures GetStlElement(name, list) != [] <==> IsStlElementExists(name, list)
  {
    var k := FirstOpening(name, list);
    if k != -1 {
      OpensAsShape(list[k], name);
    }
  }
}
