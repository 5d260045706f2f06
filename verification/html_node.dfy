/** What the parser utility reads from HtmlAgilityPack: the first child of
    the parsed document, with its name, attributes and inner and outer HTML.
    The HTML parser itself is a parameter: `None` stands for a document
    without a first child or for a parse that threw. */
module HtmlNode {
  import opened Wrappers
  import opened Text

  datatype Attribute = Attribute(name: String, value: String)

  datatype Node = Node(name: String, attributes: seq<Attribute>, outerHtml: String, innerHtml: String)

  /** HtmlDocument.LoadHtml followed by DocumentNode.FirstChild. */
  type HtmlParser = String -> Option<Node>

  /** StlElementInfo: the lower-cased name, the attributes in an
      ignore-case collection (keys kept lower-cased), outer and inner HTML. */
  datatype StlElementInfo = StlElementInfo(name: String, attributes: map<String, String>, outerHtml: String, innerHtml: String)

  /** GetInnerHtml(stlElement): the inner HTML of the first child, or the
      empty string when there is none or the parse threw. */
  function GetInnerHtml(parse: HtmlParser, element: String): (r: String)
    ensures parse(element).None? ==> r == []
    ensures parse(element).Some? ==> r == parse(element).value.innerHtml
  {
    match parse(element)
    case Some(node) => node.innerHtml
    case None => []
  }

  /** The attributes assigned one by one into an ignore-case collection:
      every name is present, and a name written more than once keeps the
      value of its last occurrence. */
  function FoldAttributes(attributes: seq<Attribute>): (r: map<String, String>)
    ensures forall key :: key in r <==> exists i :: 0 <= i < |attributes| && Lower(attributes[i].name) == key
    ensures forall i :: 0 <= i < |attributes| && LastOfName(attributes, i) ==>
      Lower(attributes[i].name) in r && r[Lower(attributes[i].name)] == attributes[i].value
    decreases |attributes|
  {
    if attributes == [] then map[]
    else
      var n := |attributes| - 1;
      var init := attributes[..n];
      var prev := FoldAttributes(init);
      var last := attributes[n];
      FoldStep(attributes, prev);
      prev[Lower(last.name) := last.value]
  }

  lemma FoldStep(attributes: seq<Attribute>, prev: map<String, String>)
    requires attributes != []
    requires var init := attributes[..|attributes| - 1];
      && (forall key :: key in prev <==> exists i :: 0 <= i < |init| && Lower(init[i].name) == key)
      && (forall i :: 0 <= i < |init| && LastOfName(init, i) ==> Lower(init[i].name) in prev && prev[Lower(init[i].name)] == init[i].value)
    ensures var last := attributes[|attributes| - 1];
      var r := prev[Lower(last.name) := last.value];
      && (forall key :: key in r <==> exists i :: 0 <= i < |attributes| && Lower(attributes[i].name) == key)
      && (forall i :: 0 <= i < |attributes| && LastOfName(attributes, i) ==> Lower(attributes[i].name) in r && r[Lower(attributes[i].name)] == attributes[i].value)
  {
    var n := |attributes| - 1;
    var init := attributes[..n];
    var last := attributes[n];
    var r := prev[Lower(last.name) := last.value];
    forall key ensures key in r <==> exists i :: 0 <= i < |attributes| && Lower(attributes[i].name) == key {
      if key in r && key != Lower(last.name) {
        var i :| 0 <= i < |init| && Lower(init[i].name) == key;
        assert attributes[i] == init[i];
      }
      if exists i :: 0 <= i < |attributes| && Lower(attributes[i].name) == key {
        var i :| 0 <= i < |attributes| && Lower(attributes[i].name) == key;
        if i < n {
          assert init[i] == attributes[i];
        }
      }
    }
    forall i | 0 <= i < |attributes| && LastOfName(attributes, i)
      ensures Lower(attributes[i].name) in r && r[Lower(attributes[i].name)] == attributes[i].value
    {
      if i < n {
        assert init[i] == attributes[i];
        assert Lower(last.name) != Lower(attributes[i].name);
        forall j | i < j < |init| ensures Lower(init[j].name) != Lower(init[i].name) {
          assert init[j] == attributes[j];
        }
        assert LastOfName(init, i);
      }
    }
  }

  /** No later attribute has the same name up to case. */
  predicate LastOfName(attributes: seq<Attribute>, i: nat)
    requires i < |attributes|
  {
    forall j :: i < j < |attributes| ==> Lower(attributes[j].name) != Lower(attributes[i].name)
  }

  /** ParseStlElement: `None` when the parse gives no first child or threw,
      or when the node's name is empty. */
  function ParseStlElement(parse: HtmlParser, element: String): (r: Option<StlElementInfo>)
    ensures r.Some? <==> parse(element).Some? && parse(element).value.name != []
    ensures r.Some? ==> var node := parse(element).value;
      && r.value.name == Lower(node.name)
      && r.value.outerHtml == node.outerHtml
      && r.value.innerHtml == node.innerHtml
      && r.value.attributes == FoldAttributes(node.attributes)
  {
    match parse(element)
    case None => None
    case Some(node) =>
      var attributes := FoldAttributes(node.attributes);
      if node.name != [] then Some(StlElementInfo(Lower(node.name), attributes, node.outerHtml, node.innerHtml))
      else None
  }

  /** GetInnerHtml and ParseStlElement read the same first child: whenever
      ParseStlElement gives an element, its inner HTML is what GetInnerHtml
      returns. When the parse gives no first child or threw, GetInnerHtml is
      empty and ParseStlElement null; a first child without a name still
      has its inner HTML read by GetInnerHtml, while ParseStlElement gives
      null. */
  lemma InnerHtmlAgrees(parse: HtmlParser, element: String)
    ensures ParseStlElement(parse, element).Some? ==>
      ParseStlElement(parse, element).value.innerHtml == GetInnerHtml(parse, element)
    ensures parse(element).None? ==> GetInnerHtml(parse, element) == [] && ParseStlElement(parse, element).None?
    ensures parse(element).Some? && ParseStlElement(parse, element).None? ==>
      parse(element).value.name == [] && GetInnerHtml(parse, element) == parse(element).value.innerHtml
  {
  }

  /** Reading the ignore-case collection: the key is folded before lookup. */
  function Attr(info: StlElementInfo, key: String): (r: Option<String>)
  {
    if Lower(key) in info.attributes then Some(info.attributes[Lower(key)]) else None
  }

  /** After ParseStlElement, every attribute of the node can be read back
      under its name written in any case, and yields the value of the last
      attribute of that name. */
  lemma ParsedAttributeLookup(parse: HtmlParser, element: String, key: String, i: nat)
    requires ParseStlElement(parse, element).Some?
    requires var node := parse(element).value;
      i < |node.attributes| && Lower(node.attributes[i].name) == Lower(key) && LastOfName(node.attributes, i)
    ensures Attr(ParseStlElement(parse, element).value, key) == Some(parse(element).value.attributes[i].value)
  {
  }

  /** A key that names none of the node's attributes, in any case, reads as
      absent. */
  lemma ParsedAttributeAbsent(parse: HtmlParser, element: String, key: String)
    requires ParseStlElement(parse, element).Some?
    requires var node := parse(element).value;
      forall i :: 0 <= i < |node.attributes| ==> Lower(node.attributes[i].name) != Lower(key)
    ensures Attr(ParseStlElement(parse, element).value, key) == None
  {
  }
}
