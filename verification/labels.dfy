/** GetStlLabelList: every label of a template, the elements first and the
    entities of the element-free remainder after them. */
module Labels {
  import opened Text
  import ElementMatcher
  import EntityMatcher

  function GetStlLabelList(templateContent: String): (r: seq<String>)
    ensures var elements := ElementMatcher.GetStlElementList(templateContent);
      && |r| == |elements| + |EntityMatcher.GetStlEntityList(templateContent)|
      && r[..|elements|] == elements
      && r[|elements|..] == EntityMatcher.GetStlEntityList(templateContent)
    ensures var n := |ElementMatcher.GetStlElementList(templateContent)|;
      && (forall k :: 0 <= k < n ==> StartsWithIgnoreCase(r[k], ElementMatcher.OpenPrefix))
      && (forall k :: n <= k < |r| ==> EntityMatcher.IsEntityToken(r[k]))
  {
    var elements := ElementMatcher.GetStlElementList(templateContent);
    var entities := EntityMatcher.GetStlEntityList(templateContent);
    var r := elements + entities;
    forall k | |elements| <= k < |r| ensures EntityMatcher.IsEntityToken(r[k]) {
      assert r[k] == entities[k - |elements|];
    }
    forall k | 0 <= k < |elements| ensures StartsWithIgnoreCase(r[k], ElementMatcher.OpenPrefix) {
      assert r[k] == elements[k];
    }
    r
  }

  /** An element label starts with `<`, an entity label with `{`: the two
      parts of the list never mix. */
  lemma LabelKinds(templateContent: String, k: nat)
    requires k < |GetStlLabelList(templateContent)|
    ensures GetStlLabelList(templateContent)[k][0] == '<' <==> k < |ElementMatcher.GetStlElementList(templateContent)|
  {
    var r := GetStlLabelList(templateContent);
    if k < |ElementMatcher.GetStlElementList(templateContent)| {
      assert Lower(r[k])[0] == Lower(ElementMatcher.OpenPrefix)[0];
    }
  }
}
