/** The name/value split of an entity such as `{stl.value_3}`:
    GetNameFromEntity keeps what precedes the first `_` and closes it again
    with `}`; GetValueFromEntity takes what lies between the last `_` and
    the last `}`, and gives the empty string when Substring would throw. */
module EntityParts {
  import opened Text

  /** GetNameFromEntity. */
  function GetNameFromEntity(entity: String): (r: String)
    ensures '_' !in entity ==> r == entity
    ensures '_' in entity ==> exists k :: 0 <= k < |entity| && entity[k] == '_' && '_' !in entity[..k] && r == entity[..k] + "}"
  {
    var u := IndexOf(entity, '_');
    if u != -1 then entity[..u] + "}" else entity
  }

  /** GetValueFromEntity. The Substring start is one past the last `_`; the
      length runs to the last `}` and is negative (an exception, caught)
      when that `}` lies before the `_` or is missing. The end never passes
      the string's end, so no other exception can occur. */
  function GetValueFromEntity(entity: String): (r: String)
    ensures '_' !in entity ==> r == []
    ensures '_' !in r
    ensures forall u, b ::
      (&& 0 <= u < |entity| && entity[u] == '_' && '_' !in entity[u + 1..]
       && 0 <= b < |entity| && entity[b] == '}' && '}' !in entity[b + 1..]) ==>
      r == (if u < b then entity[u + 1..b] else [])
    ensures '_' in entity && '}' !in entity ==> r == []
  {
    if IndexOf(entity, '_') == -1 then []
    else
      var u := LastIndexOf(entity, '_');
      var b := LastIndexOf(entity, '}');
      var length := b - u - 1;
      if length < 0 then []
      else
        assert entity[u + 1..u + 1 + length] == entity[u + 1..][..length];
        entity[u + 1..u + 1 + length]
  }

  /** Splitting an entity written as head, `_`, value, `}` gives back its
      head (closed with `}`) and its value. */
  lemma NameValueRoundTrip(head: String, value: String)
    requires '_' !in head && '_' !in value && '}' !in value
    ensures GetNameFromEntity(head + "_" + value + "}") == head + "}"
    ensures GetValueFromEntity(head + "_" + value + "}") == value
  {
    var e := head + "_" + value + "}";
    var u := |head|;
    var b := |e| - 1;
    assert e[..u] == head;
    assert e[u] == '_';
    assert e[u + 1..] == value + "}";
    assert e[b + 1..] == [];
    assert e[u + 1..b] == value;
  }
}
