/** Item-index arithmetic: the 1-based position of the item being rendered,
    GetItemIndex, and the `itemIndex+n` / `itemIndex-n` attribute form,
    ParseItemIndex. C# `int` arithmetic is unchecked 32-bit two's
    complement and wraps on overflow. */
module ItemIndex {
  import opened Wrappers
  import opened Text

  const Two32: int := 0x1_0000_0000

  type int32 = x: int | -0x8000_0000 <= x < 0x8000_0000

  /** Two's-complement wrap-around to 32 bits. */
  function Wrap(x: int): (r: int32)
    ensures -0x8000_0000 <= x < 0x8000_0000 ==> r == x
  {
    var m := (x + 0x8000_0000) % Two32;
    m - 0x8000_0000
  }

  /** The wrapped value differs from the exact one by a multiple of 2^32. */
  lemma WrapCongruent(x: int)
    ensures (Wrap(x) - x) % Two32 == 0
  {
  }

  /** Wrapping in the middle of a sum does not change the wrapped total. */
  lemma WrapAdd(x: int, y: int)
    ensures Wrap(Wrap(x) + y) == Wrap(x + y)
  {
    var a := Wrap(x);
    WrapCongruent(x);
    WrapCongruent(a + y);
    WrapCongruent(x + y);
    var k := (a - x) / Two32;
    assert a - x == k * Two32;
    assert Wrap(a + y) - (x + y) == Wrap(a + y) - (a + y) + k * Two32;
    WrapUnique(Wrap(a + y), Wrap(x + y), x + y);
  }

  lemma WrapUnique(a: int32, b: int32, x: int)
    requires (a - x) % Two32 == 0 && (b - x) % Two32 == 0
    ensures a == b
  {
    var ka := (a - x) / Two32;
    var kb := (b - x) / Two32;
    assert a - b == (ka - kb) * Two32;
  }

  /** The context types the index switch distinguishes; every other type
      falls to `Other`. */
  datatype ParseType = Channel | Content | SqlContent | Site | Each | Other

  /** The keys (database row indexes) of the items being iterated, one per
      kind of list; `None` is a holder that is not set. */
  datatype ItemContainer = ItemContainer(
    channelKey: Option<int32>,
    contentKey: Option<int32>,
    sqlKey: Option<int32>,
    siteKey: Option<int32>,
    eachKey: Option<int32>)

  /** The parts of ParseContext the index arithmetic reads. */
  datatype ParseContext = ParseContext(contextType: ParseType, pageItemIndex: int32, itemContainer: Option<ItemContainer>)

  /** The key of the holder the context type selects: `Some(None)` when the
      type selects no holder (the key stays 0), `None` when the selected
      holder, or the container itself, is missing. */
  function SelectedKey(ctx: ParseContext): (r: Option<Option<int32>>)
    ensures ctx.contextType == Other <==> r == Some(None)
    ensures ctx.contextType != Other && ctx.itemContainer.None? ==> r.None?
    ensures ctx.contextType == Channel && ctx.itemContainer.Some? ==> r == (var k := ctx.itemContainer.value.channelKey; if k.Some? then Some(k) else None)
    ensures ctx.contextType == Content && ctx.itemContainer.Some? ==> r == (var k := ctx.itemContainer.value.contentKey; if k.Some? then Some(k) else None)
    ensures ctx.contextType == SqlContent && ctx.itemContainer.Some? ==> r == (var k := ctx.itemContainer.value.sqlKey; if k.Some? then Some(k) else None)
    ensures ctx.contextType == Site && ctx.itemContainer.Some? ==> r == (var k := ctx.itemContainer.value.siteKey; if k.Some? then Some(k) else None)
    ensures ctx.contextType == Each && ctx.itemContainer.Some? ==> r == (var k := ctx.itemContainer.value.eachKey; if k.Some? then Some(k) else None)
  {
    if ctx.contextType == Other then Some(None)
    else match ctx.itemContainer
      case None => None
      case Some(c) =>
        var key := match ctx.contextType
          case Channel => c.channelKey
          case Content => c.contentKey
          case SqlContent => c.sqlKey
          case Site => c.siteKey
          case Each => c.eachKey;
        if key.Some? then Some(key) else None
  }

  /** GetItemIndex: page offset plus the selected key plus one. `None` is a
      null dereference: the type selects a holder but the container (or
      the holder) is missing. */
  function GetItemIndex(ctx: ParseContext): (r: Option<int32>)
    ensures ctx.contextType == Other ==> r == Some(Wrap(ctx.pageItemIndex + 1))
    ensures ctx.contextType == Channel ==> r.Some? == (ctx.itemContainer.Some? && ctx.itemContainer.value.channelKey.Some?)
    ensures ctx.contextType == Channel && r.Some? ==> r.value == Wrap(ctx.pageItemIndex + ctx.itemContainer.value.channelKey.value + 1)
    ensures ctx.contextType == Content ==> r.Some? == (ctx.itemContainer.Some? && ctx.itemContainer.value.contentKey.Some?)
    ensures ctx.contextType == Content && r.Some? ==> r.value == Wrap(ctx.pageItemIndex + ctx.itemContainer.value.contentKey.value + 1)
    ensures ctx.contextType == SqlContent ==> r.Some? == (ctx.itemContainer.Some? && ctx.itemContainer.value.sqlKey.Some?)
    ensures ctx.contextType == SqlContent && r.Some? ==> r.value == Wrap(ctx.pageItemIndex + ctx.itemContainer.value.sqlKey.value + 1)
    ensures ctx.contextType == Site ==> r.Some? == (ctx.itemContainer.Some? && ctx.itemContainer.value.siteKey.Some?)
    ensures ctx.contextType == Site && r.Some? ==> r.value == Wrap(ctx.pageItemIndex + ctx.itemContainer.value.siteKey.value + 1)
    ensures ctx.contextType == Each ==> r.Some? == (ctx.itemContainer.Some? && ctx.itemContainer.value.eachKey.Some?)
    ensures ctx.contextType == Each && r.Some? ==> r.value == Wrap(ctx.pageItemIndex + ctx.itemContainer.value.eachKey.value + 1)
  {
    match SelectedKey(ctx)
    case None => None
    case Some(key) =>
      var dbItemIndex := key.GetOr(0);
      WrapAdd(ctx.pageItemIndex + dbItemIndex, 1);
      Some(Wrap(Wrap(ctx.pageItemIndex + dbItemIndex) + 1))
  }

  /** Under a context type that selects no holder, the container is never
      read. */
  lemma OtherIgnoresContainer(ctx: ParseContext, c: Option<ItemContainer>)
    requires ctx.contextType == Other
    ensures GetItemIndex(ctx) == GetItemIndex(ctx.(itemContainer := c))
  {
  }

  /** TranslateUtils.ToInt(s, default), over an abstract parser: the
      number the text denotes when it denotes one, the default otherwise. */
  function ToInt(toInt: String -> Option<int32>, s: String, default: int32): (r: int32)
    ensures toInt(s).Some? ==> r == toInt(s).value
    ensures toInt(s).None? ==> r == default
  {
    toInt(s).GetOr(default)
  }

  /** The base of ParseItemIndex: page offset plus database index plus one,
      added left to right in 32 bits. */
  function BaseIndex(pageItemIndex: int32, dbItemIndex: int32): (r: int32)
    ensures r == Wrap(pageItemIndex + dbItemIndex + 1)
  {
    WrapAdd(pageItemIndex + dbItemIndex, 1);
    Wrap(Wrap(pageItemIndex + dbItemIndex) + 1)
  }

  /** ParseItemIndex. `Split('+')` yields two pieces exactly when there is
      one `+`; the trimmed text after it, read as an int or 1, is added to
      the base. Failing that, one `-` subtracts in the same way. Any other
      name leaves the base. */
  function ParseItemIndex(dbItemIndex: int32, attributeName: String, ctx: ParseContext, toInt: String -> Option<int32>): (r: int32)
    ensures var base := BaseIndex(ctx.pageItemIndex, dbItemIndex);
      && (Count(attributeName, '+') != 1 && Count(attributeName, '-') != 1 ==> r == base)
      && (forall k :: 0 <= k < |attributeName| && attributeName[k] == '+' && Count(attributeName, '+') == 1 ==>
            r == Wrap(base + ToInt(toInt, Trim(attributeName[k + 1..]), 1)))
      && (forall k :: 0 <= k < |attributeName| && attributeName[k] == '-' && Count(attributeName, '-') == 1 && Count(attributeName, '+') != 1 ==>
            r == Wrap(base - ToInt(toInt, Trim(attributeName[k + 1..]), 1)))
  {
    Wrap(BaseIndex(ctx.pageItemIndex, dbItemIndex) + SuffixStep(attributeName, toInt))
  }

  /** The `+n` / `-n` step of ParseItemIndex: what is added to the base. */
  function SuffixStep(attributeName: String, toInt: String -> Option<int32>): (r: int)
    ensures Count(attributeName, '+') != 1 && Count(attributeName, '-') != 1 ==> r == 0
    ensures forall k :: 0 <= k < |attributeName| && attributeName[k] == '+' && Count(attributeName, '+') == 1 ==>
      r == ToInt(toInt, Trim(attributeName[k + 1..]), 1)
    ensures forall k :: 0 <= k < |attributeName| && attributeName[k] == '-' && Count(attributeName, '-') == 1 && Count(attributeName, '+') != 1 ==>
      r == 0 - ToInt(toInt, Trim(attributeName[k + 1..]), 1) as int
  {
    SplitFacts(attributeName, '+');
    SplitFacts(attributeName, '-');
    if IndexOf(attributeName, '+') == -1 && IndexOf(attributeName, '-') == -1 then 0
    else
      var plus := Split(attributeName, '+');
      if |plus| == 2 then ToInt(toInt, Trim(plus[1]), 1)
      else
        var minus := Split(attributeName, '-');
        if |minus| != 2 then 0
        else 0 - ToInt(toInt, Trim(minus[1]), 1) as int
  }

  /** What ParseItemIndex reads from IndexOf and Split: no separator means a
      count of zero, two pieces mean exactly one separator, and then the
      second piece is the text after it. */
  lemma SplitFacts(s: String, c: char)
    ensures (IndexOf(s, c) == -1) == (Count(s, c) == 0)
    ensures (|Split(s, c)| == 2) == (Count(s, c) == 1)
    ensures forall k :: 0 <= k < |s| && s[k] == c && Count(s, c) == 1 ==> Split(s, c)[1] == s[k + 1..]
  {
    CountZero(s, c);
    SplitLength(s, c);
    forall k | 0 <= k < |s| && s[k] == c && Count(s, c) == 1 ensures Split(s, c)[1] == s[k + 1..] {
      SplitOnce(s, c, k);
    }
  }

  /** For a plain attribute name, ParseItemIndex given the selected key is
      GetItemIndex. */
  lemma PlainNameIsItemIndex(ctx: ParseContext, name: String, toInt: String -> Option<int32>)
    requires '+' !in name && '-' !in name
    requires GetItemIndex(ctx).Some?
    ensures GetItemIndex(ctx) == Some(ParseItemIndex(SelectedKey(ctx).value.GetOr(0), name, ctx, toInt))
  {
    CountZero(name, '+');
    CountZero(name, '-');
  }
}
