# STL parser utility — a Dafny model

This project models the string and index logic of `StlParserUtility`. That class is the helper layer of the STL template parser in the SSCMS content-management system. STL templates are HTML. They hold two kinds of label:

- STL elements: pseudo-HTML tags such as `<stl:content type="title"></stl:content>`.
- STL entities: brace placeholders such as `{content.title}` or `{stl.value_3}`.

The utility does the following:

- It lists the elements of a template with a balanced-tag regular expression.
- It lists the entities of the text left once every element has been removed.
- It filters element strings by name, without regard to case.
- It splits an entity into a name and a value.
- It computes the 1-based item index of the item being rendered. The index can carry a `+n` or `-n` suffix.
- It extracts the loading, yes and no slots of the conditional elements, and the per-name inner HTML of the elements a tag asks for.

The model is functional. Strings are `seq<char>`. Every operation is a pure function with a contract. The lemmas relate the operations to one another and to independent descriptions of what they compute.

Modules, in dependency order:

- `Wrappers`: `Option`, which stands for a C# `null` and for an exception the source catches and swallows.
- `Text`: the .NET string primitives the utility calls, and their algebra:
  - ASCII case folding and case-insensitive prefix and suffix tests;
  - `IndexOf`, `LastIndexOf` and `Contains`;
  - `Trim`;
  - `Split` with its inverse `Join`;
  - `Replace(p, "")` as `RemoveAll`.
- `Spans`: regex matches as half-open spans. It holds the left-to-right scan behind `Regex.Matches` and the deletion behind `Regex.Replace(s, "")`. It proves that the matches and the text left over rebuild the input.
- `ElementMatcher`: the scan behind `RegexStlElement` and `GetStlElementList`. The lazy name capture takes the shortest prefix of the tag's word that has a closing tag. The body scan balances opening and closing tags of that name by nesting depth, and a tag whose name merely starts with the captured name counts. A lone `/>` tag is an element only when no balanced form exists.
- `EntityMatcher`: the scan behind `RegexStringAll` and `GetStlEntityList`, and the `IsStlEntityInclude` pre-filter.
- `ElementFilters`: `IsSpecifiedStlElement`, `IsStlElementExists` and `GetStlElement`.
- `EntityParts`: `GetNameFromEntity` and `GetValueFromEntity`.
- `HtmlNode`: what the utility reads from the HTML parser (`GetInnerHtml`), and `ParseStlElement` with its ignore-case attribute collection.
- `ItemIndex`: `GetItemIndex` and `ParseItemIndex` in 32-bit two's-complement arithmetic.
- `ConditionalSlots`: `GetLoading`, `GetYesNo`, `GetLoadingYesNo` and `GetStlElements`.
- `Labels`: `GetStlLabelList`.
- `Scenarios`: worked inputs for the scanners. They cover a nested same-name element, a lone `/>` tag, a nested tag whose name only starts with the outer name, and an entity inside an element.

Parameters stand in for code outside the utility:

- The HTML parser (HtmlAgilityPack's `LoadHtml` followed by `DocumentNode.FirstChild`) is the parameter `parse: String -> Option<Node>`. `None` means the document has no first child or the parse threw.
- `TranslateUtils.ToInt` is the parameter `toInt: String -> Option<int32>`, with the default the source passes.
- The element names of `StlLoading`, `StlYes` and `StlNo` (with their second names) are defined outside the utility. They are the parameter `Aliases`.

Three behaviours of the code are easy to misread. The model follows the code in each:

- **Entity pre-filter.** `IsStlEntityInclude` looks only for `{stl:`, `{stl.`, `{content.` and `{channel.`. So it misses entities of the six other namespaces that `GetStlEntityList` does find. `EntityMatcher.EntityIncludeSeesHintedEntities` proves that it is conservative for the four namespaces it names. `EntityMatcher.EntityIncludeMissesSql` exhibits `{sql.x}`, an entity it misses.
- **Self-closing tags.** In the pattern, the nested opening alternative `<stl:NAME[^>]*>` also matches a tag that ends in `/>`, so such a tag deepens the nesting. The outer `/>` tag is an element on its own only when no balanced form follows. `ElementMatcher.FindClose` and `ElementMatcher.ElementAt` do the same. Because `[^>]*` follows the backreference, `<stl:ab/>` counts as a nested `a` tag: in `<stl:a><stl:ab/></stl:a>` the outer element never closes, and the only match is `<stl:ab/></stl:a>` (`Scenarios.PrefixNameNests`).
- **Replace in GetLoading.** `GetLoading` removes the last loading element with `String.Replace`. That removes every occurrence of the element's text, not only that one element. `ConditionalSlots.GetLoading` states this. `ConditionalSlots.LoadingTemplateIsTheRest` gives the "text around the element" reading for the case where the element text occurs once.

## Model

| member | source | states |
|---|---|---|
| Text.Lower | src/SSCMS.Core/StlParser/Utility/StlParserUtility.cs:81 | `ToLower` keeps the length and folds each character on its own |
| Text.LowerConcat | src/SSCMS.Core/StlParser/Utility/StlParserUtility.cs:81-82 | lower-casing distributes over concatenation, as the built labels `<` + name + `>` need |
| Text.LowerIdempotent | src/SSCMS.Core/StlParser/Utility/StlParserUtility.cs:181 | lower-casing text that is already lower case changes nothing |
| Text.IndexOf | src/SSCMS.Core/StlParser/Utility/StlParserUtility.cs:153 | -1 exactly when the character is absent; otherwise the position of its first occurrence |
| Text.LastIndexOf | src/SSCMS.Core/StlParser/Utility/StlParserUtility.cs:168 | -1 exactly when the character is absent; otherwise the position of its last occurrence |
| Text.ContainsIffOccurs | src/SSCMS.Core/StlParser/Utility/StlParserUtility.cs:182 | ordinal `Contains` holds exactly when the text occurs at some position |
| Text.Trim | src/SSCMS.Core/StlParser/Utility/StlParserUtility.cs:358 | the result is a slice with only whitespace cut on either side, and it neither starts nor ends with whitespace |
| Text.TrimIdentity | src/SSCMS.Core/StlParser/Utility/StlParserUtility.cs:457-458 | trimming leaves a string unchanged exactly when the string has no surrounding whitespace |
| Text.TrimIdempotent | src/SSCMS.Core/StlParser/Utility/StlParserUtility.cs:488-489 | trimming twice is trimming once |
| Text.TrimEmpty | src/SSCMS.Core/StlParser/Utility/StlParserUtility.cs:524-526 | trimming gives the empty string exactly for all-whitespace input |
| Text.WindowLower | src/SSCMS.Core/StlParser/Utility/StlParserUtility.cs:181-182 | a lower-case text found in the lower-cased input is a case-insensitive prefix of the input from there |
| Text.CountZero | src/SSCMS.Core/StlParser/Utility/StlParserUtility.cs:353 | no occurrence of the separator is the same as its absence |
| Text.SplitLength | src/SSCMS.Core/StlParser/Utility/StlParserUtility.cs:355-356 | `Split` gives one more piece than there are separators, so two pieces mean exactly one separator |
| Text.Split | src/SSCMS.Core/StlParser/Utility/StlParserUtility.cs:355 | `Split` always gives at least one piece |
| Text.SplitPiecesFree | src/SSCMS.Core/StlParser/Utility/StlParserUtility.cs:355 | no piece of a split holds the separator |
| Text.JoinSplit | src/SSCMS.Core/StlParser/Utility/StlParserUtility.cs:355 | joining the pieces of a split with the separator gives back the string |
| Text.SplitJoin | src/SSCMS.Core/StlParser/Utility/StlParserUtility.cs:362 | splitting a join of separator-free pieces gives back the pieces |
| Text.SplitOnce | src/SSCMS.Core/StlParser/Utility/StlParserUtility.cs:362-365 | with one separator, the two pieces are the text before it and the text after it |
| Text.RemoveAll | src/SSCMS.Core/StlParser/Utility/StlParserUtility.cs:447 | `Replace(p, "")` never lengthens the text |
| Text.RemoveAllAbsent | src/SSCMS.Core/StlParser/Utility/StlParserUtility.cs:447 | `Replace(p, "")` leaves text without an occurrence of `p` unchanged |
| Text.RemoveAllKeepsPrefix | src/SSCMS.Core/StlParser/Utility/StlParserUtility.cs:447 | a prefix in which no occurrence starts comes through the replacement unchanged |
| Text.RemoveAllSingle | src/SSCMS.Core/StlParser/Utility/StlParserUtility.cs:447 | a single occurrence is cut out, and the text on both sides is kept |
| Text.RemoveAllShrinks | src/SSCMS.Core/StlParser/Utility/StlParserUtility.cs:447 | when `p` occurs, the replacement removes at least the length of `p` |
| Spans.LeftmostMatches | src/SSCMS.Core/StlParser/Utility/StlParserUtility.cs:206 | `Regex.Matches` gives in-bounds, ordered, non-overlapping matches, and every position where a match could start is inside one of them |
| Spans.Tokens | src/SSCMS.Core/StlParser/Utility/StlParserUtility.cs:207-211 | the listed match values are exactly the matched substrings, one per match, in order |
| Spans.WeaveRebuilds | src/SSCMS.Core/StlParser/Utility/StlParserUtility.cs:225 | the gaps left by `Regex.Replace(s, "")`, interleaved with the matches, rebuild the text |
| Spans.StripLength | src/SSCMS.Core/StlParser/Utility/StlParserUtility.cs:225 | the replacement removes exactly the matched characters |
| Spans.StripNothing | src/SSCMS.Core/StlParser/Utility/StlParserUtility.cs:225 | with no match the text is unchanged |
| Spans.LeftmostSkips | src/SSCMS.Core/StlParser/Utility/StlParserUtility.cs:206 | the scan of `Regex.Matches` passes over positions where no match starts without listing anything |
| Spans.StripOne | src/SSCMS.Core/StlParser/Utility/StlParserUtility.cs:225 | deleting a single match keeps the text on both sides of it, joined |
| ElementMatcher.OpenTagAt | src/SSCMS.Core/StlParser/Utility/StlParserUtility.cs:55 | an opening tag is `<stl:` in any case, a nonempty run of word characters (lower-cased as the tag's word), then text up to the first `>`; `/>` marks it self-closing; there is none exactly when the prefix, the word or a later `>` is missing |
| ElementMatcher.NestedOpenAt | src/SSCMS.Core/StlParser/Utility/StlParserUtility.cs:57 | a nested opening tag of the captured name exists exactly when the text starts, in any case, with `<stl:` and the name, and a `>` follows; it ends after the first such `>` |
| ElementMatcher.CloseTagAt | src/SSCMS.Core/StlParser/Utility/StlParserUtility.cs:59 | a closing tag of the captured name exists exactly when the text starts, in any case, with `</stl:` and the name, and a `>` follows; a longer name that starts with it matches too |
| ElementMatcher.FindCloseStep | src/SSCMS.Core/StlParser/Utility/StlParserUtility.cs:56-64 | one step of the body: a closing tag ends the element at depth zero and undoes a level otherwise; a nested opening tag adds a level; any other character is skipped |
| ElementMatcher.FindCloseEndsAtClose | src/SSCMS.Core/StlParser/Utility/StlParserUtility.cs:64 | a found element body ends just after a closing tag of the name that starts inside the scanned text |
| ElementMatcher.FindCloseDeeper | src/SSCMS.Core/StlParser/Utility/StlParserUtility.cs:56-63 | closing one more level is closing the current levels and then scanning on at depth zero |
| ElementMatcher.FindCloseDepth | src/SSCMS.Core/StlParser/Utility/StlParserUtility.cs:56-63 | closing `depth + 1` levels is closing one level and then `depth` more |
| ElementMatcher.NestedSkipped | src/SSCMS.Core/StlParser/Utility/StlParserUtility.cs:57-63 | a nested opening tag is passed over together with its own balanced body, and the scan continues at the depth it had |
| ElementMatcher.ShortestClose | src/SSCMS.Core/StlParser/Utility/StlParserUtility.cs:55-64 | the lazy `\w+?` capture: the balanced form for the shortest prefix of the word that has a closing tag, and none exactly when no prefix has one |
| ElementMatcher.ElementRule | src/SSCMS.Core/StlParser/Utility/StlParserUtility.cs:54-65 | no opening tag, no element; otherwise the element ends where the shortest closing prefix closes; only when no prefix closes, a `/>` opening tag is the element and any other gives none |
| ElementMatcher.ElementAt | src/SSCMS.Core/StlParser/Utility/StlParserUtility.cs:54-65 | an element is nonempty, starts with `<stl:` in any case and ends with `>` |
| ElementMatcher.MatchElements | src/SSCMS.Core/StlParser/Utility/StlParserUtility.cs:206 | the matches are in bounds, ordered and non-overlapping, each is an element at its start, and every position where an element starts lies inside one of them |
| ElementMatcher.GetStlElementList | src/SSCMS.Core/StlParser/Utility/StlParserUtility.cs:202-214 | one element string per match, in order, each the matched substring, each opening with `<stl:` and closing with `>` |
| ElementMatcher.RemoveElements | src/SSCMS.Core/StlParser/Utility/StlParserUtility.cs:225 | deleting the elements shortens the text by exactly their total length |
| ElementMatcher.RemoveElementsRebuilds | src/SSCMS.Core/StlParser/Utility/StlParserUtility.cs:206-225 | the deleted elements, put back between the remaining gaps, rebuild the template |
| ElementMatcher.NoTagAt | src/SSCMS.Core/StlParser/Utility/StlParserUtility.cs:54-65 | no opening tag, closing tag or element starts at a character other than `<` |
| ElementMatcher.MatchesSkipText | src/SSCMS.Core/StlParser/Utility/StlParserUtility.cs:206 | the scan of `Matches` passes over text without `<` without listing anything |
| ElementMatcher.FindCloseSkips | src/SSCMS.Core/StlParser/Utility/StlParserUtility.cs:56-64 | the body scan passes over text without `<` with its nesting depth unchanged |
| ElementMatcher.OpenTagOfLetter | src/SSCMS.Core/StlParser/Utility/StlParserUtility.cs:55-57 | `<stl:c>` is an opening tag named `c` that does not end in `/>`, and a nested opening tag of the name `c` |
| ElementMatcher.NestedOpenOfLetter | src/SSCMS.Core/StlParser/Utility/StlParserUtility.cs:57 | `<stl:c` followed by text without `>` up to a `>` is a nested opening tag of the name `c`, ending after that `>` |
| ElementMatcher.CloseTagOfLetter | src/SSCMS.Core/StlParser/Utility/StlParserUtility.cs:59 | `</stl:c>` is a closing tag of the name `c` |
| ElementMatcher.ElementOfLetter | src/SSCMS.Core/StlParser/Utility/StlParserUtility.cs:54-65 | when the tag's word is one letter, the element is its balanced form, or the lone `/>` tag when it has none |
| ElementMatcher.FindCloseAtOpening | src/SSCMS.Core/StlParser/Utility/StlParserUtility.cs:57 | the body scan steps over a nested opening tag one level deeper |
| ElementMatcher.FindCloseAtClosing | src/SSCMS.Core/StlParser/Utility/StlParserUtility.cs:59-64 | at a closing tag the body scan ends at depth zero, and goes on one level up otherwise |
| ElementMatcher.NoCloseWithoutSlash | src/SSCMS.Core/StlParser/Utility/StlParserUtility.cs:59 | no closing tag starts where the second character is not `/` |
| EntityMatcher.FindBrace | src/SSCMS.Core/StlParser/Utility/StlParserUtility.cs:20 | the `[^{}]*` run ends at the first brace after the start, or at the end of the text |
| EntityMatcher.EntityAt | src/SSCMS.Core/StlParser/Utility/StlParserUtility.cs:20 | a match has the entity shape: `{`, a namespace prefix in any case, brace-free text, `}` |
| EntityMatcher.EntityAtComplete | src/SSCMS.Core/StlParser/Utility/StlParserUtility.cs:20 | wherever an entity starts, the pattern matches there, and the match ends exactly where that entity ends |
| EntityMatcher.EntitiesDoNotNest | src/SSCMS.Core/StlParser/Utility/StlParserUtility.cs:20 | no entity starts strictly inside another |
| EntityMatcher.EntitySpans | src/SSCMS.Core/StlParser/Utility/StlParserUtility.cs:231-232 | the matches are ordered and non-overlapping, and they start exactly at the positions where an entity starts |
| EntityMatcher.GetStlEntityList | src/SSCMS.Core/StlParser/Utility/StlParserUtility.cs:221-240 | the entities are the matches in the text left after element deletion, in order, each of the entity shape |
| EntityMatcher.IsStlEntityInclude | src/SSCMS.Core/StlParser/Utility/StlParserUtility.cs:178-183 | false for null; otherwise true exactly when the text holds a `}` and, somewhere, `{` followed by `stl:`, `stl.`, `content.` or `channel.` in any case |
| EntityMatcher.EntityIncludeSeesHintedEntities | src/SSCMS.Core/StlParser/Utility/StlParserUtility.cs:178-183 | the pre-filter is true for any text holding an entity of the `stl:`, `stl.`, `content.` or `channel.` namespace |
| EntityMatcher.EntityIncludeMissesSql | src/SSCMS.Core/StlParser/Utility/StlParserUtility.cs:178-183 | `{sql.x}` is an entity, yet the pre-filter is false for it |
| EntityMatcher.FirstBrace | src/SSCMS.Core/StlParser/Utility/StlParserUtility.cs:20 | the `[^{}]*` run of a match stops at the first brace after its start |
| ElementFilters.IsSpecifiedStlElement | src/SSCMS.Core/StlParser/Utility/StlParserUtility.cs:185-192 | false for null; a specified element is `<`, the name in any case, a space or `>`, and ends with `>` |
| ElementFilters.OpensAsShape | src/SSCMS.Core/StlParser/Utility/StlParserUtility.cs:188-189 | a label that opens as `name` is `<`, the name in any case, then a space or `>` |
| ElementFilters.SpecifiedShape | src/SSCMS.Core/StlParser/Utility/StlParserUtility.cs:185-192 | a specified element starts with `<` and the name in any case, and ends with `>` |
| ElementFilters.SpecifiedOfBuilt | src/SSCMS.Core/StlParser/Utility/StlParserUtility.cs:185-192 | `<name attrs>body</name>` is specified for `name`, whatever the attribute text and body |
| ElementFilters.SpecifiedNameUnique | src/SSCMS.Core/StlParser/Utility/StlParserUtility.cs:188-189 | two names without spaces or `>` that open the same element are equal up to case |
| ElementFilters.SpecifiedIgnoresCase | src/SSCMS.Core/StlParser/Utility/StlParserUtility.cs:185-192 | lower-casing the element or the name does not change the answer |
| ElementFilters.IsStlElementExists | src/SSCMS.Core/StlParser/Utility/StlParserUtility.cs:76-89 | true exactly when some label of the list opens, in any case, as `<name ` or `<name>` |
| ElementFilters.FirstOpening | src/SSCMS.Core/StlParser/Utility/StlParserUtility.cs:138-145 | the position of the first label that opens as the name, and -1 exactly when none does |
| ElementFilters.GetStlElement | src/SSCMS.Core/StlParser/Utility/StlParserUtility.cs:135-148 | the first label that opens as the name, or the empty string when no label does |
| ElementFilters.GetStlElementFindsExisting | src/SSCMS.Core/StlParser/Utility/StlParserUtility.cs:76-148 | GetStlElement returns a nonempty label exactly when IsStlElementExists holds |
| EntityParts.GetNameFromEntity | src/SSCMS.Core/StlParser/Utility/StlParserUtility.cs:150-159 | without `_` the entity comes back unchanged; otherwise the text before its first `_`, followed by `}` |
| EntityParts.GetValueFromEntity | src/SSCMS.Core/StlParser/Utility/StlParserUtility.cs:161-176 | empty without `_` or without `}`; otherwise the text strictly between the last `_` and the last `}`, or empty when that `}` comes first; never holds `_` |
| EntityParts.NameValueRoundTrip | src/SSCMS.Core/StlParser/Utility/StlParserUtility.cs:150-176 | splitting `head_value}` gives back `head}` and `value` |
| HtmlNode.InnerHtmlAgrees | src/SSCMS.Core/StlParser/Utility/StlParserUtility.cs:254-276 | GetInnerHtml and ParseStlElement read the same first child: its inner HTML when ParseStlElement gives an element; both empty or null when the parse fails; a nameless child still has its inner HTML read |
| HtmlNode.FoldAttributes | src/SSCMS.Core/StlParser/Utility/StlParserUtility.cs:326-334 | the collection's keys are exactly the attribute names, lower-cased; a repeated name keeps the value of its last occurrence |
| HtmlNode.ParseStlElement | src/SSCMS.Core/StlParser/Utility/StlParserUtility.cs:310-348 | null exactly when the parse gives no first child or threw, or the name is empty; otherwise the lower-cased name, the folded attributes, and the outer and inner HTML |
| HtmlNode.ParsedAttributeLookup | src/SSCMS.Core/StlParser/Utility/StlParserUtility.cs:326-334 | an attribute can be read back under its name in any case, with the value of the last attribute of that name |
| HtmlNode.ParsedAttributeAbsent | src/SSCMS.Core/StlParser/Utility/StlParserUtility.cs:326-334 | a key that names no attribute in any case reads as absent |
| ItemIndex.Wrap | src/SSCMS.Core/StlParser/Utility/StlParserUtility.cs:352 | 32-bit wrap-around leaves an in-range value unchanged |
| ItemIndex.WrapCongruent | src/SSCMS.Core/StlParser/Utility/StlParserUtility.cs:352 | the wrapped value differs from the exact one by a multiple of 2^32 |
| ItemIndex.WrapAdd | src/SSCMS.Core/StlParser/Utility/StlParserUtility.cs:352 | wrapping an intermediate sum does not change the wrapped total |
| ItemIndex.SelectedKey | src/SSCMS.Core/StlParser/Utility/StlParserUtility.cs:371-391 | `Channel`, `Content`, `SqlContent`, `Site` and `Each` read the channel, content, SQL, site and each holder; a missing container or holder is a null dereference; only `Other` selects no holder, so the key stays 0 |
| ItemIndex.GetItemIndex | src/SSCMS.Core/StlParser/Utility/StlParserUtility.cs:369-394 | page offset + the key of the holder the context type selects + 1, in 32 bits; 0 as the key for other types; null dereference when the holder is missing |
| ItemIndex.OtherIgnoresContainer | src/SSCMS.Core/StlParser/Utility/StlParserUtility.cs:371-393 | for other context types, the item container is never read |
| ItemIndex.BaseIndex | src/SSCMS.Core/StlParser/Utility/StlParserUtility.cs:352 | the left-to-right 32-bit sum equals the wrapped exact sum page + db + 1 |
| ItemIndex.SuffixStep | src/SSCMS.Core/StlParser/Utility/StlParserUtility.cs:353-366 | the step added to the base: 0 unless there is exactly one `+` or `-`; otherwise plus or minus the trimmed text after it, read as an int or 1 |
| ItemIndex.ParseItemIndex | src/SSCMS.Core/StlParser/Utility/StlParserUtility.cs:350-367 | the base with no single `+` and no single `-`; with one `+`, the base plus the trimmed text after it read as an int or 1; failing that, with one `-`, the base minus it |
| ItemIndex.SplitFacts | src/SSCMS.Core/StlParser/Utility/StlParserUtility.cs:353-362 | `IndexOf == -1` means no separator, two split pieces mean one separator, and the second piece is the text after it |
| ItemIndex.PlainNameIsItemIndex | src/SSCMS.Core/StlParser/Utility/StlParserUtility.cs:350-394 | with neither `+` nor `-`, ParseItemIndex given the selected key equals GetItemIndex |
| ConditionalSlots.LastPick | src/SSCMS.Core/StlParser/Utility/StlParserUtility.cs:502-516 | the position of the last element the slot takes, and -1 exactly when it takes none |
| ConditionalSlots.AliasSelects | src/SSCMS.Core/StlParser/Utility/StlParserUtility.cs:472-512 | the `if`/`else if` chains give priority to loading, then yes, then no |
| ConditionalSlots.ElementsNonEmpty | src/SSCMS.Core/StlParser/Utility/StlParserUtility.cs:439-447 | no element of the list is the empty string, so `Replace` is always given a nonempty pattern |
| ConditionalSlots.LoadingScan | src/SSCMS.Core/StlParser/Utility/StlParserUtility.cs:440-450 | after the loop, `loading` is the inner HTML of the last loading element and `template` the input with that element's text removed; both empty when there is none |
| ConditionalSlots.GetLoading | src/SSCMS.Core/StlParser/Utility/StlParserUtility.cs:433-459 | empty input gives two empty strings; otherwise the trimmed slot of the last loading element, and the trimmed template, which falls back to the whole input when both are empty |
| ConditionalSlots.LoadingTemplateIsTheRest | src/SSCMS.Core/StlParser/Utility/StlParserUtility.cs:447-458 | when the loading element occurs once, the template is the text around it, trimmed |
| ConditionalSlots.YesNoScan | src/SSCMS.Core/StlParser/Utility/StlParserUtility.cs:468-481 | after the loop, `yes` is the inner HTML of the last yes element, and `no` that of the last no element that is not a yes element |
| ConditionalSlots.GetYesNo | src/SSCMS.Core/StlParser/Utility/StlParserUtility.cs:461-490 | empty input gives two empty strings; otherwise the trimmed slots of the last yes and no elements; `yes` falls back to the whole input when both are empty |
| ConditionalSlots.LoadingYesNoScan | src/SSCMS.Core/StlParser/Utility/StlParserUtility.cs:500-517 | after the loop, each slot holds the inner HTML of its last element, under the loading, yes, no priority |
| ConditionalSlots.GetLoadingYesNo | src/SSCMS.Core/StlParser/Utility/StlParserUtility.cs:492-527 | empty input gives three empty strings; otherwise the trimmed slots; `yes` falls back to the whole input when all three are empty |
| ConditionalSlots.LastPickIgnoresAbsent | src/SSCMS.Core/StlParser/Utility/StlParserUtility.cs:502-516 | an `else if` guard that no element satisfies does not change which element a slot takes |
| ConditionalSlots.SlotsWithoutLoading | src/SSCMS.Core/StlParser/Utility/StlParserUtility.cs:502-516 | without loading elements, the loading slot is empty and the yes and no slots are those of the two-slot chain |
| ConditionalSlots.LoadingYesNoWithoutLoading | src/SSCMS.Core/StlParser/Utility/StlParserUtility.cs:461-527 | without loading elements, GetLoadingYesNo agrees with GetYesNo and leaves `loading` empty |
| ConditionalSlots.YesNoTrimmed | src/SSCMS.Core/StlParser/Utility/StlParserUtility.cs:488-489 | both outputs of GetYesNo are already trimmed |
| ConditionalSlots.AssignNames | src/SSCMS.Core/StlParser/Utility/StlParserUtility.cs:543-550 | the inner loop keeps the key set and overwrites exactly the names the element is specified for |
| ConditionalSlots.ElementsScan | src/SSCMS.Core/StlParser/Utility/StlParserUtility.cs:538-552 | after the loop, the keys are the requested names, and each maps to the inner HTML of the last element specified for it, or to empty |
| ConditionalSlots.GetStlElements | src/SSCMS.Core/StlParser/Utility/StlParserUtility.cs:529-555 | the key set is exactly the requested names; empty input maps every name to empty; otherwise each name maps to the inner HTML of the last element specified for it, or to empty |
| ConditionalSlots.ElementsAgreeWithLoading | src/SSCMS.Core/StlParser/Utility/StlParserUtility.cs:433-555 | asking GetStlElements for the loading name gives, once trimmed, the loading output of GetLoading |
| Labels.GetStlLabelList | src/SSCMS.Core/StlParser/Utility/StlParserUtility.cs:67-73 | the elements in order, then the entities in order; the first part opens with `<stl:`, the rest have the entity shape |
| Labels.LabelKinds | src/SSCMS.Core/StlParser/Utility/StlParserUtility.cs:67-73 | a label starts with `<` exactly when it comes from the element part of the list |
| Scenarios.NestedSameName | src/SSCMS.Core/StlParser/Utility/StlParserUtility.cs:54-65 | `<stl:x><stl:x></stl:x></stl:x>` is one element, the whole text: the inner closing tag closes the inner opening tag |
| Scenarios.LoneSelfClosing | src/SSCMS.Core/StlParser/Utility/StlParserUtility.cs:54-65 | `<stl:x/>`, with no closing tag after it, is an element on its own |
| Scenarios.PrefixNameNests | src/SSCMS.Core/StlParser/Utility/StlParserUtility.cs:54-65 | in `<stl:a><stl:ab/></stl:a>` the only element is `<stl:ab/></stl:a>`, from position 7: the nested `<stl:ab/>` deepens the outer `a` element, which never closes |
| Scenarios.EntityInsideElementIgnored | src/SSCMS.Core/StlParser/Utility/StlParserUtility.cs:221-240 | in `<stl:x>{content.title}</stl:x>{content.title}` only the entity after the element is listed |

## Left out

- `\w`, `ToLower` and whitespace are ASCII only. Culture-sensitive case mapping and Unicode character classes are not modelled. `Trim` removes ASCII blanks and line breaks, U+0085 and U+00A0.
- `StringUtils.StartsWithIgnoreCase` and `StringUtils.EndsWithIgnoreCase` (used at lines 188-189) are not part of this model. They are taken to be ordinal ASCII ignore-case prefix and suffix tests, with no trimming and no special case for null or empty arguments.
- `IsStlElementExists` and `GetStlElement` call `string.StartsWith(string)`, which compares with the current culture. The model compares ordinally, so culture-specific equivalences between characters are left out.
- `GetStlCurrentUrlAsync`: asynchronous calls into the path manager and the channel repository, which are not part of this model.
- `GetAjaxDivId` draws a random number. `GetStlEntityRegex` only constructs a regex object.
- `IsStlContentElement`, `IsStlChannelElement` and the four `*WithTypePageContent` helpers depend on `RegexUtils.IsMatch`, whose options are not part of this model.
- HtmlNode.GetInnerHtml: its contract only reads the parse result, which is a parameter. Its agreement with ParseStlElement is stated in `HtmlNode.InnerHtmlAgrees`.
- ItemIndex.ToInt: `TranslateUtils.ToInt` is a parameter, so the wrapper only applies the default the source passes, and has no property beyond that.
- Text.Split: its own contract gives only that there is at least one piece. The piece count, separator-free pieces and the inverse `Join` are in `Text.SplitLength`, `Text.SplitPiecesFree`, `Text.JoinSplit` and `Text.SplitJoin`.
- Text.RemoveAll: its own contract gives only that the text does not grow. What is removed and what is kept is in `Text.RemoveAllAbsent`, `Text.RemoveAllKeepsPrefix`, `Text.RemoveAllSingle` and `Text.RemoveAllShrinks`.
- ElementFilters.IsSpecifiedStlElement: its contract gives the shape a true answer implies, not the converse. `ElementFilters.SpecifiedOfBuilt` gives the converse for elements built as `<name attrs>body</name>`.
- ElementMatcher.ElementAt: its contract gives the shape of an element. Which element is chosen is in `ElementMatcher.ElementRule`.
- ElementMatcher.FindClose: its contract gives only bounds. The step rule and the balancing are in `ElementMatcher.FindCloseStep`, `ElementMatcher.NestedSkipped`, `ElementMatcher.FindCloseDeeper` and `ElementMatcher.FindCloseEndsAtClose`.
- The `GetInnerHtml` overload that also copies attributes into a caller's `NameValueCollection` mutates its argument. Its return value is that of `HtmlNode.GetInnerHtml`.
- The `Order*`, `PageContent`, `CountOf*`, `ItemIndex` and `Title` constants are names used by other parts of the parser.
- HtmlAgilityPack's parsing and `TranslateUtils.ToInt`'s number syntax are parameters, not models.
- The element names of `StlLoading`, `StlYes` and `StlNo` are declared outside the utility, so they are the `Aliases` parameter.
- `EntityMatcher.RegexStringAll` is the pattern text. `EntityMatcher.EntityPrefixes` lists its ten namespaces, and the scanner reads that list. No proof connects the two beyond their common order.
- HtmlNode.FoldAttributes: the ignore-case collection is keyed by the lower-cased name. The .NET collection keeps the case of the first key written, which only changes how its keys print.
- Null strings inside lists, and a null attribute name or inner HTML, are not modelled. Only `IsSpecifiedStlElement`, `IsStlEntityInclude` and the parse results take an `Option`.
- ItemIndex.Wrap: its contract gives only the identity on in-range values. The congruence modulo 2^32 that makes it two's-complement wrap-around is stated separately, in `ItemIndex.WrapCongruent` and `ItemIndex.WrapAdd`.
- The controller that calls the parser is glue over permission checks and repositories, and is not part of this model.
