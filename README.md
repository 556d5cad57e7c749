# layerJS DOM helpers, modelled in Dafny

This project models the self-contained logic of the layerJS helper object
`DomHelpers` (`src/framework/domhelpers.js`) and proves what its helpers do.
The helpers covered are:

- the tree walks `_parents`, `commonParent` and `findParentViewOfType`, over a
  document modelled as a parent map plus ordered child lists;
- `comparePosition` over the bitmask of `compareDocumentPosition`, with the
  `sourceIndex` fallback;
- the transform reader `getMatrixArray` and the composition in `getMatrix` and
  `getTopLeftMatrix`;
- the string helpers `timeToMS`, `splitUrl`, `joinUrl`, `addClass` and
  `removeClass`;
- the per-document id counters of `uniqueID`;
- the user-agent rule table of `detectBrowser` and the prefix table of
  `calculatePrefixes`;
- the child-list surgery of `wrapChildren` and `unwrapChildren`.

The modules are listed below.

- `Dom` (`dom.dfy`): class `Document`. It holds the node kinds, the parent map,
  the child lists, views, `className` strings and the `_ljUniqueHash` counters.
  - A ghost rank map witnesses that the parent links are acyclic.
  - The helpers that update the document in place are methods with `modifies`
    clauses: `WrapChildren`, `UnwrapChildren`, `AddClass`, `RemoveClass` and
    `UniqueId`.
  - The loops of the source (`_parents`, `commonParent`,
    `findParentViewOfType`, the child-moving `while` loops) are `while` loops
    with invariants.
  - Each method is proved against a specification function: `Wrap`, `Unwrap`,
    `MoveAll`, `Lineage` or `ElementChain`.
- `Tree` (`tree.dfy`): ancestor chains (`Lineage`), element-ancestor chains
  (`ElementChain`), and the divergence argument behind `commonParent`.
- `DocumentOrder` (`document_order.dfy`): `comparePosition`. The bitmask values
  are those of `compareDocumentPosition` in section 4.4 (Interface Node) of the
  WHATWG DOM Standard.
- `Numbers` (`numbers.dfy`): JavaScript's `parseFloat` on a decimal numeral, and
  `Number(...)` on a run of digits and dots. Values are exact reals, and NaN is
  an explicit `None`.
- `AffineMatrix` (`affine_matrix.dfy`): the six-coefficient 2D transform with the
  standard affine product. It is the assumed behaviour of `TMat`.
- `Transforms` (`transforms.dfy`): `getMatrixArray`, `getTopLeftMatrix` and
  `getMatrix`. A round trip shows that the `matrix(a, b, c, d, e, f)` text of a
  computed 2D transform (CSS Transforms Module Level 1, serialization of
  `<transform-list>`) is read back exactly.
- `Durations` (`durations.dfy`): `timeToMS`.
- `Urls` (`urls.dfy`): `splitUrl` as the three groups of its regular
  expression, and `joinUrl`.
- `ClassNames` (`class_names.dfy`): the `className` edits.
- `UniqueIds` (`unique_ids.dfy`): the counters.
- `Browser` (`browser.dfy`): the rule table and class `DomHelpers`. Its
  `browser`, `vendorPrefix`, `browserVersion` and `cssPrefix` fields are set by
  `DetectBrowser`, `CalculatePrefixes` and the module-load constructor.
- `Strings` and `Wrappers`: shared string helpers and `Option`/`Result`.

Three behaviours of the code are kept as written:

- `commonParent(x, x)` returns `null`. The two chains never diverge, so the
  loop falls through to the final `return null`, even though the comment
  there calls that line unreachable.
- `_parents` seeds its array with the node, so the chain ends with the node
  twice.
- `uniqueID` keeps its counters in a plain object (`{}`). A prefix that names a
  property inherited from `Object.prototype`, such as `"constructor"` or
  `"toString"`, is therefore never initialised to -1. Every call with it
  returns `"<prefix>[NaN]"`, so those ids repeat.

## Model

| member | source | states |
|---|---|---|
| Tree.Lineage | src/framework/domhelpers.js:407-419 | the inclusive ancestor chain is never empty and ends with the node itself |
| Tree.LineageShape | src/framework/domhelpers.js:412-416 | the chain starts at a root, each entry is the parentNode of the next one, and ranks strictly increase along it |
| Tree.DivergencePoint | src/framework/domhelpers.js:447-449 | where two root-first chains first differ, the entry before is a common ancestor-or-self of both nodes, and every common ancestor-or-self lies on its chain (it is the nearest one) |
| Tree.NoDivergence | src/framework/domhelpers.js:447-453 | if one chain is a prefix of the other, the two nodes are the same node |
| Tree.ElementChainShape | src/framework/domhelpers.js:221-228 | each entry of the parentElement chain is an element, a strict ancestor of the start node, and the chain continues from it with its own chain |
| Dom.Document.ParentNode | src/framework/domhelpers.js:412 | the parentNode, when there is one, is a node of the document of strictly smaller rank, so the walk terminates |
| Dom.Document.ParentElement | src/framework/domhelpers.js:221 | parentElement is the first entry of the element chain, or none |
| Dom.Document.Parents | src/framework/domhelpers.js:407-419 | `_parents` returns the root-first ancestor chain followed by the node once more |
| Dom.Document.CommonParent | src/framework/domhelpers.js:428-454 | null exactly when the nodes are equal or have different roots; otherwise a common ancestor-or-self of both, and every common ancestor-or-self is on its chain (so a parent and its child give the parent) |
| Dom.Document.FindParentViewOfType | src/framework/domhelpers.js:220-233 | undefined exactly when no element ancestor has a view of the type; otherwise the view of the nearest such ancestor |
| Dom.FirstElementIndex | src/framework/domhelpers.js:29 | `children[0]` is the first child list entry that is an element; none when there is no element child |
| Dom.WrapperTag | src/framework/domhelpers.js:14-15 | the wrapper tag is the given tag when it is non-empty, and "div" when the tag is absent or empty |
| Dom.Without | src/framework/domhelpers.js:29 | removing the k-th child leaves the other children in their order |
| Dom.RemoveKeepsLinks | src/framework/domhelpers.js:29 | removeChild keeps the parent map and the child lists in agreement |
| Dom.AppendKeepsLinks | src/framework/domhelpers.js:17-19 | appending a detached node keeps the parent map and the child lists in agreement |
| Dom.MoveKeepsForest | src/framework/domhelpers.js:17 | moving the first child to another parent of smaller rank keeps the document a forest |
| Dom.AddNodeKeepsForest | src/framework/domhelpers.js:15 | adding a fresh detached node keeps the document a forest |
| Dom.MoveFirst | src/framework/domhelpers.js:17 | `appendChild(childNodes[0])` on the links keeps the set of nodes with child lists |
| Dom.MoveAll | src/framework/domhelpers.js:16-18 | repeating the move until none is left empties the source's child list and keeps the set of nodes with child lists |
| Dom.MoveAllChildLists | src/framework/domhelpers.js:16-18 | moving children one at a time until none is left empties the source and appends all its children, in order, to the target |
| Dom.MoveAllParents | src/framework/domhelpers.js:16-18 | after the moves, every moved child has the target as parent and every other parent link is unchanged |
| Dom.Wrap | src/framework/domhelpers.js:13-21 | after wrapping, the element's child list is exactly the wrapper, the wrapper's parent is the element, and the set of nodes with child lists is kept |
| Dom.WrapChildLists | src/framework/domhelpers.js:13-21 | after wrapping, the element's only child is the wrapper, and the wrapper holds the element's former children in their order |
| Dom.WrapParents | src/framework/domhelpers.js:13-21 | after wrapping, the wrapper's parent is the element, former children of the element have the wrapper as parent, and other links are unchanged |
| Dom.Unwrap | src/framework/domhelpers.js:28-33 | after unwrapping, the wrapper has no children, and the element's child list is its old list without the wrapper followed by the wrapper's children in order |
| Dom.UnwrapShape | src/framework/domhelpers.js:28-33 | unwrapping removes the wrapper from the element's child list and appends the wrapper's children, in order, after the element's remaining children; the wrapper is detached and its children link to the element |
| Dom.WrapThenUnwrapRestores | src/framework/domhelpers.js:13-33 | wrapping and then unwrapping the first child restores the original parent map and child lists |
| Dom.Document.CreateElement | src/framework/domhelpers.js:15 | a fresh element node with no parent and no children is added and nothing else changes |
| Dom.Document.RemoveChildAt | src/framework/domhelpers.js:29 | removeChild: the child is taken out of its parent's list and detached, and the document stays valid |
| Dom.Document.AppendDetached | src/framework/domhelpers.js:19 | appendChild of a detached node appends it to the list and links it to the parent |
| Dom.Document.MoveFirstChild | src/framework/domhelpers.js:17 | `appendChild(childNodes[0])` moves the first child to the end of the target's list |
| Dom.Document.MoveAllChildren | src/framework/domhelpers.js:16-18 | the `while (childNodes.length)` loop ends in the state `MoveAll` describes, and the document stays valid |
| Dom.Document.WrapChildren | src/framework/domhelpers.js:13-21 | creates a fresh wrapper element with the given tag (taking the next node number) and leaves the document in the state `Wrap` describes |
| Dom.Document.UnwrapChildren | src/framework/domhelpers.js:28-33 | fails, changing nothing, exactly when the element has no element child; otherwise leaves the document in the state `Unwrap` describes for its first element child |
| Dom.Document.AddClass | src/framework/domhelpers.js:34-36 | the element's className becomes the appended string, which then holds the name as a whole token |
| Dom.Document.RemoveClass | src/framework/domhelpers.js:37-39 | the element's className becomes the string with the name's first whole-token occurrence removed |
| Dom.Document.UniqueId | src/framework/domhelpers.js:273-288 | the document's counters and the returned id advance as one `Issue` step, including the repeated `prefix[NaN]` for inherited property names |
| DocumentOrder.ComparePosition | src/framework/domhelpers.js:164-177 | 0 for the same node; with a bitmask, an error exactly when DISCONNECTED is set, else 1 exactly when PRECEDING or CONTAINS is set and -1 otherwise; with source indexes, their difference |
| DocumentOrder.CompareStandardMask | src/framework/domhelpers.js:170-175 | on the masks the DOM Standard gives, other node before or ancestor gives 1, after or descendant gives -1, different documents give the error |
| DocumentOrder.CompareAntisymmetric | src/framework/domhelpers.js:170-175 | for connected nodes, swapping the two arguments negates the result |
| DocumentOrder.SourceIndexAntisymmetric | src/framework/domhelpers.js:166-169 | the sourceIndex fallback is antisymmetric too |
| Transforms.FirstNonEmpty | src/framework/domhelpers.js:457-462 | the first non-empty property value in list order wins; "FAIL" when all are empty |
| Transforms.ResolvedTransform | src/framework/domhelpers.js:457-462 | the transform text is never empty: the `-webkit-` value wins when set, and "FAIL" is read when every candidate is empty |
| Transforms.Collect | src/framework/domhelpers.js:469-476 | succeeds exactly when every field reads as a number, then with those numbers in order; otherwise fails at the first field that is not a number |
| Transforms.Readings | src/framework/domhelpers.js:469-474 | field i is read with parseFloat after all whitespace is removed |
| Transforms.ParseFields | src/framework/domhelpers.js:469-476 | succeeds exactly when every stripped field reads as a number, giving those numbers in order; otherwise fails at the first field that does not |
| Transforms.ArgumentFields | src/framework/domhelpers.js:468 | the split chain yields fields exactly when the text holds a "(", and no field holds a "," |
| Transforms.GetMatrixArray | src/framework/domhelpers.js:455-480 | "none" gives the identity array; no "(" fails; fewer than six fields fail; with six or more fields the result is that of reading the first six (ok exactly when each reads as a number); a result has six values, each the parseFloat reading of the corresponding stripped field |
| Transforms.GetTopLeftMatrix | src/framework/domhelpers.js:497-505 | the matrix moves every point by (offsetLeft, offsetTop) |
| Transforms.GetMatrix | src/framework/domhelpers.js:482-495 | succeeds exactly when getMatrixArray does, failing with its error otherwise; the matrix is the offset translation times the element's matrix, in that order |
| Transforms.GetMatrixAppliesOffsetLast | src/framework/domhelpers.js:482-495 | a point goes through the element's transform first and is then moved by the layout offset |
| Transforms.SerializedFields | src/framework/domhelpers.js:468 | the split chain recovers the six fields of a serialized `matrix(...)` text |
| Transforms.ParseSerializedFields | src/framework/domhelpers.js:469-476 | each serialized coefficient reads back as its exact value |
| Transforms.ReadSerializedMatrix | src/framework/domhelpers.js:455-480 | getMatrixArray on a computed `matrix(a, b, c, d, e, f)` value gives back exactly the six coefficients |
| Transforms.UntransformedIsOffset | src/framework/domhelpers.js:465-466 | with no transform, getMatrix is the translation by the offset |
| Transforms.OffsetAppliedLast | src/framework/domhelpers.js:492 | the composed matrix applies the element's transform first, then adds the offset |
| Transforms.OriginPlacement | src/framework/domhelpers.js:482-505 | the composed matrix maps the origin to the offset plus the transform's translation |
| Transforms.TranslatedChild | src/framework/domhelpers.js:482-495 | a translation by (100, 0) at offset (5, 5) composes to the translation by (105, 5) |
| Transforms.OffsetIsOuterOperand | src/framework/domhelpers.js:492 | for a scaling, the offset is not scaled; the reversed product would scale it |
| AffineMatrix.FromArray | src/framework/domhelpers.js:483 | the six array entries become the coefficients a, b, c, d, tx, ty in order |
| AffineMatrix.Ttrans | src/framework/domhelpers.js:504 | the translation matrix adds (x, y) to every point |
| AffineMatrix.Prod | src/framework/domhelpers.js:492 | `A.prod(B)` applies B first and then A to every point |
| AffineMatrix.ProdIdentity | src/framework/domhelpers.js:492 | the identity matrix is neutral on both sides of the product |
| AffineMatrix.ProdAssociative | src/framework/domhelpers.js:492 | the product is associative |
| Numbers.ParseDigits | src/framework/domhelpers.js:469 | the unsigned reading inside parseFloat takes a run of digits as its decimal value |
| Numbers.ParseDigitsWithFraction | src/framework/domhelpers.js:469 | the unsigned reading inside parseFloat takes digits, a point and digits as the decimal fraction |
| Numbers.ParseFormatFixed | src/framework/domhelpers.js:469-474 | parseFloat reads the numeral of any decimal, negative or not, back as its exact value |
| Numbers.ParseFloat | src/framework/domhelpers.js:469 | parseFloat gives NaN unless the text, after leading whitespace, starts with a digit, a sign or a point |
| Numbers.DigitsAndDotsToNumber | src/framework/domhelpers.js:241-245 | `Number(...)` of a string of digits alone is its decimal value |
| Numbers.NumberWithOnePoint | src/framework/domhelpers.js:241-245 | `Number(...)` of digits, one point and digits is the decimal they spell, and NaN when there is no digit at all |
| Durations.DigitsAndPoints | src/framework/domhelpers.js:235 | the captured `[\d\.]*` group is the longest prefix of digits and points |
| Durations.UnitFactor | src/framework/domhelpers.js:237-246 | only "s", "min" and "h" scale, by exactly 1000, 60000 and 3600000 |
| Durations.TimeToMS | src/framework/domhelpers.js:234-248 | the captured text comes back only for `<digits and points>ms`; when what follows the digits and points is not one of the four units, the result is 0 |
| Durations.TimeToMSShape | src/framework/domhelpers.js:234-248 | the captured text is returned only for `<digits and points>ms`; any result other than 0 comes from a string that is digits and points followed by a unit |
| Durations.TimeOfUnit | src/framework/domhelpers.js:237-246 | "ms" returns the captured text unconverted; "s", "min" and "h" scale its number by 1000, 60000 and 3600000 |
| Durations.ScaledDigits | src/framework/domhelpers.js:241-245 | a digits-only number is scaled exactly |
| Durations.WholeUnits | src/framework/domhelpers.js:240-245 | whole seconds, minutes and hours become their millisecond counts |
| Durations.BareUnitIsZero | src/framework/domhelpers.js:241 | a unit without digits counts as 0, because `Number("")` is 0 |
| Durations.NumberWithTwoPoints | src/framework/domhelpers.js:241-245 | `Number(...)` of digits with two or more points is NaN |
| Durations.TwoPointsIsNaN | src/framework/domhelpers.js:241 | a number with two or more points passes the pattern but gives NaN |
| Durations.LonePointIsNaN | src/framework/domhelpers.js:243 | a lone point before the unit gives NaN |
| Durations.UnknownUnitIsZero | src/framework/domhelpers.js:235-236 | an unknown unit, the empty string or a space before the unit gives 0 |
| Urls.Groups | src/framework/domhelpers.js:297-301 | the groups recompose the URL: the location is non-empty and free of "?" and "#", the query is free of "#", and a hash exists exactly when there is a "#", holding everything after the first one |
| Urls.SplitUrl | src/framework/domhelpers.js:295-302 | the match fails exactly when the text after the first "#" holds a line terminator; otherwise the parts are well formed and recompose the URL |
| Urls.SplitRecompose | src/framework/domhelpers.js:295-302 | splitting the text of well-formed parts gives back those parts |
| Urls.SplitUrlFailsOnlyWithoutParts | src/framework/domhelpers.js:297 | a URL the match refuses is the text of no well-formed parts |
| Urls.JoinUrl | src/framework/domhelpers.js:332-339 | the join is the text of the parts with an empty query dropped and the hash dropped when it is empty or `noHash` is set |
| Urls.JoinSplitUrl | src/framework/domhelpers.js:332-338 | joining split parts gives back the URL exactly when there is no empty query after "?" and no empty hash after "#" |
| Urls.JoinSplitUrlDropsEmpty | src/framework/domhelpers.js:332-338 | the join drops just an empty query's "?" and an empty hash's "#" |
| Urls.JoinWithoutHash | src/framework/domhelpers.js:335-336 | with `noHash` the join is that of the parts without their hash |
| Urls.SplitJoinUrl | src/framework/domhelpers.js:295-339 | well-formed parts without empty groups survive a join followed by a split |
| ClassNames.WithClass | src/framework/domhelpers.js:34-36 | an empty class string becomes the name; otherwise the name is appended after one space |
| ClassNames.WithoutClass | src/framework/domhelpers.js:37-39 | unchanged without a whole-token occurrence; otherwise the leftmost occurrence is removed with the whitespace runs on both sides |
| ClassNames.AddedClassPresent | src/framework/domhelpers.js:34-36 | after addClass the name is present as a whole token |
| ClassNames.RemoveAddedClass | src/framework/domhelpers.js:34-39 | removing a freshly added class, when the name was not already present, restores a class string that ends in a non-space character |
| ClassNames.RemoveMiddleClass | src/framework/domhelpers.js:37-39 | removing "b" from "a b c" gives "ac" |
| UniqueIds.Issue | src/framework/domhelpers.js:273-288 | one call advances only its prefix's counter, starting from -1, and the id carries the new value; a prefix naming a property the hash object inherits (the `inherited` argument, which the document sets to the `Object.prototype` names) gets `prefix[NaN]` and changes no counter |
| UniqueIds.IssueAdvances | src/framework/domhelpers.js:280-286 | for a prefix that is not an inherited property name, the id carries the next number and the next number grows by one |
| UniqueIds.IssueManyConsecutive | src/framework/domhelpers.js:273-288 | successive calls with one prefix that is not an inherited property name give `prefix[n]`, `prefix[n+1]`, …, or the bare numbers n, n+1, … without a prefix |
| UniqueIds.IssueManyAdvancesNext | src/framework/domhelpers.js:280-286 | after `count` calls with one prefix that is not an inherited property name, that prefix's next number has grown by `count` |
| UniqueIds.IssueManyKeepsOthers | src/framework/domhelpers.js:278-286 | the counters of other prefixes are unchanged |
| UniqueIds.IdForInjective | src/framework/domhelpers.js:283-287 | different numbers give different ids for one prefix |
| UniqueIds.NamedIdDeterminesPrefix | src/framework/domhelpers.js:284 | an id text `p[m]` determines both the prefix and the number |
| UniqueIds.IssuedIdsDistinct | src/framework/domhelpers.js:273-288 | a run of calls with one prefix that is not an inherited property name never repeats an id |
| UniqueIds.InheritedPrefixRepeats | src/framework/domhelpers.js:276-285 | with a prefix naming a property the hash inherits, every call returns `prefix[NaN]` and the counters stay as they were |
| UniqueIds.ConstructorIdRepeats | src/framework/domhelpers.js:276-285 | two calls with the prefix "constructor" both return "constructor[NaN]" |
| UniqueIds.MinusOneSharesCounter | src/framework/domhelpers.js:279-286 | the prefix "-1" shares the counter of a missing prefix |
| Browser.TridentMatch | src/framework/domhelpers.js:58 | the match of `/Trident.*rv\:/`: the leftmost "Trident" that can match, with the last "rv:" before its line ends; no match starts earlier |
| Browser.ApplyTridentMatches | src/framework/domhelpers.js:58-61 | the Trident rule fires exactly when its pattern matches, and its version is the digit run after the "rv:" of the leftmost, greedy match |
| Browser.ApplyToken | src/framework/domhelpers.js:50-77 | a token rule fires exactly when its token occurs, with that rule's browser name and vendor prefix |
| Browser.ApplyTokenVersion | src/framework/domhelpers.js:50-77 | the version is the digit run right after the leftmost occurrence of the token, or 0 for AppleWebKit |
| Browser.Apply | src/framework/domhelpers.js:50-77 | any rule fires exactly when its pattern matches, with its browser name and prefix |
| Browser.DetectIn | src/framework/domhelpers.js:50-78 | rules tried in order detect nothing exactly when none of them matches |
| Browser.Detect | src/framework/domhelpers.js:44-79 | the rule table detects nothing exactly when none of its rules matches |
| Browser.DetectFirstMatch | src/framework/domhelpers.js:50-78 | the first matching rule in table order decides the outcome |
| Browser.EarlierRuleWins | src/framework/domhelpers.js:50-78 | a matching rule is overridden only by an earlier one |
| Browser.EdgeTokenDecides | src/framework/domhelpers.js:50-53 | an "Edge/" token decides, whatever other tokens the string has |
| Browser.PrefixFollowsEngine | src/framework/domhelpers.js:50-77 | "-ms-" goes with edge and ie, the empty prefix with firefox, "-webkit-" with chrome, safari and webkit |
| Browser.Prefixed | src/framework/domhelpers.js:83 | a non-empty vendor prefix is put in front of the name; otherwise the name stays |
| Browser.DomHelpers.DetectBrowser | src/framework/domhelpers.js:44-79 | outside a browser only `browser` is set, to "node"; otherwise the detected rule sets all three fields, and without a match nothing changes |
| Browser.DomHelpers.CalculatePrefixes | src/framework/domhelpers.js:80-85 | every listed name maps to its prefixed form; other entries stay as they were |
| Browser.DomHelpers.constructor | src/framework/domhelpers.js:507-508 | after module load the detection fields are set as detectBrowser says, and the table holds exactly "transform" and "transform-origin", each with its prefixed form |
| Strings.JoinSplit | src/framework/domhelpers.js:468 | joining the pieces of a split with the separator gives the text back |
| Strings.SplitJoin | src/framework/domhelpers.js:468 | splitting a join of separator-free pieces gives the pieces back |
| Strings.StripWhitespace | src/framework/domhelpers.js:469 | `replace(/\s+/g, '')` leaves no whitespace; a single character is dropped exactly when it is whitespace |
| Strings.StripWhitespaceAppend | src/framework/domhelpers.js:469 | stripping a concatenation strips each part, so the result is the text's non-whitespace characters in their order |
| Strings.SplitCount | src/framework/domhelpers.js:468 | a split has at least two pieces exactly when the separator occurs |
| Strings.DigitsValueOfDecimal | src/framework/domhelpers.js:284 | the decimal text of a counter reads back as that number |

## Left out

- `postAnimationFrame`: scheduling with `requestAnimationFrame` and `setTimeout`; its point is timing.
- `addDelegtedListener`: event-listener plumbing, and the `Element.matches` polyfill it installs on a browser global.
- `selectView`, `getAbsoluteUrl`, `getAttributeLJ`, `hasAttributeLJ`, `setAttributeLJ`: thin calls into `querySelectorAll`, anchor-element URL resolution and the DOM attribute API.
- `parseDimension`: depends on the window size, the computed font size, and `Number`/`parseInt` float semantics.
- `parseStringForTransitions`: its parameter table lives in `defaults.js`, which is not part of this model.
- `tmat.js` is not part of this model. `TMat` is assumed to be the standard 2D affine matrix, with `prod` applying its argument first.
- Floating point: numbers are exact reals. NaN is an explicit `None` or error. Infinity, overflow and rounding are not modelled.
- Transforms.GetMatrixArray: where a coefficient is NaN, the source returns an array holding NaN. The model fails with `NotANumber` at the first such field.
- Transforms.OriginPlacement: stated on the six coefficients, not on a computed style. `ReadSerializedMatrix` links the two.
- Numbers.ParseFloat: reads the decimal grammar with sign, fraction and exponent. The `Infinity` literal is not modelled.
- Durations.TimeToMS: `time` is a string. JavaScript's other falsy inputs (`undefined`, `null`) are represented by the empty string, which also gives 0, and non-string inputs are not modelled.
- Dom.Document.RemoveClass: requires a non-empty class name without whitespace and without regular-expression metacharacters, because the source splices the name into a `RegExp` unescaped.
- Dom.Document.UnwrapChildren: when the element has no element child, the source calls `removeChild(undefined)` and throws. The model returns `false` and changes nothing.
- Dom.Document.CreateElement: the tag name is not validated, and `ownerDocument` is the single modelled document.
- Dom.Document.UniqueId: the `doc` parameter with its `document` default is the one modelled document. A prefix is a string or absent. A non-string prefix other than the missing one is not modelled. The inherited property names are those of `Object.prototype` in current engines (`UniqueIds.ObjectPrototypeNames`). A property added to `Object.prototype` by other scripts is not modelled.
- DocumentOrder.ComparePosition: the `compareDocumentPosition` mask and the `sourceIndex` values are inputs. The throw is the `DifferentDocuments` error.
- Urls.SplitUrl: a failed match, where the source throws on `match[1]`, is `None`. Inputs that are not strings are not modelled.
- Urls.JoinUrl: `noHash` is a boolean. The source omits the hash only for the value `true`.
- Browser.DomHelpers.constructor: `navigator` is modelled as an optional user-agent string. The `cssPrefix` table that starts out undefined is modelled as an empty map.
- Browser.Detect: the rule table assumes JavaScript regular expressions without flags, so `.` does not match line terminators.
