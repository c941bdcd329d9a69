# Form builder text format

This Dafny project models the core of a single-page form builder (`src/App.js`).
The page shows a list of form items. Each item has an id and 13 input slots.
A "total output" text box holds the whole list as text. The page has handlers that:

* edit one slot of an item;
* add an item with a fresh id;
* remove items;
* clear the list;
* write the list into the text box ("generate");
* read the list back from the text box ("parse").

The text format has two levels:

* Items are separated by `|`.
* The 13 values of an item are separated by the full-width comma `，` (U+FF0C).
* The values are written in the fixed slot order `1, 2, 6, 9, 10, 11, 12, 13, 3, 8, 5, 7, 4`.

The parser accepts both variants of each separator: `｜` (U+FF5C) as well as `|`, and `,` as well as `，`. It also does the following:

* It trims every item string and drops the blank ones.
* It keeps empty values between value separators.
* It pads an item to 13 values or cuts it to 13.
* It trims every value.
* It numbers the new items 1..N.
* A blank text box, or a text with no non-blank item string, leaves the list as it is.

Modules:

* `Strings` models the JavaScript string built-ins the component uses:
  * `trim`, with the exact ECMAScript white-space and line-terminator set;
  * `replace` of one character;
  * `split` on one character;
  * `join`.
* `FieldOrder` holds the slot order and its inverse.
* `FormItems` holds the item value and the pure list transforms: edit, add and remove.
* `Codec` holds the writer, the reader as specification functions, and the parse loops as methods proved against those functions. It also holds the properties of the format: the round trip, separator equivalence, stability of a parsed list, and the no-op cases.
* `Component` holds class `App`. Its fields are `formItems` and `totalOutput`, and it has one method per handler.

## Model

| member | source | states |
|---|---|---|
| FieldOrder.OutputOrderIsPermutation | src/App.js:12 | the output order has 13 entries, each a slot 1..13, none twice, every slot present |
| FieldOrder.PositionOf | src/App.js:12 | for a slot 1..13, the output position that carries it: `OutputOrder[PositionOf(slot)] == slot` |
| FieldOrder.PositionOfInverse | src/App.js:12 | `PositionOf` is the inverse of `OutputOrder` on positions 0..12 |
| FieldOrder.IndexOf | src/App.js:12 | the first index holding `x`, or the length when `x` is absent |
| FieldOrder.OutputOrder | src/App.js:12 | the output order `1, 2, 6, 9, 10, 11, 12, 13, 3, 8, 5, 7, 4` as written; `OutputOrderIsPermutation` proves it is a permutation of the slots 1..13 |
| FormItems.Lookup | src/App.js:37 | `item.values[index] || ''`: the value of the slot, or `''` when the slot is absent; `SerializeItemShape` and `ParsedItemSlot` state it for writing and reading |
| FormItems.WithValue | src/App.js:17 | `{ ...item.values, [index]: value }`: the id is kept and slot `index` is set; `EditItems` states that every other slot and key stays |
| FormItems.EditItems | src/App.js:14-20 | same length, ids and order; items with another id unchanged; in items with the id, slot `index` becomes `value`, every other slot and key stays, the key set gains `index`; distinct ids stay distinct |
| FormItems.MaxId | src/App.js:23 | `Math.max(...ids, 0)`: non-negative, at least every id, and either 0 or the id of some item |
| FormItems.NextId | src/App.js:23 | the new id is at least 1 and larger than every id in the list |
| FormItems.AddItem | src/App.js:22-25 | the old list followed by one item with no values whose id exceeds every old id; distinct ids stay distinct |
| FormItems.RemoveItems | src/App.js:27-29 | an item is kept exactly when it was there and has another id; at most as long; distinct ids stay distinct |
| FormItems.RemoveItemsAppend | src/App.js:27-29 | removal keeps order: removing from `a + b` is removing from `a` then from `b` |
| FormItems.RemoveAbsentId | src/App.js:27-29 | removing an id that no item has leaves the list unchanged |
| FormItems.RemoveItemsCount | src/App.js:27-29 | exactly as many items disappear as carry the id |
| Strings.TrimStart | src/App.js:44 | no longer than the input; empty or starting with a non-space |
| Strings.TrimStartDrops | src/App.js:44 | the result is a suffix of the input and what is dropped is all white space |
| Strings.TrimEnd | src/App.js:44 | no longer than the input; empty or ending with a non-space |
| Strings.TrimEndDrops | src/App.js:44 | the result is a prefix of the input and what is dropped is all white space |
| Strings.IsSpace | src/App.js:44 | the characters `trim` removes: the ECMAScript WhiteSpace and LineTerminator set; `TrimStartDrops`, `TrimEndDrops` and `TrimEmpty` state what trimming does with them |
| Strings.Trim | src/App.js:44 | no longer than the input, and no white space at either end |
| Strings.TrimEmpty | src/App.js:44 | `s.trim()` is empty exactly when `s` is all white space (the `!totalOutput.trim()` test) |
| Strings.TrimOfTrimmed | src/App.js:51 | trimming a string with no white space at its ends leaves it unchanged |
| Strings.TrimKeepsAbsent | src/App.js:76 | trimming adds no character |
| Strings.TrimStartKeepsAbsent | src/App.js:44 | trimming the start adds no character |
| Strings.TrimEndKeepsAbsent | src/App.js:44 | trimming the end adds no character |
| Strings.TrimStartBefore | src/App.js:51 | trimming the start stops at the first non-space: `a + [c] + b` loses only white space from `a` |
| Strings.TrimEndAfter | src/App.js:51 | trimming the end stops at the last non-space: `a + [c] + b` loses only white space from `b` |
| Strings.TrimEndCons | src/App.js:51 | trimming the end of `[x] + t` trims `t`, dropping `x` too only when `x` is white space and nothing of `t` is left |
| Strings.TrimStartEnd | src/App.js:51 | trimming the start and trimming the end commute |
| Strings.TrimOfTrimStart | src/App.js:51 | trimming after trimming the start is trimming |
| Strings.TrimOfTrimEnd | src/App.js:51 | trimming after trimming the end is trimming |
| Strings.Replace | src/App.js:50 | `replace(/c/g, d)` keeps the length |
| Strings.ReplaceAt | src/App.js:50 | each character equal to the target is replaced; no other character changes |
| Strings.ReplaceAppend | src/App.js:50 | replacing distributes over concatenation |
| Strings.ReplaceAbsent | src/App.js:50 | replacing a character that is absent changes nothing |
| Strings.ReplaceKeepsAbsent | src/App.js:57 | replacing adds no character other than the replacement |
| Strings.ReplaceIdempotent | src/App.js:50 | after the replacement the target is gone, and replacing again changes nothing |
| Strings.TrimStartReplace | src/App.js:50-51 | replacing one non-space by another commutes with trimming the start |
| Strings.TrimEndReplace | src/App.js:50-51 | replacing one non-space by another commutes with trimming the end |
| Strings.TrimReplace | src/App.js:50-51 | replacing one non-space by another commutes with trimming |
| Strings.Split | src/App.js:59 | `split` always gives at least one piece |
| Strings.SplitPieces | src/App.js:59 | no piece contains the separator |
| Strings.SplitKeepsAbsent | src/App.js:59 | splitting adds no character |
| Strings.SplitKeepsEmptyPieces | src/App.js:58-59 | `"a,,b".split(',')` is `["a", "", "b"]`: empty values between separators are kept |
| Strings.SplitLength | src/App.js:59 | one piece more than there are separators |
| Strings.JoinSplit | src/App.js:38-40 | joining the pieces with the separator gives back the string |
| Strings.Join | src/App.js:38-40 | `Array.prototype.join`: the parts with the separator between each two; `JoinSplit` and `SplitJoin` prove it is the inverse of `split` for separator-free parts |
| Strings.SplitJoin | src/App.js:38-40 | splitting a join of separator-free parts gives back the parts |
| Strings.SplitWithoutSep | src/App.js:59 | a string without the separator is one piece |
| Strings.SplitPrefix | src/App.js:59 | a separator-free prefix becomes part of the first piece |
| Strings.SplitAtOne | src/App.js:51 | one separator between two separator-free strings gives exactly those two pieces |
| Strings.JoinAbsent | src/App.js:38-40 | joining adds no character other than the separator |
| Strings.ReplaceAfterHead | src/App.js:50 | replacing in `head + [from] + tail` where `head` lacks `from` |
| Strings.ReplaceJoin | src/App.js:38-40 | replacing the separator of a join of separator-free parts gives the join with the new separator |
| Strings.JoinTrimmed | src/App.js:38-40 | a join of trimmed parts with a non-space separator is trimmed |
| Strings.JoinNotEmpty | src/App.js:38-40 | a join of two or more parts is never empty |
| Strings.JoinSnoc | src/App.js:38-40 | a join of two or more parts is the join of all but the last, the separator, and the last part |
| Strings.TrimEnds | src/App.js:38-51 | the parts of a join with the start of the first and the end of the last trimmed: as many parts as before |
| Strings.TrimStartJoin | src/App.js:38-51 | trimming the start of a join is the join with only the first part's start trimmed |
| Strings.TrimEndJoin | src/App.js:38-51 | trimming the end of a join is the join with only the last part's end trimmed |
| Strings.TrimJoin | src/App.js:38-51 | trimming a join of two or more parts with a non-space separator trims only the outer ends: the join of `TrimEnds` |
| Strings.TrimEndsKeepsAbsent | src/App.js:38-51 | trimming the outer ends adds no character to any part |
| Strings.TrimOfTrimEnds | src/App.js:38-78 | each part of `TrimEnds` trims to what the original part trims to |
| Codec.Serialize | src/App.js:35-41 | the written text is empty exactly when the list is empty |
| Codec.SegmentsJoinNotEmpty | src/App.js:35-40 | the join of the segments of a non-empty list is never empty: an item alone writes 12 `，` |
| Codec.OrderedValues | src/App.js:37 | the 13 values of an item in output order, `''` for an absent slot; `SerializeItemShape` states it position by position |
| Codec.SerializeItem | src/App.js:36-38 | one item as its ordered values joined with `，`; `SerializeItemShape` proves its 13 values and 12 separators |
| Codec.SerializeItemShape | src/App.js:36-39 | an item is written as exactly 13 values with 12 `，`; position `k` holds slot `OutputOrder[k]`, or `''` when the slot is absent |
| Codec.SerializeShape | src/App.js:35-41 | N items are written as N segments with N - 1 `|` |
| Codec.KeepTrimmed | src/App.js:51 | `.map(trim).filter(s => s)`: no more pieces than before; each one kept is non-empty and trimmed |
| Codec.KeepTrimmedEmpty | src/App.js:51 | nothing survives exactly when every piece is white space |
| Codec.KeepTrimmedAll | src/App.js:51 | pieces that are non-empty and trimmed all survive, unchanged |
| Codec.KeepTrimmedReplace | src/App.js:51-57 | trimming and filtering commute with replacing `，` by `,` |
| Codec.KeepTrimmedKeepsAbsent | src/App.js:51 | trimming and filtering add no character |
| Codec.KeepTrimmedTwo | src/App.js:51 | two non-blank pieces both survive |
| Codec.KeepTrimmedAppend | src/App.js:51 | trimming and filtering keep order: the pieces of `a + b` give those of `a` then those of `b` |
| Codec.KeepTrimmedOne | src/App.js:51 | one piece is dropped when it is all white space and otherwise kept trimmed |
| Codec.KeepTrimmedNonBlank | src/App.js:51 | pieces none of which is blank all survive, each trimmed, in order |
| Codec.ItemStrings | src/App.js:50-51 | `｜` replaced by `|`, split on `|`, trimmed, blanks dropped; `ItemStringsAvoid`, `ItemStringsNormalized` and `SerializedItemStringsTrimmed` state what it gives |
| Codec.Fields | src/App.js:57-59 | `，` replaced by `,`, split on `,`, empty values kept; `FieldsAvoid` and `ReadSegment` state what it gives |
| Codec.Fitted | src/App.js:63-68 | after padding and slicing there are exactly 13 values |
| Codec.FittedAt | src/App.js:63-68 | value `k` is raw value `k` when there is one and `''` otherwise; values past the 13th are dropped |
| Codec.SlotValues | src/App.js:71-78 | value `k` trimmed goes to slot `OutputOrder[k]`; `SlotValuesAt` and `SlotValuesUnique` characterise it |
| Codec.ParsedItem | src/App.js:54-85 | the item one item string parses to; `ParsedItemSlot` states each slot and `ParsedItemClean` that it is canonical |
| Codec.ParsedItems | src/App.js:54-85 | each item string parsed with id `index + 1`; `ParsedItemsSnoc` and `ParsedItemsAre` characterise it |
| Codec.AfterParse | src/App.js:87-90 | the new list when one was parsed, the old one otherwise; `AfterParseCases` and `ParseKeeps` state both cases |
| Codec.PadFields | src/App.js:63-68 | the `while (values.length < 13) push('')` loop and `slice(0, 13)` compute `Fitted` |
| Codec.SlotValuesAt | src/App.js:71-78 | the parsed values have exactly the keys 1..13, and slot `OutputOrder[k]` holds value `k` trimmed |
| Codec.SlotValuesUnique | src/App.js:71-78 | a map with slot `OutputOrder[k]` holding value `k` trimmed, and no other keys, is `SlotValues` |
| Codec.FillSlots | src/App.js:71-78 | the `forEach` loop over a duplicate-free order gives each named slot its own trimmed value and writes no other key |
| Codec.AssignSlots | src/App.js:70-78 | the loop over `outputOrder` builds exactly `SlotValues` |
| Codec.ParseItem | src/App.js:54-85 | the per-item callback builds exactly `ParsedItem` |
| Codec.ParsedItemsSnoc | src/App.js:54 | mapping one more item string appends one item numbered after the others |
| Codec.ParseItems | src/App.js:54-85 | the `itemStrings.map` loop builds exactly `ParsedItems`, with ids `index + 1` |
| Codec.ParsedItemsAre | src/App.js:54-84 | a list that matches the parse of each item string, with id `i + 1`, is the parse of the item strings |
| Codec.ParsedItemSlot | src/App.js:57-78 | slot `OutputOrder[k]` of a parsed item holds raw value `k` trimmed, or `''` when the item string has fewer values |
| Codec.Parse | src/App.js:43-91 | a replacement list is never empty, has distinct ids and numbers its items 1..N |
| Codec.ParseKeeps | src/App.js:43-91 | the list is kept exactly when no non-blank item string survives; an all-white-space text always keeps it |
| Codec.AfterParseCases | src/App.js:43-91 | after a parse the list is the old one or a non-empty list numbered 1..N; a blank text keeps the old one |
| Codec.SplitReplace | src/App.js:50-59 | replacing a character other than the separator commutes with splitting |
| Codec.ReplaceEachAppend | src/App.js:57 | replacing in each piece distributes over concatenation |
| Codec.ItemStringsNormalized | src/App.js:50-57 | normalizing `，` first gives the same item strings with `，` replaced |
| Codec.ParsedItemsNormalized | src/App.js:57 | each item string parses the same before and after its `，` become `,` |
| Codec.TrimNormalized | src/App.js:44-57 | a text is blank exactly when its normalized form is |
| Codec.ParseNormalized | src/App.js:50-57 | parsing gives the same result whichever variant of each separator the text uses |
| Codec.SeparatorsInterchangeable | src/App.js:50-57 | two texts that differ only in the separator variants parse to the same result |
| Codec.SegmentShape | src/App.js:36-38 | a clean item's segment is non-empty, trimmed, free of `|` and `｜`, and its raw values are its ordered values |
| Codec.SlotValuesOfOrdered | src/App.js:37-78 | reading a clean item's ordered values back gives its canonical form |
| Codec.ItemRoundTrip | src/App.js:36-85 | one clean item written and parsed with id `id` is its canonical form |
| Codec.SerializedItemStrings | src/App.js:40-51 | the item strings of a written non-empty clean list are its segments, and the text is not blank |
| Codec.RoundTrip | src/App.js:35-91 | parsing what was written gives back a non-empty list of clean values, numbered 1..N, every slot present and unchanged |
| Codec.ReadBackOfClean | src/App.js:76 | for clean values, reading back with every slot trimmed is the canonical form |
| Codec.ReadSegment | src/App.js:36-59 | a written item whose values hold no separator is a non-blank segment free of `|` and `｜`; trimmed and split it gives its ordered values with the outer ends trimmed |
| Codec.SlotValuesSameTrim | src/App.js:71-78 | values that trim alike give the same slots |
| Codec.SlotValuesOfOrderedTrimmed | src/App.js:37-78 | an item's ordered values read back into its slots, each trimmed |
| Codec.SlotValuesOfTrimEnds | src/App.js:37-78 | the ordered values with their outer ends trimmed read back into the item's slots, each trimmed |
| Codec.ItemReadBack | src/App.js:36-85 | one item whose values hold no separator, written and parsed with id `id`, comes back with every slot present and trimmed |
| Codec.SerializedItemStringsTrimmed | src/App.js:40-51 | the item strings of a written non-empty separator-free list are its segments trimmed, and the text is not blank |
| Codec.ReadBackRoundTrip | src/App.js:35-91 | parsing what was written gives back a non-empty list whose values hold no separator, numbered 1..N, every slot present and trimmed |
| Codec.GenerateThenParse | src/App.js:35-91 | generating then parsing keeps an empty list as it is; a non-empty separator-free list becomes itself numbered 1..N with every slot trimmed, and a clean one its canonical form |
| Codec.TwoItemStrings | src/App.js:50-51 | two non-blank, separator-free strings around one `|` give two item strings |
| Codec.SeparatorInValueSplitsItem | src/App.js:35-91 | an item whose slot 1 holds `a|b` is written as a text that parses to two items: the format has no escaping |
| Codec.ItemStringsAvoid | src/App.js:50-51 | no item string contains `|` or `｜` |
| Codec.FieldsAvoid | src/App.js:57-59 | the raw values of such an item string contain none of the four separators |
| Codec.ParsedItemClean | src/App.js:54-85 | a parsed item has all 13 slots, each holding a clean value, so it is already canonical |
| Codec.CanonicalList | src/App.js:81-84 | a list of canonical items numbered 1..N is its own canonical form |
| Codec.ParsedItemsStable | src/App.js:35-91 | the items parsed from item strings survive writing and parsing again |
| Codec.ParseStable | src/App.js:35-91 | writing a parsed list and parsing it again gives the same list |
| Component.App.constructor | src/App.js:8-9 | the initial state is one empty item with id 1 and an empty text box |
| Component.App.InputChange | src/App.js:14-20 | the list becomes `EditItems` of the old list; the text box is unchanged; distinct ids stay distinct |
| Component.App.AddFormItem | src/App.js:22-25 | the list becomes `AddItem` of the old list; the text box is unchanged; distinct ids stay distinct |
| Component.App.RemoveFormItem | src/App.js:27-29 | the list becomes `RemoveItems` of the old list; the text box is unchanged; distinct ids stay distinct |
| Component.App.ClearAllFormItems | src/App.js:31-33 | the list becomes empty; the text box is unchanged |
| Component.App.GenerateTotal | src/App.js:35-41 | the text box becomes `Serialize` of the list; the list is unchanged |
| Component.App.ParseTotal | src/App.js:43-91 | the list becomes `AfterParse` of the old list and text; the text box is unchanged; distinct ids stay distinct |
| Component.App.EditTotal | src/App.js:148 | typing replaces the text of the box; the list is unchanged |
| Component.App.ClearTotal | src/App.js:159 | the clear button empties the text box; the list is unchanged |

A value is separator-free when it contains none of `,`, `，`, `|` and `｜`. It is clean when it is separator-free and has no white space at either end.
The canonical form of an item has all 13 slots present. A slot that was absent holds `''`.

## Left out

- Rendering: `renderFormItem` (lines 93-137) and the rest of the JSX are left out. This covers the labels, the input widgets and the styles. Only the handlers they call are modelled.
- React state batching and the functional `prev =>` updates are left out. Each handler is one atomic update of the two fields. `handleAddFormItem` computes the new id from the list it sees and appends to that same list.
- Slot keys are modelled as `int`. In JavaScript, object keys are strings, but every key the component uses is one of the numbers 1..13.
- Numbers: ids are unbounded `int`. JavaScript numbers are doubles, which stay exact far beyond any list a page shows.
- The `!== undefined` and `typeof rawValue === 'string'` tests at lines 74-76 are left out. After `slice(0, 13)`, each of the 13 values is a string, so both tests always pass.
- Codec.ReadBackRoundTrip, Codec.GenerateThenParse: stated only for values that hold no separator. The format has no escaping, so a value holding a separator does not come back: `Codec.SeparatorInValueSplitsItem` proves that a value holding `|` makes the text parse to a different number of items.
- White space is the fixed ECMAScript set: WhiteSpace and LineTerminator, U+FEFF included. It is taken as written in the language standard. No Unicode normalisation or case folding is involved.
- Strings are `seq<char>`, whose elements are Unicode scalar values. JavaScript strings are sequences of UTF-16 code units, so a lone surrogate has no counterpart here. This does not change the behaviour modelled, because every separator and every white-space character is a single code unit of the Basic Multilingual Plane.
