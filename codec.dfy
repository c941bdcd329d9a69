/** The two-level text format of the form builder: items separated by `|`
    (or `｜` when parsing), the 13 values of an item separated by `，` (or
    `,` when parsing), values written in the order of `OutputOrder`. */
module Codec {
  import opened Strings
  import opened FieldOrder
  import opened FormItems

  /** Written between the values of an item: the full-width comma U+FF0C. */
  const ValueSep: char := '\U{FF0C}'
  /** Read as a value separator too: the ASCII comma. */
  const AsciiValueSep: char := ','
  /** Written between items: the ASCII vertical bar. */
  const ItemSep: char := '|'
  /** Read as an item separator too: the full-width vertical bar U+FF5C. */
  const WideItemSep: char := '\U{FF5C}'

  datatype Option<T> = None | Some(value: T)

  // ---------------------------------------------------------------- writing

  /** The 13 values of an item in output order, `''` for absent slots. */
  function OrderedValues(item: FormItem): seq<string> {
    seq(FieldCount, k requires 0 <= k < FieldCount => Lookup(item.values, OutputOrder[k]))
  }

  /** One item: its ordered values joined with `，`. */
  function SerializeItem(item: FormItem): string {
    Join(OrderedValues(item), [ValueSep])
  }

  function Segments(items: seq<FormItem>): seq<string> {
    seq(|items|, i requires 0 <= i < |items| => SerializeItem(items[i]))
  }

  /** `handleGenerateTotal`: the items joined with `|`. Only the empty list
      gives the empty string, since every item writes 12 separators. */
  function Serialize(items: seq<FormItem>): (r: string)
    ensures r == [] <==> items == []
  {
    SegmentsJoinNotEmpty(items);
    Join(Segments(items), [ItemSep])
  }

  lemma SegmentsJoinNotEmpty(items: seq<FormItem>)
    ensures items != [] ==> Join(Segments(items), [ItemSep]) != []
  {
    if items != [] {
      JoinNotEmpty(OrderedValues(items[0]), ValueSep);
      if |items| >= 2 {
        JoinNotEmpty(Segments(items), ItemSep);
      }
    }
  }

  /** No value of slots 1..13 of the item contains `c`. */
  ghost predicate SlotsAvoid(item: FormItem, c: char) {
    forall slot :: IsSlot(slot) ==> c !in Lookup(item.values, slot)
  }

  /** A value the text format carries unchanged: no white space at its ends
      and none of the four separator characters. */
  predicate CleanValue(v: string) {
    Trimmed(v) && SeparatorFree(v)
  }

  /** None of the four separator characters. */
  predicate SeparatorFree(v: string) {
    AsciiValueSep !in v && ValueSep !in v && ItemSep !in v && WideItemSep !in v
  }

  ghost predicate FreeItem(item: FormItem) {
    forall slot :: IsSlot(slot) ==> SeparatorFree(Lookup(item.values, slot))
  }

  ghost predicate CleanItem(item: FormItem) {
    forall slot :: IsSlot(slot) ==> CleanValue(Lookup(item.values, slot))
  }

  /** An item is written as exactly 13 values separated by 12 `，`; output
      position `k` holds slot `OutputOrder[k]`, `''` when the slot is absent. */
  lemma SerializeItemShape(item: FormItem)
    requires SlotsAvoid(item, ValueSep)
    ensures var fields := Split(SerializeItem(item), ValueSep);
            |fields| == FieldCount
            && (forall k :: 0 <= k < FieldCount ==> fields[k] == Lookup(item.values, OutputOrder[k]))
    ensures Count(SerializeItem(item), ValueSep) == FieldCount - 1
  {
    OutputOrderIsPermutation();
    SplitJoin(OrderedValues(item), ValueSep);
    SplitLength(SerializeItem(item), ValueSep);
  }

  /** A list of N items is written as N segments separated by N - 1 `|`. */
  lemma SerializeShape(items: seq<FormItem>)
    requires items != []
    requires forall i :: 0 <= i < |items| ==> SlotsAvoid(items[i], ItemSep)
    ensures Split(Serialize(items), ItemSep) == Segments(items)
    ensures Count(Serialize(items), ItemSep) == |items| - 1
  {
    OutputOrderIsPermutation();
    var segs := Segments(items);
    forall i | 0 <= i < |items| ensures ItemSep !in segs[i] {
      JoinAbsent(OrderedValues(items[i]), ValueSep, ItemSep);
    }
    SplitJoin(segs, ItemSep);
    SplitLength(Serialize(items), ItemSep);
  }

  // ---------------------------------------------------------------- reading

  /** `.map(s => s.trim()).filter(s => s)`: the pieces trimmed, the empty
      ones dropped, the order kept. */
  function KeepTrimmed(pieces: seq<string>): (r: seq<string>)
    ensures |r| <= |pieces|
    ensures forall k :: 0 <= k < |r| ==> r[k] != [] && Trimmed(r[k])
  {
    if pieces == [] then []
    else (if Trim(pieces[0]) == [] then [] else [Trim(pieces[0])]) + KeepTrimmed(pieces[1..])
  }

  /** Trimming and filtering keeps the order: the pieces of `a + b` give
      what `a` gives followed by what `b` gives. */
  lemma {:induction false} KeepTrimmedAppend(a: seq<string>, b: seq<string>)
    ensures KeepTrimmed(a + b) == KeepTrimmed(a) + KeepTrimmed(b)
  {
    if a == [] {
      assert a + b == b;
    } else {
      assert (a + b)[0] == a[0];
      assert (a + b)[1..] == a[1..] + b;
      KeepTrimmedAppend(a[1..], b);
    }
  }

  /** One piece: dropped when it is white space, otherwise kept trimmed. */
  lemma KeepTrimmedOne(p: string)
    ensures KeepTrimmed([p]) == if AllSpace(p) then [] else [Trim(p)]
  {
    TrimEmpty(p);
    assert [p][1..] == [];
  }

  /** Pieces none of which is white space all survive, each trimmed. */
  lemma {:induction false} KeepTrimmedNonBlank(pieces: seq<string>)
    requires forall k :: 0 <= k < |pieces| ==> !AllSpace(pieces[k])
    ensures KeepTrimmed(pieces) == seq(|pieces|, k requires 0 <= k < |pieces| => Trim(pieces[k]))
  {
    if pieces != [] {
      TrimEmpty(pieces[0]);
      assert forall k :: 0 <= k < |pieces| - 1 ==> pieces[1..][k] == pieces[k + 1];
      KeepTrimmedNonBlank(pieces[1..]);
    }
  }

  /** Nothing survives exactly when every piece is white space. */
  lemma {:induction false} KeepTrimmedEmpty(pieces: seq<string>)
    ensures KeepTrimmed(pieces) == [] <==> forall k :: 0 <= k < |pieces| ==> AllSpace(pieces[k])
  {
    if pieces != [] {
      KeepTrimmedEmpty(pieces[1..]);
      TrimEmpty(pieces[0]);
      if forall k :: 0 <= k < |pieces| - 1 ==> AllSpace(pieces[1..][k]) {
        assert forall k :: 1 <= k < |pieces| ==> pieces[k] == pieces[1..][k - 1];
      }
    }
  }

  /** Pieces that are trimmed and not empty all survive, unchanged. */
  lemma {:induction false} KeepTrimmedAll(pieces: seq<string>)
    requires forall k :: 0 <= k < |pieces| ==> pieces[k] != [] && Trimmed(pieces[k])
    ensures KeepTrimmed(pieces) == pieces
  {
    if pieces != [] {
      TrimOfTrimmed(pieces[0]);
      KeepTrimmedAll(pieces[1..]);
      assert [pieces[0]] + pieces[1..] == pieces;
    }
  }

  /** The item strings of a blob (lines 50-51). */
  function ItemStrings(blob: string): seq<string> {
    KeepTrimmed(Split(Replace(blob, WideItemSep, ItemSep), ItemSep))
  }

  /** The raw values of an item string, empty ones kept (lines 57-59). */
  function Fields(itemString: string): seq<string> {
    Split(Replace(itemString, ValueSep, AsciiValueSep), AsciiValueSep)
  }

  /** Padded with `''` to 13 values, then cut to the first 13 (lines 63-68). */
  function Fitted(fields: seq<string>): (r: seq<string>)
    ensures |r| == FieldCount
  {
    if |fields| >= FieldCount then fields[..FieldCount]
    else fields + seq(FieldCount - |fields|, _ => "")
  }

  /** Value `k` of the fitted fields is raw value `k` when there is one
      and `''` when there is not; values past the 13th are gone. */
  lemma FittedAt(fields: seq<string>)
    ensures forall k :: 0 <= k < FieldCount ==>
              Fitted(fields)[k] == if k < |fields| then fields[k] else ""
  {
  }

  /** The values of a parsed item (lines 71-78), slot by slot through the
      inverse of `OutputOrder`. */
  function SlotValues(vals: seq<string>): map<int, string>
    requires |vals| == FieldCount
  {
    map slot | 1 <= slot <= FieldCount :: Trim(vals[PositionOf(slot)])
  }

  /** Every slot 1..13 and no other is present, and slot `OutputOrder[k]`
      holds value `k`, trimmed. */
  lemma SlotValuesAt(vals: seq<string>)
    requires |vals| == FieldCount
    ensures forall slot :: slot in SlotValues(vals) <==> IsSlot(slot)
    ensures forall k :: 0 <= k < FieldCount ==>
              OutputOrder[k] in SlotValues(vals) && SlotValues(vals)[OutputOrder[k]] == Trim(vals[k])
  {
    forall k | 0 <= k < FieldCount
      ensures OutputOrder[k] in SlotValues(vals) && SlotValues(vals)[OutputOrder[k]] == Trim(vals[k])
    {
      PositionOfInverse(k);
    }
  }

  /** The item one item string parses to. */
  function ParsedItem(itemString: string, id: int): FormItem {
    FormItem(id, SlotValues(Fitted(Fields(itemString))))
  }

  /** The items of the item strings, numbered 1..N in order. */
  function ParsedItems(strs: seq<string>): seq<FormItem> {
    seq(|strs|, i requires 0 <= i < |strs| => ParsedItem(strs[i], i + 1))
  }

  /** `handleParseTotal` as a value: the list that replaces the current one,
      or `None` when the current one is kept. A replacement is never empty
      and carries the ids 1..N. */
  function Parse(blob: string): (r: Option<seq<FormItem>>)
    ensures r.Some? ==> r.value != [] && UniqueIds(r.value)
    ensures r.Some? ==> forall i :: 0 <= i < |r.value| ==> r.value[i].id == i + 1
  {
    if Trim(blob) == [] then None
    else
      var items := ParsedItems(ItemStrings(blob));
      if |items| > 0 then Some(items) else None
  }

  /** The list after a parse of `blob` while `current` is shown. */
  function AfterParse(current: seq<FormItem>, blob: string): seq<FormItem> {
    match Parse(blob)
    case None => current
    case Some(items) => items
  }

  /** The current list is kept exactly when no non-blank item string
      survives; in particular for an empty or all-white-space blob. */
  lemma ParseKeeps(blob: string)
    ensures Parse(blob).None? <==> ItemStrings(blob) == []
    ensures AllSpace(blob) ==> Parse(blob).None?
  {
    TrimEmpty(blob);
    if Trim(blob) == [] {
      assert WideItemSep !in blob by {
        assert forall i :: 0 <= i < |blob| ==> IsSpace(blob[i]);
      }
      ReplaceAbsent(blob, WideItemSep, ItemSep);
      assert ItemSep !in blob by {
        assert forall i :: 0 <= i < |blob| ==> IsSpace(blob[i]);
      }
      SplitWithoutSep(blob, ItemSep);
      assert KeepTrimmed([blob]) == [];
    }
  }

  /** The whole list is kept or replaced: after a parse the list is either
      the old one or a non-empty list numbered 1..N. */
  lemma AfterParseCases(current: seq<FormItem>, blob: string)
    ensures var after := AfterParse(current, blob);
            after == current || (after != [] && forall i :: 0 <= i < |after| ==> after[i].id == i + 1)
    ensures Trim(blob) == [] ==> AfterParse(current, blob) == current
  {
  }

  /** The value in slot `OutputOrder[k]` of a parsed item is raw value `k`
      trimmed, or `''` when the item string has fewer than k + 1 values:
      empty values between separators keep their place, and values past
      the 13th are ignored. */
  lemma ParsedItemSlot(itemString: string, id: int, k: int)
    requires 0 <= k < FieldCount
    ensures var fields := Fields(itemString);
            OutputOrder[k] in ParsedItem(itemString, id).values
            && ParsedItem(itemString, id).values[OutputOrder[k]] ==
               if k < |fields| then Trim(fields[k]) else ""
  {
    var fields := Fields(itemString);
    FittedAt(fields);
    SlotValuesAt(Fitted(fields));
    assert Trim("") == "";
  }

  // ------------------------------------------------- interchangeable separators

  /** Every wide separator replaced by its ASCII counterpart. */
  function Normalize(blob: string): string {
    Replace(Replace(blob, WideItemSep, ItemSep), ValueSep, AsciiValueSep)
  }

  function ReplaceEach(pieces: seq<string>, from: char, to: char): (r: seq<string>)
    ensures |r| == |pieces|
  {
    seq(|pieces|, k requires 0 <= k < |pieces| => Replace(pieces[k], from, to))
  }

  /** Replacing characters other than the separator can be done before or
      after splitting. */
  lemma {:induction false} SplitReplace(s: string, sep: char, from: char, to: char)
    requires from != sep && to != sep
    ensures Split(Replace(s, from, to), sep) == ReplaceEach(Split(s, sep), from, to)
  {
    if s != [] {
      var r := Replace(s, from, to);
      assert r[0] == (if s[0] == from then to else s[0]);
      assert r[1..] == Replace(s[1..], from, to);
      SplitReplace(s[1..], sep, from, to);
      var rest := Split(s[1..], sep);
      if s[0] != sep {
        var c := r[0];
        assert Replace([s[0]] + rest[0], from, to) == [c] + Replace(rest[0], from, to);
      }
    }
  }

  lemma ReplaceEachAppend(a: seq<string>, b: seq<string>, from: char, to: char)
    ensures ReplaceEach(a + b, from, to) == ReplaceEach(a, from, to) + ReplaceEach(b, from, to)
  {
    assert forall k :: 0 <= k < |a| ==> (a + b)[k] == a[k];
    assert forall k :: |a| <= k < |a| + |b| ==> (a + b)[k] == b[k - |a|];
  }

  lemma {:induction false} KeepTrimmedReplace(pieces: seq<string>, from: char, to: char)
    requires !IsSpace(from) && !IsSpace(to)
    ensures KeepTrimmed(ReplaceEach(pieces, from, to)) == ReplaceEach(KeepTrimmed(pieces), from, to)
  {
    if pieces != [] {
      var p, rs := pieces[0], ReplaceEach(pieces, from, to);
      TrimReplace(p, from, to);
      assert rs[0] == Replace(p, from, to);
      assert rs[1..] == ReplaceEach(pieces[1..], from, to);
      KeepTrimmedReplace(pieces[1..], from, to);
      var head := if Trim(p) == [] then [] else [Trim(p)];
      assert ReplaceEach(head, from, to) == if Trim(p) == [] then [] else [Trim(rs[0])];
      assert KeepTrimmed(rs) == ReplaceEach(head, from, to) + KeepTrimmed(rs[1..]);
      ReplaceEachAppend(head, KeepTrimmed(pieces[1..]), from, to);
    }
  }

  /** Normalizing first gives the same item strings, up to the `，` they
      still contain. */
  lemma ItemStringsNormalized(blob: string)
    ensures ItemStrings(Normalize(blob))
         == ReplaceEach(ItemStrings(blob), ValueSep, AsciiValueSep)
  {
    var s1 := Replace(blob, WideItemSep, ItemSep);
    var n := Normalize(blob);
    ReplaceIdempotent(blob, WideItemSep, ItemSep);
    ReplaceKeepsAbsent(s1, ValueSep, AsciiValueSep, WideItemSep);
    ReplaceAbsent(n, WideItemSep, ItemSep);
    SplitReplace(s1, ItemSep, ValueSep, AsciiValueSep);
    KeepTrimmedReplace(Split(s1, ItemSep), ValueSep, AsciiValueSep);
  }

  /** An item string parses alike before and after its `，` become `,`. */
  lemma ParsedItemsNormalized(strs: seq<string>)
    ensures ParsedItems(ReplaceEach(strs, ValueSep, AsciiValueSep)) == ParsedItems(strs)
  {
    forall i | 0 <= i < |strs|
      ensures Fields(Replace(strs[i], ValueSep, AsciiValueSep)) == Fields(strs[i])
    {
      ReplaceIdempotent(strs[i], ValueSep, AsciiValueSep);
    }
  }

  /** A blob is blank exactly when its normalized form is. */
  lemma TrimNormalized(blob: string)
    ensures (Trim(Normalize(blob)) == []) == (Trim(blob) == [])
  {
    var s1 := Replace(blob, WideItemSep, ItemSep);
    TrimReplace(blob, WideItemSep, ItemSep);
    TrimReplace(s1, ValueSep, AsciiValueSep);
  }

  /** Parsing does not tell `｜` from `|` nor `，` from `,`. */
  lemma ParseNormalized(blob: string)
    ensures Parse(Normalize(blob)) == Parse(blob)
  {
    TrimNormalized(blob);
    ItemStringsNormalized(blob);
    ParsedItemsNormalized(ItemStrings(blob));
  }

  /** Two blobs that differ only in which variant of each separator they
      use parse alike. */
  lemma SeparatorsInterchangeable(a: string, b: string)
    requires Normalize(a) == Normalize(b)
    ensures Parse(a) == Parse(b)
  {
    ParseNormalized(a);
    ParseNormalized(b);
  }

  // ------------------------------------------------------------ round trip

  /** What an item looks like after writing and reading: slots 1..13, with
      `''` for the absent ones, under a new id. */
  function Canonical(item: FormItem, id: int): FormItem {
    FormItem(id, map slot | 1 <= slot <= FieldCount :: Lookup(item.values, slot))
  }

  /** A written item is one non-empty, trimmed segment without item
      separators, whose raw values are the ordered values. */
  lemma SegmentShape(item: FormItem)
    requires CleanItem(item)
    ensures var seg := SerializeItem(item);
            seg != [] && Trimmed(seg) && ItemSep !in seg && WideItemSep !in seg
            && Fields(seg) == OrderedValues(item)
  {
    var vals := OrderedValues(item);
    OutputOrderIsPermutation();
    assert forall k :: 0 <= k < FieldCount ==> CleanValue(vals[k]);
    JoinNotEmpty(vals, ValueSep);
    JoinTrimmed(vals, ValueSep);
    JoinAbsent(vals, ValueSep, ItemSep);
    JoinAbsent(vals, ValueSep, WideItemSep);
    ReplaceJoin(vals, ValueSep, AsciiValueSep);
    SplitJoin(vals, AsciiValueSep);
  }

  /** Reading the ordered values of an item with trimmed values back into
      slots gives its slots 1..13. */
  lemma SlotValuesOfOrdered(item: FormItem, id: int)
    requires CleanItem(item)
    ensures FormItem(id, SlotValues(Fitted(OrderedValues(item)))) == Canonical(item, id)
  {
    var vals := OrderedValues(item);
    assert Fitted(vals) == vals;
    SlotValuesAt(vals);
    var m := SlotValues(vals);
    forall slot | IsSlot(slot) ensures m[slot] == Lookup(item.values, slot) {
      var k := PositionOf(slot);
      TrimOfTrimmed(vals[k]);
    }
    assert m == map slot | 1 <= slot <= FieldCount :: Lookup(item.values, slot);
  }

  lemma ItemRoundTrip(item: FormItem, id: int)
    requires CleanItem(item)
    ensures var seg := SerializeItem(item);
            seg != [] && Trimmed(seg) && ItemSep !in seg && WideItemSep !in seg
            && ParsedItem(seg, id) == Canonical(item, id)
  {
    SegmentShape(item);
    SlotValuesOfOrdered(item, id);
  }

  /** The item strings read from a written list are its segments, and
      the written list is not blank. */
  lemma SerializedItemStrings(items: seq<FormItem>)
    requires items != []
    requires forall i :: 0 <= i < |items| ==> CleanItem(items[i])
    ensures ItemStrings(Serialize(items)) == Segments(items)
    ensures Trim(Serialize(items)) != []
  {
    var segs := Segments(items);
    var blob := Serialize(items);
    forall i | 0 <= i < |items|
      ensures segs[i] != [] && Trimmed(segs[i]) && ItemSep !in segs[i] && WideItemSep !in segs[i]
    {
      SegmentShape(items[i]);
    }
    assert blob == Join(segs, [ItemSep]);
    JoinAbsent(segs, ItemSep, WideItemSep);
    ReplaceAbsent(blob, WideItemSep, ItemSep);
    SplitJoin(segs, ItemSep);
    KeepTrimmedAll(segs);
    JoinTrimmed(segs, ItemSep);
    TrimOfTrimmed(blob);
  }

  /** A list that agrees with the parse of every item string, numbered
      1..N, is the parse of the item strings. */
  lemma ParsedItemsAre(strs: seq<string>, items: seq<FormItem>)
    requires |items| == |strs|
    requires forall i :: 0 <= i < |strs| ==> ParsedItem(strs[i], i + 1) == items[i]
    ensures ParsedItems(strs) == items
  {
  }

  /** Reading what was written gives the same items, numbered 1..N, for a
      non-empty list whose values are trimmed and free of separators. */
  lemma RoundTrip(items: seq<FormItem>)
    requires items != []
    requires forall i :: 0 <= i < |items| ==> CleanItem(items[i])
    ensures Parse(Serialize(items))
         == Some(seq(|items|, i requires 0 <= i < |items| => Canonical(items[i], i + 1)))
  {
    var segs := Segments(items);
    SerializedItemStrings(items);
    var expected := seq(|items|, i requires 0 <= i < |items| => Canonical(items[i], i + 1));
    forall i | 0 <= i < |items| ensures ParsedItem(segs[i], i + 1) == expected[i] {
      ItemRoundTrip(items[i], i + 1);
    }
    ParsedItemsAre(segs, expected);
  }

  // ------------------------------------------------ round trip up to trimming

  /** What reading gives back for a written item: slots 1..13, each value
      trimmed, `''` for the absent ones, under a new id. */
  function ReadBack(item: FormItem, id: int): FormItem {
    FormItem(id, map slot | 1 <= slot <= FieldCount :: Trim(Lookup(item.values, slot)))
  }

  /** For trimmed values, reading back gives the canonical form. */
  lemma ReadBackOfClean(item: FormItem, id: int)
    requires CleanItem(item)
    ensures ReadBack(item, id) == Canonical(item, id)
  {
    forall slot | IsSlot(slot) ensures Trim(Lookup(item.values, slot)) == Lookup(item.values, slot) {
      TrimOfTrimmed(Lookup(item.values, slot));
    }
    assert ReadBack(item, id).values == Canonical(item, id).values;
  }

  /** A written item whose values hold no separator is a segment that is
      not blank and has no item separator; trimming it and splitting it
      gives its ordered values with the ends trimmed. */
  lemma ReadSegment(item: FormItem)
    requires FreeItem(item)
    ensures var seg := SerializeItem(item);
            !AllSpace(seg) && ItemSep !in seg && WideItemSep !in seg
            && Fields(Trim(seg)) == TrimEnds(OrderedValues(item))
  {
    var vals := OrderedValues(item);
    var seg := SerializeItem(item);
    OutputOrderIsPermutation();
    assert forall k :: 0 <= k < FieldCount ==> SeparatorFree(vals[k]);
    JoinAbsent(vals, ValueSep, ItemSep);
    JoinAbsent(vals, ValueSep, WideItemSep);
    assert seg == vals[0] + [ValueSep] + Join(vals[1..], [ValueSep]);
    assert seg[|vals[0]|] == ValueSep;
    TrimJoin(vals, ValueSep);
    var ends := TrimEnds(vals);
    TrimEndsKeepsAbsent(vals, ValueSep);
    TrimEndsKeepsAbsent(vals, AsciiValueSep);
    ReplaceJoin(ends, ValueSep, AsciiValueSep);
    SplitJoin(ends, AsciiValueSep);
  }

  /** Values that trim alike give the same slots. */
  lemma SlotValuesSameTrim(a: seq<string>, b: seq<string>)
    requires |a| == FieldCount && |b| == FieldCount
    requires forall k :: 0 <= k < FieldCount ==> Trim(a[k]) == Trim(b[k])
    ensures SlotValues(a) == SlotValues(b)
  {
  }

  /** The ordered values of an item read back into its slots, trimmed. */
  lemma SlotValuesOfOrderedTrimmed(item: FormItem, id: int)
    ensures FormItem(id, SlotValues(OrderedValues(item))) == ReadBack(item, id)
  {
    var m := SlotValues(OrderedValues(item));
    forall slot | IsSlot(slot) ensures m[slot] == Trim(Lookup(item.values, slot)) {
      var k := PositionOf(slot);
    }
    assert m == ReadBack(item, id).values;
  }

  /** Reading the ordered values back with their ends trimmed gives the
      item with every slot trimmed. */
  lemma SlotValuesOfTrimEnds(item: FormItem, id: int)
    ensures FormItem(id, SlotValues(Fitted(TrimEnds(OrderedValues(item))))) == ReadBack(item, id)
  {
    var vals := OrderedValues(item);
    var ends := TrimEnds(vals);
    assert Fitted(ends) == ends;
    TrimOfTrimEnds(vals);
    SlotValuesSameTrim(ends, vals);
    SlotValuesOfOrderedTrimmed(item, id);
  }

  /** One item whose values hold no separator, written and parsed with id
      `id`, reads back with every slot trimmed. */
  lemma ItemReadBack(item: FormItem, id: int)
    requires FreeItem(item)
    ensures var seg := SerializeItem(item);
            !AllSpace(seg) && ItemSep !in seg && WideItemSep !in seg
            && ParsedItem(Trim(seg), id) == ReadBack(item, id)
  {
    ReadSegment(item);
    SlotValuesOfTrimEnds(item, id);
  }

  /** The item strings of a written list whose values hold no separator
      are its segments trimmed, and the text is not blank. */
  lemma SerializedItemStringsTrimmed(items: seq<FormItem>)
    requires items != []
    requires forall i :: 0 <= i < |items| ==> FreeItem(items[i])
    ensures ItemStrings(Serialize(items))
         == seq(|items|, i requires 0 <= i < |items| => Trim(Segments(items)[i]))
    ensures Trim(Serialize(items)) != []
  {
    var segs := Segments(items);
    var blob := Serialize(items);
    forall i | 0 <= i < |items|
      ensures !AllSpace(segs[i]) && ItemSep !in segs[i] && WideItemSep !in segs[i]
    {
      ReadSegment(items[i]);
    }
    assert blob == Join(segs, [ItemSep]);
    JoinAbsent(segs, ItemSep, WideItemSep);
    ReplaceAbsent(blob, WideItemSep, ItemSep);
    SplitJoin(segs, ItemSep);
    KeepTrimmedNonBlank(segs);
    TrimEmpty(blob);
    assert !AllSpace(blob) by {
      var j :| 0 <= j < |segs[0]| && !IsSpace(segs[0][j]);
      if |segs| >= 2 {
        assert blob == segs[0] + [ItemSep] + Join(segs[1..], [ItemSep]);
      }
      assert blob[j] == segs[0][j];
    }
  }

  /** Reading what was written gives back a non-empty list whose values
      hold no separator, numbered 1..N, every slot present and trimmed. */
  lemma ReadBackRoundTrip(items: seq<FormItem>)
    requires items != []
    requires forall i :: 0 <= i < |items| ==> FreeItem(items[i])
    ensures Parse(Serialize(items))
         == Some(seq(|items|, i requires 0 <= i < |items| => ReadBack(items[i], i + 1)))
  {
    var segs := Segments(items);
    SerializedItemStringsTrimmed(items);
    var strs := seq(|items|, i requires 0 <= i < |items| => Trim(segs[i]));
    var expected := seq(|items|, i requires 0 <= i < |items| => ReadBack(items[i], i + 1));
    forall i | 0 <= i < |items| ensures ParsedItem(strs[i], i + 1) == expected[i] {
      ItemReadBack(items[i], i + 1);
    }
    ParsedItemsAre(strs, expected);
  }

  /** Generating and then parsing: an empty list writes the empty text,
      which keeps the list as it is; a non-empty list whose values hold no
      separator is replaced by the list numbered 1..N with every slot
      present and trimmed, which for clean values is its canonical form. */
  lemma GenerateThenParse(items: seq<FormItem>)
    ensures items == [] ==> AfterParse(items, Serialize(items)) == items
    ensures items != [] && (forall i :: 0 <= i < |items| ==> FreeItem(items[i])) ==>
              AfterParse(items, Serialize(items))
              == seq(|items|, i requires 0 <= i < |items| => ReadBack(items[i], i + 1))
    ensures items != [] && (forall i :: 0 <= i < |items| ==> CleanItem(items[i])) ==>
              AfterParse(items, Serialize(items))
              == seq(|items|, i requires 0 <= i < |items| => Canonical(items[i], i + 1))
  {
    if items == [] {
      ParseKeeps(Serialize(items));
    } else {
      if forall i :: 0 <= i < |items| ==> FreeItem(items[i]) {
        ReadBackRoundTrip(items);
      }
      if forall i :: 0 <= i < |items| ==> CleanItem(items[i]) {
        RoundTrip(items);
      }
    }
  }

  // ------------------------------------------ a value holding a separator

  lemma KeepTrimmedTwo(p: string, q: string)
    requires !AllSpace(p) && !AllSpace(q)
    ensures |KeepTrimmed([p, q])| == 2
  {
    TrimEmpty(p);
    TrimEmpty(q);
    assert [p, q][1..] == [q];
    assert [q][1..] == [];
  }

  /** Two non-blank, separator-free strings around one `|` are two items. */
  lemma TwoItemStrings(p: string, q: string)
    requires ItemSep !in p && WideItemSep !in p && !AllSpace(p)
    requires ItemSep !in q && WideItemSep !in q && !AllSpace(q)
    ensures |ItemStrings(p + [ItemSep] + q)| == 2
    ensures Trim(p + [ItemSep] + q) != []
  {
    var blob := p + [ItemSep] + q;
    assert WideItemSep !in blob;
    ReplaceAbsent(blob, WideItemSep, ItemSep);
    SplitAtOne(p, q, ItemSep);
    KeepTrimmedTwo(p, q);
    TrimEmpty(blob);
    assert !AllSpace(blob) by {
      var i :| 0 <= i < |p| && !IsSpace(p[i]);
      assert blob[i] == p[i];
    }
  }

  /** The format has no escaping: one item whose slot 1 holds `a|b` is
      written as a text that parses to two items. This is why the round
      trip needs clean values. */
  lemma SeparatorInValueSplitsItem()
    ensures var items := [FormItem(1, map[1 := "a|b"])];
            Parse(Serialize(items)).Some? && |Parse(Serialize(items)).value| == 2
  {
    var item := FormItem(1, map[1 := "a|b"]);
    var vals := OrderedValues(item);
    assert vals[0] == "a|b";
    var j := Join(vals[1..], [ValueSep]);
    forall k | 0 <= k < |vals[1..]| ensures ItemSep !in vals[1..][k] && WideItemSep !in vals[1..][k] {
      assert vals[1..][k] == Lookup(item.values, OutputOrder[k + 1]);
      OutputOrderDistinct();
      assert OutputOrder[k + 1] != OutputOrder[0];
    }
    JoinAbsent(vals[1..], ValueSep, ItemSep);
    JoinAbsent(vals[1..], ValueSep, WideItemSep);
    var tail := "b" + [ValueSep] + j;
    assert Serialize([item]) == "a" + [ItemSep] + tail;
    assert !AllSpace("a") by { assert "a"[0] == 'a'; }
    assert !AllSpace(tail) by { assert tail[0] == 'b'; }
    TwoItemStrings("a", tail);
  }

  // ------------------------------------------------------ parse, then write

  /** Trimming and dropping blank pieces brings in no character. */
  lemma {:induction false} KeepTrimmedKeepsAbsent(pieces: seq<string>, c: char)
    requires forall k :: 0 <= k < |pieces| ==> c !in pieces[k]
    ensures forall k :: 0 <= k < |KeepTrimmed(pieces)| ==> c !in KeepTrimmed(pieces)[k]
  {
    if pieces != [] {
      TrimKeepsAbsent(pieces[0], c);
      KeepTrimmedKeepsAbsent(pieces[1..], c);
      var head := if Trim(pieces[0]) == [] then [] else [Trim(pieces[0])];
      assert KeepTrimmed(pieces) == head + KeepTrimmed(pieces[1..]);
    }
  }

  /** No item string holds an item separator of either kind. */
  lemma ItemStringsAvoid(blob: string)
    ensures forall k :: 0 <= k < |ItemStrings(blob)| ==>
              ItemSep !in ItemStrings(blob)[k] && WideItemSep !in ItemStrings(blob)[k]
  {
    var s1 := Replace(blob, WideItemSep, ItemSep);
    ReplaceIdempotent(blob, WideItemSep, ItemSep);
    SplitPieces(s1, ItemSep);
    SplitKeepsAbsent(s1, ItemSep, WideItemSep);
    KeepTrimmedKeepsAbsent(Split(s1, ItemSep), ItemSep);
    KeepTrimmedKeepsAbsent(Split(s1, ItemSep), WideItemSep);
  }

  /** The raw values of an item string without item separators contain no
      separator at all. */
  lemma FieldsAvoid(itemString: string)
    requires ItemSep !in itemString && WideItemSep !in itemString
    ensures forall k :: 0 <= k < |Fields(itemString)| ==>
              var f := Fields(itemString)[k];
              AsciiValueSep !in f && ValueSep !in f && ItemSep !in f && WideItemSep !in f
  {
    var n := Replace(itemString, ValueSep, AsciiValueSep);
    ReplaceIdempotent(itemString, ValueSep, AsciiValueSep);
    ReplaceKeepsAbsent(itemString, ValueSep, AsciiValueSep, ItemSep);
    ReplaceKeepsAbsent(itemString, ValueSep, AsciiValueSep, WideItemSep);
    SplitPieces(n, AsciiValueSep);
    SplitKeepsAbsent(n, AsciiValueSep, ValueSep);
    SplitKeepsAbsent(n, AsciiValueSep, ItemSep);
    SplitKeepsAbsent(n, AsciiValueSep, WideItemSep);
  }

  /** Such an item string parses to an item whose 13 slots are all present
      and hold values the format carries unchanged. */
  lemma ParsedItemClean(itemString: string, id: int)
    requires ItemSep !in itemString && WideItemSep !in itemString
    ensures CleanItem(ParsedItem(itemString, id))
    ensures Canonical(ParsedItem(itemString, id), id) == ParsedItem(itemString, id)
  {
    var fields := Fields(itemString);
    var vals := Fitted(fields);
    FieldsAvoid(itemString);
    FittedAt(fields);
    SlotValuesAt(vals);
    var item := ParsedItem(itemString, id);
    forall slot | IsSlot(slot) ensures slot in item.values && CleanValue(item.values[slot]) {
      var k := PositionOf(slot);
      PositionOfInverse(k);
      var v := vals[k];
      assert AsciiValueSep !in v && ValueSep !in v && ItemSep !in v && WideItemSep !in v;
      TrimKeepsAbsent(v, AsciiValueSep);
      TrimKeepsAbsent(v, ValueSep);
      TrimKeepsAbsent(v, ItemSep);
      TrimKeepsAbsent(v, WideItemSep);
    }
  }

  /** A list whose items are already in canonical form, numbered 1..N, is
      its own canonical form. */
  lemma CanonicalList(items: seq<FormItem>)
    requires forall i :: 0 <= i < |items| ==> Canonical(items[i], i + 1) == items[i]
    ensures seq(|items|, i requires 0 <= i < |items| => Canonical(items[i], i + 1)) == items
  {
  }

  /** The items of item strings without item separators survive being
      written and parsed again. */
  lemma ParsedItemsStable(strs: seq<string>)
    requires strs != []
    requires forall k :: 0 <= k < |strs| ==> ItemSep !in strs[k] && WideItemSep !in strs[k]
    ensures Parse(Serialize(ParsedItems(strs))) == Some(ParsedItems(strs))
  {
    var items := ParsedItems(strs);
    forall i | 0 <= i < |items|
      ensures CleanItem(items[i]) && Canonical(items[i], i + 1) == items[i]
    {
      ParsedItemClean(strs[i], i + 1);
    }
    RoundTrip(items);
    CanonicalList(items);
  }

  /** Writing a parsed list and parsing the text again gives the same list:
      a parse already yields the form the format keeps. */
  lemma ParseStable(blob: string)
    requires Parse(blob).Some?
    ensures Parse(Serialize(Parse(blob).value)) == Parse(blob)
  {
    ItemStringsAvoid(blob);
    ParsedItemsStable(ItemStrings(blob));
  }

  // ---------------------------------------------------------- parse methods

  /** The `while (values.length < 13) values.push('')` loop and the
      `slice(0, 13)` after it. */
  method PadFields(values: seq<string>) returns (r: seq<string>)
    ensures r == Fitted(values)
  {
    var vs := values;
    while |vs| < FieldCount
      invariant |values| <= |vs|
      invariant vs[..|values|] == values
      invariant forall k :: |values| <= k < |vs| ==> vs[k] == ""
      invariant |values| < FieldCount ==> |vs| <= FieldCount
      decreases FieldCount - |vs|
    {
      vs := vs + [""];
    }
    r := vs[..FieldCount];
  }

  /** A map holding slot `OutputOrder[k]` => `Trim(vals[k])` for every k,
      and no other key, is `SlotValues(vals)`. */
  lemma SlotValuesUnique(vals: seq<string>, m: map<int, string>)
    requires |vals| == FieldCount
    requires forall slot :: slot in m ==> IsSlot(slot)
    requires forall j :: 0 <= j < FieldCount ==> OutputOrder[j] in m && m[OutputOrder[j]] == Trim(vals[j])
    ensures m == SlotValues(vals)
  {
    SlotValuesAt(vals);
    forall slot | IsSlot(slot) ensures slot in m && m[slot] == SlotValues(vals)[slot] {
      var p := PositionOf(slot);
      assert OutputOrder[p] == slot;
    }
  }

  /** The `forEach` loop that fills `itemValues`: position `j` of `order`
      names the slot that receives value `j`, trimmed. With the positions
      pairwise different, every named slot ends up with its own value and
      no other key is written. */
  method FillSlots(order: seq<int>, vals: seq<string>) returns (m: map<int, string>)
    requires |order| == |vals| && Distinct(order)
    ensures forall slot :: slot in m <==> slot in order
    ensures forall j :: 0 <= j < |order| ==> order[j] in m && m[order[j]] == Trim(vals[j])
  {
    m := map[];
    var k := 0;
    while k < |order|
      invariant 0 <= k <= |order|
      invariant forall slot :: slot in m <==> slot in order[..k]
      invariant forall j :: 0 <= j < k ==> order[j] in m && m[order[j]] == Trim(vals[j])
    {
      assert order[..k + 1] == order[..k] + [order[k]];
      m := m[order[k] := Trim(vals[k])];
      k := k + 1;
    }
    assert order[..k] == order;
  }

  /** The loop over `outputOrder`: the item's values are `SlotValues`. */
  method AssignSlots(vals: seq<string>) returns (m: map<int, string>)
    requires |vals| == FieldCount
    ensures m == SlotValues(vals)
  {
    OutputOrderIsPermutation();
    m := FillSlots(OutputOrder, vals);
    SlotValuesUnique(vals, m);
  }

  /** The callback of `itemStrings.map`: one item string to one item. */
  method ParseItem(itemString: string, id: int) returns (item: FormItem)
    ensures item == ParsedItem(itemString, id)
  {
    var normalized := Replace(itemString, ValueSep, AsciiValueSep);
    var values := Split(normalized, AsciiValueSep);
    var fitted := PadFields(values);
    var itemValues := AssignSlots(fitted);
    item := FormItem(id, itemValues);
  }

  /** Parsing one more item string appends one item, numbered after the others. */
  lemma ParsedItemsSnoc(strs: seq<string>, i: nat)
    requires i < |strs|
    ensures ParsedItems(strs[..i + 1]) == ParsedItems(strs[..i]) + [ParsedItem(strs[i], i + 1)]
  {
    var a, b := ParsedItems(strs[..i + 1]), ParsedItems(strs[..i]) + [ParsedItem(strs[i], i + 1)];
    assert |a| == |b|;
    forall j | 0 <= j < |a| ensures a[j] == b[j] {
      assert strs[..i + 1][j] == strs[j];
      if j < i {
        assert strs[..i][j] == strs[j];
      }
    }
  }

  /** `itemStrings.map((itemString, index) => ...)`, ids `index + 1`. */
  method ParseItems(strs: seq<string>) returns (items: seq<FormItem>)
    ensures items == ParsedItems(strs)
  {
    items := [];
    var i := 0;
    while i < |strs|
      invariant 0 <= i <= |strs|
      invariant items == ParsedItems(strs[..i])
    {
      var item := ParseItem(strs[i], i + 1);
      ParsedItemsSnoc(strs, i);
      items := items + [item];
      i := i + 1;
    }
    assert strs[..i] == strs;
  }
}
