/** The form component: the list of form items and the text of the total
    output box, and the handlers that change them. Each handler is one
    atomic update of the two fields. */
module Component {
  import opened Strings
  import opened FormItems
  import opened Codec

  class App {
    /** The items shown, in order. */
    var formItems: seq<FormItem>
    /** The text of the total output box. */
    var totalOutput: string

    /** The initial state: one empty item with id 1, an empty text box. */
    constructor()
      ensures formItems == [FormItem(1, map[])] && totalOutput == ""
    {
      formItems := [FormItem(1, map[])];
      totalOutput := "";
    }

    /** `handleInputChange`: slot `index` of the items with id `itemId`
        becomes `value`. */
    method InputChange(itemId: int, index: int, value: string)
      modifies this
      ensures formItems == EditItems(old(formItems), itemId, index, value)
      ensures totalOutput == old(totalOutput)
      ensures UniqueIds(old(formItems)) ==> UniqueIds(formItems)
    {
      formItems := EditItems(formItems, itemId, index, value);
    }

    /** `handleAddFormItem`: an empty item with a fresh id at the end. */
    method AddFormItem()
      modifies this
      ensures formItems == AddItem(old(formItems))
      ensures totalOutput == old(totalOutput)
      ensures UniqueIds(old(formItems)) ==> UniqueIds(formItems)
    {
      formItems := AddItem(formItems);
    }

    /** `handleRemoveFormItem`: the items with id `itemId` are dropped. */
    method RemoveFormItem(itemId: int)
      modifies this
      ensures formItems == RemoveItems(old(formItems), itemId)
      ensures totalOutput == old(totalOutput)
      ensures UniqueIds(old(formItems)) ==> UniqueIds(formItems)
    {
      formItems := RemoveItems(formItems, itemId);
    }

    /** `handleClearAllFormItems`: no items left. */
    method ClearAllFormItems()
      modifies this
      ensures formItems == [] && totalOutput == old(totalOutput)
    {
      formItems := [];
    }

    /** `handleGenerateTotal`: the text box shows the items written out;
        the items stay as they are. */
    method GenerateTotal()
      modifies this
      ensures totalOutput == Serialize(old(formItems))
      ensures formItems == old(formItems)
    {
      totalOutput := Serialize(formItems);
    }

    /** `handleParseTotal`: a blank text box changes nothing; otherwise the
        item strings are parsed one by one and, when there is at least one,
        they replace the whole list. The text box is left as it is. */
    method ParseTotal()
      modifies this
      ensures formItems == AfterParse(old(formItems), old(totalOutput))
      ensures totalOutput == old(totalOutput)
      ensures UniqueIds(old(formItems)) ==> UniqueIds(formItems)
    {
      if Trim(totalOutput) == [] {
        return;
      }
      var itemStrings := ItemStrings(totalOutput);
      var newFormItems := ParseItems(itemStrings);
      if |newFormItems| > 0 {
        formItems := newFormItems;
      }
    }

    /** Typing into the text box replaces its text. */
    method EditTotal(text: string)
      modifies this
      ensures totalOutput == text && formItems == old(formItems)
    {
      totalOutput := text;
    }

    /** The button that empties the text box. */
    method ClearTotal()
      modifies this
      ensures totalOutput == "" && formItems == old(formItems)
    {
      totalOutput := "";
    }
  }
}
