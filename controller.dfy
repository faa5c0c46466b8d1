/**
 The controller of `app.js` as an object: its module-level variables and the
 DOM state it drives become fields, and each handler updates them step by step
 in the script's order. Every method is proved to produce the state that the
 matching transition of `GroceryState` describes, so the lemmas proved there
 hold of the object.
 */
module GroceryController {

  import opened Wrappers
  import opened GroceryStore
  import S = GroceryState

  class Controller {
    var stored: Option<seq<Item>>
    var rows: seq<Item>
    var editElement: nat
    var editFlag: bool
    var editID: string
    var formValue: string
    var submitLabel: string
    var showContainer: bool
    var alert: S.Alert

    /** The fields as one value of the transition system. */
    function View(): S.State
      reads this
    {
      S.State(stored, rows, editElement, editFlag, editID, formValue, submitLabel, showContainer, alert)
    }

    constructor (persisted: Option<seq<Item>>)
      ensures View() == S.Initial(persisted)
      ensures S.Valid(View())
    {
      stored := persisted;
      rows := [];
      editElement := 0;
      editFlag := false;
      editID := "";
      formValue := "";
      submitLabel := "submit";
      showContainer := false;
      alert := S.NoAlert;
    }

    /** The user types `v` into the form field. */
    method EnterValue(v: string)
      requires S.Valid(View())
      modifies this`formValue
      ensures View() == S.EnterValue(old(View()), v)
      ensures S.Valid(View())
    {
      S.EnterValueKeepsSync(View(), v);
      formValue := v;
    }

    method AddItem(id: string)
      requires S.Valid(View())
      modifies this
      ensures View() == S.AddItem(old(View()), id)
      ensures S.Valid(View())
    {
      var value := formValue;
      if value != "" && !editFlag {
        CreateListItem(id, value);
        DisplayAlert("item added to the list", S.Success);
        showContainer := true;
        AddToLocalStorage(id, value);
        SetBackToDefault();
      } else if value != "" && editFlag {
        rows := rows[editElement := Item(rows[editElement].id, value)];
        DisplayAlert("value changed", S.Success);
        EditLocalStorage(editID, value);
        SetBackToDefault();
      } else {
        DisplayAlert("empty value", S.Danger);
      }
    }

    method DisplayAlert(text: string, severity: S.Severity)
      modifies this`alert
      ensures alert == S.Shown(text, severity)
    {
      alert := S.Shown(text, severity);
    }

    method ClearItems()
      modifies this
      ensures View() == S.ClearItems(old(View()))
      ensures S.Valid(View())
    {
      while rows != []
        modifies this`rows
        decreases |rows|
      {
        rows := rows[1..];
      }
      showContainer := false;
      DisplayAlert("empty list", S.Danger);
      SetBackToDefault();
      stored := None;
    }

    method SetBackToDefault()
      modifies this`formValue, this`editFlag, this`editID, this`submitLabel
      ensures View() == S.SetBackToDefault(old(View()))
    {
      formValue := "";
      editFlag := false;
      editID := "";
      submitLabel := "submit";
    }

    /** `deleteItem` fired by the delete button of the row at position `k`. */
    method DeleteItem(k: nat)
      requires S.Valid(View()) && k < |rows|
      modifies this
      ensures View() == S.DeleteItem(old(View()), k)
      ensures S.Valid(View())
    {
      var id := rows[k].id;
      rows := rows[..k] + rows[k + 1..];
      if |rows| == 0 {
        showContainer := false;
      }
      DisplayAlert("item removed", S.Danger);
      SetBackToDefault();
      RemoveFromLocalStorage(id);
    }

    /** `editItem` fired by the edit button of the row at position `k`. */
    method EditItem(k: nat)
      requires S.Valid(View()) && k < |rows|
      modifies this
      ensures View() == S.EditItem(old(View()), k)
      ensures S.Valid(View())
    {
      editElement := k;
      formValue := rows[k].value;
      editFlag := true;
      editID := rows[k].id;
      submitLabel := "edit";
    }

    method AddToLocalStorage(id: string, value: string)
      modifies this`stored
      ensures stored == S.AddToStorage(old(stored), id, value)
    {
      var items := GetLocalStorage();
      items := items + [Item(id, value)];
      stored := Some(items);
    }

    method RemoveFromLocalStorage(id: string)
      modifies this`stored
      ensures stored == S.RemoveFromStorage(old(stored), id)
    {
      var items := GetLocalStorage();
      items := Without(items, id);
      stored := Some(items);
    }

    method EditLocalStorage(id: string, value: string)
      modifies this`stored
      ensures stored == S.EditStorage(old(stored), id, value)
    {
      var items := GetLocalStorage();
      items := WithValue(items, id, value);
      stored := Some(items);
    }

    /** The stored list, or the empty list when the key is absent. */
    method GetLocalStorage() returns (items: seq<Item>)
      ensures stored.None? ==> items == []
      ensures stored.Some? ==> items == stored.value
    {
      match stored
      case None => items := [];
      case Some(list) => items := list;
    }

    method SetupItems()
      requires S.Valid(View())
      modifies this
      ensures View() == S.SetupItems(old(View()))
      ensures S.Valid(View())
    {
      var items := GetLocalStorage();
      if |items| > 0 {
        var i := 0;
        while i < |items|
          modifies this`rows
          invariant 0 <= i <= |items|
          invariant rows == old(rows) + items[..i]
        {
          CreateListItem(items[i].id, items[i].value);
          i := i + 1;
        }
        showContainer := true;
      }
    }

    /** The part of `createListItem` this model keeps: a new row at the end of the list. */
    method CreateListItem(id: string, value: string)
      modifies this`rows
      ensures rows == old(rows) + [Item(id, value)]
    {
      rows := rows + [Item(id, value)];
    }
  }

  /**
   Two creations from an empty store, "milk" then "eggs": both the store and the
   rows hold the records in creation order, the container is shown and the
   controller is in default mode.
   */
  method CreateTwo() returns (c: Controller)
    ensures fresh(c)
    ensures c.View() == S.State(Some([Item("1700000000000", "milk"), Item("1700000000001", "eggs")]),
                                [Item("1700000000000", "milk"), Item("1700000000001", "eggs")],
                                0, false, "", "", "submit", true, S.Shown("item added to the list", S.Success))
  {
    c := new Controller(None);
    c.EnterValue("milk");
    c.AddItem("1700000000000");
    assert [] + [Item("1700000000000", "milk")] == [Item("1700000000000", "milk")];
    c.EnterValue("eggs");
    c.AddItem("1700000000001");
    assert [Item("1700000000000", "milk")] + [Item("1700000000001", "eggs")]
        == [Item("1700000000000", "milk"), Item("1700000000001", "eggs")];
  }

  /**
   Two creations, then two deletions of the first row: the store keeps the
   container shown while a row remains and hides it when the last one goes.
   */
  method CreateThenDeleteScenario()
    returns (afterAdds: seq<Item>, afterFirst: seq<Item>, shownAfterFirst: bool,
             afterSecond: seq<Item>, shownAfterSecond: bool)
    ensures afterAdds == [Item("1700000000000", "milk"), Item("1700000000001", "eggs")]
    ensures afterFirst == [Item("1700000000001", "eggs")] && shownAfterFirst
    ensures afterSecond == [] && !shownAfterSecond
  {
    var c := CreateTwo();
    afterAdds := c.GetLocalStorage();
    S.DeleteKeepsSync(c.View(), 0);
    c.DeleteItem(0);
    afterFirst := c.GetLocalStorage();
    shownAfterFirst := c.showContainer;
    S.DeleteKeepsSync(c.View(), 0);
    c.DeleteItem(0);
    afterSecond := c.GetLocalStorage();
    shownAfterSecond := c.showContainer;
  }

  /**
   An edit of the first row is cancelled by deleting the second, unrelated row;
   the first record keeps its old value.
   */
  method DeleteDuringEditScenario()
    returns (editingBefore: bool, editingAfter: bool, buttonText: string, afterDelete: seq<Item>)
    ensures editingBefore && !editingAfter && buttonText == "submit"
    ensures afterDelete == [Item("1700000000000", "milk")]
  {
    var c := CreateTwo();
    c.EditItem(0);
    editingBefore := c.editFlag;
    c.EnterValue("oat milk");
    S.DeleteKeepsSync(c.View(), 1);
    c.DeleteItem(1);
    editingAfter := c.editFlag;
    buttonText := c.submitLabel;
    afterDelete := c.GetLocalStorage();
  }
}
