/**
 The grocery-list controller of `app.js` with the DOM replaced by values: the
 persisted list, the rendered rows, the edit-mode variables, the form field, the
 submit-button label, the container's visibility and the last alert. Each
 top-level function of the script is a transition on this state; the lemmas
 state what the script promises about them.
 */
module GroceryState {

  import opened Wrappers
  import opened GroceryStore

  datatype Severity = Success | Danger

  /** The alert banner: the last text shown and its severity class. */
  datatype Alert = NoAlert | Shown(text: string, severity: Severity)

  datatype State = State(
    stored: Option<seq<Item>>,  // localStorage['list'], absent after a clear
    rows: seq<Item>,            // the `.grocery-item` articles of the list, in document order
    editElement: nat,           // position of the row whose title is being edited
    editFlag: bool,
    editID: string,
    formValue: string,          // the text of the `#grocery` input
    submitLabel: string,        // the text of the submit button
    showContainer: bool,        // whether the container carries `show-container`
    alert: Alert)

  /** The page as loaded: nothing rendered yet, default edit state, storage as found. */
  function Initial(stored: Option<seq<Item>>): State
  {
    State(stored, [], 0, false, "", "", "submit", false, NoAlert)
  }

  /** `addToLocalStorage`: read the list, push the new record, write the list back. */
  function AddToStorage(stored: Option<seq<Item>>, id: string, value: string): Option<seq<Item>>
  {
    Some(Load(stored) + [Item(id, value)])
  }

  /** `removeFromLocalStorage`: read the list, filter out the id, write the list back. */
  function RemoveFromStorage(stored: Option<seq<Item>>, id: string): Option<seq<Item>>
  {
    Some(Without(Load(stored), id))
  }

  /** `editLocalStorage`: read the list, map the new value onto the id, write the list back. */
  function EditStorage(stored: Option<seq<Item>>, id: string, value: string): Option<seq<Item>>
  {
    Some(WithValue(Load(stored), id, value))
  }

  function SetBackToDefault(s: State): State
  {
    s.(formValue := "", editFlag := false, editID := "", submitLabel := "submit")
  }

  function DisplayAlert(s: State, text: string, severity: Severity): State
  {
    s.(alert := Shown(text, severity))
  }

  /** The user types `v` into the form field. */
  function EnterValue(s: State, v: string): State
  {
    s.(formValue := v)
  }

  /** While an edit is in progress, `editElement` is a row on the page. */
  predicate CanSubmit(s: State)
  {
    s.editFlag ==> s.editElement < |s.rows|
  }

  /** `addItem`: the form's submit handler, with `id` standing for the timestamp it mints. */
  function AddItem(s: State, id: string): State
    requires CanSubmit(s)
  {
    var value := s.formValue;
    if value != "" && !s.editFlag then
      var s1 := s.(rows := s.rows + [Item(id, value)]);
      var s2 := DisplayAlert(s1, "item added to the list", Success);
      var s3 := s2.(showContainer := true, stored := AddToStorage(s2.stored, id, value));
      SetBackToDefault(s3)
    else if value != "" && s.editFlag then
      var s1 := s.(rows := s.rows[s.editElement := Item(s.rows[s.editElement].id, value)]);
      var s2 := DisplayAlert(s1, "value changed", Success);
      var s3 := s2.(stored := EditStorage(s2.stored, s2.editID, value));
      SetBackToDefault(s3)
    else
      DisplayAlert(s, "empty value", Danger)
  }

  /** `clearItems`: remove every row, hide the container, reset, delete the key. */
  function ClearItems(s: State): State
  {
    var s1 := s.(rows := [], showContainer := false);
    var s2 := DisplayAlert(s1, "empty list", Danger);
    SetBackToDefault(s2).(stored := None)
  }

  /** `deleteItem` on the row at position `k`. */
  function DeleteItem(s: State, k: nat): State
    requires k < |s.rows|
  {
    var id := s.rows[k].id;
    var rows := s.rows[..k] + s.rows[k + 1..];
    var s1 := s.(rows := rows, showContainer := if |rows| == 0 then false else s.showContainer);
    var s2 := DisplayAlert(s1, "item removed", Danger);
    var s3 := SetBackToDefault(s2);
    s3.(stored := RemoveFromStorage(s3.stored, id))
  }

  /** `editItem` on the row at position `k`. */
  function EditItem(s: State, k: nat): State
    requires k < |s.rows|
  {
    s.(editElement := k, formValue := s.rows[k].value, editFlag := true,
       editID := s.rows[k].id, submitLabel := "edit")
  }

  /** `setupItems`: render every stored record, show the container if there is one. */
  function SetupItems(s: State): State
  {
    var items := Load(s.stored);
    if |items| > 0 then s.(rows := s.rows + items, showContainer := true) else s
  }

  /**
   The edit-mode invariant: an edit in progress points at a live row carrying
   `editID` and labels the button "edit"; otherwise the id is cleared and the
   button says "submit"; the container is shown exactly when rows exist.
   */
  predicate Valid(s: State)
  {
    && (s.editFlag ==> s.editElement < |s.rows| && s.rows[s.editElement].id == s.editID && s.submitLabel == "edit")
    && (!s.editFlag ==> s.editID == "" && s.submitLabel == "submit")
    && s.showContainer == (|s.rows| > 0)
  }

  /**
   The rendered rows and the persisted list agree, no id occurs twice, and no
   value is empty.
   */
  predicate InSync(s: State)
  {
    s.rows == Load(s.stored) && UniqueIds(s.rows) && NonEmptyValues(s.rows)
  }

  lemma InitialValid(stored: Option<seq<Item>>)
    ensures Valid(Initial(stored))
    ensures Initial(stored).stored == stored && Initial(stored).rows == []
  {
  }

  /** Loading the page renders the stored records in stored order and never writes storage. */
  lemma SetupRendersStore(s: State)
    requires Valid(s) && s.rows == []
    ensures SetupItems(s).stored == s.stored
    ensures SetupItems(s).rows == Load(s.stored)
    ensures SetupItems(s).showContainer == (|Load(s.stored)| > 0)
    ensures Valid(SetupItems(s))
    ensures UniqueIds(Load(s.stored)) && NonEmptyValues(Load(s.stored)) ==> InSync(SetupItems(s))
  {
  }

  /** A non-empty submit in default mode appends one record at the end of store and rows. */
  lemma SubmitCreates(s: State, id: string)
    requires Valid(s) && s.formValue != "" && !s.editFlag
    ensures var r := AddItem(s, id);
      && Load(r.stored) == Load(s.stored) + [Item(id, s.formValue)]
      && r.rows == s.rows + [Item(id, s.formValue)]
      && r.showContainer
      && !r.editFlag && r.editID == "" && r.formValue == "" && r.submitLabel == "submit"
      && r.alert == Shown("item added to the list", Success)
      && Valid(r)
  {
  }

  /**
   A non-empty submit in edit mode rewrites the value of the row being edited
   and maps the new value onto every stored record carrying `editID`; the
   store keeps its length and ids, and the controller returns to default mode.
   */
  lemma SubmitEdits(s: State, id: string)
    requires Valid(s) && s.formValue != "" && s.editFlag
    ensures var r := AddItem(s, id);
      && Load(r.stored) == WithValue(Load(s.stored), s.editID, s.formValue)
      && |Load(r.stored)| == |Load(s.stored)|
      && (forall i :: 0 <= i < |Load(s.stored)| ==> Load(r.stored)[i].id == Load(s.stored)[i].id)
      && r.rows == s.rows[s.editElement := Item(s.editID, s.formValue)]
      && r.showContainer == s.showContainer
      && !r.editFlag && r.editID == "" && r.formValue == "" && r.submitLabel == "submit"
      && r.alert == Shown("value changed", Success)
      && Valid(r)
  {
  }

  /**
   With rows and store in step, the edit submit changes exactly the edited
   position of the store, and rows and store stay equal.
   */
  lemma {:induction false} SubmitEditsInSync(s: State, id: string)
    requires Valid(s) && InSync(s) && s.formValue != "" && s.editFlag
    ensures var r := AddItem(s, id);
      && Load(r.stored) == Load(s.stored)[s.editElement := Item(s.editID, s.formValue)]
      && r.rows == Load(r.stored)
  {
    WithValueUnique(s.rows, s.editElement, s.formValue);
  }

  /**
   An empty submit only raises the "empty value" alert: the store, the rows and
   an edit in progress (flag, id, form text, label) all survive.
   */
  lemma EmptySubmitKeepsEdit(s: State, id: string)
    requires CanSubmit(s) && s.formValue == ""
    ensures AddItem(s, id) == s.(alert := Shown("empty value", Danger))
  {
  }

  /** Every submit keeps rows and store in step, provided a created id is new. */
  lemma {:induction false} SubmitKeepsSync(s: State, id: string)
    requires Valid(s) && InSync(s)
    requires s.formValue != "" && !s.editFlag ==> Absent(s.rows, id)
    ensures Valid(AddItem(s, id)) && InSync(AddItem(s, id))
  {
    if s.formValue != "" && s.editFlag {
      SubmitEdits(s, id);
      SubmitEditsInSync(s, id);
      var r := AddItem(s, id);
      assert forall i :: 0 <= i < |r.rows| ==> r.rows[i].id == s.rows[i].id;
    }
  }

  /**
   Deleting any row, whether or not it is the one being edited, drops that row,
   filters its id out of the store, cancels the edit and hides the container
   exactly when no row is left.
   */
  lemma DeleteAlwaysResets(s: State, k: nat)
    requires Valid(s) && k < |s.rows|
    ensures var r := DeleteItem(s, k);
      && r.rows == s.rows[..k] + s.rows[k + 1..]
      && Load(r.stored) == Without(Load(s.stored), s.rows[k].id)
      && !r.editFlag && r.editID == "" && r.formValue == "" && r.submitLabel == "submit"
      && r.showContainer == (|r.rows| > 0)
      && r.alert == Shown("item removed", Danger)
      && Valid(r)
  {
  }

  /** With unique ids the store's filter removes exactly the row the page removed. */
  lemma {:induction false} DeleteKeepsSync(s: State, k: nat)
    requires Valid(s) && InSync(s) && k < |s.rows|
    ensures Valid(DeleteItem(s, k)) && InSync(DeleteItem(s, k))
    ensures Load(DeleteItem(s, k).stored) == s.rows[..k] + s.rows[k + 1..]
  {
    WithoutUnique(s.rows, k);
    UniqueIdsRemove(s.rows, k);
  }

  /** `editItem` opens an edit session on row `k` and touches neither rows nor store. */
  lemma StartEditSession(s: State, k: nat)
    requires Valid(s) && k < |s.rows|
    ensures var r := EditItem(s, k);
      && r.editFlag && r.editID == s.rows[k].id && r.formValue == s.rows[k].value
      && r.submitLabel == "edit"
      && r.rows == s.rows && r.stored == s.stored
      && Valid(r) && (InSync(s) ==> InSync(r))
  {
  }

  /**
   Clearing empties rows and store whatever the prior state, hides the
   container, ends any edit, and a second clear changes nothing more.
   */
  lemma ClearIdempotent(s: State)
    ensures var r := ClearItems(s);
      && r.stored == None && Load(r.stored) == [] && r.rows == []
      && !r.showContainer && !r.editFlag && r.editID == "" && r.formValue == ""
      && r.submitLabel == "submit"
      && Valid(r) && InSync(r)
      && ClearItems(r) == r
  {
  }

  /** Typing into the form changes nothing but the form. */
  lemma EnterValueKeepsSync(s: State, v: string)
    ensures Valid(s) ==> Valid(EnterValue(s, v))
    ensures InSync(s) ==> InSync(EnterValue(s, v))
  {
  }

  /**
   The edit round trip: open row `k`, type a non-empty `v`, submit. The store
   then holds the same ids in the same order with `v` at position `k`, and the
   controller is back in default mode.
   */
  lemma {:induction false} EditRoundTrip(s: State, k: nat, v: string, id: string)
    requires Valid(s) && InSync(s) && k < |s.rows| && v != ""
    ensures var r := AddItem(EnterValue(EditItem(s, k), v), id);
      && Load(r.stored) == Load(s.stored)[k := Item(s.rows[k].id, v)]
      && !r.editFlag && r.submitLabel == "submit"
      && Valid(r) && InSync(r)
  {
    var e := EnterValue(EditItem(s, k), v);
    StartEditSession(s, k);
    SubmitEditsInSync(e, id);
    SubmitKeepsSync(e, id);
  }

  /**
   Why the sync invariant needs unique ids: two records minted in the same
   millisecond share an id, deleting one row removes both from the store.
   */
  lemma DuplicateIdsDesync()
    ensures var a, b := Item("1700000000000", "milk"), Item("1700000000000", "eggs");
      var s := State(Some([a, b]), [a, b], 0, false, "", "", "submit", true, NoAlert);
      && Valid(s) && s.rows == Load(s.stored)
      && DeleteItem(s, 0).rows == [b]
      && Load(DeleteItem(s, 0).stored) == []
  {
    var a, b := Item("1700000000000", "milk"), Item("1700000000000", "eggs");
    assert [a, b][1..] == [b] && [a, b][..0] + [a, b][1..] == [b];
    assert Without([b], a.id) == [] by {
      assert [b][1..] == [];
    }
    assert Without([a, b], a.id) == [];
  }

  /**
   The edit half of the same collision: submitting an edit of one of two
   records that share an id rewrites both stored records but only the row
   being edited.
   */
  lemma DuplicateIdsEditDesync()
    ensures var a, b := Item("1700000000000", "milk"), Item("1700000000000", "eggs");
      var s := State(Some([a, b]), [a, b], 0, true, "1700000000000", "oat", "edit", true, NoAlert);
      && Valid(s) && s.rows == Load(s.stored)
      && AddItem(s, "1700000000001").rows == [Item("1700000000000", "oat"), b]
      && Load(AddItem(s, "1700000000001").stored) == [Item("1700000000000", "oat"), Item("1700000000000", "oat")]
  {
  }
}
