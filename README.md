# Grocery list controller, modelled in Dafny

This project models the controller of the "Grocery Bud" page (`app.js`). The
page keeps an ordered list of grocery records `{id, value}`. The list is
persisted under the single `localStorage` key `'list'` and rendered as rows in
the page. A form either creates a new record or, after an edit button was
pressed, rewrites the value of an existing one. Rows can be deleted one at a
time or cleared all at once.

The model has four modules:

- `Wrappers` (`wrappers.dfy`): `Option`, used for the storage key that may be absent.
- `GroceryStore` (`store.dfy`): the `Item` record and the whole-list transformations of the
  storage helpers. `Load` is the `getLocalStorage` fallback, `Without` is the `filter` of
  `removeFromLocalStorage`, and `WithValue` is the `map` of `editLocalStorage`. The lemmas
  state order preservation, the no-op on a missing id, and exact single-position effects when
  ids are unique.
- `GroceryState` (`state.dfy`): the whole controller state as one value and one transition
  function per handler. The state holds the stored list, the rendered rows, `editElement`,
  `editFlag`, `editID`, the form text, the button label, the container's visibility and the
  last alert. The lemmas state the edit-mode invariant `Valid`. They also state that rows and
  store stay equal, with unique ids and non-empty values (`InSync`), across every handler,
  provided every created id is new.
- `GroceryController` (`controller.dfy`): the class `Controller`, whose fields are the
  script's module-level variables and the DOM state it drives. Its methods run the handlers'
  statements in the script's order, and each is proved to yield the matching `GroceryState`
  transition of its old state. Two client methods replay the create/delete scenario and the
  delete-during-edit scenario.

Where the description of the system and the code disagree, the model follows the code:

- A malformed stored value does not degrade to an empty list. `getLocalStorage` falls back
  to `[]` only when the key is absent; `JSON.parse` of corrupt data would throw. The stored
  value is modelled as an already-parsed `Option<seq<Item>>`.
- The container's visibility is not recomputed from the list length. `addItem` and
  `setupItems` show it, `deleteItem` hides it only when the last row goes, and
  `clearItems` hides it. `GroceryState.Valid` proves that these updates keep it equal to
  "rows exist".
- Deleting any row cancels an edit in progress, even when the deleted row is not the one
  being edited (app.js:109). An empty submit does not cancel it (app.js:54-56). Both are
  kept as written.
- Record ids are creation timestamps, so two records created in the same millisecond share
  an id. The store's `filter` and `map` then hit both records, while the page changes only
  the row that was clicked. `GroceryState.DuplicateIdsDesync` exhibits this for a delete and
  `GroceryState.DuplicateIdsEditDesync` for an edit submit. The sync
  lemmas therefore require that a created id is not already present.

## Model

| member | source | states |
|---|---|---|
| GroceryStore.WithoutMembers | app.js:148-153 | the filtered list holds exactly the records of the input whose id differs from the removed id, so every match is removed, and is never longer |
| GroceryStore.WithValue | app.js:161-166 | the mapped list has the input's length and, position by position, the same ids; a record takes the new value exactly when its id matches and is otherwise unchanged |
| GroceryStore.WithoutAppend | app.js:144-155 | removal keeps the survivors' relative order: filtering `a + b` is filtering `a` followed by filtering `b` |
| GroceryStore.WithoutAbsent | app.js:144-155 | removing an id no record carries leaves the list unchanged |
| GroceryStore.WithoutUnique | app.js:144-155 | with unique ids, removing the id of record `k` deletes exactly position `k` and keeps the rest in order |
| GroceryStore.WithValueAbsent | app.js:157-168 | editing an id no record carries leaves the list unchanged |
| GroceryStore.WithValueUnique | app.js:157-168 | with unique ids, editing the id of record `k` replaces only position `k`, keeping its id |
| GroceryState.InitialValid | app.js:11-13 | the page starts in default edit mode with no rows, storage as found, and the edit-mode invariant holding |
| GroceryState.SetupRendersStore | app.js:190-198 | loading the page never writes storage, renders the stored records in stored order, and shows the container exactly when the stored list is non-empty |
| GroceryState.SubmitCreates | app.js:36-45 | a non-empty submit in default mode appends `{id, value}` at the end of both store and rows, shows the container, clears the form and stays in default mode |
| GroceryState.SubmitEdits | app.js:46-53 | a non-empty submit in edit mode, whatever the store holds, rewrites the edited row and maps the new value onto every stored record carrying `editID`, keeping the store's length and ids, and returns to default mode with the edit-mode invariant kept |
| GroceryState.SubmitEditsInSync | app.js:46-53 | with rows and store in step, the edit submit changes exactly the edited position of the store and rows and store stay equal |
| GroceryState.EmptySubmitKeepsEdit | app.js:54-56 | an empty submit changes nothing but the alert ("empty value", danger); an edit in progress survives |
| GroceryState.SubmitKeepsSync | app.js:24-57 | every submit preserves the edit-mode invariant and rows/store equality, provided a created id is not already present |
| GroceryState.DeleteAlwaysResets | app.js:97-112 | deleting any row removes that row, filters its id from the store, always returns to default mode, and hides the container exactly when no row remains |
| GroceryState.DeleteKeepsSync | app.js:97-112 | with unique ids, the store after a delete equals the rows after it |
| GroceryState.StartEditSession | app.js:115-129 | `editItem` sets the flag, the row's id, the row's value in the form and the "edit" label, touching neither rows nor store |
| GroceryState.ClearIdempotent | app.js:72-85 | clearing leaves the key absent, no rows, container hidden and default edit state whatever came before, and a second clear changes nothing |
| GroceryState.EditRoundTrip | app.js:46-53 | opening row `k`, typing a non-empty value and submitting leaves the store with the same ids in order and the new value at `k`, back in default mode |
| GroceryState.DuplicateIdsDesync | app.js:30 | two records with the same timestamp id: deleting one row empties the store while one row remains |
| GroceryState.DuplicateIdsEditDesync | app.js:30 | two records with the same timestamp id: an edit submit rewrites both stored records but only the edited row |
| GroceryState.EnterValueKeepsSync | app.js:26 | typing into the form keeps the edit-mode invariant and rows/store equality |
| GroceryController.Controller.constructor | app.js:11-13 | the controller starts in the page's initial state over the given stored list, with the edit-mode invariant holding |
| GroceryController.Controller.EnterValue | app.js:26 | typing replaces the form text and nothing else, keeping the edit-mode invariant |
| GroceryController.Controller.AddItem | app.js:24-57 | the submit handler, run step by step, yields the `GroceryState.AddItem` transition of the old state and keeps the edit-mode invariant |
| GroceryController.Controller.DisplayAlert | app.js:60-62 | the alert shows the given text and severity |
| GroceryController.Controller.ClearItems | app.js:72-85 | removing the rows one by one, hiding, resetting and deleting the key yields the `GroceryState.ClearItems` transition and establishes the edit-mode invariant |
| GroceryController.Controller.SetBackToDefault | app.js:88-94 | empties the form, clears flag and id, and labels the button "submit", leaving the rest |
| GroceryController.Controller.DeleteItem | app.js:97-112 | the delete handler yields the `GroceryState.DeleteItem` transition of the old state and keeps the edit-mode invariant |
| GroceryController.Controller.EditItem | app.js:115-129 | the edit handler yields the `GroceryState.EditItem` transition of the old state and keeps the edit-mode invariant |
| GroceryController.Controller.AddToLocalStorage | app.js:132-142 | the key afterwards holds the old list followed by `{id, value}` |
| GroceryController.Controller.RemoveFromLocalStorage | app.js:144-155 | the key afterwards holds the old list without the records carrying `id` |
| GroceryController.Controller.EditLocalStorage | app.js:157-168 | the key afterwards holds the old list with `value` on the records carrying `id` |
| GroceryController.Controller.GetLocalStorage | app.js:170-174 | returns the stored list, or the empty list when the key is absent |
| GroceryController.Controller.SetupItems | app.js:190-198 | the loop appends the stored records to the rows in stored order and then shows the container if there were any, keeping the edit-mode invariant |
| GroceryController.Controller.CreateListItem | app.js:200-227 | a new row `{id, value}` is appended after the existing rows |
| GroceryController.CreateTwo | app.js:36-45 | two non-empty submits from an empty store leave store and rows equal to the two records in creation order, the container shown and default edit state |
| GroceryController.CreateThenDeleteScenario | app.js:97-112 | two creations store the records in creation order; deleting the first keeps the container shown, deleting the second empties the store and hides it |
| GroceryController.DeleteDuringEditScenario | app.js:108-109 | deleting a row other than the one being edited still ends the edit, and the edited record keeps its old value |

## Left out

- DOM construction and event wiring (app.js:1-21, 200-227): rows are an abstract sequence of records, and a handler takes the clicked row's position instead of an event.
- HTML parsing: `editItem` reads the row title's `innerHTML`, taken here to equal the stored value. Markup or entities in a value are not modelled.
- The alert's one-second auto-clear timer, including the race between overlapping timers, and the accumulation of `alert-*` classes (app.js:62-68). Only the last text and severity are kept.
- JSON serialisation and the Web Storage API (app.js:141, 171-173): the stored value is an already-parsed `Option<seq<Item>>`. A stored empty string, which would also be falsy, cannot arise from the script's own writes and is not modelled. Corrupt stored data, on which `JSON.parse` throws, is not modelled.
- Id generation from the wall clock (app.js:30): the id is a parameter of `AddItem`. Uniqueness is a hypothesis of the sync lemmas, not a guarantee.
- The initial button label, form text and container visibility come from the page's HTML, which is not part of this model. They are taken to be "submit", empty and hidden.
- `e.preventDefault()` (app.js:25) has no counterpart.
