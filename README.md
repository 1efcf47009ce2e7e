# Todo list widget: a Dafny model

This project models the in-memory state machine of the todo list widget in
`components/Todolist.js`. The widget has two parts:

- `TodoListItem`: one task, with an immutable `id`, a `title` and a `completed` flag.
- `TodoList`: the ordered array of items, the filter buttons that hide
  pending or completed items, and the `localStorage` slot `"todolist"` that
  the list persists itself to after every change.

The DOM and the event plumbing are removed. Each event the list listens for
becomes a direct call of the handler it runs:

- "delete" becomes `OnDelete`.
- "toggle" and "edit" become `Toggle` and `Edit`, which persist through `OnUpdate`.
- The submit of the add form becomes `Add`.
- A click on a filter button becomes `SetFilter`.
- The clear button becomes `ClearCompleted`.

The inputs the browser supplies are parameters:

- the form value is `raw`;
- the `Date.now()` reading is `newId`;
- the answer to `confirm()` is `confirmed`;
- the slot's content when the list is built is `slot`.

Modules:

- `Whitespace` (whitespace.dfy): `String.prototype.trim`, over the ECMAScript
  WhiteSpace and LineTerminator code points. A characterisation lemma shows that
  the result is the unique slice with white-space borders and non-white-space ends.
- `Tasks` (tasks.dfy): the `{id, title, completed}` record that `toJSON` writes,
  and what toggling and retitling do to a sequence of records.
- `Filter` (filter.dfy): the rule mapping a filter button's `data-filter` value to
  the `hide-todo` and `hide-completed` classes, and which items those classes show.
- `Todolist` (todolist.dfy): the classes `TodoListItem` and `TodoList`.
  - Items are objects mutated in place.
  - The list holds `items: seq<TodoListItem>`, `stored: Option<seq<Task>>` (the
    storage slot) and `classes`.
  - Every method is specified against the serialised list `Serialized()` and the
    sequence functions `Without` (removal by identity) and `Remaining` (the
    pending items). Lemmas prove the properties of those functions.
  - The invariant `Valid()` says that no item object occurs twice and that the
    two hiding classes are never both set. Every operation preserves it.
- `Scenario` (scenario.dfy): a session through the public operations.
  - It loads "Buy milk", adds "Walk dog", checks off "Buy milk" and clears the
    completed tasks.
  - It proves that the list and the slot end up holding only the "Walk dog" record.

`clearCompleted` runs `forEach` over the array while each removed item's
"delete" handler reassigns that array. The model follows this:

- `DeleteEachCompleted` is a loop over a snapshot taken before the loop.
- Inside it, `DeleteIfCompleted` removes one completed item through
  `OnDelete`, which persists each time.
- `ClearCompleted` then applies the final filter, which the proof shows to be
  a no-op.

Two behaviours of the code are worth naming:

- An edit whose trimmed title is non-empty replaces the title and persists,
  even when it equals the old title (components/Todolist.js:120-127).
- The filter values are `"todo"` and `"done"`; any other value shows
  everything (components/Todolist.js:210-219).

## Model

| member | source | states |
|---|---|---|
| Whitespace.TrimStart | components/Todolist.js:228 | the result is the suffix of the input left after its leading white space, and does not start with white space |
| Whitespace.TrimEnd | components/Todolist.js:228 | the result is the prefix left after the trailing white space, and does not end with white space |
| Whitespace.Trim | components/Todolist.js:228 | the trimmed title is a slice of the input with only white space outside it, has non-white-space ends, and is empty exactly when the input is all white space |
| Whitespace.TrimStartAt | components/Todolist.js:228 | the leading trim stops at the first non-white-space character |
| Whitespace.TrimEndAt | components/Todolist.js:228 | the trailing trim stops after the last non-white-space character |
| Whitespace.TrimCharacterized | components/Todolist.js:118 | any slice with white-space borders and non-white-space ends is exactly what trim returns, so trim is characterised independently of how it is computed |
| Whitespace.TrimIdempotent | components/Todolist.js:118 | trimming an already trimmed title changes nothing |
| Tasks.ToggledTouchesOnlyTarget | components/Todolist.js:87-89 | toggling flips only the target record's completed flag; its id and title and every other record stay as they were |
| Tasks.ToggledTwice | components/Todolist.js:87-89 | toggling the same record twice restores the records |
| Tasks.RetitledTouchesOnlyTarget | components/Todolist.js:120-121 | a retitle changes only the target's title (id and completed untouched, other records untouched), and repeating it changes nothing more |
| Filter.ForMode | components/Todolist.js:209-219 | "todo" sets hide-completed only, "done" sets hide-todo only, any other value clears both; never both at once |
| Filter.ShownByMode | components/Todolist.js:209-219 | under "todo" exactly the pending items show, under "done" exactly the completed ones, under any other mode all of them |
| Todolist.TodoListItem.constructor | components/Todolist.js:29-32 | the item built from a record serialises back to that record |
| Todolist.TodoListItem.Toggle | components/Todolist.js:87-89 | completed is flipped and the title is kept |
| Todolist.TodoListItem.Edit | components/Todolist.js:116-127 | the edit event fires exactly when the trimmed value is non-empty (even if equal to the old title); then the title becomes the trimmed value, otherwise it is kept; completed is kept |
| Todolist.Serialize | components/Todolist.js:135-141 | JSON.stringify of the array records one toJSON record per item, in order |
| Todolist.Without | components/Todolist.js:185 | removal by identity leaves the list as is when the object is absent and makes it shorter when it is present |
| Todolist.Remaining | components/Todolist.js:255 | the filter on not-completed never lengthens the list |
| Todolist.Done | components/Todolist.js:213-215 | the completed items, in order, never more than the list holds |
| Todolist.TodoList.constructor | components/Todolist.js:161-170 | one fresh item per record, in order, so serialising the new list gives the task list back (the round trip through storage); storage is not written; no hiding class is set |
| Todolist.TodoList.OnUpdate | components/Todolist.js:243-245 | the slot is overwritten with the serialised list and nothing else changes |
| Todolist.TodoList.Add | components/Todolist.js:225-241 | an input that trims to empty changes neither the items nor the slot; otherwise the list grows by one, a fresh pending item with the trimmed title and the given id is first, the old items follow in order, and the slot holds the new serialised list |
| Todolist.TodoList.OnDelete | components/Todolist.js:184-187 | the list is the old one with exactly that object removed by identity; when it occurs (at index k) the others keep their order and the length drops by one; the slot holds the serialised result |
| Todolist.TodoList.Toggle | components/Todolist.js:87-100 | with the "toggle" handler (line 189): the records are the old ones with only the i-th completed flag flipped, the item sequence is unchanged, and the slot holds the serialised list |
| Todolist.TodoList.Edit | components/Todolist.js:116-132 | with the "edit" handler (line 190): a value that trims to empty changes neither the records nor the slot; otherwise only the i-th title becomes the trimmed value and the list is persisted |
| Todolist.TodoList.SetFilter | components/Todolist.js:204-220 | only the hiding classes change, to those of the mode; "todo" displays exactly the pending items, "done" exactly the completed ones, other modes all items, each in list order |
| Todolist.TodoList.ClearCompleted | components/Todolist.js:247-257 | unconfirmed: nothing changes; confirmed: the list is exactly the old pending items in their order, the slot holds it when some item was completed, and otherwise nothing changes |
| Todolist.TodoList.DeleteEachCompleted | components/Todolist.js:250-254 | walking the snapshot and deleting each completed item leaves exactly the snapshot's pending items, which the final filter keeps; the slot is written exactly when something was deleted |
| Todolist.TodoList.DeleteIfCompleted | components/Todolist.js:251-253 | one forEach round extends the cleared prefix by the k-th item of the snapshot, persisting only when that item is completed |
| Todolist.WithoutMembers | components/Todolist.js:185 | an object is in the result exactly when it is in the list and is not the removed object |
| Todolist.RemainingMembers | components/Todolist.js:255 | an item is kept exactly when it is in the list and not completed |
| Todolist.VisibleMembers | components/Todolist.js:209-219 | an item is displayed exactly when it is in the list and its class is not hidden |
| Todolist.SerializeAgrees | components/Todolist.js:135-141 | the serialised list is determined by the items' records, one per position |
| Todolist.SerializeCons | components/Todolist.js:237 | putting an item at the front puts its record at the front of the serialised list |
| Todolist.ClearStep | components/Todolist.js:250-254 | one step of the loop over the snapshot: deleting the k-th item when it is completed (or skipping it) turns the state for prefix k into the state for prefix k+1 |
| Todolist.ClearFinished | components/Todolist.js:255 | after the whole snapshot is walked, the list is its pending items, the final filter keeps it, and with nothing completed it is the snapshot itself |
| Todolist.AnyCompletedSnoc | components/Todolist.js:250-254 | a prefix extended by one item has a completed item exactly when the prefix had one or the new item is completed |
| Todolist.WithoutOnce | components/Todolist.js:185 | in a list of distinct objects, removing the one at index k leaves the items before and after it, in order |
| Todolist.WithoutAt | components/Todolist.js:185 | removing an object that occurs only at index k leaves the items around it, in order |
| Todolist.WithoutConcat | components/Todolist.js:185 | removal by identity acts on each part of a concatenation separately |
| Todolist.RemainingConcat | components/Todolist.js:255 | the pending-items filter acts on each part of a concatenation separately |
| Todolist.RemainingNoCompleted | components/Todolist.js:255 | the filter leaves a list unchanged exactly when none of its items is completed |
| Todolist.RemainingIdempotent | components/Todolist.js:255 | filtering an already filtered list changes nothing |
| Todolist.VisibleTodo | components/Todolist.js:210-212 | the "todo" filter displays exactly the items clearCompleted would keep, in order |
| Todolist.VisibleDone | components/Todolist.js:213-215 | the "done" filter displays exactly the completed items, in order |
| Todolist.VisibleAll | components/Todolist.js:216-219 | any mode other than "todo" and "done" displays every item, in order |
| Todolist.DistinctSplit | components/Todolist.js:185 | an object occurring once is absent from both parts around its index |
| Todolist.DistinctCons | components/Todolist.js:237 | prepending a new object to a list of distinct objects keeps it distinct |
| Todolist.DistinctWithout | components/Todolist.js:185 | removal by identity keeps the items distinct |
| Todolist.DistinctRemaining | components/Todolist.js:255 | the pending-items filter keeps the items distinct |
| Scenario.WalkDog | components/Todolist.js:161-257 | loading "Buy milk", adding "Walk dog", toggling "Buy milk" and a confirmed clear leave the list and the slot holding exactly the "Walk dog" record with the supplied id |

## Left out

- DOM work: template cloning, `querySelector`, labels, checkbox state, the
  `is-completed`, `active`, `hidden` and `disabled` attributes and classes, and
  `CustomEvent` bubbling. Events are modelled as direct calls of their handlers.
- Display: whether an item is visible is modelled from the two hiding classes
  alone. The stylesheet that hides items carrying those classes is not part of
  this model.
- The initial classes: the list starts with neither hiding class set. The
  template HTML is not part of this model.
- `localStorage` and `JSON.stringify`: the slot is an `Option<seq<Task>>`
  value holding the records that would be stringified. Text encoding and
  parsing are not modelled.
- `confirm()` and `Date.now()` are parameters. Ids are unbounded integers, not
  JavaScript numbers.
- `TodoListItem.remove`: only its "delete" event is modelled, as
  `TodoList.OnDelete`. Detaching the element from the page is DOM work.
- The edit form's listeners: each click on the edit button adds one more
  submit listener, and later submits run all of them. They all write the same
  trimmed title and fire "edit" again, so the resulting state is the one
  `Edit` describes. The repeated persists are not modelled separately.
- The getters `element`, `title`, `id`, `completed` and `listElement` are plain
  field reads.
- app.js (choosing stored data or a network fetch, the error banner),
  functions/api.js (a fetch wrapper) and functions/dom.js (a wrapper around
  `document.createElement`) are not part of this model.
- Todolist.TodoList.Toggle and Todolist.TodoList.Edit: these state the new
  values of the target item through the serialised records (`Toggled`,
  `Retitled`) rather than field by field. Ids, titles and flags are exactly
  what is serialised, so the two statements are equivalent.
