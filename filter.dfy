/** The display filter of the list: the filter buttons set or clear the
    hide-todo and hide-completed classes on the list element, and those
    classes decide which items are displayed. The items themselves are not
    touched. */
module Filter {

  /** Which of the two hiding classes the list element carries. */
  datatype Classes = Classes(hideTodo: bool, hideCompleted: bool)

  /** The classes a filter button with the given data-filter value leaves set:
      "todo" hides the completed items, "done" hides the pending ones, and any
      other value hides nothing. Never both at once. */
  function ForMode(mode: string): (c: Classes)
    ensures !(c.hideTodo && c.hideCompleted)
    ensures c.hideCompleted <==> mode == "todo"
    ensures c.hideTodo <==> mode == "done"
  {
    if mode == "todo" then
      Classes(hideTodo := false, hideCompleted := true)
    else if mode == "done" then
      Classes(hideTodo := true, hideCompleted := false)
    else
      Classes(hideTodo := false, hideCompleted := false)
  }

  /** Whether an item is displayed: a completed item (one carrying the
      is-completed class) is hidden by hide-completed, a pending one by
      hide-todo. */
  predicate Shown(c: Classes, completed: bool) {
    if completed then !c.hideCompleted else !c.hideTodo
  }

  /** The visibility each filter mode gives: "todo" shows exactly the pending
      items, "done" exactly the completed ones, any other mode everything. */
  lemma ShownByMode(mode: string, completed: bool)
    ensures mode == "todo" ==> (Shown(ForMode(mode), completed) <==> !completed)
    ensures mode == "done" ==> (Shown(ForMode(mode), completed) <==> completed)
    ensures mode != "todo" && mode != "done" ==> Shown(ForMode(mode), completed)
  {
  }
}
