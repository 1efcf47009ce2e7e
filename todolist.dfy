/** The in-memory state of the todo list widget of components/Todolist.js:
    the TodoListItem records, the TodoList that owns them in display order,
    the display filter, and the localStorage slot the list persists itself
    to. DOM nodes and event plumbing are gone: every event the list listens
    for becomes a direct call of the handler it runs. */
module Todolist {
  import opened Tasks
  import opened Whitespace
  import opened Filter

  /** One task of the list; title and completed change in place. */
  class TodoListItem {
    const id: int
    var title: string
    var completed: bool

    /** Item built from a record; serialising it gives the record back. */
    constructor (task: Task)
      ensures ToJson() == task
    {
      id := task.id;
      title := task.title;
      completed := task.completed;
    }

    /** The record written to storage for this item. */
    function ToJson(): Task
      reads this
    {
      Task(id, title, completed)
    }

    /** The checkbox change: flips completed. (The "toggle" event it then
        dispatches is the caller's TodoList.Toggle persisting the list.) */
    method Toggle()
      modifies this
      ensures completed == !old(completed)
      ensures title == old(title)
    {
      completed := !completed;
    }

    /** Submitting the edit form with the value raw. The trimmed value
        replaces the title when it is not empty, and only then is the "edit"
        event dispatched (fired); an unchanged title still fires it. */
    method Edit(raw: string) returns (fired: bool)
      modifies this
      ensures fired <==> Trim(raw) != ""
      ensures title == (if fired then Trim(raw) else old(title))
      ensures completed == old(completed)
    {
      var newTitle := Trim(raw);
      fired := newTitle != "";
      if fired {
        title := newTitle;
      }
    }
  }

  /** No object occurs twice. */
  ghost predicate Distinct<T>(xs: seq<T>) {
    forall p, q :: 0 <= p < q < |xs| ==> xs[p] != xs[q]
  }

  /** The serialised list: the record of every item, in order. */
  function Serialize(xs: seq<TodoListItem>): (r: seq<Task>)
    reads xs
    ensures |r| == |xs|
    ensures forall k :: 0 <= k < |xs| ==> r[k] == xs[k].ToJson()
  {
    seq(|xs|, k reads xs requires 0 <= k < |xs| => xs[k].ToJson())
  }

  /** xs with every occurrence of the object x removed, by identity: an item
      that merely shares x's id, title or state stays. */
  function Without<T(==)>(xs: seq<T>, x: T): (r: seq<T>)
    ensures x !in xs ==> r == xs
    ensures x in xs ==> |r| < |xs|
  {
    if xs == [] then []
    else if xs[0] == x then Without(xs[1..], x)
    else [xs[0]] + Without(xs[1..], x)
  }

  /** The items that are not completed, in their order. */
  function Remaining(xs: seq<TodoListItem>): (r: seq<TodoListItem>)
    reads xs
    ensures |r| <= |xs|
  {
    if xs == [] then []
    else if xs[0].completed then Remaining(xs[1..])
    else [xs[0]] + Remaining(xs[1..])
  }

  /** The items that are completed, in their order. */
  function Done(xs: seq<TodoListItem>): (r: seq<TodoListItem>)
    reads xs
    ensures |r| <= |xs|
  {
    if xs == [] then []
    else if xs[0].completed then [xs[0]] + Done(xs[1..])
    else Done(xs[1..])
  }

  /** Some item of xs is completed. */
  ghost predicate AnyCompleted(xs: seq<TodoListItem>)
    reads xs
  {
    exists k :: 0 <= k < |xs| && xs[k].completed
  }

  /** The items of xs the classes c let through, in their order. */
  function VisibleIn(xs: seq<TodoListItem>, c: Classes): (r: seq<TodoListItem>)
    reads xs
  {
    if xs == [] then []
    else if Shown(c, xs[0].completed) then [xs[0]] + VisibleIn(xs[1..], c)
    else VisibleIn(xs[1..], c)
  }

  /** The list widget: its items in display order, the localStorage slot
      "todolist" it writes, and the hiding classes of its list element. */
  class TodoList {
    var items: seq<TodoListItem>
    var stored: Option<seq<Task>>
    var classes: Classes

    /** The list holds every item once (each is a new object), and the
        filter never sets both hiding classes. */
    ghost predicate Valid()
      reads this
    {
      Distinct(items) && !(classes.hideTodo && classes.hideCompleted)
    }

    /** What JSON.stringify of the item array records. */
    function Serialized(): seq<Task>
      reads this, items
    {
      Serialize(items)
    }

    /** The items currently displayed. */
    function Visible(): seq<TodoListItem>
      reads this, items
    {
      VisibleIn(items, classes)
    }

    /** Builds one item per record of taskList, keeping its order, so that
        serialising the new list gives taskList back. The constructor does
        not write storage: stored is whatever the slot held (slot). */
    constructor (taskList: seq<Task>, slot: Option<seq<Task>>)
      ensures Valid()
      ensures |items| == |taskList| && Serialized() == taskList
      ensures forall x :: x in items ==> fresh(x)
      ensures stored == slot
      ensures classes == Classes(false, false)
    {
      var built: seq<TodoListItem> := [];
      for k := 0 to |taskList|
        invariant Serialize(built) == taskList[..k]
        invariant Distinct(built)
        invariant forall x :: x in built ==> fresh(x)
      {
        var item := new TodoListItem(taskList[k]);
        assert taskList[..k + 1] == taskList[..k] + [taskList[k]];
        built := built + [item];
      }
      assert taskList[..|taskList|] == taskList;
      items := built;
      stored := slot;
      classes := Classes(false, false);
    }

    /** The persist step: the slot is overwritten with the serialised list. */
    method OnUpdate()
      modifies this`stored
      ensures stored == Some(Serialized())
      ensures Serialized() == old(Serialized()) && (Valid() <==> old(Valid()))
    {
      stored := Some(Serialize(items));
    }

    /** Submitting the add form with the value raw and the clock reading
        newId. A title that trims to nothing is rejected with no change;
        otherwise a new pending item with the trimmed title goes to the front
        and the list is persisted. */
    method Add(raw: string, newId: int)
      requires Valid()
      modifies this
      ensures Valid() && classes == old(classes)
      ensures Trim(raw) == "" ==> items == old(items) && stored == old(stored)
      ensures Trim(raw) != "" ==>
                && |items| == |old(items)| + 1
                && fresh(items[0])
                && items[0].ToJson() == Task(newId, Trim(raw), false)
                && items[1..] == old(items)
                && Serialized() == [Task(newId, Trim(raw), false)] + old(Serialized())
                && stored == Some(Serialized())
    {
      var taskName := Trim(raw);
      if taskName == "" {
        return;
      }
      var item := new TodoListItem(Task(newId, taskName, false));
      DistinctCons(item, items);
      items := [item] + items;
      assert items[1..] == old(items);
      SerializeCons(item, old(items));
      assert Serialize(old(items)) == old(Serialized());
      assert Valid();
      OnUpdate();
    }

    /** The "delete" event of item: item is filtered out of the list by
        identity and the list is persisted. When item occurs (once, as every
        item does), the others stay, in order. */
    method OnDelete(item: TodoListItem)
      requires Valid()
      modifies this
      ensures Valid() && classes == old(classes)
      ensures items == Without(old(items), item)
      ensures forall k :: 0 <= k < |old(items)| && old(items)[k] == item ==>
                items == old(items)[..k] + old(items)[k + 1..]
      ensures item in old(items) ==> |items| == |old(items)| - 1
      ensures stored == Some(Serialized())
    {
      ghost var before := items;
      forall k | 0 <= k < |before| && before[k] == item
        ensures Without(before, item) == before[..k] + before[k + 1..]
      {
        WithoutOnce(before, k);
      }
      DistinctWithout(items, item);
      items := Without(items, item);
      OnUpdate();
    }

    /** The i-th item's checkbox change, then the persist its "toggle" event
        triggers: only that item's completed flag changes. */
    method Toggle(i: nat)
      requires Valid() && i < |items|
      modifies this, items[i]
      ensures Valid() && items == old(items) && classes == old(classes)
      ensures Serialized() == Toggled(old(Serialized()), i)
      ensures stored == Some(Serialized())
    {
      ghost var before := Serialized();
      var item := items[i];
      item.Toggle();
      assert forall j :: 0 <= j < |items| && j != i ==> items[j] != item;
      SerializeAgrees(items, Toggled(before, i));
      OnUpdate();
    }

    /** The edit form of the i-th item submitted with raw, then the persist
        its "edit" event triggers. A value that trims to nothing leaves the
        title and the slot alone; otherwise the title becomes the trimmed
        value and the list is persisted, even when the title is unchanged. */
    method Edit(i: nat, raw: string)
      requires Valid() && i < |items|
      modifies this, items[i]
      ensures Valid() && items == old(items) && classes == old(classes)
      ensures Trim(raw) == "" ==> Serialized() == old(Serialized()) && stored == old(stored)
      ensures Trim(raw) != "" ==>
                Serialized() == Retitled(old(Serialized()), i, Trim(raw)) && stored == Some(Serialized())
    {
      ghost var before := Serialized();
      var item := items[i];
      var fired := item.Edit(raw);
      assert forall j :: 0 <= j < |items| && j != i ==> items[j] != item;
      if fired {
        SerializeAgrees(items, Retitled(before, i, Trim(raw)));
        OnUpdate();
      } else {
        SerializeAgrees(items, before);
      }
    }

    /** A click on a filter button whose data-filter is mode: the hiding
        classes follow the mode, and nothing else changes. */
    method SetFilter(mode: string)
      requires Valid()
      modifies this`classes
      ensures Valid()
      ensures classes == ForMode(mode)
      ensures mode == "todo" ==> Visible() == Remaining(items)
      ensures mode == "done" ==> Visible() == Done(items)
      ensures mode == "done" ==> forall x :: x in Visible() <==> x in items && x.completed
      ensures mode != "todo" && mode != "done" ==> Visible() == items
    {
      classes := ForMode(mode);
      VisibleMembers(items, classes);
      if mode == "todo" {
        VisibleTodo(items);
      } else if mode == "done" {
        VisibleDone(items);
      } else {
        VisibleAll(items, mode);
      }
    }

    /** The "clear completed" button, with the user's answer to the
        confirmation prompt. When confirmed, every completed item of a
        snapshot of the list is removed through its "delete" event (each
        persisting the list), then the list is filtered once more. */
    method ClearCompleted(confirmed: bool)
      requires Valid()
      modifies this
      ensures Valid() && classes == old(classes)
      ensures !confirmed ==> items == old(items) && stored == old(stored)
      ensures confirmed ==> items == old(Remaining(items))
      ensures confirmed && old(AnyCompleted(items)) ==> stored == Some(Serialized())
      ensures confirmed && !old(AnyCompleted(items)) ==>
                items == old(items) && stored == old(stored)
    {
      if !confirmed {
        return;
      }
      DeleteEachCompleted(items);
      items := Remaining(items);
    }

    /** One round of the forEach of clearCompleted: the k-th item of the
        snapshot is deleted when it is completed. */
    method DeleteIfCompleted(snapshot: seq<TodoListItem>, k: nat)
      requires Valid() && Distinct(snapshot) && k < |snapshot|
      requires items == Remaining(snapshot[..k]) + snapshot[k..]
      modifies this
      ensures Valid() && classes == old(classes)
      ensures items == Remaining(snapshot[..k + 1]) + snapshot[k + 1..]
      ensures snapshot[k].completed ==> stored == Some(Serialized())
      ensures !snapshot[k].completed ==> stored == old(stored) && Serialized() == old(Serialized())
      ensures AnyCompleted(snapshot[..k + 1]) <==> old(AnyCompleted(snapshot[..k])) || snapshot[k].completed
    {
      var item := snapshot[k];
      ClearStep(snapshot, k);
      if item.completed {
        OnDelete(item);
      }
    }

    /** The forEach of clearCompleted: walks snapshot, a copy of the list
        taken before the walk, and removes each completed item through its
        "delete" event, which reassigns the list and persists it. */
    method DeleteEachCompleted(snapshot: seq<TodoListItem>)
      requires Valid() && items == snapshot
      modifies this
      ensures Valid() && classes == old(classes)
      ensures items == old(Remaining(snapshot)) && Remaining(items) == items
      ensures old(AnyCompleted(snapshot)) ==> stored == Some(Serialized())
      ensures !old(AnyCompleted(snapshot)) ==> items == snapshot && stored == old(stored)
    {
      for k := 0 to |snapshot|
        invariant Valid() && classes == old(classes) && Distinct(snapshot)
        invariant items == Remaining(snapshot[..k]) + snapshot[k..]
        invariant AnyCompleted(snapshot[..k]) ==> stored == Some(Serialized())
        invariant !AnyCompleted(snapshot[..k]) ==> stored == old(stored)
      {
        DeleteIfCompleted(snapshot, k);
      }
      ClearFinished(snapshot, items);
    }
  }

  /** Removal by identity drops exactly the object removed. */
  lemma {:induction false} WithoutMembers<T>(xs: seq<T>, x: T)
    ensures forall y :: y in Without(xs, x) <==> y in xs && y != x
  {
    if xs != [] {
      WithoutMembers(xs[1..], x);
      assert xs == [xs[0]] + xs[1..];
    }
  }

  /** The filter keeps exactly the pending items. */
  lemma {:induction false} RemainingMembers(xs: seq<TodoListItem>)
    ensures forall y :: y in Remaining(xs) <==> y in xs && !y.completed
  {
    if xs != [] {
      RemainingMembers(xs[1..]);
      assert xs == [xs[0]] + xs[1..];
    }
  }

  /** The display shows exactly the items the classes let through. */
  lemma {:induction false} VisibleMembers(xs: seq<TodoListItem>, c: Classes)
    ensures forall y :: y in VisibleIn(xs, c) <==> y in xs && Shown(c, y.completed)
  {
    if xs != [] {
      VisibleMembers(xs[1..], c);
      assert xs == [xs[0]] + xs[1..];
    }
  }

  /** Serialisation is determined by the records of the items: a sequence
      holding each item's record, in order, is the serialised list. */
  lemma SerializeAgrees(xs: seq<TodoListItem>, ts: seq<Task>)
    requires |ts| == |xs|
    requires forall k :: 0 <= k < |xs| ==> ts[k] == xs[k].ToJson()
    ensures Serialize(xs) == ts
  {
  }

  /** Serialising a list with an item in front. */
  lemma SerializeCons(x: TodoListItem, xs: seq<TodoListItem>)
    ensures Serialize([x] + xs) == [x.ToJson()] + Serialize(xs)
  {
    SerializeAgrees([x] + xs, [x.ToJson()] + Serialize(xs));
  }

  /** One step of the clear-completed loop over a snapshot of the list: when
      the k-th item is completed, deleting it extends the cleared prefix by
      one; otherwise the prefix already covers it. */
  lemma {:induction false} ClearStep(snapshot: seq<TodoListItem>, k: nat)
    requires Distinct(snapshot) && k < |snapshot|
    ensures snapshot[k].completed ==>
              Without(Remaining(snapshot[..k]) + snapshot[k..], snapshot[k])
              == Remaining(snapshot[..k + 1]) + snapshot[k + 1..]
    ensures !snapshot[k].completed ==>
              Remaining(snapshot[..k]) + snapshot[k..]
              == Remaining(snapshot[..k + 1]) + snapshot[k + 1..]
    ensures AnyCompleted(snapshot[..k + 1]) <==> AnyCompleted(snapshot[..k]) || snapshot[k].completed
  {
    var item := snapshot[k];
    var done := Remaining(snapshot[..k]);
    assert snapshot[..k + 1] == snapshot[..k] + [item];
    assert snapshot[k..] == [item] + snapshot[k + 1..];
    RemainingConcat(snapshot[..k], [item]);
    assert [item][1..] == [];
    if item.completed {
      assert Remaining([item]) == [];
      DistinctSplit(snapshot, k);
      RemainingMembers(snapshot[..k]);
      assert item !in done;
      WithoutConcat(done, snapshot[k..], item);
      WithoutConcat([item], snapshot[k + 1..], item);
      assert Without([item], item) == [];
      assert Without(snapshot[k..], item) == snapshot[k + 1..];
      assert Without(done, item) == done;
      assert Remaining(snapshot[..k + 1]) == done + [];
      assert done + [] == done;
    } else {
      assert Remaining([item]) == [item];
    }
    AnyCompletedSnoc(snapshot[..k], item);
  }

  /** The clear-completed loop, once it has walked the whole snapshot, has
      left exactly the pending items, which the final filter keeps as they
      are; when nothing was completed, that is the snapshot itself. */
  lemma {:induction false} ClearFinished(snapshot: seq<TodoListItem>, items: seq<TodoListItem>)
    requires items == Remaining(snapshot[..|snapshot|]) + snapshot[|snapshot|..]
    ensures items == Remaining(snapshot) && Remaining(items) == items
    ensures AnyCompleted(snapshot[..|snapshot|]) == AnyCompleted(snapshot)
    ensures !AnyCompleted(snapshot) ==> items == snapshot
  {
    assert snapshot[..|snapshot|] == snapshot && snapshot[|snapshot|..] == [];
    assert items == Remaining(snapshot);
    RemainingIdempotent(snapshot);
    if !AnyCompleted(snapshot) {
      RemainingNoCompleted(snapshot);
    }
  }

  /** Appending an item adds a completed one exactly when it is completed. */
  lemma {:induction false} AnyCompletedSnoc(xs: seq<TodoListItem>, x: TodoListItem)
    ensures AnyCompleted(xs + [x]) <==> AnyCompleted(xs) || x.completed
  {
    var ys := xs + [x];
    assert ys[|xs|] == x;
    if AnyCompleted(xs) {
      var j :| 0 <= j < |xs| && xs[j].completed;
      assert ys[j] == xs[j];
    }
    if AnyCompleted(ys) && !x.completed {
      var j :| 0 <= j < |ys| && ys[j].completed;
      assert j < |xs| && xs[j] == ys[j];
    }
  }

  /** Removing an object that occurs once, at index k, leaves the items before
      and after it, in order. */
  lemma {:induction false} WithoutOnce<T>(xs: seq<T>, k: nat)
    requires Distinct(xs) && k < |xs|
    ensures Without(xs, xs[k]) == xs[..k] + xs[k + 1..]
  {
    DistinctSplit(xs, k);
    WithoutAt(xs, k);
  }

  /** Removing the object at index k, when it occurs nowhere else. */
  lemma {:induction false} WithoutAt<T>(xs: seq<T>, k: nat)
    requires k < |xs| && xs[k] !in xs[..k] && xs[k] !in xs[k + 1..]
    ensures Without(xs, xs[k]) == xs[..k] + xs[k + 1..]
  {
    var x, front, back := xs[k], xs[..k], xs[k + 1..];
    assert xs == front + ([x] + back);
    assert [x][1..] == [];
    WithoutConcat([x], back, x);
    WithoutConcat(front, [x] + back, x);
  }

  /** Removal by identity works piecewise on a concatenation. */
  lemma {:induction false} WithoutConcat<T>(a: seq<T>, b: seq<T>, x: T)
    ensures Without(a + b, x) == Without(a, x) + Without(b, x)
  {
    if a != [] {
      assert (a + b)[0] == a[0] && (a + b)[1..] == a[1..] + b;
      WithoutConcat(a[1..], b, x);
      if a[0] != x {
        assert Without(a + b, x) == [a[0]] + (Without(a[1..], x) + Without(b, x));
      }
    } else {
      assert a + b == b;
    }
  }

  /** Filtering keeps the pending items of each part, in the parts' order. */
  lemma {:induction false} RemainingConcat(a: seq<TodoListItem>, b: seq<TodoListItem>)
    ensures Remaining(a + b) == Remaining(a) + Remaining(b)
  {
    if a != [] {
      assert (a + b)[0] == a[0] && (a + b)[1..] == a[1..] + b;
      RemainingConcat(a[1..], b);
    } else {
      assert a + b == b;
    }
  }

  /** A list without completed items is left as it is by the filter, and only
      such a list is. */
  lemma {:induction false} RemainingNoCompleted(xs: seq<TodoListItem>)
    ensures Remaining(xs) == xs <==> !AnyCompleted(xs)
  {
    if xs != [] {
      RemainingNoCompleted(xs[1..]);
      if !AnyCompleted(xs) {
        assert !AnyCompleted(xs[1..]) by {
          forall k | 0 <= k < |xs[1..]| ensures !xs[1..][k].completed {
            assert xs[1..][k] == xs[k + 1];
          }
        }
      }
      if AnyCompleted(xs) {
        var k :| 0 <= k < |xs| && xs[k].completed;
        RemainingMembers(xs);
        assert xs[k] !in Remaining(xs);
      }
    }
  }

  /** Filtering a second time changes nothing. */
  lemma {:induction false} RemainingIdempotent(xs: seq<TodoListItem>)
    ensures Remaining(Remaining(xs)) == Remaining(xs)
  {
    if xs != [] {
      RemainingIdempotent(xs[1..]);
      if !xs[0].completed {
        var rest := Remaining(xs[1..]);
        assert ([xs[0]] + rest)[0] == xs[0] && ([xs[0]] + rest)[1..] == rest;
      }
    }
  }

  /** The "todo" filter displays exactly the items clear-completed keeps. */
  lemma {:induction false} VisibleTodo(xs: seq<TodoListItem>)
    ensures VisibleIn(xs, ForMode("todo")) == Remaining(xs)
  {
    if xs != [] {
      VisibleTodo(xs[1..]);
    }
  }

  /** The "done" filter displays exactly the completed items. */
  lemma {:induction false} VisibleDone(xs: seq<TodoListItem>)
    ensures VisibleIn(xs, ForMode("done")) == Done(xs)
  {
    if xs != [] {
      VisibleDone(xs[1..]);
    }
  }

  /** A mode other than "todo" and "done" displays every item. */
  lemma {:induction false} VisibleAll(xs: seq<TodoListItem>, mode: string)
    requires mode != "todo" && mode != "done"
    ensures VisibleIn(xs, ForMode(mode)) == xs
  {
    if xs != [] {
      VisibleAll(xs[1..], mode);
    }
  }

  /** An object occurring once is in neither part around its index. */
  lemma {:induction false} DistinctSplit<T>(xs: seq<T>, k: nat)
    requires Distinct(xs) && k < |xs|
    ensures xs[k] !in xs[..k] && xs[k] !in xs[k + 1..]
  {
    forall p | 0 <= p < k ensures xs[..k][p] != xs[k] {
      assert xs[..k][p] == xs[p];
    }
    var tail := xs[k + 1..];
    forall q | 0 <= q < |tail| ensures tail[q] != xs[k] {
      assert tail[q] == xs[k + 1 + q];
    }
  }

  /** Putting an absent object in front of a list of distinct objects keeps
      it distinct. */
  lemma DistinctCons<T>(x: T, xs: seq<T>)
    requires Distinct(xs) && x !in xs
    ensures Distinct([x] + xs)
  {
    var ys := [x] + xs;
    forall p, q | 0 <= p < q < |ys| ensures ys[p] != ys[q] {
      assert ys[q] == xs[q - 1];
      if p > 0 { assert ys[p] == xs[p - 1]; }
    }
  }

  /** Removal by identity keeps a list distinct. */
  lemma {:induction false} DistinctWithout<T>(xs: seq<T>, x: T)
    requires Distinct(xs)
    ensures Distinct(Without(xs, x))
  {
    if xs != [] {
      assert Distinct(xs[1..]) by {
        forall p, q | 0 <= p < q < |xs[1..]| ensures xs[1..][p] != xs[1..][q] {
          assert xs[1..][p] == xs[p + 1] && xs[1..][q] == xs[q + 1];
        }
      }
      DistinctWithout(xs[1..], x);
      WithoutMembers(xs[1..], x);
      if xs[0] != x {
        DistinctSplit(xs, 0);
        DistinctCons(xs[0], Without(xs[1..], x));
      }
    }
  }

  /** Filtering keeps a list distinct. */
  lemma {:induction false} DistinctRemaining(xs: seq<TodoListItem>)
    requires Distinct(xs)
    ensures Distinct(Remaining(xs))
  {
    if xs != [] {
      assert Distinct(xs[1..]) by {
        forall p, q | 0 <= p < q < |xs[1..]| ensures xs[1..][p] != xs[1..][q] {
          assert xs[1..][p] == xs[p + 1] && xs[1..][q] == xs[q + 1];
        }
      }
      DistinctRemaining(xs[1..]);
      RemainingMembers(xs[1..]);
      if !xs[0].completed {
        DistinctSplit(xs, 0);
        DistinctCons(xs[0], Remaining(xs[1..]));
      }
    }
  }
}
