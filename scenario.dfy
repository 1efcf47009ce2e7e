/** A session driven through the model end to end: a list loaded with one
    pending task gets a second task, the first one is checked off, and
    clearing the completed tasks leaves only the new one, which is also what
    the storage slot then holds. */
module Scenario {
  import opened Tasks
  import opened Whitespace
  import opened Todolist

  method WalkDog(newId: int) returns (list: TodoList)
    ensures list.Valid()
    ensures list.Serialized() == [Task(newId, "Walk dog", false)]
    ensures list.stored == Some(list.Serialized())
  {
    list := new TodoList([Task(1, "Buy milk", false)], None);
    var bought := list.items[0];
    assert bought in list.items;
    assert list.items == [bought];

    var title := "Walk dog";
    TrimCharacterized(title, 0, |title|);
    assert title[0..|title|] == title;
    list.Add(title, newId);
    var walk := list.items[0];
    assert list.items == [walk, bought];
    assert walk.ToJson() == Task(newId, "Walk dog", false);

    list.Toggle(1);
    assert bought.completed && !walk.completed;
    assert list.items[1..] == [bought] && [bought][1..] == [];
    assert Remaining(list.items) == [walk];
    assert AnyCompleted(list.items) by {
      assert list.items[1].completed;
    }

    list.ClearCompleted(true);
    assert list.items == [walk];
    assert list.Serialized() == [walk.ToJson()];
  }
}
