/** The records the list is built from and serialises to (the Todo type of
    components/Todolist.js), and what the list's operations do to a sequence
    of them. */
module Tasks {

  datatype Option<+T> = None | Some(value: T)

  /** One task as toJSON writes it and the constructor reads it. The id is the
      millisecond timestamp of its creation (or whatever the data source
      supplied), so it is not assumed unique. */
  datatype Task = Task(id: int, title: string, completed: bool)

  /** The records after the i-th task's checkbox is flipped. */
  function Toggled(ts: seq<Task>, i: nat): seq<Task>
    requires i < |ts|
  {
    ts[i := ts[i].(completed := !ts[i].completed)]
  }

  /** The records after the i-th task is given a new title. */
  function Retitled(ts: seq<Task>, i: nat, title: string): seq<Task>
    requires i < |ts|
  {
    ts[i := ts[i].(title := title)]
  }

  /** Toggling flips the completed flag of the one record it targets, and
      leaves its id and title and every other record as they were. */
  lemma ToggledTouchesOnlyTarget(ts: seq<Task>, i: nat)
    requires i < |ts|
    ensures |Toggled(ts, i)| == |ts|
    ensures Toggled(ts, i)[i].completed == !ts[i].completed
    ensures Toggled(ts, i)[i].id == ts[i].id && Toggled(ts, i)[i].title == ts[i].title
    ensures forall j :: 0 <= j < |ts| && j != i ==> Toggled(ts, i)[j] == ts[j]
  {
  }

  /** Toggling the same task twice restores the records. */
  lemma {:induction false} ToggledTwice(ts: seq<Task>, i: nat)
    requires i < |ts|
    ensures Toggled(Toggled(ts, i), i) == ts
  {
    var once := Toggled(ts, i);
    assert once[i].completed == !ts[i].completed;
    assert once[i := once[i].(completed := !once[i].completed)] == ts;
  }

  /** Retitling changes only the title of its target, and giving the same
      title a second time changes nothing more. */
  lemma RetitledTouchesOnlyTarget(ts: seq<Task>, i: nat, title: string)
    requires i < |ts|
    ensures |Retitled(ts, i, title)| == |ts|
    ensures Retitled(ts, i, title)[i] == Task(ts[i].id, title, ts[i].completed)
    ensures forall j :: 0 <= j < |ts| && j != i ==> Retitled(ts, i, title)[j] == ts[j]
    ensures Retitled(Retitled(ts, i, title), i, title) == Retitled(ts, i, title)
  {
  }
}
