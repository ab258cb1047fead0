/** The page's module-level task list and the handlers that change it in place. */
module TodoApp {
  import opened Wrappers
  import opened Text
  import opened Tasks
  import opened Counter

  /** Owner of the in-memory `tasks` array. Every handler's new list is the
      matching transition of the Tasks module applied to the old one. */
  class TodoList {
    var tasks: seq<Task>

    /** The page starts with an empty list. */
    constructor ()
      ensures tasks == []
    {
      tasks := [];
    }

    /** `loadTasksFromStorage`: `raw` is what the storage slot held (None when
        the key is unset) and `parsed` what parsing it gave. */
    method LoadTasksFromStorage(raw: Option<string>, parsed: Parsed)
      modifies this
      ensures tasks == Loaded(old(tasks), raw, parsed)
    {
      if raw.None? || raw.value == [] {
        return;
      }
      if parsed.TaskArray? {
        tasks := parsed.items;
      }
    }

    /** `addTaskFromInput`: `input` is the field's value and `freshId` the id
        the browser's clock and random source would have produced. */
    method AddTaskFromInput(input: string, freshId: string)
      modifies this
      ensures tasks == Added(old(tasks), input, freshId)
      ensures AllSpace(input) ==> tasks == old(tasks)
      ensures !AllSpace(input) ==> |tasks| == |old(tasks)| + 1 && tasks[1..] == old(tasks)
    {
      if input == [] || Trim(input) == [] {
        BlankIffAllSpace(input);
        return;
      }
      var newTask := CreateTask(freshId, input);
      tasks := [newTask] + tasks;
      BlankIffAllSpace(input);
    }

    /** `toggleComplete`. */
    method ToggleComplete(id: string)
      modifies this
      ensures tasks == Toggled(old(tasks), id)
      ensures |tasks| == |old(tasks)|
      ensures !HasId(old(tasks), id) ==> tasks == old(tasks)
    {
      var index := FindIndex(tasks, id);
      if index == -1 {
        return;
      }
      tasks := tasks[index := tasks[index].(completed := !tasks[index].completed)];
    }

    /** `deleteTask`: the list is reassigned to its filtered copy. */
    method DeleteTask(id: string)
      modifies this
      ensures tasks == Deleted(old(tasks), id)
      ensures !HasId(tasks, id)
      ensures !HasId(old(tasks), id) ==> tasks == old(tasks)
    {
      tasks := Deleted(tasks, id);
    }

    /** `editTask`: `reply` is what the prompt returned (None for cancel) and
        `confirmDelete` the answer the confirm dialog would give. */
    method EditTask(id: string, reply: Option<string>, confirmDelete: bool)
      modifies this
      ensures tasks == Edited(old(tasks), id, reply, confirmDelete)
      ensures |tasks| <= |old(tasks)|
    {
      var index := FindIndex(tasks, id);
      if index == -1 {
        return;
      }
      if reply.None? {
        return;
      }
      var newText := reply.value;
      if Trim(newText) == [] {
        if confirmDelete {
          DeleteTask(id);
        }
        return;
      }
      tasks := tasks[index := tasks[index].(text := Trim(newText))];
    }

    /** What renderTasks shows before the rows: the counter and whether the
        empty-state element is hidden. */
    function RenderedSummary(): (v: Summary)
      reads this
      ensures !v.emptyHidden <==> tasks == []
      ensures v.counter == "1 task" <==> |tasks| == 1
      ensures v.counter == CounterLabel(|tasks|)
    {
      Summarize(|tasks|)
    }
  }

  /** Start empty, add A then B, toggle A, delete B: after the adds B comes
      before A, and at the end only A remains, completed. */
  method EndToEnd(textA: string, textB: string, idA: string, idB: string)
    returns (afterAdds: seq<Task>, final: seq<Task>)
    requires Trimmed(textA) && textA != [] && Trimmed(textB) && textB != []
    requires idA != idB
    ensures afterAdds == [Task(idB, textB, false), Task(idA, textA, false)]
    ensures final == [Task(idA, textA, true)]
  {
    var list := new TodoList();
    var a, b := Task(idA, textA, false), Task(idB, textB, false);
    AddTrimmedText([], textA, idA);
    list.AddTaskFromInput(textA, idA);
    AddTrimmedText([a], textB, idB);
    list.AddTaskFromInput(textB, idB);
    afterAdds := list.tasks;
    assert afterAdds == [b, a];
    assert FirstIndex([b, a], idA) == 1;
    list.ToggleComplete(idA);
    assert list.tasks == [b, a.(completed := true)];
    assert [b, a.(completed := true)] == [b] + [a.(completed := true)];
    DeletedAppend([b], [a.(completed := true)], idB);
    list.DeleteTask(idB);
    final := list.tasks;
  }
}
