/** The `App` component's state and the handlers that change it: the two persisted lists,
    the grouped view the effect derives from them, the task selected for editing, and the
    three dialogs (edit, new task, new member). Each handler hands a new list to a setter;
    the setter's write-back and the re-derivation of the view are run as part of it. */
module Board {
  import opened Wrappers
  import opened Model
  import opened LocalStorage
  import App
  import TaskCard
  import EditTask
  import NewTaskWindow
  import NewMemberWindow
  import Seed

  const TasksKey: string := "localTasks"
  const MembersKey: string := "localMembers"

  /** The view the effect derives: resolve every reference, then group by topic. */
  ghost function View(tasks: seq<Task>, members: seq<Member>): map<string, seq<Task>>
  {
    App.TopicBuckets(App.ResolveTasks(tasks, members))
  }

  class Board {
    const tasksState: PersistentState<seq<Task>>
    const membersState: PersistentState<seq<Member>>
    var tasksByTopic: map<string, seq<Task>>
    var selectedTask: Option<Task>

    /** Everything the board's state lives in. */
    ghost function Repr(): set<object>
      reads this
    {
      {this, tasksState, tasksState.storage, membersState, membersState.storage}
    }

    /** Both lists are persisted under their keys and the view is derived from them. */
    ghost predicate Valid()
      reads Repr()
    {
      && tasksState.key == TasksKey && membersState.key == MembersKey
      && tasksState.Valid() && membersState.Valid()
      && tasksByTopic == View(tasksState.value, membersState.value)
    }

    function Tasks(): seq<Task>
      reads this, tasksState
    {
      tasksState.value
    }

    function Members(): seq<Member>
      reads this, membersState
    {
      membersState.value
    }

    /** Mounting the hooks: each list comes from storage or, when absent, from its default;
        both are written back and the view is derived. */
    constructor (taskStorage: Storage<seq<Task>>, memberStorage: Storage<seq<Member>>,
                 defaultTasks: seq<Task>, defaultMembers: seq<Member>)
      modifies taskStorage, memberStorage
      ensures Valid() && fresh(tasksState) && fresh(membersState)
      ensures tasksState.storage == taskStorage && membersState.storage == memberStorage
      ensures Tasks() == GetStorageValue(old(taskStorage.slots), TasksKey, defaultTasks, true).value
      ensures Members() == GetStorageValue(old(memberStorage.slots), MembersKey, defaultMembers, true).value
      ensures taskStorage.slots == old(taskStorage.slots)[TasksKey := Tasks()]
      ensures memberStorage.slots == old(memberStorage.slots)[MembersKey := Members()]
      ensures selectedTask.None?
    {
      var ts := new PersistentState(taskStorage, TasksKey, defaultTasks);
      var ms := new PersistentState(memberStorage, MembersKey, defaultMembers);
      tasksState := ts;
      membersState := ms;
      var view := App.GroupTasksByTopic(App.ResolveTasks(ts.value, ms.value));
      tasksByTopic := view;
      selectedTask := None;
    }

    /** `setLocalTasks(value)` followed by its effects: the list is written back under its
        key and the view is derived anew. */
    method SetTasks(value: seq<Task>)
      requires Valid()
      modifies this, tasksState, tasksState.storage
      ensures Valid() && Tasks() == value && Members() == old(Members())
      ensures tasksState.storage.slots == old(tasksState.storage.slots)[TasksKey := value]
      ensures membersState.storage.slots == old(membersState.storage.slots)
      ensures selectedTask == old(selectedTask)
    {
      tasksState.Set(value);
      tasksByTopic := App.GroupTasksByTopic(App.ResolveTasks(value, membersState.value));
    }

    /** `setLocalMembers(value)` followed by its effects. */
    method SetMembers(value: seq<Member>)
      requires Valid()
      modifies this, membersState, membersState.storage
      ensures Valid() && Members() == value && Tasks() == old(Tasks())
      ensures membersState.storage.slots == old(membersState.storage.slots)[MembersKey := value]
      ensures tasksState.storage.slots == old(tasksState.storage.slots)
      ensures selectedTask == old(selectedTask)
    {
      membersState.Set(value);
      tasksByTopic := App.GroupTasksByTopic(App.ResolveTasks(tasksState.value, value));
    }

    /** `onDrop(evt, toTopic)` with the dragged card's id read from the event. */
    method Drop(ticketId: string, toTopic: string)
      requires Valid()
      modifies this, tasksState, tasksState.storage
      ensures Valid() && Tasks() == App.Drop(old(Tasks()), ticketId, toTopic)
      ensures Members() == old(Members()) && selectedTask == old(selectedTask)
      ensures tasksState.storage.slots == old(tasksState.storage.slots)[TasksKey := Tasks()]
      ensures membersState.storage.slots == old(membersState.storage.slots)
      ensures App.IncreasingIds(old(Tasks())) ==> App.IncreasingIds(Tasks())
    {
      if App.IncreasingIds(Tasks()) {
        App.DropKeepsIncreasing(Tasks(), ticketId, toTopic);
      }
      SetTasks(App.Drop(Tasks(), ticketId, toTopic));
    }

    /** A card's confirmed "Delete": `deleteTask(id)` handed to `setLocalTasks`. */
    method DeleteTask(id: string)
      requires Valid()
      modifies this, tasksState, tasksState.storage
      ensures Valid() && Tasks() == TaskCard.DeleteTask(old(Tasks()), id)
      ensures Members() == old(Members()) && selectedTask == old(selectedTask)
      ensures tasksState.storage.slots == old(tasksState.storage.slots)[TasksKey := Tasks()]
      ensures membersState.storage.slots == old(membersState.storage.slots)
      ensures App.IncreasingIds(old(Tasks())) ==> App.IncreasingIds(Tasks())
    {
      if App.IncreasingIds(Tasks()) {
        TaskCard.DeleteTaskKeepsIncreasing(Tasks(), id);
      }
      SetTasks(TaskCard.DeleteTask(Tasks(), id));
    }

    /** `onClickEditTask(id)`: the nested search over the view, in the key order `for...in`
        enumerates; the result, possibly `null`, becomes the selected task. */
    method ClickEditTask(id: string, keyOrder: seq<string>)
      requires Valid()
      requires forall i :: 0 <= i < |keyOrder| ==> keyOrder[i] in tasksByTopic
      requires forall k :: k in tasksByTopic ==> k in keyOrder
      modifies this
      ensures Valid() && Tasks() == old(Tasks()) && Members() == old(Members())
      ensures selectedTask == App.LastBucketMatch(tasksByTopic, keyOrder, id)
      ensures selectedTask.None? <==> forall k, j :: k in tasksByTopic && 0 <= j < |tasksByTopic[k]| ==>
                                                   tasksByTopic[k][j].id != id
      ensures selectedTask.Some? ==> selectedTask.value.id == id
    {
      var found := App.FindTaskForEdit(tasksByTopic, keyOrder, id);
      selectedTask := found;
    }

    /** `onClickEditTaskClose`. */
    method CloseEditTask()
      requires Valid()
      modifies this
      ensures Valid() && Tasks() == old(Tasks()) && Members() == old(Members())
      ensures selectedTask.None?
    {
      selectedTask := None;
    }
  }

  /** Mounting `App`: the hooks default to the seed tasks and members. */
  method Mount(taskStorage: Storage<seq<Task>>, memberStorage: Storage<seq<Member>>) returns (b: Board)
    modifies taskStorage, memberStorage
    ensures b.Valid() && b.tasksState.storage == taskStorage && b.membersState.storage == memberStorage
    ensures b.Tasks() == GetStorageValue(old(taskStorage.slots), TasksKey, Seed.Tasks, true).value
    ensures b.Members() == GetStorageValue(old(memberStorage.slots), MembersKey, Seed.Members, true).value
    ensures taskStorage.slots == old(taskStorage.slots)[TasksKey := b.Tasks()]
    ensures memberStorage.slots == old(memberStorage.slots)[MembersKey := b.Members()]
    ensures b.selectedTask.None?
  {
    b := new Board(taskStorage, memberStorage, Seed.Tasks, Seed.Members);
  }

  /** The edit dialog: its copy of the task (`editableTask`) and the comment input. */
  class EditDialog {
    const board: Board
    var editable: Task
    var commentValue: string

    ghost predicate Valid()
      reads this, board, board.Repr()
    {
      this !in board.Repr() && board.Valid()
    }

    /** Opening the dialog on the selected task, with an empty comment input: the app
        renders the dialog only while a task is selected, and hands it that task. */
    constructor (board: Board, task: Task)
      requires board.Valid() && board.selectedTask == Some(task)
      ensures Valid() && this.board == board && editable == task && commentValue == ""
    {
      this.board := board;
      editable := task;
      commentValue := "";
    }

    /** Typing in the comment field. */
    method TypeComment(text: string)
      requires Valid()
      modifies this
      ensures Valid() && commentValue == text && editable == old(editable)
    {
      commentValue := text;
    }

    /** The "Post" button: disabled while the input is empty; otherwise the comment (with
        the given time stamp) goes at the end of the stored task and of the dialog's copy,
        and the input is cleared. */
    method SubmitComment(date: string) returns (posted: bool)
      requires Valid()
      modifies this, board, board.tasksState, board.tasksState.storage
      ensures Valid() && board.Members() == old(board.Members())
      ensures board.selectedTask == old(board.selectedTask)
      ensures board.tasksState.storage.slots == old(board.tasksState.storage.slots)[TasksKey := board.Tasks()]
      ensures board.membersState.storage.slots == old(board.membersState.storage.slots)
      ensures posted <==> old(commentValue) != ""
      ensures !posted ==> board.Tasks() == old(board.Tasks()) && editable == old(editable)
                          && board.tasksState.storage.slots == old(board.tasksState.storage.slots)
                          && commentValue == old(commentValue)
      ensures posted ==>
                var c := EditTask.NewComment(old(commentValue), old(board.Members()), date);
                && board.Tasks() == EditTask.AppendComment(old(board.Tasks()), old(editable.id), c)
                && editable == old(editable).(comments := old(editable.comments) + [c])
                && commentValue == ""
      ensures App.IncreasingIds(old(board.Tasks())) ==> App.IncreasingIds(board.Tasks())
    {
      posted := commentValue != "";
      if posted {
        var c := EditTask.NewComment(commentValue, board.Members(), date);
        if App.IncreasingIds(board.Tasks()) {
          EditTask.AppendCommentKeepsIncreasing(board.Tasks(), editable.id, c);
        }
        board.SetTasks(EditTask.AppendComment(board.Tasks(), editable.id, c));
        editable := editable.(comments := editable.comments + [c]);
        commentValue := "";
      }
    }

    /** `onDescriptionChange(description)`: the stored tasks change, the dialog's copy does
        not. */
    method ChangeDescription(description: string)
      requires Valid()
      modifies board, board.tasksState, board.tasksState.storage
      ensures Valid() && board.Members() == old(board.Members())
      ensures board.selectedTask == old(board.selectedTask)
      ensures board.tasksState.storage.slots == old(board.tasksState.storage.slots)[TasksKey := board.Tasks()]
      ensures board.membersState.storage.slots == old(board.membersState.storage.slots)
      ensures board.Tasks() == EditTask.ReplaceDescription(old(board.Tasks()), editable.id, description)
      ensures App.IncreasingIds(old(board.Tasks())) ==> App.IncreasingIds(board.Tasks())
    {
      if App.IncreasingIds(board.Tasks()) {
        EditTask.ReplaceDescriptionKeepsIncreasing(board.Tasks(), editable.id, description);
      }
      board.SetTasks(EditTask.ReplaceDescription(board.Tasks(), editable.id, description));
    }

    /** `onMembersChange(clickedOwnerId)`: the pruned list is stored; then the dialog's
        owners become the last match's pruned list looked up among the members. When no
        stored task has the dialog's id, `updatedOwners` is `undefined` and the second step
        throws (`ok` false) after the first has happened. */
    method RemoveOwner(clicked: string) returns (ok: bool)
      requires Valid()
      modifies this, board, board.tasksState, board.tasksState.storage
      ensures Valid() && board.Members() == old(board.Members())
      ensures board.selectedTask == old(board.selectedTask)
      ensures board.tasksState.storage.slots == old(board.tasksState.storage.slots)[TasksKey := board.Tasks()]
      ensures board.membersState.storage.slots == old(board.membersState.storage.slots)
      ensures board.Tasks() == EditTask.RemoveOwner(old(board.Tasks()), old(editable.id), clicked)
      ensures ok <==> HasTask(old(board.Tasks()), old(editable.id))
      ensures ok ==> editable == old(editable).(owners := EditTask.DialogOwners(
                       EditTask.UpdatedOwners(old(board.Tasks()), old(editable.id), clicked).value,
                       old(board.Members())))
      ensures !ok ==> editable == old(editable)
      ensures commentValue == old(commentValue)
      ensures App.IncreasingIds(old(board.Tasks())) ==> App.IncreasingIds(board.Tasks())
    {
      var tasks := board.Tasks();
      var members := board.Members();
      var id := editable.id;
      var pruned := EditTask.RemoveOwner(tasks, id, clicked);
      var updated := EditTask.UpdatedOwners(tasks, id, clicked);
      board.SetTasks(pruned);
      if App.IncreasingIds(tasks) {
        EditTask.RemoveOwnerKeepsIncreasing(tasks, id, clicked);
      }
      ok := updated.Some?;
      if ok {
        editable := editable.(owners := EditTask.DialogOwners(updated.value, members));
      }
    }
  }

  /** The task form, open: the record it started from carries the id allocated at render. */
  class NewTaskDialog {
    const board: Board
    const initial: Task

    ghost predicate Valid()
      reads this, board, board.Repr()
    {
      board.Valid()
    }

    /** The app only renders while the task list is non-empty: `newTaskId` reads its last
        element on every render. */
    constructor (board: Board)
      requires board.Valid() && board.Tasks() != []
      ensures Valid() && this.board == board
      ensures initial == NewTaskWindow.DefaultNewTask(App.NewTaskId(board.Tasks()).value)
    {
      this.board := board;
      initial := NewTaskWindow.DefaultNewTask(App.NewTaskId(board.Tasks()).value);
    }

    /** `onSubmit(data)`, with the fields the form lets the user fill in; a title outside
        the schema's rule keeps the form from submitting. The id is the initial one. */
    method Submit(title: string, topic: string, taskType: string, description: string,
                  ownerIds: seq<string>, priority: string) returns (accepted: bool)
      requires Valid()
      modifies board, board.tasksState, board.tasksState.storage
      ensures Valid() && board.Members() == old(board.Members())
      ensures board.selectedTask == old(board.selectedTask)
      ensures board.tasksState.storage.slots == old(board.tasksState.storage.slots)[TasksKey := board.Tasks()]
      ensures board.membersState.storage.slots == old(board.membersState.storage.slots)
      ensures accepted <==> NewTaskWindow.TitleValid(title)
      ensures !accepted ==> board.Tasks() == old(board.Tasks())
                            && board.tasksState.storage.slots == old(board.tasksState.storage.slots)
      ensures accepted ==>
                board.Tasks() == old(board.Tasks()) + [initial.(title := title, topic := topic, taskType := taskType,
                                                                description := description, priority := priority,
                                                                owners := OwnerRefs(ownerIds))]
      ensures App.IncreasingIds(old(board.Tasks())) && App.NewTaskId(old(board.Tasks())) == Some(initial.id)
              ==> App.IncreasingIds(board.Tasks())
    {
      accepted := NewTaskWindow.TitleValid(title);
      if accepted {
        var data := initial.(title := title, topic := topic, taskType := taskType,
                             description := description, priority := priority,
                             owners := OwnerRefs(ownerIds));
        if App.IncreasingIds(board.Tasks()) && App.NewTaskId(board.Tasks()) == Some(initial.id) {
          App.NewTaskIdFresh(board.Tasks(), data);
        }
        board.SetTasks(board.Tasks() + [data]);
      }
    }
  }

  /** The checked member boxes: their values are member ids. */
  function OwnerRefs(ids: seq<string>): (r: seq<Ref>)
    ensures |r| == |ids|
    ensures forall i :: 0 <= i < |ids| ==> r[i] == MemberId(ids[i])
  {
    seq(|ids|, i requires 0 <= i < |ids| => MemberId(ids[i]))
  }

  /** The member form, open: its id was allocated by `newMemberId()` when it opened. */
  class NewMemberDialog {
    const board: Board
    const initial: Member

    ghost predicate Valid()
      reads this, board, board.Repr()
    {
      board.Valid()
    }

    constructor (board: Board)
      requires board.Valid()
      ensures Valid() && this.board == board
      ensures initial == NewMemberWindow.DefaultNewMember(App.NewMemberId(board.Members()))
    {
      this.board := board;
      initial := NewMemberWindow.DefaultNewMember(App.NewMemberId(board.Members()));
    }

    /** `onSubmit(data)`: a name and an email that pass the schema append the member at the
        end of the list. */
    method Submit(name: string, email: string) returns (accepted: bool)
      requires Valid()
      modifies board, board.membersState, board.membersState.storage
      ensures Valid() && board.Tasks() == old(board.Tasks())
      ensures board.selectedTask == old(board.selectedTask)
      ensures board.membersState.storage.slots == old(board.membersState.storage.slots)[MembersKey := board.Members()]
      ensures board.tasksState.storage.slots == old(board.tasksState.storage.slots)
      ensures accepted <==> App.MemberNameValid(name) && App.MemberEmailValid(email)
      ensures !accepted ==> board.Members() == old(board.Members())
                            && board.membersState.storage.slots == old(board.membersState.storage.slots)
      ensures accepted ==> board.Members() == old(board.Members()) + [initial.(name := name, email := Some(email))]
      ensures accepted ==> |board.Members()| == |old(board.Members())| + 1
    {
      accepted := App.MemberNameValid(name) && App.MemberEmailValid(email);
      if accepted {
        board.SetMembers(board.Members() + [initial.(name := name, email := Some(email))]);
      }
    }
  }
}
