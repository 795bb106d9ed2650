/** The board's records, in the shape the seed data and the forms give them. */
module Model {
  import opened Wrappers

  /** A board member. The seed members carry no email, so it is optional. */
  datatype Member = Member(id: string, name: string, email: Option<string>, profilePicture: string)

  /** A reference to a member as a task stores it: the member's id (the persisted form),
      the member record itself (the resolved form), or JavaScript's `null`/`undefined`. */
  datatype Ref = MemberId(id: string) | Resolved(member: Member) | Missing

  datatype Comment = Comment(message: string, owner: Ref, date: string)

  /** A task card. `taskType` is the JavaScript record's `type` field. */
  datatype Task = Task(id: string, taskType: string, title: string, owners: seq<Ref>,
                       priority: string, topic: string, description: string,
                       comments: seq<Comment>)

  /** A board column. */
  datatype Topic = Topic(id: string, name: string)

  /** `tasks.map(t => t.id === id ? f(t) : t)`: the shape of every edit that targets a task by id. */
  function MapMatching(tasks: seq<Task>, id: string, f: Task -> Task): (r: seq<Task>)
    ensures |r| == |tasks|
  {
    seq(|tasks|, i requires 0 <= i < |tasks| => if tasks[i].id == id then f(tasks[i]) else tasks[i])
  }

  /** Some task carries the id. */
  predicate HasTask(tasks: seq<Task>, id: string)
  {
    exists i :: 0 <= i < |tasks| && tasks[i].id == id
  }

  /** The ids of the tasks, in order. */
  function TaskIds(tasks: seq<Task>): (r: seq<string>)
    ensures |r| == |tasks|
  {
    seq(|tasks|, i requires 0 <= i < |tasks| => tasks[i].id)
  }

  /** An edit that keeps ids keeps the id list, whichever tasks it touches. */
  lemma MapMatchingKeepsIds(tasks: seq<Task>, id: string, f: Task -> Task)
    requires forall t :: f(t).id == t.id
    ensures TaskIds(MapMatching(tasks, id, f)) == TaskIds(tasks)
  {
  }
}
