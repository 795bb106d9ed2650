/** The task form (`NewTaskWindow`): its title rule, its topic options and the record it
    starts from. The append on submit is `Board.NewTaskDialog.Submit`. */
module NewTaskWindow {
  import opened Model
  import Seed

  /** `createTaskSchema`: a title is required and 2 to 15 characters long; "required" adds
      nothing to the minimum length. */
  predicate TitleValid(title: string): (ok: bool)
    ensures ok <==> 2 <= |title| <= 15
  {
    title != "" && 2 <= |title| <= 15
  }

  /** One entry of the topic select; `caption` is its `label` (a reserved word here). */
  datatype SelectOption = SelectOption(value: string, caption: string)

  /** `selectTopics`: one option per topic, value the id and caption (`label`) the name. */
  function SelectTopics(topics: seq<Topic>): (r: seq<SelectOption>)
    ensures |r| == |topics|
    ensures forall i :: 0 <= i < |topics| ==> r[i].value == topics[i].id && r[i].caption == topics[i].name
  {
    seq(|topics|, i requires 0 <= i < |topics| => SelectOption(topics[i].id, topics[i].name))
  }

  /** The topics an option list stands for. */
  function OptionTopics(options: seq<SelectOption>): (r: seq<Topic>)
    ensures |r| == |options|
  {
    seq(|options|, i requires 0 <= i < |options| => Topic(options[i].value, options[i].caption))
  }

  /** The options lose nothing: they give back the topics, in order. */
  lemma SelectTopicsRoundTrip(topics: seq<Topic>)
    ensures OptionTopics(SelectTopics(topics)) == topics
  {
    var back := OptionTopics(SelectTopics(topics));
    forall i | 0 <= i < |topics| ensures back[i] == topics[i] { }
  }

  /** The form offers the seed topics: "To Do", "In Work", "Review" and "Done", under the
      ids "1" to "4". */
  lemma SeedTopicOptions()
    ensures SelectTopics(Seed.Topics) == [SelectOption("1", "To Do"), SelectOption("2", "In Work"),
                                          SelectOption("3", "Review"), SelectOption("4", "Done")]
  {
  }

  /** Formik's `initialValues`: the allocated id, no owners or comments, priority "Low" and
      every text field empty. */
  function DefaultNewTask(id: string): (t: Task)
    ensures t.id == id && t.owners == [] && t.comments == [] && t.priority == "Low"
    ensures t.taskType == "" && t.title == "" && t.topic == "" && t.description == ""
  {
    Task(id, "", "", [], "Low", "", "", [])
  }

  /** The form's initial record cannot be submitted as it is: its title is empty. */
  lemma DefaultNewTaskRejected(id: string)
    ensures !TitleValid(DefaultNewTask(id).title)
  {
  }
}
