/** The lookup and colour tables shared by the components. */
module Utils {
  import opened Wrappers
  import opened Seqs
  import opened Model

  /** `members.filter(m => m.id === ownerId)[0] ?? null`: the first member with that id, if any. */
  function GetMemberById(ownerId: string, members: seq<Member>): (r: Option<Member>)
    ensures r.None? <==> forall i :: 0 <= i < |members| ==> members[i].id != ownerId
    ensures r.Some? ==> r.value.id == ownerId
    ensures r.Some? ==> exists k :: 0 <= k < |members| && members[k] == r.value
                                    && forall j :: 0 <= j < k ==> members[j].id != ownerId
  {
    var matches := Filter(members, (m: Member) => m.id == ownerId);
    if |matches| > 0 then
      FilterHead(members, (m: Member) => m.id == ownerId);
      Some(matches[0])
    else
      None
  }

  /** The priorities the task form offers. */
  const Priorities: set<string> := {"Low", "Normal", "High"}

  /** `taskPriority`: the colour name of a priority flag; no value for an unknown priority. */
  function TaskPriority(priority: string): (r: Option<string>)
    ensures r.Some? <==> priority in Priorities
    ensures r.Some? ==> r.value in {"slate", "purple", "red"}
    ensures priority == "Low" ==> r == Some("slate")
    ensures priority == "Normal" ==> r == Some("purple")
    ensures priority == "High" ==> r == Some("red")
  {
    if priority == "Low" then Some("slate")
    else if priority == "Normal" then Some("purple")
    else if priority == "High" then Some("red")
    else None
  }

  /** `topicColor`: the background of a column header; no value for an unknown topic id. */
  function TopicColor(topic: string): (r: Option<string>)
    ensures r.Some? <==> topic in {"1", "2", "3", "4"}
    ensures topic == "1" ==> r == Some("white")
    ensures topic == "2" ==> r == Some("purple-200")
    ensures topic == "3" ==> r == Some("orange-200")
    ensures topic == "4" ==> r == Some("green-200")
  {
    if topic == "1" then Some("white")
    else if topic == "2" then Some("purple-200")
    else if topic == "3" then Some("orange-200")
    else if topic == "4" then Some("green-200")
    else None
  }

  /** Distinct priorities get distinct flag colours, so a flag identifies its priority. */
  lemma TaskPriorityInjective(p: string, q: string)
    requires TaskPriority(p).Some? && TaskPriority(p) == TaskPriority(q)
    ensures p == q
  {
  }

  /** Distinct columns get distinct header colours. */
  lemma TopicColorInjective(a: string, b: string)
    requires TopicColor(a).Some? && TopicColor(a) == TopicColor(b)
    ensures a == b
  {
  }

  /** Looking up a member found by position with the same id cannot miss. */
  lemma GetMemberByIdFinds(members: seq<Member>, k: nat)
    requires k < |members|
    ensures GetMemberById(members[k].id, members).Some?
  {
  }

  /** When ids are distinct the lookup returns exactly the member holding the id. */
  lemma GetMemberByIdUnique(members: seq<Member>, k: nat)
    requires k < |members|
    requires forall i, j :: 0 <= i < j < |members| ==> members[i].id != members[j].id
    ensures GetMemberById(members[k].id, members) == Some(members[k])
  {
    var r := GetMemberById(members[k].id, members);
    var k' :| 0 <= k' < |members| && members[k'] == r.value
              && forall j :: 0 <= j < k' ==> members[j].id != members[k].id;
    assert !(k' < k) && !(k < k');
  }
}
