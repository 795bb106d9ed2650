/** The logic of the `App` component: reference resolution, grouping by topic, the task
    lookup of the edit dialog, id allocation, the header's overflow list, the task types
    offered by the task form, and the member form's field rules. */
module App {
  import opened Wrappers
  import opened Seqs
  import opened Decimal
  import opened Model
  import opened Utils
  import Seed

  // ---------------------------------------------------------------------------------------
  // Reference resolution (the effect that re-derives the board view)

  /** A string reference becomes the member looked up by id (`null` when unknown); a member
      record or `null` is kept as it is. */
  function ResolveRef(r: Ref, members: seq<Member>): (out: Ref)
    ensures !out.MemberId?
    ensures !r.MemberId? ==> out == r
    ensures r.MemberId? && out.Resolved? ==> GetMemberById(r.id, members) == Some(out.member)
    ensures r.MemberId? ==> (out.Missing? <==> GetMemberById(r.id, members).None?)
  {
    match r
    case MemberId(id) =>
      (match GetMemberById(id, members)
       case Some(m) => Resolved(m)
       case None => Missing)
    case _ => r
  }

  /** One task with its owners and its comments' owners resolved. */
  function ResolveTask(t: Task, members: seq<Member>): (r: Task)
    ensures r.(owners := t.owners, comments := t.comments) == t
    ensures |r.owners| == |t.owners| && |r.comments| == |t.comments|
    ensures forall i :: 0 <= i < |t.owners| ==> r.owners[i] == ResolveRef(t.owners[i], members)
    ensures forall i :: 0 <= i < |t.comments| ==>
              r.comments[i] == t.comments[i].(owner := ResolveRef(t.comments[i].owner, members))
  {
    var owners := seq(|t.owners|, i requires 0 <= i < |t.owners| => ResolveRef(t.owners[i], members));
    var comments := seq(|t.comments|, i requires 0 <= i < |t.comments| =>
                          t.comments[i].(owner := ResolveRef(t.comments[i].owner, members)));
    t.(owners := owners, comments := comments)
  }

  /** The canonical task list with every task resolved, in the same order. */
  function ResolveTasks(tasks: seq<Task>, members: seq<Member>): (r: seq<Task>)
    ensures |r| == |tasks|
    ensures forall i :: 0 <= i < |tasks| ==> r[i] == ResolveTask(tasks[i], members)
  {
    seq(|tasks|, i requires 0 <= i < |tasks| => ResolveTask(tasks[i], members))
  }

  /** No reference of the task is still a bare id string. */
  predicate IsResolved(t: Task)
  {
    && (forall i :: 0 <= i < |t.owners| ==> !t.owners[i].MemberId?)
    && (forall i :: 0 <= i < |t.comments| ==> !t.comments[i].owner.MemberId?)
  }

  /** Resolution leaves no string reference behind. */
  lemma ResolveTaskIsResolved(t: Task, members: seq<Member>)
    ensures IsResolved(ResolveTask(t, members))
  {
  }

  /** A task without string references is left exactly as it is, whatever the member list. */
  lemma ResolveResolvedTask(t: Task, members: seq<Member>)
    requires IsResolved(t)
    ensures ResolveTask(t, members) == t
  {
    var r := ResolveTask(t, members);
    assert r.owners == t.owners;
    assert r.comments == t.comments;
  }

  /** Resolution is idempotent: a second pass changes nothing, even against another member
      list, because resolved entries and `null` are not strings. */
  lemma ResolveTasksIdempotent(tasks: seq<Task>, members: seq<Member>, members': seq<Member>)
    ensures ResolveTasks(ResolveTasks(tasks, members), members') == ResolveTasks(tasks, members)
  {
    var once := ResolveTasks(tasks, members);
    forall i | 0 <= i < |once| ensures ResolveTask(once[i], members') == once[i] {
      ResolveTaskIsResolved(tasks[i], members);
      ResolveResolvedTask(once[i], members');
    }
  }

  // ---------------------------------------------------------------------------------------
  // Grouping by topic

  /** The tasks of one topic, in list order. */
  function TasksInTopic(tasks: seq<Task>, topic: string): seq<Task>
  {
    Filter(tasks, (t: Task) => t.topic == topic)
  }

  /** The topics that at least one task carries. */
  function TopicsOf(tasks: seq<Task>): set<string>
  {
    set i | 0 <= i < |tasks| :: tasks[i].topic
  }

  /** The grouped view: one bucket per topic that occurs, holding that topic's tasks in order. */
  function TopicBuckets(tasks: seq<Task>): map<string, seq<Task>>
  {
    map k | k in TopicsOf(tasks) :: TasksInTopic(tasks, k)
  }

  lemma TopicsOfSnoc(tasks: seq<Task>, t: Task)
    ensures TopicsOf(tasks + [t]) == TopicsOf(tasks) + {t.topic}
  {
    var ext := tasks + [t];
    forall k | k in TopicsOf(ext) ensures k in TopicsOf(tasks) + {t.topic} {
      var i :| 0 <= i < |ext| && ext[i].topic == k;
      if i < |tasks| { assert tasks[i].topic == k; }
    }
    forall k | k in TopicsOf(tasks) ensures k in TopicsOf(ext) {
      var i :| 0 <= i < |tasks| && tasks[i].topic == k;
      assert ext[i].topic == k;
    }
    assert ext[|tasks|].topic == t.topic;
  }

  lemma TasksInTopicSnoc(tasks: seq<Task>, t: Task, k: string)
    ensures TasksInTopic(tasks + [t], k) == TasksInTopic(tasks, k) + (if t.topic == k then [t] else [])
  {
    FilterConcat(tasks, [t], (x: Task) => x.topic == k);
    assert [t][1..] == [];
  }

  /** A topic no task carries has an empty selection. */
  lemma TasksInTopicAbsent(tasks: seq<Task>, k: string)
    requires k !in TopicsOf(tasks)
    ensures TasksInTopic(tasks, k) == []
  {
    FilterEmpty(tasks, (x: Task) => x.topic == k);
  }

  /** Appending a task extends the bucket of its own topic, creating it if needed. */
  lemma TopicBucketsSnoc(tasks: seq<Task>, t: Task)
    ensures TopicBuckets(tasks + [t]) ==
            TopicBuckets(tasks)[t.topic := (if t.topic in TopicBuckets(tasks) then TopicBuckets(tasks)[t.topic] else []) + [t]]
  {
    var before := TopicBuckets(tasks);
    var after := TopicBuckets(tasks + [t]);
    var expected := before[t.topic := (if t.topic in before then before[t.topic] else []) + [t]];
    TopicsOfSnoc(tasks, t);
    forall k | k in after ensures after[k] == expected[k] {
      TasksInTopicSnoc(tasks, t, k);
      if k !in before {
        TasksInTopicAbsent(tasks, k);
      }
    }
    assert after.Keys == expected.Keys;
  }

  /** `groupTasksByTopic`: a reduce whose accumulator object gets one key per topic, each
      new task added at the end of its topic's array. */
  method GroupTasksByTopic(tasks: seq<Task>) returns (groups: map<string, seq<Task>>)
    ensures groups == TopicBuckets(tasks)
  {
    groups := map[];
    var i := 0;
    while i < |tasks|
      invariant 0 <= i <= |tasks|
      invariant groups == TopicBuckets(tasks[..i])
    {
      var next := tasks[i];
      ghost var prefix := tasks[..i];
      TopicBucketsSnoc(prefix, next);
      assert tasks[..i + 1] == prefix + [next];
      var bucket := if next.topic in groups then groups[next.topic] else [];
      groups := groups[next.topic := bucket + [next]];
      i := i + 1;
    }
    assert tasks[..i] == tasks;
  }

  /** Grouping partitions the list: each task sits in the bucket of its own topic exactly as
      often as it occurs in the list, and in no other bucket; every bucket holds only its
      topic's tasks and is never empty. */
  lemma {:induction false} GroupingPartitions(tasks: seq<Task>, x: Task)
    ensures x in tasks ==> x.topic in TopicBuckets(tasks)
                           && multiset(TopicBuckets(tasks)[x.topic])[x] == multiset(tasks)[x]
    ensures forall k :: k in TopicBuckets(tasks) && k != x.topic ==> x !in TopicBuckets(tasks)[k]
    ensures forall k :: k in TopicBuckets(tasks) ==> TopicBuckets(tasks)[k] != []
  {
    var groups := TopicBuckets(tasks);
    if x in tasks {
      var i :| 0 <= i < |tasks| && tasks[i] == x;
      assert x.topic in TopicsOf(tasks);
      FilterMultiset(tasks, (t: Task) => t.topic == x.topic, x);
    }
    forall k | k in groups ensures groups[k] != [] {
      var i :| 0 <= i < |tasks| && tasks[i].topic == k;
    }
  }

  /** The column header's count, `tasksByTopic[topic.id]?.length ?? 0`. */
  function BucketCount(groups: map<string, seq<Task>>, topic: string): (n: nat)
    ensures n == 0 <==> topic !in groups || groups[topic] == []
  {
    if topic in groups then |groups[topic]| else 0
  }

  /** The header count is the number of tasks in that topic; it is 0 exactly when no task
      carries the topic, which is also exactly when the view has no key for it. */
  lemma BucketCountIsTopicSize(tasks: seq<Task>, topic: string)
    ensures BucketCount(TopicBuckets(tasks), topic) == |TasksInTopic(tasks, topic)|
    ensures BucketCount(TopicBuckets(tasks), topic) == 0
            <==> forall i :: 0 <= i < |tasks| ==> tasks[i].topic != topic
    ensures topic in TopicBuckets(tasks) <==> exists i :: 0 <= i < |tasks| && tasks[i].topic == topic
  {
    var inTopic := TasksInTopic(tasks, topic);
    if inTopic != [] {
      var j :| 0 <= j < |tasks| && tasks[j] == inTopic[0];
    }
  }

  /** The board renders one column per seed topic: four distinct ids, each with a header
      colour. */
  lemma ColumnsHaveColors()
    ensures |Seed.Topics| == 4
    ensures forall i, j :: 0 <= i < j < |Seed.Topics| ==> Seed.Topics[i].id != Seed.Topics[j].id
    ensures forall i :: 0 <= i < |Seed.Topics| ==> TopicColor(Seed.Topics[i].id).Some?
  {
  }

  /** The selections of the three-task scenario, one reduce step at a time. */
  lemma ScenarioSelections(a: Task, b: Task, c: Task, k: string)
    requires a.topic == "1" && b.topic == "1" && c.topic == "2"
    ensures k == "1" ==> TasksInTopic([a, b, c], k) == [a, b]
    ensures k == "2" ==> TasksInTopic([a, b, c], k) == [c]
  {
    TasksInTopicAbsent([], k);
    assert [a] == [] + [a] && [a, b] == [a] + [b] && [a, b, c] == [a, b] + [c];
    TasksInTopicSnoc([], a, k);
    TasksInTopicSnoc([a], b, k);
    TasksInTopicSnoc([a, b], c, k);
  }

  /** The scenario of three tasks in two topics. */
  lemma GroupingScenario(a: Task, b: Task, c: Task)
    requires a.topic == "1" && b.topic == "1" && c.topic == "2"
    ensures TopicBuckets([a, b, c]) == map["1" := [a, b], "2" := [c]]
  {
    var ts := [a, b, c];
    assert TopicsOf(ts) == {"1", "2"} by {
      assert ts[0].topic == "1" && ts[2].topic == "2";
    }
    ScenarioSelections(a, b, c, "1");
    ScenarioSelections(a, b, c, "2");
    var groups := TopicBuckets(ts);
    var expected := map["1" := [a, b], "2" := [c]];
    assert groups.Keys == expected.Keys;
    assert groups["1"] == expected["1"] && groups["2"] == expected["2"];
  }

  // ---------------------------------------------------------------------------------------
  // Dropping a card on a column

  /** `onDrop`: every task carrying the dragged id moves to the target column. */
  function Drop(tasks: seq<Task>, ticketId: string, toTopic: string): (r: seq<Task>)
    ensures |r| == |tasks|
  {
    MapMatching(tasks, ticketId, (t: Task) => t.(topic := toTopic))
  }

  /** A drop rewrites only `topic`, and only of the tasks with the dragged id; every other
      task is identical, and with no match the list is unchanged. */
  lemma DropOnlyMoves(tasks: seq<Task>, ticketId: string, toTopic: string)
    ensures forall i :: 0 <= i < |tasks| ==> Drop(tasks, ticketId, toTopic)[i].(topic := tasks[i].topic) == tasks[i]
    ensures forall i :: 0 <= i < |tasks| ==>
              Drop(tasks, ticketId, toTopic)[i].topic == if tasks[i].id == ticketId then toTopic else tasks[i].topic
    ensures TaskIds(Drop(tasks, ticketId, toTopic)) == TaskIds(tasks)
    ensures !HasTask(tasks, ticketId) ==> Drop(tasks, ticketId, toTopic) == tasks
  {
    MapMatchingKeepsIds(tasks, ticketId, (t: Task) => t.(topic := toTopic));
  }

  /** A drop only rewrites topics, so the ids stay increasing. */
  lemma DropKeepsIncreasing(tasks: seq<Task>, ticketId: string, toTopic: string)
    requires IncreasingIds(tasks)
    ensures IncreasingIds(Drop(tasks, ticketId, toTopic))
  {
    DropOnlyMoves(tasks, ticketId, toTopic);
    SameIdsKeepIncreasing(tasks, Drop(tasks, ticketId, toTopic));
  }

  /** Dropping twice on the same column is dropping once. */
  lemma DropIdempotent(tasks: seq<Task>, ticketId: string, toTopic: string)
    ensures Drop(Drop(tasks, ticketId, toTopic), ticketId, toTopic) == Drop(tasks, ticketId, toTopic)
  {
  }

  /** After a drop the dragged tasks sit in the target column and in no other. */
  lemma DropLandsInColumn(tasks: seq<Task>, ticketId: string, toTopic: string, i: nat)
    requires i < |tasks| && tasks[i].id == ticketId
    ensures toTopic in TopicBuckets(Drop(tasks, ticketId, toTopic))
    ensures tasks[i].(topic := toTopic) in TopicBuckets(Drop(tasks, ticketId, toTopic))[toTopic]
    ensures forall k :: k in TopicBuckets(Drop(tasks, ticketId, toTopic)) && k != toTopic ==>
              tasks[i].(topic := toTopic) !in TopicBuckets(Drop(tasks, ticketId, toTopic))[k]
  {
    var r := Drop(tasks, ticketId, toTopic);
    assert r[i] == tasks[i].(topic := toTopic);
    GroupingPartitions(r, r[i]);
  }

  // ---------------------------------------------------------------------------------------
  // The task lookup of the edit dialog

  /** The first task of a bucket with the id (the inner loop stops at it). */
  function FirstWithId(bucket: seq<Task>, id: string): Option<Task>
  {
    var matches := Filter(bucket, (t: Task) => t.id == id);
    if |matches| > 0 then Some(matches[0]) else None
  }

  lemma FirstWithIdAt(bucket: seq<Task>, id: string, i: nat)
    requires i < |bucket| && bucket[i].id == id
    requires forall j :: 0 <= j < i ==> bucket[j].id != id
    ensures FirstWithId(bucket, id) == Some(bucket[i])
  {
    FilterHead(bucket, (t: Task) => t.id == id);
  }

  lemma FirstWithIdNone(bucket: seq<Task>, id: string)
    requires forall j :: 0 <= j < |bucket| ==> bucket[j].id != id
    ensures FirstWithId(bucket, id) == None
  {
    FilterEmpty(bucket, (t: Task) => t.id == id);
  }

  /** What the nested loops leave in `foundTask` after visiting the buckets in key order:
      the first match of the last bucket that has one. */
  function LastBucketMatch(groups: map<string, seq<Task>>, keys: seq<string>, id: string): (r: Option<Task>)
    requires forall i :: 0 <= i < |keys| ==> keys[i] in groups
    ensures r.Some? ==> r.value.id == id
  {
    if keys == [] then None
    else
      var last := keys[|keys| - 1];
      match FirstWithId(groups[last], id)
      case Some(t) => Some(t)
      case None => LastBucketMatch(groups, keys[..|keys| - 1], id)
  }

  /** No task of the buckets under `keys` carries the id. */
  predicate AbsentFrom(groups: map<string, seq<Task>>, keys: seq<string>, id: string)
  {
    forall k, j :: k in keys && k in groups && 0 <= j < |groups[k]| ==> groups[k][j].id != id
  }

  /** The lookup misses exactly when no visited bucket holds the id, and a hit carries the
      id and comes from one of the buckets. */
  lemma {:induction false} LastBucketMatchSpec(groups: map<string, seq<Task>>, keys: seq<string>, id: string)
    requires forall i :: 0 <= i < |keys| ==> keys[i] in groups
    ensures LastBucketMatch(groups, keys, id).None? <==> AbsentFrom(groups, keys, id)
    ensures LastBucketMatch(groups, keys, id).Some? ==>
              LastBucketMatch(groups, keys, id).value.id == id
              && exists k :: k in keys && k in groups && LastBucketMatch(groups, keys, id).value in groups[k]
  {
    if keys != [] {
      var n := |keys| - 1;
      var pre := keys[..n];
      var last := keys[n];
      assert keys == pre + [last];
      LastBucketMatchSpec(groups, pre, id);
      var bucket := groups[last];
      var matches := Filter(bucket, (t: Task) => t.id == id);
      FilterEmpty(bucket, (t: Task) => t.id == id);
      if matches != [] {
        var j :| 0 <= j < |bucket| && bucket[j] == matches[0];
        assert groups[last][j].id == id;
        assert !AbsentFrom(groups, keys, id);
      } else {
        assert AbsentFrom(groups, keys, id) <==> AbsentFrom(groups, pre, id);
      }
    }
  }

  /** `onClickEditTask`: the nested loops over the grouped view. `keyOrder` is the order in
      which `for...in` enumerates the view's keys; it must list exactly those keys. */
  method FindTaskForEdit(groups: map<string, seq<Task>>, keyOrder: seq<string>, id: string)
    returns (found: Option<Task>)
    requires forall i :: 0 <= i < |keyOrder| ==> keyOrder[i] in groups
    requires forall k :: k in groups ==> k in keyOrder
    ensures found == LastBucketMatch(groups, keyOrder, id)
    ensures found.None? <==> forall k, j :: k in groups && 0 <= j < |groups[k]| ==> groups[k][j].id != id
    ensures found.Some? ==> found.value.id == id && exists k :: k in groups && found.value in groups[k]
  {
    found := None;
    var ki := 0;
    while ki < |keyOrder|
      invariant 0 <= ki <= |keyOrder|
      invariant found == LastBucketMatch(groups, keyOrder[..ki], id)
    {
      var bucket := groups[keyOrder[ki]];
      var i := 0;
      while i < |bucket|
        invariant 0 <= i <= |bucket|
        invariant forall j :: 0 <= j < i ==> bucket[j].id != id
        invariant found == LastBucketMatch(groups, keyOrder[..ki], id)
      {
        if bucket[i].id == id {
          FirstWithIdAt(bucket, id, i);
          found := Some(bucket[i]);
          break;
        }
        i := i + 1;
      }
      if i == |bucket| {
        FirstWithIdNone(bucket, id);
      }
      assert keyOrder[..ki + 1][..ki] == keyOrder[..ki];
      ki := ki + 1;
    }
    assert keyOrder[..ki] == keyOrder;
    LastBucketMatchSpec(groups, keyOrder, id);
  }

  // ---------------------------------------------------------------------------------------
  // Id allocation

  /** `(parseInt(lastTaskId) + 1).toString()`. Reading the last task of an empty list throws
      (`None`); a last id with no leading number gives the string "NaN". */
  function NewTaskId(tasks: seq<Task>): (r: Option<string>)
    ensures r.None? <==> tasks == []
  {
    if tasks == [] then None
    else
      match ParseInt(tasks[|tasks| - 1].id)
      case None => Some("NaN")
      case Some(n) => Some(IntToString(n + 1))
  }

  /** A last id with no leading number gives the id "NaN". */
  lemma NewTaskIdNaN(tasks: seq<Task>)
    requires tasks != [] && ParseInt(tasks[|tasks| - 1].id).None?
    ensures NewTaskId(tasks) == Some("NaN")
  {
  }

  /** The last id read as a number, plus one, rendered back. */
  lemma NewTaskIdAfter(tasks: seq<Task>, n: int)
    requires tasks != [] && tasks[|tasks| - 1].id == IntToString(n)
    ensures NewTaskId(tasks) == Some(IntToString(n + 1))
  {
    ParseIntOfIntToString(n);
  }

  /** A task id as the allocator renders it: the shortest numeral of a natural number. */
  predicate IsNumeral(s: string)
  {
    AllDigits(s) && |s| > 0 && NatToString(DigitsValue(s)) == s
  }

  /** The number a numeric id stands for (0 for any other string). */
  function IdNumber(s: string): nat
  {
    if AllDigits(s) then DigitsValue(s) else 0
  }

  predicate IdLess(a: Task, b: Task)
  {
    IdNumber(a.id) < IdNumber(b.id)
  }

  /** The ids are numerals of strictly increasing numbers along the list, as they are in the
      seed and as appending allocated ids keeps them. */
  predicate IncreasingIds(tasks: seq<Task>)
  {
    (forall i :: 0 <= i < |tasks| ==> IsNumeral(tasks[i].id)) && SortedBy(tasks, IdLess)
  }

  /** Appending a task whose numeral is above every id keeps the ids increasing. */
  lemma AppendKeepsIncreasing(tasks: seq<Task>, t: Task)
    requires IncreasingIds(tasks) && IsNumeral(t.id)
    requires forall i :: 0 <= i < |tasks| ==> IdNumber(tasks[i].id) < IdNumber(t.id)
    ensures IncreasingIds(tasks + [t])
  {
    var ext := tasks + [t];
    forall i, j | 0 <= i < j < |ext| ensures IdLess(ext[i], ext[j]) {
      if j < |tasks| {
        assert ext[i] == tasks[i] && ext[j] == tasks[j];
      }
    }
  }

  /** Whether the ids increase depends on the id list alone: an edit that keeps every id
      in place keeps them increasing. */
  lemma SameIdsKeepIncreasing(tasks: seq<Task>, edited: seq<Task>)
    requires IncreasingIds(tasks) && TaskIds(edited) == TaskIds(tasks)
    ensures IncreasingIds(edited)
  {
    forall i | 0 <= i < |edited| ensures edited[i].id == tasks[i].id {
      assert TaskIds(edited)[i] == TaskIds(tasks)[i];
    }
  }

  /** Keeping some of the tasks, in order, keeps the ids increasing. */
  lemma FilterKeepsIncreasing(tasks: seq<Task>, p: Task -> bool)
    requires IncreasingIds(tasks)
    ensures IncreasingIds(Filter(tasks, p))
  {
    FilterSortedBy(tasks, p, IdLess);
    var r := Filter(tasks, p);
    forall i | 0 <= i < |r| ensures IsNumeral(r[i].id) {
      var k :| 0 <= k < |tasks| && tasks[k] == r[i];
    }
  }

  /** Under increasing ids, the allocated id is the numeral after the last one; no task
      carries it, and appending a task that does keeps the ids increasing. */
  lemma {:induction false} NewTaskIdFresh(tasks: seq<Task>, t: Task)
    requires tasks != [] && IncreasingIds(tasks)
    ensures NewTaskId(tasks) == Some(NatToString(IdNumber(tasks[|tasks| - 1].id) + 1))
    ensures forall i :: 0 <= i < |tasks| ==> tasks[i].id != NewTaskId(tasks).value
    ensures t.id == NewTaskId(tasks).value ==> IncreasingIds(tasks + [t])
  {
    var last := tasks[|tasks| - 1].id;
    var v := IdNumber(last);
    assert last == IntToString(v);
    NewTaskIdAfter(tasks, v);
    var nextId := NatToString(v + 1);
    DigitsValueOfNatToString(v + 1);
    assert IdNumber(nextId) == v + 1;
    forall i | 0 <= i < |tasks| ensures IdNumber(tasks[i].id) <= v {
      if i < |tasks| - 1 {
        assert IdLess(tasks[i], tasks[|tasks| - 1]);
      }
    }
    if t.id == nextId {
      AppendKeepsIncreasing(tasks, t);
    }
  }

  /** The allocator never yields "NaN" on increasing ids (a rendered number is all digits). */
  lemma NewTaskIdIsNumeral(tasks: seq<Task>)
    requires tasks != [] && IncreasingIds(tasks)
    ensures IsNumeral(NewTaskId(tasks).value)
  {
    var t :| true;
    NewTaskIdFresh(tasks, t);
    var n := IdNumber(tasks[|tasks| - 1].id) + 1;
    DigitsValueOfNatToString(n);
  }

  /** Ids "1", "2", … "n" along a list of at most nine tasks are increasing numerals. */
  lemma SingleDigitIdsIncreasing(tasks: seq<Task>)
    requires |tasks| < 10
    requires forall i :: 0 <= i < |tasks| ==> tasks[i].id == [DigitChar(i + 1)]
    ensures IncreasingIds(tasks)
  {
    forall i | 0 <= i < |tasks| ensures IsNumeral(tasks[i].id) && IdNumber(tasks[i].id) == i + 1 {
      assert NatToString(i + 1) == [DigitChar(i + 1)];
    }
  }

  lemma SeedTaskIdList()
    ensures TaskIds(Seed.Tasks) == ["1", "2", "3", "4", "5", "6", "7"]
  {
  }

  /** The seed ids run from "1" to "7", so the next task gets "8". */
  lemma SeedTaskIds()
    ensures IncreasingIds(Seed.Tasks)
    ensures NewTaskId(Seed.Tasks) == Some("8")
  {
    var ts := Seed.Tasks;
    SeedTaskIdList();
    forall i | 0 <= i < |ts| ensures ts[i].id == [DigitChar(i + 1)] {
      assert ts[i].id == TaskIds(ts)[i];
    }
    SingleDigitIdsIncreasing(ts);
    NewTaskIdAfter(ts, 7);
  }

  /** `newMemberId()`: "user" followed by the member count plus one. */
  function NewMemberId(members: seq<Member>): (r: string)
    ensures |r| > 4 && r[..4] == "user"
    ensures AllDigits(r[4..]) && DigitsValue(r[4..]) == |members| + 1
  {
    var digits := NatToString(|members| + 1);
    DigitsValueOfNatToString(|members| + 1);
    assert ("user" + digits)[4..] == digits;
    "user" + digits
  }

  /** The i-th member (from 0) has id "user" + (i + 1), as the seed members and every member
      added through the form do. */
  predicate PositionalIds(members: seq<Member>)
  {
    forall i :: 0 <= i < |members| ==> members[i].id == "user" + NatToString(i + 1)
  }

  /** Under the positional invariant the new id is unused, and appending a member that
      carries it keeps the invariant. */
  lemma NewMemberIdFresh(members: seq<Member>, m: Member)
    requires PositionalIds(members)
    ensures forall i :: 0 <= i < |members| ==> members[i].id != NewMemberId(members)
    ensures m.id == NewMemberId(members) ==> PositionalIds(members + [m])
  {
    forall i | 0 <= i < |members| ensures members[i].id != NewMemberId(members) {
      if members[i].id == NewMemberId(members) {
        assert ("user" + NatToString(i + 1))[4..] == NatToString(i + 1);
        assert ("user" + NatToString(|members| + 1))[4..] == NatToString(|members| + 1);
        NatToStringInjective(i + 1, |members| + 1);
      }
    }
  }

  /** The seed members are "user1" to "user8", so the form's first new member gets "user9"
      and does not collide. */
  lemma SeedMemberIds()
    ensures PositionalIds(Seed.Members)
    ensures NewMemberId(Seed.Members) == "user9"
  {
    var ms := Seed.Members;
    forall i | 0 <= i < |ms| ensures ms[i].id == "user" + NatToString(i + 1) {
      assert NatToString(i + 1) == [DigitChar(i + 1)];
    }
  }

  /** The count-based id is not unique when the invariant fails: after a gap it repeats an
      existing id. */
  lemma NewMemberIdCanCollide(m: Member)
    requires m.id == "user2"
    ensures NewMemberId([m]) == m.id
  {
  }

  // ---------------------------------------------------------------------------------------
  // The header's "+N more" list

  /** The names of the members, in order. */
  function MemberNames(members: seq<Member>): (r: seq<string>)
    ensures |r| == |members|
  {
    seq(|members|, i requires 0 <= i < |members| => members[i].name)
  }

  /** `additionalMembers` of the header: nothing for at most three members, otherwise the
      list of the names from the fourth member on. */
  method AdditionalMembers(members: seq<Member>) returns (list: Option<string>)
    ensures |members| <= 3 <==> list.None?
    ensures |members| > 3 ==> list == Some(CommaList(MemberNames(members[3..])))
  {
    var membersArray: seq<string> := [];
    list := None;
    if |members| > 3 {
      var i := 3;
      while i < |members|
        invariant 3 <= i <= |members|
        invariant membersArray == MemberNames(members[3..i])
      {
        membersArray := membersArray + [members[i].name];
        i := i + 1;
      }
      assert members[3..i] == members[3..];
      list := Some(CommaList(membersArray));
    }
  }

  // ---------------------------------------------------------------------------------------
  // Task types offered by the task form

  /** `tasks.map(item => item.type)`. */
  function TaskTypes(tasks: seq<Task>): (r: seq<string>)
    ensures |r| == |tasks| && forall i :: 0 <= i < |tasks| ==> r[i] == tasks[i].taskType
  {
    seq(|tasks|, i requires 0 <= i < |tasks| => tasks[i].taskType)
  }

  /** `[...new Set(tasks.map(item => item.type))]`. */
  function UniqueTypes(tasks: seq<Task>): (r: seq<string>)
    ensures Distinct(r)
    ensures forall i :: 0 <= i < |tasks| ==> tasks[i].taskType in r
    ensures forall x :: x in r ==> exists i :: 0 <= i < |tasks| && tasks[i].taskType == x
  {
    var types := TaskTypes(tasks);
    var r := Dedup(types);
    assert forall i :: 0 <= i < |tasks| ==> tasks[i].taskType == types[i];
    assert forall x :: x in r ==> exists i :: 0 <= i < |tasks| && tasks[i].taskType == x by {
      forall x | x in r ensures exists i :: 0 <= i < |tasks| && tasks[i].taskType == x {
        var j :| 0 <= j < |types| && types[j] == x;
        assert tasks[j].taskType == x;
      }
    }
    r
  }

  /** The offered types come in the order in which they first occur among the tasks. */
  lemma UniqueTypesOrder(tasks: seq<Task>)
    ensures forall i, j :: 0 <= i < j < |UniqueTypes(tasks)| ==>
              FirstIndex(TaskTypes(tasks), UniqueTypes(tasks)[i]) < FirstIndex(TaskTypes(tasks), UniqueTypes(tasks)[j])
  {
    DedupOrder(TaskTypes(tasks));
  }


  /** Deduplicating the seed's type column, one element at a time: first the three design tasks, */
  lemma DedupRepeatedType(d: string)
    ensures Dedup([d, d, d]) == [d]
  {
    DedupSnoc([], d, []);
    assert [] + [d] == [d];
    DedupSnoc([d], d, [d]);
    assert [d] + [d] == [d, d];
    DedupSnoc([d, d], d, [d]);
    assert [d, d] + [d] == [d, d, d];
  }

  /** then the research task, */
  lemma DedupSeedTypePrefix(d: string, r: string)
    requires d != r
    ensures Dedup([d, d, d, r]) == [d, r]
  {
    DedupRepeatedType(d);
    DedupSnoc([d, d, d], r, [d]);
    assert [d, d, d] + [r] == [d, d, d, r];
  }

  /** then the design-system task and the two presentations. */
  lemma DedupSeedTypeColumn(d: string, r: string, ds: string, p: string)
    requires d != r && d != ds && d != p && r != ds && r != p && ds != p
    ensures Dedup([d, d, d, r, ds, p, p]) == [d, r, ds, p]
  {
    DedupSeedTypePrefix(d, r);
    DedupSnoc([d, d, d, r], ds, [d, r]);
    assert [d, d, d, r] + [ds] == [d, d, d, r, ds];
    assert [d, r] + [ds] == [d, r, ds];
    DedupSnoc([d, d, d, r, ds], p, [d, r, ds]);
    assert [d, d, d, r, ds] + [p] == [d, d, d, r, ds, p];
    assert [d, r, ds] + [p] == [d, r, ds, p];
    DedupSnoc([d, d, d, r, ds, p], p, [d, r, ds, p]);
    assert [d, d, d, r, ds, p] + [p] == [d, d, d, r, ds, p, p];
  }

  /** The types the seed tasks give, in first-occurrence order. */
  lemma UniqueSeedTypes()
    ensures UniqueTypes(Seed.Tasks) == ["Design", "Research", "Design system", "Presentation"]
  {
    var types := TaskTypes(Seed.Tasks);
    assert types == ["Design", "Design", "Design", "Research", "Design system", "Presentation", "Presentation"];
    DedupSeedTypeColumn("Design", "Research", "Design system", "Presentation");
  }

  // ---------------------------------------------------------------------------------------
  // Member form rules (`memberSchema`)

  /** A name is required and 2 to 15 characters long. */
  predicate MemberNameValid(name: string): (ok: bool)
    ensures ok <==> 2 <= |name| <= 15
  {
    name != "" && 2 <= |name| <= 15
  }

  /** An email address is required (its format check is not modelled). */
  predicate MemberEmailValid(email: string): (ok: bool)
    ensures ok <==> |email| > 0
  {
    email != ""
  }
}
