/** The list updates of the edit dialog (`EditTask`): posting a comment, replacing the
    description and removing an owner. Each builds a new task list with `map` over the
    canonical (unresolved) list; the dialog's own copy of the task is updated beside it. */
module EditTask {
  import opened Wrappers
  import opened Seqs
  import opened Model
  import opened Utils
  import App

  /** The id of the member every comment is attributed to. */
  const CommentAuthorId: string := "user8"

  /** `getMemberById("user8", members)` as stored in a comment: the member or `null`. */
  function CommentAuthor(members: seq<Member>): (r: Ref)
    ensures r.Missing? <==> forall i :: 0 <= i < |members| ==> members[i].id != CommentAuthorId
    ensures r.Resolved? ==> GetMemberById(CommentAuthorId, members) == Some(r.member)
    ensures !r.MemberId?
  {
    match GetMemberById(CommentAuthorId, members)
    case Some(m) => Resolved(m)
    case None => Missing
  }

  /** The comment built from the input text and the time of posting; whoever posts it, its
      author is the fixed member. */
  function NewComment(message: string, members: seq<Member>, date: string): (c: Comment)
    ensures c.message == message && c.date == date
    ensures c.owner == App.ResolveRef(MemberId(CommentAuthorId), members)
  {
    Comment(message, CommentAuthor(members), date)
  }

  // ---------------------------------------------------------------------------------------
  // Posting a comment

  /** `onClickSubmitComment`'s list: the comment goes at the end of every task with the id. */
  function AppendComment(tasks: seq<Task>, id: string, c: Comment): (r: seq<Task>)
    ensures |r| == |tasks|
  {
    MapMatching(tasks, id, (t: Task) => t.(comments := t.comments + [c]))
  }

  /** A matching task gains exactly one comment, the new one, after its old comments in
      their order; nothing else of it changes, and the other tasks are untouched. */
  lemma AppendCommentSpec(tasks: seq<Task>, id: string, c: Comment, i: nat)
    requires i < |tasks|
    ensures tasks[i].id == id ==>
              && |AppendComment(tasks, id, c)[i].comments| == |tasks[i].comments| + 1
              && AppendComment(tasks, id, c)[i].comments[..|tasks[i].comments|] == tasks[i].comments
              && AppendComment(tasks, id, c)[i].comments[|tasks[i].comments|] == c
              && AppendComment(tasks, id, c)[i].(comments := tasks[i].comments) == tasks[i]
    ensures tasks[i].id != id ==> AppendComment(tasks, id, c)[i] == tasks[i]
  {
    var r := AppendComment(tasks, id, c);
    if tasks[i].id == id {
      assert r[i].comments == tasks[i].comments + [c];
    }
  }

  /** The ids, and so the order of the tasks, stay as they were; with no task carrying the
      id the list is unchanged. */
  lemma AppendCommentFrame(tasks: seq<Task>, id: string, c: Comment)
    ensures TaskIds(AppendComment(tasks, id, c)) == TaskIds(tasks)
    ensures !HasTask(tasks, id) ==> AppendComment(tasks, id, c) == tasks
  {
    MapMatchingKeepsIds(tasks, id, (t: Task) => t.(comments := t.comments + [c]));
  }

  // ---------------------------------------------------------------------------------------
  // Replacing the description

  /** `onDescriptionChange`'s list. */
  function ReplaceDescription(tasks: seq<Task>, id: string, description: string): (r: seq<Task>)
    ensures |r| == |tasks|
  {
    MapMatching(tasks, id, (t: Task) => t.(description := description))
  }

  /** Only the description of the tasks with the id changes, to the new text. */
  lemma ReplaceDescriptionSpec(tasks: seq<Task>, id: string, description: string)
    ensures forall i :: 0 <= i < |tasks| ==>
              ReplaceDescription(tasks, id, description)[i].(description := tasks[i].description) == tasks[i]
    ensures forall i :: 0 <= i < |tasks| && tasks[i].id == id ==>
              ReplaceDescription(tasks, id, description)[i].description == description
    ensures TaskIds(ReplaceDescription(tasks, id, description)) == TaskIds(tasks)
    ensures !HasTask(tasks, id) ==> ReplaceDescription(tasks, id, description) == tasks
  {
    MapMatchingKeepsIds(tasks, id, (t: Task) => t.(description := description));
  }

  /** Saving the same text twice is saving it once. */
  lemma ReplaceDescriptionIdempotent(tasks: seq<Task>, id: string, description: string)
    ensures ReplaceDescription(ReplaceDescription(tasks, id, description), id, description)
            == ReplaceDescription(tasks, id, description)
  {
  }

  // ---------------------------------------------------------------------------------------
  // Removing an owner

  /** `t.owners.filter(id => id !== clickedOwnerId)`. A member record is never `===` a
      string, so only bare ids equal to the clicked one go. */
  function RemoveOwnerFrom(owners: seq<Ref>, clicked: string): (r: seq<Ref>)
    ensures forall i :: 0 <= i < |r| ==> r[i] != MemberId(clicked) && r[i] in owners
    ensures forall i :: 0 <= i < |owners| && owners[i] != MemberId(clicked) ==> owners[i] in r
  {
    Filter(owners, (o: Ref) => o != MemberId(clicked))
  }

  /** Every occurrence of the id goes, every other entry stays as often as it was there, in
      the same order. */
  lemma RemoveOwnerFromSpec(owners: seq<Ref>, more: seq<Ref>, clicked: string, x: Ref)
    ensures multiset(RemoveOwnerFrom(owners, clicked))[x] == if x == MemberId(clicked) then 0 else multiset(owners)[x]
    ensures RemoveOwnerFrom(owners + more, clicked) == RemoveOwnerFrom(owners, clicked) + RemoveOwnerFrom(more, clicked)
  {
    FilterMultiset(owners, (o: Ref) => o != MemberId(clicked), x);
    FilterConcat(owners, more, (o: Ref) => o != MemberId(clicked));
  }

  /** Removing "user1" from the owners ["user1", "user2"] leaves ["user2"]. */
  lemma RemoveOwnerScenario()
    ensures RemoveOwnerFrom([MemberId("user1"), MemberId("user2")], "user1") == [MemberId("user2")]
  {
    var p := (o: Ref) => o != MemberId("user1");
    FilterConcat([MemberId("user1")], [MemberId("user2")], p);
    assert [MemberId("user1"), MemberId("user2")] == [MemberId("user1")] + [MemberId("user2")];
  }

  /** The list of `onMembersChange`. */
  function RemoveOwner(tasks: seq<Task>, id: string, clicked: string): (r: seq<Task>)
    ensures |r| == |tasks|
  {
    MapMatching(tasks, id, (t: Task) => t.(owners := RemoveOwnerFrom(t.owners, clicked)))
  }

  /** Only the owners of the tasks with the id change: they lose every entry equal to the
      clicked id. */
  lemma RemoveOwnerSpec(tasks: seq<Task>, id: string, clicked: string)
    ensures forall i :: 0 <= i < |tasks| ==>
              RemoveOwner(tasks, id, clicked)[i].(owners := tasks[i].owners) == tasks[i]
    ensures forall i :: 0 <= i < |tasks| && tasks[i].id == id ==>
              RemoveOwner(tasks, id, clicked)[i].owners == RemoveOwnerFrom(tasks[i].owners, clicked)
    ensures TaskIds(RemoveOwner(tasks, id, clicked)) == TaskIds(tasks)
    ensures !HasTask(tasks, id) ==> RemoveOwner(tasks, id, clicked) == tasks
  {
    MapMatchingKeepsIds(tasks, id, (t: Task) => t.(owners := RemoveOwnerFrom(t.owners, clicked)));
  }

  /** The position of the last task carrying the id. */
  function LastWithId(tasks: seq<Task>, id: string): (k: Option<nat>)
    ensures k.None? <==> !HasTask(tasks, id)
    ensures k.Some? ==> k.value < |tasks| && tasks[k.value].id == id
                        && forall j :: k.value < j < |tasks| ==> tasks[j].id != id
  {
    if tasks == [] then None
    else
      var n := |tasks| - 1;
      if tasks[n].id == id then Some(n)
      else
        var prefix := tasks[..n];
        assert forall j :: 0 <= j < n ==> prefix[j] == tasks[j];
        assert HasTask(tasks, id) ==> HasTask(prefix, id) by {
          if HasTask(tasks, id) {
            var j :| 0 <= j < |tasks| && tasks[j].id == id;
            assert prefix[j].id == id;
          }
        }
        LastWithId(prefix, id)
  }

  /** The value `updatedOwners` holds after the `map`: it is assigned at every matching task,
      so the last match wins; `undefined` (`None`) when no task matches. */
  function UpdatedOwners(tasks: seq<Task>, id: string, clicked: string): (r: Option<seq<Ref>>)
    ensures r.None? <==> !HasTask(tasks, id)
    ensures r.Some? ==> exists k :: 0 <= k < |tasks| && tasks[k].id == id
                                    && r.value == RemoveOwnerFrom(tasks[k].owners, clicked)
                                    && forall j :: k < j < |tasks| ==> tasks[j].id != id
  {
    match LastWithId(tasks, id)
    case None => None
    case Some(k) => Some(RemoveOwnerFrom(tasks[k].owners, clicked))
  }

  /** With distinct ids there is one match, so `updatedOwners` is that task's pruned list. */
  lemma UpdatedOwnersUnique(tasks: seq<Task>, id: string, clicked: string, k: nat)
    requires k < |tasks| && tasks[k].id == id
    requires forall i, j :: 0 <= i < j < |tasks| ==> tasks[i].id != tasks[j].id
    ensures UpdatedOwners(tasks, id, clicked) == Some(RemoveOwnerFrom(tasks[k].owners, clicked))
  {
    var r := UpdatedOwners(tasks, id, clicked);
    var k' :| 0 <= k' < |tasks| && tasks[k'].id == id && r.value == RemoveOwnerFrom(tasks[k'].owners, clicked)
              && forall j :: k' < j < |tasks| ==> tasks[j].id != id;
    assert !(k < k') && !(k' < k);
  }

  /** The three edits of the dialog keep every id in place, so each keeps the ids
      increasing and the allocator fresh. */
  lemma AppendCommentKeepsIncreasing(tasks: seq<Task>, id: string, c: Comment)
    requires App.IncreasingIds(tasks)
    ensures App.IncreasingIds(AppendComment(tasks, id, c))
  {
    AppendCommentFrame(tasks, id, c);
    App.SameIdsKeepIncreasing(tasks, AppendComment(tasks, id, c));
  }

  lemma ReplaceDescriptionKeepsIncreasing(tasks: seq<Task>, id: string, description: string)
    requires App.IncreasingIds(tasks)
    ensures App.IncreasingIds(ReplaceDescription(tasks, id, description))
  {
    ReplaceDescriptionSpec(tasks, id, description);
    App.SameIdsKeepIncreasing(tasks, ReplaceDescription(tasks, id, description));
  }

  lemma RemoveOwnerKeepsIncreasing(tasks: seq<Task>, id: string, clicked: string)
    requires App.IncreasingIds(tasks)
    ensures App.IncreasingIds(RemoveOwner(tasks, id, clicked))
  {
    RemoveOwnerSpec(tasks, id, clicked);
    App.SameIdsKeepIncreasing(tasks, RemoveOwner(tasks, id, clicked));
  }

  /** `members.filter(m => m.id === id)[0]` for one entry of `updatedOwners`: a bare id finds
      the first member with that id or `undefined`; a member record or `null` is never
      `===` an id string and comes out `undefined`. */
  function DialogOwner(r: Ref, members: seq<Member>): (out: Ref)
    ensures r.MemberId? ==> out == App.ResolveRef(r, members)
    ensures !r.MemberId? ==> out.Missing?
  {
    match r
    case MemberId(id) =>
      (match GetMemberById(id, members)
       case Some(m) => Resolved(m)
       case None => Missing)
    case _ => Missing
  }

  /** The owners the dialog shows after a removal. */
  function DialogOwners(owners: seq<Ref>, members: seq<Member>): (r: seq<Ref>)
    ensures |r| == |owners|
    ensures forall i :: 0 <= i < |owners| ==> r[i] == DialogOwner(owners[i], members)
  {
    seq(|owners|, i requires 0 <= i < |owners| => DialogOwner(owners[i], members))
  }

  /** For owners stored as ids (as the seed and the task form store them) the dialog shows
      what the board's resolution shows, minus the removed member. */
  lemma DialogOwnersResolve(owners: seq<Ref>, members: seq<Member>, clicked: string)
    requires forall i :: 0 <= i < |owners| ==> owners[i].MemberId?
    ensures forall i :: 0 <= i < |DialogOwners(RemoveOwnerFrom(owners, clicked), members)| ==>
              DialogOwners(RemoveOwnerFrom(owners, clicked), members)[i]
              == App.ResolveRef(RemoveOwnerFrom(owners, clicked)[i], members)
  {
  }

  /** A member record among the stored owners (a task whose owners were saved resolved)
      is shown as `undefined` after any removal: the dialog's copy drops information. */
  lemma DialogOwnerLosesRecords(m: Member, members: seq<Member>)
    ensures DialogOwner(Resolved(m), members) == Missing != App.ResolveRef(Resolved(m), members)
  {
  }
}
