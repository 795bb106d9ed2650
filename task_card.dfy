/** The logic of the `Task` card: deleting a task, the "+N" owner overflow, `classNames`,
    the description preview and the avatar row. The card receives the resolved task. */
module TaskCard {
  import opened Wrappers
  import opened Seqs
  import opened Decimal
  import opened Model
  import App

  // ---------------------------------------------------------------------------------------
  // Deleting a task

  /** `deleteTask(id)`: `localTasks.filter(task => task.id !== id)`. */
  function DeleteTask(tasks: seq<Task>, id: string): (r: seq<Task>)
    ensures forall i :: 0 <= i < |r| ==> r[i].id != id && r[i] in tasks
    ensures forall i :: 0 <= i < |tasks| && tasks[i].id != id ==> tasks[i] in r
  {
    Filter(tasks, (t: Task) => t.id != id)
  }

  /** The tasks carrying an id. */
  function WithId(tasks: seq<Task>, id: string): seq<Task>
  {
    Filter(tasks, (t: Task) => t.id == id)
  }

  /** The result is shorter by exactly the number of tasks carrying the id. */
  lemma DeleteTaskLength(tasks: seq<Task>, id: string)
    ensures |DeleteTask(tasks, id)| == |tasks| - |WithId(tasks, id)|
  {
    FilterComplementLength(tasks, (t: Task) => t.id == id, (t: Task) => t.id != id);
  }

  /** Deleting an id no task carries changes nothing. */
  lemma DeleteTaskAbsent(tasks: seq<Task>, id: string)
    requires !HasTask(tasks, id)
    ensures DeleteTask(tasks, id) == tasks
  {
    FilterAll(tasks, (t: Task) => t.id != id);
  }

  /** The survivors keep their order: deleting from a concatenation deletes from each part. */
  lemma DeleteTaskOrder(a: seq<Task>, b: seq<Task>, id: string)
    ensures DeleteTask(a + b, id) == DeleteTask(a, id) + DeleteTask(b, id)
  {
    FilterConcat(a, b, (t: Task) => t.id != id);
  }

  /** Every task without the id survives as often as it occurred (duplicates included), and
      no task with the id survives. */
  lemma DeleteTaskCounts(tasks: seq<Task>, id: string, x: Task)
    ensures multiset(DeleteTask(tasks, id))[x] == if x.id != id then multiset(tasks)[x] else 0
  {
    FilterMultiset(tasks, (t: Task) => t.id != id, x);
  }

  /** Deleting keeps the remaining ids increasing, so the allocator stays fresh. */
  lemma DeleteTaskKeepsIncreasing(tasks: seq<Task>, id: string)
    requires App.IncreasingIds(tasks)
    ensures App.IncreasingIds(DeleteTask(tasks, id))
  {
    App.FilterKeepsIncreasing(tasks, (t: Task) => t.id != id);
  }

  // ---------------------------------------------------------------------------------------
  // The owner overflow ("+N") of the card

  /** `owner.name` of one owner entry: a member's name; a bare id string has no `name`, so
      `undefined` is pushed and renders as ""; `null` throws (`None`). */
  function OwnerName(r: Ref): (name: Option<string>)
    ensures name.None? <==> r.Missing?
    ensures r.Resolved? ==> name == Some(r.member.name)
    ensures r.MemberId? ==> name == Some("")
  {
    match r
    case Resolved(m) => Some(m.name)
    case MemberId(_) => Some("")
    case Missing => None
  }

  /** The names the loop pushes for `owners`, or `None` when one of the entries throws. */
  function OwnerNames(owners: seq<Ref>): (r: Option<seq<string>>)
    ensures r.None? <==> exists i :: 0 <= i < |owners| && owners[i].Missing?
    ensures r.Some? ==> |r.value| == |owners|
                        && forall i :: 0 <= i < |owners| ==> Some(r.value[i]) == OwnerName(owners[i])
  {
    if owners == [] then Some([])
    else
      var n := |owners| - 1;
      match OwnerNames(owners[..n])
      case None =>
        assert exists i :: 0 <= i < n && owners[..n][i].Missing?;
        None
      case Some(names) =>
        match OwnerName(owners[n])
        case None => None
        case Some(last) =>
          assert forall i :: 0 <= i < n ==> owners[..n][i] == owners[i];
          Some(names + [last])
  }

  /** The outcome of the card's `additionalMembers()` */
  datatype Overflow =
    | NoOverflow            // at most three owners: `undefined`
    | Names(list: string)   // the overflow owners' names
    | Throws                // an overflow owner is `null`

  /** `additionalMembers` of a card: the names of the owners from the fourth on, or nothing
      for at most three owners. The loop reads `owners[i].name` and throws on a `null`. */
  method AdditionalOwners(owners: seq<Ref>) returns (out: Overflow)
    ensures |owners| <= 3 <==> out.NoOverflow?
    ensures out.Throws? <==> exists i :: 3 <= i < |owners| && owners[i].Missing?
    ensures out.Names? ==> OwnerNames(owners[3..]).Some? && out.list == CommaList(OwnerNames(owners[3..]).value)
  {
    out := NoOverflow;
    if |owners| > 3 {
      var membersArray: seq<string> := [];
      var i := 3;
      while i < |owners|
        invariant 3 <= i <= |owners|
        invariant OwnerNames(owners[3..i]) == Some(membersArray)
      {
        assert owners[3..i + 1][..i - 3] == owners[3..i];
        match OwnerName(owners[i]) {
          case None =>
            assert owners[3..i + 1][i - 3] == owners[i];
            assert OwnerNames(owners[3..i + 1]).None?;
            return Throws;
          case Some(name) =>
            membersArray := membersArray + [name];
        }
        i := i + 1;
      }
      assert owners[3..i] == owners[3..];
      out := Names(CommaList(membersArray));
    }
  }

  /** Owners whose names hold no comma are listed joined by ", ", in order. */
  lemma AdditionalOwnersJoined(owners: seq<Ref>, names: seq<string>)
    requires |owners| > 3 && OwnerNames(owners[3..]) == Some(names)
    requires forall i :: 0 <= i < |names| ==> ',' !in names[i]
    ensures CommaList(names) == Join(names, ", ")
    ensures |names| == |owners| - 3
  {
    CommaListJoins(names);
  }

  /** The badge: "+" and the number of owners beyond three, or "" for at most three. */
  function Badge(ownerCount: nat): (r: string)
    ensures ownerCount <= 3 <==> r == ""
  {
    if ownerCount > 3 then "+" + NatToString(ownerCount - 3) else ""
  }

  /** The badge text reads back as the number of hidden owners. */
  lemma BadgeReadsBack(ownerCount: nat)
    requires ownerCount > 3
    ensures Badge(ownerCount)[0] == '+'
    ensures ParseInt(Badge(ownerCount)[1..]) == Some(ownerCount - 3)
  {
    var digits := NatToString(ownerCount - 3);
    assert Badge(ownerCount)[1..] == digits;
    ParseIntOfIntToString(ownerCount - 3);
  }

  /** Different badges stand for different owner counts. */
  lemma BadgeInjective(m: nat, n: nat)
    requires m > 3 && n > 3 && Badge(m) == Badge(n)
    ensures m == n
  {
    assert Badge(m)[1..] == NatToString(m - 3);
    assert Badge(n)[1..] == NatToString(n - 3);
    NatToStringInjective(m - 3, n - 3);
  }

  /** `owners.slice(0, 3)`: the owners shown as avatars. */
  function Avatars(owners: seq<Ref>): (r: seq<Ref>)
    ensures |r| == if |owners| < 3 then |owners| else 3
    ensures r <= owners
  {
    if |owners| < 3 then owners else owners[..3]
  }

  /** The avatars and the overflow together account for every owner, in order. */
  lemma AvatarsAndOverflow(owners: seq<Ref>)
    requires |owners| > 3
    ensures Avatars(owners) + owners[3..] == owners
    ensures |owners[3..]| > 0 && Badge(|owners|) == "+" + NatToString(|owners[3..]|)
  {
  }

  // ---------------------------------------------------------------------------------------
  // Presentation helpers

  /** `classNames(...classes)`: the non-empty class names joined by single spaces. */
  function ClassNames(classes: seq<string>): (r: string)
    ensures r == "" <==> forall i :: 0 <= i < |classes| ==> classes[i] == ""
  {
    var kept := Filter(classes, (c: string) => c != "");
    FilterEmpty(classes, (c: string) => c != "");
    if kept == [] then "" else
      JoinStartsWithFirst(kept, " ");
      Join(kept, " ")
  }

  /** One more class name: an empty one adds nothing; any other (spaces allowed, as in the
      card's "block px-4 py-2 text-sm") follows the earlier ones after one space. */
  lemma ClassNamesSnoc(classes: seq<string>, x: string)
    ensures ClassNames(classes + [x]) ==
            if x == "" then ClassNames(classes)
            else if ClassNames(classes) == "" then x
            else ClassNames(classes) + " " + x
  {
    var p := (c: string) => c != "";
    FilterConcat(classes, [x], p);
    assert Filter([x], p) == if x == "" then [] else [x];
    var kept := Filter(classes, p);
    FilterEmpty(classes, p);
    FilterEmpty(classes + [x], p);
    if x != "" {
      JoinSnoc(kept, x, " ");
    } else {
      assert Filter(classes + [x], p) == kept;
    }
  }

  /** When no class name holds a space, splitting the result at spaces gives back the
      non-empty class names, in their original order. */
  lemma ClassNamesSplit(classes: seq<string>)
    requires exists i :: 0 <= i < |classes| && classes[i] != ""
    requires forall i :: 0 <= i < |classes| ==> ' ' !in classes[i]
    ensures Split(ClassNames(classes), ' ') == Filter(classes, (c: string) => c != "")
  {
    var kept := Filter(classes, (c: string) => c != "");
    FilterEmpty(classes, (c: string) => c != "");
    SplitJoin(kept, ' ');
  }

  /** Empty entries (from a false condition) are dropped wherever they occur. */
  lemma ClassNamesDropsEmpty(a: seq<string>, b: seq<string>)
    ensures ClassNames(a + [""] + b) == ClassNames(a + b)
  {
    var p := (c: string) => c != "";
    FilterConcat(a + [""], b, p);
    FilterConcat(a, [""], p);
    FilterConcat(a, b, p);
    assert Filter([""], p) == [];
    assert Filter(a + [""], p) == Filter(a, p);
  }

  /** `description.substr(0, 50) + "..."`: the card preview. */
  function Preview(description: string): (r: string)
    ensures |r| == (if |description| < 50 then |description| else 50) + 3
    ensures r[..|r| - 3] <= description
    ensures r[|r| - 3..] == "..."
  {
    (if |description| < 50 then description else description[..50]) + "..."
  }

  /** A short description is shown whole. */
  lemma PreviewShort(description: string)
    requires |description| <= 50
    ensures Preview(description) == description + "..."
  {
  }
}
