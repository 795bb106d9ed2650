# Task board state layer, in Dafny

This project models the state layer of a small Kanban board written in React
(task-manager-crema). It covers the logic under the markup:

- the two persisted lists, tasks and members, and their `localStorage` hook;
- the effect that resolves member references and groups the tasks by column (topic);
- the handlers that change the lists: drop a card on a column, delete a card, post a
  comment, change a description, remove an owner, create a task, create a member;
- the id allocators, the lookup and colour tables, and the small display helpers of the
  card and the header.

All of these are modelled with the same branches and edge cases as the JavaScript,
including duplicate ids, `null` for unknown members, the fixed comment author `"user8"`,
the `undefined` `updatedOwners` and the way `toString().replaceAll` treats commas. The
exceptions are listed under "## Left out".

Modules follow the source files:

| module | file | form |
|---|---|---|
| `Model` | records of `src/mockData.js` | datatypes: `Member`, `Task`, `Comment`, `Topic` and `Ref` |
| `Seed` | `src/mockData.js` | the seed data, transcribed |
| `Utils` | `src/components/utils/index.js` | functions |
| `App` | `src/App.js` | functions, plus three loop methods (grouping, edit lookup, header overflow) |
| `TaskCard` | `src/components/task/Task.js` | functions, plus a loop method (owner overflow) |
| `EditTask` | `src/components/task/EditTask.js` | functions |
| `NewTaskWindow` | `src/components/newTaskWindow/newTaskWindow.js` | functions |
| `NewMemberWindow` | `src/components/newMemberWindow/newMemberWindow.js` | functions |
| `LocalStorage` | `src/useLocalStorage.js` | a function, plus classes `Storage` and `PersistentState` |
| `Board` | the state of `src/App.js` and of the dialogs | classes `Board`, `EditDialog`, `NewTaskDialog`, `NewMemberDialog` |
| `Seqs`, `Decimal` | JavaScript built-ins | see below |
| `Wrappers` | none | the `Option` type standing for `null`/`undefined` |

The built-in modules hold the JavaScript built-ins the code relies on:

- `Seqs` has `filter`, `join`, `replaceAll` of one character, an array's `toString`, and `[...new Set(xs)]`.
  It also has `split` on one character. No source file calls `split`; it exists only to state
  the round trip `TaskCard.ClassNamesSplit`.
- `Decimal` has `Number.prototype.toString` and `parseInt` on whole numbers.

A member reference is `Ref`, which is one of three things:

- `MemberId(id)`: a bare id string, the persisted form;
- `Resolved(member)`: a member record;
- `Missing`: JavaScript's `null` or `undefined`.

`typeof owner === "string"` is `MemberId?`.

A handler's setter and the reactions to it are one `Board` method:

- the hook's write-back effect;
- the effect that re-derives the grouped view.

`Board.Valid()` states what holds between events:

- each list is stored under its key;
- `tasksByTopic` is the grouping of the resolved list.

Behaviour of the code a reader may not expect, which the model keeps:

- Deleting a task removes every task with that id, not just one: `deleteTask` is a `filter`
  (`src/components/task/Task.js:67-70`).
- A last task id that is not a number gives the new id `"NaN"` rather than an error:
  `parseInt` then `toString` (`src/App.js:139-140`).
- Without a browser window, `getStorageValue` returns `undefined`, although its comment
  promises the stored value or the default (`src/useLocalStorage.js:7`, `:9-15`).

## Model

| member | source | states |
|---|---|---|
| Utils.GetMemberById | src/components/utils/index.js:41-43 | Returns null exactly when no member has the id. A hit has the id and is the first member with it in list order. |
| Utils.GetMemberByIdUnique | src/components/utils/index.js:42 | With distinct member ids, the lookup returns exactly the member holding the id. |
| Utils.GetMemberByIdFinds | src/components/utils/index.js:42 | The id of any listed member is always found. |
| Utils.TaskPriority | src/components/utils/index.js:6-16 | Gives a colour exactly for "Low", "Normal" and "High": slate for Low, purple for Normal, red for High; gives nothing otherwise. |
| Utils.TaskPriorityInjective | src/components/utils/index.js:6-16 | Distinct priorities get distinct flag colours. |
| Utils.TopicColor | src/components/utils/index.js:23-33 | Gives a colour exactly for the topic ids "1" to "4": white for "1", purple-200 for "2", orange-200 for "3", green-200 for "4"; gives nothing for any other id. |
| Utils.TopicColorInjective | src/components/utils/index.js:23-33 | Distinct columns get distinct header colours. |
| App.ResolveRef | src/App.js:166-177 | A string reference becomes the looked-up member, or null when the id is unknown. Records and null are kept. No string is left. |
| App.ResolveTask | src/App.js:165-189 | Every owner and every comment owner is resolved. The lengths and every other field, including the other comment fields, are unchanged. |
| App.ResolveTasks | src/App.js:165-189 | Same length; each task is resolved in place, in the same order. |
| App.ResolveTaskIsResolved | src/App.js:167-177 | A resolved task has no string reference left. |
| App.ResolveResolvedTask | src/App.js:167-177 | A task without string references is left unchanged, against any member list. |
| App.ResolveTasksIdempotent | src/App.js:164-192 | Resolving twice equals resolving once, even against a different member list the second time. |
| App.GroupTasksByTopic | src/App.js:109-117 | The reduce loop builds exactly the map from each carried topic to the list filtered by that topic (invariant over the prefix read so far). |
| App.TopicBuckets | src/App.js:109-117 | Reference definition of the grouped view: one key per topic that some task carries, holding that topic's tasks in list order. Its laws are stated by `App.TopicBucketsSnoc` and `App.GroupingPartitions`. |
| App.TopicBucketsSnoc | src/App.js:110-114 | One reduce step: the task goes at the end of its topic's bucket, or opens a new bucket; the other buckets are unchanged. |
| App.GroupingPartitions | src/App.js:109-117 | Each task is in its own topic's bucket as often as it occurs in the list, and in no other bucket. No bucket is empty. |
| App.BucketCount | src/App.js:302 | The header count `?.length ?? 0` is 0 exactly when the view has no bucket for the topic or the bucket is empty. |
| App.BucketCountIsTopicSize | src/App.js:302 | A column's count is the number of tasks with that topic. It is 0 exactly when no task has the topic, which is exactly when the view has no key for it. |
| App.ColumnsHaveColors | src/App.js:287-298 | The board draws one column per seed topic: four columns with distinct ids, each with a header colour. |
| App.GroupingScenario | src/App.js:109-117 | For tasks in topics 1, 1, 2 the buckets are {"1": [a, b], "2": [c]}. |
| App.Drop | src/App.js:204-209 | The list keeps its length. |
| App.DropOnlyMoves | src/App.js:204-209 | Only `topic` changes, and only on tasks with the dragged id. The ids keep their order. With no match the list is unchanged. |
| App.DropIdempotent | src/App.js:204-209 | Dropping twice on the same column equals dropping once. |
| App.DropLandsInColumn | src/App.js:204-211 | After the drop, the moved task is in the target column's bucket and in no other bucket. |
| App.DropKeepsIncreasing | src/App.js:204-209 | A drop keeps the ids increasing, so the task-id allocator stays fresh. |
| App.LastBucketMatch | src/App.js:219-230 | Reference definition of what the loops leave in `foundTask`: the first match in the last bucket, in key order, that has one. A result carries the id. |
| App.LastBucketMatchSpec | src/App.js:219-230 | The search misses exactly when no bucket holds the id. A hit has the id and comes from some bucket. |
| App.FindTaskForEdit | src/App.js:218-232 | The nested loops with `break` yield the first match of the last bucket, in key order, that has one. The result is null exactly when no bucketed task has the id; otherwise it has the id. |
| App.NewTaskId | src/App.js:139-140 | Fails (throws) exactly on an empty task list. |
| App.NewTaskIdAfter | src/App.js:139-140 | When the last id renders the number n, the new id renders n + 1. |
| App.NewTaskIdNaN | src/App.js:139-140 | When the last id does not start with a number, `parseInt` gives NaN and the new id is the string "NaN". |
| App.NewTaskIdFresh | src/App.js:139-140 | Under increasing numeric ids, the new id is the next numeral and no task has it. Appending a task with it keeps the ids increasing. |
| App.NewTaskIdIsNumeral | src/App.js:140 | Under increasing numeric ids the new id is a numeral, never "NaN". |
| App.AppendKeepsIncreasing | src/App.js:139-140 | Appending an id above every existing id keeps the ids increasing. |
| App.SameIdsKeepIncreasing | src/App.js:136-140 | An edit that keeps every id in place keeps the ids increasing. |
| App.FilterKeepsIncreasing | src/App.js:136-140 | Keeping some tasks, in order, keeps the ids increasing. |
| App.SingleDigitIdsIncreasing | src/App.js:139-140 | The ids "1" up to "9" placed in order are increasing numerals. |
| App.SeedTaskIds | src/App.js:139-140 | The seed ids increase from "1" to "7", and the next id is "8". |
| App.NewMemberId | src/App.js:146-150 | The id is "user" followed by a numeral that reads back as the member count plus one. |
| App.NewMemberIdFresh | src/App.js:146-150 | When member i has the id "user"+(i+1), the new id is unused, and appending a member with it keeps that invariant. |
| App.SeedMemberIds | src/App.js:146-150 | The seed members satisfy the positional invariant, and the next id is "user9". |
| App.NewMemberIdCanCollide | src/App.js:146-150 | Without the invariant the count-based id can equal an existing id. |
| App.AdditionalMembers | src/App.js:123-133 | Gives nothing for at most three members. Otherwise gives the comma list of the names from the fourth member on. |
| Seqs.CommaListJoins | src/App.js:130 | For names without commas, the list is the names joined by ", ". |
| Seqs.CommaListWidensInnerCommas | src/App.js:130 | A comma inside a name is widened too: a name "first, last" (no other commas) comes out as "first,  last", so the list is not always the names joined by ", ". |
| App.TaskTypes | src/App.js:24 | Reference definition of the types the form offers before deduplication: one per task, in order. Its laws are stated by `App.UniqueTypes` and `App.UniqueTypesOrder`. |
| App.UniqueTypes | src/App.js:24 | The offered types are distinct. Every task's type is offered and nothing else is. |
| App.UniqueTypesOrder | src/App.js:24 | The offered types come in order of their first occurrence among the tasks. |
| Seqs.Dedup | src/App.js:24 | The result is distinct, contains only elements of the input, and contains every one of them. |
| Seqs.DedupOrder | src/App.js:24 | The distinct elements come in order of first occurrence, as a `Set` iterates. |
| App.UniqueSeedTypes | src/App.js:24 | The seed gives the types Design, Research, Design system, Presentation. |
| App.MemberNameValid | src/App.js:74-79 | A name passes exactly when it has 2 to 15 characters; "required" adds nothing to the minimum. |
| App.MemberEmailValid | src/App.js:80-83 | An email passes exactly when it is non-empty. The format check is not modelled. |
| TaskCard.DeleteTask | src/components/task/Task.js:67-70 | No survivor has the id. Every task without the id survives, and nothing else appears. |
| TaskCard.DeleteTaskLength | src/components/task/Task.js:68 | The length drops by exactly the number of tasks with the id. |
| TaskCard.DeleteTaskAbsent | src/components/task/Task.js:68 | Deleting an absent id changes nothing. |
| TaskCard.DeleteTaskOrder | src/components/task/Task.js:68 | The survivors keep their order: deleting from a + b equals deleting from a, then from b, concatenated. |
| TaskCard.DeleteTaskCounts | src/components/task/Task.js:68 | Each task without the id survives as often as it occurred. Tasks with the id do not survive. |
| TaskCard.DeleteTaskKeepsIncreasing | src/components/task/Task.js:67-70 | Deleting keeps the remaining ids increasing, so the task-id allocator stays fresh. |
| TaskCard.OwnerName | src/components/task/Task.js:56 | `owner.name` throws exactly on null. A member gives its name; a bare string gives undefined, which renders as "". |
| TaskCard.OwnerNames | src/components/task/Task.js:55-57 | Gives the names in order, or fails exactly when some entry is null. |
| TaskCard.AdditionalOwners | src/components/task/Task.js:51-61 | Gives nothing for at most three owners. Throws exactly when an owner from the fourth on is null. Otherwise gives the comma list of their names. |
| TaskCard.AdditionalOwnersJoined | src/components/task/Task.js:58 | It lists n - 3 names. When no name has a comma, they are joined by ", ". |
| TaskCard.Badge | src/components/task/Task.js:209 | The badge is empty exactly for at most three owners. |
| TaskCard.BadgeReadsBack | src/components/task/Task.js:209 | A badge is "+" followed by a numeral that parses back to n - 3. |
| TaskCard.BadgeInjective | src/components/task/Task.js:209 | Different owner counts above three give different badges. |
| TaskCard.Avatars | src/components/task/Task.js:179 | The avatars are the first min(3, n) owners. |
| TaskCard.AvatarsAndOverflow | src/components/task/Task.js:179-209 | The avatars followed by the overflow owners are all the owners; the badge counts the overflow. |
| TaskCard.ClassNames | src/components/task/Task.js:12-14 | The result is "" exactly when every name is empty. |
| TaskCard.ClassNamesSnoc | src/components/task/Task.js:12-14 | One more name: an empty one adds nothing; any other, spaces included, follows the earlier names after one space, or stands alone when they give "". |
| TaskCard.ClassNamesSplit | src/components/task/Task.js:12-14 | For names without spaces, splitting the result at spaces gives back the non-empty names, in order. |
| TaskCard.ClassNamesDropsEmpty | src/components/task/Task.js:13 | An empty (falsy) entry anywhere is dropped. |
| TaskCard.Preview | src/components/task/Task.js:170 | The preview is a prefix of the description of length min(50, n), followed by "...". |
| TaskCard.PreviewShort | src/components/task/Task.js:170 | A description of at most 50 characters is shown whole. |
| EditTask.CommentAuthor | src/components/task/EditTask.js:20 | The author is the "user8" member, or null exactly when no member has that id. It is never a bare string. |
| EditTask.NewComment | src/components/task/EditTask.js:18-22 | The message is the input text and the date is the posting time. The author is the resolution of "user8", whoever posts. |
| EditTask.AppendComment | src/components/task/EditTask.js:24-32 | The list keeps its length. |
| EditTask.AppendCommentSpec | src/components/task/EditTask.js:24-32 | A matching task gains exactly one comment, the new one, placed last. Its old comments are unchanged and in order, and its other fields are unchanged. Other tasks are identical. |
| EditTask.AppendCommentFrame | src/components/task/EditTask.js:24-32 | The ids keep their order. With no matching task the list is unchanged. |
| EditTask.ReplaceDescription | src/components/task/EditTask.js:44-52 | The list keeps its length. |
| EditTask.ReplaceDescriptionSpec | src/components/task/EditTask.js:43-53 | Only the description of matching tasks changes, to the new text. The ids keep their order. With no match the list is unchanged. |
| EditTask.ReplaceDescriptionIdempotent | src/components/task/EditTask.js:44-52 | Saving the same text twice equals saving it once. |
| EditTask.RemoveOwnerFrom | src/components/task/EditTask.js:62 | No entry equals the clicked id string. Every other entry stays, and nothing new appears. |
| EditTask.RemoveOwnerFromSpec | src/components/task/EditTask.js:62 | Every occurrence of the id goes. The other entries keep their counts and their order. |
| EditTask.RemoveOwnerScenario | src/components/task/EditTask.js:62 | ["user1", "user2"] without "user1" is ["user2"]. |
| EditTask.RemoveOwner | src/components/task/EditTask.js:60-69 | The list keeps its length. |
| EditTask.RemoveOwnerSpec | src/components/task/EditTask.js:60-69 | Only the owners of matching tasks change, and they lose the clicked id. The ids keep their order. With no match the list is unchanged. |
| EditTask.AppendCommentKeepsIncreasing | src/components/task/EditTask.js:24-32 | Posting a comment keeps the ids increasing. |
| EditTask.ReplaceDescriptionKeepsIncreasing | src/components/task/EditTask.js:44-52 | Changing a description keeps the ids increasing. |
| EditTask.RemoveOwnerKeepsIncreasing | src/components/task/EditTask.js:60-69 | Removing an owner keeps the ids increasing. |
| EditTask.LastWithId | src/components/task/EditTask.js:58-69 | The last position carrying the id, or none exactly when no task has it. |
| EditTask.UpdatedOwners | src/components/task/EditTask.js:58-69 | `updatedOwners` is undefined exactly when no task matches. Otherwise it is the pruned owners of the last matching task. |
| EditTask.UpdatedOwnersUnique | src/components/task/EditTask.js:60-69 | With distinct ids, it is the pruned owners of the one matching task. |
| EditTask.DialogOwner | src/components/task/EditTask.js:75 | A bare id is looked up as the resolver does. A record or null gives undefined. |
| EditTask.DialogOwners | src/components/task/EditTask.js:73-76 | Same length; each entry is looked up. |
| EditTask.DialogOwnersResolve | src/components/task/EditTask.js:75 | For owners stored as ids, the dialog shows what the resolver shows, without the removed member. |
| EditTask.DialogOwnerLosesRecords | src/components/task/EditTask.js:75 | A stored member record becomes undefined in the dialog, unlike under resolution. |
| NewTaskWindow.TitleValid | src/components/newTaskWindow/newTaskWindow.js:8-14 | A title passes exactly when it has 2 to 15 characters; "required" adds nothing to the minimum. |
| NewTaskWindow.SelectTopics | src/components/newTaskWindow/newTaskWindow.js:16-19 | One option per topic, in order. Each option's value is the topic's id and its label is the topic's name. |
| NewTaskWindow.SelectTopicsRoundTrip | src/components/newTaskWindow/newTaskWindow.js:17-19 | The options give back the topics exactly. The inverse, `NewTaskWindow.OptionTopics`, models nothing in the source; it exists only to state this round trip. |
| NewTaskWindow.SeedTopicOptions | src/components/newTaskWindow/newTaskWindow.js:16-19 | The form offers "To Do", "In Work", "Review" and "Done" under the ids "1" to "4". |
| NewTaskWindow.DefaultNewTask | src/components/newTaskWindow/newTaskWindow.js:50-59 | The id is the given one. There are no owners and no comments. The priority is "Low" and the text fields are empty. |
| NewTaskWindow.DefaultNewTaskRejected | src/components/newTaskWindow/newTaskWindow.js:50-60 | The untouched form fails the title rule. |
| NewMemberWindow.DefaultNewMember | src/components/newMemberWindow/newMemberWindow.js:32-38 | The id is the given one. The name and email are empty and the picture is the fixed URL. |
| NewMemberWindow.DefaultNewMemberRejected | src/components/newMemberWindow/newMemberWindow.js:32-38 | The untouched form fails both the name rule and the email rule. |
| LocalStorage.GetStorageValue | src/useLocalStorage.js:9-15 | Without a window there is no value. An absent key gives the default unmodified. A present key gives the stored value. |
| LocalStorage.ReadAfterWrite | src/useLocalStorage.js:33-35 | A read after a write returns the written value. |
| LocalStorage.WriteKeepsOtherKeys | src/useLocalStorage.js:34 | A write leaves every other key as it was. |
| LocalStorage.Storage.GetItem | src/useLocalStorage.js:11 | Gives null exactly for an absent key; otherwise gives the stored value. |
| LocalStorage.Storage.SetItem | src/useLocalStorage.js:34 | Overwrites exactly one slot. |
| LocalStorage.PersistentState.constructor | src/useLocalStorage.js:28-35 | Hydrates from storage or the default, then writes the value back under its key. |
| LocalStorage.PersistentState.Set | src/useLocalStorage.js:33-35 | The new value replaces the old one, in memory and under the key. No other key changes. |
| Board.Board.constructor | src/App.js:97-101 | Each list comes from storage or, when absent, from the default it is given. Both are written back under their keys, no other key changes, and the view is derived. |
| Board.Mount | src/App.js:97-101 | Mounting `App`: the defaults are the seed tasks and members. Both lists are written back under their keys and no other key changes. |
| Board.Board.SetTasks | src/App.js:164-192 | The task list is replaced and written back, and the view is re-derived. The members and the selection are unchanged. Only the task slot is written; the member storage is untouched. |
| Board.Board.SetMembers | src/App.js:164-192 | The member list is replaced and written back, and the view is re-derived. The tasks and the selection are unchanged. Only the member slot is written; the task storage is untouched. |
| Board.Board.Drop | src/App.js:200-212 | The stored tasks become `App.Drop` of the old ones. The members and the selection are unchanged. Increasing ids stay increasing. Only the task slot of the task storage is written, and the member storage is untouched. |
| Board.Board.DeleteTask | src/components/task/Task.js:67-70 | The stored tasks become `TaskCard.DeleteTask` of the old ones. The members and the selection are unchanged. Increasing ids stay increasing. Only the task slot of the task storage is written, and the member storage is untouched. |
| Board.Board.ClickEditTask | src/App.js:218-233 | The selection is null exactly when no bucketed task has the id; otherwise it has the id. The lists are unchanged. |
| Board.Board.CloseEditTask | src/App.js:238-240 | The selection is cleared. |
| Board.EditDialog.constructor | src/App.js:244-246 | The dialog opens only on the board's selected task. Its copy is that task, and the comment input is empty. |
| Board.EditDialog.TypeComment | src/components/task/EditTask.js:79-81 | The input holds the typed text. |
| Board.EditDialog.SubmitComment | src/components/task/EditTask.js:15-41 | An empty input posts nothing. Otherwise the comment goes at the end of the stored tasks with the id and of the dialog's copy, and the input is cleared. The selection and the members are unchanged, and increasing ids stay increasing. Only the task slot of the task storage is written, and the member storage is untouched. An empty input leaves the storage as it was. |
| Board.EditDialog.ChangeDescription | src/components/task/EditTask.js:43-55 | The stored tasks get the new description. The dialog's copy does not. The selection and the members are unchanged, and increasing ids stay increasing. Only the task slot of the task storage is written, and the member storage is untouched. |
| Board.EditDialog.RemoveOwner | src/components/task/EditTask.js:57-77 | The pruned list is stored in every case. The dialog's owners become the last match's owners looked up among the members. With no match the handler throws after storing. The selection and the members are unchanged, and increasing ids stay increasing. Only the task slot of the task storage is written, and the member storage is untouched. |
| Board.NewTaskDialog.constructor | src/components/newTaskWindow/newTaskWindow.js:50-59 | The form starts from the default record with `newTaskId`. The app renders only while the list is non-empty. |
| Board.NewTaskDialog.Submit | src/components/newTaskWindow/newTaskWindow.js:61-65 | A valid title appends the task last, and the earlier tasks are unchanged. An invalid title changes nothing. The selection and the members are unchanged. When the form's id is still `newTaskId` of the list, increasing ids stay increasing. Only the task slot of the task storage is written, and the member storage is untouched. An invalid title leaves the storage as it was. |
| Board.OwnerRefs | src/components/newTaskWindow/newTaskWindow.js:102-108 | Reference definition of the stored owners: each checked box contributes its member id, as a bare string. Its law is stated by `Board.NewTaskDialog.Submit`, whose appended task carries these owners. |
| Board.NewMemberDialog.constructor | src/components/newMemberWindow/newMemberWindow.js:32-38 | The form starts from the default record with the id `newMemberId()` computed when it opens. |
| Board.NewMemberDialog.Submit | src/components/newMemberWindow/newMemberWindow.js:39-44 | A valid name and email append the member last, so the count grows by one. Otherwise nothing changes. The tasks and the selection are unchanged. Only the member slot of the member storage is written, and the task storage is untouched. A rejected form leaves the storage as it was. |

## Left out

- JSX markup, Tailwind classes and the MUI components are left out because they are presentation, and so are the header, the navbar and the members editor. The header's "+N" badge is the same rule as `TaskCard.Badge`.
- Formik and Yup are left out except for the length and required rules.
- App.MemberEmailValid: it does not model Yup's email-format check, because that regular expression lives in the library. The rule is therefore weaker than the form's: it only requires a non-empty string.
- DOM drag-and-drop (`dataTransfer`, `preventDefault`) is left out. The dragged id and the target column are parameters of `Board.Board.Drop`.
- `window.confirm` before a delete is left out: a delete is modelled as confirmed.
- `new Date().toLocaleString()` is left out: the comment's date is a parameter of `SubmitComment`.
- The description editor is left out: its three-second "saved" notice uses a timer and the DOM.
- Real `localStorage` is left out. Each value type gets its own `Storage` object, keyed by string.
- `JSON.stringify` and `JSON.parse` are modelled as an exact round trip, so a slot holds the value itself. Malformed stored JSON, which would throw, is left out.
- React's scheduling is left out. Each setter and the effects it triggers run as one method:
  - the write-back `useEffect`;
  - the effect that re-resolves and re-groups the view.
- Mounting without a browser window is left out. `GetStorageValue` models the result without a window (`undefined`), but `Board.Mount` only mounts with one, because `localStorage` itself does not exist without a window.
- The key order of `for...in` over the grouped view is a parameter of `FindTaskForEdit` and `ClickEditTask`. JavaScript enumerates integer-like keys in ascending order, then the other keys in insertion order; that rule is not modelled.
- Topics named after a property every plain object inherits are left out: `__proto__`, `constructor`, `toString`, `toLocaleString`, `valueOf`, `hasOwnProperty`, `isPrototypeOf`, `propertyIsEnumerable`, `__defineGetter__`, `__defineSetter__`, `__lookupGetter__` and `__lookupSetter__`. At `src/App.js:111` the reduce's accumulator then reads the inherited value, which is truthy, and `[...prev[next.topic], next]` at `src/App.js:112` throws because it is not iterable. The model's accumulator is a map, so it opens a new bucket instead.
- `parseInt` is modelled as an optional sign followed by the longest run of decimal digits. Leading whitespace, `0x` prefixes and the precision and exponent formatting of large `Number` values are left out; whole numbers are unbounded.
- String lengths (title, name, preview) are counted in Dafny characters, not UTF-16 code units.
- The empty task list is an error case. `newTaskId` throws on it (`src/App.js:139`), and because it runs on every render of `App`, the whole board then fails to render. `App.NewTaskId` returns `None` there. `Board.NewTaskDialog.constructor` requires a non-empty list, since the form cannot be opened otherwise.
- Board.Board.DeleteTask: deleting the last remaining task differs from the code. In the code the re-render throws at `src/App.js:139` before React commits it, so the write-back effect (`src/useLocalStorage.js:33-35`) never stores `[]`, and the task is back after a reload. The model stores `[]` and keeps the board valid.
- Rendering crashes are left out. An avatar or the members editor reading a field of a `null` owner would crash; only the crash inside the overflow loop (`TaskCard.AdditionalOwners`) is modelled.
- Member deletion is left out because nothing in the code removes a member.
- `console.log` calls are left out.
