# CVFS in Dafny

This project models the core of CVFS, an in-memory virtual file system written in Java (`CVFS.java`). The model covers:

- a capacity-bounded disk holding a tree of named documents and directories;
- a cursor, the working directory;
- a registry of composable search criteria;
- an undo/redo log that records every successful mutation as a command object.

It also models the quote-aware tokenizer that splits each command line into the token array the commands receive.

## Modules

| file | module | what it holds |
|---|---|---|
| `wrappers.dfy` | `Wrappers` | `Option`, `Result` and `Outcome` (pass, or the exception thrown) |
| `errors.dfy` | `Errors` | one constructor per exception message |
| `text.dfy` | `Text` | See the list below. |
| `tokenizer.dfy` | `Tokenizer` | `parseInput`, as a specification function and as the loop itself |
| `nodes.dfy` | `Nodes` | See the list below. |
| `criteria.dfy` | `Criteria` | the four criterion classes, with their validation, `evaluate` and `toString` |
| `search.dfy` | `Search` | the count and size totals of `list`, `rList`, `search` and `rSearch` |
| `cvfs.dfy` | `Cvfs` | See the list below. |
| `session.dfy` | `Sessions` | See the list below. |
| `properties.dfy` | `CvfsProperties` | See the list below. |

- **`Text`** holds:
  - the name patterns;
  - `Character.isWhitespace`;
  - `String.contains`;
  - `String.length`, which counts UTF-16 code units;
  - `Integer.parseInt`, with its 32-bit range.
- **`Nodes`** holds:
  - the file tree, modelled as an arena of nodes;
  - `getSize`;
  - `addFile`, `removeFile`, `getFile` and `setName`;
  - how sizes change when the tree changes.
- **`Cvfs`** models the static state of the Java program as a `State` value:
  - `workingDisk`, `workingDirectory`, `criteriaMap`, `undoStack` and `redoStack`;
  - every command as a function from a state and its tokens to the new state and outcome;
  - the six command classes, as `UndoAction` and `RedoAction`.
- **`Sessions`** holds the class `Session`:
  - its fields are those same static fields;
  - its methods update them in place;
  - each method is proved to leave exactly the state its `Cvfs` function prescribes.
- **`CvfsProperties`** holds:
  - the undo/redo round trips;
  - the effect of each structural command on the root's size;
  - a worked capacity scenario.

### How the tree is represented

Java objects are handles (`NodeId`) into an arena, `Heap(nodes, next)`. This keeps object identity, which the command log depends on: a `DeleteCommand` keeps a node that is no longer attached anywhere, and its `undo` re-attaches that same node.

A node only ever lives in the directory it was created in, and that directory is older. So every child has a larger handle than its directory, and the recursive `getSize` terminates on that measure.

The invariant `Cvfs.Inv` also keeps the parent links (`Nodes.Linked`): every directory listed by a directory names that directory as its `parent`. `addFile` sets the parent, and every command keeps the links.

In the `Session` class, the list of children is a `seq` inside the arena map, and each method reassigns it. The `int[] total` arrays of `rList` and `rSearch` stay arrays.

### Where the code departs from the command log's contract

The command log is meant to be an exact inverse: undoing a command right after it should restore the exact state from before the command. The model follows the code in each of these cases:

- **Undoing `delete`.** In the code, undoing `delete` calls `addFile`, which appends the file as the last child. The file's old position among its siblings is lost. `CvfsProperties.DeleteUndoRedo` proves what the code does: the undo gives the old tree with that one child moved to the end (`MovedToEnd`), and the redo gives back exactly the state after the `delete`.
- **Undoing `newDoc`/`newDir`.** The node is removed by its current name (`removeFile(doc.getName())`), not by its reference.
- **Undoing `rename`.** This calls `setName`, which does not check sibling names.
- **Sibling names.** Two children of one directory can end up with the same name. Take a rename of `a` to `b`, then a `newDoc a` that fails its capacity check: the new `a` stays attached and nothing is logged. The next `undo` reverts the rename through `setName`, which does not check sibling names, so there are now two children called `a`. Removal by the current name cannot create such a pair. So unique sibling names are not part of the model's invariant. `CvfsProperties.DeleteUndoRedo` assumes only that no other child shares the deleted file's name (`CvfsProperties.NameUnique`).
- **The capacity check.** It runs after the node is attached. A `newDoc`/`newDir` that exceeds the capacity leaves the node attached and logs nothing (`CvfsProperties.CapacityScenario`).
- **`search`/`rSearch` before any `newDisk`.** These commands do not check for a disk. Before the first `newDisk` the walk dereferences a `null` working directory. This is modelled as the error `NoWorkingDirectory`.

### Stack discipline

Every command function in `Cvfs` ensures `Logged`:

- A success pushes exactly one command and empties the redo stack. So a `redo` right after it fails with `NothingToRedo`, by the contract of `Cvfs.Redo`.
- A failure leaves both stacks as they were.

## Model

| member | source | states |
|---|---|---|
| Text.IsValidName | CVFS.java:1374-1376 | a valid name holds no whitespace and no quote character, so the tokenizer never splits it |
| Text.Contains | CVFS.java:1011-1012 | the empty string is contained in every name, and a contained string is never longer than the name |
| Text.Utf16Length | CVFS.java:888 | the length `content.length()` reports lies between the number of characters and twice that number |
| Text.Utf16LengthBmp | CVFS.java:888 | that length equals the number of characters exactly when every character lies in the Basic Multilingual Plane |
| Text.ContainsIffOccurs | CVFS.java:1011-1012 | `name contains v` holds exactly when `v` occurs at some position of the name: a contiguous, case-sensitive substring test |
| Text.ParseInt | CVFS.java:997-1001 | accepts exactly the non-empty decimal strings with an optional `+` or `-` sign whose value lies within the 32-bit `int` range, and returns that value; leading zeros are allowed |
| Text.ParseIntLenient | CVFS.java:997-1001 | `"007"` and `"+7"` are read as 7, and `"-0"` as 0 |
| Text.ParseIntToString | CVFS.java:87 | every 32-bit integer written in decimal is read back as itself |
| Tokenizer.ParseInput | CVFS.java:47-67 | the loop returns exactly the tokens the character-by-character specification yields, and no token is empty or holds a `"` |
| Tokenizer.Step | CVFS.java:53-64 | one character flips the quote mode exactly when it is `"`. Whitespace outside quotes empties the current token. The token list only ever gains the pending token, and stays free of empty tokens and quotes. |
| Tokenizer.Tokens | CVFS.java:47-67 | no token of any input is empty or contains a quote character |
| Tokenizer.ValidNameIsOneToken | CVFS.java:47-67 | a valid file name typed as an argument reaches the command unchanged, as one token |
| Tokenizer.JoinThenTokens | CVFS.java:56-60 | words without whitespace or quotes, joined by single spaces, are split back into exactly those words |
| Tokenizer.QuotedPhraseIsOneToken | CVFS.java:53-55 | a quoted phrase becomes one token, whitespace included, without its quotes |
| Criteria.Validate | CVFS.java:985-1006 | passes exactly for `name contains`, `type equals`, or `size` with one of the six comparisons and an integer value; an unknown attribute and a non-integer size value fail with their own errors |
| Criteria.MakeSimple | CVFS.java:974-979 | a simple criterion is built exactly when it validates, and the result is well formed |
| Criteria.MakeBinary | CVFS.java:1114-1119 | a binary criterion is built exactly when the operator is the literal `&&` or `\|\|`; otherwise it fails with "Invalid logical operator." |
| Criteria.Eval | CVFS.java:1009-1131 | `IsDocument` matches exactly the documents. A `type` criterion never matches a directory. A `name contains ""` criterion matches every file, and a matched substring is never longer than the name. A `size` bound below 40 is met by every file or by none, according to the operator. |
| Criteria.Describe | CVFS.java:1042-1135 | the rendering is never empty; it starts with `(` exactly for a binary criterion, with `!` exactly for a negation, and then ends with `)` |
| Criteria.EvalSeesOnlyAttributes | CVFS.java:1009-1039 | every criterion judges a file only by its name, kind, type and size: two files that agree on these are matched alike |
| Criteria.NonEmptyDocuments | CVFS.java:1018-1023 | `IsDocument && size > 40` matches exactly the documents with non-empty content |
| Criteria.DescribeBalanced | CVFS.java:1134-1135 | when no simple part contains a parenthesis, `toString` has as many `(` as `)` |
| Nodes.Size | CVFS.java:832-838 | every file's size is at least the base size 40 |
| Nodes.SizeOfAll | CVFS.java:834-836 | the summed size of a run of children is at least 40 per child |
| Nodes.FirstNamed | CVFS.java:799-806 | the index found holds a child with that name and no earlier child has it; no index means no child has it |
| Nodes.GetFile | CVFS.java:819-821 | returns a child exactly when some child has the name, and then the first child with that name |
| Nodes.AddFile | CVFS.java:787-792 | fails with a duplicate-name error exactly when a child has the same name; otherwise appends the file as the last child, resets a directory's parent, and changes no other node |
| Nodes.RemoveFile | CVFS.java:799-812 | fails with "File not found." exactly when no child has the name; otherwise drops only the first child with that name |
| Nodes.SetName | CVFS.java:736-739 | fails exactly when the new name breaks the name pattern; otherwise only that node's name changes |
| Nodes.AllocKeepsLinked | CVFS.java:126-127 | building a node keeps every parent link |
| Nodes.AddFileKeepsLinked | CVFS.java:787-792 | `addFile` keeps every parent link when the added directory was created in that directory |
| Nodes.RemoveFileKeepsLinked | CVFS.java:799-812 | `removeFile` keeps every parent link |
| Nodes.SetNameKeepsLinked | CVFS.java:736-739 | `setName` keeps every parent link |
| Nodes.SizeFrame | CVFS.java:832-838 | a size depends only on the shapes of the node and of the nodes below it |
| Nodes.AllocFrame | CVFS.java:126-127 | building a node changes no existing size |
| Nodes.SizeOfAllAppend | CVFS.java:834-836 | the summed size of two runs of children is the sum of their sums |
| Nodes.SizeChangeAt | CVFS.java:832-838 | when one directory's size changes by `delta`, every node's size changes by `delta` once per path down to that directory |
| Nodes.AddFileSize | CVFS.java:787-790 | `addFile` grows the directory by exactly the size of the added file |
| Nodes.AddFileSizes | CVFS.java:927-928 | `addFile` grows every node, the root included, by the file's size once per path down to the directory |
| Nodes.DropChildSize | CVFS.java:807-808 | removing one entry from the middle of a directory shrinks it by that entry's size |
| Nodes.RemoveFileSize | CVFS.java:799-812 | `removeFile` shrinks the directory by exactly the size of the removed file |
| Nodes.RemoveFileSizes | CVFS.java:799-812 | `removeFile` shrinks every node by the removed file's size once per path down to the directory |
| Nodes.SetNameKeepsSizes | CVFS.java:736-739 | renaming changes no size |
| Search.MatchAmong | CVFS.java:515-535 | `search` counts at most all the children, and their sizes at most the children's total size |
| Search.SubtreeAll | CVFS.java:332-345 | `rList` counts at least every child of the directory. Its size total is at least what `list` reports, and at least 40 per file counted. |
| Search.SubtreeAllOf | CVFS.java:332-345 | the same bounds for the walk over a run of children |
| Search.SubtreeMatch | CVFS.java:575-591 | `rSearch` counts no more files, and no more size, than `rList` over the same directory |
| Search.SubtreeMatchAll | CVFS.java:575-591 | the same bounds for the walk over a run of children |
| Search.SearchSplits | CVFS.java:522-532 | `search c` and `search !c` together count every child of the directory once, and their sizes add up to the `list` total |
| Search.RecursiveSearchSplits | CVFS.java:575-591 | `rSearch c` and `rSearch !c` together add up to exactly what `rList` reports |
| Cvfs.Initial | CVFS.java:404-406 | before any disk, the registry holds only `IsDocument` and both stacks are empty |
| Cvfs.UpdateSize | CVFS.java:927-930 | passes exactly when the root's size is within the capacity; otherwise fails with "Disk space exceeded." |
| Cvfs.Reattach | CVFS.java:1192-1195 | re-attaching fails with the state unchanged when the name is taken; otherwise the node is attached and the capacity is checked |
| Cvfs.Detach | CVFS.java:1186-1189 | detaching fails with the state unchanged when no child has the name; otherwise `removeFile` runs and the capacity is checked |
| Cvfs.Renamed | CVFS.java:736-739 | renaming to a valid name changes that node's name and nothing else |
| Cvfs.NewDisk | CVFS.java:85-99 | passes exactly for a non-negative integer size. The new root is the working directory, named `root`, empty, of size 40, and is the disk's root. The registry holds only `IsDocument` and both stacks are empty. Each failure leaves the state unchanged with its own error. |
| Cvfs.Attached | CVFS.java:126-127 | the built node gets the next handle and becomes the last child of the working directory; the invariant is kept |
| Cvfs.Create | CVFS.java:126-130 | a duplicate name fails with the state unchanged. Otherwise the node is attached and the command passes exactly when the root fits. On a pass one command is logged; on a failure the node stays attached and nothing is logged. |
| Cvfs.NewDoc | CVFS.java:119-132 | the checks run in the source's order: no disk, then usage, then document type, then name; each fails with the state unchanged, and otherwise the document is created; the stacks follow the log discipline |
| Cvfs.NewDir | CVFS.java:149-159 | no disk, then usage, then name; each fails with the state unchanged. Otherwise a directory whose parent is the working directory is created. |
| Cvfs.Delete | CVFS.java:177-188 | a missing file fails with the state unchanged. Otherwise the first child with that name is detached and the command passes exactly when the root fits. On a pass the detached file and the directory are logged. |
| Cvfs.DeletedKeepsParent | CVFS.java:787-792 | a directory listed by the working directory names it as its parent, so the logged `DeleteCommand` can re-attach it there |
| Cvfs.Rename | CVFS.java:209-223 | passes exactly when the old name is present, the new name is valid and no child (the file itself included) has it; each failure has its own error and leaves the state unchanged; on a pass only that file's name changes |
| Cvfs.ChangeDir | CVFS.java:243-268 | `..` moves to the parent and fails at the root. A name moves to the first child with that name only when that child is a directory. Every failure leaves the state unchanged. |
| Cvfs.Register | CVFS.java:397-399 | the registry gains exactly that one entry and one command is logged |
| Cvfs.NewSimpleCri | CVFS.java:388-401 | passes exactly for five tokens, a fresh two-letter name and a criterion that validates; each failure has its own error and leaves the state unchanged |
| Cvfs.NewNegation | CVFS.java:428-441 | passes exactly for three tokens, a fresh two-letter name and an existing criterion to negate; each failure has its own error and leaves the state unchanged |
| Cvfs.NewBinaryCri | CVFS.java:466-482 | passes exactly for five tokens, a fresh two-letter name, two existing criteria and `&&` or `\|\|` |
| Cvfs.UndoAction | CVFS.java:1171-1365 | a command's undo keeps the invariant and every node's kind, never touches the disk or the stacks, and leaves the command replayable |
| Cvfs.RedoAction | CVFS.java:1171-1365 | a command's redo keeps the invariant and every node's kind, never touches the disk or the stacks, and leaves the command replayable |
| Cvfs.Undo | CVFS.java:664-670 | an empty undo stack fails with "Nothing to undo.". Otherwise the top command is popped and undone. It is pushed onto the redo stack only if the undo succeeds; otherwise it is lost. |
| Cvfs.Redo | CVFS.java:683-689 | an empty redo stack fails with "Nothing to redo.". Otherwise the top command is popped and replayed. It is pushed onto the undo stack only if the replay succeeds. |
| Cvfs.List | CVFS.java:282-298 | counts every child of the working directory; their total size is the directory's size minus its own 40 |
| Cvfs.RList | CVFS.java:312-317 | reports the totals of the whole subtree below the working directory; fails without a disk |
| Cvfs.SearchCwd | CVFS.java:515-535 | passes exactly for two tokens naming a registered criterion on a loaded disk; counts the matching children within the bounds of `list` |
| Cvfs.RSearch | CVFS.java:553-560 | passes exactly for two tokens naming a registered criterion on a loaded disk; reports the matches in the whole subtree |
| CvfsProperties.UndoTop | CVFS.java:664-668 | `undo` right after a command was logged undoes exactly that command |
| CvfsProperties.RedoTop | CVFS.java:683-687 | `redo` with one command on the redo stack replays exactly that command |
| CvfsProperties.RenameUndoRedo | CVFS.java:1294-1301 | undo right after a `rename` gives back the state before it; redo then gives back the state after it |
| CvfsProperties.ChangeDirUndoRedo | CVFS.java:1326-1333 | undo right after a `changeDir` gives back the previous working directory; redo then gives back the state after it |
| CvfsProperties.RegisterUndoRedo | CVFS.java:1357-1364 | undo right after a registration gives back the registry before it; redo then gives back the state after it |
| CvfsProperties.NewSimpleCriUndoRedo | CVFS.java:398-399 | the same round trip for `newSimpleCri` |
| CvfsProperties.NewNegationUndoRedo | CVFS.java:438-439 | the same round trip for `newNegation` |
| CvfsProperties.NewBinaryCriUndoRedo | CVFS.java:479-480 | the same round trip for `newBinaryCri` |
| CvfsProperties.FirstNamedAtEnd | CVFS.java:819-820 | the first child with a name that no earlier child has is the last one |
| CvfsProperties.RemoveLast | CVFS.java:799-808 | removing a uniquely named last child just drops the end of the list |
| CvfsProperties.DetachAttached | CVFS.java:1186-1187 | detaching the node just attached gives back the arena as it was right after the node was built |
| CvfsProperties.AttachedDetaches | CVFS.java:1186-1187 | after a creation, removing the new node by its name gives back the arena from before the attach |
| CvfsProperties.UndoCreated | CVFS.java:1186-1189 | undoing a creation passes and detaches the node; the root fits again |
| CvfsProperties.RedoCreated | CVFS.java:1192-1195 | redoing a creation re-attaches the same node and gives back the state after the creation |
| CvfsProperties.GrownKeepsInv | CVFS.java:1186-1189 | after undoing a creation, the state with the node allocated but attached nowhere keeps the invariant |
| CvfsProperties.CreatePassFits | CVFS.java:126-130 | a `newDoc`/`newDir` only passes its capacity check on a disk that was within capacity before it |
| CvfsProperties.CreateUndoRedo | CVFS.java:1186-1195 | undo right after `newDoc`/`newDir` gives back the state before it, with the built node still allocated but unreachable; redo then gives back the state after it |
| CvfsProperties.NewDocUndoRedo | CVFS.java:1186-1195 | the creation round trip for `newDoc` |
| CvfsProperties.NewDirUndoRedo | CVFS.java:1222-1231 | the creation round trip for `newDir` |
| CvfsProperties.CreateGrowsRoot | CVFS.java:127-128 | attaching a new node grows the root by the node's size, once per path down to the working directory; a new node's size is 40 plus twice the UTF-16 length of its content |
| CvfsProperties.DetachedNameGone | CVFS.java:799-812 | when no other child shares the name, no child keeps the removed name |
| CvfsProperties.ReattachDetached | CVFS.java:1257-1260 | re-attaching a removed file puts it back as the last child of its directory |
| CvfsProperties.MovedKeepsDirSize | CVFS.java:1257-1260 | moving a child to the end keeps the directory's size |
| CvfsProperties.MovedToEndValid | CVFS.java:1257-1260 | moving a child to the end keeps the tree well formed |
| CvfsProperties.DetachFromMoved | CVFS.java:1263-1266 | once the file has moved to the end, removing it by name drops the last entry |
| CvfsProperties.DetachMoved | CVFS.java:1263-1266 | removing the moved file again gives the same tree as the original removal |
| CvfsProperties.MovedKeepsSizes | CVFS.java:1257-1260 | moving a child to the end changes no node's size |
| CvfsProperties.ReattachPasses | CVFS.java:1258-1259 | when `addFile` succeeds and the root fits, re-attaching passes with that tree |
| CvfsProperties.DetachPasses | CVFS.java:1264-1265 | when `removeFile` succeeds and the root fits, detaching passes with that tree |
| CvfsProperties.UndoDeletePasses | CVFS.java:1257-1260 | undoing a delete command passes with the tree `addFile` gives, when the root fits |
| CvfsProperties.RedoDeletePasses | CVFS.java:1263-1266 | redoing a delete command passes with the tree `removeFile` gives, when the root fits |
| CvfsProperties.UndoDeleted | CVFS.java:1257-1260 | undoing a deletion passes and re-attaches the file as the last child |
| CvfsProperties.RedoDeleted | CVFS.java:1263-1266 | redoing a deletion after its undo detaches the file again |
| CvfsProperties.DeleteUndoRedo | CVFS.java:1242-1267 | undo right after `delete` gives back the old tree with the file moved to the end; redo then gives back exactly the state after the `delete` |
| CvfsProperties.DeleteWithinCapacity | CVFS.java:183-184 | on a disk within capacity, deleting an existing file always passes; the root shrinks by the file's size once per path |
| CvfsProperties.CreateAtRoot | CVFS.java:126-130 | in the root directory, creating a node grows the root by exactly the node's size, and the command passes exactly when that fits |
| CvfsProperties.NewDocAtRoot | CVFS.java:119-132 | in the root, `newDoc` with a fresh valid name appends the document with the next handle and leaves every other node as it was. The root grows by 40 plus twice the UTF-16 length of the content, and the command passes exactly when that fits. A failure logs nothing. |
| CvfsProperties.NewDirAtRoot | CVFS.java:149-159 | in the root, `newDir` with a fresh valid name appends an empty directory, grows the root by 40, and passes exactly when that fits |
| CvfsProperties.CapacityScenario | CVFS.java:927-929 | on a 200-byte disk, the root grows from 40 to 90 after a 5-character document and to 130 after a directory. A document of 100 UTF-16 code units then fails with "Disk space exceeded.", stays attached (root 370) and is not logged. |
| CvfsProperties.ScenarioFirstDoc | CVFS.java:119-132 | the first step of the scenario: the 5-character document fits |
| CvfsProperties.ScenarioDir | CVFS.java:149-159 | the second step: the directory fits |
| CvfsProperties.ScenarioSecondDoc | CVFS.java:127-128 | the last step: the large document is attached, then rejected |
| Sessions.Session.constructor | CVFS.java:24-28 | the static fields start in the state before any disk, and the invariant holds |
| Sessions.Session.FindFile | CVFS.java:819-821 | the loop finds the first child with the name, or none |
| Sessions.Session.ComputeSize | CVFS.java:832-838 | the loop over the children computes the recursive size, two bytes per UTF-16 code unit of a document's content |
| Sessions.Session.AddFileTo | CVFS.java:787-792 | the in-place `addFile` leaves the tree `AddFile` prescribes, or fails with nothing changed |
| Sessions.Session.RemoveFileFrom | CVFS.java:799-812 | the loop that stops at the first match leaves the tree `RemoveFile` prescribes |
| Sessions.Session.CheckCapacity | CVFS.java:927-930 | `updateSize` passes exactly when the root fits |
| Sessions.Session.DetachNamed | CVFS.java:1187-1188 | detaching in place leaves the state `Detach` prescribes |
| Sessions.Session.AttachNode | CVFS.java:1193-1194 | attaching in place leaves the state `Reattach` prescribes |
| Sessions.Session.SetNameOf | CVFS.java:736-739 | `setName` in place leaves the tree `SetName` prescribes |
| Sessions.Session.NewDisk | CVFS.java:85-99 | leaves the fields in the state `Cvfs.NewDisk` prescribes |
| Sessions.Session.AllocAndAttach | CVFS.java:126-127 | a duplicate name fails with nothing changed; otherwise the fields hold the attached state |
| Sessions.Session.CreateNode | CVFS.java:126-130 | leaves the state `Cvfs.Create` prescribes |
| Sessions.Session.NewDoc | CVFS.java:119-132 | leaves the state and outcome `Cvfs.NewDoc` prescribes, keeping the invariant |
| Sessions.Session.NewDir | CVFS.java:149-159 | leaves the state and outcome `Cvfs.NewDir` prescribes, keeping the invariant |
| Sessions.Session.Delete | CVFS.java:177-188 | leaves the state and outcome `Cvfs.Delete` prescribes, keeping the invariant |
| Sessions.Session.Rename | CVFS.java:209-223 | leaves the state and outcome `Cvfs.Rename` prescribes, keeping the invariant |
| Sessions.Session.ChangeDir | CVFS.java:243-268 | leaves the state and outcome `Cvfs.ChangeDir` prescribes, keeping the invariant |
| Sessions.Session.RegisterCriterion | CVFS.java:397-399 | adds the entry and logs it as `Cvfs.Register` prescribes |
| Sessions.Session.NewSimpleCri | CVFS.java:388-401 | leaves the state and outcome `Cvfs.NewSimpleCri` prescribes |
| Sessions.Session.NewNegation | CVFS.java:428-441 | leaves the state and outcome `Cvfs.NewNegation` prescribes |
| Sessions.Session.NewBinaryCri | CVFS.java:466-482 | leaves the state and outcome `Cvfs.NewBinaryCri` prescribes |
| Sessions.Session.UndoCommand | CVFS.java:1171-1365 | each command's `undo()` in place leaves the state `UndoAction` prescribes |
| Sessions.Session.RedoCommand | CVFS.java:1171-1365 | each command's `redo()` in place leaves the state `RedoAction` prescribes |
| Sessions.Session.Undo | CVFS.java:664-670 | leaves the state and outcome `Cvfs.Undo` prescribes |
| Sessions.Session.Redo | CVFS.java:683-689 | leaves the state and outcome `Cvfs.Redo` prescribes |
| Sessions.Session.List | CVFS.java:282-298 | the loop's count and total size are those of `Cvfs.List` |
| Sessions.Session.RList | CVFS.java:312-317 | the totals in the two-element array are those of `Cvfs.RList` |
| Sessions.Session.RecursiveList | CVFS.java:332-345 | the walk adds the subtree's totals to the array |
| Sessions.Session.ListOne | CVFS.java:334-343 | one child adds itself, and first the subtree below it when it is a directory |
| Sessions.Session.Search | CVFS.java:515-535 | the outcome and totals are those of `Cvfs.SearchCwd` |
| Sessions.Session.SearchIn | CVFS.java:519-533 | the loop counts the matching children and their sizes |
| Sessions.Session.RSearch | CVFS.java:553-560 | the outcome and totals are those of `Cvfs.RSearch` |
| Sessions.Session.RecursiveSearch | CVFS.java:575-591 | the walk adds the subtree's matches to the array |
| Sessions.Session.SearchOne | CVFS.java:576-589 | one child adds itself when it matches, and then the matches below it when it is a directory |

## Left out

- Application.java, the interactive command loop, is not part of this model. Each command is modelled from its token array onwards.
- Printed output is not modelled. This covers the lines printed by `list`, `rList`, `search` and `rSearch`, their `level` indentation parameter, `generateIndent`, `printAllCriteria` and the success messages. Only the final totals are modelled, and an error is modelled by its message's constructor.
- `save` and `load` are not modelled: they are Java serialization and file I/O.
- Java `int` overflow is not modelled. Sizes and totals are unbounded integers, so a file system whose sizes pass 2^31 - 1 behaves differently in Java.
- `Text.ParseInt` accepts ASCII digits only. `Integer.parseInt` also accepts digits of other scripts.
- The Java objects a failed `newDoc`/`newDir` builds but cannot attach because the name is taken are not modelled; they are unreachable garbage.
- The nodes of a previous disk are not kept: `newDisk` starts a fresh arena.
- `Cvfs.UndoAction`, `Cvfs.RedoAction`: their own contracts state only what every command's undo or redo keeps. The exact result of each command's round trip is proved per command in `CvfsProperties`.
- CvfsProperties.DeleteUndoRedo: proved only when no other child of the working directory shares the deleted file's name. The invariant cannot hold this, because undoing a rename after a capacity-failed creation can give two children one name.
- CvfsProperties.CreateGrowsRoot: states the growth per path from the root to the working directory. That there is exactly one such path, which holds in a tree, is proved only for the root itself (`CvfsProperties.CreateAtRoot`).
- CvfsProperties.DeleteWithinCapacity: states the shrinkage per path from the root, for the same reason.
- Undoing `delete` does not restore the file's position among its siblings. This is modelled as the code does it, so the command log's exact-inverse contract is not proved for `delete`.
- Short-circuit evaluation of `&&`/`||` has no observable effect, because `evaluate` has no side effects.
