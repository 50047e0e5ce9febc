/** The command layer of CVFS.java as it runs: one object whose fields are the
    static fields `workingDisk`, `workingDirectory`, `criteriaMap`, `undoStack`
    and `redoStack`, plus the arena of node objects that the directories'
    `files` lists live in. Every public command is a method that updates these
    fields step by step as the Java code does, and is proved to leave exactly
    the state, and to raise exactly the exception, that the corresponding
    function of module `Cvfs` prescribes; the properties proved about those
    functions therefore hold of this object too. */
module Sessions {
  import opened Wrappers
  import opened Errors
  import Text
  import opened Nodes
  import opened Criteria
  import opened Search
  import opened Cvfs

  class Session {
    var heap: Heap
    var workingDisk: Option<Disk>
    var workingDirectory: NodeId
    var criteriaMap: map<string, Criterion>
    var undoStack: seq<Command>
    var redoStack: seq<Command>

    /** The session as a value of the state machine in module `Cvfs`. */
    function Abs(): State
      reads this
    {
      State(heap, workingDisk, workingDirectory, criteriaMap, undoStack, redoStack)
    }

    ghost predicate Valid()
      reads this
    {
      Inv(Abs())
    }

    /** The static initialiser: no disk, and the built-in `IsDocument`. */
    constructor()
      ensures Valid() && Abs() == Initial()
    {
      heap := Heap(map[], 0);
      workingDisk := None;
      workingDirectory := 0;
      criteriaMap := map[IsDocumentKey := IsDocument];
      undoStack := [];
      redoStack := [];
    }

    // -------------------------------------------------------------------------
    // Directory and disk operations on the arena

    /** `Directory.getFile`: the first child called `name`, or none. */
    method FindFile(dir: NodeId, name: string) returns (r: Option<NodeId>)
      requires Nodes.Valid(heap) && IsDir(heap, dir)
      ensures r == GetFile(heap, dir, name)
    {
      var files := heap.nodes[dir].files;
      var i := 0;
      while i < |files|
        invariant 0 <= i <= |files|
        invariant forall j :: 0 <= j < i ==> heap.nodes[files[j]].name != name
      {
        if heap.nodes[files[i]].name == name {
          return Some(files[i]);
        }
        i := i + 1;
      }
      return None;
    }

    /** `getSize`, recomputed by walking the subtree. */
    method ComputeSize(id: NodeId) returns (size: int)
      requires Nodes.Valid(heap) && id in heap.nodes
      ensures size == Size(heap, id)
      decreases heap.next - id
    {
      match heap.nodes[id]
      case Document(_, _, content) =>
        size := BaseFileSize + Text.Utf16Length(content) * 2;
      case Directory(_, _, files) =>
        size := BaseFileSize;
        for i := 0 to |files|
          invariant size == BaseFileSize + SizeOfAll(heap, id, files[..i])
        {
          SizeOfAllStep(heap, id, files, i);
          var s := ComputeSize(files[i]);
          size := size + s;
        }
        assert files[..|files|] == files;
    }

    /** `Directory.addFile`: refuses a name already taken; otherwise appends
        the file and, for a directory, sets its parent. */
    method AddFileTo(dir: NodeId, f: NodeId) returns (outcome: Outcome<Error>)
      requires Nodes.Valid(heap) && IsDir(heap, dir) && f in heap.nodes && dir < f
      modifies this
      ensures Abs() == old(Abs()).(heap := heap)
      ensures match AddFile(old(heap), dir, f)
        case Failure(e) => outcome == Fail(e) && heap == old(heap)
        case Success(h') => outcome == Pass && heap == h'
    {
      var existing := FindFile(dir, heap.nodes[f].name);
      if existing.Some? {
        return Fail(DuplicateFileName);
      }
      var d := heap.nodes[dir];
      heap := Heap(heap.nodes[dir := d.(files := d.files + [f])][f := Adopted(heap.nodes[f], dir)], heap.next);
      outcome := Pass;
    }

    /** `Directory.removeFile`: the loop that stops at the first child called
        `name`, then the removal of that child. */
    method RemoveFileFrom(dir: NodeId, name: string) returns (outcome: Outcome<Error>)
      requires Nodes.Valid(heap) && IsDir(heap, dir)
      modifies this
      ensures Abs() == old(Abs()).(heap := heap)
      ensures match RemoveFile(old(heap), dir, name)
        case Failure(e) => outcome == Fail(e) && heap == old(heap)
        case Success(h') => outcome == Pass && heap == h'
    {
      var files := heap.nodes[dir].files;
      var k := 0;
      while k < |files| && heap.nodes[files[k]].name != name
        invariant 0 <= k <= |files|
        invariant forall j :: 0 <= j < k ==> heap.nodes[files[j]].name != name
      {
        k := k + 1;
      }
      if k == |files| {
        return Fail(FileNotFound);
      }
      heap := Heap(heap.nodes[dir := heap.nodes[dir].(files := files[..k] + files[k + 1..])], heap.next);
      outcome := Pass;
    }

    /** `VirtualDisk.updateSize`. */
    method CheckCapacity() returns (outcome: Outcome<Error>)
      requires Valid() && workingDisk.Some?
      ensures outcome == UpdateSize(Abs())
    {
      var size := ComputeSize(workingDisk.value.root);
      outcome := if size > workingDisk.value.maxSize then Fail(DiskSpaceExceeded) else Pass;
    }

    /** `dir.removeFile(name); workingDisk.updateSize();` */
    method DetachNamed(dir: NodeId, name: string) returns (outcome: Outcome<Error>)
      requires Valid() && workingDisk.Some? && IsDir(heap, dir)
      modifies this
      ensures Reply(Abs(), outcome) == Detach(old(Abs()), dir, name) && Valid()
    {
      ghost var s := Abs();
      outcome := RemoveFileFrom(dir, name);
      assert Abs() == Detach(s, dir, name).state;
      if outcome.Pass? {
        outcome := CheckCapacity();
      }
    }

    /** `dir.addFile(file); workingDisk.updateSize();` */
    method AttachNode(dir: NodeId, file: NodeId) returns (outcome: Outcome<Error>)
      requires Valid() && workingDisk.Some? && IsDir(heap, dir) && file in heap.nodes && dir < file
      requires heap.nodes[file].Directory? ==> heap.nodes[file].parent == Some(dir)
      modifies this
      ensures Reply(Abs(), outcome) == Reattach(old(Abs()), dir, file) && Valid()
    {
      ghost var s := Abs();
      outcome := AddFileTo(dir, file);
      assert Abs() == Reattach(s, dir, file).state;
      if outcome.Pass? {
        outcome := CheckCapacity();
      }
    }

    /** `File.setName`: checks the name pattern, then renames in place. */
    method SetNameOf(f: NodeId, name: string) returns (outcome: Outcome<Error>)
      requires Nodes.Valid(heap) && f in heap.nodes
      modifies this
      ensures Abs() == old(Abs()).(heap := heap)
      ensures match SetName(old(heap), f, name)
        case Failure(e) => outcome == Fail(e) && heap == old(heap)
        case Success(h') => outcome == Pass && heap == h'
    {
      if !Text.IsValidName(name) {
        return Fail(InvalidFileName);
      }
      heap := Heap(heap.nodes[f := heap.nodes[f].(name := name)], heap.next);
      outcome := Pass;
    }

    // -------------------------------------------------------------------------
    // File-system commands

    /** `newDisk diskSize`. */
    method NewDisk(tokens: seq<string>) returns (outcome: Outcome<Error>)
      requires Valid()
      modifies this
      ensures Reply(Abs(), outcome) == Cvfs.NewDisk(old(Abs()), tokens) && Valid()
    {
      if |tokens| != 2 {
        return Fail(Usage);
      }
      var size := Text.ParseInt(tokens[1]);
      if size.None? {
        return Fail(NotAnInteger);
      }
      if size.value < 0 {
        return Fail(NegativeDiskSize);
      }
      ghost var s := Abs();
      heap := Heap(map[0 := Directory(RootName, None, [])], 1);
      workingDisk := Some(Disk(size.value, 0));
      workingDirectory := 0;
      criteriaMap := map[IsDocumentKey := IsDocument];
      undoStack := [];
      redoStack := [];
      outcome := Pass;
      assert Cvfs.NewDisk(s, tokens).state == Abs();
    }

    /** `new` followed by `workingDirectory.addFile`. When `addFile` refuses
        the name, the new node is referenced from nowhere and is dropped from
        the arena. */
    method AllocAndAttach(n: Node) returns (outcome: Outcome<Error>)
      requires Valid() && Creatable(Abs(), n)
      modifies this
      ensures outcome.Fail? <==> HasChildNamed(old(heap), old(workingDirectory), n.name)
      ensures outcome.Fail? ==> outcome == Fail(DuplicateFileName) && Abs() == old(Abs())
      ensures outcome.Pass? ==> Abs() == Attached(old(Abs()), n) && Valid()
    {
      ghost var s := Abs();
      var before := heap;
      heap := Alloc(heap, n);
      AllocKeepsChildren(before, n, workingDirectory);
      outcome := AddFileTo(workingDirectory, before.next);
      if outcome.Fail? {
        heap := before;
        return;
      }
      AttachedHeap(before, n, workingDirectory);
      ghost var t := Attached(s, n);
      assert Abs() == t;
      assert Inv(t);
    }

    /** The steps `newDoc` and `newDir` share once the node is built: attach
        it, `workingDisk.updateSize()`, then the push onto the undo stack. */
    method CreateNode(n: Node) returns (outcome: Outcome<Error>)
      requires Valid() && Creatable(Abs(), n)
      modifies this
      ensures Reply(Abs(), outcome) == Create(old(Abs()), n) && Valid()
    {
      ghost var s := Abs();
      var id := heap.next;
      outcome := AllocAndAttach(n);
      if outcome.Fail? {
        assert Create(s, n) == Reply(Abs(), outcome);
        return;
      }
      ghost var t := Abs();
      outcome := CheckCapacity();
      if outcome.Fail? {
        assert Create(s, n) == Reply(t, outcome);
        return;
      }
      undoStack := undoStack + [CreatedCmd(n, id, workingDirectory)];
      redoStack := [];
      assert Create(s, n) == Reply(Abs(), Pass);
    }

    /** `newDoc docName docType docContent`; the `Document` constructor
        rejects an invalid name. */
    method NewDoc(tokens: seq<string>) returns (outcome: Outcome<Error>)
      requires Valid()
      modifies this
      ensures Reply(Abs(), outcome) == Cvfs.NewDoc(old(Abs()), tokens) && Valid()
    {
      if workingDisk.None? {
        return Fail(NoDiskLoaded);
      }
      if |tokens| != 4 {
        return Fail(Usage);
      }
      if tokens[2] !in AllowedDocTypes {
        return Fail(DocTypeNotAllowed);
      }
      if !Text.IsValidName(tokens[1]) {
        return Fail(InvalidFileName);
      }
      outcome := CreateNode(Document(tokens[1], tokens[2], tokens[3]));
    }

    /** `newDir dirName`; the `Directory` constructor rejects an invalid name. */
    method NewDir(tokens: seq<string>) returns (outcome: Outcome<Error>)
      requires Valid()
      modifies this
      ensures Reply(Abs(), outcome) == Cvfs.NewDir(old(Abs()), tokens) && Valid()
    {
      if workingDisk.None? {
        return Fail(NoDiskLoaded);
      }
      if |tokens| != 2 {
        return Fail(Usage);
      }
      if !Text.IsValidName(tokens[1]) {
        return Fail(InvalidFileName);
      }
      outcome := CreateNode(Directory(tokens[1], Some(workingDirectory), []));
    }

    /** `delete fileName`. */
    method Delete(tokens: seq<string>) returns (outcome: Outcome<Error>)
      requires Valid()
      modifies this
      ensures Reply(Abs(), outcome) == Cvfs.Delete(old(Abs()), tokens) && Valid()
    {
      if workingDisk.None? {
        return Fail(NoDiskLoaded);
      }
      if |tokens| != 2 {
        return Fail(Usage);
      }
      ghost var s := Abs();
      var file := FindFile(workingDirectory, tokens[1]);
      if file.None? {
        return Fail(FileNotFound);
      }
      outcome := DetachNamed(workingDirectory, tokens[1]);
      if outcome.Fail? {
        assert Cvfs.Delete(s, tokens) == Reply(Abs(), outcome);
        return;
      }
      ghost var detached := Abs();
      undoStack := undoStack + [DeleteCmd(file.value, workingDirectory)];
      redoStack := [];
      assert Abs() == Commit(detached, DeleteCmd(file.value, s.cwd));
    }

    /** `rename oldFileName newFileName`. */
    method Rename(tokens: seq<string>) returns (outcome: Outcome<Error>)
      requires Valid()
      modifies this
      ensures Reply(Abs(), outcome) == Cvfs.Rename(old(Abs()), tokens) && Valid()
    {
      if workingDisk.None? {
        return Fail(NoDiskLoaded);
      }
      if |tokens| != 3 {
        return Fail(Usage);
      }
      ghost var s := Abs();
      var file := FindFile(workingDirectory, tokens[1]);
      if file.None? {
        return Fail(FileNotFound);
      }
      if !Text.IsValidName(tokens[2]) {
        return Fail(InvalidNewFileName);
      }
      var clash := FindFile(workingDirectory, tokens[2]);
      if clash.Some? {
        return Fail(NewNameExists);
      }
      var prevName := heap.nodes[file.value].name;
      outcome := SetNameOf(file.value, tokens[2]);
      assert Abs() == Renamed(s, file.value, tokens[2]);
      undoStack := undoStack + [RenameCmd(file.value, prevName, heap.nodes[file.value].name)];
      redoStack := [];
    }

    /** `changeDir dirName` and `changeDir ..`. */
    method ChangeDir(tokens: seq<string>) returns (outcome: Outcome<Error>)
      requires Valid()
      modifies this
      ensures Reply(Abs(), outcome) == Cvfs.ChangeDir(old(Abs()), tokens) && Valid()
    {
      if workingDisk.None? {
        return Fail(NoDiskLoaded);
      }
      if |tokens| != 2 {
        return Fail(Usage);
      }
      var prevDir := workingDirectory;
      if tokens[1] == ".." {
        var parent := heap.nodes[workingDirectory].parent;
        if parent.None? {
          return Fail(AtRoot);
        }
        workingDirectory := parent.value;
      } else {
        var file := FindFile(workingDirectory, tokens[1]);
        if file.None? || !heap.nodes[file.value].Directory? {
          return Fail(DirectoryNotFound);
        }
        workingDirectory := file.value;
      }
      undoStack := undoStack + [ChangeDirCmd(prevDir, workingDirectory)];
      redoStack := [];
      outcome := Pass;
    }

    // -------------------------------------------------------------------------
    // Criterion registry

    /** `criteriaMap.put`, then the push of a `NewCriterionCommand`. */
    method RegisterCriterion(name: string, crit: Criterion)
      requires Valid() && Text.IsCriterionName(name) && WellFormed(crit)
      modifies this
      ensures Reply(Abs(), Pass) == Register(old(Abs()), name, crit) && Valid()
    {
      criteriaMap := criteriaMap[name := crit];
      undoStack := undoStack + [NewCriterionCmd(name, criteriaMap[name])];
      redoStack := [];
    }

    /** `newSimpleCri criName attrName op val`. */
    method NewSimpleCri(tokens: seq<string>) returns (outcome: Outcome<Error>)
      requires Valid()
      modifies this
      ensures Reply(Abs(), outcome) == Cvfs.NewSimpleCri(old(Abs()), tokens) && Valid()
    {
      if |tokens| != 5 {
        return Fail(Usage);
      }
      if !Text.IsCriterionName(tokens[1]) {
        return Fail(InvalidCriterionName);
      }
      if tokens[1] in criteriaMap {
        return Fail(CriterionExists);
      }
      var made := MakeSimple(tokens[2], tokens[3], tokens[4]);
      if made.Failure? {
        return Fail(made.error);
      }
      RegisterCriterion(tokens[1], made.value);
      outcome := Pass;
    }

    /** `newNegation criName1 criName2`. */
    method NewNegation(tokens: seq<string>) returns (outcome: Outcome<Error>)
      requires Valid()
      modifies this
      ensures Reply(Abs(), outcome) == Cvfs.NewNegation(old(Abs()), tokens) && Valid()
    {
      if |tokens| != 3 {
        return Fail(Usage);
      }
      if !Text.IsCriterionName(tokens[1]) {
        return Fail(InvalidCriterionName);
      }
      if tokens[1] in criteriaMap {
        return Fail(CriterionExists);
      }
      if tokens[2] !in criteriaMap {
        return Fail(CriterionMissing);
      }
      RegisterCriterion(tokens[1], Negation(criteriaMap[tokens[2]]));
      outcome := Pass;
    }

    /** `newBinaryCri criName1 criName3 logicOp criName4`. */
    method NewBinaryCri(tokens: seq<string>) returns (outcome: Outcome<Error>)
      requires Valid()
      modifies this
      ensures Reply(Abs(), outcome) == Cvfs.NewBinaryCri(old(Abs()), tokens) && Valid()
    {
      if |tokens| != 5 {
        return Fail(Usage);
      }
      if !Text.IsCriterionName(tokens[1]) {
        return Fail(InvalidCriterionName);
      }
      if tokens[1] in criteriaMap {
        return Fail(CriterionExists);
      }
      if tokens[2] !in criteriaMap || tokens[4] !in criteriaMap {
        return Fail(CriterionMissing);
      }
      var made := MakeBinary(criteriaMap[tokens[2]], tokens[3], criteriaMap[tokens[4]]);
      if made.Failure? {
        return Fail(made.error);
      }
      RegisterCriterion(tokens[1], made.value);
      outcome := Pass;
    }

    // -------------------------------------------------------------------------
    // Undo and redo

    /** `cmd.undo()` of each command class. */
    method UndoCommand(c: Command) returns (outcome: Outcome<Error>)
      requires Valid() && CommandValid(heap, workingDisk.Some?, c)
      modifies this
      ensures Reply(Abs(), outcome) == UndoAction(old(Abs()), c) && Valid()
    {
      ghost var s := Abs();
      match c
      case NewDocCmd(doc, dir) =>
        outcome := DetachNamed(dir, heap.nodes[doc].name);
      case NewDirCmd(nd, dir) =>
        outcome := DetachNamed(dir, heap.nodes[nd].name);
      case DeleteCmd(file, dir) =>
        outcome := AttachNode(dir, file);
      case RenameCmd(file, prev, _) =>
        outcome := SetNameOf(file, prev);
        assert Abs() == Renamed(s, file, prev);
      case ChangeDirCmd(prev, _) =>
        workingDirectory := prev;
        outcome := Pass;
      case NewCriterionCmd(name, _) =>
        criteriaMap := criteriaMap - {name};
        outcome := Pass;
    }

    /** `cmd.redo()` of each command class. */
    method RedoCommand(c: Command) returns (outcome: Outcome<Error>)
      requires Valid() && CommandValid(heap, workingDisk.Some?, c)
      modifies this
      ensures Reply(Abs(), outcome) == RedoAction(old(Abs()), c) && Valid()
    {
      ghost var s := Abs();
      match c
      case NewDocCmd(doc, dir) =>
        outcome := AttachNode(dir, doc);
      case NewDirCmd(nd, dir) =>
        outcome := AttachNode(dir, nd);
      case DeleteCmd(file, dir) =>
        outcome := DetachNamed(dir, heap.nodes[file].name);
      case RenameCmd(file, _, next) =>
        outcome := SetNameOf(file, next);
        assert Abs() == Renamed(s, file, next);
      case ChangeDirCmd(_, next) =>
        workingDirectory := next;
        outcome := Pass;
      case NewCriterionCmd(name, crit) =>
        criteriaMap := criteriaMap[name := crit];
        outcome := Pass;
    }

    /** `undo`: pop, undo, and push onto the redo stack if the undo succeeded. */
    method Undo() returns (outcome: Outcome<Error>)
      requires Valid()
      modifies this
      ensures Reply(Abs(), outcome) == Cvfs.Undo(old(Abs())) && Valid()
    {
      if |undoStack| == 0 {
        return Fail(NothingToUndo);
      }
      var cmd := undoStack[|undoStack| - 1];
      undoStack := undoStack[..|undoStack| - 1];
      outcome := UndoCommand(cmd);
      if outcome.Fail? {
        return;
      }
      redoStack := redoStack + [cmd];
    }

    /** `redo`: pop, redo, and push back onto the undo stack if that succeeded. */
    method Redo() returns (outcome: Outcome<Error>)
      requires Valid()
      modifies this
      ensures Reply(Abs(), outcome) == Cvfs.Redo(old(Abs())) && Valid()
    {
      if |redoStack| == 0 {
        return Fail(NothingToRedo);
      }
      var cmd := redoStack[|redoStack| - 1];
      redoStack := redoStack[..|redoStack| - 1];
      outcome := RedoCommand(cmd);
      if outcome.Fail? {
        return;
      }
      undoStack := undoStack + [cmd];
    }

    // -------------------------------------------------------------------------
    // Listing and searching: the totals the loops accumulate

    /** `list`: the loop over the working directory's files. */
    method List() returns (r: Result<Totals, Error>)
      requires Valid()
      ensures r == Cvfs.List(Abs())
    {
      if workingDisk.None? {
        return Failure(NoDiskLoaded);
      }
      var files := heap.nodes[workingDirectory].files;
      var totalSize, count := 0, 0;
      for i := 0 to |files|
        invariant count == i && totalSize == SizeOfAll(heap, workingDirectory, files[..i])
      {
        SizeOfAllStep(heap, workingDirectory, files, i);
        var size := ComputeSize(files[i]);
        totalSize := totalSize + size;
        count := count + 1;
      }
      assert files[..|files|] == files;
      return Success(Totals(count, totalSize));
    }

    /** `rList`: the walk accumulates into a two-element array. */
    method RList() returns (r: Result<Totals, Error>)
      requires Valid()
      ensures r == Cvfs.RList(Abs())
    {
      if workingDisk.None? {
        return Failure(NoDiskLoaded);
      }
      var total := new int[2](_ => 0);
      RecursiveList(workingDirectory, total);
      return Success(Totals(total[0], total[1]));
    }

    /** `recursiveList`: every child is counted, a directory after its own
        contents. */
    method RecursiveList(dir: NodeId, total: array<int>)
      requires Nodes.Valid(heap) && IsDir(heap, dir) && total.Length == 2
      modifies total
      ensures Totals(total[0], total[1]) == Plus(Totals(old(total[0]), old(total[1])), SubtreeAll(heap, dir))
      decreases heap.next - dir, 1
    {
      var files := heap.nodes[dir].files;
      ghost var start := Totals(total[0], total[1]);
      for i := 0 to |files|
        invariant Totals(total[0], total[1]) == Plus(start, SubtreeAllOf(heap, dir, files[..i]))
      {
        SubtreeAllStep(heap, dir, files, i);
        ListOne(dir, files[i], total);
      }
      assert files[..|files|] == files;
    }

    /** One turn of the loop in `recursiveList`, for the child `file` of `dir`. */
    method ListOne(dir: NodeId, file: NodeId, total: array<int>)
      requires Nodes.Valid(heap) && dir in heap.nodes && file in heap.nodes && dir < file && total.Length == 2
      modifies total
      ensures Totals(total[0], total[1]) ==
        Plus(Plus(Totals(old(total[0]), old(total[1])), Tally(heap, file, true)),
             if IsDir(heap, file) then SubtreeAll(heap, file) else Totals(0, 0))
      decreases heap.next - dir, 0
    {
      if heap.nodes[file].Directory? {
        RecursiveList(file, total);
      }
      var size := ComputeSize(file);
      total[0] := total[0] + 1;
      total[1] := total[1] + size;
    }

    /** `search criName`: the loop over the working directory's files. */
    method Search(tokens: seq<string>) returns (r: Result<Totals, Error>)
      requires Valid()
      ensures r == SearchCwd(Abs(), tokens)
    {
      if |tokens| != 2 {
        return Failure(Usage);
      }
      if tokens[1] !in criteriaMap {
        return Failure(CriterionNotFound);
      }
      if workingDisk.None? {
        return Failure(NoWorkingDirectory);
      }
      var totals := SearchIn(workingDirectory, criteriaMap[tokens[1]]);
      return Success(totals);
    }

    /** The loop of `search`, over the files of `dir`. */
    method SearchIn(dir: NodeId, criterion: Criterion) returns (totals: Totals)
      requires Nodes.Valid(heap) && IsDir(heap, dir) && WellFormed(criterion)
      ensures totals == MatchAmong(heap, criterion, dir, heap.nodes[dir].files)
    {
      var files := heap.nodes[dir].files;
      var totalSize, count := 0, 0;
      for i := 0 to |files|
        invariant Totals(count, totalSize) == MatchAmong(heap, criterion, dir, files[..i])
      {
        MatchAmongStep(heap, criterion, dir, files, i);
        if Eval(criterion, heap, files[i]) {
          var size := ComputeSize(files[i]);
          totalSize := totalSize + size;
          count := count + 1;
        }
      }
      assert files[..|files|] == files;
      return Totals(count, totalSize);
    }

    /** `rSearch criName`: the walk accumulates into a two-element array. */
    method RSearch(tokens: seq<string>) returns (r: Result<Totals, Error>)
      requires Valid()
      ensures r == Cvfs.RSearch(Abs(), tokens)
    {
      if |tokens| != 2 {
        return Failure(Usage);
      }
      if tokens[1] !in criteriaMap {
        return Failure(CriterionNotFound);
      }
      if workingDisk.None? {
        return Failure(NoWorkingDirectory);
      }
      var total := new int[2](_ => 0);
      RecursiveSearch(workingDirectory, criteriaMap[tokens[1]], total);
      return Success(Totals(total[0], total[1]));
    }

    /** `recursiveSearch`: a matching file is counted, then every directory is
        entered whether it matched or not. */
    method RecursiveSearch(dir: NodeId, criterion: Criterion, total: array<int>)
      requires Nodes.Valid(heap) && IsDir(heap, dir) && WellFormed(criterion) && total.Length == 2
      modifies total
      ensures Totals(total[0], total[1]) == Plus(Totals(old(total[0]), old(total[1])), SubtreeMatch(heap, criterion, dir))
      decreases heap.next - dir, 1
    {
      var files := heap.nodes[dir].files;
      ghost var start := Totals(total[0], total[1]);
      for i := 0 to |files|
        invariant ChildrenAbove(heap, dir, files[..i])
        invariant Totals(total[0], total[1]) == Plus(start, SubtreeMatchAll(heap, criterion, dir, files[..i]))
      {
        ghost var before := Totals(total[0], total[1]);
        SearchOne(dir, files[i], criterion, total);
        SubtreeMatchAdvance(heap, criterion, dir, files, i, start, before, Totals(total[0], total[1]));
      }
      assert files[..|files|] == files;
    }

    /** One turn of the loop in `recursiveSearch`, for the child `file` of `dir`. */
    method SearchOne(dir: NodeId, file: NodeId, criterion: Criterion, total: array<int>)
      requires Nodes.Valid(heap) && dir in heap.nodes && file in heap.nodes && dir < file
      requires WellFormed(criterion) && total.Length == 2
      modifies total
      ensures Totals(total[0], total[1]) ==
        Plus(Plus(Totals(old(total[0]), old(total[1])), Tally(heap, file, Eval(criterion, heap, file))),
             if IsDir(heap, file) then SubtreeMatch(heap, criterion, file) else Totals(0, 0))
      decreases heap.next - dir, 0
    {
      if Eval(criterion, heap, file) {
        var size := ComputeSize(file);
        total[0] := total[0] + 1;
        total[1] := total[1] + size;
      }
      if heap.nodes[file].Directory? {
        RecursiveSearch(file, criterion, total);
      }
    }
  }
}
