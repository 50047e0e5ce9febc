/** The command layer of CVFS.java as a state machine over values: the static
    fields `workingDisk`, `workingDirectory`, `criteriaMap`, `undoStack` and
    `redoStack` become the fields of `State`, each public command becomes a
    function from a state and the command's token array to a `Reply` (the new
    state and whether the command threw), and the six `Command` classes become
    the datatype `Command` with its `UndoAction` and `RedoAction`.

    When no disk is loaded `cwd` holds no meaning (the Java field is `null`).
    `newDisk` starts a fresh arena whose first handle, 0, is the new root: the
    nodes of the previous disk are unreachable from then on, since the cursor
    moves to the new root and both stacks are cleared. */
module Cvfs {
  import opened Wrappers
  import opened Errors
  import Text
  import opened Nodes
  import opened Criteria
  import opened Search

  const IsDocumentKey: string := "IsDocument"
  const RootName: string := "root"

  /** `VirtualDisk`: the capacity and the root directory. */
  datatype Disk = Disk(maxSize: int, root: NodeId)

  /** The six command classes, each with the references it captures. */
  datatype Command =
    | NewDocCmd(doc: NodeId, dir: NodeId)
    | NewDirCmd(newDir: NodeId, dir: NodeId)
    | DeleteCmd(file: NodeId, dir: NodeId)
    | RenameCmd(file: NodeId, prevName: string, newName: string)
    | ChangeDirCmd(prevDir: NodeId, nextDir: NodeId)
    | NewCriterionCmd(criName: string, criterion: Criterion)

  /** The tops of both stacks are their last elements. */
  datatype State = State(
    heap: Heap,
    disk: Option<Disk>,
    cwd: NodeId,
    criteria: map<string, Criterion>,
    undoStack: seq<Command>,
    redoStack: seq<Command>)

  /** The state after a command, and `Pass` or the exception it threw. */
  datatype Reply = Reply(state: State, outcome: Outcome<Error>)

  // ---------------------------------------------------------------------------
  // Invariant

  /** Every node's name matches the file-name pattern and every document has
      an allowed type. */
  ghost predicate NamesValid(h: Heap)
  {
    forall k :: k in h.nodes ==>
      Text.IsValidName(h.nodes[k].name) && (h.nodes[k].Document? ==> h.nodes[k].docType in AllowedDocTypes)
  }

  /** A logged command can be replayed in either direction: its directories
      are directories, the node it moves was created inside that directory
      (and, if a directory, still names it as its parent), and its names are
      valid. `loaded` says whether a disk is loaded. */
  ghost predicate CommandValid(h: Heap, loaded: bool, c: Command)
  {
    match c
    case NewDocCmd(doc, dir) => loaded && IsDir(h, dir) && doc in h.nodes && h.nodes[doc].Document? && dir < doc
    case NewDirCmd(nd, dir) => loaded && IsDir(h, dir) && IsDir(h, nd) && h.nodes[nd].parent == Some(dir) && dir < nd
    case DeleteCmd(file, dir) =>
      && loaded && IsDir(h, dir) && file in h.nodes && dir < file
      && (h.nodes[file].Directory? ==> h.nodes[file].parent == Some(dir))
    case RenameCmd(file, prev, next) => loaded && file in h.nodes && Text.IsValidName(prev) && Text.IsValidName(next)
    case ChangeDirCmd(prev, next) => loaded && IsDir(h, prev) && IsDir(h, next)
    case NewCriterionCmd(name, crit) => Text.IsCriterionName(name) && WellFormed(crit)
  }

  ghost predicate StackValid(h: Heap, loaded: bool, stack: seq<Command>)
  {
    forall i :: 0 <= i < |stack| ==> CommandValid(h, loaded, stack[i])
  }

  ghost predicate CriteriaValid(criteria: map<string, Criterion>)
  {
    forall k :: k in criteria ==> (k == IsDocumentKey || Text.IsCriterionName(k)) && WellFormed(criteria[k])
  }

  ghost predicate Inv(s: State)
  {
    && Valid(s.heap)
    && NamesValid(s.heap)
    && Linked(s.heap)
    && (s.disk.Some? ==>
          && s.disk.value.root == 0
          && IsDir(s.heap, 0) && s.heap.nodes[0].parent.None?
          && IsDir(s.heap, s.cwd))
    && CriteriaValid(s.criteria)
    && StackValid(s.heap, s.disk.Some?, s.undoStack)
    && StackValid(s.heap, s.disk.Some?, s.redoStack)
  }

  /** No node disappears, none changes between document and directory, and
      no directory changes its parent. */
  ghost predicate KindsKept(h: Heap, h': Heap)
  {
    forall k :: k in h.nodes ==>
      && k in h'.nodes && h'.nodes[k].Directory? == h.nodes[k].Directory?
      && (h.nodes[k].Directory? ==> h'.nodes[k].parent == h.nodes[k].parent)
  }

  lemma StackKept(h: Heap, h': Heap, loaded: bool, stack: seq<Command>)
    requires StackValid(h, loaded, stack) && KindsKept(h, h')
    ensures StackValid(h', loaded, stack)
  {
    forall i | 0 <= i < |stack|
      ensures CommandValid(h', loaded, stack[i])
    {
      assert CommandValid(h, loaded, stack[i]);
    }
  }

  /** A new arena that keeps every node's kind and parent, valid names and
      the parent links keeps the invariant. */
  lemma HeapChangeKeepsInv(s: State, h': Heap)
    requires Inv(s) && Valid(h') && NamesValid(h') && Linked(h') && KindsKept(s.heap, h')
    ensures Inv(s.(heap := h'))
  {
    StackKept(s.heap, h', s.disk.Some?, s.undoStack);
    StackKept(s.heap, h', s.disk.Some?, s.redoStack);
  }

  /** The state before any `newDisk`: the static initialiser's `IsDocument`
      entry and nothing else. */
  function Initial(): (s: State)
    ensures Inv(s) && s.disk.None?
    ensures s.criteria.Keys == {IsDocumentKey} && s.undoStack == [] && s.redoStack == []
  {
    State(Heap(map[], 0), None, 0, map[IsDocumentKey := IsDocument], [], [])
  }

  // ---------------------------------------------------------------------------
  // Shared steps

  function RootSize(s: State): int
    requires Inv(s) && s.disk.Some?
  {
    Size(s.heap, s.disk.value.root)
  }

  /** `VirtualDisk.updateSize`: throws when the root has grown past the capacity. */
  function UpdateSize(s: State): (r: Outcome<Error>)
    requires Inv(s) && s.disk.Some?
    ensures r.Pass? <==> RootSize(s) <= s.disk.value.maxSize
    ensures r.Fail? ==> r.error == DiskSpaceExceeded
  {
    if RootSize(s) > s.disk.value.maxSize then Fail(DiskSpaceExceeded) else Pass
  }

  /** `undoStack.push(cmd); redoStack.clear();` */
  function Commit(s: State, c: Command): State
  {
    s.(undoStack := s.undoStack + [c], redoStack := [])
  }

  /** The stack discipline of every user command: a success pushes exactly one
      command and empties the redo stack, so a `redo` right after it fails; a
      failure leaves both stacks as they were. */
  predicate Logged(s: State, r: Reply)
  {
    && (r.outcome.Pass? ==>
          && |r.state.undoStack| == |s.undoStack| + 1
          && r.state.undoStack[..|s.undoStack|] == s.undoStack
          && r.state.redoStack == [])
    && (r.outcome.Fail? ==> r.state.undoStack == s.undoStack && r.state.redoStack == s.redoStack)
  }

  /** `dir.addFile(file); workingDisk.updateSize();` for a node `file` that
      was created inside `dir`. */
  function Reattach(s: State, dir: NodeId, file: NodeId): (r: Reply)
    requires Inv(s) && s.disk.Some? && IsDir(s.heap, dir) && file in s.heap.nodes && dir < file
    requires s.heap.nodes[file].Directory? ==> s.heap.nodes[file].parent == Some(dir)
    ensures Inv(r.state) && KindsKept(s.heap, r.state.heap)
    ensures r.state == s.(heap := r.state.heap)
    ensures HasChildNamed(s.heap, dir, s.heap.nodes[file].name) ==> r == Reply(s, Fail(DuplicateFileName))
    ensures !HasChildNamed(s.heap, dir, s.heap.nodes[file].name) ==>
      && r.state.heap == AddFile(s.heap, dir, file).value
      && r.outcome == UpdateSize(r.state)
  {
    match AddFile(s.heap, dir, file)
    case Failure(e) => Reply(s, Fail(e))
    case Success(h') =>
      AddFileKeepsLinked(s.heap, dir, file);
      HeapChangeKeepsInv(s, h');
      var t := s.(heap := h');
      Reply(t, UpdateSize(t))
  }

  /** `dir.removeFile(name); workingDisk.updateSize();` */
  function Detach(s: State, dir: NodeId, name: string): (r: Reply)
    requires Inv(s) && s.disk.Some? && IsDir(s.heap, dir)
    ensures Inv(r.state) && KindsKept(s.heap, r.state.heap)
    ensures r.state == s.(heap := r.state.heap)
    ensures !HasChildNamed(s.heap, dir, name) ==> r == Reply(s, Fail(FileNotFound))
    ensures HasChildNamed(s.heap, dir, name) ==>
      && r.state.heap == RemoveFile(s.heap, dir, name).value
      && r.outcome == UpdateSize(r.state)
  {
    match RemoveFile(s.heap, dir, name)
    case Failure(e) => Reply(s, Fail(e))
    case Success(h') =>
      RemoveFileKeepsLinked(s.heap, dir, name);
      HeapChangeKeepsInv(s, h');
      var t := s.(heap := h');
      Reply(t, UpdateSize(t))
  }

  /** `file.setName(name)` for a name known to be valid. */
  function Renamed(s: State, file: NodeId, name: string): (r: State)
    requires Inv(s) && file in s.heap.nodes && Text.IsValidName(name)
    ensures Inv(r) && KindsKept(s.heap, r.heap)
    ensures r == s.(heap := Heap(s.heap.nodes[file := s.heap.nodes[file].(name := name)], s.heap.next))
  {
    var h' := SetName(s.heap, file, name).value;
    SetNameKeepsLinked(s.heap, file, name);
    HeapChangeKeepsInv(s, h');
    s.(heap := h')
  }

  // ---------------------------------------------------------------------------
  // File-system commands

  /** `newDisk diskSize`: a fresh disk whose root is the working directory,
      the registry back to its built-in entry, both stacks empty. */
  function NewDisk(s: State, tokens: seq<string>): (r: Reply)
    requires Inv(s)
    ensures Inv(r.state)
    ensures r.outcome.Pass? <==>
      |tokens| == 2 && Text.ParseInt(tokens[1]).Some? && Text.ParseInt(tokens[1]).value >= 0
    ensures r.outcome.Fail? ==> r.state == s
    ensures |tokens| != 2 ==> r.outcome == Fail(Usage)
    ensures |tokens| == 2 && Text.ParseInt(tokens[1]).None? ==> r.outcome == Fail(NotAnInteger)
    ensures |tokens| == 2 && Text.ParseInt(tokens[1]).Some? && Text.ParseInt(tokens[1]).value < 0 ==>
      r.outcome == Fail(NegativeDiskSize)
    ensures r.outcome.Pass? ==>
      && r.state.disk == Some(Disk(Text.ParseInt(tokens[1]).value, r.state.cwd))
      && r.state.heap.nodes[r.state.cwd] == Directory(RootName, None, [])
      && RootSize(r.state) == BaseFileSize
      && r.state.criteria == map[IsDocumentKey := IsDocument]
      && r.state.undoStack == [] && r.state.redoStack == []
  {
    if |tokens| != 2 then Reply(s, Fail(Usage))
    else match Text.ParseInt(tokens[1])
      case None => Reply(s, Fail(NotAnInteger))
      case Some(size) =>
        if size < 0 then Reply(s, Fail(NegativeDiskSize))
        else
          var t := State(Heap(map[0 := Directory(RootName, None, [])], 1), Some(Disk(size, 0)), 0,
                         map[IsDocumentKey := IsDocument], [], []);
          assert Size(t.heap, 0) == BaseFileSize + SizeOfAll(t.heap, 0, []);
          Reply(t, Pass)
  }

  /** The command that records the creation of node `id` in `dir`. */
  function CreatedCmd(n: Node, id: NodeId, dir: NodeId): Command
  {
    if n.Document? then NewDocCmd(id, dir) else NewDirCmd(id, dir)
  }

  /** A node `newDoc` or `newDir` may build in the working directory. */
  ghost predicate Creatable(s: State, n: Node)
  {
    && Inv(s) && s.disk.Some? && Text.IsValidName(n.name)
    && (n.Document? ==> n.docType in AllowedDocTypes)
    && (n.Directory? ==> n.files == [] && n.parent == Some(s.cwd))
  }

  /** The state once `new` and a successful `addFile` have run: the node has
      the next handle and is the last child of the working directory. */
  function Attached(s: State, n: Node): (t: State)
    requires Creatable(s, n) && !HasChildNamed(s.heap, s.cwd, n.name)
    ensures Inv(t) && KindsKept(s.heap, t.heap)
    ensures t == s.(heap := Heap(s.heap.nodes[s.heap.next := n]
                                   [s.cwd := s.heap.nodes[s.cwd].(files := s.heap.nodes[s.cwd].files + [s.heap.next])],
                                 s.heap.next + 1))
  {
    var grown := s.(heap := Alloc(s.heap, n));
    AllocKeepsLinked(s.heap, n);
    HeapChangeKeepsInv(s, grown.heap);
    AllocKeepsChildren(s.heap, n, s.cwd);
    AttachedHeap(s.heap, n, s.cwd);
    Reattach(grown, s.cwd, s.heap.next).state
  }

  /** The body shared by `newDoc` and `newDir` once the node is built: attach
      it to the working directory, then check the capacity, then log. The
      capacity check comes after the attach, so a node that does not fit stays
      attached and nothing is logged. */
  function Create(s: State, n: Node): (r: Reply)
    requires Creatable(s, n)
    ensures Inv(r.state) && Logged(s, r)
    ensures HasChildNamed(s.heap, s.cwd, n.name) ==> r == Reply(s, Fail(DuplicateFileName))
    ensures !HasChildNamed(s.heap, s.cwd, n.name) ==>
      var t := Attached(s, n);
      && (r.outcome.Pass? <==> RootSize(t) <= s.disk.value.maxSize)
      && (r.outcome.Pass? ==> r.state == Commit(t, CreatedCmd(n, s.heap.next, s.cwd)))
      && (r.outcome.Fail? ==> r == Reply(t, Fail(DiskSpaceExceeded)))
  {
    if GetFile(s.heap, s.cwd, n.name).Some? then Reply(s, Fail(DuplicateFileName))
    else
      var t := Attached(s, n);
      if UpdateSize(t).Pass? then Reply(Commit(t, CreatedCmd(n, s.heap.next, s.cwd)), Pass)
      else Reply(t, Fail(DiskSpaceExceeded))
  }

  /** Allocation does not change what the children of a directory are called. */
  lemma AllocKeepsChildren(h: Heap, n: Node, dir: NodeId)
    requires Valid(h) && IsDir(h, dir)
    requires n.Directory? ==> n.files == [] && (n.parent.Some? ==> IsDir(h, n.parent.value))
    ensures IsDir(Alloc(h, n), dir) && Alloc(h, n).nodes[dir] == h.nodes[dir]
    ensures forall name :: HasChildNamed(Alloc(h, n), dir, name) <==> HasChildNamed(h, dir, name)
  {
    var h' := Alloc(h, n);
    forall name
      ensures HasChildNamed(h', dir, name) <==> HasChildNamed(h, dir, name)
    {
      var files := h.nodes[dir].files;
      assert forall i :: 0 <= i < |files| ==> h'.nodes[files[i]] == h.nodes[files[i]];
    }
  }

  /** The arena after `new` and a successful `addFile`, written out. */
  lemma AttachedHeap(h: Heap, n: Node, dir: NodeId)
    requires Valid(h) && IsDir(h, dir)
    requires n.Directory? ==> n.files == [] && n.parent == Some(dir)
    requires AddFile(Alloc(h, n), dir, h.next).Success?
    ensures AddFile(Alloc(h, n), dir, h.next).value
         == Heap(h.nodes[h.next := n][dir := h.nodes[dir].(files := h.nodes[dir].files + [h.next])], h.next + 1)
  {
    var h1 := Alloc(h, n);
    var h2 := AddFile(h1, dir, h.next).value;
    var expected := h.nodes[h.next := n][dir := h.nodes[dir].(files := h.nodes[dir].files + [h.next])];
    assert Adopted(n, dir) == n;
    assert h2.nodes == expected by {
      assert h2.nodes.Keys == expected.Keys;
      forall k | k in expected
        ensures h2.nodes[k] == expected[k]
      {
      }
    }
  }

  /** `newDoc docName docType docContent`. */
  function NewDoc(s: State, tokens: seq<string>): (r: Reply)
    requires Inv(s)
    ensures Inv(r.state) && Logged(s, r)
    ensures s.disk.None? ==> r == Reply(s, Fail(NoDiskLoaded))
    ensures s.disk.Some? && |tokens| != 4 ==> r == Reply(s, Fail(Usage))
    ensures s.disk.Some? && |tokens| == 4 && tokens[2] !in AllowedDocTypes ==> r == Reply(s, Fail(DocTypeNotAllowed))
    ensures s.disk.Some? && |tokens| == 4 && tokens[2] in AllowedDocTypes && !Text.IsValidName(tokens[1]) ==>
      r == Reply(s, Fail(InvalidFileName))
    ensures s.disk.Some? && |tokens| == 4 && tokens[2] in AllowedDocTypes && Text.IsValidName(tokens[1]) ==>
      r == Create(s, Document(tokens[1], tokens[2], tokens[3]))
  {
    if s.disk.None? then Reply(s, Fail(NoDiskLoaded))
    else if |tokens| != 4 then Reply(s, Fail(Usage))
    else if tokens[2] !in AllowedDocTypes then Reply(s, Fail(DocTypeNotAllowed))
    else if !Text.IsValidName(tokens[1]) then Reply(s, Fail(InvalidFileName))
    else Create(s, Document(tokens[1], tokens[2], tokens[3]))
  }

  /** `newDir dirName`: the new directory's parent is the working directory. */
  function NewDir(s: State, tokens: seq<string>): (r: Reply)
    requires Inv(s)
    ensures Inv(r.state) && Logged(s, r)
    ensures s.disk.None? ==> r == Reply(s, Fail(NoDiskLoaded))
    ensures s.disk.Some? && |tokens| != 2 ==> r == Reply(s, Fail(Usage))
    ensures s.disk.Some? && |tokens| == 2 && !Text.IsValidName(tokens[1]) ==> r == Reply(s, Fail(InvalidFileName))
    ensures s.disk.Some? && |tokens| == 2 && Text.IsValidName(tokens[1]) ==>
      r == Create(s, Directory(tokens[1], Some(s.cwd), []))
  {
    if s.disk.None? then Reply(s, Fail(NoDiskLoaded))
    else if |tokens| != 2 then Reply(s, Fail(Usage))
    else if !Text.IsValidName(tokens[1]) then Reply(s, Fail(InvalidFileName))
    else Create(s, Directory(tokens[1], Some(s.cwd), []))
  }

  /** `delete fileName`: the first child with that name is detached; the
      capacity check that follows can only fail when the disk was already
      over capacity, and then nothing is logged although the file is gone. */
  function Delete(s: State, tokens: seq<string>): (r: Reply)
    requires Inv(s)
    ensures Inv(r.state) && Logged(s, r)
    ensures s.disk.None? ==> r == Reply(s, Fail(NoDiskLoaded))
    ensures s.disk.Some? && |tokens| != 2 ==> r == Reply(s, Fail(Usage))
    ensures s.disk.Some? && |tokens| == 2 && !HasChildNamed(s.heap, s.cwd, tokens[1]) ==> r == Reply(s, Fail(FileNotFound))
    ensures s.disk.Some? && |tokens| == 2 && HasChildNamed(s.heap, s.cwd, tokens[1]) ==>
      var detached := s.(heap := RemoveFile(s.heap, s.cwd, tokens[1]).value);
      && Inv(detached)
      && (r.outcome.Pass? <==> RootSize(detached) <= s.disk.value.maxSize)
      && (r.outcome.Pass? ==> r.state == Commit(detached, DeleteCmd(GetFile(s.heap, s.cwd, tokens[1]).value, s.cwd)))
      && (r.outcome.Fail? ==> r == Reply(detached, Fail(DiskSpaceExceeded)))
  {
    if s.disk.None? then Reply(s, Fail(NoDiskLoaded))
    else if |tokens| != 2 then Reply(s, Fail(Usage))
    else match GetFile(s.heap, s.cwd, tokens[1])
      case None => Reply(s, Fail(FileNotFound))
      case Some(file) =>
        DeletedKeepsParent(s, file);
        var a := Detach(s, s.cwd, tokens[1]);
        if a.outcome.Pass? then Reply(Commit(a.state, DeleteCmd(file, s.cwd)), Pass) else a
  }

  /** A directory listed by the working directory names it as its parent. */
  lemma DeletedKeepsParent(s: State, file: NodeId)
    requires Inv(s) && s.disk.Some? && file in s.heap.nodes[s.cwd].files
    ensures s.heap.nodes[file].Directory? ==> s.heap.nodes[file].parent == Some(s.cwd)
  {
    var files := s.heap.nodes[s.cwd].files;
    var j :| 0 <= j < |files| && files[j] == file;
    assert ParentsAre(s.heap, s.cwd);
  }

  /** `rename oldFileName newFileName`: only the name of the first child
      called `oldFileName` changes; sizes are not rechecked. */
  function Rename(s: State, tokens: seq<string>): (r: Reply)
    requires Inv(s)
    ensures Inv(r.state) && Logged(s, r)
    ensures r.outcome.Pass? <==>
      && s.disk.Some? && |tokens| == 3
      && HasChildNamed(s.heap, s.cwd, tokens[1])
      && Text.IsValidName(tokens[2])
      && !HasChildNamed(s.heap, s.cwd, tokens[2])
    ensures r.outcome.Fail? ==> r.state == s
    ensures s.disk.None? ==> r.outcome == Fail(NoDiskLoaded)
    ensures s.disk.Some? && |tokens| != 3 ==> r.outcome == Fail(Usage)
    ensures s.disk.Some? && |tokens| == 3 ==>
      && (!HasChildNamed(s.heap, s.cwd, tokens[1]) ==> r.outcome == Fail(FileNotFound))
      && (HasChildNamed(s.heap, s.cwd, tokens[1]) && !Text.IsValidName(tokens[2]) ==> r.outcome == Fail(InvalidNewFileName))
      && (HasChildNamed(s.heap, s.cwd, tokens[1]) && Text.IsValidName(tokens[2]) && HasChildNamed(s.heap, s.cwd, tokens[2]) ==>
            r.outcome == Fail(NewNameExists))
    ensures r.outcome.Pass? ==>
      var file := GetFile(s.heap, s.cwd, tokens[1]).value;
      r.state == Commit(s.(heap := Heap(s.heap.nodes[file := s.heap.nodes[file].(name := tokens[2])], s.heap.next)),
                        RenameCmd(file, tokens[1], tokens[2]))
  {
    if s.disk.None? then Reply(s, Fail(NoDiskLoaded))
    else if |tokens| != 3 then Reply(s, Fail(Usage))
    else match GetFile(s.heap, s.cwd, tokens[1])
      case None => Reply(s, Fail(FileNotFound))
      case Some(file) =>
        if !Text.IsValidName(tokens[2]) then Reply(s, Fail(InvalidNewFileName))
        else if GetFile(s.heap, s.cwd, tokens[2]).Some? then Reply(s, Fail(NewNameExists))
        else
          var prevName := s.heap.nodes[file].name;
          var t := Renamed(s, file, tokens[2]);
          Reply(Commit(t, RenameCmd(file, prevName, tokens[2])), Pass)
  }

  /** `changeDir ..` moves to the parent, which the root lacks; `changeDir
      name` moves to the first child called `name` when that child is a
      directory. */
  function ChangeDir(s: State, tokens: seq<string>): (r: Reply)
    requires Inv(s)
    ensures Inv(r.state) && Logged(s, r)
    ensures r.outcome.Fail? ==> r.state == s
    ensures s.disk.None? ==> r.outcome == Fail(NoDiskLoaded)
    ensures s.disk.Some? && |tokens| != 2 ==> r.outcome == Fail(Usage)
    ensures s.disk.Some? && |tokens| == 2 && tokens[1] == ".." ==>
      match s.heap.nodes[s.cwd].parent
      case None => r.outcome == Fail(AtRoot)
      case Some(p) => r == Reply(Commit(s.(cwd := p), ChangeDirCmd(s.cwd, p)), Pass)
    ensures s.disk.Some? && |tokens| == 2 && tokens[1] != ".." ==>
      match GetFile(s.heap, s.cwd, tokens[1])
      case Some(d) =>
        if IsDir(s.heap, d) then r == Reply(Commit(s.(cwd := d), ChangeDirCmd(s.cwd, d)), Pass)
        else r.outcome == Fail(DirectoryNotFound)
      case None => r.outcome == Fail(DirectoryNotFound)
    ensures s.disk.Some? && s.cwd == s.disk.value.root && |tokens| == 2 && tokens[1] == ".." ==> r.outcome == Fail(AtRoot)
  {
    if s.disk.None? then Reply(s, Fail(NoDiskLoaded))
    else if |tokens| != 2 then Reply(s, Fail(Usage))
    else if tokens[1] == ".." then
      match s.heap.nodes[s.cwd].parent
      case None => Reply(s, Fail(AtRoot))
      case Some(p) => Reply(Commit(s.(cwd := p), ChangeDirCmd(s.cwd, p)), Pass)
    else
      match GetFile(s.heap, s.cwd, tokens[1])
      case Some(d) =>
        if IsDir(s.heap, d) then Reply(Commit(s.(cwd := d), ChangeDirCmd(s.cwd, d)), Pass)
        else Reply(s, Fail(DirectoryNotFound))
      case None => Reply(s, Fail(DirectoryNotFound))
  }

  // ---------------------------------------------------------------------------
  // Criterion registry

  /** Registers `crit` under `name` and logs it. */
  function Register(s: State, name: string, crit: Criterion): (r: Reply)
    requires Inv(s) && Text.IsCriterionName(name) && WellFormed(crit)
    ensures Inv(r.state) && Logged(s, r) && r.outcome.Pass?
    ensures r.state == Commit(s.(criteria := s.criteria[name := crit]), NewCriterionCmd(name, crit))
  {
    Reply(Commit(s.(criteria := s.criteria[name := crit]), NewCriterionCmd(name, crit)), Pass)
  }

  /** `newSimpleCri criName attrName op val`. No disk is needed. */
  function NewSimpleCri(s: State, tokens: seq<string>): (r: Reply)
    requires Inv(s)
    ensures Inv(r.state) && Logged(s, r)
    ensures r.outcome.Pass? <==>
      && |tokens| == 5 && Text.IsCriterionName(tokens[1]) && tokens[1] !in s.criteria
      && Validate(tokens[2], tokens[3], tokens[4]).Pass?
    ensures r.outcome.Fail? ==> r.state == s
    ensures |tokens| != 5 ==> r.outcome == Fail(Usage)
    ensures |tokens| == 5 && !Text.IsCriterionName(tokens[1]) ==> r.outcome == Fail(InvalidCriterionName)
    ensures |tokens| == 5 && Text.IsCriterionName(tokens[1]) && tokens[1] in s.criteria ==> r.outcome == Fail(CriterionExists)
    ensures |tokens| == 5 && Text.IsCriterionName(tokens[1]) && tokens[1] !in s.criteria ==>
      r.outcome.Fail? ==> r.outcome == Validate(tokens[2], tokens[3], tokens[4])
    ensures r.outcome.Pass? ==>
      var crit := Simple(tokens[2], tokens[3], tokens[4]);
      r.state == Commit(s.(criteria := s.criteria[tokens[1] := crit]), NewCriterionCmd(tokens[1], crit))
  {
    if |tokens| != 5 then Reply(s, Fail(Usage))
    else if !Text.IsCriterionName(tokens[1]) then Reply(s, Fail(InvalidCriterionName))
    else if tokens[1] in s.criteria then Reply(s, Fail(CriterionExists))
    else match MakeSimple(tokens[2], tokens[3], tokens[4])
      case Failure(e) => Reply(s, Fail(e))
      case Success(crit) => Register(s, tokens[1], crit)
  }

  /** `newNegation criName1 criName2`: the negation of an existing criterion. */
  function NewNegation(s: State, tokens: seq<string>): (r: Reply)
    requires Inv(s)
    ensures Inv(r.state) && Logged(s, r)
    ensures r.outcome.Pass? <==>
      |tokens| == 3 && Text.IsCriterionName(tokens[1]) && tokens[1] !in s.criteria && tokens[2] in s.criteria
    ensures r.outcome.Fail? ==> r.state == s
    ensures |tokens| != 3 ==> r.outcome == Fail(Usage)
    ensures |tokens| == 3 && !Text.IsCriterionName(tokens[1]) ==> r.outcome == Fail(InvalidCriterionName)
    ensures |tokens| == 3 && Text.IsCriterionName(tokens[1]) && tokens[1] in s.criteria ==> r.outcome == Fail(CriterionExists)
    ensures |tokens| == 3 && Text.IsCriterionName(tokens[1]) && tokens[1] !in s.criteria && tokens[2] !in s.criteria ==>
      r.outcome == Fail(CriterionMissing)
    ensures r.outcome.Pass? ==>
      var crit := Negation(s.criteria[tokens[2]]);
      r.state == Commit(s.(criteria := s.criteria[tokens[1] := crit]), NewCriterionCmd(tokens[1], crit))
  {
    if |tokens| != 3 then Reply(s, Fail(Usage))
    else if !Text.IsCriterionName(tokens[1]) then Reply(s, Fail(InvalidCriterionName))
    else if tokens[1] in s.criteria then Reply(s, Fail(CriterionExists))
    else if tokens[2] !in s.criteria then Reply(s, Fail(CriterionMissing))
    else Register(s, tokens[1], Negation(s.criteria[tokens[2]]))
  }

  /** `newBinaryCri criName1 criName3 logicOp criName4`. */
  function NewBinaryCri(s: State, tokens: seq<string>): (r: Reply)
    requires Inv(s)
    ensures Inv(r.state) && Logged(s, r)
    ensures r.outcome.Pass? <==>
      && |tokens| == 5 && Text.IsCriterionName(tokens[1]) && tokens[1] !in s.criteria
      && tokens[2] in s.criteria && tokens[4] in s.criteria
      && (tokens[3] == "&&" || tokens[3] == "||")
    ensures r.outcome.Fail? ==> r.state == s
    ensures |tokens| != 5 ==> r.outcome == Fail(Usage)
    ensures |tokens| == 5 && !Text.IsCriterionName(tokens[1]) ==> r.outcome == Fail(InvalidCriterionName)
    ensures |tokens| == 5 && Text.IsCriterionName(tokens[1]) && tokens[1] in s.criteria ==> r.outcome == Fail(CriterionExists)
    ensures |tokens| == 5 && Text.IsCriterionName(tokens[1]) && tokens[1] !in s.criteria ==>
      && (tokens[2] !in s.criteria || tokens[4] !in s.criteria ==> r.outcome == Fail(CriterionMissing))
      && (tokens[2] in s.criteria && tokens[4] in s.criteria && tokens[3] != "&&" && tokens[3] != "||" ==>
            r.outcome == Fail(InvalidLogicOp))
    ensures r.outcome.Pass? ==>
      var crit := Binary(s.criteria[tokens[2]], tokens[3], s.criteria[tokens[4]]);
      r.state == Commit(s.(criteria := s.criteria[tokens[1] := crit]), NewCriterionCmd(tokens[1], crit))
  {
    if |tokens| != 5 then Reply(s, Fail(Usage))
    else if !Text.IsCriterionName(tokens[1]) then Reply(s, Fail(InvalidCriterionName))
    else if tokens[1] in s.criteria then Reply(s, Fail(CriterionExists))
    else if tokens[2] !in s.criteria || tokens[4] !in s.criteria then Reply(s, Fail(CriterionMissing))
    else match MakeBinary(s.criteria[tokens[2]], tokens[3], s.criteria[tokens[4]])
      case Failure(e) => Reply(s, Fail(e))
      case Success(crit) => Register(s, tokens[1], crit)
  }

  // ---------------------------------------------------------------------------
  // Undo and redo

  /** `cmd.undo()`: detach a created node by its current name, re-attach a
      deleted one, restore the previous name (without the sibling check), the
      previous directory, or drop the registered criterion. */
  function UndoAction(s: State, c: Command): (r: Reply)
    requires Inv(s) && CommandValid(s.heap, s.disk.Some?, c)
    ensures Inv(r.state) && KindsKept(s.heap, r.state.heap) && CommandValid(r.state.heap, r.state.disk.Some?, c)
    ensures r.state.disk == s.disk && r.state.undoStack == s.undoStack && r.state.redoStack == s.redoStack
  {
    match c
    case NewDocCmd(doc, dir) => Detach(s, dir, s.heap.nodes[doc].name)
    case NewDirCmd(nd, dir) => Detach(s, dir, s.heap.nodes[nd].name)
    case DeleteCmd(file, dir) => Reattach(s, dir, file)
    case RenameCmd(file, prev, _) => Reply(Renamed(s, file, prev), Pass)
    case ChangeDirCmd(prev, _) => Reply(s.(cwd := prev), Pass)
    case NewCriterionCmd(name, _) => Reply(s.(criteria := s.criteria - {name}), Pass)
  }

  /** `cmd.redo()`: the command's forward action, replayed on the captured
      references. */
  function RedoAction(s: State, c: Command): (r: Reply)
    requires Inv(s) && CommandValid(s.heap, s.disk.Some?, c)
    ensures Inv(r.state) && KindsKept(s.heap, r.state.heap) && CommandValid(r.state.heap, r.state.disk.Some?, c)
    ensures r.state.disk == s.disk && r.state.undoStack == s.undoStack && r.state.redoStack == s.redoStack
  {
    match c
    case NewDocCmd(doc, dir) => Reattach(s, dir, doc)
    case NewDirCmd(nd, dir) => Reattach(s, dir, nd)
    case DeleteCmd(file, dir) => Detach(s, dir, s.heap.nodes[file].name)
    case RenameCmd(file, _, next) => Reply(Renamed(s, file, next), Pass)
    case ChangeDirCmd(_, next) => Reply(s.(cwd := next), Pass)
    case NewCriterionCmd(name, crit) => Reply(s.(criteria := s.criteria[name := crit]), Pass)
  }

  /** `undo`: pop the top command and undo it; only when that succeeds is it
      pushed onto the redo stack, so a command whose undo throws is lost. */
  function Undo(s: State): (r: Reply)
    requires Inv(s)
    ensures Inv(r.state)
    ensures s.undoStack == [] ==> r == Reply(s, Fail(NothingToUndo))
    ensures s.undoStack != [] ==>
      var c := s.undoStack[|s.undoStack| - 1];
      var a := UndoAction(s.(undoStack := s.undoStack[..|s.undoStack| - 1]), c);
      && r.state.undoStack == s.undoStack[..|s.undoStack| - 1]
      && (a.outcome.Pass? ==> r == Reply(a.state.(redoStack := s.redoStack + [c]), Pass))
      && (a.outcome.Fail? ==> r == a && r.state.redoStack == s.redoStack)
  {
    if s.undoStack == [] then Reply(s, Fail(NothingToUndo))
    else
      var c := s.undoStack[|s.undoStack| - 1];
      var popped := s.(undoStack := s.undoStack[..|s.undoStack| - 1]);
      var a := UndoAction(popped, c);
      if a.outcome.Pass? then Reply(a.state.(redoStack := s.redoStack + [c]), Pass) else a
  }

  /** `redo`: pop the top of the redo stack and replay it; pushed back onto
      the undo stack only when the replay succeeds. */
  function Redo(s: State): (r: Reply)
    requires Inv(s)
    ensures Inv(r.state)
    ensures s.redoStack == [] ==> r == Reply(s, Fail(NothingToRedo))
    ensures s.redoStack != [] ==>
      var c := s.redoStack[|s.redoStack| - 1];
      var a := RedoAction(s.(redoStack := s.redoStack[..|s.redoStack| - 1]), c);
      && r.state.redoStack == s.redoStack[..|s.redoStack| - 1]
      && (a.outcome.Pass? ==> r == Reply(a.state.(undoStack := s.undoStack + [c]), Pass))
      && (a.outcome.Fail? ==> r == a && r.state.undoStack == s.undoStack)
  {
    if s.redoStack == [] then Reply(s, Fail(NothingToRedo))
    else
      var c := s.redoStack[|s.redoStack| - 1];
      var popped := s.(redoStack := s.redoStack[..|s.redoStack| - 1]);
      var a := RedoAction(popped, c);
      if a.outcome.Pass? then Reply(a.state.(undoStack := s.undoStack + [c]), Pass) else a
  }

  // ---------------------------------------------------------------------------
  // Listing and searching (totals only)

  /** `list`: every child of the working directory, and their total size. */
  function List(s: State): (r: Result<Totals, Error>)
    requires Inv(s)
    ensures r.Failure? <==> s.disk.None?
    ensures r.Failure? ==> r.error == NoDiskLoaded
    ensures r.Success? ==>
      && r.value.count == |s.heap.nodes[s.cwd].files|
      && r.value.size == Size(s.heap, s.cwd) - BaseFileSize
  {
    if s.disk.None? then Failure(NoDiskLoaded)
    else Success(Totals(|s.heap.nodes[s.cwd].files|, SizeOfAll(s.heap, s.cwd, s.heap.nodes[s.cwd].files)))
  }

  /** `rList`: every file below the working directory. */
  function RList(s: State): (r: Result<Totals, Error>)
    requires Inv(s)
    ensures r.Failure? <==> s.disk.None?
    ensures r.Failure? ==> r.error == NoDiskLoaded
    ensures r.Success? ==> r.value == SubtreeAll(s.heap, s.cwd)
  {
    if s.disk.None? then Failure(NoDiskLoaded) else Success(SubtreeAll(s.heap, s.cwd))
  }

  /** `search criName`. The command does not check for a disk: before the
      first `newDisk` the working directory is `null` and the walk throws. */
  function SearchCwd(s: State, tokens: seq<string>): (r: Result<Totals, Error>)
    requires Inv(s)
    ensures r.Success? <==> |tokens| == 2 && tokens[1] in s.criteria && s.disk.Some?
    ensures |tokens| != 2 ==> r == Failure(Usage)
    ensures |tokens| == 2 && tokens[1] !in s.criteria ==> r == Failure(CriterionNotFound)
    ensures |tokens| == 2 && tokens[1] in s.criteria && s.disk.None? ==> r == Failure(NoWorkingDirectory)
    ensures r.Success? ==>
      && r.value == MatchAmong(s.heap, s.criteria[tokens[1]], s.cwd, s.heap.nodes[s.cwd].files)
      && 0 <= r.value.count <= |s.heap.nodes[s.cwd].files|
      && 0 <= r.value.size <= Size(s.heap, s.cwd) - BaseFileSize
  {
    if |tokens| != 2 then Failure(Usage)
    else if tokens[1] !in s.criteria then Failure(CriterionNotFound)
    else if s.disk.None? then Failure(NoWorkingDirectory)
    else Success(MatchAmong(s.heap, s.criteria[tokens[1]], s.cwd, s.heap.nodes[s.cwd].files))
  }

  /** `rSearch criName`: as `search`, over the whole subtree. */
  function RSearch(s: State, tokens: seq<string>): (r: Result<Totals, Error>)
    requires Inv(s)
    ensures r.Success? <==> |tokens| == 2 && tokens[1] in s.criteria && s.disk.Some?
    ensures |tokens| != 2 ==> r == Failure(Usage)
    ensures |tokens| == 2 && tokens[1] !in s.criteria ==> r == Failure(CriterionNotFound)
    ensures |tokens| == 2 && tokens[1] in s.criteria && s.disk.None? ==> r == Failure(NoWorkingDirectory)
    ensures r.Success? ==> r.value == SubtreeMatch(s.heap, s.criteria[tokens[1]], s.cwd)
  {
    if |tokens| != 2 then Failure(Usage)
    else if tokens[1] !in s.criteria then Failure(CriterionNotFound)
    else if s.disk.None? then Failure(NoWorkingDirectory)
    else Success(SubtreeMatch(s.heap, s.criteria[tokens[1]], s.cwd))
  }
}
