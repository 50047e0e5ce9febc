/** What the command log promises across several commands: undoing a command
    right after it succeeded gives back the state before it, and redoing it
    then gives back the state after it; and how each structural command moves
    the root's size, on which the capacity check depends. */
module CvfsProperties {
  import opened Wrappers
  import opened Errors
  import Text
  import opened Nodes
  import opened Criteria
  import opened Cvfs

  function Top(stack: seq<Command>): Command
    requires stack != []
  {
    stack[|stack| - 1]
  }

  /** `undo` right after a command was logged undoes exactly that command. */
  lemma UndoTop(a: State, c: Command)
    requires Inv(Commit(a, c))
    ensures Inv(a.(redoStack := [])) && CommandValid(a.heap, a.disk.Some?, c)
    ensures var r := UndoAction(a.(redoStack := []), c);
      Undo(Commit(a, c)) == if r.outcome.Pass? then Reply(r.state.(redoStack := [c]), Pass) else r
  {
    var t := Commit(a, c);
    assert t.undoStack[..|t.undoStack| - 1] == a.undoStack;
    assert t.undoStack[|t.undoStack| - 1] == c;
    assert t.(undoStack := a.undoStack) == a.(redoStack := []);
  }

  /** `redo` with one command on the redo stack replays exactly that command. */
  lemma RedoTop(b: State, c: Command)
    requires Inv(b.(redoStack := [c]))
    ensures Inv(b.(redoStack := [])) && CommandValid(b.heap, b.disk.Some?, c)
    ensures var r := RedoAction(b.(redoStack := []), c);
      Redo(b.(redoStack := [c])) == if r.outcome.Pass? then Reply(r.state.(undoStack := b.undoStack + [c]), Pass) else r
  {
    assert [c][..0] == [];
    assert [c][0] == c;
  }

  // ---------------------------------------------------------------------------
  // Renames, moves of the cursor and registrations: exact round trips

  lemma {:induction false} RenameUndoRedo(s: State, tokens: seq<string>)
    requires Inv(s) && Rename(s, tokens).outcome.Pass?
    ensures var t := Rename(s, tokens).state;
      && Undo(t) == Reply(s.(redoStack := [Top(t.undoStack)]), Pass)
      && Redo(Undo(t).state) == Reply(t, Pass)
  {
    var t := Rename(s, tokens).state;
    var f := GetFile(s.heap, s.cwd, tokens[1]).value;
    var n := s.heap.nodes[f];
    assert n.name == tokens[1];
    var c := RenameCmd(f, tokens[1], tokens[2]);
    assert Top(t.undoStack) == c;
    assert t.undoStack[..|t.undoStack| - 1] == s.undoStack;
    var popped := t.(undoStack := s.undoStack);
    assert popped.heap.nodes[f] == n.(name := tokens[2]);
    assert n.(name := tokens[2]).(name := tokens[1]) == n;
    assert popped.heap.nodes[f := n] == s.heap.nodes;
    assert UndoAction(popped, c) == Reply(s.(redoStack := []), Pass);
    assert Undo(t) == Reply(s.(redoStack := [c]), Pass);
    assert [c][..0] == [];
    assert RedoAction(s.(redoStack := []), c) == Reply(t.(undoStack := s.undoStack), Pass);
  }

  lemma {:induction false} ChangeDirUndoRedo(s: State, tokens: seq<string>)
    requires Inv(s) && ChangeDir(s, tokens).outcome.Pass?
    ensures var t := ChangeDir(s, tokens).state;
      && Undo(t) == Reply(s.(redoStack := [Top(t.undoStack)]), Pass)
      && Redo(Undo(t).state) == Reply(t, Pass)
  {
    var t := ChangeDir(s, tokens).state;
    assert t.undoStack[..|t.undoStack| - 1] == s.undoStack;
    var c := Top(t.undoStack);
    assert c.prevDir == s.cwd;
    assert [c][..0] == [];
  }

  /** A registration undone right away leaves the registry as it was, and
      redone gives back the registry with the new entry. */
  lemma {:induction false} RegisterUndoRedo(s: State, name: string, crit: Criterion)
    requires Inv(s) && Text.IsCriterionName(name) && WellFormed(crit) && name !in s.criteria
    ensures var t := Register(s, name, crit).state;
      && Undo(t) == Reply(s.(redoStack := [NewCriterionCmd(name, crit)]), Pass)
      && Redo(Undo(t).state) == Reply(t, Pass)
  {
    var t := Register(s, name, crit).state;
    assert t.undoStack[..|t.undoStack| - 1] == s.undoStack;
    assert s.criteria[name := crit] - {name} == s.criteria;
    assert [NewCriterionCmd(name, crit)][..0] == [];
  }

  lemma NewSimpleCriUndoRedo(s: State, tokens: seq<string>)
    requires Inv(s) && NewSimpleCri(s, tokens).outcome.Pass?
    ensures var t := NewSimpleCri(s, tokens).state;
      && Undo(t) == Reply(s.(redoStack := [Top(t.undoStack)]), Pass)
      && Redo(Undo(t).state) == Reply(t, Pass)
  {
    RegisterUndoRedo(s, tokens[1], Simple(tokens[2], tokens[3], tokens[4]));
  }

  lemma NewNegationUndoRedo(s: State, tokens: seq<string>)
    requires Inv(s) && NewNegation(s, tokens).outcome.Pass?
    ensures var t := NewNegation(s, tokens).state;
      && Undo(t) == Reply(s.(redoStack := [Top(t.undoStack)]), Pass)
      && Redo(Undo(t).state) == Reply(t, Pass)
  {
    RegisterUndoRedo(s, tokens[1], Negation(s.criteria[tokens[2]]));
  }

  lemma NewBinaryCriUndoRedo(s: State, tokens: seq<string>)
    requires Inv(s) && NewBinaryCri(s, tokens).outcome.Pass?
    ensures var t := NewBinaryCri(s, tokens).state;
      && Undo(t) == Reply(s.(redoStack := [Top(t.undoStack)]), Pass)
      && Redo(Undo(t).state) == Reply(t, Pass)
  {
    RegisterUndoRedo(s, tokens[1], Binary(s.criteria[tokens[2]], tokens[3], s.criteria[tokens[4]]));
  }

  // ---------------------------------------------------------------------------
  // Created nodes: the round trip keeps the detached node in the arena

  /** The first child called `name` of `files + [x]` is `x` when no child of
      `files` is called `name`. */
  lemma {:induction false} FirstNamedAtEnd(h: Heap, files: seq<NodeId>, x: NodeId, name: string)
    requires forall i :: 0 <= i < |files| ==> files[i] in h.nodes && h.nodes[files[i]].name != name
    requires x in h.nodes && h.nodes[x].name == name
    ensures FirstNamed(h, files + [x], name) == Some(|files|)
  {
    if files != [] {
      assert (files + [x])[1..] == files[1..] + [x];
      FirstNamedAtEnd(h, files[1..], x, name);
    }
  }

  /** Detaching a last child whose name no earlier sibling has just drops
      it from the end of the list. */
  lemma RemoveLast(h: Heap, dir: NodeId, files: seq<NodeId>, x: NodeId)
    requires Valid(h) && IsDir(h, dir) && h.nodes[dir].files == files + [x] && x in h.nodes
    requires forall i :: 0 <= i < |files| ==> files[i] in h.nodes && h.nodes[files[i]].name != h.nodes[x].name
    ensures RemoveFile(h, dir, h.nodes[x].name) == Success(Heap(h.nodes[dir := h.nodes[dir].(files := files)], h.next))
  {
    FirstNamedAtEnd(h, files, x, h.nodes[x].name);
    assert (files + [x])[..|files|] + (files + [x])[|files| + 1..] == files;
  }

  /** Detaching the node just attached gives back the arena as it was right
      after `new`: the node stays allocated but no directory holds it. */
  lemma {:induction false} DetachAttached(h: Heap, n: Node, dir: NodeId)
    requires Valid(h) && IsDir(h, dir) && (n.Directory? ==> n.files == [] && n.parent == Some(dir))
    requires !HasChildNamed(h, dir, n.name)
    ensures var h2 := AddFile(Alloc(h, n), dir, h.next);
      && h2.Success? && HasChildNamed(h2.value, dir, n.name)
      && RemoveFile(h2.value, dir, n.name) == Success(Alloc(h, n))
  {
    var h1 := Alloc(h, n);
    var id, files := h.next, h.nodes[dir].files;
    AllocKeepsChildren(h, n, dir);
    AttachedHeap(h, n, dir);
    var h2 := AddFile(h1, dir, id).value;
    assert h2.nodes[id] == n && h2.nodes[dir].files == files + [id];
    assert forall i :: 0 <= i < |files| ==> files[i] in h2.nodes && h2.nodes[files[i]].name != n.name by {
      forall i | 0 <= i < |files| ensures files[i] in h2.nodes && h2.nodes[files[i]].name != n.name {
        assert files[i] < id && h2.nodes[files[i]] == h.nodes[files[i]];
      }
    }
    RemoveLast(h2, dir, files, id);
    assert h2.nodes[dir := h2.nodes[dir].(files := files)] == h1.nodes;
  }

  /** The arena after a creation gives back the arena right after `new`
      when the new node is detached by its name. */
  lemma AttachedDetaches(s: State, n: Node)
    requires Creatable(s, n) && !HasChildNamed(s.heap, s.cwd, n.name)
    ensures RemoveFile(Attached(s, n).heap, s.cwd, n.name) == Success(Alloc(s.heap, n))
  {
    AllocKeepsChildren(s.heap, n, s.cwd);
    AttachedHeap(s.heap, n, s.cwd);
    DetachAttached(s.heap, n, s.cwd);
  }

  /** The undo step of a creation: the node is detached by its name, and the
      root is back to its old size, which fitted. */
  lemma {:induction false} UndoCreated(s: State, n: Node)
    requires Creatable(s, n) && !HasChildNamed(s.heap, s.cwd, n.name) && RootSize(s) <= s.disk.value.maxSize
    ensures UndoAction(Attached(s, n).(redoStack := []), CreatedCmd(n, s.heap.next, s.cwd))
         == Reply(s.(heap := Alloc(s.heap, n), redoStack := []), Pass)
  {
    var a := Attached(s, n).(redoStack := []);
    AttachedDetaches(s, n);
    AllocFrame(s.heap, n, 0, s.cwd);
    DetachPasses(a, s.cwd, a.heap.nodes[s.heap.next].name, Alloc(s.heap, n));
  }

  /** The state between the undo and the redo of a creation: the node is
      allocated but attached nowhere, and the redo stack is cleared. */
  lemma GrownKeepsInv(s: State, n: Node)
    requires Creatable(s, n)
    ensures Inv(s.(heap := Alloc(s.heap, n), redoStack := []))
  {
    var cleared := s.(redoStack := []);
    assert Inv(cleared);
    AllocKeepsLinked(s.heap, n);
    HeapChangeKeepsInv(cleared, Alloc(s.heap, n));
  }

  /** The redo step of a creation: the same node is attached again. */
  lemma {:induction false} RedoCreated(s: State, n: Node)
    requires Creatable(s, n) && !HasChildNamed(s.heap, s.cwd, n.name)
    requires RootSize(Attached(s, n)) <= s.disk.value.maxSize
    ensures var grown := s.(heap := Alloc(s.heap, n), redoStack := []);
      Inv(grown) && RedoAction(grown, CreatedCmd(n, s.heap.next, s.cwd)) == Reply(Attached(s, n).(redoStack := []), Pass)
  {
    var grown := s.(heap := Alloc(s.heap, n), redoStack := []);
    GrownKeepsInv(s, n);
    AllocKeepsChildren(s.heap, n, s.cwd);
    AttachedHeap(s.heap, n, s.cwd);
    assert Reattach(grown, s.cwd, s.heap.next) == Reply(Attached(s, n).(redoStack := []), Pass);
  }

  /** Undoing `newDoc`/`newDir` right after it succeeded detaches the new node
      again; the node stays allocated (the redo command holds it) but is
      unreachable, and every size is as before. Redoing re-attaches it. */
  lemma {:induction false} CreateUndoRedo(s: State, n: Node)
    requires Creatable(s, n) && Create(s, n).outcome.Pass?
    ensures var t := Create(s, n).state;
      && Undo(t) == Reply(s.(heap := Alloc(s.heap, n), redoStack := [Top(t.undoStack)]), Pass)
      && Redo(Undo(t).state) == Reply(t, Pass)
  {
    var t := Create(s, n).state;
    var c := CreatedCmd(n, s.heap.next, s.cwd);
    var grown := s.(heap := Alloc(s.heap, n), redoStack := []);
    assert !HasChildNamed(s.heap, s.cwd, n.name);
    assert t == Commit(Attached(s, n), c);
    CreatePassFits(s, n);
    UndoTop(Attached(s, n), c);
    UndoCreated(s, n);
    RedoTop(grown, c);
    RedoCreated(s, n);
  }

  lemma NewDocUndoRedo(s: State, tokens: seq<string>)
    requires Inv(s) && NewDoc(s, tokens).outcome.Pass?
    ensures var t := NewDoc(s, tokens).state;
      && Undo(t) == Reply(s.(heap := Alloc(s.heap, Document(tokens[1], tokens[2], tokens[3])),
                             redoStack := [Top(t.undoStack)]), Pass)
      && Redo(Undo(t).state) == Reply(t, Pass)
  {
    CreateUndoRedo(s, Document(tokens[1], tokens[2], tokens[3]));
  }

  lemma NewDirUndoRedo(s: State, tokens: seq<string>)
    requires Inv(s) && NewDir(s, tokens).outcome.Pass?
    ensures var t := NewDir(s, tokens).state;
      && Undo(t) == Reply(s.(heap := Alloc(s.heap, Directory(tokens[1], Some(s.cwd), [])),
                             redoStack := [Top(t.undoStack)]), Pass)
      && Redo(Undo(t).state) == Reply(t, Pass)
  {
    CreateUndoRedo(s, Directory(tokens[1], Some(s.cwd), []));
  }

  /** Attaching a new node grows the root by the node's size once per path
      from the root down to the working directory (once, in a tree). */
  lemma CreateGrowsRoot(s: State, n: Node)
    requires Creatable(s, n) && !HasChildNamed(s.heap, s.cwd, n.name)
    ensures RootSize(Attached(s, n)) == RootSize(s) + PathsTo(s.heap, 0, s.cwd) * Size(Alloc(s.heap, n), s.heap.next)
    ensures Size(Alloc(s.heap, n), s.heap.next) == BaseFileSize + (if n.Document? then 2 * Text.Utf16Length(n.content) else 0)
  {
    var h1 := Alloc(s.heap, n);
    AllocKeepsChildren(s.heap, n, s.cwd);
    AttachedHeap(s.heap, n, s.cwd);
    AddFileSizes(h1, s.cwd, s.heap.next, 0);
    AllocFrame(s.heap, n, 0, s.cwd);
    if n.Directory? {
      assert Size(h1, s.heap.next) == BaseFileSize + SizeOfAll(h1, s.heap.next, []);
    }
  }

  /** A creation only passes its capacity check on a disk that was within
      capacity before it: attaching never shrinks the root. */
  lemma CreatePassFits(s: State, n: Node)
    requires Creatable(s, n) && Create(s, n).outcome.Pass?
    ensures RootSize(s) <= s.disk.value.maxSize
  {
    assert !HasChildNamed(s.heap, s.cwd, n.name);
    CreateGrowsRoot(s, n);
    MulNonNegative(PathsTo(s.heap, 0, s.cwd), Size(Alloc(s.heap, n), s.heap.next));
  }

  // ---------------------------------------------------------------------------
  // Deletions: the round trip moves the file to the end of its directory

  /** At most one child of `dir` is called `name`. `addFile` refuses a second
      child of the same name, but an undone rename does not check its
      siblings and can give two children one name. */
  ghost predicate NameUnique(h: Heap, dir: NodeId, name: string)
    requires Valid(h) && IsDir(h, dir)
  {
    var files := h.nodes[dir].files;
    forall i, j :: 0 <= i < j < |files| && h.nodes[files[i]].name == name ==> h.nodes[files[j]].name != name
  }

  /** The arena once the first child called `name` has moved to the end of
      the children of `dir`. */
  function MovedToEnd(h: Heap, dir: NodeId, name: string): Heap
    requires Valid(h) && IsDir(h, dir) && HasChildNamed(h, dir, name)
  {
    var files := h.nodes[dir].files;
    var i := FirstNamed(h, files, name).value;
    Heap(h.nodes[dir := h.nodes[dir].(files := files[..i] + files[i + 1..] + [files[i]])], h.next)
  }

  /** With distinct names, no child is left with the detached file's name. */
  lemma {:induction false} DetachedNameGone(h: Heap, dir: NodeId, name: string)
    requires Valid(h) && IsDir(h, dir) && HasChildNamed(h, dir, name) && NameUnique(h, dir, name)
    ensures !HasChildNamed(RemoveFile(h, dir, name).value, dir, name)
  {
    var files := h.nodes[dir].files;
    var i := FirstNamed(h, files, name).value;
    var h1 := RemoveFile(h, dir, name).value;
    var rest := files[..i] + files[i + 1..];
    assert h1.nodes[dir].files == rest;
    forall j | 0 <= j < |rest| ensures h1.nodes[rest[j]].name != name {
      if j < i {
        assert rest[j] == files[j];
      } else {
        assert rest[j] == files[j + 1];
      }
    }
  }

  /** Re-attaching a detached file, when its name is unique among its old
      siblings, puts it back at the end of the directory. */
  lemma {:induction false} ReattachDetached(h: Heap, dir: NodeId, name: string)
    requires Valid(h) && IsDir(h, dir) && HasChildNamed(h, dir, name)
    requires NameUnique(h, dir, name) && ParentsAre(h, dir)
    ensures var f := GetFile(h, dir, name).value;
      var h1 := RemoveFile(h, dir, name).value;
      && IsDir(h1, dir) && f in h1.nodes && dir < f && h1.nodes[f] == h.nodes[f]
      && AddFile(h1, dir, f) == Success(MovedToEnd(h, dir, name))
  {
    var files := h.nodes[dir].files;
    var i := FirstNamed(h, files, name).value;
    var f := files[i];
    var h1 := RemoveFile(h, dir, name).value;
    DetachedNameGone(h, dir, name);
    var h3 := AddFile(h1, dir, f).value;
    assert Adopted(h.nodes[f], dir) == h.nodes[f];
    assert h1.nodes[dir].files == files[..i] + files[i + 1..];
    assert h3 == MovedToEnd(h, dir, name) by {
      assert h3.nodes.Keys == MovedToEnd(h, dir, name).nodes.Keys;
      forall k | k in h3.nodes ensures h3.nodes[k] == MovedToEnd(h, dir, name).nodes[k] {
      }
    }
  }

  /** The directory keeps its size when a child moves to its end. */
  lemma MovedKeepsDirSize(h: Heap, dir: NodeId, name: string)
    requires Valid(h) && IsDir(h, dir) && HasChildNamed(h, dir, name)
    requires NameUnique(h, dir, name) && ParentsAre(h, dir)
    ensures Valid(MovedToEnd(h, dir, name)) && Size(MovedToEnd(h, dir, name), dir) == Size(h, dir)
  {
    var f := GetFile(h, dir, name).value;
    var h1 := RemoveFile(h, dir, name).value;
    var h3 := MovedToEnd(h, dir, name);
    ReattachDetached(h, dir, name);
    assert Size(h3, dir) == Size(h1, dir) + Size(h1, f) by { AddFileSize(h1, dir, f); }
    assert Size(h1, dir) == Size(h, dir) - Size(h, f) by { RemoveFileSize(h, dir, name); }
    assert Size(h1, f) == Size(h, f) by { SizeFrame(h, h1, f); }
  }

  /** Moving a child to the end keeps the arena well formed. */
  lemma {:induction false} MovedToEndValid(h: Heap, dir: NodeId, name: string)
    requires Valid(h) && IsDir(h, dir) && HasChildNamed(h, dir, name)
    ensures Valid(MovedToEnd(h, dir, name)) && IsDir(MovedToEnd(h, dir, name), dir)
  {
    var files := h.nodes[dir].files;
    var i := FirstNamed(h, files, name).value;
    var h3 := MovedToEnd(h, dir, name);
    var moved := h3.nodes[dir].files;
    assert forall j :: 0 <= j < |moved| ==> moved[j] in files by {
      forall j | 0 <= j < |moved| ensures moved[j] in files {
        if j < i {
          assert moved[j] == files[j];
        } else if j < |files| - 1 {
          assert moved[j] == files[j + 1];
        }
      }
    }
    forall id | IsDir(h3, id) ensures ChildrenAbove(h3, id, h3.nodes[id].files) {
      if id != dir {
        assert h3.nodes[id] == h.nodes[id];
      }
    }
  }

  /** In the moved arena the file called `name` is the last child and no
      other child has its name, so detaching it drops the last entry. */
  lemma {:induction false} DetachFromMoved(h: Heap, dir: NodeId, name: string)
    requires Valid(h) && IsDir(h, dir) && HasChildNamed(h, dir, name) && NameUnique(h, dir, name)
    ensures var files := h.nodes[dir].files;
      var i := FirstNamed(h, files, name).value;
      var h3 := MovedToEnd(h, dir, name);
      && Valid(h3) && IsDir(h3, dir)
      && RemoveFile(h3, dir, name) == Success(Heap(h3.nodes[dir := h3.nodes[dir].(files := files[..i] + files[i + 1..])], h3.next))
  {
    var files := h.nodes[dir].files;
    var i := FirstNamed(h, files, name).value;
    var rest := files[..i] + files[i + 1..];
    var h3 := MovedToEnd(h, dir, name);
    MovedToEndValid(h, dir, name);
    assert forall j :: 0 <= j < |rest| ==> rest[j] in h3.nodes && h3.nodes[rest[j]].name != h3.nodes[files[i]].name by {
      forall j | 0 <= j < |rest| ensures rest[j] in h3.nodes && h3.nodes[rest[j]].name != h3.nodes[files[i]].name {
        if j < i {
          assert rest[j] == files[j];
        } else {
          assert rest[j] == files[j + 1];
        }
      }
    }
    RemoveLast(h3, dir, rest, files[i]);
  }

  /** Detaching the moved file again gives the arena it was detached from. */
  lemma {:induction false} DetachMoved(h: Heap, dir: NodeId, name: string)
    requires Valid(h) && IsDir(h, dir) && HasChildNamed(h, dir, name) && NameUnique(h, dir, name)
    ensures var h3 := MovedToEnd(h, dir, name);
      Valid(h3) && IsDir(h3, dir) && HasChildNamed(h3, dir, name)
      && RemoveFile(h3, dir, name) == RemoveFile(h, dir, name)
  {
    var files := h.nodes[dir].files;
    var i := FirstNamed(h, files, name).value;
    var rest := files[..i] + files[i + 1..];
    var h3 := MovedToEnd(h, dir, name);
    DetachFromMoved(h, dir, name);
    assert h3.nodes[dir := h3.nodes[dir].(files := rest)] == h.nodes[dir := h.nodes[dir].(files := rest)];
  }

  /** Moving a child to the end changes no size. */
  lemma {:induction false} MovedKeepsSizes(h: Heap, dir: NodeId, name: string, x: NodeId)
    requires Valid(h) && IsDir(h, dir) && HasChildNamed(h, dir, name)
    requires NameUnique(h, dir, name) && ParentsAre(h, dir) && x in h.nodes
    ensures Valid(MovedToEnd(h, dir, name)) && Size(MovedToEnd(h, dir, name), x) == Size(h, x)
  {
    var h3 := MovedToEnd(h, dir, name);
    MovedKeepsDirSize(h, dir, name);
    MovedToEndValid(h, dir, name);
    forall k | k != dir && k in h.nodes ensures k in h3.nodes && SameShape(h.nodes[k], h3.nodes[k]) {
      assert h3.nodes[k] == h.nodes[k];
    }
    SizeChangeAt(h, h3, dir, 0, x);
  }

  /** `Reattach` succeeds with a known result when `addFile` does and the
      root then fits. */
  lemma ReattachPasses(d: State, dir: NodeId, f: NodeId, h': Heap)
    requires Inv(d) && d.disk.Some? && IsDir(d.heap, dir) && f in d.heap.nodes && dir < f
    requires d.heap.nodes[f].Directory? ==> d.heap.nodes[f].parent == Some(dir)
    requires AddFile(d.heap, dir, f) == Success(h') && 0 in h'.nodes && Size(h', 0) <= d.disk.value.maxSize
    ensures Reattach(d, dir, f) == Reply(d.(heap := h'), Pass)
  {
  }

  /** `Detach` succeeds with a known result when `removeFile` does and the
      root then fits. */
  lemma DetachPasses(d: State, dir: NodeId, name: string, h': Heap)
    requires Inv(d) && d.disk.Some? && IsDir(d.heap, dir)
    requires RemoveFile(d.heap, dir, name) == Success(h') && 0 in h'.nodes && Size(h', 0) <= d.disk.value.maxSize
    ensures Detach(d, dir, name) == Reply(d.(heap := h'), Pass)
  {
  }

  /** Undoing a `DeleteCmd` re-attaches its file; written over the arena
      alone. */
  lemma UndoDeletePasses(d: State, dir: NodeId, f: NodeId, h': Heap)
    requires Inv(d) && d.disk.Some? && IsDir(d.heap, dir) && f in d.heap.nodes && dir < f
    requires d.heap.nodes[f].Directory? ==> d.heap.nodes[f].parent == Some(dir)
    requires AddFile(d.heap, dir, f) == Success(h') && 0 in h'.nodes && Size(h', 0) <= d.disk.value.maxSize
    ensures UndoAction(d, DeleteCmd(f, dir)) == Reply(d.(heap := h'), Pass)
  {
    ReattachPasses(d, dir, f, h');
  }

  /** Redoing a `DeleteCmd` detaches its file by its name; written over the
      arena alone. */
  lemma RedoDeletePasses(m: State, dir: NodeId, f: NodeId, h': Heap)
    requires Inv(m) && m.disk.Some? && IsDir(m.heap, dir) && f in m.heap.nodes && dir < f
    requires m.heap.nodes[f].Directory? ==> m.heap.nodes[f].parent == Some(dir)
    requires RemoveFile(m.heap, dir, m.heap.nodes[f].name) == Success(h') && 0 in h'.nodes
    requires Size(h', 0) <= m.disk.value.maxSize
    ensures RedoAction(m, DeleteCmd(f, dir)) == Reply(m.(heap := h'), Pass)
  {
    DetachPasses(m, dir, m.heap.nodes[f].name, h');
  }

  /** The undo step of a deletion: the file is re-attached at the end. */
  lemma {:induction false} UndoDeleted(s: State, name: string, d: State)
    requires Valid(s.heap) && IsDir(s.heap, s.cwd) && HasChildNamed(s.heap, s.cwd, name) && s.disk.Some?
    requires NameUnique(s.heap, s.cwd, name) && ParentsAre(s.heap, s.cwd)
    requires 0 in s.heap.nodes && Size(s.heap, 0) <= s.disk.value.maxSize
    requires d == s.(heap := RemoveFile(s.heap, s.cwd, name).value, redoStack := []) && Inv(d)
    ensures UndoAction(d, DeleteCmd(GetFile(s.heap, s.cwd, name).value, s.cwd))
         == Reply(s.(heap := MovedToEnd(s.heap, s.cwd, name), redoStack := []), Pass)
  {
    var f := GetFile(s.heap, s.cwd, name).value;
    var h3 := MovedToEnd(s.heap, s.cwd, name);
    assert f in d.heap.nodes && s.cwd < f && AddFile(d.heap, s.cwd, f) == Success(h3) by {
      ReattachDetached(s.heap, s.cwd, name);
    }
    assert 0 in h3.nodes && Size(h3, 0) <= s.disk.value.maxSize by {
      MovedKeepsSizes(s.heap, s.cwd, name, 0);
    }
    UndoDeletePasses(d, s.cwd, f, h3);
  }

  /** The redo step of a deletion: the moved file is detached again. */
  lemma {:induction false} RedoDeleted(s: State, name: string, m: State)
    requires Valid(s.heap) && IsDir(s.heap, s.cwd) && HasChildNamed(s.heap, s.cwd, name) && s.disk.Some?
    requires NameUnique(s.heap, s.cwd, name) && ParentsAre(s.heap, s.cwd) && 0 in s.heap.nodes
    requires Size(RemoveFile(s.heap, s.cwd, name).value, 0) <= s.disk.value.maxSize
    requires m == s.(heap := MovedToEnd(s.heap, s.cwd, name), redoStack := []) && Inv(m)
    ensures RedoAction(m, DeleteCmd(GetFile(s.heap, s.cwd, name).value, s.cwd))
         == Reply(s.(heap := RemoveFile(s.heap, s.cwd, name).value, redoStack := []), Pass)
  {
    var f := GetFile(s.heap, s.cwd, name).value;
    var h1 := RemoveFile(s.heap, s.cwd, name).value;
    assert f in m.heap.nodes && s.cwd < f && m.heap.nodes[f].name == name;
    assert RemoveFile(m.heap, s.cwd, name) == Success(h1) by {
      DetachMoved(s.heap, s.cwd, name);
    }
    RedoDeletePasses(m, s.cwd, f, h1);
  }

  /** Undoing `delete` right after it succeeded re-attaches the file, as the
      last child of the working directory rather than where it was; the sizes
      are as before. Redoing detaches it again and gives back the state after
      the `delete`. No other child may share the deleted file's name
      (otherwise the re-attach fails) and the disk must have been within capacity before the
      `delete` (otherwise the undo's capacity check fails). */
  lemma {:induction false} DeleteUndoRedo(s: State, tokens: seq<string>)
    requires Inv(s) && Delete(s, tokens).outcome.Pass?
    requires NameUnique(s.heap, s.cwd, tokens[1]) && RootSize(s) <= s.disk.value.maxSize
    ensures HasChildNamed(s.heap, s.cwd, tokens[1])
    ensures var t := Delete(s, tokens).state;
      && Undo(t) == Reply(s.(heap := MovedToEnd(s.heap, s.cwd, tokens[1]), redoStack := [Top(t.undoStack)]), Pass)
      && Redo(Undo(t).state) == Reply(t, Pass)
  {
    var name := tokens[1];
    var t := Delete(s, tokens).state;
    var c := DeleteCmd(GetFile(s.heap, s.cwd, name).value, s.cwd);
    var detached := s.(heap := RemoveFile(s.heap, s.cwd, name).value);
    var moved := s.(heap := MovedToEnd(s.heap, s.cwd, name), redoStack := []);
    assert ParentsAre(s.heap, s.cwd);
    assert t == Commit(detached, c);
    UndoTop(detached, c);
    UndoDeleted(s, name, detached.(redoStack := []));
    RedoTop(moved, c);
    RedoDeleted(s, name, moved);
  }

  // ---------------------------------------------------------------------------
  // The capacity check

  lemma MulNonNegative(p: int, q: int)
    requires p >= 0 && q >= 0
    ensures p * q >= 0
  {
  }

  /** Detaching never grows the root, so on a disk within capacity `delete`
      of an existing file always passes its capacity check. */
  lemma DeleteWithinCapacity(s: State, tokens: seq<string>)
    requires Inv(s) && s.disk.Some? && |tokens| == 2 && HasChildNamed(s.heap, s.cwd, tokens[1])
    requires RootSize(s) <= s.disk.value.maxSize
    ensures Delete(s, tokens).outcome.Pass? && Delete(s, tokens).state.disk.Some?
    ensures RootSize(Delete(s, tokens).state)
         == RootSize(s) - PathsTo(s.heap, 0, s.cwd) * Size(s.heap, GetFile(s.heap, s.cwd, tokens[1]).value)
  {
    RemoveFileSizes(s.heap, s.cwd, tokens[1], 0);
    MulNonNegative(PathsTo(s.heap, 0, s.cwd), Size(s.heap, GetFile(s.heap, s.cwd, tokens[1]).value));
  }

  /** Directly in the root, attaching a node grows the root by exactly the
      node's own size; `newDoc`/`newDir` then pass exactly when that size
      still fits. */
  lemma CreateAtRoot(s: State, n: Node)
    requires Creatable(s, n) && !HasChildNamed(s.heap, s.cwd, n.name) && s.cwd == 0
    ensures var t := Attached(s, n);
      && t.heap.nodes[0].files == s.heap.nodes[0].files + [s.heap.next] && t.heap.nodes[s.heap.next] == n
      && RootSize(t) == RootSize(s) + BaseFileSize + (if n.Document? then 2 * Text.Utf16Length(n.content) else 0)
      && Create(s, n) == if RootSize(t) <= s.disk.value.maxSize then Reply(Commit(t, CreatedCmd(n, s.heap.next, 0)), Pass)
                         else Reply(t, Fail(DiskSpaceExceeded))
  {
    CreateGrowsRoot(s, n);
    NoPathUpwardAll(s.heap, 0, s.heap.nodes[0].files, 0);
  }

  /** `newDoc` in the root of a loaded disk, for a fresh valid name: the
      document becomes the root's last child, the root grows by its size,
      and the command passes exactly when that still fits. */
  lemma NewDocAtRoot(s: State, name: string, docType: string, content: string)
    requires Inv(s) && s.disk.Some? && s.cwd == 0 && Text.IsValidName(name) && docType in AllowedDocTypes
    requires forall i :: 0 <= i < |s.heap.nodes[0].files| ==> s.heap.nodes[s.heap.nodes[0].files[i]].name != name
    ensures var r := NewDoc(s, ["newDoc", name, docType, content]);
      && r.state.disk == s.disk && r.state.cwd == 0
      && r.state.heap.nodes[0].files == s.heap.nodes[0].files + [s.heap.next]
      && r.state.heap.nodes[s.heap.next] == Document(name, docType, content)
      && (forall k :: k in s.heap.nodes && k != 0 ==> k in r.state.heap.nodes && r.state.heap.nodes[k] == s.heap.nodes[k])
      && r.state.heap.next == s.heap.next + 1
      && RootSize(r.state) == RootSize(s) + BaseFileSize + 2 * Text.Utf16Length(content)
      && (r.outcome.Pass? <==> RootSize(r.state) <= s.disk.value.maxSize)
      && (r.outcome.Fail? ==> r.outcome == Fail(DiskSpaceExceeded) && r.state.undoStack == s.undoStack)
  {
    var n := Document(name, docType, content);
    var tokens := ["newDoc", name, docType, content];
    assert tokens[1] == name && tokens[2] == docType && tokens[3] == content;
    assert NewDoc(s, tokens) == Create(s, n);
    CreateAtRoot(s, n);
    assert Create(s, n).state.heap == Attached(s, n).heap;
  }

  /** `newDir` in the root of a loaded disk, for a fresh valid name. */
  lemma NewDirAtRoot(s: State, name: string)
    requires Inv(s) && s.disk.Some? && s.cwd == 0 && Text.IsValidName(name)
    requires forall i :: 0 <= i < |s.heap.nodes[0].files| ==> s.heap.nodes[s.heap.nodes[0].files[i]].name != name
    ensures var r := NewDir(s, ["newDir", name]);
      && r.state.disk == s.disk && r.state.cwd == 0
      && r.state.heap.nodes[0].files == s.heap.nodes[0].files + [s.heap.next]
      && r.state.heap.nodes[s.heap.next] == Directory(name, Some(0), [])
      && (forall k :: k in s.heap.nodes && k != 0 ==> k in r.state.heap.nodes && r.state.heap.nodes[k] == s.heap.nodes[k])
      && r.state.heap.next == s.heap.next + 1
      && RootSize(r.state) == RootSize(s) + BaseFileSize
      && (r.outcome.Pass? <==> RootSize(r.state) <= s.disk.value.maxSize)
      && (r.outcome.Fail? ==> r.outcome == Fail(DiskSpaceExceeded) && r.state.undoStack == s.undoStack)
  {
    var n := Directory(name, Some(0), []);
    var tokens := ["newDir", name];
    assert tokens[1] == name;
    assert NewDir(s, tokens) == Create(s, n);
    CreateAtRoot(s, n);
  }

  /** The root of the scenario below holds children with exactly `names`
      and `size` is its size. */
  ghost predicate ScenarioRoot(s: State, names: seq<string>, size: int)
  {
    && Inv(s) && s.disk == Some(Disk(200, 0)) && s.cwd == 0
    && |s.heap.nodes[0].files| == |names|
    && (forall i :: 0 <= i < |names| ==> s.heap.nodes[s.heap.nodes[0].files[i]].name == names[i])
    && RootSize(s) == size
  }

  /** A fresh 200-byte disk: document "a" with content "hello" brings the
      root to 90, directory "d" to 130, and a document "b" whose content is
      100 UTF-16 code units long would bring it to 370. That last `newDoc`
      throws, yet "b" stays attached and nothing is logged. */
  lemma CapacityScenario(s: State, content: string)
    requires Inv(s) && Text.Utf16Length(content) == 100
    ensures var r1 := NewDisk(s, ["newDisk", "200"]);
      && r1.outcome.Pass? && ScenarioRoot(r1.state, [], 40)
      && ScenarioAfterDisk(r1.state, content)
  {
    assert Text.ParseInt("200") == Some(200) by {
      Text.ParseIntToString(200);
      assert Text.IntToString(200) == "200";
    }
    var s1 := NewDisk(s, ["newDisk", "200"]).state;
    ScenarioFirstDoc(s1, content);
  }

  ghost predicate ScenarioAfterDisk(s1: State, content: string)
    requires ScenarioRoot(s1, [], 40)
  {
    var r2 := NewDoc(s1, ["newDoc", "a", "txt", "hello"]);
    && r2.outcome.Pass? && ScenarioRoot(r2.state, ["a"], 90)
    && ScenarioAfterDoc(r2.state, content)
  }

  ghost predicate ScenarioAfterDoc(s2: State, content: string)
    requires ScenarioRoot(s2, ["a"], 90)
  {
    var r3 := NewDir(s2, ["newDir", "d"]);
    && r3.outcome.Pass? && ScenarioRoot(r3.state, ["a", "d"], 130)
    && ScenarioRejects(r3.state, content)
  }

  ghost predicate ScenarioRejects(s3: State, content: string)
    requires ScenarioRoot(s3, ["a", "d"], 130)
  {
    var r4 := NewDoc(s3, ["newDoc", "b", "txt", content]);
    && r4.outcome == Fail(DiskSpaceExceeded) && r4.state.undoStack == s3.undoStack
    && ScenarioRoot(r4.state, ["a", "d", "b"], 370)
  }

  lemma ScenarioFirstDoc(s1: State, content: string)
    requires ScenarioRoot(s1, [], 40) && Text.Utf16Length(content) == 100
    ensures ScenarioAfterDisk(s1, content)
  {
    assert Text.IsValidName("a");
    assert Text.Utf16Length("hello") == 5 by {
      Text.Utf16LengthBmp("hello");
      assert forall i :: 0 <= i < |"hello"| ==> "hello"[i] as int < 0x1_0000;
    }
    NewDocAtRoot(s1, "a", "txt", "hello");
    ScenarioDir(NewDoc(s1, ["newDoc", "a", "txt", "hello"]).state, content);
  }

  lemma ScenarioDir(s2: State, content: string)
    requires ScenarioRoot(s2, ["a"], 90) && Text.Utf16Length(content) == 100
    ensures ScenarioAfterDoc(s2, content)
  {
    assert Text.IsValidName("d");
    NewDirAtRoot(s2, "d");
    ScenarioSecondDoc(NewDir(s2, ["newDir", "d"]).state, content);
  }

  lemma ScenarioSecondDoc(s3: State, content: string)
    requires ScenarioRoot(s3, ["a", "d"], 130) && Text.Utf16Length(content) == 100
    ensures ScenarioRejects(s3, content)
  {
    assert Text.IsValidName("b");
    NewDocAtRoot(s3, "b", "txt", content);
  }
}
