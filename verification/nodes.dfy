/** The file tree of CVFS.java: `File`, `Directory`, `Document` and the
    recursive, uncached `getSize`.

    Java objects are modelled as handles (`NodeId`) into an arena (`Heap`), so
    object identity and aliasing survive: a command can hold a node that is no
    longer reachable from the root, and a later `addFile` re-attaches that same
    node. A node only ever lives in the directory it was created in, and that
    directory was allocated before it; hence every child has a larger handle
    than its directory, which is what makes the recursive size well founded. */
module Nodes {
  import opened Wrappers
  import opened Errors
  import Text

  const BaseFileSize: int := 40
  const AllowedDocTypes: set<string> := {"txt", "java", "html", "css"}

  type NodeId = nat

  /** A `Document` or a `Directory`. Only directories carry a `parent`: in the
      source it is set for directories alone (constructor and `addFile`), and
      only `Directory.getParent` is ever read. */
  datatype Node =
    | Document(name: string, docType: string, content: string)
    | Directory(name: string, parent: Option<NodeId>, files: seq<NodeId>)

  /** Every node object ever allocated, and the next free handle. */
  datatype Heap = Heap(nodes: map<NodeId, Node>, next: NodeId)

  predicate IsDir(h: Heap, id: NodeId)
  {
    id in h.nodes && h.nodes[id].Directory?
  }

  /** Every entry of `files` is an allocated node younger than `owner`. */
  ghost predicate ChildrenAbove(h: Heap, owner: NodeId, files: seq<NodeId>)
  {
    forall i :: 0 <= i < |files| ==> files[i] in h.nodes && owner < files[i]
  }

  /** The parent of directory `id` is an older directory. Kept separate from
      `IsDir` so that `Valid` does not feed `IsDir` back into itself. */
  ghost predicate ParentAbove(h: Heap, id: NodeId, p: NodeId)
  {
    p < id && p in h.nodes && h.nodes[p].Directory?
  }

  ghost predicate Valid(h: Heap)
  {
    && (forall id :: id in h.nodes ==> id < h.next)
    && (forall id :: IsDir(h, id) ==> ChildrenAbove(h, id, h.nodes[id].files))
    && (forall id :: IsDir(h, id) && h.nodes[id].parent.Some? ==> ParentAbove(h, id, h.nodes[id].parent.value))
  }

  /** `new Document(...)` / `new Directory(...)`: a fresh handle. */
  function Alloc(h: Heap, n: Node): (r: Heap)
    requires Valid(h)
    requires n.Directory? ==> n.files == [] && (n.parent.Some? ==> IsDir(h, n.parent.value))
    ensures Valid(r) && r.next == h.next + 1
    ensures h.next !in h.nodes && r.nodes == h.nodes[h.next := n]
  {
    Heap(h.nodes[h.next := n], h.next + 1)
  }

  /** `getSize`: a document is 40 plus two per UTF-16 code unit of its
      content (`content.length() * 2`); a directory is 40 plus the sizes of
      its children, recomputed on every call. */
  function Size(h: Heap, id: NodeId): (r: int)
    requires Valid(h) && id in h.nodes
    ensures r >= BaseFileSize
    decreases h.next - id, 1
  {
    match h.nodes[id]
    case Document(_, _, content) => BaseFileSize + 2 * Text.Utf16Length(content)
    case Directory(_, _, files) => BaseFileSize + SizeOfAll(h, id, files)
  }

  /** The sum of the sizes of `files`, children of `owner`. */
  function SizeOfAll(h: Heap, owner: NodeId, files: seq<NodeId>): (r: int)
    requires Valid(h) && owner in h.nodes && ChildrenAbove(h, owner, files)
    ensures r >= BaseFileSize * |files|
    decreases h.next - owner, 0, |files|
  {
    if files == [] then 0
    else SizeOfAll(h, owner, files[..|files| - 1]) + Size(h, files[|files| - 1])
  }

  /** One more child summed by the loop of `getSize`. */
  lemma SizeOfAllStep(h: Heap, owner: NodeId, files: seq<NodeId>, i: nat)
    requires Valid(h) && owner in h.nodes && ChildrenAbove(h, owner, files) && i < |files|
    ensures ChildrenAbove(h, owner, files[..i]) && ChildrenAbove(h, owner, files[..i + 1])
    ensures SizeOfAll(h, owner, files[..i + 1]) == SizeOfAll(h, owner, files[..i]) + Size(h, files[i])
  {
    assert files[..i + 1][..i] == files[..i];
  }

  /** The index of the first of `files` named `name` (`getFile`'s
      `findFirst`, and the loop with `break` in `removeFile`). */
  function FirstNamed(h: Heap, files: seq<NodeId>, name: string): (r: Option<nat>)
    requires forall i :: 0 <= i < |files| ==> files[i] in h.nodes
    ensures r.Some? ==> r.value < |files| && h.nodes[files[r.value]].name == name
    ensures r.Some? ==> forall j :: 0 <= j < r.value ==> h.nodes[files[j]].name != name
    ensures r.None? ==> forall j :: 0 <= j < |files| ==> h.nodes[files[j]].name != name
  {
    if files == [] then None
    else if h.nodes[files[0]].name == name then Some(0)
    else match FirstNamed(h, files[1..], name)
      case None => None
      case Some(k) => Some(k + 1)
  }

  /** Some child of `dir` is named `name`. */
  ghost predicate HasChildNamed(h: Heap, dir: NodeId, name: string)
    requires Valid(h) && IsDir(h, dir)
  {
    exists i :: 0 <= i < |h.nodes[dir].files| && h.nodes[h.nodes[dir].files[i]].name == name
  }

  /** `Directory.getFile`: the first child with that name, or `null`. */
  function GetFile(h: Heap, dir: NodeId, name: string): (r: Option<NodeId>)
    requires Valid(h) && IsDir(h, dir)
    ensures r.Some? <==> HasChildNamed(h, dir, name)
    ensures r.Some? ==> r.value in h.nodes[dir].files && h.nodes[r.value].name == name && dir < r.value
  {
    var files := h.nodes[dir].files;
    match FirstNamed(h, files, name)
    case None => None
    case Some(i) => Some(files[i])
  }

  /** The node as `addFile` leaves it: a directory's `parent` is reset. */
  function Adopted(n: Node, dir: NodeId): Node
  {
    if n.Directory? then n.(parent := Some(dir)) else n
  }

  /** `Directory.addFile`: fails if any child already has the file's name;
      otherwise the file becomes the last child and, if it is a directory, its
      parent is set. */
  function AddFile(h: Heap, dir: NodeId, f: NodeId): (r: Result<Heap, Error>)
    requires Valid(h) && IsDir(h, dir) && f in h.nodes && dir < f
    ensures r.Failure? <==> HasChildNamed(h, dir, h.nodes[f].name)
    ensures r.Failure? ==> r.error == DuplicateFileName
    ensures r.Success? ==> Valid(r.value) && r.value.next == h.next && r.value.nodes.Keys == h.nodes.Keys
    ensures r.Success? ==> r.value.nodes[dir] == h.nodes[dir].(files := h.nodes[dir].files + [f])
    ensures r.Success? ==> r.value.nodes[f] == Adopted(h.nodes[f], dir)
    ensures r.Success? ==> forall k :: k in h.nodes && k != dir && k != f ==> r.value.nodes[k] == h.nodes[k]
  {
    var d := h.nodes[dir];
    if GetFile(h, dir, h.nodes[f].name).Some? then Failure(DuplicateFileName)
    else
      var h' := Heap(h.nodes[dir := d.(files := d.files + [f])][f := Adopted(h.nodes[f], dir)], h.next);
      assert forall id :: IsDir(h', id) ==> ChildrenAbove(h', id, h'.nodes[id].files) by {
        forall id | IsDir(h', id) ensures ChildrenAbove(h', id, h'.nodes[id].files) {
          if id != dir && id != f {
            assert h'.nodes[id] == h.nodes[id];
          }
        }
      }
      Success(h')
  }

  /** `Directory.removeFile`: drops the first child with that name, or fails
      with "File not found." when there is none. */
  function RemoveFile(h: Heap, dir: NodeId, name: string): (r: Result<Heap, Error>)
    requires Valid(h) && IsDir(h, dir)
    ensures r.Failure? <==> !HasChildNamed(h, dir, name)
    ensures r.Failure? ==> r.error == FileNotFound
    ensures r.Success? ==> Valid(r.value) && r.value.next == h.next && r.value.nodes.Keys == h.nodes.Keys
    ensures r.Success? ==>
      var files := h.nodes[dir].files;
      var i := FirstNamed(h, files, name).value;
      r.value.nodes == h.nodes[dir := h.nodes[dir].(files := files[..i] + files[i + 1..])]
  {
    var d := h.nodes[dir];
    match FirstNamed(h, d.files, name)
    case None => Failure(FileNotFound)
    case Some(i) =>
      var h' := Heap(h.nodes[dir := d.(files := d.files[..i] + d.files[i + 1..])], h.next);
      assert ChildrenAbove(h', dir, h'.nodes[dir].files) by {
        forall j | 0 <= j < |h'.nodes[dir].files|
          ensures h'.nodes[dir].files[j] in h'.nodes && dir < h'.nodes[dir].files[j]
        {
          if j < i {
            assert h'.nodes[dir].files[j] == d.files[j];
          } else {
            assert h'.nodes[dir].files[j] == d.files[j + 1];
          }
        }
      }
      Success(h')
  }

  /** `File.setName`: renames in place after checking the name pattern only;
      siblings are not consulted. */
  function SetName(h: Heap, f: NodeId, name: string): (r: Result<Heap, Error>)
    requires Valid(h) && f in h.nodes
    ensures r.Failure? <==> !Text.IsValidName(name)
    ensures r.Failure? ==> r.error == InvalidFileName
    ensures r.Success? ==> Valid(r.value) && r.value.next == h.next
    ensures r.Success? ==> r.value.nodes == h.nodes[f := h.nodes[f].(name := name)]
  {
    if !Text.IsValidName(name) then Failure(InvalidFileName)
    else Success(Heap(h.nodes[f := h.nodes[f].(name := name)], h.next))
  }

  // ---------------------------------------------------------------------------
  // Parent links

  /** Every directory among the children of `dir` records `dir` as its parent. */
  ghost predicate ParentsAre(h: Heap, dir: NodeId)
    requires Valid(h) && IsDir(h, dir)
  {
    var files := h.nodes[dir].files;
    forall j :: 0 <= j < |files| && h.nodes[files[j]].Directory? ==> h.nodes[files[j]].parent == Some(dir)
  }

  /** Every directory listed by a directory has that directory as its parent:
      `addFile` is what lists a file, and it sets the parent of a directory. */
  ghost predicate Linked(h: Heap)
    requires Valid(h)
  {
    forall d :: IsDir(h, d) ==> ParentsAre(h, d)
  }

  /** A new node is listed nowhere and lists nothing. */
  lemma AllocKeepsLinked(h: Heap, n: Node)
    requires Valid(h) && Linked(h)
    requires n.Directory? ==> n.files == [] && (n.parent.Some? ==> IsDir(h, n.parent.value))
    ensures Linked(Alloc(h, n))
  {
    var h' := Alloc(h, n);
    forall d | IsDir(h', d) ensures ParentsAre(h', d) {
      if d != h.next {
        assert ParentsAre(h, d);
        var files := h.nodes[d].files;
        forall j | 0 <= j < |files| ensures files[j] != h.next {
          assert files[j] in h.nodes;
        }
      }
    }
  }

  /** `addFile` keeps the links when the added directory, if it is one,
      already names `dir` as its parent: then it is listed by no other
      directory. */
  lemma AddFileKeepsLinked(h: Heap, dir: NodeId, f: NodeId)
    requires Valid(h) && Linked(h) && IsDir(h, dir) && f in h.nodes && dir < f
    requires h.nodes[f].Directory? ==> h.nodes[f].parent == Some(dir)
    requires AddFile(h, dir, f).Success?
    ensures Linked(AddFile(h, dir, f).value)
  {
    var h' := AddFile(h, dir, f).value;
    forall d | IsDir(h', d) ensures ParentsAre(h', d) {
      assert ParentsAre(h, d);
      var files := h'.nodes[d].files;
      forall j | 0 <= j < |files| && h'.nodes[files[j]].Directory?
        ensures h'.nodes[files[j]].parent == Some(d)
      {
        if d == dir && j == |files| - 1 {
          assert files[j] == f;
        } else {
          assert files[j] == h.nodes[d].files[j];
        }
      }
    }
  }

  /** `removeFile` only shortens one list of children. */
  lemma RemoveFileKeepsLinked(h: Heap, dir: NodeId, name: string)
    requires Valid(h) && Linked(h) && IsDir(h, dir) && RemoveFile(h, dir, name).Success?
    ensures Linked(RemoveFile(h, dir, name).value)
  {
    var h' := RemoveFile(h, dir, name).value;
    var i := FirstNamed(h, h.nodes[dir].files, name).value;
    forall d | IsDir(h', d) ensures ParentsAre(h', d) {
      assert ParentsAre(h, d);
      var files := h'.nodes[d].files;
      forall j | 0 <= j < |files| && h'.nodes[files[j]].Directory?
        ensures h'.nodes[files[j]].parent == Some(d)
      {
        if d == dir && j >= i {
          assert files[j] == h.nodes[d].files[j + 1];
        } else {
          assert files[j] == h.nodes[d].files[j];
        }
      }
    }
  }

  /** `setName` touches neither lists of children nor parents. */
  lemma SetNameKeepsLinked(h: Heap, f: NodeId, name: string)
    requires Valid(h) && Linked(h) && f in h.nodes && SetName(h, f, name).Success?
    ensures Linked(SetName(h, f, name).value)
  {
    var h' := SetName(h, f, name).value;
    forall d | IsDir(h', d) ensures ParentsAre(h', d) {
      assert ParentsAre(h, d);
    }
  }

  // ---------------------------------------------------------------------------
  // Size accounting

  /** Two nodes that `getSize` cannot tell apart locally: documents with
      contents of the same UTF-16 length, or directories with the same children. */
  predicate SameShape(a: Node, b: Node)
  {
    || (a.Document? && b.Document? && Text.Utf16Length(a.content) == Text.Utf16Length(b.content))
    || (a.Directory? && b.Directory? && a.files == b.files)
  }

  /** The number of ways to walk down from `x` to `d` through `files` lists;
      in a tree, 1 when `d` is `x` or lies below it, and 0 otherwise. */
  function PathsTo(h: Heap, x: NodeId, d: NodeId): (n: nat)
    requires Valid(h) && x in h.nodes
    decreases h.next - x, 1
  {
    (if x == d then 1 else 0) +
    match h.nodes[x]
    case Document(_, _, _) => 0
    case Directory(_, _, files) => PathsToAll(h, x, files, d)
  }

  function PathsToAll(h: Heap, owner: NodeId, files: seq<NodeId>, d: NodeId): (n: nat)
    requires Valid(h) && owner in h.nodes && ChildrenAbove(h, owner, files)
    decreases h.next - owner, 0, |files|
  {
    if files == [] then 0
    else PathsToAll(h, owner, files[..|files| - 1], d) + PathsTo(h, files[|files| - 1], d)
  }

  /** Sizes depend only on the shapes of the node and of what lies below it. */
  lemma {:induction false} SizeFrame(h1: Heap, h2: Heap, x: NodeId)
    requires Valid(h1) && Valid(h2) && x in h1.nodes
    requires forall k :: x <= k && k in h1.nodes ==> k in h2.nodes && SameShape(h1.nodes[k], h2.nodes[k])
    ensures x in h2.nodes && Size(h1, x) == Size(h2, x)
    decreases h1.next - x, 1
  {
    if h1.nodes[x].Directory? {
      SizeOfAllFrame(h1, h2, x, h1.nodes[x].files);
    }
  }

  lemma {:induction false} SizeOfAllFrame(h1: Heap, h2: Heap, owner: NodeId, files: seq<NodeId>)
    requires Valid(h1) && Valid(h2) && owner in h1.nodes && owner in h2.nodes
    requires ChildrenAbove(h1, owner, files)
    requires forall k :: owner < k && k in h1.nodes ==> k in h2.nodes && SameShape(h1.nodes[k], h2.nodes[k])
    ensures ChildrenAbove(h2, owner, files) && SizeOfAll(h1, owner, files) == SizeOfAll(h2, owner, files)
    decreases h1.next - owner, 0, |files|
  {
    if files != [] {
      SizeOfAllFrame(h1, h2, owner, files[..|files| - 1]);
      SizeFrame(h1, h2, files[|files| - 1]);
    }
  }

  /** Path counts, like sizes, depend only on what lies below the node. */
  lemma {:induction false} PathsToFrame(h1: Heap, h2: Heap, x: NodeId, d: NodeId)
    requires Valid(h1) && Valid(h2) && x in h1.nodes
    requires forall k :: x <= k && k in h1.nodes ==> k in h2.nodes && SameShape(h1.nodes[k], h2.nodes[k])
    ensures x in h2.nodes && PathsTo(h1, x, d) == PathsTo(h2, x, d)
    decreases h1.next - x, 1
  {
    if h1.nodes[x].Directory? {
      PathsToAllFrame(h1, h2, x, h1.nodes[x].files, d);
    }
  }

  lemma {:induction false} PathsToAllFrame(h1: Heap, h2: Heap, owner: NodeId, files: seq<NodeId>, d: NodeId)
    requires Valid(h1) && Valid(h2) && owner in h1.nodes && owner in h2.nodes
    requires ChildrenAbove(h1, owner, files)
    requires forall k :: owner < k && k in h1.nodes ==> k in h2.nodes && SameShape(h1.nodes[k], h2.nodes[k])
    ensures ChildrenAbove(h2, owner, files) && PathsToAll(h1, owner, files, d) == PathsToAll(h2, owner, files, d)
    decreases h1.next - owner, 0, |files|
  {
    if files != [] {
      PathsToAllFrame(h1, h2, owner, files[..|files| - 1], d);
      PathsToFrame(h1, h2, files[|files| - 1], d);
    }
  }

  /** Allocating a node changes no size and no path count: nothing refers to it yet. */
  lemma AllocFrame(h: Heap, n: Node, x: NodeId, d: NodeId)
    requires Valid(h) && x in h.nodes
    requires n.Directory? ==> n.files == [] && (n.parent.Some? ==> IsDir(h, n.parent.value))
    ensures Size(Alloc(h, n), x) == Size(h, x) && PathsTo(Alloc(h, n), x, d) == PathsTo(h, x, d)
  {
    SizeFrame(h, Alloc(h, n), x);
    PathsToFrame(h, Alloc(h, n), x, d);
  }

  lemma {:induction false} SizeOfAllAppend(h: Heap, owner: NodeId, a: seq<NodeId>, b: seq<NodeId>)
    requires Valid(h) && owner in h.nodes && ChildrenAbove(h, owner, a) && ChildrenAbove(h, owner, b)
    ensures ChildrenAbove(h, owner, a + b)
    ensures SizeOfAll(h, owner, a + b) == SizeOfAll(h, owner, a) + SizeOfAll(h, owner, b)
    decreases |b|
  {
    if b == [] {
      assert a + b == a;
    } else {
      SizeOfAllAppend(h, owner, a, b[..|b| - 1]);
      assert (a + b)[..|a + b| - 1] == a + b[..|b| - 1];
    }
  }

  /** A child younger than `d` cannot lead back down to `d`. */
  lemma {:induction false} NoPathUpward(h: Heap, x: NodeId, d: NodeId)
    requires Valid(h) && x in h.nodes && d < x
    ensures PathsTo(h, x, d) == 0
    decreases h.next - x, 1
  {
    if h.nodes[x].Directory? {
      NoPathUpwardAll(h, x, h.nodes[x].files, d);
    }
  }

  lemma {:induction false} NoPathUpwardAll(h: Heap, owner: NodeId, files: seq<NodeId>, d: NodeId)
    requires Valid(h) && owner in h.nodes && ChildrenAbove(h, owner, files) && d <= owner
    ensures PathsToAll(h, owner, files, d) == 0
    decreases h.next - owner, 0, |files|
  {
    if files != [] {
      NoPathUpwardAll(h, owner, files[..|files| - 1], d);
      NoPathUpward(h, files[|files| - 1], d);
    }
  }

  /** If only node `d` changes shape and its size changes by `delta`, every
      node's size changes by `delta` once per path from it down to `d`. */
  lemma {:induction false} SizeChangeAt(h: Heap, h': Heap, d: NodeId, delta: int, x: NodeId)
    requires Valid(h) && Valid(h') && x in h.nodes && d in h.nodes && d in h'.nodes
    requires forall k :: k != d && k in h.nodes ==> k in h'.nodes && SameShape(h.nodes[k], h'.nodes[k])
    requires Size(h', d) == Size(h, d) + delta
    ensures x in h'.nodes && Size(h', x) == Size(h, x) + PathsTo(h, x, d) * delta
    decreases h.next - x, 1
  {
    if d < x {
      SizeFrame(h, h', x);
      NoPathUpward(h, x, d);
    } else if x == d {
      if h.nodes[d].Directory? {
        NoPathUpwardAll(h, d, h.nodes[d].files, d);
      }
    } else if h.nodes[x].Directory? {
      var files := h.nodes[x].files;
      assert h'.nodes[x].files == files;
      SizeChangeAtAll(h, h', d, delta, x, files);
      assert PathsTo(h, x, d) == PathsToAll(h, x, files, d);
    } else {
      assert PathsTo(h, x, d) == 0;
    }
  }

  lemma {:induction false} SizeChangeAtAll(h: Heap, h': Heap, d: NodeId, delta: int, owner: NodeId, files: seq<NodeId>)
    requires Valid(h) && Valid(h') && owner in h.nodes && owner in h'.nodes && d in h.nodes && d in h'.nodes
    requires ChildrenAbove(h, owner, files) && owner < d
    requires forall k :: k != d && k in h.nodes ==> k in h'.nodes && SameShape(h.nodes[k], h'.nodes[k])
    requires Size(h', d) == Size(h, d) + delta
    ensures ChildrenAbove(h', owner, files)
    ensures SizeOfAll(h', owner, files) == SizeOfAll(h, owner, files) + PathsToAll(h, owner, files, d) * delta
    decreases h.next - owner, 0, |files|
  {
    if files != [] {
      var init, last := files[..|files| - 1], files[|files| - 1];
      var p, q := PathsToAll(h, owner, init, d), PathsTo(h, last, d);
      SizeChangeAtAll(h, h', d, delta, owner, init);
      SizeChangeAt(h, h', d, delta, last);
      Distribute(p, q, delta);
      assert PathsToAll(h, owner, files, d) == p + q;
    }
  }

  lemma Distribute(p: int, q: int, delta: int)
    ensures (p + q) * delta == p * delta + q * delta
  {
  }

  /** `addFile` grows the directory by exactly the size of the added file. */
  lemma AddFileSize(h: Heap, dir: NodeId, f: NodeId)
    requires Valid(h) && IsDir(h, dir) && f in h.nodes && dir < f && AddFile(h, dir, f).Success?
    ensures Size(AddFile(h, dir, f).value, dir) == Size(h, dir) + Size(h, f)
  {
    var h' := AddFile(h, dir, f).value;
    var files := h.nodes[dir].files;
    assert (files + [f])[..|files|] == files;
    SizeOfAllFrame(h, h', dir, files);
    SizeFrame(h, h', f);
  }

  /** Attaching `f` to `dir` grows every node by `Size(f)` per path down to `dir`. */
  lemma AddFileSizes(h: Heap, dir: NodeId, f: NodeId, x: NodeId)
    requires Valid(h) && IsDir(h, dir) && f in h.nodes && dir < f && AddFile(h, dir, f).Success?
    requires x in h.nodes
    ensures Size(AddFile(h, dir, f).value, x) == Size(h, x) + PathsTo(h, x, dir) * Size(h, f)
  {
    AddFileSize(h, dir, f);
    SizeChangeAt(h, AddFile(h, dir, f).value, dir, Size(h, f), x);
  }

  /** Dropping the entry `x` from the middle of the children of `dir`, and
      changing nothing else, shrinks `dir` by the size of `x`. */
  lemma {:induction false} DropChildSize(h: Heap, h': Heap, dir: NodeId, a: seq<NodeId>, x: NodeId, b: seq<NodeId>)
    requires Valid(h) && Valid(h') && IsDir(h, dir) && IsDir(h', dir)
    requires h.nodes[dir].files == a + [x] + b && h'.nodes[dir].files == a + b
    requires forall k :: dir < k && k in h.nodes ==> k in h'.nodes && h'.nodes[k] == h.nodes[k]
    ensures x in h.nodes && Size(h', dir) == Size(h, dir) - Size(h, x)
  {
    var files := a + [x] + b;
    assert ChildrenAbove(h, dir, files);
    assert files[|a|] == x;
    assert x in h.nodes && dir < x;
    assert ChildrenAbove(h, dir, a + [x]) by {
      forall i | 0 <= i < |a| + 1 ensures (a + [x])[i] == files[i] { }
    }
    assert ChildrenAbove(h, dir, b) by {
      forall i | 0 <= i < |b| ensures b[i] == files[|a| + 1 + i] { }
    }
    assert SizeOfAll(h, dir, files) == SizeOfAll(h, dir, a) + Size(h, x) + SizeOfAll(h, dir, b) by {
      assert (a + [x])[..|a|] == a;
      assert SizeOfAll(h, dir, a + [x]) == SizeOfAll(h, dir, a) + Size(h, x);
      SizeOfAllAppend(h, dir, a + [x], b);
    }
    assert SizeOfAll(h', dir, a + b) == SizeOfAll(h, dir, a) + SizeOfAll(h, dir, b) by {
      assert ChildrenAbove(h, dir, a);
      SizeOfAllAppend(h, dir, a, b);
      SizeOfAllFrame(h, h', dir, a + b);
    }
  }

  /** `removeFile` shrinks the directory by exactly the size of the removed file. */
  lemma RemoveFileSize(h: Heap, dir: NodeId, name: string)
    requires Valid(h) && IsDir(h, dir) && RemoveFile(h, dir, name).Success?
    ensures GetFile(h, dir, name).Some?
    ensures Size(RemoveFile(h, dir, name).value, dir) == Size(h, dir) - Size(h, GetFile(h, dir, name).value)
  {
    var h' := RemoveFile(h, dir, name).value;
    var files := h.nodes[dir].files;
    var i := FirstNamed(h, files, name).value;
    assert files == files[..i] + [files[i]] + files[i + 1..];
    DropChildSize(h, h', dir, files[..i], files[i], files[i + 1..]);
  }

  /** Detaching a file shrinks every node by its size per path down to `dir`. */
  lemma RemoveFileSizes(h: Heap, dir: NodeId, name: string, x: NodeId)
    requires Valid(h) && IsDir(h, dir) && RemoveFile(h, dir, name).Success? && x in h.nodes
    ensures GetFile(h, dir, name).Some?
    ensures Size(RemoveFile(h, dir, name).value, x) == Size(h, x) - PathsTo(h, x, dir) * Size(h, GetFile(h, dir, name).value)
  {
    RemoveFileSize(h, dir, name);
    var h' := RemoveFile(h, dir, name).value;
    var s := Size(h, GetFile(h, dir, name).value);
    SizeChangeAt(h, h', dir, -s, x);
    Negate(PathsTo(h, x, dir), s);
  }

  lemma Negate(p: int, s: int)
    ensures p * -s == -(p * s)
  {
  }

  /** Renaming never changes a size (sizes need no invalidation on rename). */
  lemma SetNameKeepsSizes(h: Heap, f: NodeId, name: string, x: NodeId)
    requires Valid(h) && f in h.nodes && SetName(h, f, name).Success? && x in h.nodes
    ensures Size(SetName(h, f, name).value, x) == Size(h, x)
  {
    SizeFrame(h, SetName(h, f, name).value, x);
  }
}
