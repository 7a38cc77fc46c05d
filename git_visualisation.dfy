/** The git visualisation: the working directory, the staging area and the
    commits of a repository, each shown as a list of file visuals whose
    status and diff are derived by comparing a file's blob in the tree of the
    visual's container with its blob in the container's parent tree.

    Trees map file identities to blob identities, so "the same blob
    instance" is equality of blob ids. The repository the visualisation
    drives is held here as its trees, its commit list and its head; what the
    repository does to its trees is modelled as described in README.md. */
module GitVisualisation {
  import opened Constants

  type FileId = nat
  type BlobId = nat

  /** A tree: at most one blob per file. */
  type Tree = map<FileId, BlobId>

  /** A commit of the repository: its frozen tree, its parent (an index
      into the commit list) and its checksum. */
  datatype Commit = Commit(tree: Tree, parent: Option<nat>, checksum: string)

  /** The containers a file visual can sit in. */
  datatype Container = WorkingDirectory | StagingArea | CommitVis(index: nat)

  /** A file visual: `id` stands for its object identity. */
  datatype FileVis = FileVis(id: nat, file: FileId)

  // ---------------------------------------------------------------------
  // Status and diff of one file visual

  /** `tree.get(file)` on a tree that may be null. */
  function BlobIn(tree: Option<Tree>, file: FileId): (b: Option<BlobId>)
    ensures b.Some? <==> tree.Some? && file in tree.value
    ensures b.Some? ==> b.value == tree.value[file]
  {
    if tree.Some? && file in tree.value then Some(tree.value[file]) else None
  }

  /** `status`: DELETED without a blob, ADDED without a parent blob,
      UNMODIFIED when both are the same blob, MODIFIED otherwise. */
  function FileStatus(blob: Option<BlobId>, parentBlob: Option<BlobId>): (s: Status)
    ensures s == Deleted <==> blob.None?
    ensures s == Added <==> blob.Some? && parentBlob.None?
    ensures s == Unmodified <==> blob.Some? && parentBlob == blob
    ensures s == Modified <==> blob.Some? && parentBlob.Some? && parentBlob != blob
  {
    if blob.None? then Deleted
    else if parentBlob.None? then Added
    else if blob == parentBlob then Unmodified
    else Modified
  }

  /** `diff`: no changes when either blob is missing; otherwise what the
      blob's own diff against the parent blob reports. */
  function FileDiff(blob: Option<BlobId>, parentBlob: Option<BlobId>, blobDiff: (BlobId, BlobId) -> Diff): (d: Diff)
    ensures blob.None? || parentBlob.None? ==> d == NoDiff
    ensures blob.Some? && parentBlob.Some? ==> d == blobDiff(blob.value, parentBlob.value)
  {
    if blob.None? || parentBlob.None? then NoDiff else blobDiff(blob.value, parentBlob.value)
  }

  /** `changes`: the total of a diff's two counters; for counters that are
      not negative, at least either of them and zero only for no diff. */
  function Changes(d: Diff): (r: int)
    ensures d.added >= 0 && d.removed >= 0 ==> r >= d.added && r >= d.removed
    ensures d.added >= 0 && d.removed >= 0 ==> (r == 0 <==> d == NoDiff)
  {
    d.added + d.removed
  }

  /** The largest of a non-empty list of change counts (`Math.max(...)`). */
  function MaxOf(s: seq<int>): (m: int)
    requires |s| > 0
    ensures m in s
    ensures forall x :: x in s ==> x <= m
  {
    if |s| == 1 then s[0]
    else
      var rest := MaxOf(s[1..]);
      assert forall x :: x in s[1..] ==> x in s;
      assert s == [s[0]] + s[1..];
      if s[0] >= rest then s[0] else rest
  }

  // ---------------------------------------------------------------------
  // `container`: the nearest ancestor that is a container

  /** The index of the first container in a chain of ancestors (parent
      first, then its parent, and so on), or None. */
  function NearestContainer(isContainer: seq<bool>): (k: Option<nat>)
    ensures k.Some? ==> k.value < |isContainer| && isContainer[k.value]
  {
    if isContainer == [] then None
    else if isContainer[0] then Some(0)
    else match NearestContainer(isContainer[1..])
      case None => None
      case Some(j) => Some(j + 1)
  }

  /** NearestContainer finds the first container, and finds none only when
      no ancestor is one. */
  lemma {:induction false} NearestContainerIsFirst(isContainer: seq<bool>)
    ensures var k := NearestContainer(isContainer);
      && (k.Some? ==> k.value < |isContainer| && isContainer[k.value]
                      && forall j :: 0 <= j < k.value ==> !isContainer[j])
      && (k.None? ==> forall j :: 0 <= j < |isContainer| ==> !isContainer[j])
  {
    if isContainer != [] && !isContainer[0] {
      NearestContainerIsFirst(isContainer[1..]);
    }
  }

  /** `container`: walk up the parents until one is a container. */
  method FindContainer(isContainer: seq<bool>) returns (k: Option<nat>)
    ensures k == NearestContainer(isContainer)
  {
    var i := 0;
    while i < |isContainer|
      invariant 0 <= i <= |isContainer|
      invariant NearestContainer(isContainer) == match NearestContainer(isContainer[i..])
                  case None => None
                  case Some(j) => Some(i + j)
    {
      assert isContainer[i..][1..] == isContainer[i + 1..];
      if isContainer[i] {
        return Some(i);
      }
      i := i + 1;
    }
    assert isContainer[i..] == [];
    return None;
  }

  // ---------------------------------------------------------------------
  // `files`: the union of the three trees' keys, in order

  /** `m` is the least element of `s`. */
  predicate IsLeast(m: nat, s: set<nat>)
  {
    m in s && forall x :: x in s ==> m <= x
  }

  lemma {:induction false} MinimumExists(s: set<nat>)
    requires s != {}
    ensures exists m :: IsLeast(m, s)
    decreases |s|
  {
    var y :| y in s;
    var rest := s - {y};
    if rest == {} {
      assert s == {y};
      assert IsLeast(y, s);
    } else {
      MinimumExists(rest);
      var m :| IsLeast(m, rest);
      var least := if y < m then y else m;
      forall x | x in s
        ensures least <= x
      {
        if x != y {
          assert x in rest;
        }
      }
      assert IsLeast(least, s);
    }
  }

  /** The least element of a non-empty set of identities. */
  function Minimum(s: set<nat>): (m: nat)
    requires s != {}
    ensures m in s && forall x :: x in s ==> m <= x
  {
    MinimumExists(s);
    var m :| IsLeast(m, s);
    m
  }

  /** Each identity is smaller than the next one. */
  ghost predicate Increasing(r: seq<nat>)
  {
    |r| <= 1 || (r[0] < r[1] && Increasing(r[1..]))
  }

  /** In an increasing list every identity is smaller than every later one,
      so none occurs twice. */
  lemma {:induction false} IncreasingOrdered(r: seq<nat>, i: nat, j: nat)
    requires Increasing(r)
    requires i < j < |r|
    ensures r[i] < r[j]
    decreases |r|
  {
    if i == 0 {
      if j > 1 {
        IncreasingOrdered(r[1..], 0, j - 1);
      }
    } else {
      IncreasingOrdered(r[1..], i - 1, j - 1);
    }
  }

  /** The elements of a set of identities in increasing order: none
      missing, none added. */
  function SortedIds(s: set<nat>): (r: seq<nat>)
    ensures forall x :: x in r <==> x in s
    ensures Increasing(r)
    decreases |s|
  {
    if s == {} then []
    else
      var m := Minimum(s);
      var rest := SortedIds(s - {m});
      assert rest != [] ==> rest[0] in s - {m};
      assert ([m] + rest)[1..] == rest;
      [m] + rest
  }

  // ---------------------------------------------------------------------
  // Lists of file visuals

  /** The visuals of file `f`, in list order (`filter(object.file === f)`). */
  function OfFile(vs: seq<FileVis>, f: FileId): (r: seq<FileVis>)
    ensures |r| <= |vs|
    ensures forall v :: v in r <==> v in vs && v.file == f
  {
    if vs == [] then []
    else (if vs[0].file == f then [vs[0]] else []) + OfFile(vs[1..], f)
  }

  /** The list without any visual of file `f` (`remove(...visFiles)`). */
  function WithoutFile(vs: seq<FileVis>, f: FileId): (r: seq<FileVis>)
    ensures |r| <= |vs|
    ensures forall v {:trigger v in r} :: v in r <==> v in vs && v.file != f
  {
    if vs == [] then []
    else (if vs[0].file != f then [vs[0]] else []) + WithoutFile(vs[1..], f)
  }

  /** Where the first visual of file `f` sits in the list, if any. */
  function FirstOf(vs: seq<FileVis>, f: FileId): (k: Option<nat>)
    ensures k.Some? ==> k.value < |vs| && vs[k.value].file == f
    ensures k.Some? ==> forall j :: 0 <= j < k.value ==> vs[j].file != f
    ensures k.None? ==> forall j :: 0 <= j < |vs| ==> vs[j].file != f
  {
    if vs == [] then None
    else if vs[0].file == f then Some(0)
    else match FirstOf(vs[1..], f)
      case None => None
      case Some(j) => Some(j + 1)
  }

  /** The list without its first visual of file `f`: what moving that
      visual to another list leaves behind. */
  function RemoveFirstOf(vs: seq<FileVis>, f: FileId): (r: seq<FileVis>)
    ensures OfFile(vs, f) == [] ==> r == vs
    ensures OfFile(vs, f) != [] ==> |r| == |vs| - 1
  {
    if vs == [] then []
    else if vs[0].file == f then vs[1..]
    else [vs[0]] + RemoveFirstOf(vs[1..], f)
  }

  /** Moving a visual out takes exactly the first visual of the file out of
      the list, keeping every other visual in its place. */
  lemma {:induction false} RemoveFirstOfSplices(vs: seq<FileVis>, f: FileId)
    ensures FirstOf(vs, f).Some? ==>
      RemoveFirstOf(vs, f) == vs[..FirstOf(vs, f).value] + vs[FirstOf(vs, f).value + 1..]
    ensures FirstOf(vs, f).None? ==> RemoveFirstOf(vs, f) == vs
  {
    if vs != [] && vs[0].file != f {
      RemoveFirstOfSplices(vs[1..], f);
      if FirstOf(vs[1..], f).Some? {
        var j := FirstOf(vs[1..], f).value;
        assert vs[..j + 1] == [vs[0]] + vs[1..][..j];
        assert vs[j + 2..] == vs[1..][j + 1..];
      } else {
        assert vs == [vs[0]] + vs[1..];
      }
    }
  }

  /** Moving the only visual of a file out of a list removes every visual
      of that file. */
  lemma {:induction false} RemoveOnlyVisual(vs: seq<FileVis>, f: FileId)
    requires |OfFile(vs, f)| == 1
    ensures RemoveFirstOf(vs, f) == WithoutFile(vs, f)
  {
    if vs[0].file == f {
      assert OfFile(vs, f) == [vs[0]] + OfFile(vs[1..], f);
      NoVisualLeft(vs[1..], f);
    } else {
      RemoveOnlyVisual(vs[1..], f);
    }
  }

  lemma {:induction false} NoVisualLeft(vs: seq<FileVis>, f: FileId)
    requires OfFile(vs, f) == []
    ensures WithoutFile(vs, f) == vs
  {
    if vs != [] {
      assert vs[0] in vs;
      NoVisualLeft(vs[1..], f);
    }
  }

  /** Removing every visual of a file leaves none of it. */
  lemma {:induction false} NoneLeftAfterRemoval(vs: seq<FileVis>, f: FileId)
    ensures OfFile(WithoutFile(vs, f), f) == []
  {
    if vs != [] {
      NoneLeftAfterRemoval(vs[1..], f);
      var w := WithoutFile(vs, f);
      if vs[0].file != f {
        assert w == [vs[0]] + WithoutFile(vs[1..], f);
        assert w[0].file != f && w[1..] == WithoutFile(vs[1..], f);
      } else {
        assert w == WithoutFile(vs[1..], f);
      }
    }
  }

  /** Appending a visual after one of the same file does not change which
      visual moves first. */
  lemma {:induction false} RemoveFirstAppend(vs: seq<FileVis>, v: FileVis, f: FileId)
    requires OfFile(vs, f) != []
    ensures RemoveFirstOf(vs + [v], f) == RemoveFirstOf(vs, f) + [v]
  {
    assert (vs + [v])[1..] == vs[1..] + [v];
    if vs[0].file != f {
      assert OfFile(vs, f) == OfFile(vs[1..], f);
      RemoveFirstAppend(vs[1..], v, f);
    }
  }

  /** Moving the first visual of a file out and then removing the rest of
      its visuals removes every visual of that file. */
  lemma {:induction false} RemoveFirstThenRest(vs: seq<FileVis>, f: FileId)
    ensures WithoutFile(RemoveFirstOf(vs, f), f) == WithoutFile(vs, f)
  {
    if vs != [] {
      if vs[0].file == f {
      } else {
        RemoveFirstThenRest(vs[1..], f);
        assert ([vs[0]] + RemoveFirstOf(vs[1..], f))[1..] == RemoveFirstOf(vs[1..], f);
      }
    }
  }

  /** The visuals whose file is in `s`, in list order. */
  function KeepFiles(vs: seq<FileVis>, s: set<FileId>): (r: seq<FileVis>)
    ensures forall v :: v in r <==> v in vs && v.file in s
  {
    if vs == [] then []
    else (if vs[0].file in s then [vs[0]] else []) + KeepFiles(vs[1..], s)
  }

  /** The visuals whose file is not in `s`, in list order. */
  function DropFiles(vs: seq<FileVis>, s: set<FileId>): (r: seq<FileVis>)
    ensures forall v {:trigger v in r} :: v in r <==> v in vs && v.file !in s
  {
    if vs == [] then []
    else (if vs[0].file !in s then [vs[0]] else []) + DropFiles(vs[1..], s)
  }

  /** Each filter keeps every copy of the visuals it selects and no copy of
      the others. */
  lemma {:induction false} OfFileMultiset(vs: seq<FileVis>, f: FileId)
    ensures forall v :: multiset(OfFile(vs, f))[v] == if v.file == f then multiset(vs)[v] else 0
  {
    if vs != [] {
      assert vs == [vs[0]] + vs[1..];
      OfFileMultiset(vs[1..], f);
    }
  }

  lemma {:induction false} WithoutFileMultiset(vs: seq<FileVis>, f: FileId)
    ensures forall v :: multiset(WithoutFile(vs, f))[v] == if v.file != f then multiset(vs)[v] else 0
  {
    if vs != [] {
      assert vs == [vs[0]] + vs[1..];
      WithoutFileMultiset(vs[1..], f);
    }
  }

  lemma {:induction false} KeepFilesMultiset(vs: seq<FileVis>, s: set<FileId>)
    ensures forall v :: multiset(KeepFiles(vs, s))[v] == if v.file in s then multiset(vs)[v] else 0
  {
    if vs != [] {
      assert vs == [vs[0]] + vs[1..];
      KeepFilesMultiset(vs[1..], s);
    }
  }

  lemma {:induction false} DropFilesMultiset(vs: seq<FileVis>, s: set<FileId>)
    ensures forall v :: multiset(DropFiles(vs, s))[v] == if v.file !in s then multiset(vs)[v] else 0
  {
    if vs != [] {
      assert vs == [vs[0]] + vs[1..];
      DropFilesMultiset(vs[1..], s);
    }
  }

  /** The filters keep list order: filtering a concatenation concatenates
      the filtered parts. */
  lemma {:induction false} OfFileConcat(a: seq<FileVis>, b: seq<FileVis>, f: FileId)
    ensures OfFile(a + b, f) == OfFile(a, f) + OfFile(b, f)
    decreases |a|
  {
    if a != [] {
      assert (a + b)[1..] == a[1..] + b;
      OfFileConcat(a[1..], b, f);
    } else {
      assert a + b == b;
    }
  }

  lemma {:induction false} WithoutFileConcat(a: seq<FileVis>, b: seq<FileVis>, f: FileId)
    ensures WithoutFile(a + b, f) == WithoutFile(a, f) + WithoutFile(b, f)
    decreases |a|
  {
    if a != [] {
      assert (a + b)[1..] == a[1..] + b;
      WithoutFileConcat(a[1..], b, f);
    } else {
      assert a + b == b;
    }
  }

  lemma {:induction false} KeepFilesConcat(a: seq<FileVis>, b: seq<FileVis>, s: set<FileId>)
    ensures KeepFiles(a + b, s) == KeepFiles(a, s) + KeepFiles(b, s)
    decreases |a|
  {
    if a != [] {
      assert (a + b)[1..] == a[1..] + b;
      KeepFilesConcat(a[1..], b, s);
    } else {
      assert a + b == b;
    }
  }

  lemma {:induction false} DropFilesConcat(a: seq<FileVis>, b: seq<FileVis>, s: set<FileId>)
    ensures DropFiles(a + b, s) == DropFiles(a, s) + DropFiles(b, s)
    decreases |a|
  {
    if a != [] {
      assert (a + b)[1..] == a[1..] + b;
      DropFilesConcat(a[1..], b, s);
    } else {
      assert a + b == b;
    }
  }

  /** The files a list of visuals shows. */
  function FilesOf(vs: seq<FileVis>): (s: set<FileId>)
    ensures forall f :: f in s <==> exists v :: v in vs && v.file == f
  {
    set v | v in vs :: v.file
  }

  /** New visuals for the files of `vs`, with consecutive identities from
      `start`. */
  function Copies(vs: seq<FileVis>, start: nat): (r: seq<FileVis>)
    ensures |r| == |vs|
    ensures forall i :: 0 <= i < |vs| ==> r[i] == FileVis(start + i, vs[i].file)
  {
    if vs == [] then [] else [FileVis(start, vs[0].file)] + Copies(vs[1..], start + 1)
  }

  /** `commits.find(commit => commit.checksum === checksum)`. */
  method FindByChecksum(commits: seq<Commit>, checksum: string) returns (k: Option<nat>)
    ensures k.Some? ==> k.value < |commits| && commits[k.value].checksum == checksum
    ensures k.Some? ==> forall j :: 0 <= j < k.value ==> commits[j].checksum != checksum
    ensures k.None? ==> forall j :: 0 <= j < |commits| ==> commits[j].checksum != checksum
  {
    var i := 0;
    while i < |commits|
      invariant 0 <= i <= |commits|
      invariant forall j :: 0 <= j < i ==> commits[j].checksum != checksum
    {
      if commits[i].checksum == checksum {
        return Some(i);
      }
      i := i + 1;
    }
    return None;
  }

  /** `getPosition` of a commit: how many rows it moves down, which is the
      number of commits shown after it. */
  function CommitRowOffset(commitCount: nat, index: nat): (r: int)
    requires index < commitCount
    ensures 0 <= r < commitCount
  {
    commitCount - (index + 1)
  }

  /** The newest commit is at the top, and every older commit sits strictly
      below every newer one. */
  lemma CommitRowsOrdered(commitCount: nat, i: nat, j: nat)
    requires i < j < commitCount
    ensures CommitRowOffset(commitCount, i) > CommitRowOffset(commitCount, j)
    ensures CommitRowOffset(commitCount, commitCount - 1) == 0
  {
  }


  // ---------------------------------------------------------------------
  // The repository the visualisation drives

  /** Every file and blob of a tree was created before the given counters. */
  ghost predicate Below(t: Tree, nextFile: nat, nextBlob: nat)
  {
    forall f :: f in t ==> f < nextFile && t[f] < nextBlob
  }

  /** The repository's working tree, staging tree, commits (oldest first)
      and head. */
  datatype Repo = Repo(workingTree: Tree, stagingTree: Tree, commits: seq<Commit>, head: Option<nat>)
  {
    /** A linear history whose head is the last commit; every file and blob
        in a tree was created before the given counters. */
    ghost predicate Valid(nextFile: nat, nextBlob: nat)
    {
      && head == (if commits == [] then None else Some(|commits| - 1))
      && (forall k :: 0 <= k < |commits| ==> commits[k].parent == (if k == 0 then None else Some(k - 1)))
      && Below(workingTree, nextFile, nextBlob) && Below(stagingTree, nextFile, nextBlob)
      && (forall k :: 0 <= k < |commits| ==> Below(commits[k].tree, nextFile, nextBlob))
    }

    /** The head commit's tree, or null without a head. */
    function HeadTree(): Option<Tree>
    {
      if head.Some? && head.value < |commits| then Some(commits[head.value].tree) else None
    }

    /** `tree` of a container. */
    function TreeOf(c: Container): (t: Option<Tree>)
      ensures c == WorkingDirectory ==> t == Some(workingTree)
      ensures c == StagingArea ==> t == Some(stagingTree)
      ensures c.CommitVis? ==> (t.Some? <==> c.index < |commits|)
      ensures c.CommitVis? && t.Some? ==> t.value == commits[c.index].tree
    {
      match c
      case WorkingDirectory => Some(workingTree)
      case StagingArea => Some(stagingTree)
      case CommitVis(k) => if k < |commits| then Some(commits[k].tree) else None
    }

    /** `parentTree` of a container. */
    function ParentTreeOf(c: Container): (t: Option<Tree>)
      ensures c == WorkingDirectory ==> t == TreeOf(StagingArea)
      ensures c == StagingArea ==> t == HeadTree()
      ensures c.CommitVis? ==>
        (t.Some? <==> c.index < |commits| && commits[c.index].parent.Some? && commits[c.index].parent.value < |commits|)
      ensures c.CommitVis? && t.Some? ==> t == TreeOf(CommitVis(commits[c.index].parent.value))
    {
      match c
      case WorkingDirectory => Some(stagingTree)
      case StagingArea => HeadTree()
      case CommitVis(k) =>
        if k < |commits| && commits[k].parent.Some? && commits[k].parent.value < |commits|
        then Some(commits[commits[k].parent.value].tree)
        else None
    }

    /** The status of a visual of `file` inside container `c`. */
    function StatusIn(c: Container, file: FileId): (s: Status)
      ensures s == Deleted <==> TreeOf(c).None? || file !in TreeOf(c).value
      ensures s == Added <==> TreeOf(c).Some? && file in TreeOf(c).value
                              && (ParentTreeOf(c).None? || file !in ParentTreeOf(c).value)
      ensures s == Unmodified <==> TreeOf(c).Some? && file in TreeOf(c).value
                                   && ParentTreeOf(c).Some? && file in ParentTreeOf(c).value
                                   && TreeOf(c).value[file] == ParentTreeOf(c).value[file]
    {
      FileStatus(BlobIn(TreeOf(c), file), BlobIn(ParentTreeOf(c), file))
    }

    /** The diff of a visual of `file` inside container `c`. */
    function DiffIn(c: Container, file: FileId, blobDiff: (BlobId, BlobId) -> Diff): (d: Diff)
      ensures StatusIn(c, file) == Added || StatusIn(c, file) == Deleted ==> d == NoDiff
      ensures StatusIn(c, file) == Unmodified ==> d == blobDiff(TreeOf(c).value[file], TreeOf(c).value[file])
    {
      FileDiff(BlobIn(TreeOf(c), file), BlobIn(ParentTreeOf(c), file), blobDiff)
    }

    /** A MODIFIED visual shows its blob's diff against the parent tree's
        blob: the only case with a real diff. */
    lemma DiffInModified(c: Container, file: FileId, blobDiff: (BlobId, BlobId) -> Diff)
      requires StatusIn(c, file) == Modified
      ensures DiffIn(c, file, blobDiff) == blobDiff(TreeOf(c).value[file], ParentTreeOf(c).value[file])
    {
    }

    /** In a valid repository the working directory is compared with the
        staging area, the staging area with the newest commit, the first
        commit with nothing and every later commit with its predecessor. */
    lemma ParentTrees(nextFile: nat, nextBlob: nat, k: nat)
      requires Valid(nextFile, nextBlob)
      requires k < |commits|
      ensures ParentTreeOf(WorkingDirectory) == TreeOf(StagingArea)
      ensures ParentTreeOf(StagingArea) == TreeOf(CommitVis(|commits| - 1))
      ensures ParentTreeOf(CommitVis(k)) == if k == 0 then None else TreeOf(CommitVis(k - 1))
    {
    }

    /** `files`: every file of the working tree, the staging tree and the
        head commit's tree, each once, in increasing order. */
    function Files(): (r: seq<FileId>)
      ensures forall f :: f in r <==>
        f in workingTree || f in stagingTree || (HeadTree().Some? && f in HeadTree().value)
      ensures Increasing(r)
    {
      var headKeys := if HeadTree().Some? then HeadTree().value.Keys else {};
      SortedIds(workingTree.Keys + stagingTree.Keys + headKeys)
    }

    /** `workingDirectory.addFile`: the working tree holds blob `b` for `f`. */
    function WithWorkingBlob(f: FileId, b: BlobId): Repo
    {
      this.(workingTree := workingTree[f := b])
    }

    /** `workingDirectory.removeFile`: the working tree drops `f`. */
    function WithoutWorking(f: FileId): Repo
    {
      this.(workingTree := workingTree - {f})
    }

    /** `stageFile`: the staging tree takes the working tree's entry for `f`,
        or drops its entry when the working tree has none. */
    function Staged(f: FileId): Repo
    {
      this.(stagingTree := if f in workingTree then stagingTree[f := workingTree[f]] else stagingTree - {f})
    }

    /** `unstageFile`: the staging tree takes the head commit's entry for
        `f` again, or drops its entry when the head has none. */
    function Unstaged(f: FileId): Repo
    {
      var h := HeadTree();
      this.(stagingTree := if h.Some? && f in h.value then stagingTree[f := h.value[f]] else stagingTree - {f})
    }

    /** `createCommit`: a commit of the staging tree whose parent is the
        head, which becomes the new head. */
    function Committed(checksum: string): Repo
    {
      this.(commits := commits + [Commit(stagingTree, head, checksum)], head := Some(|commits|))
    }

    /** `revertCommit(parent)`: the working tree becomes the parent commit's
        tree, or empty without a parent. */
    function RevertedTo(parent: Option<nat>): Repo
    {
      this.(workingTree := if parent.Some? && parent.value < |commits| then commits[parent.value].tree else map[])
    }

    /** A new blob for a file makes the working directory show it as ADDED
        or MODIFIED, and changes no other file's status anywhere. */
    lemma NewBlobShowsChange(nextFile: nat, nextBlob: nat, f: FileId)
      requires Valid(nextFile, nextBlob)
      ensures WithWorkingBlob(f, nextBlob).StatusIn(WorkingDirectory, f) in {Added, Modified}
      ensures forall c, g :: g != f ==> WithWorkingBlob(f, nextBlob).StatusIn(c, g) == StatusIn(c, g)
      ensures f < nextFile ==> WithWorkingBlob(f, nextBlob).Valid(nextFile, nextBlob + 1)
    {
      assert f in stagingTree ==> stagingTree[f] < nextBlob;
    }

    /** Removing a file from the working tree makes the working directory
        show it as DELETED and changes no other file's status anywhere. */
    lemma RemovedShowsDeleted(nextFile: nat, nextBlob: nat, f: FileId)
      requires Valid(nextFile, nextBlob)
      ensures WithoutWorking(f).Valid(nextFile, nextBlob)
      ensures WithoutWorking(f).StatusIn(WorkingDirectory, f) == Deleted
      ensures forall c, g :: g != f ==> WithoutWorking(f).StatusIn(c, g) == StatusIn(c, g)
    {
    }

    /** Staging a file makes the working directory show it as UNMODIFIED
        (DELETED when it left the working tree) and changes no other file's
        status anywhere. */
    lemma StagedIsClean(nextFile: nat, nextBlob: nat, f: FileId)
      requires Valid(nextFile, nextBlob)
      ensures Staged(f).Valid(nextFile, nextBlob)
      ensures Staged(f).StatusIn(WorkingDirectory, f) == if f in workingTree then Unmodified else Deleted
      ensures forall c, g :: g != f ==> Staged(f).StatusIn(c, g) == StatusIn(c, g)
    {
    }

    /** Unstaging a file makes the staging area show it as UNMODIFIED
        (DELETED when the head does not hold it) and changes no other file's
        status anywhere. */
    lemma UnstagedIsClean(nextFile: nat, nextBlob: nat, f: FileId)
      requires Valid(nextFile, nextBlob)
      ensures Unstaged(f).Valid(nextFile, nextBlob)
      ensures Unstaged(f).StatusIn(StagingArea, f) == if f in Unstaged(f).stagingTree then Unmodified else Deleted
      ensures forall c, g :: g != f ==> Unstaged(f).StatusIn(c, g) == StatusIn(c, g)
    {
      assert HeadTree().Some? ==> Below(HeadTree().value, nextFile, nextBlob);
    }

    /** After a commit the staging area shows nothing as ADDED or MODIFIED,
        the working directory and every older commit show what they did
        before, and the new commit shows what the staging area showed. */
    lemma CommittedIsClean(nextFile: nat, nextBlob: nat, checksum: string)
      requires Valid(nextFile, nextBlob)
      ensures Committed(checksum).Valid(nextFile, nextBlob)
      ensures forall f :: Committed(checksum).StatusIn(StagingArea, f) in {Unmodified, Deleted}
      ensures forall f :: Committed(checksum).StatusIn(WorkingDirectory, f) == StatusIn(WorkingDirectory, f)
      ensures forall f, k :: 0 <= k < |commits| ==>
                Committed(checksum).StatusIn(CommitVis(k), f) == StatusIn(CommitVis(k), f)
      ensures forall f :: Committed(checksum).StatusIn(CommitVis(|commits|), f) == StatusIn(StagingArea, f)
    {
    }

    /** Reverting to a commit of a valid repository keeps it valid. */
    lemma RevertedIsValid(nextFile: nat, nextBlob: nat, parent: Option<nat>)
      requires Valid(nextFile, nextBlob)
      ensures RevertedTo(parent).Valid(nextFile, nextBlob)
    {
    }
  }

  /** The changes of each visual of `vs` inside container `c`. */
  function ChangesOf(repo: Repo, c: Container, vs: seq<FileVis>, blobDiff: (BlobId, BlobId) -> Diff): (r: seq<int>)
    ensures |r| == |vs|
    ensures forall i :: 0 <= i < |vs| ==> r[i] == Changes(repo.DiffIn(c, vs[i].file, blobDiff))
  {
    if vs == [] then [] else [Changes(repo.DiffIn(c, vs[0].file, blobDiff))] + ChangesOf(repo, c, vs[1..], blobDiff)
  }

  /** The files whose visuals a new commit takes over from its parent `p`:
      those not deleted in the parent and not staged. */
  function CarriedFiles(repo: Repo, p: nat, staged: seq<FileVis>): (s: set<FileId>)
    requires p < |repo.commits|
    ensures forall f :: f in s <==> repo.StatusIn(CommitVis(p), f) != Deleted && f !in FilesOf(staged)
  {
    set f | f in repo.commits[p].tree && repo.StatusIn(CommitVis(p), f) != Deleted && f !in FilesOf(staged)
  }

  /** Nothing a new commit takes over from its parent shows a file that a
      staged visual shows too. */
  lemma CommitGroupsDisjoint(repo: Repo, p: nat, parentFiles: seq<FileVis>, staged: seq<FileVis>)
    requires p < |repo.commits|
    ensures forall v, w :: v in staged && w in KeepFiles(parentFiles, CarriedFiles(repo, p, staged))
              ==> v.file != w.file
  {
  }

  /** The files whose visuals in commit `k` show as UNMODIFIED. */
  function UnmodifiedFiles(repo: Repo, k: nat): (s: set<FileId>)
    requires k < |repo.commits|
    ensures forall f :: f in s <==> repo.StatusIn(CommitVis(k), f) == Unmodified
  {
    set f | f in repo.commits[k].tree && repo.StatusIn(CommitVis(k), f) == Unmodified
  }

  // ---------------------------------------------------------------------
  // The visualisation

  class GitVis {
    var repo: Repo

    // The visuals of the three areas: one list per commit, in commit order.
    var workingFiles: seq<FileVis>
    var stagedFiles: seq<FileVis>
    var commitFiles: seq<seq<FileVis>>

    // The identities the next new file, blob and visual receive.
    var nextFile: nat
    var nextBlob: nat
    var nextVis: nat

    /** The blob's own diff against another blob. */
    const blobDiff: (BlobId, BlobId) -> Diff

    /** A valid repository and one visual list per commit. */
    ghost predicate Valid()
      reads this
    {
      repo.Valid(nextFile, nextBlob) && |commitFiles| == |repo.commits|
    }

    constructor (blobDiff: (BlobId, BlobId) -> Diff)
      ensures Valid()
      ensures repo == Repo(map[], map[], [], None)
      ensures workingFiles == [] && stagedFiles == [] && commitFiles == []
      ensures this.blobDiff == blobDiff
    {
      repo := Repo(map[], map[], [], None);
      workingFiles, stagedFiles, commitFiles := [], [], [];
      nextFile, nextBlob, nextVis := 0, 0, 0;
      this.blobDiff := blobDiff;
    }

    /** The changes `maxChanges` compares: those of a commit's own visuals,
        or those of the staging area's and the working directory's. */
    function RelatedChanges(c: Container): (r: seq<int>)
      reads this
      ensures c.CommitVis? ==> |r| == if c.index < |commitFiles| then |commitFiles[c.index]| else 0
      ensures c.CommitVis? && c.index < |commitFiles| ==>
        forall i :: 0 <= i < |r| ==> r[i] == Changes(repo.DiffIn(c, commitFiles[c.index][i].file, blobDiff))
      ensures !c.CommitVis? ==> |r| == |stagedFiles| + |workingFiles|
      ensures !c.CommitVis? ==>
        forall i :: 0 <= i < |stagedFiles| ==> r[i] == Changes(repo.DiffIn(StagingArea, stagedFiles[i].file, blobDiff))
      ensures !c.CommitVis? ==>
        forall i :: 0 <= i < |workingFiles| ==>
          r[|stagedFiles| + i] == Changes(repo.DiffIn(WorkingDirectory, workingFiles[i].file, blobDiff))
    {
      match c
      case CommitVis(k) => if k < |commitFiles| then ChangesOf(repo, c, commitFiles[k], blobDiff) else []
      case _ => ChangesOf(repo, StagingArea, stagedFiles, blobDiff) + ChangesOf(repo, WorkingDirectory, workingFiles, blobDiff)
    }

    /** `maxChanges` of a visual in `c`: no related visual has more changes,
        and one has exactly as many. */
    function MaxChanges(c: Container): (m: int)
      reads this
      requires |RelatedChanges(c)| > 0
      ensures m in RelatedChanges(c)
      ensures forall x :: x in RelatedChanges(c) ==> x <= m
    {
      MaxOf(RelatedChanges(c))
    }

    /** `addFile`: a new file with a new blob enters the working tree and
        gets a visual in the working directory, where it shows as ADDED
        with an empty diff. */
    method AddFile() returns (file: FileId)
      requires Valid()
      modifies this
      ensures Valid()
      ensures file == old(nextFile) && file !in old(repo.Files())
      ensures repo == old(repo).WithWorkingBlob(file, old(nextBlob))
      ensures workingFiles == old(workingFiles) + [FileVis(old(nextVis), file)]
      ensures stagedFiles == old(stagedFiles) && commitFiles == old(commitFiles)
      ensures repo.StatusIn(WorkingDirectory, file) == Added
      ensures repo.DiffIn(WorkingDirectory, file, blobDiff) == NoDiff
    {
      file := nextFile;
      nextFile := nextFile + 1;
      repo.NewBlobShowsChange(nextFile, nextBlob, file);
      repo := repo.WithWorkingBlob(file, nextBlob);
      nextBlob := nextBlob + 1;
      workingFiles := workingFiles + [FileVis(nextVis, file)];
      nextVis := nextVis + 1;
    }

    /** `workingDirectory.fileList.add(new FileVisualisation(file))`. */
    method AppendVisual(file: FileId)
      modifies this
      ensures workingFiles == old(workingFiles) + [FileVis(old(nextVis), file)]
      ensures |OfFile(workingFiles, file)| == |OfFile(old(workingFiles), file)| + 1
      ensures nextVis == old(nextVis) + 1
      ensures repo == old(repo) && stagedFiles == old(stagedFiles) && commitFiles == old(commitFiles)
      ensures nextFile == old(nextFile) && nextBlob == old(nextBlob)
    {
      OfFileAppend(workingFiles, FileVis(nextVis, file));
      workingFiles := workingFiles + [FileVis(nextVis, file)];
      nextVis := nextVis + 1;
    }

    /** The first part of `stageFile`: a deleted file loses its
        working-directory visuals, and its staged ones when they show it as
        deleted; a file with a single visual gets a second one. */
    method ClearOrKeepShown(file: FileId, deleted: bool)
      requires deleted == (repo.StatusIn(WorkingDirectory, file) == Deleted)
      requires OfFile(workingFiles, file) != []
      modifies this
      ensures repo == old(repo) && commitFiles == old(commitFiles)
      ensures nextFile == old(nextFile) && nextBlob == old(nextBlob)
      ensures workingFiles == (
             if deleted then WithoutFile(old(workingFiles), file)
             else if |OfFile(old(workingFiles), file)| == 1
             then old(workingFiles) + [FileVis(old(nextVis), file)]
             else old(workingFiles))
      ensures stagedFiles ==
          if deleted && OfFile(old(stagedFiles), file) != [] && repo.StatusIn(StagingArea, file) == Deleted
          then WithoutFile(old(stagedFiles), file) else old(stagedFiles)
      ensures deleted ==> OfFile(workingFiles, file) == []
      ensures !deleted ==> |OfFile(workingFiles, file)| >= 2
    {
      var visFiles := OfFile(workingFiles, file);
      if deleted {
        NoneLeftAfterRemoval(workingFiles, file);
        workingFiles := WithoutFile(workingFiles, file);
        var stagedVisFiles := OfFile(stagedFiles, file);
        if |stagedVisFiles| > 0 && repo.StatusIn(StagingArea, file) == Deleted {
          stagedFiles := WithoutFile(stagedFiles, file);
        }
      } else if |visFiles| == 1 {
        AppendVisual(file);
      }
    }

    /** `stageFile`: the first working-directory visual of the file moves to
        the staging area. A deleted file loses all its working-directory
        visuals (and its deleted staged visuals); otherwise a file with one
        visual gets a new one to stay in the working directory. A deleted
        file that no commit shows disappears from the staging area too. */
    method StageFile(fileIndex: nat) returns (file: FileId)
      requires Valid()
      requires fileIndex < |repo.Files()|
      requires OfFile(workingFiles, repo.Files()[fileIndex]) != []
      modifies this
      ensures Valid()
      ensures file == old(repo.Files())[fileIndex]
      ensures repo == old(repo).Staged(file)
      ensures commitFiles == old(commitFiles)
      ensures var first := OfFile(old(workingFiles), file)[0];
        var deleted := old(repo.StatusIn(WorkingDirectory, file)) == Deleted;
        var stagedBefore :=
          if deleted && OfFile(old(stagedFiles), file) != [] && old(repo.StatusIn(StagingArea, file)) == Deleted
          then WithoutFile(old(stagedFiles), file) else old(stagedFiles);
        var staged := stagedBefore + [first];
        && workingFiles == (
             if deleted then WithoutFile(old(workingFiles), file)
             else if |OfFile(old(workingFiles), file)| == 1
             then RemoveFirstOf(old(workingFiles), file) + [FileVis(old(nextVis), file)]
             else RemoveFirstOf(old(workingFiles), file))
        && stagedFiles == (
             if !ShownInCommits(file) && repo.StatusIn(StagingArea, file) == Deleted then WithoutFile(staged, file)
             else staged)
      ensures repo.StatusIn(WorkingDirectory, file) == if file in repo.workingTree then Unmodified else Deleted
      ensures old(repo.StatusIn(WorkingDirectory, file)) == Deleted ==> OfFile(workingFiles, file) == []
      ensures old(repo.StatusIn(WorkingDirectory, file)) != Deleted ==> OfFile(workingFiles, file) != []
    {
      file := repo.Files()[fileIndex];
      var visFiles := OfFile(workingFiles, file);
      var first := visFiles[0];
      var deleted := repo.StatusIn(WorkingDirectory, file) == Deleted;
      ClearOrKeepShown(file, deleted);

      // The repository stages the file.
      repo.StagedIsClean(nextFile, nextBlob, file);
      repo := repo.Staged(file);

      if !deleted && |visFiles| == 1 {
        RemoveFirstAppend(old(workingFiles), FileVis(old(nextVis), file), file);
      }
      MoveFirstToStaging(file, first, deleted);
    }

    /** Whether any commit shows a visual of `file`. */
    predicate ShownInCommits(file: FileId)
      reads this
    {
      exists k :: 0 <= k < |commitFiles| && OfFile(commitFiles[k], file) != []
    }

    /** The second part of `stageFile`: the first visual moves into the
        staging area, whose visuals of the file all go when no commit shows
        it and the staging area shows it as deleted. */
    method MoveFirstToStaging(file: FileId, first: FileVis, deleted: bool)
      requires deleted ==> OfFile(workingFiles, file) == []
      requires !deleted ==> |OfFile(workingFiles, file)| >= 2
      modifies this
      ensures repo == old(repo) && commitFiles == old(commitFiles)
      ensures nextFile == old(nextFile) && nextBlob == old(nextBlob) && nextVis == old(nextVis)
      ensures workingFiles == RemoveFirstOf(old(workingFiles), file)
      ensures stagedFiles ==
        if !ShownInCommits(file) && repo.StatusIn(StagingArea, file) == Deleted
        then WithoutFile(old(stagedFiles) + [first], file) else old(stagedFiles) + [first]
      ensures deleted ==> OfFile(workingFiles, file) == []
      ensures !deleted ==> OfFile(workingFiles, file) != []
    {
      if !deleted {
        StillShown(workingFiles, file);
      }
      workingFiles := RemoveFirstOf(workingFiles, file);
      stagedFiles := stagedFiles + [first];
      if !ShownInCommits(file) && repo.StatusIn(StagingArea, file) == Deleted {
        stagedFiles := WithoutFile(stagedFiles, file);
      }
    }

    /** `unstageFile`: the first staged visual of the file moves back to the
        working directory and every other staged visual of it goes away. */
    method UnstageFile(fileIndex: nat) returns (file: FileId)
      requires Valid()
      requires fileIndex < |repo.Files()|
      requires OfFile(stagedFiles, repo.Files()[fileIndex]) != []
      modifies this
      ensures Valid()
      ensures file == old(repo.Files())[fileIndex]
      ensures repo == old(repo).Unstaged(file)
      ensures commitFiles == old(commitFiles)
      ensures workingFiles == old(workingFiles) + [OfFile(old(stagedFiles), file)[0]]
      ensures stagedFiles == WithoutFile(old(stagedFiles), file)
      ensures repo.StatusIn(StagingArea, file) == if file in repo.stagingTree then Unmodified else Deleted
    {
      file := repo.Files()[fileIndex];
      repo.UnstagedIsClean(nextFile, nextBlob, file);
      repo := repo.Unstaged(file);
      var stagedVisFiles := OfFile(stagedFiles, file);
      workingFiles := workingFiles + [stagedVisFiles[0]];
      ghost var all := stagedFiles;
      stagedFiles := RemoveFirstOf(stagedFiles, file);
      if |stagedVisFiles| > 1 {
        RemoveFirstThenRest(all, file);
        stagedFiles := WithoutFile(stagedFiles, file);
      } else {
        RemoveOnlyVisual(all, file);
      }
    }

    /** `deleteFile`: the file leaves the working tree; its working-directory
        visuals are removed only when it was newly ADDED. */
    method DeleteFile(fileIndex: nat) returns (file: FileId)
      requires Valid()
      requires fileIndex < |repo.Files()|
      requires OfFile(workingFiles, repo.Files()[fileIndex]) != []
      modifies this
      ensures Valid()
      ensures file == old(repo.Files())[fileIndex]
      ensures repo == old(repo).WithoutWorking(file)
      ensures workingFiles == if old(repo.StatusIn(WorkingDirectory, file)) == Added
                              then WithoutFile(old(workingFiles), file) else old(workingFiles)
      ensures stagedFiles == old(stagedFiles) && commitFiles == old(commitFiles)
      ensures repo.StatusIn(WorkingDirectory, file) == Deleted
    {
      file := repo.Files()[fileIndex];
      if repo.StatusIn(WorkingDirectory, file) == Added {
        workingFiles := WithoutFile(workingFiles, file);
      }
      // The repository removes the file from the working tree.
      repo.RemovedShowsDeleted(nextFile, nextBlob, file);
      repo := repo.WithoutWorking(file);
    }

    /** `modifyFile`: with no file at the index nothing happens and the
        result is undefined; otherwise the file gets a new blob in the
        working tree, so the working directory shows it as ADDED or
        MODIFIED and every other file as before. */
    method ModifyFile(fileIndex: int) returns (r: Option<FileId>)
      requires Valid()
      modifies this
      ensures Valid()
      ensures !(0 <= fileIndex < |old(repo.Files())|) ==> r == None && repo == old(repo)
      ensures 0 <= fileIndex < |old(repo.Files())| ==>
        r == Some(old(repo.Files())[fileIndex]) && repo == old(repo).WithWorkingBlob(r.value, old(nextBlob))
      ensures r.Some? ==> repo.StatusIn(WorkingDirectory, r.value) in {Added, Modified}
      ensures r.Some? ==> forall c, g :: g != r.value ==> repo.StatusIn(c, g) == old(repo.StatusIn(c, g))
      ensures workingFiles == old(workingFiles) && stagedFiles == old(stagedFiles)
      ensures commitFiles == old(commitFiles)
    {
      var files := repo.Files();
      if !(0 <= fileIndex < |files|) {
        return None;
      }
      var file := files[fileIndex];
      assert file in repo.workingTree || file in repo.stagingTree || (repo.HeadTree().Some? && file in repo.HeadTree().value);
      assert repo.HeadTree().Some? ==> Below(repo.HeadTree().value, nextFile, nextBlob);
      // The file gets a new blob, which the working tree takes.
      repo.NewBlobShowsChange(nextFile, nextBlob, file);
      repo := repo.WithWorkingBlob(file, nextBlob);
      nextBlob := nextBlob + 1;
      r := Some(file);
    }

    /** Append new visuals for the files of `vs` to commit `k`'s list, one
        at a time. */
    method AppendCopies(k: nat, vs: seq<FileVis>)
      requires k < |commitFiles|
      modifies this
      ensures commitFiles == old(commitFiles)[k := old(commitFiles)[k] + Copies(vs, old(nextVis))]
      ensures nextVis == old(nextVis) + |vs|
      ensures repo == old(repo) && workingFiles == old(workingFiles) && stagedFiles == old(stagedFiles)
      ensures nextFile == old(nextFile) && nextBlob == old(nextBlob)
    {
      var copies := Copies(vs, nextVis);
      ghost var start := commitFiles[k];
      for i := 0 to |vs|
        invariant nextVis == old(nextVis) + i
        invariant |commitFiles| == |old(commitFiles)|
        invariant forall j :: 0 <= j < |commitFiles| && j != k ==> commitFiles[j] == old(commitFiles)[j]
        invariant commitFiles[k] == start + copies[..i]
        invariant repo == old(repo) && workingFiles == old(workingFiles) && stagedFiles == old(stagedFiles)
        invariant nextFile == old(nextFile) && nextBlob == old(nextBlob)
      {
        assert copies[..i + 1] == copies[..i] + [FileVis(nextVis, vs[i].file)];
        commitFiles := commitFiles[k := commitFiles[k] + [FileVis(nextVis, vs[i].file)]];
        nextVis := nextVis + 1;
      }
      assert copies[..|vs|] == copies;
      assert commitFiles == old(commitFiles)[k := start + copies];
    }

    /** `createCommit`: the repository commits the staging tree. The new
        commit shows every staged visual, followed by the parent's visuals it
        carries over (none of them for a staged file); the parent keeps new
        visuals in their place and the staging area is left empty. */
    method CreateCommit(checksum: string) returns (k: nat)
      requires Valid()
      modifies this
      ensures Valid()
      ensures k == |old(repo.commits)|
      ensures repo == old(repo).Committed(checksum)
      ensures workingFiles == old(workingFiles) && stagedFiles == []
      ensures old(repo.head).None? ==> commitFiles == old(commitFiles) + [old(stagedFiles)]
      ensures old(repo.head).Some? ==>
        var p := old(repo.head).value;
        var carried := CarriedFiles(old(repo), p, old(stagedFiles));
        var taken := KeepFiles(old(commitFiles)[p], carried);
        && commitFiles == old(commitFiles)[p := DropFiles(old(commitFiles)[p], carried) + Copies(taken, old(nextVis))]
                          + [old(stagedFiles) + taken]
        && forall v, w :: v in old(stagedFiles) && w in taken ==> v.file != w.file
      ensures forall f :: repo.StatusIn(StagingArea, f) in {Unmodified, Deleted}
    {
      var staged := stagedFiles;
      var parent := repo.head;
      var before := repo;
      repo.CommittedIsClean(nextFile, nextBlob, checksum);
      repo := repo.Committed(checksum);
      k := |repo.commits| - 1;
      stagedFiles := [];
      if parent.Some? {
        var taken := TakeOverFromParent(before, parent.value, staged);
        commitFiles := commitFiles + [staged + taken];
      } else {
        commitFiles := commitFiles + [staged];
      }
    }

    /** The visuals a new commit takes over from its parent `p`: they move
        out of the parent's list, which gets new visuals for them at its
        end. */
    method TakeOverFromParent(before: Repo, p: nat, staged: seq<FileVis>) returns (taken: seq<FileVis>)
      requires p < |before.commits| && p < |commitFiles|
      modifies this
      ensures taken == KeepFiles(old(commitFiles)[p], CarriedFiles(before, p, staged))
      ensures commitFiles == old(commitFiles)[p := DropFiles(old(commitFiles)[p], CarriedFiles(before, p, staged))
                                                  + Copies(taken, old(nextVis))]
      ensures forall v, w :: v in staged && w in taken ==> v.file != w.file
      ensures repo == old(repo) && workingFiles == old(workingFiles) && stagedFiles == old(stagedFiles)
      ensures nextFile == old(nextFile) && nextBlob == old(nextBlob)
    {
      var carried := CarriedFiles(before, p, staged);
      taken := KeepFiles(commitFiles[p], carried);
      var dropped := DropFiles(commitFiles[p], carried);
      CommitGroupsDisjoint(before, p, commitFiles[p], staged);
      var shown := |commitFiles[p]|;
      AppendCopies(p, taken);
      commitFiles := commitFiles[p := dropped + commitFiles[p][shown..]];
    }

    /** `revertCommit`: with an unknown checksum nothing happens and the
        result is undefined. Otherwise the working directory shows exactly
        the commit's changed visuals (moved out of the commit, which gets new
        ones in their place) and the working tree is reset to the parent
        commit's tree; the staging area, the head and the history stay. */
    method RevertCommit(checksum: string) returns (r: Option<nat>)
      requires Valid()
      modifies this
      ensures Valid()
      ensures stagedFiles == old(stagedFiles)
      ensures r.None? ==> forall j :: 0 <= j < |repo.commits| ==> repo.commits[j].checksum != checksum
      ensures r.None? ==> repo == old(repo) && workingFiles == old(workingFiles) && commitFiles == old(commitFiles)
      ensures r.Some? ==> r.value < |old(repo.commits)| && old(repo.commits)[r.value].checksum == checksum
                          && forall j :: 0 <= j < r.value ==> old(repo.commits)[j].checksum != checksum
      ensures r.Some? ==>
        var k := r.value;
        var keep := UnmodifiedFiles(old(repo), k);
        var changed := DropFiles(old(commitFiles)[k], keep);
        && repo == old(repo).RevertedTo(old(repo.commits)[k].parent)
        && workingFiles == changed
        && commitFiles == old(commitFiles)[k := KeepFiles(old(commitFiles)[k], keep) + Copies(changed, old(nextVis))]
    {
      r := FindByChecksum(repo.commits, checksum);
      if r.None? {
        return;
      }
      var k := r.value;
      var keep := UnmodifiedFiles(repo, k);
      var changed := DropFiles(commitFiles[k], keep);
      var kept := KeepFiles(commitFiles[k], keep);
      var shown := |commitFiles[k]|;
      AppendCopies(k, changed);
      commitFiles := commitFiles[k := kept + commitFiles[k][shown..]];
      workingFiles := changed;
      // The repository resets the working tree to the commit's parent.
      repo.RevertedIsValid(nextFile, nextBlob, repo.commits[k].parent);
      repo := repo.RevertedTo(repo.commits[k].parent);
    }
  }

  /** A visual of `file` appended after an existing one keeps one shown
      once the first has moved away. */
  lemma {:induction false} StillShown(vs: seq<FileVis>, f: FileId)
    requires |OfFile(vs, f)| >= 2
    ensures OfFile(RemoveFirstOf(vs, f), f) != []
  {
    if vs[0].file == f {
      assert OfFile(vs, f) == [vs[0]] + OfFile(vs[1..], f);
      var w := OfFile(vs[1..], f)[0];
      assert w in vs[1..];
    } else {
      assert OfFile(vs, f) == OfFile(vs[1..], f);
      StillShown(vs[1..], f);
      var w := OfFile(RemoveFirstOf(vs[1..], f), f)[0];
      assert w in RemoveFirstOf(vs[1..], f);
      assert w in [vs[0]] + RemoveFirstOf(vs[1..], f);
    }
  }

  lemma {:induction false} OfFileAppend(vs: seq<FileVis>, v: FileVis)
    ensures OfFile(vs + [v], v.file) == OfFile(vs, v.file) + [v]
  {
    if vs == [] {
      assert [] + [v] == [v];
    } else {
      assert (vs + [v])[1..] == vs[1..] + [v];
      OfFileAppend(vs[1..], v);
    }
  }
}
