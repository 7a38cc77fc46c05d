/** The "Versioning in Git" chapter: working-directory files that the learner
    modifies, deletes and stages, a staging list of their copies, and a
    repository of commits, each a list of file copies with a link to its
    parent. The handlers below are the chapter's actions.

    The file visuals' own `copy`, `merge`, `reset`, `revert`, `modified` and
    `findCopies` are not part of this model; they are given the small
    meanings documented at each definition (README.md lists them). */
module VersioningInGit {
  import opened Constants

  const AlreadyStaged: string := "File already staged."
  const NotStageable: string := "Only modified files can be staged."

  /** A file visual of the chapter. `origin` identifies the file it is a
      copy of (what `findCopies` matches); `insertions` and `deletions` are
      its line counters, and the baseline is where they stood at its last
      reset. */
  datatype VFile = VFile(
    origin: nat,
    status: Status,
    insertions: int,
    deletions: int,
    visible: bool,
    baseInsertions: int,
    baseDeletions: int)

  /** A commit: its file copies and the index of its parent commit. */
  datatype VCommit = VCommit(files: seq<VFile>, parent: Option<nat>)

  /** `modified`: the counters moved since the last reset, that is, taking
      the counters as the new baseline would change the file. */
  predicate IsModified(f: VFile): (b: bool)
    ensures !b <==> f.(baseInsertions := f.insertions, baseDeletions := f.deletions) == f
  {
    f.insertions != f.baseInsertions || f.deletions != f.baseDeletions
  }

  /** `new VisualisationFile()`: an added, visible file with no changes. */
  function NewFile(origin: nat): (f: VFile)
    ensures f.origin == origin && f.status == Added && f.visible && !IsModified(f)
  {
    VFile(origin, Added, 0, 0, true, 0, 0)
  }

  /** `reset()`: the counters become the new baseline, so the file is no
      longer modified; nothing else changes. */
  function Reset(f: VFile): (r: VFile)
    ensures !IsModified(r)
    ensures r.origin == f.origin && r.status == f.status && r.visible == f.visible
  {
    f.(baseInsertions := f.insertions, baseDeletions := f.deletions)
  }

  /** `reset(src)`: the file takes the status, counters and baseline of
      `src`, so it is modified exactly when `src` is. */
  function ResetFrom(f: VFile, src: VFile): (r: VFile)
    ensures r.origin == f.origin && r.visible == f.visible
    ensures r.status == src.status && (IsModified(r) <==> IsModified(src))
  {
    f.(status := src.status, insertions := src.insertions, deletions := src.deletions,
       baseInsertions := src.baseInsertions, baseDeletions := src.baseDeletions)
  }

  /** `merge(src)` and `revert(src)`: the file takes the status and the
      counters of `src` and keeps its own baseline. */
  function WithContentOf(f: VFile, src: VFile): (r: VFile)
    ensures r.origin == f.origin && r.visible == f.visible
    ensures r.status == src.status && r.insertions == src.insertions && r.deletions == src.deletions
  {
    f.(status := src.status, insertions := src.insertions, deletions := src.deletions)
  }

  // ---------------------------------------------------------------------
  // Copies of a file

  /** The origins of a list of files, in list order. */
  function Origins(s: seq<VFile>): (r: seq<nat>)
    ensures |r| == |s|
    ensures forall k :: 0 <= k < |s| ==> r[k] == s[k].origin
  {
    seq(|s|, k requires 0 <= k < |s| => s[k].origin)
  }

  /** The first position of `o` in `os`. */
  function FirstIndex(os: seq<nat>, o: nat): (r: Option<nat>)
    ensures r.Some? ==> r.value < |os| && os[r.value] == o
    ensures r.Some? ==> forall j :: 0 <= j < r.value ==> os[j] != o
    ensures r.None? <==> o !in os
  {
    if os == [] then None
    else if os[0] == o then Some(0)
    else match FirstIndex(os[1..], o)
      case None => assert forall x :: x in os ==> x == os[0] || x in os[1..]; None
      case Some(j) => Some(j + 1)
  }

  /** `findCopies(file)[0]`: the position of the first copy of the file
      with the given origin, or None. */
  function FirstCopy(s: seq<VFile>, origin: nat): Option<nat>
  {
    FirstIndex(Origins(s), origin)
  }

  /** FirstCopy finds the first file with the origin, and finds none only
      when no file has it. */
  lemma FirstCopyIsFirst(s: seq<VFile>, origin: nat)
    ensures var r := FirstCopy(s, origin);
      && (r.Some? ==> r.value < |s| && s[r.value].origin == origin
                      && forall j :: 0 <= j < r.value ==> s[j].origin != origin)
      && (r.None? <==> forall j :: 0 <= j < |s| ==> s[j].origin != origin)
  {
    if FirstCopy(s, origin).None? {
      forall j | 0 <= j < |s|
        ensures s[j].origin != origin
      {
        assert Origins(s)[j] == s[j].origin;
      }
    }
  }

  /** No origin occurs twice. */
  ghost predicate Distinct(os: seq<nat>)
  {
    forall i, j :: 0 <= i < j < |os| ==> os[i] != os[j]
  }

  /** Every file of `s` is a copy of one of the origins `os`. */
  ghost predicate Covered(s: seq<VFile>, os: seq<nat>)
  {
    forall o :: o in Origins(s) ==> o in os
  }

  // ---------------------------------------------------------------------
  // The staging list's order

  /** The sort key of a staged file: the working-directory index of the
      first file of its origin. */
  function Key(os: seq<nat>, origin: nat): int
  {
    match FirstIndex(os, origin)
    case Some(i) => i
    case None => -1
  }

  /** Two different origins of the working directory have different keys. */
  lemma {:induction false} KeyInjective(os: seq<nat>, a: nat, b: nat)
    requires a in os && b in os && a != b
    ensures Key(os, a) != Key(os, b)
  {
  }

  /** The staging list is in strictly increasing key order. */
  ghost predicate SortedBy(s: seq<VFile>, os: seq<nat>)
  {
    |s| <= 1 || (Key(os, s[0].origin) < Key(os, s[1].origin) && SortedBy(s[1..], os))
  }

  lemma {:induction false} SortedKeysIncrease(s: seq<VFile>, os: seq<nat>, i: nat, j: nat)
    requires SortedBy(s, os)
    requires i < j < |s|
    ensures Key(os, s[i].origin) < Key(os, s[j].origin)
    decreases |s|
  {
    if i == 0 {
      if j > 1 {
        SortedKeysIncrease(s[1..], os, 0, j - 1);
      }
    } else {
      SortedKeysIncrease(s[1..], os, i - 1, j - 1);
    }
  }

  /** A sorted staging list holds at most one copy of each file. */
  lemma {:induction false} SortedIsDistinct(s: seq<VFile>, os: seq<nat>)
    requires SortedBy(s, os)
    ensures Distinct(Origins(s))
  {
    forall i, j | 0 <= i < j < |s|
      ensures Origins(s)[i] != Origins(s)[j]
    {
      SortedKeysIncrease(s, os, i, j);
    }
  }

  /** Sortedness depends only on the origins of the list. */
  lemma {:induction false} SortedSameOrigins(s: seq<VFile>, t: seq<VFile>, os: seq<nat>)
    requires Origins(s) == Origins(t)
    requires SortedBy(s, os)
    ensures SortedBy(t, os)
    decreases |s|
  {
    if |s| > 1 {
      assert s[0].origin == Origins(s)[0] && t[0].origin == Origins(t)[0];
      assert s[1].origin == Origins(s)[1] && t[1].origin == Origins(t)[1];
      assert Origins(s[1..]) == Origins(s)[1..] && Origins(t[1..]) == Origins(t)[1..];
      SortedSameOrigins(s[1..], t[1..], os);
    }
  }

  /** `sortBy` after appending `x` to a sorted list: `x` goes after every
      file whose key is not larger. */
  function Insert(x: VFile, s: seq<VFile>, os: seq<nat>): (r: seq<VFile>)
    ensures |r| == |s| + 1
    ensures multiset(r) == multiset(s) + multiset{x}
  {
    if s == [] then [x]
    else if Key(os, x.origin) < Key(os, s[0].origin) then [x] + s
    else
      assert s == [s[0]] + s[1..];
      [s[0]] + Insert(x, s[1..], os)
  }

  /** Inserting a file whose key no staged file has keeps the list sorted. */
  lemma {:induction false} InsertSorted(x: VFile, s: seq<VFile>, os: seq<nat>)
    requires SortedBy(s, os)
    requires forall f :: f in s ==> Key(os, f.origin) != Key(os, x.origin)
    ensures SortedBy(Insert(x, s, os), os)
    ensures Insert(x, s, os)[0] == x || Insert(x, s, os)[0] == s[0]
  {
    if s != [] && Key(os, x.origin) >= Key(os, s[0].origin) {
      var rest := Insert(x, s[1..], os);
      InsertSorted(x, s[1..], os);
      assert Insert(x, s, os) == [s[0]] + rest;
      assert ([s[0]] + rest)[1..] == rest;
      if |s| > 1 {
        assert rest[0] == x || rest[0] == s[1];
      }
    }
  }

  /** Removing one file keeps the staging list sorted. */
  lemma {:induction false} RemoveSorted(s: seq<VFile>, i: nat, os: seq<nat>)
    requires SortedBy(s, os)
    requires i < |s|
    ensures SortedBy(s[..i] + s[i + 1..], os)
    decreases |s|
  {
    if i == 0 {
      assert s[..0] + s[1..] == s[1..];
    } else {
      RemoveSorted(s[1..], i - 1, os);
      var rest := s[1..][..i - 1] + s[1..][i..];
      assert s[..i] + s[i + 1..] == [s[0]] + rest;
      assert ([s[0]] + rest)[1..] == rest;
      if rest != [] {
        if i == 1 {
          assert rest[0] == s[2];
          SortedKeysIncrease(s, os, 0, 2);
        } else {
          assert rest[0] == s[1];
        }
      }
    }
  }

  // ---------------------------------------------------------------------
  // Staging

  /** The working directory and the staging list. */
  datatype Areas = Areas(working: seq<VFile>, staged: seq<VFile>)

  /** Every staged file is a copy of a working-directory file, and the
      staging list follows the working directory's order. */
  ghost predicate AreasValid(a: Areas)
  {
    Covered(a.staged, Origins(a.working)) && SortedBy(a.staged, Origins(a.working))
  }

  /** Either rejection condition of the staging policy holds for the
      working-directory file at `i`. */
  predicate Rejected(a: Areas, i: nat)
    requires i < |a.working|
  {
    var file := a.working[i];
    !IsModified(file)
    && (FirstCopy(a.staged, file.origin).Some? || (file.status != Added && file.status != Deleted))
  }

  /** The staging policy of `stageFile`, for the working-directory file at
      `i`: "File already staged." when a staged copy exists and the file is
      unmodified; "Only modified files can be staged." when it is neither
      ADDED nor DELETED and unmodified; otherwise its copy is added to the
      staging list in working-directory order, or merged into the staged
      copy, and the file is reset, or hidden when DELETED. */
  function StagePolicy(a: Areas, i: nat): (r: Result<Areas>)
    requires i < |a.working|
    ensures r == Err(AlreadyStaged) <==>
      FirstCopy(a.staged, a.working[i].origin).Some? && !IsModified(a.working[i])
    ensures r == Err(NotStageable) <==>
      FirstCopy(a.staged, a.working[i].origin).None? && !IsModified(a.working[i])
      && a.working[i].status != Added && a.working[i].status != Deleted
    ensures r.Err? ==> r == Err(AlreadyStaged) || r == Err(NotStageable)
    ensures r.Err? <==> Rejected(a, i)
    ensures r.Ok? ==> |r.value.working| == |a.working| && Origins(r.value.working) == Origins(a.working)
  {
    var file := a.working[i];
    var copy := FirstCopy(a.staged, file.origin);
    if copy.Some? && !IsModified(file) then Err(AlreadyStaged)
    else if file.status != Added && file.status != Deleted && !IsModified(file) then Err(NotStageable)
    else
      var staged :=
        if copy.None? then Insert(file, a.staged, Origins(a.working))
        else a.staged[copy.value := WithContentOf(a.staged[copy.value], file)];
      var after := if file.status != Deleted then Reset(file) else file.(visible := false);
      assert Origins(a.working[i := after]) == Origins(a.working);
      Ok(Areas(a.working[i := after], staged))
  }

  /** A successful staging: the file's copy is staged, carrying its status
      and counters; a new copy is the one file the list gains, a merged one
      keeps the list's length; the file itself is reset (so unmodified) or,
      when DELETED, hidden; no other working-directory file changes; and
      the areas stay valid. */
  lemma {:induction false} StageEffects(a: Areas, i: nat)
    requires AreasValid(a)
    requires i < |a.working|
    requires StagePolicy(a, i).Ok?
    ensures var b := StagePolicy(a, i).value; var file := a.working[i];
      && AreasValid(b)
      && (forall j :: 0 <= j < |a.working| && j != i ==> b.working[j] == a.working[j])
      && b.working[i].origin == file.origin && b.working[i].status == file.status
      && (file.status != Deleted ==> !IsModified(b.working[i]) && b.working[i].visible == file.visible)
      && (file.status == Deleted ==> !b.working[i].visible && IsModified(b.working[i]) == IsModified(file))
      && (FirstCopy(a.staged, file.origin).None? ==> multiset(b.staged) == multiset(a.staged) + multiset{file})
      && (FirstCopy(a.staged, file.origin).Some? ==> |b.staged| == |a.staged|)
      && FirstCopy(b.staged, file.origin).Some?
      && var c := b.staged[FirstCopy(b.staged, file.origin).value];
         c.status == file.status && c.insertions == file.insertions && c.deletions == file.deletions
  {
    var file := a.working[i];
    var os := Origins(a.working);
    assert file.origin in os by { assert os[i] == file.origin; }
    var copy := FirstCopy(a.staged, file.origin);
    if copy.None? {
      InsertEffects(a.staged, file, os);
    } else {
      assert a.staged[copy.value].origin == file.origin by {
        assert Origins(a.staged)[copy.value] == file.origin;
      }
      MergeEffects(a.staged, copy.value, file, os);
    }
  }

  /** Staging a new copy: the list stays sorted and covered, and the first
      copy of the file's origin is the file itself. */
  lemma {:induction false} InsertEffects(staged: seq<VFile>, file: VFile, os: seq<nat>)
    requires Covered(staged, os) && SortedBy(staged, os)
    requires file.origin in os && file.origin !in Origins(staged)
    ensures var s := Insert(file, staged, os);
      && Covered(s, os) && SortedBy(s, os)
      && FirstCopy(s, file.origin).Some? && s[FirstCopy(s, file.origin).value] == file
  {
    var s := Insert(file, staged, os);
    forall f | f in staged
      ensures Key(os, f.origin) != Key(os, file.origin)
    {
      var k :| 0 <= k < |staged| && staged[k] == f;
      assert Origins(staged)[k] == f.origin;
      KeyInjective(os, f.origin, file.origin);
    }
    InsertSorted(file, staged, os);
    assert file in multiset(s);
    forall o | o in Origins(s)
      ensures o in os
    {
      var k :| 0 <= k < |s| && Origins(s)[k] == o;
      assert s[k] in multiset(staged) + multiset{file};
      if s[k] != file {
        var m :| 0 <= m < |staged| && staged[m] == s[k];
        assert Origins(staged)[m] == o;
      }
    }
    SortedIsDistinct(s, os);
    FirstFromMember(s, file);
  }

  /** Merging into the staged copy at `j`: the list keeps its origins, so it
      stays sorted and covered, and `j` stays the first copy. */
  lemma {:induction false} MergeEffects(staged: seq<VFile>, j: nat, file: VFile, os: seq<nat>)
    requires Covered(staged, os) && SortedBy(staged, os)
    requires j < |staged| && FirstCopy(staged, file.origin) == Some(j)
    requires staged[j].origin == file.origin
    ensures var s := staged[j := WithContentOf(staged[j], file)];
      && Covered(s, os) && SortedBy(s, os)
      && FirstCopy(s, file.origin) == Some(j)
  {
    var s := staged[j := WithContentOf(staged[j], file)];
    assert Origins(s) == Origins(staged);
    SortedSameOrigins(staged, s, os);
  }

  /** A file that is in a list has a first copy there, with its origin. */
  lemma {:induction false} FirstFromMember(s: seq<VFile>, f: VFile)
    requires f in s
    ensures FirstCopy(s, f.origin).Some?
    ensures var c := s[FirstCopy(s, f.origin).value];
      c.origin == f.origin && (Distinct(Origins(s)) ==> c == f)
  {
    var k :| 0 <= k < |s| && s[k] == f;
    assert Origins(s)[k] == f.origin;
  }

  /** Staging an undeleted file a second time, with no change in between,
      fails with "File already staged.". */
  lemma {:induction false} StagingTwiceFails(a: Areas, i: nat)
    requires AreasValid(a)
    requires i < |a.working|
    requires StagePolicy(a, i).Ok?
    requires a.working[i].status != Deleted
    ensures StagePolicy(StagePolicy(a, i).value, i) == Err(AlreadyStaged)
  {
    StageEffects(a, i);
  }

  /** `stageAllFiles` as a specification: the staging policy applied to the
      working-directory files from `i` on, in order, skipping every file it
      rejects. */
  function StageAllFrom(a: Areas, i: nat): (r: Areas)
    requires i <= |a.working|
    ensures |r.working| == |a.working| && Origins(r.working) == Origins(a.working)
    decreases |a.working| - i
  {
    if i == |a.working| then a
    else StageAllFrom(StageOrSkip(a, i), i + 1)
  }

  /** One step of `stageAllFiles`: the areas after staging the file at `i`,
      or unchanged when the policy rejects it. */
  function StageOrSkip(a: Areas, i: nat): (r: Areas)
    requires i < |a.working|
    ensures |r.working| == |a.working| && Origins(r.working) == Origins(a.working)
  {
    match StagePolicy(a, i)
    case Ok(b) => b
    case Err(_) => a
  }

  /** A file the policy rejects stays rejected when another file is staged:
      it does not change, and its staged copy (if any) stays. */
  lemma {:induction false} RejectionStays(a: Areas, k: nat, j: nat)
    requires AreasValid(a)
    requires k < |a.working| && j < |a.working| && k != j
    requires StagePolicy(a, k).Ok?
    requires Rejected(a, j)
    ensures Rejected(StagePolicy(a, k).value, j)
  {
    StageEffects(a, k);
    var b := StagePolicy(a, k).value;
    var f := a.working[j];
    assert b.working[j] == f;
    var copy := FirstCopy(a.staged, f.origin);
    if copy.Some? {
      var c := a.staged[copy.value];
      assert c.origin == f.origin by { assert Origins(a.staged)[copy.value] == f.origin; }
      var file := a.working[k];
      if FirstCopy(a.staged, file.origin).None? {
        assert c in multiset(b.staged);
        FirstFromMember(b.staged, c);
      } else {
        assert Origins(b.staged) == Origins(a.staged);
      }
    }
  }

  /** After `stageAllFiles`, no working-directory file that is not DELETED
      can be staged: each was staged and reset, or rejected, and staging the
      later files keeps it so. */
  lemma {:induction false} StageAllSettles(a: Areas, i: nat)
    requires AreasValid(a)
    requires i <= |a.working|
    requires forall j :: 0 <= j < i && a.working[j].status != Deleted ==> Rejected(a, j)
    ensures forall j :: 0 <= j < |a.working| && StageAllFrom(a, i).working[j].status != Deleted ==>
              Rejected(StageAllFrom(a, i), j)
    decreases |a.working| - i
  {
    if i < |a.working| {
      match StagePolicy(a, i)
      case Ok(b) =>
        StageEffects(a, i);
        forall j | 0 <= j < i + 1 && b.working[j].status != Deleted
          ensures Rejected(b, j)
        {
          if j == i {
            StagingTwiceFails(a, i);
          } else {
            assert b.working[j] == a.working[j];
            RejectionStays(a, i, j);
          }
        }
        StageAllSettles(b, i + 1);
      case Err(_) =>
        StageAllSettles(a, i + 1);
    }
  }

  /** StageAllFrom keeps the areas valid. */
  lemma {:induction false} StageAllValid(a: Areas, i: nat)
    requires AreasValid(a)
    requires i <= |a.working|
    ensures AreasValid(StageAllFrom(a, i))
    decreases |a.working| - i
  {
    if i < |a.working| {
      match StagePolicy(a, i)
      case Ok(b) =>
        StageEffects(a, i);
        StageAllValid(b, i + 1);
      case Err(_) =>
        StageAllValid(a, i + 1);
    }
  }

  // ---------------------------------------------------------------------
  // Unstaging

  /** `unstageFile` as a specification, for the staged file at `i`: its
      first working-directory copy is reset from it and made visible, and
      the staged entry leaves the list. */
  function Unstaged(a: Areas, i: nat): (b: Areas)
    requires i < |a.staged|
    requires a.staged[i].origin in Origins(a.working)
    ensures |b.working| == |a.working| && |b.staged| == |a.staged| - 1
    ensures forall k :: 0 <= k < |a.working| && a.working[k].origin != a.staged[i].origin ==>
      b.working[k] == a.working[k]
  {
    var staged := a.staged[i];
    var w := FirstCopy(a.working, staged.origin).value;
    Areas(a.working[w := ResetFrom(a.working[w], staged).(visible := true)], a.staged[..i] + a.staged[i + 1..])
  }

  /** After unstaging, no copy of the file is left in the staging list,
      which loses exactly that entry and stays sorted; the working copy is
      visible and has the staged status, modified exactly when the staged
      copy was; no other working-directory file changes. */
  lemma {:induction false} UnstageEffects(a: Areas, i: nat)
    requires AreasValid(a)
    requires i < |a.staged|
    ensures a.staged[i].origin in Origins(a.working)
    ensures var b := Unstaged(a, i); var staged := a.staged[i];
      var w := FirstCopy(a.working, staged.origin).value;
      && AreasValid(b)
      && Origins(b.working) == Origins(a.working)
      && FirstCopy(b.staged, staged.origin).None?
      && |b.staged| == |a.staged| - 1
      && (forall o :: o in Origins(b.staged) <==> o in Origins(a.staged) && o != staged.origin)
      && b.working[w].visible && b.working[w].status == staged.status
      && (IsModified(b.working[w]) <==> IsModified(staged))
      && (forall j :: 0 <= j < |a.working| && j != w ==> b.working[j] == a.working[j])
  {
    var os := Origins(a.working);
    assert a.staged[i].origin == Origins(a.staged)[i];
    var b := Unstaged(a, i);
    assert Origins(b.working) == os;
    RemoveSorted(a.staged, i, os);
    SortedIsDistinct(a.staged, os);
    RemovedAt(a.staged, i);
  }

  /** Unstaging a file right after staging it as a new copy restores both
      areas, when the file was visible, not DELETED and the first of its
      origin in the working directory. */
  lemma {:induction false} StageThenUnstage(a: Areas, i: nat)
    requires AreasValid(a)
    requires i < |a.working|
    requires StagePolicy(a, i).Ok?
    requires FirstCopy(a.staged, a.working[i].origin).None?
    requires FirstCopy(a.working, a.working[i].origin) == Some(i)
    requires a.working[i].status != Deleted && a.working[i].visible
    ensures var b := StagePolicy(a, i).value;
      && FirstCopy(b.staged, a.working[i].origin).Some?
      && var k := FirstCopy(b.staged, a.working[i].origin).value;
         k < |b.staged| && b.staged[k].origin in Origins(b.working)
         && Unstaged(b, k) == a
  {
    var file := a.working[i];
    var os := Origins(a.working);
    var b := StagePolicy(a, i).value;
    assert b == Areas(a.working[i := Reset(file)], Insert(file, a.staged, os));
    InsertThenRemove(file, a.staged, os);
    UnstageRestores(a.working, i, file, Insert(file, a.staged, os));
  }

  /** Putting a file of another origin in front moves the first copy one
      place on. */
  lemma {:induction false} FirstCopyCons(f: VFile, s: seq<VFile>, o: nat)
    requires f.origin != o
    requires FirstCopy(s, o).Some?
    ensures FirstCopy([f] + s, o) == Some(FirstCopy(s, o).value + 1)
  {
    assert Origins([f] + s) == [f.origin] + Origins(s);
    FirstIndexCons(f.origin, Origins(s), o);
  }

  lemma {:induction false} FirstIndexCons(x: nat, os: seq<nat>, o: nat)
    requires x != o
    requires FirstIndex(os, o).Some?
    ensures FirstIndex([x] + os, o) == Some(FirstIndex(os, o).value + 1)
  {
    var r := [x] + os;
    assert r[0] == x && r[1..] == os;
  }

  /** Unstaging the copy `file` of the reset working-directory file at `i`
      gives that file back. */
  lemma {:induction false} UnstageRestores(wf: seq<VFile>, i: nat, file: VFile, staged: seq<VFile>)
    requires i < |wf| && wf[i] == file && file.visible
    requires FirstCopy(wf, file.origin) == Some(i)
    requires FirstCopy(staged, file.origin).Some?
    requires staged[FirstCopy(staged, file.origin).value] == file
    ensures var a := Areas(wf[i := Reset(file)], staged); var k := FirstCopy(staged, file.origin).value;
      && a.staged[k].origin in Origins(a.working)
      && Unstaged(a, k).working == wf
  {
    var a := Areas(wf[i := Reset(file)], staged);
    assert Origins(a.working) == Origins(wf);
    assert Origins(wf)[i] == file.origin;
  }

  /** The file `x` inserted into a list without a copy of it is the first
      copy of its origin there, and taking it out gives the list back. */
  lemma {:induction false} InsertThenRemove(x: VFile, s: seq<VFile>, os: seq<nat>)
    requires x.origin !in Origins(s)
    ensures var r := Insert(x, s, os); var c := FirstCopy(r, x.origin);
      c.Some? && r[c.value] == x && r[..c.value] + r[c.value + 1..] == s
    decreases |s|
  {
    if s == [] || Key(os, x.origin) < Key(os, s[0].origin) {
      InsertAtFront(x, s, os);
    } else {
      assert s[0].origin == Origins(s)[0];
      assert Origins(s[1..]) == Origins(s)[1..];
      InsertThenRemove(x, s[1..], os);
      var r' := Insert(x, s[1..], os);
      FirstCopyCons(s[0], r', x.origin);
      RemoveBehind(s[0], r', FirstCopy(r', x.origin).value);
    }
  }

  lemma {:induction false} InsertAtFront(x: VFile, s: seq<VFile>, os: seq<nat>)
    requires s == [] || Key(os, x.origin) < Key(os, s[0].origin)
    ensures var r := Insert(x, s, os);
      FirstCopy(r, x.origin) == Some(0) && r[0] == x && r[..0] + r[1..] == s
  {
    var r := Insert(x, s, os);
    assert r == [x] + s;
    assert Origins(r)[0] == x.origin;
  }

  lemma {:induction false} RemoveBehind(f: VFile, s: seq<VFile>, k: nat)
    requires k < |s|
    ensures ([f] + s)[..k + 1] + ([f] + s)[k + 2..] == [f] + (s[..k] + s[k + 1..])
  {
  }


  // ---------------------------------------------------------------------
  // Committing

  /** One file of the copied last commit: hidden when DELETED, then reset
      from its staged copy, which leaves the staging list, or reset. */
  function OverlayFile(f: VFile, staged: seq<VFile>): (r: (VFile, seq<VFile>))
    ensures r.0.origin == f.origin
    ensures r.0.visible <==> f.visible && f.status != Deleted
    ensures FirstCopy(staged, f.origin).None? ==>
      r.1 == staged && r.0.status == f.status && !IsModified(r.0)
    ensures FirstCopy(staged, f.origin).Some? ==>
      && |r.1| == |staged| - 1
      && r.0.status == staged[FirstCopy(staged, f.origin).value].status
      && (IsModified(r.0) <==> IsModified(staged[FirstCopy(staged, f.origin).value]))
  {
    var g := if f.status == Deleted then f.(visible := false) else f;
    match FirstCopy(staged, f.origin)
    case Some(j) => (ResetFrom(g, staged[j]), WithoutFirstCopy(staged, f.origin))
    case None => (Reset(g), staged)
  }

  /** The copied last commit's files after the overlay, and what is left of
      the staging list. */
  function Overlay(files: seq<VFile>, staged: seq<VFile>): (r: (seq<VFile>, seq<VFile>))
    ensures |r.0| == |files| && |r.1| <= |staged|
    decreases |files|
  {
    if files == [] then ([], staged)
    else
      var first := OverlayFile(files[0], staged);
      var rest := Overlay(files[1..], first.1);
      ([first.0] + rest.0, rest.1)
  }

  /** The overlay keeps the commit's files in place, one for one, and leaves
      in the staging list only copies of files the commit does not have;
      every staged file is either overlaid or left. */
  lemma {:induction false} OverlayOrigins(files: seq<VFile>, staged: seq<VFile>)
    requires Distinct(Origins(staged))
    ensures var (fs, left) := Overlay(files, staged);
      && Origins(fs) == Origins(files)
      && Distinct(Origins(left))
      && (forall o :: o in Origins(left) <==> o in Origins(staged) && o !in Origins(files))
  {
    OverlayKeepsFiles(files, staged);
    OverlayLeaves(files, staged);
  }

  lemma {:induction false} OverlayKeepsFiles(files: seq<VFile>, staged: seq<VFile>)
    ensures Origins(Overlay(files, staged).0) == Origins(files)
    decreases |files|
  {
    if files != [] {
      var first := OverlayFile(files[0], staged);
      OverlayKeepsFiles(files[1..], first.1);
      var fs := Overlay(files[1..], first.1).0;
      assert Overlay(files, staged).0 == [first.0] + fs;
      assert Origins([first.0] + fs) == [first.0.origin] + Origins(fs);
      assert Origins(files) == [files[0].origin] + Origins(files[1..]);
    }
  }

  lemma {:induction false} OverlayLeaves(files: seq<VFile>, staged: seq<VFile>)
    requires Distinct(Origins(staged))
    ensures var left := Overlay(files, staged).1;
      && Distinct(Origins(left))
      && (forall o :: o in Origins(left) <==> o in Origins(staged) && o !in Origins(files))
    decreases |files|
  {
    if files != [] {
      var rest := WithoutFirstCopy(staged, files[0].origin);
      RemovedCopy(staged, files[0].origin);
      OverlayLeaves(files[1..], rest);
      assert Overlay(files, staged).1 == Overlay(files[1..], rest).1;
      assert Origins(files) == [files[0].origin] + Origins(files[1..]);
    }
  }


  /** Taking the first copy of `o` out of a list with distinct origins
      leaves a list with distinct origins and no copy of `o`. */
  lemma {:induction false} RemovedCopy(s: seq<VFile>, o: nat)
    requires Distinct(Origins(s))
    ensures var rest := Origins(WithoutFirstCopy(s, o));
      && Distinct(rest)
      && o !in rest
      && (forall x :: x in rest <==> x in Origins(s) && x != o)
  {
    var c := FirstCopy(s, o);
    if c.Some? {
      var j := c.value;
      assert s[j].origin == o;
      assert WithoutFirstCopy(s, o) == s[..j] + s[j + 1..];
      RemovedAt(s, j);
    }
  }

  /** The list without the first copy of the file with origin `o`, if any. */
  function WithoutFirstCopy(s: seq<VFile>, o: nat): seq<VFile>
  {
    match FirstCopy(s, o)
    case Some(j) => s[..j] + s[j + 1..]
    case None => s
  }

  /** Removing the file at `j` from a list with distinct origins leaves
      exactly the other origins, each once. */
  lemma {:induction false} RemovedAt(s: seq<VFile>, j: nat)
    requires Distinct(Origins(s))
    requires j < |s|
    ensures var rest := Origins(s[..j] + s[j + 1..]);
      && rest == Origins(s)[..j] + Origins(s)[j + 1..]
      && Distinct(rest)
      && s[j].origin !in rest
      && (forall x :: x in rest <==> x in Origins(s) && x != s[j].origin)
  {
    var os := Origins(s);
    var rest := Origins(s[..j] + s[j + 1..]);
    assert rest == os[..j] + os[j + 1..];
    forall m | 0 <= m < |rest|
      ensures rest[m] == os[if m < j then m else m + 1]
    {
    }
    forall a, b | 0 <= a < b < |rest|
      ensures rest[a] != rest[b]
    {
      assert rest[a] == os[if a < j then a else a + 1];
      assert rest[b] == os[if b < j then b else b + 1];
    }
    forall m | 0 <= m < |rest|
      ensures rest[m] != os[j]
    {
      assert rest[m] == os[if m < j then m else m + 1];
    }
    assert s[j].origin == os[j];
    forall x | x in os && x != os[j]
      ensures x in rest
    {
      var m :| 0 <= m < |os| && os[m] == x;
      assert rest[if m < j then m else m - 1] == x;
    }
  }

  /** `createCommit` as a specification: the new commit's files. The first
      commit takes the staged files; a later one takes the last commit's
      files after the overlay, then every staged file the overlay did not
      take. */
  function CommittedFiles(commits: seq<VCommit>, staged: seq<VFile>): (r: seq<VFile>)
    ensures commits == [] ==> r == staged
    ensures commits != [] ==>
      |commits[|commits| - 1].files| <= |r| <= |commits[|commits| - 1].files| + |staged|
  {
    if commits == [] then staged
    else
      var r := Overlay(commits[|commits| - 1].files, staged);
      r.0 + r.1
  }

  /** The new commit holds exactly the files of the last commit and the
      staged files, each once. */
  lemma {:induction false} CommittedFilesEffects(commits: seq<VCommit>, staged: seq<VFile>)
    requires Distinct(Origins(staged))
    requires commits != [] ==> Distinct(Origins(commits[|commits| - 1].files))
    ensures var files := CommittedFiles(commits, staged);
      && Distinct(Origins(files))
      && (forall o :: o in Origins(files) <==>
            o in Origins(staged) || (commits != [] && o in Origins(commits[|commits| - 1].files)))
  {
    if commits != [] {
      var last := commits[|commits| - 1].files;
      OverlayOrigins(last, staged);
      var r := Overlay(last, staged);
      DisjointConcat(r.0, r.1);
    }
  }

  /** Two lists of distinct origins with no origin in common make one. */
  lemma {:induction false} DisjointConcat(s: seq<VFile>, t: seq<VFile>)
    requires Distinct(Origins(s)) && Distinct(Origins(t))
    requires forall o :: o in Origins(t) ==> o !in Origins(s)
    ensures Distinct(Origins(s + t))
    ensures forall o :: o in Origins(s + t) <==> o in Origins(s) || o in Origins(t)
  {
    var all := Origins(s + t);
    assert all == Origins(s) + Origins(t);
    forall i, j | 0 <= i < j < |all|
      ensures all[i] != all[j]
    {
      var os, ot := Origins(s), Origins(t);
      if j < |s| {
        assert all[i] == os[i] && all[j] == os[j];
        assert os[i] != os[j];
      } else if i < |s| {
        assert all[j] == ot[j - |s|] && ot[j - |s|] in ot;
        assert all[i] == os[i] && os[i] in os;
      } else {
        assert all[i] == ot[i - |s|] && all[j] == ot[j - |s|];
        assert ot[i - |s|] != ot[j - |s|];
      }
    }
  }

  // ---------------------------------------------------------------------
  // Reverting

  /** The reverted working copy: the content of the commit's file, visible
      exactly when not DELETED. */
  function Reverted(base: VFile, file: VFile): (r: VFile)
    ensures r.origin == base.origin
    ensures r.status == file.status && r.insertions == file.insertions && r.deletions == file.deletions
    ensures r.visible <==> r.status != Deleted
  {
    var g := WithContentOf(base, file);
    g.(visible := g.status != Deleted)
  }

  /** The `forEach` of `revertCommit` over one commit's files. */
  function RevertFiles(wf: seq<VFile>, files: seq<VFile>): (r: seq<VFile>)
    ensures |r| == |wf| && Origins(r) == Origins(wf)
    decreases |files|
  {
    if files == [] then wf
    else RevertFiles(RevertStep(wf, files[0]), files[1..])
  }

  /** One step of that `forEach`: the first working-directory copy of the
      file is reverted to it. */
  function RevertStep(wf: seq<VFile>, file: VFile): (r: seq<VFile>)
    ensures |r| == |wf| && Origins(r) == Origins(wf)
  {
    var w := FirstCopy(wf, file.origin);
    var next := if w.Some? then wf[w.value := Reverted(wf[w.value], file)] else wf;
    assert Origins(next) == Origins(wf);
    next
  }

  /** Each commit's parent is the commit before it. */
  ghost predicate ChainValid(commits: seq<VCommit>)
  {
    forall k :: 0 <= k < |commits| ==> commits[k].parent == (if k == 0 then None else Some(k - 1))
  }

  /** The walk of `revertCommit`: from commit `p` along the parents, down
      to `target` included. */
  function RevertChain(wf: seq<VFile>, commits: seq<VCommit>, p: Option<nat>, target: nat): (r: seq<VFile>)
    requires ChainValid(commits)
    ensures |r| == |wf| && Origins(r) == Origins(wf)
    decreases if p.Some? then p.value + 1 else 0
  {
    if p.None? || p.value >= |commits| then wf
    else
      var next := RevertFiles(wf, commits[p.value].files);
      if p.value == target then next
      else RevertChain(next, commits, commits[p.value].parent, target)
  }

  /** Every working-directory file that a revert changed is visible exactly
      when it is not DELETED. */
  lemma {:induction false} RevertFilesVisibility(wf: seq<VFile>, files: seq<VFile>)
    ensures var r := RevertFiles(wf, files);
      forall j :: 0 <= j < |wf| && r[j] != wf[j] ==> r[j].visible == (r[j].status != Deleted)
    decreases |files|
  {
    if files != [] {
      var w := FirstCopy(wf, files[0].origin);
      var next := RevertStep(wf, files[0]);
      RevertFilesVisibility(next, files[1..]);
      var r := RevertFiles(next, files[1..]);
      forall j | 0 <= j < |wf| && r[j] != wf[j]
        ensures r[j].visible == (r[j].status != Deleted)
      {
        if r[j] == next[j] {
          assert w.Some? && j == w.value;
        }
      }
    }
  }

  /** Every working-directory file that the whole walk changed is visible
      exactly when it is not DELETED. */
  lemma {:induction false} RevertChainVisibility(wf: seq<VFile>, commits: seq<VCommit>, p: Option<nat>, target: nat)
    requires ChainValid(commits)
    ensures var r := RevertChain(wf, commits, p, target);
      forall j :: 0 <= j < |wf| && r[j] != wf[j] ==> r[j].visible == (r[j].status != Deleted)
    decreases if p.Some? then p.value + 1 else 0
  {
    if p.Some? && p.value < |commits| {
      var next := RevertFiles(wf, commits[p.value].files);
      RevertFilesVisibility(wf, commits[p.value].files);
      if p.value != target {
        RevertChainVisibility(next, commits, commits[p.value].parent, target);
      }
    }
  }

  /** The first working-directory file of `f`'s origin (its position taken
      from the origins `os`) has `f`'s status and counters. */
  ghost predicate HasContentOf(r: seq<VFile>, os: seq<nat>, f: VFile)
  {
    var w := FirstIndex(os, f.origin);
    w.Some? && w.value < |r|
    && r[w.value].status == f.status && r[w.value].insertions == f.insertions
    && r[w.value].deletions == f.deletions
  }

  /** The rest of a commit's file list is again a list of distinct copies of
      working-directory files, none of them a copy of the first. */
  lemma {:induction false} CommitTail(files: seq<VFile>, os: seq<nat>)
    requires files != []
    requires Covered(files, os) && Distinct(Origins(files))
    ensures Covered(files[1..], os) && Distinct(Origins(files[1..]))
    ensures files[0].origin in os && files[0].origin !in Origins(files[1..])
  {
    assert Origins(files[1..]) == Origins(files)[1..];
    assert files[0].origin == Origins(files)[0];
  }

  /** Reverting the files of one commit, whose files are distinct copies of
      working-directory files, leaves each of those working-directory files
      with the content its commit file has. */
  lemma {:induction false} RevertFilesRestores(wf: seq<VFile>, files: seq<VFile>)
    requires Distinct(Origins(files))
    requires Covered(files, Origins(wf))
    ensures forall f :: f in files ==> HasContentOf(RevertFiles(wf, files), Origins(wf), f)
    decreases |files|
  {
    if files != [] {
      var f0 := files[0];
      CommitTail(files, Origins(wf));
      var w0 := FirstCopy(wf, f0.origin).value;
      var next := wf[w0 := Reverted(wf[w0], f0)];
      assert Origins(next) == Origins(wf);
      RevertFilesRestores(next, files[1..]);
      RevertFilesUntouched(next, files[1..], w0);
      var r := RevertFiles(wf, files);
      assert r == RevertFiles(next, files[1..]);
      forall f | f in files
        ensures HasContentOf(r, Origins(wf), f)
      {
        if f != f0 {
          assert f in files[1..];
        }
      }
    }
  }

  /** Reverting files that are no copies of the working-directory file at
      `w` leaves that file as it is. */
  lemma {:induction false} RevertFilesUntouched(wf: seq<VFile>, files: seq<VFile>, w: nat)
    requires w < |wf|
    requires wf[w].origin !in Origins(files)
    requires FirstCopy(wf, wf[w].origin) == Some(w)
    ensures RevertFiles(wf, files)[w] == wf[w]
    decreases |files|
  {
    if files != [] {
      assert files[0].origin == Origins(files)[0];
      assert Origins(files[1..]) == Origins(files)[1..];
      var next := RevertStep(wf, files[0]);
      assert next[w] == wf[w];
      RevertFilesUntouched(next, files[1..], w);
    }
  }

  // ---------------------------------------------------------------------
  // The chapter

  class VersioningInGit {
    var workingFiles: seq<VFile>
    var stagedFiles: seq<VFile>
    var commits: seq<VCommit>
    /** `head`: the index of the newest commit. */
    var head: Option<nat>
    /** The origin the next added file receives. */
    var nextOrigin: nat

    /** Valid areas; a linear history whose head is its newest commit; every
        commit holds distinct copies of working-directory files; every
        origin in use was handed out before. */
    ghost predicate Valid()
      reads this
    {
      && AreasValid(Areas(workingFiles, stagedFiles))
      && ChainValid(commits)
      && head == (if commits == [] then None else Some(|commits| - 1))
      && CommitsValid(commits, Origins(workingFiles))
      && (forall o :: o in Origins(workingFiles) ==> o < nextOrigin)
    }

    /** The three files the chapter starts with. */
    constructor ()
      ensures Valid()
      ensures workingFiles == [NewFile(0), NewFile(1), NewFile(2)]
      ensures stagedFiles == [] && commits == [] && head == None
    {
      workingFiles := [NewFile(0), NewFile(1), NewFile(2)];
      stagedFiles := [];
      commits := [];
      head := None;
      nextOrigin := 3;
    }

    /** `[addFile]`: a new file joins the working directory. */
    method AddFile() returns (file: VFile)
      requires Valid()
      modifies this
      ensures Valid()
      ensures file == NewFile(old(nextOrigin)) && file.origin !in Origins(old(workingFiles))
      ensures workingFiles == old(workingFiles) + [file]
      ensures stagedFiles == old(stagedFiles) && commits == old(commits) && head == old(head)
    {
      file := NewFile(nextOrigin);
      ghost var os := Origins(workingFiles);
      workingFiles := workingFiles + [file];
      nextOrigin := nextOrigin + 1;
      assert Origins(workingFiles) == os + [file.origin];
      forall o | o in os
        ensures Key(os + [file.origin], o) == Key(os, o)
      {
        FirstIndexExtends(os, file.origin, o);
      }
      SortedExtends(stagedFiles, os, file.origin);
      CommitsValidExtends(commits, os, file.origin);
    }

    /** `[stageFile]`: the staging policy for the working-directory file at
        `i`; on success the result is the staged copy. */
    method StageFile(i: nat) returns (r: Result<VFile>)
      requires Valid()
      requires i < |workingFiles|
      modifies this
      ensures Valid()
      ensures var policy := StagePolicy(Areas(old(workingFiles), old(stagedFiles)), i);
        && (r.Err? <==> policy.Err?)
        && (r.Err? ==> r.message == policy.message
                       && workingFiles == old(workingFiles) && stagedFiles == old(stagedFiles))
        && (r.Ok? ==> Areas(workingFiles, stagedFiles) == policy.value)
      ensures Areas(workingFiles, stagedFiles) == StageOrSkip(Areas(old(workingFiles), old(stagedFiles)), i)
      ensures r.Ok? ==> r.value in stagedFiles && r.value.origin == old(workingFiles)[i].origin
      ensures commits == old(commits) && head == old(head) && nextOrigin == old(nextOrigin)
    {
      var file := workingFiles[i];
      var copy := FirstCopy(stagedFiles, file.origin);

      if copy.Some? && !IsModified(file) {
        return Err(AlreadyStaged);
      }
      if file.status != Added && file.status != Deleted && !IsModified(file) {
        return Err(NotStageable);
      }

      var stagedFile := AddToStaging(file, copy);

      if file.status != Deleted {
        workingFiles := workingFiles[i := Reset(file)];
      } else {
        workingFiles := workingFiles[i := file.(visible := false)];
      }
      StageEffects(Areas(old(workingFiles), old(stagedFiles)), i);
      r := Ok(stagedFile);
    }

    /** The staging-list half of `[stageFile]`: a new copy is added and the
        list re-sorted, or the existing copy is merged. */
    method AddToStaging(file: VFile, copy: Option<nat>) returns (stagedFile: VFile)
      requires copy == FirstCopy(stagedFiles, file.origin)
      modifies this
      ensures stagedFiles == if copy.None? then Insert(file, old(stagedFiles), Origins(workingFiles))
                             else old(stagedFiles)[copy.value := WithContentOf(old(stagedFiles)[copy.value], file)]
      ensures stagedFile in stagedFiles && stagedFile.origin == file.origin
      ensures workingFiles == old(workingFiles) && commits == old(commits) && head == old(head)
      ensures nextOrigin == old(nextOrigin)
    {
      if copy.None? {
        stagedFile := file;
        stagedFiles := Insert(stagedFile, stagedFiles, Origins(workingFiles));
        assert stagedFile in multiset(stagedFiles);
      } else {
        assert stagedFiles[copy.value].origin == file.origin by {
          assert Origins(stagedFiles)[copy.value] == file.origin;
        }
        stagedFile := WithContentOf(stagedFiles[copy.value], file);
        stagedFiles := stagedFiles[copy.value := stagedFile];
        assert stagedFiles[copy.value] == stagedFile;
      }
    }

    /** `[stageAllFiles]`: the staging policy for every working-directory
        file in order, skipping the files it rejects; never fails. */
    method StageAllFiles()
      requires Valid()
      modifies this
      ensures Valid()
      ensures Areas(workingFiles, stagedFiles) == StageAllFrom(Areas(old(workingFiles), old(stagedFiles)), 0)
      ensures commits == old(commits) && head == old(head) && nextOrigin == old(nextOrigin)
    {
      var n := |workingFiles|;
      for i := 0 to n
        invariant Valid()
        invariant |workingFiles| == n
        invariant StageAllFrom(Areas(workingFiles, stagedFiles), i)
                  == StageAllFrom(Areas(old(workingFiles), old(stagedFiles)), 0)
        invariant commits == old(commits) && head == old(head) && nextOrigin == old(nextOrigin)
      {
        StageOrSkipFile(i);
      }
    }

    /** One step of the `forEach` of `[stageAllFiles]`: the policy's
        rejection is skipped. */
    method StageOrSkipFile(i: nat)
      requires Valid()
      requires i < |workingFiles|
      modifies this
      ensures Valid()
      ensures Areas(workingFiles, stagedFiles) == StageOrSkip(Areas(old(workingFiles), old(stagedFiles)), i)
      ensures commits == old(commits) && head == old(head) && nextOrigin == old(nextOrigin)
    {
      var r := StageFile(i);
    }

    /** `[unstageFile]`: the staged file at `i` leaves the staging list, and
        its working-directory copy is reset from it and made visible; the
        result is that working-directory copy. */
    method UnstageFile(i: nat) returns (file: VFile)
      requires Valid()
      requires i < |stagedFiles|
      modifies this
      ensures Valid()
      ensures old(stagedFiles)[i].origin in Origins(old(workingFiles))
      ensures Areas(workingFiles, stagedFiles) == Unstaged(Areas(old(workingFiles), old(stagedFiles)), i)
      ensures var w := FirstCopy(old(workingFiles), old(stagedFiles)[i].origin);
        w.Some? && file == workingFiles[w.value]
      ensures commits == old(commits) && head == old(head) && nextOrigin == old(nextOrigin)
    {
      UnstageEffects(Areas(workingFiles, stagedFiles), i);
      var staged := stagedFiles[i];
      var w := FirstCopy(workingFiles, staged.origin).value;
      workingFiles := workingFiles[w := ResetFrom(workingFiles[w], staged)];
      workingFiles := workingFiles[w := workingFiles[w].(visible := true)];
      stagedFiles := stagedFiles[..i] + stagedFiles[i + 1..];
      file := workingFiles[w];
      assert Areas(workingFiles, stagedFiles) == Unstaged(Areas(old(workingFiles), old(stagedFiles)), i);
    }

    /** `[deleteFile]`: the working-directory file at `i` becomes DELETED;
        nothing else changes. */
    method DeleteFile(i: nat) returns (file: VFile)
      requires Valid()
      requires i < |workingFiles|
      modifies this
      ensures Valid()
      ensures file == old(workingFiles)[i].(status := Deleted)
      ensures workingFiles == old(workingFiles)[i := file]
      ensures stagedFiles == old(stagedFiles) && commits == old(commits) && head == old(head)
    {
      ghost var os := Origins(workingFiles);
      file := workingFiles[i].(status := Deleted);
      workingFiles := workingFiles[i := file];
      assert Origins(workingFiles) == os;
    }

    /** `[modifyFile]`: the payload's insertions and deletions are added to
        the counters of the working-directory file at `i`; nothing else
        changes. */
    method ModifyFile(i: nat, insertions: int, deletions: int) returns (file: VFile)
      requires Valid()
      requires i < |workingFiles|
      modifies this
      ensures Valid()
      ensures file.insertions == old(workingFiles)[i].insertions + insertions
      ensures file.deletions == old(workingFiles)[i].deletions + deletions
      ensures file == old(workingFiles)[i].(insertions := file.insertions, deletions := file.deletions)
      ensures workingFiles == old(workingFiles)[i := file]
      ensures stagedFiles == old(stagedFiles) && commits == old(commits) && head == old(head)
    {
      ghost var os := Origins(workingFiles);
      var f := workingFiles[i];
      file := f.(insertions := f.insertions + insertions, deletions := f.deletions + deletions);
      workingFiles := workingFiles[i := file];
      assert Origins(workingFiles) == os;
    }

    /** The `forEach` of `[createCommit]` over the copied last commit's
        files: each is overlaid by its staged copy, which leaves the staging
        list. */
    method OverlayStaged(files: seq<VFile>) returns (out: seq<VFile>)
      modifies this
      ensures (out, stagedFiles) == Overlay(files, old(stagedFiles))
      ensures workingFiles == old(workingFiles) && commits == old(commits) && head == old(head)
      ensures nextOrigin == old(nextOrigin)
    {
      out := [];
      assert files[0..] == files;
      for k := 0 to |files|
        invariant Overlay(files, old(stagedFiles)).0 == out + Overlay(files[k..], stagedFiles).0
        invariant Overlay(files, old(stagedFiles)).1 == Overlay(files[k..], stagedFiles).1
        invariant workingFiles == old(workingFiles) && commits == old(commits) && head == old(head)
        invariant nextOrigin == old(nextOrigin)
      {
        ghost var before := stagedFiles;
        var file := OverlayOne(files[k]);
        assert files[k..][0] == files[k] && files[k..][1..] == files[k + 1..];
        assert Overlay(files[k..], before).0 == [file] + Overlay(files[k + 1..], stagedFiles).0;
        assert (out + [file]) + Overlay(files[k + 1..], stagedFiles).0
               == out + ([file] + Overlay(files[k + 1..], stagedFiles).0);
        out := out + [file];
      }
      assert files[|files|..] == [];
      assert out + [] == out;
    }

    /** One step of the `forEach` of `[createCommit]`. */
    method OverlayOne(f: VFile) returns (file: VFile)
      modifies this
      ensures (file, stagedFiles) == OverlayFile(f, old(stagedFiles))
      ensures workingFiles == old(workingFiles) && commits == old(commits) && head == old(head)
      ensures nextOrigin == old(nextOrigin)
    {
      file := f;
      if file.status == Deleted {
        file := file.(visible := false);
      }
      var stagedFile := FirstCopy(stagedFiles, file.origin);
      if stagedFile.Some? {
        file := ResetFrom(file, stagedFiles[stagedFile.value]);
        stagedFiles := stagedFiles[..stagedFile.value] + stagedFiles[stagedFile.value + 1..];
      } else {
        file := Reset(file);
      }
    }

    /** `[createCommit]`: the new commit, made of the files
        CommittedFiles gives, with the last commit as parent, is appended
        and becomes the head; every staged file has moved into it, so the
        staging list is empty. The result is the new commit's index. */
    method CreateCommit() returns (k: nat)
      requires Valid()
      modifies this
      ensures Valid()
      ensures k == |old(commits)|
      ensures commits == old(commits) + [VCommit(CommittedFiles(old(commits), old(stagedFiles)),
                                                 if k == 0 then None else Some(k - 1))]
      ensures stagedFiles == []
      ensures head == Some(k)
      ensures workingFiles == old(workingFiles) && nextOrigin == old(nextOrigin)
    {
      ghost var os := Origins(workingFiles);
      if commits != [] {
        CommitsValidAt(commits, os, |commits| - 1);
      }
      SortedIsDistinct(stagedFiles, os);
      CommittedFilesEffects(commits, stagedFiles);
      var files: seq<VFile>;
      var parent: Option<nat>;
      if commits == [] {
        files := stagedFiles;
        parent := None;
      } else {
        var last := commits[|commits| - 1];
        var copied := OverlayStaged(last.files);
        files := copied + stagedFiles;
        parent := Some(|commits| - 1);
      }
      stagedFiles := [];
      ghost var before := commits;
      commits := commits + [VCommit(files, parent)];
      k := |commits| - 1;
      head := Some(k);
      assert commits[..k] == before;
      assert CommitValid(files, os) by {
        forall o | o in Origins(files)
          ensures o in os
        {
          if o !in Origins(old(stagedFiles)) {
            CommitsValidAt(before, os, k - 1);
          }
        }
      }
    }

    /** `[revertCommit]`: walk from the head along the parents down to the
        commit at `target`, reverting each working-directory file to its copy
        in every commit on the way. The history, the head and the staging
        list stay; every file that changed is visible exactly when it is not
        DELETED; and every file the target commit holds ends with that
        commit's content. */
    method RevertCommit(target: nat) returns (k: nat)
      requires Valid()
      requires target < |commits|
      modifies this
      ensures Valid()
      ensures k == target
      ensures workingFiles == RevertChain(old(workingFiles), commits, head, target)
      ensures stagedFiles == old(stagedFiles) && commits == old(commits) && head == old(head)
      ensures forall j :: 0 <= j < |workingFiles| && workingFiles[j] != old(workingFiles)[j] ==>
                workingFiles[j].visible == (workingFiles[j].status != Deleted)
      ensures forall f :: f in commits[target].files ==> HasContentOf(workingFiles, Origins(old(workingFiles)), f)
    {
      var p := head;
      ghost var before: seq<VFile> := workingFiles;
      while p.Some?
        invariant Origins(workingFiles) == Origins(old(workingFiles))
        invariant stagedFiles == old(stagedFiles) && commits == old(commits) && head == old(head)
        invariant nextOrigin == old(nextOrigin)
        invariant p.Some? ==> target <= p.value < |commits|
        invariant RevertChain(old(workingFiles), commits, head, target)
                  == RevertChain(workingFiles, commits, p, target)
        invariant p.None? ==> workingFiles == RevertFiles(before, commits[target].files)
        invariant Origins(before) == Origins(old(workingFiles))
        decreases if p.Some? then p.value + 1 else 0
      {
        before := workingFiles;
        RevertEach(commits[p.value].files);
        assert Origins(workingFiles) == Origins(before);
        if p.value == target {
          break;
        }
        p := commits[p.value].parent;
      }
      RevertChainVisibility(old(workingFiles), commits, head, target);
      CommitsValidAt(commits, Origins(before), target);
      RevertFilesRestores(before, commits[target].files);
      k := target;
    }

    /** The `forEach` of `[revertCommit]` over one commit's files. */
    method RevertEach(files: seq<VFile>)
      modifies this
      ensures workingFiles == RevertFiles(old(workingFiles), files)
      ensures stagedFiles == old(stagedFiles) && commits == old(commits) && head == old(head)
      ensures nextOrigin == old(nextOrigin)
    {
      for k := 0 to |files|
        invariant RevertFiles(old(workingFiles), files) == RevertFiles(workingFiles, files[k..])
        invariant stagedFiles == old(stagedFiles) && commits == old(commits) && head == old(head)
        invariant nextOrigin == old(nextOrigin)
      {
        assert files[k..][0] == files[k] && files[k..][1..] == files[k + 1..];
        RevertOne(files[k]);
      }
      assert files[|files|..] == [];
    }

    /** One step of the `forEach` of `[revertCommit]`. */
    method RevertOne(file: VFile)
      modifies this
      ensures workingFiles == RevertStep(old(workingFiles), file)
      ensures stagedFiles == old(stagedFiles) && commits == old(commits) && head == old(head)
      ensures nextOrigin == old(nextOrigin)
    {
      var baseFile := FirstCopy(workingFiles, file.origin);
      if baseFile.Some? {
        var w := baseFile.value;
        workingFiles := workingFiles[w := WithContentOf(workingFiles[w], file)];
        workingFiles := workingFiles[w := workingFiles[w].(visible := workingFiles[w].status != Deleted)];
      }
    }
  }

  /** A commit holds distinct copies of working-directory files. */
  ghost predicate CommitValid(files: seq<VFile>, os: seq<nat>)
  {
    Covered(files, os) && Distinct(Origins(files))
  }

  /** Every commit of the history is valid. */
  ghost predicate CommitsValid(cs: seq<VCommit>, os: seq<nat>)
  {
    cs == [] || (CommitsValid(cs[..|cs| - 1], os) && CommitValid(cs[|cs| - 1].files, os))
  }

  lemma {:induction false} CommitsValidAt(cs: seq<VCommit>, os: seq<nat>, k: nat)
    requires CommitsValid(cs, os)
    requires k < |cs|
    ensures CommitValid(cs[k].files, os)
    decreases |cs|
  {
    if k < |cs| - 1 {
      CommitsValidAt(cs[..|cs| - 1], os, k);
    }
  }

  /** A history stays valid when the working directory gains an origin. */
  lemma {:induction false} CommitsValidExtends(cs: seq<VCommit>, os: seq<nat>, x: nat)
    requires CommitsValid(cs, os)
    ensures CommitsValid(cs, os + [x])
    decreases |cs|
  {
    if cs != [] {
      CommitsValidExtends(cs[..|cs| - 1], os, x);
    }
  }

  lemma {:induction false} FirstIndexExtends(os: seq<nat>, x: nat, o: nat)
    requires o in os
    ensures FirstIndex(os + [x], o) == FirstIndex(os, o)
  {
    if os[0] != o {
      assert (os + [x])[1..] == os[1..] + [x];
      FirstIndexExtends(os[1..], x, o);
    }
  }

  lemma {:induction false} SortedExtends(s: seq<VFile>, os: seq<nat>, x: nat)
    requires Covered(s, os)
    requires forall o :: o in os ==> Key(os + [x], o) == Key(os, o)
    requires SortedBy(s, os)
    ensures SortedBy(s, os + [x])
    decreases |s|
  {
    if |s| > 1 {
      assert Origins(s)[0] == s[0].origin && Origins(s)[1] == s[1].origin;
      assert Origins(s[1..]) == Origins(s)[1..];
      SortedExtends(s[1..], os, x);
    }
  }
}
