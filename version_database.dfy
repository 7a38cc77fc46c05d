/** The "version database" visualisation: a list of file visuals, newest
    first, that the learner adds to, copies, modifies, deletes and restores.
    In version-database mode the newest file stays in the working column and
    the older ones move into a database column, named by version. */
module VersionDatabase {
  import opened Constants

  /** FILE_NAME_VARIANTS: the suffixes of copied files, in order. */
  const FileNameVariants: seq<string> := [
    "_final",
    "_final_final",
    "_final_v2_final",
    "_final_forreal",
    "_finaaal",
    "_finalalal",
    "_final_hahaha",
    "_final_ineedhelp",
    "_final_itsatrap"
  ]

  /** A file visual: `id` stands for its object identity; `prevVisFile` is
      the identity of the file a restore copied it from. */
  datatype DbFile = DbFile(
    id: nat,
    nameIndex: nat,
    status: Status,
    diff: Diff,
    visible: bool,
    prevVisFile: Option<nat>)

  /** A child of the visualisation: the version-database area, a file
      visual (by its identity, since the children are the very objects the
      file list holds), or `undefined` (the front file of an empty list). */
  datatype Child = VersionDatabaseArea | FileChild(id: nat) | Missing

  /** A grid position. */
  datatype Position = Position(row: int, column: int)

  /** The decimal digits of `n`. */
  function NatToString(n: nat): (s: string)
    ensures |s| >= 1
    ensures forall c :: c in s ==> '0' <= c <= '9'
  {
    var digit := ['0', '1', '2', '3', '4', '5', '6', '7', '8', '9'][n % 10];
    if n < 10 then [digit] else NatToString(n / 10) + [digit]
  }

  /** A JavaScript template-literal rendering of an integer. */
  function IntToString(i: int): string
  {
    if i < 0 then "-" + NatToString(-i) else NatToString(i)
  }

  /** The name of a file outside version-database mode: `file` for name
      index 0, and `file` with the variant suffix cycling through the nine
      variants for every other index. */
  function PlainName(nameIndex: nat): (name: string)
    ensures |name| >= 4 && name[..4] == "file"
    ensures nameIndex == 0 <==> name == "file"
  {
    if nameIndex == 0 then "file"
    else "file" + FileNameVariants[(nameIndex - 1) % |FileNameVariants|]
  }

  /** Names repeat with period nine from name index 1 on. */
  lemma PlainNamePeriodic(nameIndex: nat)
    requires nameIndex >= 1
    ensures PlainName(nameIndex + 9) == PlainName(nameIndex)
  {
    assert (nameIndex + 9 - 1) % 9 == (nameIndex - 1) % 9;
  }

  /** The first ten name indexes give ten different names. */
  lemma PlainNamesDistinct(m: nat, n: nat)
    requires m < n <= 9
    ensures PlainName(m) != PlainName(n)
  {
    if m > 0 {
      PlainNameOfVariant(m);
      PlainNameOfVariant(n);
      VariantsDistinct(m - 1, n - 1);
      PrefixCancels("file", FileNameVariants[m - 1], FileNameVariants[n - 1]);
    }
  }

  lemma PlainNameOfVariant(k: nat)
    requires 1 <= k <= |FileNameVariants|
    ensures PlainName(k) == "file" + FileNameVariants[k - 1]
  {
    assert (k - 1) % |FileNameVariants| == k - 1;
  }

  lemma PrefixCancels(p: string, a: string, b: string)
    requires a != b
    ensures p + a != p + b
  {
    assert (p + a)[|p|..] == a && (p + b)[|p|..] == b;
  }

  /** No two variants are the same: all differ in length except the third
      and the ninth, which differ in their eighth character. */
  lemma VariantsDistinct(i: nat, j: nat)
    requires i < j < |FileNameVariants|
    ensures FileNameVariants[i] != FileNameVariants[j]
  {
    var v := FileNameVariants;
    if i == 2 && j == 8 {
      assert v[2][7] != v[8][7];
    } else {
      assert |v[i]| != |v[j]|;
    }
  }

  /** `name`: in version-database mode the front file (index 0 in `files`)
      is `file` and every other is `Version <n>`, where n is the number of
      children of its parent area minus its index there; otherwise the plain
      name of its name index. */
  function Name(useVersionDatabase: bool, indexInFiles: int, parentChildCount: int,
                indexInParent: int, nameIndex: nat): (name: string)
    ensures !useVersionDatabase ==> name == PlainName(nameIndex)
    ensures useVersionDatabase ==> (name == "file" <==> indexInFiles == 0)
    ensures useVersionDatabase && indexInFiles != 0 ==> |name| > 8 && name[..8] == "Version "
  {
    if useVersionDatabase then
      if indexInFiles == 0 then "file"
      else "Version " + IntToString(parentChildCount - indexInParent)
    else PlainName(nameIndex)
  }

  /** `changes`: the total of the two line counters; for counters that are
      not negative, at least either of them and zero only for no diff. */
  function Changes(f: DbFile): (r: int)
    ensures f.diff.added >= 0 && f.diff.removed >= 0 ==> r >= f.diff.added && r >= f.diff.removed
    ensures f.diff.added >= 0 && f.diff.removed >= 0 ==> (r == 0 <==> f.diff == NoDiff)
  {
    f.diff.added + f.diff.removed
  }

  /** `maxChanges`: the largest `changes` of the visualisation's files. */
  function MaxChanges(files: seq<DbFile>): (m: int)
    requires |files| > 0
    ensures forall f :: f in files ==> Changes(f) <= m
    ensures exists f :: f in files && Changes(f) == m
  {
    if |files| == 1 then Changes(files[0])
    else
      var rest := MaxChanges(files[1..]);
      assert forall f :: f in files[1..] ==> f in files;
      if Changes(files[0]) >= rest then Changes(files[0]) else rest
  }

  /** `getPosition`: in version-database mode the front file is at row 0,
      column 0 and file i > 0 at row i - 1 of column 1; otherwise the column
      is the index and the row is the one the base layout gives. */
  function GetPosition(useVersionDatabase: bool, index: int, base: Position): (p: Position)
    ensures useVersionDatabase ==> (p == Position(0, 0) <==> index == 0)
    ensures useVersionDatabase ==> (p.column == 0 <==> index == 0) && 0 <= p.column <= 1
    ensures useVersionDatabase && index > 0 ==> p.row == index - 1
    ensures !useVersionDatabase ==> p.row == base.row && p.column == index
  {
    if useVersionDatabase then
      Position(if index == 0 then 0 else index - 1, if index == 0 then 0 else 1)
    else
      Position(base.row, index)
  }

  /** Two different files of the list never share a position. */
  lemma PositionsDistinct(useVersionDatabase: bool, i: nat, j: nat, base: Position)
    requires i != j
    ensures GetPosition(useVersionDatabase, i, base) != GetPosition(useVersionDatabase, j, base)
  {
  }

  /** The identities of a list of file visuals, in order. */
  function Ids(files: seq<DbFile>): (r: seq<nat>)
    ensures |r| == |files|
    ensures forall i :: 0 <= i < |files| ==> r[i] == files[i].id
  {
    seq(|files|, i requires 0 <= i < |files| => files[i].id)
  }

  /** `indexOf` on a list of identities: the first index holding `id`, or -1. */
  function IndexOfId(ids: seq<nat>, id: nat): (k: int)
    ensures -1 <= k < |ids|
    ensures k >= 0 ==> ids[k] == id && forall j :: 0 <= j < k ==> ids[j] != id
    ensures k == -1 <==> id !in ids
  {
    if ids == [] then -1
    else if ids[0] == id then 0
    else
      var k := IndexOfId(ids[1..], id);
      if k == -1 then -1 else k + 1
  }

  /** `indexOf` by object identity on the file list. */
  function IndexOf(files: seq<DbFile>, id: nat): (k: int)
    ensures -1 <= k < |files|
    ensures k >= 0 ==> files[k].id == id && forall j :: 0 <= j < k ==> files[j].id != id
    ensures k == -1 <==> forall j :: 0 <= j < |files| ==> files[j].id != id
  {
    var ids := Ids(files);
    assert forall j :: 0 <= j < |files| ==> ids[j] == files[j].id;
    IndexOfId(ids, id)
  }

  /** `copy()` of a file visual: a new visual built from the visualisation
      and the same name index (so with the constructor's empty diff),
      marked modified. */
  function CopyOf(f: DbFile, newId: nat): (c: DbFile)
    ensures c.id == newId && c.nameIndex == f.nameIndex
    ensures c.status == Modified && c.diff == NoDiff && c.visible
  {
    DbFile(newId, f.nameIndex, Modified, NoDiff, true, None)
  }

  /** What is left of a list of visuals when the visuals of `files` are
      moved elsewhere (`set` takes an object out of its previous list). */
  function Unlisted(ds: seq<nat>, files: seq<DbFile>): (r: seq<nat>)
    ensures |r| <= |ds|
    ensures forall id :: id in r <==> id in ds && IndexOf(files, id) == -1
  {
    if ds == [] then []
    else (if IndexOf(files, ds[0]) == -1 then [ds[0]] else []) + Unlisted(ds[1..], files)
  }

  class VersionDatabaseVisualisation {
    var files: seq<DbFile>
    var useVersionDatabase: bool
    var nameIndex: nat
    var active: bool
    /** The visualisation's own children, as `handleFiles` last set them. */
    var children: seq<Child>
    /** The children of the version-database area, by identity. */
    var databaseChildren: seq<nat>
    /** The visuals that have left the file list, by identity, as they were
        when they left it: a child may still show one until the next
        layout, since the layout reacts only to the number of files. */
    var detached: map<nat, DbFile>
    /** The identity the next new file visual receives. */
    var nextId: nat

    /** Every file visual is a distinct object created by this visualisation,
        and one that has left the list is no longer in it. */
    ghost predicate Valid()
      reads this
    {
      && (forall i :: 0 <= i < |files| ==> files[i].id < nextId)
      && (forall i, j :: 0 <= i < j < |files| ==> files[i].id != files[j].id)
      && (forall id :: id in detached ==> detached[id].id == id && id < nextId)
      && (forall i, id :: 0 <= i < |files| && id in detached ==> files[i].id != id)
    }

    constructor ()
      ensures Valid()
      ensures files == [] && !useVersionDatabase && nameIndex == 0
      ensures children == [] && databaseChildren == [] && detached == map[]
    {
      files := [];
      useVersionDatabase := false;
      nameIndex := 0;
      active := false;
      children := [];
      databaseChildren := [];
      detached := map[];
      nextId := 0;
    }

    /** The visual a child shows: the file with its identity while that
        file is in the list, and otherwise the visual as it left the list. */
    function Shown(c: Child): (r: Option<DbFile>)
      reads this
      requires Valid()
      ensures c.FileChild? && IndexOf(files, c.id) >= 0 ==> r == Some(files[IndexOf(files, c.id)])
      ensures r.Some? ==> c.FileChild? && r.value.id == c.id
      ensures r.None? <==> !c.FileChild? || (IndexOf(files, c.id) == -1 && c.id !in detached)
    {
      match c
      case FileChild(id) =>
        var k := IndexOf(files, id);
        if k >= 0 then Some(files[k]) else if id in detached then Some(detached[id]) else None
      case _ => None
    }

    /** The name a file shows, from where `handleFiles` placed it: in
        version-database mode a file other than the front one is named
        after its index among the database children. */
    function DisplayName(k: nat): (name: string)
      reads this
      requires k < |files|
      ensures !useVersionDatabase ==> name == PlainName(files[k].nameIndex)
      ensures useVersionDatabase && k == 0 ==> name == "file"
      ensures useVersionDatabase ==> (name == "file" <==> IndexOf(files, files[k].id) == 0)
    {
      var f := files[k];
      Name(useVersionDatabase, IndexOf(files, f.id), |databaseChildren|, IndexOfId(databaseChildren, f.id), f.nameIndex)
    }

    /** `handleFiles`: outside version-database mode the children are the
        files; in it, the children are the database area and the front file,
        and the database holds the rest. */
    method HandleFiles()
      modifies this
      ensures files == old(files) && useVersionDatabase == old(useVersionDatabase)
      ensures nameIndex == old(nameIndex) && active == old(active) && nextId == old(nextId)
      ensures detached == old(detached)
      ensures useVersionDatabase ==>
        && databaseChildren == (if |files| > 0 then Ids(files)[1..] else [])
        && children == [VersionDatabaseArea, if |files| > 0 then FileChild(files[0].id) else Missing]
      ensures !useVersionDatabase ==>
        && databaseChildren == Unlisted(old(databaseChildren), files)
        && |children| == |files|
        && forall i :: 0 <= i < |files| ==> children[i] == FileChild(files[i].id)
    {
      if useVersionDatabase {
        databaseChildren := if |files| > 0 then Ids(files)[1..] else [];
        children := [VersionDatabaseArea, if |files| > 0 then FileChild(files[0].id) else Missing];
      } else {
        var fs := files;
        databaseChildren := Unlisted(databaseChildren, fs);
        children := seq(|fs|, i requires 0 <= i < |fs| => FileChild(fs[i].id));
      }
    }

    /** After a layout outside version-database mode, and for as long as
        the files keep their identities, child i shows file i as it is now:
        a change made in place to a file is a change to what its child
        shows. */
    lemma {:induction false} ChildrenShowFiles(i: nat)
      requires Valid() && i < |files|
      requires |children| == |files|
      requires forall j :: 0 <= j < |files| ==> children[j] == FileChild(files[j].id)
      ensures Shown(children[i]) == Some(files[i])
    {
      ShownInList(i);
    }

    /** After a layout in version-database mode, and for as long as the
        files keep their identities, the front child shows the front file
        and database child j shows file j + 1 as they are now. */
    lemma {:induction false} DatabaseChildrenShowFiles(j: nat)
      requires Valid() && j + 1 < |files|
      requires children == [VersionDatabaseArea, FileChild(files[0].id)]
      requires databaseChildren == Ids(files)[1..]
      ensures Shown(children[1]) == Some(files[0])
      ensures Shown(FileChild(databaseChildren[j])) == Some(files[j + 1])
    {
      ShownInList(0);
      ShownInList(j + 1);
    }

    /** Once `handleFiles` has laid out the files in version-database mode,
        file k > 0 is named `Version <|files| - k>`: the versions count down
        from the newest stored one to 1. */
    lemma VersionNamesAfterLayout(k: nat)
      requires Valid()
      requires useVersionDatabase && 1 <= k < |files|
      requires databaseChildren == Ids(files)[1..]
      ensures DisplayName(k) == "Version " + IntToString(|files| - k)
    {
      var f := files[k];
      assert databaseChildren[k - 1] == f.id;
      assert IndexOfId(databaseChildren, f.id) == k - 1;
      assert IndexOf(files, f.id) == k;
      assert DisplayName(k) == Name(true, k, |files| - 1, k - 1, f.nameIndex);
    }

    /** `addFile`: a new visual with status ADDED and the current name index
        goes to the front; the name index moves on by one. */
    method AddFile()
      requires Valid()
      modifies this
      ensures Valid()
      ensures files == [DbFile(old(nextId), old(nameIndex), Added, NoDiff, true, None)] + old(files)
      ensures nameIndex == old(nameIndex) + 1
      ensures useVersionDatabase == old(useVersionDatabase) && active == old(active)
      ensures children == old(children) && databaseChildren == old(databaseChildren)
      ensures detached == old(detached)
    {
      var file := DbFile(nextId, nameIndex, Added, NoDiff, true, None);
      nameIndex := nameIndex + 1;
      nextId := nextId + 1;
      files := [file] + files;
    }

    /** `modifyFile`: the file at the index takes the given diff and status
        MODIFIED, in place, so every child holding it shows the change;
        nothing else changes. */
    method ModifyFile(fileIndex: nat, diff: Diff)
      requires Valid()
      requires fileIndex < |files|
      modifies this
      ensures Valid()
      ensures files == old(files)[fileIndex := old(files)[fileIndex].(status := Modified, diff := diff)]
      ensures Ids(files) == Ids(old(files))
      ensures Shown(FileChild(files[fileIndex].id)) == Some(files[fileIndex])
      ensures nameIndex == old(nameIndex) && useVersionDatabase == old(useVersionDatabase)
      ensures active == old(active) && children == old(children) && databaseChildren == old(databaseChildren)
      ensures detached == old(detached)
    {
      files := files[fileIndex := files[fileIndex].(status := Modified, diff := diff)];
      assert Ids(files) == Ids(old(files));
      ShownInList(fileIndex);
    }

    /** A file of the list is what a child holding its identity shows. */
    lemma ShownInList(k: nat)
      requires Valid() && k < |files|
      ensures Shown(FileChild(files[k].id)) == Some(files[k])
    {
    }

    /** `copyFile`: a copy of the file, status MODIFIED, with a fresh name
        index, goes to the front; the visualisation is no longer active; the
        copy is hidden when the original is deleted. */
    method CopyFile(fileIndex: nat)
      requires Valid()
      requires fileIndex < |files|
      modifies this
      ensures Valid()
      ensures var original := old(files)[fileIndex];
        files == [CopyOf(original, old(nextId)).(nameIndex := old(nameIndex), visible := original.status != Deleted)] + old(files)
      ensures nameIndex == old(nameIndex) + 1 && !active
      ensures useVersionDatabase == old(useVersionDatabase)
      ensures children == old(children) && databaseChildren == old(databaseChildren)
      ensures detached == old(detached)
    {
      var file := files[fileIndex];
      var copy := CopyOf(file, nextId);
      nextId := nextId + 1;
      copy := copy.(nameIndex := nameIndex);
      nameIndex := nameIndex + 1;
      files := [copy] + files;
      active := false;
      if file.status == Deleted {
        copy := copy.(visible := false);
        files := files[0 := copy];
      }
    }

    /** `deleteFile`: the file is marked DELETED; outside version-database
        mode it also leaves the list. Either way a child holding it shows
        it DELETED. */
    method DeleteFile(fileIndex: nat)
      requires Valid()
      requires fileIndex < |files|
      modifies this
      ensures Valid()
      ensures Shown(FileChild(old(files)[fileIndex].id)) == Some(old(files)[fileIndex].(status := Deleted))
      ensures useVersionDatabase ==>
        && files == old(files)[fileIndex := old(files)[fileIndex].(status := Deleted)]
        && Ids(files) == Ids(old(files))
        && detached == old(detached)
      ensures !useVersionDatabase ==>
        && files == old(files)[..fileIndex] + old(files)[fileIndex + 1..]
        && detached == old(detached)[old(files)[fileIndex].id := old(files)[fileIndex].(status := Deleted)]
      ensures nameIndex == old(nameIndex) && useVersionDatabase == old(useVersionDatabase)
      ensures active == old(active) && children == old(children) && databaseChildren == old(databaseChildren)
    {
      var file := files[fileIndex].(status := Deleted);
      files := files[fileIndex := file];
      if !useVersionDatabase {
        files := files[..fileIndex] + files[fileIndex + 1..];
        detached := detached[file.id := file];
        assert IndexOf(files, file.id) == -1;
      } else {
        assert Ids(files) == Ids(old(files));
        ShownInList(fileIndex);
      }
    }

    /** `restoreFile`: the front file is marked DELETED and leaves the list,
        and a copy of the chosen file, with its diff, status MODIFIED and a
        link back to it, takes its place; a child still holding the old
        front file shows it DELETED. */
    method RestoreFile(fileIndex: nat)
      requires Valid()
      requires fileIndex < |files|
      modifies this
      ensures Valid()
      ensures |files| == |old(files)| && files[1..] == old(files)[1..]
      ensures var chosen := old(files)[fileIndex];
        files[0] == CopyOf(chosen, old(nextId)).(diff := chosen.diff, prevVisFile := Some(chosen.id))
      ensures detached == old(detached)[old(files)[0].id := old(files)[0].(status := Deleted)]
      ensures Shown(FileChild(old(files)[0].id)) == Some(old(files)[0].(status := Deleted))
      ensures nameIndex == old(nameIndex) && useVersionDatabase == old(useVersionDatabase)
      ensures active == old(active) && children == old(children) && databaseChildren == old(databaseChildren)
    {
      var file := files[fileIndex];
      var copy := CopyOf(file, nextId);
      nextId := nextId + 1;
      copy := copy.(prevVisFile := Some(file.id));
      var front := files[0].(status := Deleted);
      files := files[0 := front];
      detached := detached[front.id := front];
      files := files[1..];
      files := [copy] + files;
      copy := copy.(diff := file.diff, status := Modified);
      files := files[0 := copy];
      assert IndexOf(files, front.id) == -1;
    }
  }
}
