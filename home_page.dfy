/**
 * The home page's staging of CIPRS record files dropped by the user: a drop
 * is refused when it would stage more than MaxFiles files or when one of
 * its files has the name of a file already staged; otherwise its files are
 * added. A staged file can be removed again.
 *
 * The staged files form a set that iterates in insertion order; it is kept
 * here as a sequence without repeats, in that order, because the order in
 * which the staged files are visited decides which duplicate is reported.
 */
module HomePage {
  import opened Sequences

  /** The most files that may be staged at once. */
  const MaxFiles: nat := 8

  /** The error shown when a drop would stage more than MaxFiles files. */
  const MaxFilesError: string := "Maximum file limit exceeded"

  /**
   * The error shown when a dropped file has the name of a staged one; the
   * name can be read back from between the quotes, so different names give
   * different messages.
   */
  function DuplicateError(name: string): (msg: string)
    ensures |msg| == |name| + 31 && msg[30..|msg| - 1] == name
  {
    "Cannot upload duplicate file \"" + name + "\""
  }

  datatype Option<T> = None | Some(value: T)

  /** A browser file object: `id` stands for its identity, `name` is its file name. */
  datatype File = File(id: nat, name: string)

  /** What the drop zone hands over: the dropped files in order, and its own messages. */
  datatype Drop = Drop(files: seq<File>, errors: seq<string>, warnings: seq<string>)

  /** Adding a file to the staged set: a file already there is not added again. */
  function Add(staged: seq<File>, f: File): (r: seq<File>)
    ensures forall g :: g in r <==> g in staged || g == f
    ensures Distinct(staged) ==> Distinct(r)
    ensures |staged| <= |r| <= |staged| + 1 && r[..|staged|] == staged
  {
    if f in staged then staged else staged + [f]
  }

  /**
   * The staged set after adding each of `files` in turn: it holds exactly
   * the old files and the new ones, keeps the old ones first and in their
   * order, and never grows by more than |files|.
   */
  function AddAll(staged: seq<File>, files: seq<File>): (r: seq<File>)
    ensures forall g :: g in r <==> g in staged || g in files
    ensures Distinct(staged) ==> Distinct(r)
    ensures |staged| <= |r| <= |staged| + |files| && r[..|staged|] == staged
  {
    if files == [] then staged
    else
      var front := files[..|files| - 1];
      assert files == front + [files[|files| - 1]];
      Add(AddAll(staged, front), files[|files| - 1])
  }

  /** Deleting a file from the staged set: only that file goes, the rest keep their order. */
  function Delete(staged: seq<File>, f: File): (r: seq<File>)
    ensures forall g :: g in r <==> g in staged && g != f
    ensures Distinct(staged) ==> Distinct(r)
    ensures Distinct(staged) ==> |r| == if f in staged then |staged| - 1 else |staged|
  {
    if staged == [] then []
    else
      var rest := Delete(staged[1..], f);
      assert staged == [staged[0]] + staged[1..];
      assert Distinct(staged) ==> staged[0] !in staged[1..] && Distinct(staged[1..]);
      if staged[0] == f then rest else [staged[0]] + rest
  }

  /** The first of `files` with the given name, if any. */
  function FindByName(files: seq<File>, name: string): (r: Option<File>)
    ensures r.None? <==> forall i :: 0 <= i < |files| ==> files[i].name != name
    ensures r.Some? ==> r.value in files && r.value.name == name
  {
    if files == [] then None
    else if files[0].name == name then Some(files[0])
    else
      var r := FindByName(files[1..], name);
      assert forall i :: 0 <= i < |files| - 1 ==> files[1..][i] == files[i + 1];
      r
  }

  /** FindByName gives the first file with the name, not any later one. */
  lemma {:induction false} FindByNameIsFirst(files: seq<File>, name: string, i: nat)
    requires i < |files| && files[i].name == name
    requires forall j :: 0 <= j < i ==> files[j].name != name
    ensures FindByName(files, name) == Some(files[i])
  {
    if i > 0 {
      var tail := files[1..];
      assert files[0].name != name;
      assert forall j :: 0 <= j < i - 1 ==> tail[j] == files[j + 1];
      FindByNameIsFirst(tail, name, i - 1);
    }
  }

  /**
   * The duplicate a drop is refused for: visiting the staged files in
   * order, every staged file whose name some dropped file has replaces the
   * previous finding with the first such dropped file, so the result comes
   * from the last colliding staged file. None exactly when no staged file
   * shares a name with a dropped one; names repeated among the dropped
   * files themselves play no part.
   */
  function LastDuplicate(staged: seq<File>, dropped: seq<File>): (r: Option<File>)
    ensures r.None? <==> forall i :: 0 <= i < |staged| ==> FindByName(dropped, staged[i].name).None?
    ensures r.Some? ==> r.value in dropped
  {
    if staged == [] then None
    else
      var n := |staged| - 1;
      var front := staged[..n];
      assert forall i :: 0 <= i < n ==> front[i] == staged[i];
      var found := FindByName(dropped, staged[n].name);
      if found.Some? then found else LastDuplicate(front, dropped)
  }

  /**
   * The reported duplicate is what FindByName gives for the last staged
   * file that collides: if staged file i has a namesake among the dropped
   * files and no later staged file has one, the duplicate comes from i.
   */
  lemma {:induction false} LastDuplicateIsLast(staged: seq<File>, dropped: seq<File>, i: nat)
    requires i < |staged| && FindByName(dropped, staged[i].name).Some?
    requires forall k :: i < k < |staged| ==> FindByName(dropped, staged[k].name).None?
    ensures LastDuplicate(staged, dropped) == FindByName(dropped, staged[i].name)
  {
    var n := |staged| - 1;
    var front := staged[..n];
    if i == n {
      assert LastDuplicate(staged, dropped) == FindByName(dropped, staged[n].name);
    } else {
      assert FindByName(dropped, staged[n].name).None?;
      assert LastDuplicate(staged, dropped) == LastDuplicate(front, dropped);
      assert front[i] == staged[i];
      assert forall k :: i < k < n ==> front[k] == staged[k];
      LastDuplicateIsLast(front, dropped, i);
    }
  }

  /** A drop is refused for a duplicate exactly when some staged file and some dropped file share a name. */
  lemma DuplicateIffSharedName(staged: seq<File>, dropped: seq<File>)
    ensures LastDuplicate(staged, dropped).Some? <==>
      exists i, j :: 0 <= i < |staged| && 0 <= j < |dropped| && staged[i].name == dropped[j].name
  {
    if LastDuplicate(staged, dropped).Some? {
      var i :| 0 <= i < |staged| && FindByName(dropped, staged[i].name).Some?;
      var d := FindByName(dropped, staged[i].name).value;
      var j :| 0 <= j < |dropped| && dropped[j] == d;
      assert staged[i].name == dropped[j].name;
    }
  }

  /**
   * Two dropped files with the same name are not duplicates of each other:
   * when no staged file has their name the drop is not refused, and both
   * are staged after the staged files.
   */
  lemma SameNameWithinDropAccepted(staged: seq<File>, a: File, b: File)
    requires a.name == b.name && a != b
    requires forall i :: 0 <= i < |staged| ==> staged[i].name != a.name
    ensures LastDuplicate(staged, [a, b]) == None
    ensures a !in staged && b !in staged ==> AddAll(staged, [a, b]) == staged + [a, b]
  {
    NoNamesakeStaged(staged, [a, b], a.name);
    if a !in staged && b !in staged {
      AddTwoFresh(staged, a, b);
    }
  }

  /** A drop whose files all carry a name no staged file has holds no duplicate. */
  lemma NoNamesakeStaged(staged: seq<File>, dropped: seq<File>, name: string)
    requires forall i :: 0 <= i < |staged| ==> staged[i].name != name
    requires forall j :: 0 <= j < |dropped| ==> dropped[j].name == name
    ensures LastDuplicate(staged, dropped) == None
  {
    DuplicateIffSharedName(staged, dropped);
  }

  /** Two new distinct files are staged after the staged ones, in drop order. */
  lemma AddTwoFresh(staged: seq<File>, a: File, b: File)
    requires a != b && a !in staged && b !in staged
    ensures AddAll(staged, [a, b]) == staged + [a, b]
  {
    assert [a, b][..1] == [a] && [a][..0] == [];
    assert AddAll(staged, [a]) == staged + [a];
  }

  /** The home page's state: the staged files and the messages shown under the drop zone. */
  class HomePage {
    var files: seq<File>
    var dragErrors: seq<string>
    var dragWarnings: seq<string>

    /** The staged files never repeat and never exceed MaxFiles. */
    ghost predicate Valid()
      reads this
    {
      Distinct(files) && |files| <= MaxFiles
    }

    /** A page with nothing staged and no messages. */
    constructor ()
      ensures Valid()
      ensures files == [] && dragErrors == [] && dragWarnings == []
    {
      files := [];
      dragErrors := [];
      dragWarnings := [];
    }

    /**
     * A copy of the staged set with `newFiles` added to it; the staged set
     * itself is left as it is.
     */
    method MergeFileSets(newFiles: seq<File>) returns (merged: seq<File>)
      ensures merged == AddAll(files, newFiles)
      ensures forall g :: g in merged <==> g in files || g in newFiles
    {
      merged := files;
      for j := 0 to |newFiles|
        invariant merged == AddAll(files, newFiles[..j])
      {
        assert newFiles[..j + 1][..j] == newFiles[..j];
        merged := Add(merged, newFiles[j]);
      }
      assert newFiles[..|newFiles|] == newFiles;
    }

    /**
     * Handles a drop: the drop's own messages are shown first; a drop that
     * would stage more than MaxFiles files is refused with MaxFilesError; a
     * drop with a file named like a staged file is refused with the error
     * naming LastDuplicate; otherwise the dropped files are added.
     */
    method HandleDrop(drop: Drop)
      requires Valid()
      modifies this
      ensures Valid()
      ensures dragWarnings == drop.warnings
      ensures MaxFiles < |old(files)| + |drop.files| ==>
        files == old(files) && dragErrors == [MaxFilesError]
      ensures |old(files)| + |drop.files| <= MaxFiles ==>
        match LastDuplicate(old(files), drop.files)
        case Some(dup) => files == old(files) && dragErrors == [DuplicateError(dup.name)]
        case None => files == AddAll(old(files), drop.files) && dragErrors == drop.errors
    {
      dragErrors := drop.errors;
      dragWarnings := drop.warnings;
      if MaxFiles < |files| + |drop.files| {
        dragErrors := [MaxFilesError];
        return;
      }
      var hasDups := false;
      for i := 0 to |files|
        invariant files == old(files) && dragWarnings == drop.warnings
        invariant hasDups <==> LastDuplicate(files[..i], drop.files).Some?
        invariant dragErrors == match LastDuplicate(files[..i], drop.files)
          case Some(dup) => [DuplicateError(dup.name)]
          case None => drop.errors
      {
        assert files[..i + 1][..i] == files[..i];
        var dup := FindByName(drop.files, files[i].name);
        if dup.Some? {
          dragErrors := [DuplicateError(dup.value.name)];
          hasDups := true;
        }
      }
      assert files[..|files|] == files;
      if !hasDups {
        files := MergeFileSets(drop.files);
      }
    }

    /** Removes one staged file; the other files and the messages stay. */
    method HandleRemoveFile(file: File)
      requires Valid()
      modifies this
      ensures Valid()
      ensures files == Delete(old(files), file)
      ensures forall g :: g in files <==> g in old(files) && g != file
      ensures dragErrors == old(dragErrors) && dragWarnings == old(dragWarnings)
    {
      var copied := files;
      copied := Delete(copied, file);
      files := copied;
    }
  }
}
