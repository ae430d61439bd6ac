/** The state and the commands of the comparator window: the two selected
    folders, the three plans, `file_hashes`, the rows of the result table
    and the sort state are the fields of a `Session`; `prepare_comparison`
    rebuilds the plans from a scan of both folders, the three `execute_*`
    commands carry out one plan and scan again, and `sort_by_column`
    reorders the rows. The folder listings (`os.walk`) and the hash oracle
    (`calculate_sha256`) are parameters of the commands. */
module Comparator {
  import opened Wrappers
  import opened Paths
  import opened Engine
  import opened Columns
  import opened FileSystem

  // ---------------------------------------------------------------------
  // scan_files

  /** Index of the entry with relative path `rel`, or `|entries|`. */
  function RelIndex(entries: seq<FileEntry>, rel: string): (k: nat)
    ensures k <= |entries|
    ensures k < |entries| ==> entries[k].rel == rel
    ensures forall j :: 0 <= j < k ==> entries[j].rel != rel
  {
    if entries == [] then 0
    else if entries[0].rel == rel then 0
    else 1 + RelIndex(entries[1..], rel)
  }

  /** `file_dict[rel_path] = full_path`: an existing key keeps its position
      and takes the new value; a new key goes at the end. */
  function Put(entries: seq<FileEntry>, e: FileEntry): (r: seq<FileEntry>)
    requires DistinctRels(entries)
    ensures DistinctRels(r)
    ensures e in r
    ensures forall x :: x in r ==> x == e || x in entries
    ensures forall x :: x in entries && x.rel != e.rel ==> x in r
  {
    var k := RelIndex(entries, e.rel);
    if k < |entries| then
      var r := entries[k := e];
      assert r[k] == e;
      assert forall i :: 0 <= i < |entries| && i != k ==> r[i] == entries[i];
      r
    else entries + [e]
  }

  /** The dictionary `scan_files` returns, in insertion order, for the
      `(rel_path, full_path)` pairs the walk of the folder produces. */
  function Scan(walk: seq<FileEntry>): (entries: seq<FileEntry>)
    ensures DistinctRels(entries)
    ensures forall x :: x in entries ==> x in walk
  {
    if walk == [] then []
    else Put(Scan(walk[..|walk| - 1]), walk[|walk| - 1])
  }

  /** `scan_files(base_folder)`, given the walk of `base_folder`. */
  method ScanFiles(walk: seq<FileEntry>) returns (entries: seq<FileEntry>)
    ensures entries == Scan(walk)
  {
    entries := [];
    for i := 0 to |walk|
      invariant entries == Scan(walk[..i])
    {
      assert walk[..i + 1][..i] == walk[..i];
      entries := Put(entries, walk[i]);
    }
    assert walk[..|walk|] == walk;
  }

  /** A walked pair that no later pair overrides is in the scan: the last
      assignment to a key wins. */
  lemma {:induction false} ScanKeys(walk: seq<FileEntry>, j: nat)
    requires j < |walk|
    requires forall l :: j < l < |walk| ==> walk[l].rel != walk[j].rel
    ensures walk[j] in Scan(walk)
  {
    var n := |walk| - 1;
    var prev := Scan(walk[..n]);
    assert Scan(walk) == Put(prev, walk[n]);
    if j < n {
      assert forall l :: j < l < n ==> walk[..n][l] == walk[l];
      assert walk[..n][j] == walk[j];
      ScanKeys(walk[..n], j);
      assert walk[j] in prev && walk[j].rel != walk[n].rel;
    }
  }

  /** Every walked path has an entry in the scan. */
  lemma {:induction false} ScanCovers(walk: seq<FileEntry>, j: nat)
    requires j < |walk|
    ensures exists x :: x in Scan(walk) && x.rel == walk[j].rel
    decreases |walk| - j
  {
    if forall l :: j < l < |walk| ==> walk[l].rel != walk[j].rel {
      ScanKeys(walk, j);
    } else {
      var l :| j < l < |walk| && walk[l].rel == walk[j].rel;
      ScanCovers(walk, l);
    }
  }

  /** Distinct full paths in the walk stay distinct in the scan. */
  lemma ScanFullsDistinct(walk: seq<FileEntry>)
    requires forall a, b :: 0 <= a < b < |walk| ==> walk[a].full != walk[b].full
    ensures DistinctFulls(Scan(walk))
  {
    var s := Scan(walk);
    forall a, b | 0 <= a < b < |s|
      ensures s[a].full != s[b].full
    {
      assert s[a] in s && s[b] in s;
      var x :| 0 <= x < |walk| && walk[x] == s[a];
      var y :| 0 <= y < |walk| && walk[y] == s[b];
    }
  }

  // ---------------------------------------------------------------------
  // The session

  class Session {
    var preserveFolder: string
    var cleanupFolder: string
    var deletePlan: seq<string>
    var moveMismatchPlan: seq<Move>
    var moveNewPlan: seq<Move>
    var fileHashes: map<string, string>
    var rows: seq<Row>
    var sortColumn: string
    var sortReverse: bool
    var headings: seq<string>

    ghost predicate Valid()
      reads this
    {
      |headings| == |ColumnNames|
    }

    /** The state when the window opens. */
    constructor ()
      ensures Valid()
      ensures preserveFolder == [] && cleanupFolder == []
      ensures deletePlan == [] && moveMismatchPlan == [] && moveNewPlan == []
      ensures fileHashes == map[] && rows == []
      ensures SortState(sortColumn, sortReverse) == InitialSort
      ensures headings == ColumnNames
    {
      preserveFolder := [];
      cleanupFolder := [];
      deletePlan := [];
      moveMismatchPlan := [];
      moveNewPlan := [];
      fileHashes := map[];
      rows := [];
      sortColumn := InitialSort.column;
      sortReverse := InitialSort.reverse;
      headings := ColumnNames;
    }

    /** `browse_preserve_folder`: the dialog's answer, `""` when cancelled. */
    method SelectPreserveFolder(answer: string)
      modifies this
      ensures preserveFolder == answer
      ensures unchanged(this`cleanupFolder, this`deletePlan, this`moveMismatchPlan, this`moveNewPlan,
                        this`fileHashes, this`rows, this`sortColumn, this`sortReverse, this`headings)
    {
      preserveFolder := answer;
    }

    /** `browse_cleanup_folder`. */
    method SelectCleanupFolder(answer: string)
      modifies this
      ensures cleanupFolder == answer
      ensures unchanged(this`preserveFolder, this`deletePlan, this`moveMismatchPlan, this`moveNewPlan,
                        this`fileHashes, this`rows, this`sortColumn, this`sortReverse, this`headings)
    {
      cleanupFolder := answer;
    }

    /** The plans, digests and rows are those of a comparison of the two
        walks under `hash`. */
    ghost predicate Reconciled(pWalk: seq<FileEntry>, cWalk: seq<FileEntry>, hash: string -> Option<string>)
      reads this
    {
      var p := Scan(pWalk);
      var c := Scan(cWalk);
      var ix := BuildIndex(p, hash);
      && deletePlan == Deletes(ix, c, hash)
      && moveMismatchPlan == Renames(ix, preserveFolder, c, hash)
      && moveNewPlan == News(ix, preserveFolder, c, hash)
      && fileHashes == RecordHashes(RecordHashes(map[], p, hash), c, hash)
      && rows == ReferenceRows(p, hash) + CleanupRows(ix, c, hash)
    }

    /** What `prepare_comparison` leaves: the folders and the sort state
        are kept; without both folders nothing changes, and otherwise the
        comparison is rebuilt from scratch. */
    twostate predicate Refreshed(pWalk: seq<FileEntry>, cWalk: seq<FileEntry>, hash: string -> Option<string>)
      reads this
    {
      && preserveFolder == old(preserveFolder) && cleanupFolder == old(cleanupFolder)
      && sortColumn == old(sortColumn) && sortReverse == old(sortReverse) && headings == old(headings)
      && if old(preserveFolder) == [] || old(cleanupFolder) == [] then
           && deletePlan == old(deletePlan) && moveMismatchPlan == old(moveMismatchPlan)
           && moveNewPlan == old(moveNewPlan) && fileHashes == old(fileHashes) && rows == old(rows)
         else Reconciled(pWalk, cWalk, hash)
    }

    /** `prepare_comparison`, given the walks of the two folders. */
    method PrepareComparison(pWalk: seq<FileEntry>, cWalk: seq<FileEntry>, hash: string -> Option<string>)
      requires Valid()
      modifies this
      ensures Valid()
      ensures Refreshed(pWalk, cWalk, hash)
    {
      if preserveFolder == [] || cleanupFolder == [] {
        return;
      }
      rows := [];
      deletePlan := [];
      moveMismatchPlan := [];
      moveNewPlan := [];
      fileHashes := map[];
      CompareFolders(pWalk, cWalk, hash);
    }

    /** The body of `prepare_comparison` after the plans are cleared: scan
        both folders, index the preserve files, classify the cleanup files. */
    method CompareFolders(pWalk: seq<FileEntry>, cWalk: seq<FileEntry>, hash: string -> Option<string>)
      requires deletePlan == [] && moveMismatchPlan == [] && moveNewPlan == []
      requires fileHashes == map[] && rows == []
      modifies this`deletePlan, this`moveMismatchPlan, this`moveNewPlan, this`fileHashes, this`rows
      ensures Reconciled(pWalk, cWalk, hash)
    {
      var preserveFiles := ScanFiles(pWalk);
      var cleanupFiles := ScanFiles(cWalk);
      var ix := HashPreserveFiles(preserveFiles, hash);
      ClassifyCleanupFiles(ix, preserveFiles, cleanupFiles, hash);
    }

    /** The preserve loop: builds the two indexes, records the digests and
        adds a `Reference Copy` row per hashed file. */
    method HashPreserveFiles(preserveFiles: seq<FileEntry>, hash: string -> Option<string>) returns (ix: Index)
      requires fileHashes == map[] && rows == []
      modifies this`fileHashes, this`rows
      ensures ix == BuildIndex(preserveFiles, hash)
      ensures fileHashes == RecordHashes(map[], preserveFiles, hash)
      ensures rows == ReferenceRows(preserveFiles, hash)
    {
      var preserveHashes: map<string, seq<string>> := map[];
      var preservePathToHash: map<string, string> := map[];
      for i := 0 to |preserveFiles|
        invariant Index(preserveHashes, preservePathToHash) == BuildIndex(preserveFiles[..i], hash)
        invariant fileHashes == RecordHashes(map[], preserveFiles[..i], hash)
        invariant rows == ReferenceRows(preserveFiles[..i], hash)
      {
        assert preserveFiles[..i + 1][..i] == preserveFiles[..i];
        preserveHashes, preservePathToHash := HashPreserveFile(preserveHashes, preservePathToHash, preserveFiles[i], hash);
      }
      assert preserveFiles[..|preserveFiles|] == preserveFiles;
      ix := Index(preserveHashes, preservePathToHash);
    }

    /** One pass of the preserve loop: a file that hashed is added to both
        indexes, to `file_hashes` and to the table; any other is skipped. */
    method HashPreserveFile(preserveHashes: map<string, seq<string>>, preservePathToHash: map<string, string>,
                            e: FileEntry, hash: string -> Option<string>)
        returns (nextHashes: map<string, seq<string>>, nextPathToHash: map<string, string>)
      modifies this`fileHashes, this`rows
      ensures Index(nextHashes, nextPathToHash)
              == if Hashed(hash(e.full)) then Record(Index(preserveHashes, preservePathToHash), e.rel, hash(e.full).value)
                 else Index(preserveHashes, preservePathToHash)
      ensures fileHashes == if Hashed(hash(e.full)) then old(fileHashes)[e.rel := hash(e.full).value] else old(fileHashes)
      ensures rows == old(rows) + if Hashed(hash(e.full)) then [Row(e.rel, hash(e.full).value, ReferenceCopy)] else []
    {
      nextHashes, nextPathToHash := preserveHashes, preservePathToHash;
      var relPath := e.rel;
      var hashValue := hash(e.full);
      if hashValue.Some? && hashValue.value != [] {
        var h := hashValue.value;
        if h !in nextHashes {
          nextHashes := nextHashes[h := []];
        }
        nextHashes := nextHashes[h := nextHashes[h] + [relPath]];
        nextPathToHash := nextPathToHash[relPath := h];
        fileHashes := fileHashes[relPath := h];
        rows := rows + [Row(relPath, h, ReferenceCopy)];
      }
    }

    /** The cleanup loop: sends each hashed cleanup file to one plan and
        adds its row. */
    method ClassifyCleanupFiles(ix: Index, preserveFiles: seq<FileEntry>, cleanupFiles: seq<FileEntry>,
                                hash: string -> Option<string>)
      requires ix == BuildIndex(preserveFiles, hash)
      requires deletePlan == [] && moveMismatchPlan == [] && moveNewPlan == []
      requires fileHashes == RecordHashes(map[], preserveFiles, hash)
      requires rows == ReferenceRows(preserveFiles, hash)
      modifies this`deletePlan, this`moveMismatchPlan, this`moveNewPlan, this`fileHashes, this`rows
      ensures deletePlan == Deletes(ix, cleanupFiles, hash)
      ensures moveMismatchPlan == Renames(ix, preserveFolder, cleanupFiles, hash)
      ensures moveNewPlan == News(ix, preserveFolder, cleanupFiles, hash)
      ensures fileHashes == RecordHashes(RecordHashes(map[], preserveFiles, hash), cleanupFiles, hash)
      ensures rows == ReferenceRows(preserveFiles, hash) + CleanupRows(ix, cleanupFiles, hash)
    {
      var pf := preserveFolder;
      ghost var start := Outcome([], [], [], fileHashes, rows);
      for j := 0 to |cleanupFiles|
        invariant Outcome(deletePlan, moveMismatchPlan, moveNewPlan, fileHashes, rows)
                  == CleanupLoop(ix, TargetOf(pf, Renamed), TargetOf(pf, Fresh), start, cleanupFiles[..j], hash)
      {
        assert cleanupFiles[..j + 1][..j] == cleanupFiles[..j];
        ClassifyCleanupFile(ix, cleanupFiles[j], hash);
      }
      assert cleanupFiles[..|cleanupFiles|] == cleanupFiles;
      CleanupLoopDeletes(ix, TargetOf(pf, Renamed), TargetOf(pf, Fresh), start, cleanupFiles, hash);
      CleanupLoopRenames(ix, TargetOf(pf, Renamed), TargetOf(pf, Fresh), start, cleanupFiles, hash);
      CleanupLoopNews(ix, TargetOf(pf, Renamed), TargetOf(pf, Fresh), start, cleanupFiles, hash);
      CleanupLoopHashes(ix, TargetOf(pf, Renamed), TargetOf(pf, Fresh), start, cleanupFiles, hash);
      CleanupLoopRows(ix, TargetOf(pf, Renamed), TargetOf(pf, Fresh), start, cleanupFiles, hash);
    }

    /** One pass of the cleanup loop: a file that hashed is recorded in
        `file_hashes`, goes to the plan its kind selects and gets its row;
        any other is skipped. */
    method ClassifyCleanupFile(ix: Index, e: FileEntry, hash: string -> Option<string>)
      requires NonEmptyLists(ix)
      modifies this`deletePlan, this`moveMismatchPlan, this`moveNewPlan, this`fileHashes, this`rows
      ensures Outcome(deletePlan, moveMismatchPlan, moveNewPlan, fileHashes, rows)
              == CleanupStep(ix, TargetOf(preserveFolder, Renamed), TargetOf(preserveFolder, Fresh),
                             old(Outcome(deletePlan, moveMismatchPlan, moveNewPlan, fileHashes, rows)), e, hash)
    {
      var pf := preserveFolder;
      var relPath := e.rel;
      var fullPath := e.full;
      var hashValue := hash(fullPath);
      if hashValue.Some? && hashValue.value != [] {
        var h := hashValue.value;
        fileHashes := fileHashes[relPath := h];
        if h in ix.hashes {
          deletePlan := deletePlan + [fullPath];
          var matching := ix.hashes[h];
          rows := rows + [Row(relPath, h, DuplicateOf(matching[0]))];
        } else if relPath in ix.pathToHash {
          PlanRename(fullPath, relPath);
          rows := rows + [Row(relPath, h, RenameAction)];
        } else {
          moveNewPlan := moveNewPlan + [Move(fullPath, Join(pf, relPath))];
          rows := rows + [Row(relPath, h, NewAction)];
        }
      }
    }

    /** The rename branch of the cleanup loop: the file is planned to move
        to the primed relative path under the preserve folder. */
    method PlanRename(fullPath: string, relPath: string)
      modifies this`moveMismatchPlan
      ensures moveMismatchPlan == old(moveMismatchPlan) + [Move(fullPath, TargetOf(preserveFolder, Renamed)(relPath))]
    {
      var newRelPath := AddPrime(relPath);
      moveMismatchPlan := moveMismatchPlan + [Move(fullPath, Join(preserveFolder, newRelPath))];
    }

    /** `execute_delete`: removes every file of `delete_plan`, counting the
        failures without stopping, reports how many were deleted and how
        many failed, and compares the folders again. An empty plan does
        nothing. `ok` records which removals succeeded. */
    method ExecuteDelete(disk: Disk, pWalk: seq<FileEntry>, cWalk: seq<FileEntry>, hash: string -> Option<string>)
        returns (deleted: nat, errors: nat, ghost ok: seq<bool>)
      requires Valid()
      modifies this, disk
      ensures Valid()
      ensures old(deletePlan) == [] ==>
                deleted == 0 && errors == 0 && unchanged(this) && disk.files == old(disk.files)
      ensures old(deletePlan) != [] ==>
                && |ok| == |old(deletePlan)| && errors == Failures(ok)
                && deleted == |old(deletePlan)| - errors
                && disk.files == AfterRemoves(old(disk.files), old(deletePlan), ok)
                && RemovesFound(old(disk.files), old(deletePlan), ok)
                && Refreshed(pWalk, cWalk, hash)
    {
      if deletePlan == [] {
        return 0, 0, [];
      }
      var plan := deletePlan;
      errors, ok := CarryOutRemoves(disk, plan);
      deleted := |plan| - errors;
      PrepareComparison(pWalk, cWalk, hash);
    }

    /** `execute_move_mismatch`: carries out `move_mismatch_plan` the same
        way. */
    method ExecuteMoveMismatch(disk: Disk, pWalk: seq<FileEntry>, cWalk: seq<FileEntry>, hash: string -> Option<string>)
        returns (moved: nat, errors: nat, ghost ok: seq<bool>)
      requires Valid()
      modifies this, disk
      ensures Valid()
      ensures old(moveMismatchPlan) == [] ==>
                moved == 0 && errors == 0 && unchanged(this) && disk.files == old(disk.files)
      ensures old(moveMismatchPlan) != [] ==>
                && |ok| == |old(moveMismatchPlan)| && errors == Failures(ok)
                && moved == |old(moveMismatchPlan)| - errors
                && disk.files == AfterMoves(old(disk.files), old(moveMismatchPlan), ok)
                && MovesFound(old(disk.files), old(moveMismatchPlan), ok)
                && Refreshed(pWalk, cWalk, hash)
    {
      if moveMismatchPlan == [] {
        return 0, 0, [];
      }
      var plan := moveMismatchPlan;
      errors, ok := CarryOutMoves(disk, plan);
      moved := |plan| - errors;
      PrepareComparison(pWalk, cWalk, hash);
    }

    /** `execute_move_new`: carries out `move_new_plan` the same way. */
    method ExecuteMoveNew(disk: Disk, pWalk: seq<FileEntry>, cWalk: seq<FileEntry>, hash: string -> Option<string>)
        returns (moved: nat, errors: nat, ghost ok: seq<bool>)
      requires Valid()
      modifies this, disk
      ensures Valid()
      ensures old(moveNewPlan) == [] ==>
                moved == 0 && errors == 0 && unchanged(this) && disk.files == old(disk.files)
      ensures old(moveNewPlan) != [] ==>
                && |ok| == |old(moveNewPlan)| && errors == Failures(ok)
                && moved == |old(moveNewPlan)| - errors
                && disk.files == AfterMoves(old(disk.files), old(moveNewPlan), ok)
                && MovesFound(old(disk.files), old(moveNewPlan), ok)
                && Refreshed(pWalk, cWalk, hash)
    {
      if moveNewPlan == [] {
        return 0, 0, [];
      }
      var plan := moveNewPlan;
      errors, ok := CarryOutMoves(disk, plan);
      moved := |plan| - errors;
      PrepareComparison(pWalk, cWalk, hash);
    }

    /** `sort_by_column`: updates the sort state, stably sorts the rows on
        the clicked column's key and puts the arrow on that column's
        header only. */
    method SortByColumn(column: string)
      requires Valid()
      modifies this
      ensures Valid()
      ensures SortState(sortColumn, sortReverse) == Click(old(SortState(sortColumn, sortReverse)), column)
      ensures rows == SortRows(old(rows), column, sortReverse)
      ensures forall k :: 0 <= k < |ColumnNames| ==> headings[k] == Heading(column, sortReverse, ColumnNames[k])
      ensures unchanged(this`preserveFolder, this`cleanupFolder, this`deletePlan, this`moveMismatchPlan,
                        this`moveNewPlan, this`fileHashes)
    {
      if sortColumn == column {
        sortReverse := !sortReverse;
      } else {
        sortColumn := column;
        sortReverse := false;
      }
      rows := SortRows(rows, column, sortReverse);
      MarkHeadings(column);
    }

    /** The header loop of `sort_by_column`: the arrow of the current
        direction on `column`, the plain name on every other column. */
    method MarkHeadings(column: string)
      requires Valid()
      modifies this`headings
      ensures Valid()
      ensures forall k :: 0 <= k < |ColumnNames| ==> headings[k] == Heading(column, sortReverse, ColumnNames[k])
    {
      for k := 0 to |ColumnNames|
        invariant |headings| == |ColumnNames|
        invariant forall l :: 0 <= l < k ==> headings[l] == Heading(column, sortReverse, ColumnNames[l])
      {
        var col := ColumnNames[k];
        if col == column {
          var direction := if sortReverse then Down else Up;
          headings := headings[k := col + " " + [direction]];
        } else {
          headings := headings[k := col];
        }
      }
    }
  }

  /** After a comparison, the three plans together hold one entry per
      hashed cleanup file (a file whose hashing failed is in none), and the
      table has a row per hashed file of either folder. */
  lemma ReconciledCounts(s: Session, pWalk: seq<FileEntry>, cWalk: seq<FileEntry>, hash: string -> Option<string>)
    requires s.Reconciled(pWalk, cWalk, hash)
    ensures |s.deletePlan| + |s.moveMismatchPlan| + |s.moveNewPlan| == CountHashed(Scan(cWalk), hash)
    ensures |s.rows| == CountHashed(Scan(pWalk), hash) + CountHashed(Scan(cWalk), hash)
  {
    PlansPartition(BuildIndex(Scan(pWalk), hash), s.preserveFolder, Scan(cWalk), hash);
  }

  /** The loop of the delete command: removes every planned path, counting
      the failures without stopping. */
  method CarryOutRemoves(disk: Disk, plan: seq<string>) returns (errors: nat, ghost ok: seq<bool>)
    modifies disk
    ensures |ok| == |plan| && errors == Failures(ok)
    ensures disk.files == AfterRemoves(old(disk.files), plan, ok)
    ensures RemovesFound(old(disk.files), plan, ok)
  {
    errors := 0;
    ok := [];
    for idx := 0 to |plan|
      invariant |ok| == idx && errors == Failures(ok)
      invariant disk.files == AfterRemoves(old(disk.files), plan[..idx], ok)
      invariant RemovesFound(old(disk.files), plan[..idx], ok)
    {
      var removed := disk.Remove(plan[idx]);
      if !removed {
        errors := errors + 1;
      }
      assert plan[..idx + 1][..idx] == plan[..idx];
      assert (ok + [removed])[..idx] == ok;
      ok := ok + [removed];
    }
    assert plan[..|plan|] == plan;
  }

  /** The loop shared by the two move commands: runs every planned move,
      counting the failures without stopping. */
  method CarryOutMoves(disk: Disk, plan: seq<Move>) returns (errors: nat, ghost ok: seq<bool>)
    modifies disk
    ensures |ok| == |plan| && errors == Failures(ok)
    ensures disk.files == AfterMoves(old(disk.files), plan, ok)
    ensures MovesFound(old(disk.files), plan, ok)
  {
    errors := 0;
    ok := [];
    for idx := 0 to |plan|
      invariant |ok| == idx && errors == Failures(ok)
      invariant disk.files == AfterMoves(old(disk.files), plan[..idx], ok)
      invariant MovesFound(old(disk.files), plan[..idx], ok)
    {
      var src := plan[idx].src;
      var dst := plan[idx].dst;
      var moved := disk.Move(src, dst);
      if !moved {
        errors := errors + 1;
      }
      assert plan[..idx + 1][..idx] == plan[..idx];
      assert (ok + [moved])[..idx] == ok;
      ok := ok + [moved];
    }
    assert plan[..|plan|] == plan;
  }
}
