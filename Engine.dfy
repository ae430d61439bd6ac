/** The reconciliation rules of `prepare_comparison`, as functions of the
    two scans and the hash oracle. The preserve loop builds the two indexes
    `preserve_hashes` (digest to relative paths) and `preserve_path_to_hash`
    (relative path to digest); the cleanup loop then sends every cleanup
    file whose digest is known to exactly one of three plans: delete it (its
    content is already preserved), move it with a `'` added to its name (its
    path is taken by different content), or move it as it is (it is new).
    Each function here describes what a loop has built after a prefix of the
    scan; the loops themselves are in `Comparator`. */
module Engine {
  import opened Wrappers
  import opened Paths

  /** One item of a scan: the path relative to the scanned folder and the
      full path. */
  datatype FileEntry = FileEntry(rel: string, full: string)

  /** A planned `shutil.move(src, dst)`. */
  datatype Move = Move(src: string, dst: string)

  /** A line of the result table: path, digest, action. */
  datatype Row = Row(path: string, sha: string, action: string)

  /** The hash oracle's answer counts only when it is a non-empty string:
      `if not hash_value: continue` skips both `None` and `""`. */
  predicate Hashed(h: Option<string>)
  {
    h.Some? && h.value != []
  }

  /** A scan is a dictionary: no relative path occurs twice. */
  predicate DistinctRels(entries: seq<FileEntry>)
  {
    forall i, j :: 0 <= i < j < |entries| ==> entries[i].rel != entries[j].rel
  }

  predicate DistinctFulls(entries: seq<FileEntry>)
  {
    forall i, j :: 0 <= i < j < |entries| ==> entries[i].full != entries[j].full
  }

  const ReferenceCopy: string := "Reference Copy"
  const RenameAction: string := "MOVE WITH RENAME (path exists but content differs)"
  const NewAction: string := "MOVE - New file to preserve folder"

  function DuplicateOf(first: string): string
  {
    "Delete (duplicate of " + first + ")"
  }

  // ---------------------------------------------------------------------
  // The preserve loop

  datatype Index = Index(hashes: map<string, seq<string>>, pathToHash: map<string, string>)

  /** No digest is listed with an empty list of paths. */
  predicate NonEmptyLists(ix: Index)
  {
    forall h :: h in ix.hashes ==> ix.hashes[h] != []
  }

  /** Filing one hashed preserve file: its path is appended to the list of
      its digest (a new list when the digest is new) and its digest is
      recorded for its path. */
  function Record(ix: Index, rel: string, h: string): (r: Index)
    ensures NonEmptyLists(ix) ==> NonEmptyLists(r)
    ensures r.hashes.Keys == ix.hashes.Keys + {h}
    ensures r.hashes[h] == (if h in ix.hashes then ix.hashes[h] else []) + [rel]
    ensures forall g :: g in ix.hashes && g != h ==> r.hashes[g] == ix.hashes[g]
    ensures r.pathToHash == ix.pathToHash[rel := h]
  {
    Index(ix.hashes[h := (if h in ix.hashes then ix.hashes[h] else []) + [rel]],
          ix.pathToHash[rel := h])
  }

  /** The two indexes after the preserve loop has seen `entries`. */
  function BuildIndex(entries: seq<FileEntry>, hash: string -> Option<string>): (ix: Index)
    ensures NonEmptyLists(ix)
  {
    if entries == [] then Index(map[], map[])
    else
      var ix := BuildIndex(entries[..|entries| - 1], hash);
      var e := entries[|entries| - 1];
      if Hashed(hash(e.full)) then Record(ix, e.rel, hash(e.full).value) else ix
  }

  /** The paths of the scanned files whose digest is `h`, in scan order. */
  function RelsWithHash(entries: seq<FileEntry>, hash: string -> Option<string>, h: string): (r: seq<string>)
    ensures |r| <= |entries|
  {
    if entries == [] then []
    else
      var e := entries[|entries| - 1];
      RelsWithHash(entries[..|entries| - 1], hash, h)
        + (if Hashed(hash(e.full)) && hash(e.full).value == h then [e.rel] else [])
  }

  /** The filter keeps scan order: the paths of a concatenation are the
      paths of its first part followed by those of its second. */
  lemma {:induction false} RelsWithHashConcat(a: seq<FileEntry>, b: seq<FileEntry>, hash: string -> Option<string>, h: string)
    ensures RelsWithHash(a + b, hash, h) == RelsWithHash(a, hash, h) + RelsWithHash(b, hash, h)
  {
    if b == [] {
      assert a + b == a;
    } else {
      var init := b[..|b| - 1];
      assert (a + b)[..|a + b| - 1] == a + init;
      assert (a + b)[|a + b| - 1] == b[|b| - 1];
      RelsWithHashConcat(a, init, hash, h);
    }
  }

  /** `preserve_hashes` lists, for each digest, exactly the preserve files
      with that digest, in scan order; digests of no preserve file are not
      keys. */
  lemma {:induction false} IndexLists(entries: seq<FileEntry>, hash: string -> Option<string>, h: string)
    ensures h in BuildIndex(entries, hash).hashes <==> RelsWithHash(entries, hash, h) != []
    ensures h in BuildIndex(entries, hash).hashes ==>
              BuildIndex(entries, hash).hashes[h] == RelsWithHash(entries, hash, h)
  {
    if entries != [] {
      IndexLists(entries[..|entries| - 1], hash, h);
    }
  }

  /** Membership in `RelsWithHash`. */
  lemma {:induction false} RelsWithHashMembers(entries: seq<FileEntry>, hash: string -> Option<string>, h: string, p: string)
    ensures p in RelsWithHash(entries, hash, h) <==>
              exists i :: 0 <= i < |entries| && entries[i].rel == p
                          && Hashed(hash(entries[i].full)) && hash(entries[i].full).value == h
  {
    if entries != [] {
      var init := entries[..|entries| - 1];
      RelsWithHashMembers(init, hash, h, p);
      if p in RelsWithHash(init, hash, h) {
        var i :| 0 <= i < |init| && init[i].rel == p
                 && Hashed(hash(init[i].full)) && hash(init[i].full).value == h;
        assert entries[i] == init[i];
      }
      forall i | 0 <= i < |init|
        ensures entries[i] == init[i]
      {
      }
    }
  }

  /** Every recorded path belongs to a hashed preserve file, and its
      recorded digest is that file's digest. */
  lemma {:induction false} PathToHashSound(entries: seq<FileEntry>, hash: string -> Option<string>, p: string)
    requires p in BuildIndex(entries, hash).pathToHash
    ensures exists i :: 0 <= i < |entries| && entries[i].rel == p && Hashed(hash(entries[i].full))
                        && BuildIndex(entries, hash).pathToHash[p] == hash(entries[i].full).value
  {
    var init := entries[..|entries| - 1];
    var e := entries[|entries| - 1];
    if !(Hashed(hash(e.full)) && e.rel == p) {
      PathToHashSound(init, hash, p);
      var i :| 0 <= i < |init| && init[i].rel == p && Hashed(hash(init[i].full))
               && BuildIndex(init, hash).pathToHash[p] == hash(init[i].full).value;
      assert entries[i] == init[i];
    }
  }

  /** Every hashed preserve file has its path recorded, with its digest
      (the scan being a dictionary, no later file overwrites it). */
  lemma {:induction false} PathToHashComplete(entries: seq<FileEntry>, hash: string -> Option<string>, i: nat)
    requires DistinctRels(entries)
    requires i < |entries| && Hashed(hash(entries[i].full))
    ensures entries[i].rel in BuildIndex(entries, hash).pathToHash
    ensures BuildIndex(entries, hash).pathToHash[entries[i].rel] == hash(entries[i].full).value
  {
    var init := entries[..|entries| - 1];
    if i < |entries| - 1 {
      assert init[i] == entries[i];
      assert DistinctRels(init) by {
        forall a, b | 0 <= a < b < |init|
          ensures init[a].rel != init[b].rel
        {
          assert init[a] == entries[a] && init[b] == entries[b];
        }
      }
      PathToHashComplete(init, hash, i);
    }
  }

  /** After the preserve loop the two indexes agree: a path is recorded
      with digest `h` exactly when it is listed under `h`. */
  lemma IndexAgreement(entries: seq<FileEntry>, hash: string -> Option<string>, p: string, h: string)
    requires DistinctRels(entries)
    ensures (p in BuildIndex(entries, hash).pathToHash && BuildIndex(entries, hash).pathToHash[p] == h)
            <==> (h in BuildIndex(entries, hash).hashes && p in BuildIndex(entries, hash).hashes[h])
  {
    var ix := BuildIndex(entries, hash);
    IndexLists(entries, hash, h);
    RelsWithHashMembers(entries, hash, h, p);
    if p in ix.pathToHash && ix.pathToHash[p] == h {
      PathToHashSound(entries, hash, p);
    }
    if h in ix.hashes && p in ix.hashes[h] {
      var i :| 0 <= i < |entries| && entries[i].rel == p
               && Hashed(hash(entries[i].full)) && hash(entries[i].full).value == h;
      PathToHashComplete(entries, hash, i);
    }
  }

  /** The list of a digest starts with the first preserve file, in scan
      order, that has it: the file a delete row names. */
  lemma {:induction false} IndexListFirst(entries: seq<FileEntry>, hash: string -> Option<string>, i: nat)
    requires i < |entries| && Hashed(hash(entries[i].full))
    requires forall j :: 0 <= j < i ==> !(Hashed(hash(entries[j].full)) && hash(entries[j].full).value == hash(entries[i].full).value)
    ensures hash(entries[i].full).value in BuildIndex(entries, hash).hashes
    ensures BuildIndex(entries, hash).hashes[hash(entries[i].full).value][0] == entries[i].rel
  {
    var h := hash(entries[i].full).value;
    IndexLists(entries, hash, h);
    RelsWithHashFirst(entries, hash, i);
  }

  lemma {:induction false} RelsWithHashFirst(entries: seq<FileEntry>, hash: string -> Option<string>, i: nat)
    requires i < |entries| && Hashed(hash(entries[i].full))
    requires forall j :: 0 <= j < i ==> !(Hashed(hash(entries[j].full)) && hash(entries[j].full).value == hash(entries[i].full).value)
    ensures RelsWithHash(entries, hash, hash(entries[i].full).value) != []
    ensures RelsWithHash(entries, hash, hash(entries[i].full).value)[0] == entries[i].rel
  {
    var h := hash(entries[i].full).value;
    var init := entries[..|entries| - 1];
    if i < |entries| - 1 {
      assert init[i] == entries[i];
      forall j | 0 <= j < i
        ensures !(Hashed(hash(init[j].full)) && hash(init[j].full).value == h)
      {
        assert init[j] == entries[j];
      }
      RelsWithHashFirst(init, hash, i);
    } else {
      RelsWithHashNone(init, hash, h);
    }
  }

  lemma {:induction false} RelsWithHashNone(entries: seq<FileEntry>, hash: string -> Option<string>, h: string)
    requires forall j :: 0 <= j < |entries| ==> !(Hashed(hash(entries[j].full)) && hash(entries[j].full).value == h)
    ensures RelsWithHash(entries, hash, h) == []
  {
    if entries != [] {
      var init := entries[..|entries| - 1];
      forall j | 0 <= j < |init|
        ensures !(Hashed(hash(init[j].full)) && hash(init[j].full).value == h)
      {
        assert init[j] == entries[j];
      }
      RelsWithHashNone(init, hash, h);
    }
  }

  /** The table rows the preserve loop inserts: one `Reference Copy` row
      per hashed preserve file. */
  function ReferenceRows(entries: seq<FileEntry>, hash: string -> Option<string>): (rows: seq<Row>)
    ensures |rows| == CountHashed(entries, hash)
    ensures forall k :: 0 <= k < |rows| ==> rows[k].action == ReferenceCopy
  {
    if entries == [] then []
    else
      var e := entries[|entries| - 1];
      ReferenceRows(entries[..|entries| - 1], hash)
        + (if Hashed(hash(e.full)) then [Row(e.rel, hash(e.full).value, ReferenceCopy)] else [])
  }

  /** The `Reference Copy` rows are the hashed preserve files in scan
      order, each with its path and digest. */
  lemma {:induction false} ReferenceRowsListHashed(entries: seq<FileEntry>, hash: string -> Option<string>)
    ensures |ReferenceRows(entries, hash)| == |HashedEntries(entries, hash)|
    ensures forall k :: 0 <= k < |ReferenceRows(entries, hash)| ==>
              ReferenceRows(entries, hash)[k]
              == Row(HashedEntries(entries, hash)[k].rel, hash(HashedEntries(entries, hash)[k].full).value, ReferenceCopy)
  {
    if entries != [] {
      var init := entries[..|entries| - 1];
      ReferenceRowsListHashed(init, hash);
      var rows, prev := ReferenceRows(entries, hash), ReferenceRows(init, hash);
      var hs, prevHs := HashedEntries(entries, hash), HashedEntries(init, hash);
      forall k | 0 <= k < |rows|
        ensures rows[k] == Row(hs[k].rel, hash(hs[k].full).value, ReferenceCopy)
      {
        if k < |prev| {
          assert rows[k] == prev[k] && hs[k] == prevHs[k];
        }
      }
    }
  }

  /** `file_hashes` after recording the digests of `entries` on top of `m`:
      a later file with the same path overwrites an earlier one. */
  function RecordHashes(m: map<string, string>, entries: seq<FileEntry>, hash: string -> Option<string>): (r: map<string, string>)
    ensures m.Keys <= r.Keys
  {
    if entries == [] then m
    else
      var e := entries[|entries| - 1];
      var r := RecordHashes(m, entries[..|entries| - 1], hash);
      if Hashed(hash(e.full)) then r[e.rel := hash(e.full).value] else r
  }

  /** A path has a digest in `file_hashes` exactly when it had one before
      or some hashed file of the scan has that path; a hashed file's own
      digest is the one kept. */
  lemma {:induction false} RecordHashesKeys(m: map<string, string>, entries: seq<FileEntry>, hash: string -> Option<string>, p: string)
    ensures p in RecordHashes(m, entries, hash) <==>
              p in m || exists i :: 0 <= i < |entries| && entries[i].rel == p && Hashed(hash(entries[i].full))
  {
    if entries != [] {
      var init := entries[..|entries| - 1];
      RecordHashesKeys(m, init, hash, p);
      forall i | 0 <= i < |init|
        ensures entries[i] == init[i]
      {
      }
    }
  }

  lemma {:induction false} RecordHashesValue(m: map<string, string>, entries: seq<FileEntry>, hash: string -> Option<string>, i: nat)
    requires DistinctRels(entries)
    requires i < |entries| && Hashed(hash(entries[i].full))
    ensures entries[i].rel in RecordHashes(m, entries, hash)
    ensures RecordHashes(m, entries, hash)[entries[i].rel] == hash(entries[i].full).value
  {
    var init := entries[..|entries| - 1];
    if i < |entries| - 1 {
      assert init[i] == entries[i];
      assert DistinctRels(init) by {
        forall a, b | 0 <= a < b < |init|
          ensures init[a].rel != init[b].rel
        {
          assert init[a] == entries[a] && init[b] == entries[b];
        }
      }
      RecordHashesValue(m, init, hash, i);
      RecordHashesKeys(m, init, hash, entries[i].rel);
    }
  }

  // ---------------------------------------------------------------------
  // The cleanup loop

  datatype Kind = Duplicate | Renamed | Fresh

  /** Content comes first: a cleanup file whose digest some preserve file
      has is a duplicate even when its path is also taken; otherwise a
      taken path makes it a rename, and anything else is new. */
  function KindOf(ix: Index, rel: string, h: string): (k: Kind)
  {
    if h in ix.hashes then Duplicate
    else if rel in ix.pathToHash then Renamed
    else Fresh
  }

  /** `delete_plan` after the cleanup loop has seen `entries`. */
  function Deletes(ix: Index, entries: seq<FileEntry>, hash: string -> Option<string>): (r: seq<string>)
    ensures |r| <= |entries|
  {
    if entries == [] then []
    else
      var e := entries[|entries| - 1];
      Deletes(ix, entries[..|entries| - 1], hash)
        + (if Hashed(hash(e.full)) && KindOf(ix, e.rel, hash(e.full).value) == Duplicate
           then [e.full] else [])
  }

  /** The moves the cleanup loop plans for the hashed files of one kind,
      each to its destination `dst(rel)`. */
  function MovesTo(ix: Index, entries: seq<FileEntry>, hash: string -> Option<string>,
                   kind: Kind, dst: string -> string): (r: seq<Move>)
    ensures |r| <= |entries|
  {
    if entries == [] then []
    else
      var e := entries[|entries| - 1];
      MovesTo(ix, entries[..|entries| - 1], hash, kind, dst)
        + (if Hashed(hash(e.full)) && KindOf(ix, e.rel, hash(e.full).value) == kind
           then [Move(e.full, dst(e.rel))] else [])
  }

  /** The moves of one kind, each to its `Target` under the preserve
      folder `pf`. */
  function Moves(ix: Index, pf: string, entries: seq<FileEntry>, hash: string -> Option<string>,
                 kind: Kind): seq<Move>
  {
    MovesTo(ix, entries, hash, kind, TargetOf(pf, kind))
  }

  /** `move_mismatch_plan`: each move goes to the preserve folder under the
      primed relative path. */
  function Renames(ix: Index, pf: string, entries: seq<FileEntry>, hash: string -> Option<string>): seq<Move>
  {
    Moves(ix, pf, entries, hash, Renamed)
  }

  /** `move_new_plan`: each move goes to the preserve folder under the
      unchanged relative path. */
  function News(ix: Index, pf: string, entries: seq<FileEntry>, hash: string -> Option<string>): seq<Move>
  {
    Moves(ix, pf, entries, hash, Fresh)
  }

  /** Where a planned move takes a cleanup file: `os.path.join(preserve_folder,
      add_prime_to_filename(rel_path))` for a rename, `os.path.join(preserve_folder,
      rel_path)` otherwise. */
  function Target(pf: string, kind: Kind, rel: string): string
  {
    if kind == Renamed then Join(pf, AddPrime(rel)) else Join(pf, rel)
  }

  /** `Target` for one preserve folder and kind, as a function of the
      relative path. */
  function TargetOf(pf: string, kind: Kind): (dst: string -> string)
    ensures forall rel :: dst(rel) == Target(pf, kind, rel)
  {
    rel => Target(pf, kind, rel)
  }

  /** The number of scanned files whose digest is known. */
  function CountHashed(entries: seq<FileEntry>, hash: string -> Option<string>): (n: nat)
    ensures n <= |entries|
  {
    if entries == [] then 0
    else
      CountHashed(entries[..|entries| - 1], hash)
        + (if Hashed(hash(entries[|entries| - 1].full)) then 1 else 0)
  }

  /** The scanned files whose digest is known, in scan order. */
  function HashedEntries(entries: seq<FileEntry>, hash: string -> Option<string>): (r: seq<FileEntry>)
    ensures |r| == CountHashed(entries, hash)
    ensures forall k :: 0 <= k < |r| ==> Hashed(hash(r[k].full))
    ensures forall e :: e in r <==> e in entries && Hashed(hash(e.full))
  {
    if entries == [] then []
    else
      var e := entries[|entries| - 1];
      assert entries == entries[..|entries| - 1] + [e];
      HashedEntries(entries[..|entries| - 1], hash) + (if Hashed(hash(e.full)) then [e] else [])
  }

  /** The filter keeps scan order: the hashed entries of a concatenation
      are those of its first part followed by those of its second. */
  lemma {:induction false} HashedEntriesConcat(a: seq<FileEntry>, b: seq<FileEntry>, hash: string -> Option<string>)
    ensures HashedEntries(a + b, hash) == HashedEntries(a, hash) + HashedEntries(b, hash)
  {
    if b == [] {
      assert a + b == a;
    } else {
      var init := b[..|b| - 1];
      assert (a + b)[..|a + b| - 1] == a + init;
      assert (a + b)[|a + b| - 1] == b[|b| - 1];
      HashedEntriesConcat(a, init, hash);
    }
  }

  /** Counting: the three plans together hold as many entries as there are
      hashed cleanup files. */
  lemma {:induction false} PlansPartition(ix: Index, pf: string, entries: seq<FileEntry>, hash: string -> Option<string>)
    ensures |Deletes(ix, entries, hash)| + |Renames(ix, pf, entries, hash)| + |News(ix, pf, entries, hash)|
            == CountHashed(entries, hash)
  {
    if entries != [] {
      PlansPartition(ix, pf, entries[..|entries| - 1], hash);
    }
  }

  /** A cleanup file is the source of a move of a given kind exactly when
      it is hashed and of that kind. */
  lemma MovedFrom(ix: Index, pf: string, entries: seq<FileEntry>, hash: string -> Option<string>,
                  kind: Kind, i: nat)
    requires DistinctFulls(entries) && i < |entries|
    ensures (exists m :: m in Moves(ix, pf, entries, hash, kind) && m.src == entries[i].full)
            <==> Hashed(hash(entries[i].full)) && KindOf(ix, entries[i].rel, hash(entries[i].full).value) == kind
  {
    var e := entries[i];
    if exists m :: m in Moves(ix, pf, entries, hash, kind) && m.src == e.full {
      var m :| m in Moves(ix, pf, entries, hash, kind) && m.src == e.full;
      MovesExactly(ix, pf, entries, hash, kind, m);
      var j :| 0 <= j < |entries| && Hashed(hash(entries[j].full))
               && KindOf(ix, entries[j].rel, hash(entries[j].full).value) == kind
               && m == Move(entries[j].full, Target(pf, kind, entries[j].rel));
      assert j == i;
    }
    if Hashed(hash(e.full)) && KindOf(ix, e.rel, hash(e.full).value) == kind {
      MovePlanned(ix, entries, hash, kind, TargetOf(pf, kind), i);
    }
  }

  /** Each cleanup file, file by file: a hashed one is in `delete_plan`, is
      the source of a move in `move_mismatch_plan`, or is the source of a
      move in `move_new_plan`, as its kind says, and so in exactly one of
      them; a file whose hashing failed is in none. */
  lemma EachFileOnePlan(ix: Index, pf: string, entries: seq<FileEntry>, hash: string -> Option<string>, i: nat)
    requires DistinctFulls(entries) && i < |entries|
    ensures entries[i].full in Deletes(ix, entries, hash)
            <==> Hashed(hash(entries[i].full)) && KindOf(ix, entries[i].rel, hash(entries[i].full).value) == Duplicate
    ensures (exists m :: m in Renames(ix, pf, entries, hash) && m.src == entries[i].full)
            <==> Hashed(hash(entries[i].full)) && KindOf(ix, entries[i].rel, hash(entries[i].full).value) == Renamed
    ensures (exists m :: m in News(ix, pf, entries, hash) && m.src == entries[i].full)
            <==> Hashed(hash(entries[i].full)) && KindOf(ix, entries[i].rel, hash(entries[i].full).value) == Fresh
  {
    DeletesExactly(ix, entries, hash, entries[i].full);
    MovedFrom(ix, pf, entries, hash, Renamed, i);
    MovedFrom(ix, pf, entries, hash, Fresh, i);
  }

  /** A full path is in `delete_plan` exactly when it is a hashed cleanup
      file whose digest some preserve file has. */
  lemma {:induction false} DeletesExactly(ix: Index, entries: seq<FileEntry>, hash: string -> Option<string>, full: string)
    ensures full in Deletes(ix, entries, hash) <==>
              exists i :: 0 <= i < |entries| && entries[i].full == full && Hashed(hash(full))
                          && hash(full).value in ix.hashes
  {
    if entries != [] {
      var init := entries[..|entries| - 1];
      DeletesExactly(ix, init, hash, full);
      forall i | 0 <= i < |init|
        ensures entries[i] == init[i]
      {
      }
    }
  }

  lemma MovesExactly(ix: Index, pf: string, entries: seq<FileEntry>, hash: string -> Option<string>,
                                        kind: Kind, m: Move)
    ensures m in Moves(ix, pf, entries, hash, kind) <==>
              exists i :: 0 <= i < |entries| && Hashed(hash(entries[i].full))
                          && KindOf(ix, entries[i].rel, hash(entries[i].full).value) == kind
                          && m == Move(entries[i].full, Target(pf, kind, entries[i].rel))
  {
    if m in Moves(ix, pf, entries, hash, kind) {
      var i := MovedSource(ix, entries, hash, kind, TargetOf(pf, kind), m);
    }
    if exists i :: 0 <= i < |entries| && Hashed(hash(entries[i].full))
                   && KindOf(ix, entries[i].rel, hash(entries[i].full).value) == kind
                   && m == Move(entries[i].full, Target(pf, kind, entries[i].rel)) {
      var i :| 0 <= i < |entries| && Hashed(hash(entries[i].full))
               && KindOf(ix, entries[i].rel, hash(entries[i].full).value) == kind
               && m == Move(entries[i].full, Target(pf, kind, entries[i].rel));
      MovePlanned(ix, entries, hash, kind, TargetOf(pf, kind), i);
    }
  }

  /** The move planned for a hashed cleanup file of the right kind is in
      the plan. */
  lemma {:induction false} MovePlanned(ix: Index, entries: seq<FileEntry>, hash: string -> Option<string>,
                                       kind: Kind, dst: string -> string, i: nat)
    requires i < |entries| && Hashed(hash(entries[i].full))
    requires KindOf(ix, entries[i].rel, hash(entries[i].full).value) == kind
    ensures Move(entries[i].full, dst(entries[i].rel)) in MovesTo(ix, entries, hash, kind, dst)
  {
    var n := |entries| - 1;
    if i < n {
      assert entries[..n][i] == entries[i];
      MovePlanned(ix, entries[..n], hash, kind, dst, i);
    }
  }

  /** A move is in `move_mismatch_plan` exactly when it takes a hashed
      cleanup file whose digest no preserve file has, but whose path a
      preserve file has, to the primed path under the preserve folder. */
  lemma RenamesExactly(ix: Index, pf: string, entries: seq<FileEntry>, hash: string -> Option<string>, m: Move)
    ensures m in Renames(ix, pf, entries, hash) <==>
              exists i :: 0 <= i < |entries| && Hashed(hash(entries[i].full))
                          && hash(entries[i].full).value !in ix.hashes
                          && entries[i].rel in ix.pathToHash
                          && m == Move(entries[i].full, Join(pf, AddPrime(entries[i].rel)))
  {
    MovesExactly(ix, pf, entries, hash, Renamed, m);
  }

  /** A move is in `move_new_plan` exactly when it takes a hashed cleanup
      file whose digest and path no preserve file has to the same relative
      path under the preserve folder. */
  lemma NewsExactly(ix: Index, pf: string, entries: seq<FileEntry>, hash: string -> Option<string>, m: Move)
    ensures m in News(ix, pf, entries, hash) <==>
              exists i :: 0 <= i < |entries| && Hashed(hash(entries[i].full))
                          && hash(entries[i].full).value !in ix.hashes
                          && entries[i].rel !in ix.pathToHash
                          && m == Move(entries[i].full, Join(pf, entries[i].rel))
  {
    MovesExactly(ix, pf, entries, hash, Fresh, m);
  }

  /** Content takes precedence: a hashed cleanup file whose digest some
      preserve file has is deleted and never moved, even when a preserve
      file has its path. */
  lemma ContentTakesPrecedence(ix: Index, pf: string, entries: seq<FileEntry>, hash: string -> Option<string>, i: nat)
    requires i < |entries| && Hashed(hash(entries[i].full)) && hash(entries[i].full).value in ix.hashes
    ensures entries[i].full in Deletes(ix, entries, hash)
    ensures forall m :: m in Renames(ix, pf, entries, hash) ==> m.src != entries[i].full
    ensures forall m :: m in News(ix, pf, entries, hash) ==> m.src != entries[i].full
  {
    DeletesExactly(ix, entries, hash, entries[i].full);
    forall m | m in Renames(ix, pf, entries, hash)
      ensures m.src != entries[i].full
    {
      RenamesExactly(ix, pf, entries, hash, m);
    }
    forall m | m in News(ix, pf, entries, hash)
      ensures m.src != entries[i].full
    {
      NewsExactly(ix, pf, entries, hash, m);
    }
  }

  /** The scan position of a file in `delete_plan`. */
  lemma DeletedSource(ix: Index, entries: seq<FileEntry>, hash: string -> Option<string>, full: string)
      returns (i: nat)
    requires full in Deletes(ix, entries, hash)
    ensures i < |entries| && entries[i].full == full && Hashed(hash(full))
    ensures KindOf(ix, entries[i].rel, hash(full).value) == Duplicate
  {
    DeletesExactly(ix, entries, hash, full);
    i :| 0 <= i < |entries| && entries[i].full == full && Hashed(hash(full)) && hash(full).value in ix.hashes;
  }

  /** The scan position of the file a planned move takes. */
  lemma {:induction false} MovedSource(ix: Index, entries: seq<FileEntry>, hash: string -> Option<string>,
                                       kind: Kind, dst: string -> string, m: Move)
      returns (i: nat)
    requires m in MovesTo(ix, entries, hash, kind, dst)
    ensures i < |entries| && entries[i].full == m.src && Hashed(hash(m.src))
    ensures KindOf(ix, entries[i].rel, hash(m.src).value) == kind
    ensures m.dst == dst(entries[i].rel)
  {
    var n := |entries| - 1;
    if m in MovesTo(ix, entries[..n], hash, kind, dst) {
      i := MovedSource(ix, entries[..n], hash, kind, dst, m);
      assert entries[..n][i] == entries[i];
    } else {
      i := n;
    }
  }

  /** A cleanup file is never in two plans: no source of a move is also
      deleted, and no file is both renamed and moved as new. */
  lemma PlansDisjoint(ix: Index, pf: string, entries: seq<FileEntry>, hash: string -> Option<string>, m: Move, n: Move)
    requires DistinctFulls(entries)
    requires m in Renames(ix, pf, entries, hash) && n in News(ix, pf, entries, hash)
    ensures m.src !in Deletes(ix, entries, hash)
    ensures n.src !in Deletes(ix, entries, hash)
    ensures m.src != n.src
  {
    var i := MovedSource(ix, entries, hash, Renamed, TargetOf(pf, Renamed), m);
    var j := MovedSource(ix, entries, hash, Fresh, TargetOf(pf, Fresh), n);
    if m.src in Deletes(ix, entries, hash) {
      var k := DeletedSource(ix, entries, hash, m.src);
    }
    if n.src in Deletes(ix, entries, hash) {
      var k := DeletedSource(ix, entries, hash, n.src);
    }
  }

  /** The table row of a hashed cleanup file: a delete row names the first
      preserve file with the same digest. */
  function CleanupRow(ix: Index, rel: string, h: string): (row: Row)
    requires NonEmptyLists(ix)
    ensures row.path == rel && row.sha == h
  {
    match KindOf(ix, rel, h)
    case Duplicate => Row(rel, h, DuplicateOf(ix.hashes[h][0]))
    case Renamed => Row(rel, h, RenameAction)
    case Fresh => Row(rel, h, NewAction)
  }

  /** The rows the cleanup loop inserts, one per hashed cleanup file. */
  function CleanupRows(ix: Index, entries: seq<FileEntry>, hash: string -> Option<string>): (rows: seq<Row>)
    requires NonEmptyLists(ix)
    ensures |rows| == CountHashed(entries, hash)
  {
    if entries == [] then []
    else
      var e := entries[|entries| - 1];
      CleanupRows(ix, entries[..|entries| - 1], hash)
        + (if Hashed(hash(e.full)) then [CleanupRow(ix, e.rel, hash(e.full).value)] else [])
  }

  /** The cleanup rows are the hashed cleanup files in scan order, each
      with the row its kind calls for. */
  lemma {:induction false} CleanupRowsListHashed(ix: Index, entries: seq<FileEntry>, hash: string -> Option<string>)
    requires NonEmptyLists(ix)
    ensures |CleanupRows(ix, entries, hash)| == |HashedEntries(entries, hash)|
    ensures forall k :: 0 <= k < |CleanupRows(ix, entries, hash)| ==>
              CleanupRows(ix, entries, hash)[k]
              == CleanupRow(ix, HashedEntries(entries, hash)[k].rel, hash(HashedEntries(entries, hash)[k].full).value)
  {
    if entries != [] {
      var init := entries[..|entries| - 1];
      CleanupRowsListHashed(ix, init, hash);
      var rows, prev := CleanupRows(ix, entries, hash), CleanupRows(ix, init, hash);
      var hs, prevHs := HashedEntries(entries, hash), HashedEntries(init, hash);
      forall k | 0 <= k < |rows|
        ensures rows[k] == CleanupRow(ix, hs[k].rel, hash(hs[k].full).value)
      {
        if k < |prev| {
          assert rows[k] == prev[k] && hs[k] == prevHs[k];
        }
      }
    }
  }

  /** What the cleanup loop has built so far: `delete_plan`,
      `move_mismatch_plan`, `move_new_plan`, `file_hashes` and the rows. */
  datatype Outcome = Outcome(deletes: seq<string>, renames: seq<Move>, news: seq<Move>,
                             hashes: map<string, string>, rows: seq<Row>)

  /** One iteration of the cleanup loop, branch by branch as the loop body
      is written; a renamed file goes to `renameTo(rel)` and a new one to
      `newTo(rel)` (the loop uses `TargetOf` for both). */
  function CleanupStep(ix: Index, renameTo: string -> string, newTo: string -> string, o: Outcome, e: FileEntry,
                       hash: string -> Option<string>): (r: Outcome)
    requires NonEmptyLists(ix)
  {
    var hv := hash(e.full);
    if !Hashed(hv) then o
    else
      var h := hv.value;
      var hashes := o.hashes[e.rel := h];
      if h in ix.hashes then
        Outcome(o.deletes + [e.full], o.renames, o.news, hashes,
                o.rows + [Row(e.rel, h, DuplicateOf(ix.hashes[h][0]))])
      else if e.rel in ix.pathToHash then
        Outcome(o.deletes, o.renames + [Move(e.full, renameTo(e.rel))], o.news, hashes,
                o.rows + [Row(e.rel, h, RenameAction)])
      else
        Outcome(o.deletes, o.renames, o.news + [Move(e.full, newTo(e.rel))], hashes,
                o.rows + [Row(e.rel, h, NewAction)])
  }

  /** The cleanup loop run over `entries`, starting from `o`. */
  function CleanupLoop(ix: Index, renameTo: string -> string, newTo: string -> string, o: Outcome,
                       entries: seq<FileEntry>, hash: string -> Option<string>): Outcome
    requires NonEmptyLists(ix)
  {
    if entries == [] then o
    else CleanupStep(ix, renameTo, newTo, CleanupLoop(ix, renameTo, newTo, o, entries[..|entries| - 1], hash),
                     entries[|entries| - 1], hash)
  }

  /** The loop's `delete_plan` is the reference filter `Deletes`. */
  lemma {:induction false} CleanupLoopDeletes(ix: Index, renameTo: string -> string, newTo: string -> string, o: Outcome,
                                              entries: seq<FileEntry>, hash: string -> Option<string>)
    requires NonEmptyLists(ix)
    ensures CleanupLoop(ix, renameTo, newTo, o, entries, hash).deletes == o.deletes + Deletes(ix, entries, hash)
  {
    if entries != [] {
      CleanupLoopDeletes(ix, renameTo, newTo, o, entries[..|entries| - 1], hash);
    }
  }

  /** The loop's `move_mismatch_plan` is `MovesTo` its rename destinations
      (`Renames` for `TargetOf`). */
  lemma {:induction false} CleanupLoopRenames(ix: Index, renameTo: string -> string, newTo: string -> string, o: Outcome,
                                              entries: seq<FileEntry>, hash: string -> Option<string>)
    requires NonEmptyLists(ix)
    ensures CleanupLoop(ix, renameTo, newTo, o, entries, hash).renames
            == o.renames + MovesTo(ix, entries, hash, Renamed, renameTo)
  {
    if entries != [] {
      var n := |entries| - 1;
      var e := entries[n];
      var prev := CleanupLoop(ix, renameTo, newTo, o, entries[..n], hash);
      CleanupLoopRenames(ix, renameTo, newTo, o, entries[..n], hash);
      var last := if Hashed(hash(e.full)) && KindOf(ix, e.rel, hash(e.full).value) == Renamed
                  then [Move(e.full, renameTo(e.rel))] else [];
      assert MovesTo(ix, entries, hash, Renamed, renameTo)
             == MovesTo(ix, entries[..n], hash, Renamed, renameTo) + last;
      assert CleanupStep(ix, renameTo, newTo, prev, e, hash).renames == prev.renames + last;
    }
  }

  /** The loop's `move_new_plan` is `MovesTo` its new-file destinations
      (`News` for `TargetOf`). */
  lemma {:induction false} CleanupLoopNews(ix: Index, renameTo: string -> string, newTo: string -> string, o: Outcome,
                                              entries: seq<FileEntry>, hash: string -> Option<string>)
    requires NonEmptyLists(ix)
    ensures CleanupLoop(ix, renameTo, newTo, o, entries, hash).news
            == o.news + MovesTo(ix, entries, hash, Fresh, newTo)
  {
    if entries != [] {
      CleanupLoopNews(ix, renameTo, newTo, o, entries[..|entries| - 1], hash);
    }
  }

  /** The loop records every hashed cleanup file's digest in `file_hashes`. */
  lemma {:induction false} CleanupLoopHashes(ix: Index, renameTo: string -> string, newTo: string -> string, o: Outcome,
                                              entries: seq<FileEntry>, hash: string -> Option<string>)
    requires NonEmptyLists(ix)
    ensures CleanupLoop(ix, renameTo, newTo, o, entries, hash).hashes == RecordHashes(o.hashes, entries, hash)
  {
    if entries != [] {
      CleanupLoopHashes(ix, renameTo, newTo, o, entries[..|entries| - 1], hash);
    }
  }

  /** The loop adds one row per hashed cleanup file. */
  lemma {:induction false} CleanupLoopRows(ix: Index, renameTo: string -> string, newTo: string -> string, o: Outcome,
                                              entries: seq<FileEntry>, hash: string -> Option<string>)
    requires NonEmptyLists(ix)
    ensures CleanupLoop(ix, renameTo, newTo, o, entries, hash).rows == o.rows + CleanupRows(ix, entries, hash)
  {
    if entries != [] {
      CleanupLoopRows(ix, renameTo, newTo, o, entries[..|entries| - 1], hash);
    }
  }

  /** The quirk of a preserve file whose hashing fails: it is in neither
      index, so a cleanup file with the same path and unknown content is
      planned as a new file, and its move targets the preserve file's own
      full path. */
  lemma FailedPreserveHashMovesOntoIt(pEntries: seq<FileEntry>, cEntries: seq<FileEntry>,
                                      hash: string -> Option<string>, pf: string, i: nat, j: nat)
    requires DistinctRels(pEntries)
    requires i < |pEntries| && !Hashed(hash(pEntries[i].full))
    requires pEntries[i].full == Join(pf, pEntries[i].rel)
    requires j < |cEntries| && cEntries[j].rel == pEntries[i].rel && Hashed(hash(cEntries[j].full))
    requires hash(cEntries[j].full).value !in BuildIndex(pEntries, hash).hashes
    ensures Move(cEntries[j].full, pEntries[i].full) in News(BuildIndex(pEntries, hash), pf, cEntries, hash)
  {
    var ix := BuildIndex(pEntries, hash);
    var p := pEntries[i].rel;
    if p in ix.pathToHash {
      PathToHashSound(pEntries, hash, p);
    }
    NewsExactly(ix, pf, cEntries, hash, Move(cEntries[j].full, pEntries[i].full));
  }
}
