/** The files the tool deletes and moves, as a map from full path to
    content. `os.remove` and `shutil.move` may fail for reasons the model
    does not see (permissions, a locked file, a vanished directory); a
    failure changes nothing, and an operation on a missing file always
    fails. */
module FileSystem {
  import opened Engine

  class Disk {
    var files: map<string, string>

    constructor (initial: map<string, string>)
      ensures files == initial
    {
      files := initial;
    }

    /** `os.remove(path)`. */
    method Remove(path: string) returns (ok: bool)
      modifies this
      ensures ok ==> path in old(files) && files == Removed(old(files), path)
      ensures !ok ==> files == old(files)
    {
      if path in files {
        ok := *;
        if ok {
          files := Removed(files, path);
        }
      } else {
        ok := false;
      }
    }

    /** `shutil.move(src, dst)`: an existing `dst` is replaced. */
    method Move(src: string, dst: string) returns (ok: bool)
      modifies this
      ensures ok ==> src in old(files) && files == Moved(old(files), src, dst)
      ensures !ok ==> files == old(files)
    {
      if src in files {
        ok := *;
        if ok {
          files := Moved(files, src, dst);
        }
      } else {
        ok := false;
      }
    }
  }

  function Removed(files: map<string, string>, path: string): (r: map<string, string>)
    ensures path !in r
    ensures forall p :: p != path ==> (p in r <==> p in files)
    ensures forall p :: p in r ==> r[p] == files[p]
  {
    files - {path}
  }

  function Moved(files: map<string, string>, src: string, dst: string): (r: map<string, string>)
    requires src in files
    ensures dst in r && r[dst] == files[src]
    ensures src != dst ==> src !in r
    ensures forall p :: p != src && p != dst ==> (p in r <==> p in files)
    ensures forall p :: p in r && p != dst ==> r[p] == files[p]
  {
    (files - {src})[dst := files[src]]
  }

  /** The files after removing `paths` in order, where `ok[k]` tells whether
      the `k`-th removal succeeded. */
  function AfterRemoves(files: map<string, string>, paths: seq<string>, ok: seq<bool>): map<string, string>
    requires |ok| == |paths|
  {
    if paths == [] then files
    else
      var before := AfterRemoves(files, paths[..|paths| - 1], ok[..|ok| - 1]);
      if ok[|ok| - 1] then Removed(before, paths[|paths| - 1]) else before
  }

  /** The files after the planned moves in order, where `ok[k]` tells
      whether the `k`-th move succeeded. */
  function AfterMoves(files: map<string, string>, moves: seq<Move>, ok: seq<bool>): map<string, string>
    requires |ok| == |moves|
  {
    if moves == [] then files
    else
      var before := AfterMoves(files, moves[..|moves| - 1], ok[..|ok| - 1]);
      var m := moves[|moves| - 1];
      if ok[|ok| - 1] && m.src in before then Moved(before, m.src, m.dst) else before
  }

  /** Every removal reported as a success found its path on the disk as
      the earlier removals had left it. */
  predicate RemovesFound(files: map<string, string>, paths: seq<string>, ok: seq<bool>)
    requires |ok| == |paths|
  {
    paths == []
    || (var n := |paths| - 1;
        && RemovesFound(files, paths[..n], ok[..n])
        && (ok[n] ==> paths[n] in AfterRemoves(files, paths[..n], ok[..n])))
  }

  /** Every move reported as a success found its source on the disk as the
      earlier moves had left it. */
  predicate MovesFound(files: map<string, string>, moves: seq<Move>, ok: seq<bool>)
    requires |ok| == |moves|
  {
    moves == []
    || (var n := |moves| - 1;
        && MovesFound(files, moves[..n], ok[..n])
        && (ok[n] ==> moves[n].src in AfterMoves(files, moves[..n], ok[..n])))
  }

  /** A removal whose path is no longer on the disk when its turn comes is
      counted as a failure. */
  lemma {:induction false} MissingRemovalFails(files: map<string, string>, paths: seq<string>, ok: seq<bool>, k: nat)
    requires |ok| == |paths| && RemovesFound(files, paths, ok) && k < |paths|
    ensures paths[k] !in AfterRemoves(files, paths[..k], ok[..k]) ==> !ok[k]
  {
    var n := |paths| - 1;
    if k < n {
      MissingRemovalFails(files, paths[..n], ok[..n], k);
      assert paths[..n][..k] == paths[..k] && ok[..n][..k] == ok[..k];
    }
  }

  /** A move whose source is no longer on the disk when its turn comes is
      counted as a failure. */
  lemma {:induction false} MissingSourceFails(files: map<string, string>, moves: seq<Move>, ok: seq<bool>, k: nat)
    requires |ok| == |moves| && MovesFound(files, moves, ok) && k < |moves|
    ensures moves[k].src !in AfterMoves(files, moves[..k], ok[..k]) ==> !ok[k]
  {
    var n := |moves| - 1;
    if k < n {
      MissingSourceFails(files, moves[..n], ok[..n], k);
      assert moves[..n][..k] == moves[..k] && ok[..n][..k] == ok[..k];
    }
  }

  /** Removals only shrink the disk. */
  lemma {:induction false} AfterRemovesShrinks(files: map<string, string>, paths: seq<string>, ok: seq<bool>, p: string)
    requires |ok| == |paths|
    ensures p in AfterRemoves(files, paths, ok) ==> p in files
  {
    if paths != [] {
      AfterRemovesShrinks(files, paths[..|paths| - 1], ok[..|ok| - 1], p);
    }
  }

  /** In a delete run, removing a path that was not on the disk at the
      start always fails. */
  lemma AbsentRemovalFails(files: map<string, string>, paths: seq<string>, ok: seq<bool>, k: nat)
    requires |ok| == |paths| && RemovesFound(files, paths, ok) && k < |paths|
    ensures paths[k] !in files ==> !ok[k]
  {
    AfterRemovesShrinks(files, paths[..k], ok[..k], paths[k]);
    MissingRemovalFails(files, paths, ok, k);
  }

  /** The number of failed operations. */
  function Failures(ok: seq<bool>): (n: nat)
    ensures n <= |ok|
  {
    if ok == [] then 0
    else Failures(ok[..|ok| - 1]) + (if ok[|ok| - 1] then 0 else 1)
  }

  /** Removing a list of paths touches nothing else, and a path whose
      removal succeeded is gone at the end. */
  lemma {:induction false} RemovesOnlyPlanned(files: map<string, string>, paths: seq<string>, ok: seq<bool>, p: string)
    requires |ok| == |paths|
    ensures p !in paths ==> (p in AfterRemoves(files, paths, ok) <==> p in files)
    ensures p !in paths && p in files ==> AfterRemoves(files, paths, ok)[p] == files[p]
    ensures (exists k :: 0 <= k < |paths| && paths[k] == p && ok[k]) ==> p !in AfterRemoves(files, paths, ok)
  {
    if paths != [] {
      var n := |paths| - 1;
      RemovesOnlyPlanned(files, paths[..n], ok[..n], p);
      if p !in paths {
        assert forall k :: 0 <= k < n ==> paths[..n][k] == paths[k];
      }
      if exists k :: 0 <= k < |paths| && paths[k] == p && ok[k] {
        var k :| 0 <= k < |paths| && paths[k] == p && ok[k];
        if k < n {
          assert paths[..n][k] == p && ok[..n][k];
        }
      }
    }
  }

  /** Moves touch only their sources and destinations. */
  lemma {:induction false} MovesOnlyPlanned(files: map<string, string>, moves: seq<Move>, ok: seq<bool>, p: string)
    requires |ok| == |moves|
    requires forall k :: 0 <= k < |moves| ==> p != moves[k].src && p != moves[k].dst
    ensures p in AfterMoves(files, moves, ok) <==> p in files
    ensures p in files ==> AfterMoves(files, moves, ok)[p] == files[p]
  {
    if moves != [] {
      var n := |moves| - 1;
      assert forall k :: 0 <= k < n ==> moves[..n][k] == moves[k];
      MovesOnlyPlanned(files, moves[..n], ok[..n], p);
    }
  }

  /** The failures and the successes add up to the number of operations. */
  lemma {:induction false} FailuresCount(ok: seq<bool>)
    ensures Failures(ok) == |ok| - |set k | 0 <= k < |ok| && ok[k]|
  {
    if ok != [] {
      var n := |ok| - 1;
      FailuresCount(ok[..n]);
      var before := set k | 0 <= k < n && ok[..n][k];
      var now := set k | 0 <= k < |ok| && ok[k];
      var added: set<int> := if ok[n] then {n} else {};
      assert now == before + added by {
        forall k | k in now
          ensures k in before + added
        {
          if k < n { assert ok[..n][k] == ok[k]; }
        }
        forall k | k in before
          ensures k in now
        {
          assert ok[..n][k] == ok[k];
        }
      }
      assert n !in before;
      assert |before + added| == |before| + |added|;
    }
  }
}
