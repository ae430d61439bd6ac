/** POSIX path handling as Python's `posixpath` does it (`split`, `join`,
    `basename`, `splitext`), and the duplicate checker's rename rule
    `add_prime_to_filename`, which puts a `'` before a file's extension. */
module Paths {
  import opened PyStrings

  /** Index just past the last `/` of `p` (0 when there is none): where the
      final component, the file name, starts. */
  function NameStart(p: string): (i: nat)
    ensures i <= |p|
    ensures '/' !in p[i..]
    ensures 0 < i ==> p[i - 1] == '/'
  {
    LastIndexOf(p, '/') + 1
  }

  predicate AllSlashes(s: string)
  {
    forall k :: 0 <= k < |s| ==> s[k] == '/'
  }

  /** `s.rstrip('/')`. */
  function TrimSlashes(s: string): (r: string)
    ensures |r| <= |s| && r == s[..|r|]
    ensures AllSlashes(s[|r|..])
    ensures r == [] || r[|r| - 1] != '/'
  {
    if s != [] && s[|s| - 1] == '/' then
      var r := TrimSlashes(s[..|s| - 1]);
      assert s[|r|..] == s[..|s| - 1][|r|..] + ['/'];
      r
    else s
  }

  /** `os.path.split(p)`: the directory part with its trailing slashes
      removed (unless it is nothing but slashes) and the file name. */
  function Split(p: string): (r: (string, string))
    ensures '/' !in r.1
  {
    var i := NameStart(p);
    var head := p[..i];
    (if head != [] && !AllSlashes(head) then TrimSlashes(head) else head, p[i..])
  }

  /** `os.path.basename(p)`: the text after the last `/`. */
  function Basename(p: string): (r: string)
    ensures '/' !in r
    ensures |r| <= |p| && r == p[|p| - |r|..]
    ensures |r| < |p| ==> p[|p| - |r| - 1] == '/'
  {
    p[NameStart(p)..]
  }

  /** `os.path.join(a, b)`: an absolute `b` replaces `a`; otherwise one `/`
      is put between them unless `a` is empty or already ends with one. */
  function Join(a: string, b: string): (r: string)
  {
    if b != [] && b[0] == '/' then b
    else if a == [] || a[|a| - 1] == '/' then a + b
    else a + "/" + b
  }

  predicate HasNonDot(s: string)
  {
    exists k :: 0 <= k < |s| && s[k] != '.'
  }

  /** Where `os.path.splitext(p)` starts the extension: at the last `.` of
      the file name, provided that some character of the file name before
      that `.` is not a dot (so `.bashrc` and `..x` have none); `|p|` when
      there is no extension. */
  function ExtStart(p: string): (k: nat)
    ensures k <= |p|
  {
    var sepIndex := LastIndexOf(p, '/');
    var dotIndex := LastIndexOf(p, '.');
    if dotIndex > sepIndex && HasNonDot(p[sepIndex + 1..dotIndex]) then dotIndex else |p|
  }

  /** `os.path.splitext(p)`. */
  function SplitExt(p: string): (r: (string, string))
    ensures r.0 + r.1 == p
  {
    var k := ExtStart(p);
    SplitAt(p, k);
    (p[..k], p[k..])
  }

  lemma SplitAt(s: string, k: nat)
    requires k <= |s|
    ensures s[..k] + s[k..] == s
  {
  }

  /** The file-name half of `add_prime_to_filename`. */
  function PrimeName(name: string): (r: string)
  {
    if '.' in name then
      var (stem, ext) := SplitExt(name);
      stem + "'" + ext
    else name + "'"
  }

  /** `add_prime_to_filename(path)`: split off the file name, prime it,
      and join it back onto the directory part. */
  function AddPrime(path: string): (r: string)
  {
    var (dir, name) := Split(path);
    Join(dir, PrimeName(name))
  }

  /** The extension `splitext` finds in a file name is a single `.`
      followed by no other `.` and preceded by some non-dot character. */
  lemma ExtensionShape(name: string)
    requires '/' !in name
    ensures ExtStart(name) < |name| ==>
              && name[ExtStart(name)] == '.'
              && '.' !in name[ExtStart(name) + 1..]
              && HasNonDot(name[..ExtStart(name)])
  {
    LastIndexOfUnique(name, '/', -1);
    var d := LastIndexOf(name, '.');
    if ExtStart(name) < |name| {
      assert ExtStart(name) == d;
      assert name[0..d] == name[..d];
    }
  }

  /** Where `splitext` finds no extension although the name has a `.`,
      every character before the last `.` is a dot (`.bashrc`, `..x`). */
  lemma NoExtensionShape(name: string)
    requires '/' !in name
    ensures ExtStart(name) == |name| ==>
              forall j :: 0 <= j < LastIndexOf(name, '.') ==> name[j] == '.'
  {
    LastIndexOfUnique(name, '/', -1);
    var d := LastIndexOf(name, '.');
    if 0 <= d && ExtStart(name) == |name| {
      forall j | 0 <= j < d
        ensures name[j] == '.'
      {
        assert name[0..d][j] == name[j];
      }
    }
  }

  /** A name without any `.` has no extension. */
  lemma NoDotNoExtension(name: string)
    requires '.' !in name
    ensures ExtStart(name) == |name|
    ensures name[..ExtStart(name)] + "'" + name[ExtStart(name)..] == name + "'"
  {
    LastIndexOfUnique(name, '.', -1);
    assert name[..|name|] == name;
  }

  lemma PrimeNameWithoutDot(name: string)
    requires '.' !in name
    ensures PrimeName(name) == name + "'"
  {
  }

  /** `PrimeName` inserts the prime at `ExtStart`: before the extension, or
      at the end when there is none. */
  lemma PrimeNamePosition(name: string)
    ensures PrimeName(name) == name[..ExtStart(name)] + "'" + name[ExtStart(name)..]
  {
    if '.' !in name {
      NoDotNoExtension(name);
      PrimeNameWithoutDot(name);
    }
  }

  /** `rfind` is pinned down by its two properties. */
  lemma LastIndexOfUnique(s: string, c: char, i: int)
    requires -1 <= i < |s|
    requires 0 <= i ==> s[i] == c
    requires forall k :: i < k < |s| ==> s[k] != c
    ensures LastIndexOf(s, c) == i
  {
  }

  /** The file-name part of a path never contains `/`, and priming it adds none. */
  lemma PrimeNameHasNoSlash(name: string)
    requires '/' !in name
    ensures '/' !in PrimeName(name)
    ensures PrimeName(name) != [] && PrimeName(name)[0] != '/'
  {
    PrimeNamePosition(name);
    var k := ExtStart(name);
    assert name == name[..k] + name[k..];
    assert PrimeName(name)[0] in PrimeName(name);
  }

  /** Where a name without `/` is put after a directory that is empty or
      ends in `/`, the file name starts right after the directory. */
  lemma NameStartAfterJoin(dir: string, name: string)
    requires dir == [] || dir[|dir| - 1] == '/'
    requires '/' !in name
    ensures NameStart(dir + name) == |dir|
  {
    var p := dir + name;
    forall k | |dir| - 1 < k < |p|
      ensures p[k] != '/'
    {
      assert p[k] == name[k - |dir|];
    }
    LastIndexOfUnique(p, '/', |dir| - 1);
  }

  /** The directory parts `split` returns: empty, all slashes, or not
      ending in a slash. */
  predicate IsSplitDir(dir: string)
  {
    dir == [] || AllSlashes(dir) || dir[|dir| - 1] != '/'
  }

  /** `split` undoes `join` for every directory `split` can return and every
      file name. */
  lemma SplitJoin(dir: string, name: string)
    requires IsSplitDir(dir)
    requires '/' !in name
    ensures Split(Join(dir, name)) == (dir, name)
  {
    assert name != [] ==> name[0] != '/' by {
      if name != [] { assert name[0] in name; }
    }
    if dir == [] {
      assert Join(dir, name) == [] + name;
      SplitAfterSlash([], name);
    } else if dir[|dir| - 1] == '/' {
      assert Join(dir, name) == dir + name;
      SplitAfterSlash(dir, name);
    } else {
      assert Join(dir, name) == dir + "/" + name;
      SplitAfterName(dir, name);
    }
  }

  /** Splitting `dir + name` where `dir` is empty or nothing but slashes. */
  lemma SplitAfterSlash(dir: string, name: string)
    requires dir == [] || (AllSlashes(dir) && dir[|dir| - 1] == '/')
    requires '/' !in name
    ensures Split(dir + name) == (dir, name)
  {
    NameStartAfterJoin(dir, name);
    var p := dir + name;
    assert p[..|dir|] == dir && p[|dir|..] == name;
  }

  /** Splitting `dir + "/" + name` where `dir` does not end in a slash. */
  lemma SplitAfterName(dir: string, name: string)
    requires dir != [] && dir[|dir| - 1] != '/'
    requires '/' !in name
    ensures Split(dir + "/" + name) == (dir, name)
  {
    var joined := dir + "/";
    NameStartAfterJoin(joined, name);
    var p := joined + name;
    assert p[..|joined|] == joined && p[|joined|..] == name;
    assert !AllSlashes(joined) by {
      assert joined[|dir| - 1] != '/';
    }
    assert TrimSlashes(joined) == dir;
  }

  /** `add_prime_to_filename` leaves the directory part alone and primes
      the file name: `split` of the result gives the same directory and
      `PrimeName` of the old file name. */
  lemma AddPrimeKeepsDirectory(path: string)
    ensures Split(AddPrime(path)) == (Split(path).0, PrimeName(Split(path).1))
  {
    var (dir, name) := Split(path);
    PrimeNameHasNoSlash(name);
    SplitJoin(dir, PrimeName(name));
  }

  /** No two slashes in a row: `os.path.relpath` never produces any. */
  ghost predicate NoDoubleSlash(p: string)
  {
    forall k, j :: 0 <= k < j < |p| && j == k + 1 ==> !(p[k] == '/' && p[j] == '/')
  }

  /** Where the prime goes in a whole path. */
  function PrimeAt(path: string): (j: nat)
    ensures j <= |path|
  {
    NameStart(path) + ExtStart(path[NameStart(path)..])
  }

  /** On a path without `//`, joining a file name back onto the directory
      part `split` returns restores the original text up to the file name. */
  lemma JoinOntoSplitDir(path: string, name: string)
    requires NoDoubleSlash(path)
    requires name == [] || name[0] != '/'
    ensures Join(Split(path).0, name) == path[..NameStart(path)] + name
  {
    var i := NameStart(path);
    var head := path[..i];
    if head != [] && !AllSlashes(head) {
      assert i >= 2;
      assert path[i - 2] != '/';
      assert head == path[..i - 1] + "/";
      assert TrimSlashes(head) == path[..i - 1];
    }
  }

  /** On a path without `//`, `add_prime_to_filename` only touches the
      file name. */
  lemma AddPrimeOnName(path: string)
    requires NoDoubleSlash(path)
    ensures AddPrime(path) == path[..NameStart(path)] + PrimeName(path[NameStart(path)..])
  {
    var name := path[NameStart(path)..];
    PrimeNameHasNoSlash(name);
    JoinOntoSplitDir(path, PrimeName(name));
  }

  /** On a path without `//`, `add_prime_to_filename` splices the prime into
      the file name at the start of its extension. */
  lemma AddPrimeIntoName(path: string)
    requires NoDoubleSlash(path)
    ensures AddPrime(path) == path[..NameStart(path)] + (path[NameStart(path)..][..ExtStart(path[NameStart(path)..])] + "'" + path[NameStart(path)..][ExtStart(path[NameStart(path)..])..])
  {
    AddPrimeOnName(path);
    PrimeNamePosition(path[NameStart(path)..]);
  }

  lemma PrimeAtIs(path: string, i: nat, k: nat)
    requires i == NameStart(path)
    requires k == ExtStart(path[i..])
    ensures PrimeAt(path) == i + k
  {
  }

  /** Inserting a prime at `k` into the tail `path[i..]` of a path is
      inserting it at `i + k` into the path. */
  lemma InsertIntoTail(path: string, r: string, i: nat, k: nat, j: nat)
    requires i <= |path| && k <= |path| - i && j == i + k
    requires r == path[..i] + (path[i..][..k] + "'" + path[i..][k..])
    ensures r == path[..j] + "'" + path[j..]
  {
    assert path[..i + k] == path[..i] + path[i..][..k];
    assert path[i + k..] == path[i..][k..];
  }

  /** On a path without `//`, `add_prime_to_filename` inserts exactly one
      `'` and changes nothing else: the result is one character longer and
      deleting the prime gives back the input. */
  lemma AddPrimeInsertsOne(path: string)
    requires NoDoubleSlash(path)
    ensures AddPrime(path) == path[..PrimeAt(path)] + "'" + path[PrimeAt(path)..]
    ensures |AddPrime(path)| == |path| + 1
  {
    AddPrimeIntoName(path);
    PrimeAtIs(path, NameStart(path), ExtStart(path[NameStart(path)..]));
    InsertIntoTail(path, AddPrime(path), NameStart(path), ExtStart(path[NameStart(path)..]), PrimeAt(path));
  }

  /** Deleting the character inserted at `j` restores the text. */
  lemma RemoveInserted(path: string, r: string, j: nat)
    requires j <= |path| && r == path[..j] + "'" + path[j..]
    ensures r[j] == '\''
    ensures r[..j] + r[j + 1..] == path
  {
    assert r[..j] == path[..j];
    assert r[j + 1..] == path[j..];
  }

  /** The prime `add_prime_to_filename` inserts sits at `PrimeAt`, and
      deleting it gives back the input path. */
  lemma AddPrimeRemovePrime(path: string)
    requires NoDoubleSlash(path)
    ensures PrimeAt(path) < |AddPrime(path)|
    ensures AddPrime(path)[PrimeAt(path)] == '\''
    ensures AddPrime(path)[..PrimeAt(path)] + AddPrime(path)[PrimeAt(path) + 1..] == path
  {
    AddPrimeInsertsOne(path);
    RemoveInserted(path, AddPrime(path), PrimeAt(path));
  }

  /** A hidden file such as `.bashrc`, whose only dot is its first
      character, has no extension, so the prime goes at the end. */
  lemma HiddenFileNoExtension(name: string)
    requires '/' !in name
    requires name != [] && name[0] == '.' && '.' !in name[1..]
    ensures ExtStart(name) == |name|
    ensures PrimeName(name) == name + "'"
  {
    LastIndexOfUnique(name, '/', -1);
    LastIndexOfUnique(name, '.', 0);
    assert name[..|name|] == name;
  }
}
