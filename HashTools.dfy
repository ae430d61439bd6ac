/** Turning the text an external hashing tool prints into a SHA-256 digest
    string: Windows `certutil`, 7-Zip's `7z h -scrcSHA256`, `sha256sum` and
    `shasum -a 256`, the choice between them, and the cached location of
    `7z.exe`. Running the tool is outside the model: each parser receives
    what `subprocess.run` gave back, or `None` when it raised. */
module HashTools {
  import opened Wrappers
  import opened PyStrings

  /** A finished `subprocess.run`: its exit status and standard output. */
  datatype Completed = Completed(returncode: int, stdout: string)

  // ---------------------------------------------------------------------
  // certutil -hashfile <file> SHA256

  /** The certutil parser: the second line of the stripped output, stripped
      again and with every space removed, provided the tool succeeded and
      printed at least two lines. */
  function CertutilDigest(run: Option<Completed>): (r: Option<string>)
    ensures r.Some? <==> run.Some? && run.value.returncode == 0 && '\n' in Strip(run.value.stdout)
    ensures r.Some? ==> ' ' !in r.value && '\n' !in r.value
  {
    match run
    case None => None
    case Some(c) =>
      if c.returncode == 0 then
        var lines := SplitOn(Strip(c.stdout), '\n');
        SplitOnTwoParts(Strip(c.stdout), '\n');
        if |lines| >= 2 then
          StripKeepsAbsent(lines[1], '\n');
          WithoutKeepsAbsent(Strip(lines[1]), ' ', '\n');
          Some(Without(Strip(lines[1]), ' '))
        else None
      else None
  }

  /** A string that starts and ends with a non-space character is its own
      `strip`. */
  lemma StripUnchanged(s: string)
    requires s != [] && !IsSpace(s[0]) && !IsSpace(s[|s| - 1])
    ensures Strip(s) == s
  {
  }

  /** `split` at the first separator: the part before it, then the split of
      the rest. */
  lemma SplitOnFirst(a: string, sep: char, b: string)
    requires sep !in a
    ensures SplitOn(a + [sep] + b, sep) == [a] + SplitOn(b, sep)
  {
    var s := a + [sep] + b;
    assert IndexOf(s, sep) == |a| by {
      assert s[..|a|] == a;
      assert s[|a|] == sep;
    }
    assert s[..|a|] == a && s[|a| + 1..] == b;
  }

  /** The parser once the output has been cut into lines. */
  lemma CertutilOfLines(c: Completed, digestLine: string)
    requires c.returncode == 0
    requires |SplitOn(Strip(c.stdout), '\n')| >= 2
    requires SplitOn(Strip(c.stdout), '\n')[1] == digestLine
    ensures CertutilDigest(Some(c)) == Some(Without(Strip(digestLine), ' '))
  {
  }

  /** certutil's report is cut at its two line breaks. */
  lemma SplitReport(header: string, digestLine: string, footer: string)
    requires '\n' !in header && '\n' !in digestLine
    ensures SplitOn(header + "\n" + digestLine + "\n" + footer, '\n')
            == [header, digestLine] + SplitOn(footer, '\n')
  {
    var out := header + "\n" + digestLine + "\n" + footer;
    assert out == header + ['\n'] + (digestLine + ['\n'] + footer);
    SplitOnFirst(header, '\n', digestLine + ['\n'] + footer);
    SplitOnFirst(digestLine, '\n', footer);
  }

  /** certutil's report starts and ends with text, so `strip` keeps it. */
  lemma StripReport(header: string, digestLine: string, footer: string)
    requires header != [] && !IsSpace(header[0])
    requires footer != [] && !IsSpace(footer[|footer| - 1])
    ensures Strip(header + "\n" + digestLine + "\n" + footer) == header + "\n" + digestLine + "\n" + footer
  {
    var out := header + "\n" + digestLine + "\n" + footer;
    assert out[0] == header[0] && out[|out| - 1] == footer[|footer| - 1];
    StripUnchanged(out);
  }

  /** On certutil's three-line report (a header, the spaced hex digest,
      a completion message) the parser returns the middle line without its
      spaces. */
  lemma CertutilReadsMiddleLine(header: string, digestLine: string, footer: string)
    requires header != [] && !IsSpace(header[0]) && '\n' !in header
    requires '\n' !in digestLine
    requires footer != [] && !IsSpace(footer[|footer| - 1])
    ensures CertutilDigest(Some(Completed(0, header + "\n" + digestLine + "\n" + footer)))
            == Some(Without(Strip(digestLine), ' '))
  {
    StripReport(header, digestLine, footer);
    SplitReport(header, digestLine, footer);
    CertutilOfLines(Completed(0, header + "\n" + digestLine + "\n" + footer), digestLine);
  }

  // ---------------------------------------------------------------------
  // 7z h -scrcSHA256 <file>

  predicate IsHexDigit(c: char)
  {
    '0' <= c <= '9' || 'a' <= c <= 'f' || 'A' <= c <= 'F'
  }

  /** A line 7-Zip prints for the digest: 64 hexadecimal digits of either case. */
  predicate IsDigest64(s: string)
  {
    |s| == 64 && forall k :: 0 <= k < |s| ==> IsHexDigit(s[k])
  }

  /** 64 lower-case hexadecimal digits. */
  predicate IsLowerDigest(s: string)
  {
    |s| == 64 && forall k :: 0 <= k < |s| ==> ('0' <= s[k] <= '9' || 'a' <= s[k] <= 'f')
  }

  /** Lower-casing a digest line gives a lower-case digest. */
  lemma LowerDigest(s: string)
    requires IsDigest64(s)
    ensures IsLowerDigest(Lower(s))
  {
    forall k | 0 <= k < |s|
      ensures '0' <= Lower(s)[k] <= '9' || 'a' <= Lower(s)[k] <= 'f'
    {
      assert IsHexDigit(s[k]);
    }
  }

  /** The digest the 7-Zip parser finds in a list of output lines: the first
      line that, stripped, is 64 hex digits, lower-cased. */
  function FirstDigest(lines: seq<string>): (r: Option<string>)
    ensures r.None? <==> forall k :: 0 <= k < |lines| ==> !IsDigest64(Strip(lines[k]))
    ensures r.Some? ==> IsLowerDigest(r.value)
  {
    if lines == [] then None
    else
      var line := Strip(lines[0]);
      if IsDigest64(line) then
        LowerDigest(line);
        Some(Lower(line))
      else
        FirstDigest(lines[1..])
  }

  /** `FirstDigest` picks the first matching line and no later one. */
  lemma {:induction false} FirstDigestIsFirstMatch(lines: seq<string>, k: nat)
    requires k < |lines| && IsDigest64(Strip(lines[k]))
    requires forall j :: 0 <= j < k ==> !IsDigest64(Strip(lines[j]))
    ensures FirstDigest(lines) == Some(Lower(Strip(lines[k])))
  {
    if k > 0 {
      FirstDigestIsFirstMatch(lines[1..], k - 1);
    }
  }

  /** The line loop of `_calculate_with_7z`: scan the output line by line
      and return at the first digest line. */
  method FindDigest(stdout: string) returns (r: Option<string>)
    ensures r == FirstDigest(SplitLines(stdout))
    ensures r.Some? ==> IsLowerDigest(r.value)
  {
    var lines := SplitLines(stdout);
    var i := 0;
    while i < |lines|
      invariant 0 <= i <= |lines|
      invariant FirstDigest(lines) == FirstDigest(lines[i..])
    {
      var line := Strip(lines[i]);
      assert lines[i..][0] == lines[i];
      if |line| == 64 && forall k :: 0 <= k < |line| ==> IsHexDigit(line[k]) {
        assert FirstDigest(lines[i..]) == Some(Lower(line));
        return Some(Lower(line));
      }
      assert !IsDigest64(line);
      assert lines[i..][1..] == lines[i + 1..];
      i := i + 1;
    }
    return None;
  }

  /** `_calculate_with_7z` once the executable is known: no executable (or
      an empty path) gives nothing without running 7-Zip, a failed run or a
      non-zero exit status gives nothing without reading the output, and
      otherwise the first digest line. */
  function SevenZipDigest(exe: Option<string>, run: Option<Completed>): (r: Option<string>)
  {
    if exe.None? || exe.value == [] then None
    else if run.None? || run.value.returncode != 0 then None
    else FirstDigest(SplitLines(run.value.stdout))
  }

  /** A 7-Zip digest exists only when an executable was found, it ran and
      succeeded, and then it is the lower-cased first digest line. */
  lemma SevenZipDigestCases(exe: Option<string>, run: Option<Completed>)
    ensures SevenZipDigest(exe, run).Some? <==>
              && exe.Some? && exe.value != []
              && run.Some? && run.value.returncode == 0
              && exists k :: 0 <= k < |SplitLines(run.value.stdout)|
                               && IsDigest64(Strip(SplitLines(run.value.stdout)[k]))
    ensures SevenZipDigest(exe, run).Some? ==> IsLowerDigest(SevenZipDigest(exe, run).value)
  {
  }

  // ---------------------------------------------------------------------
  // sha256sum <file> and shasum -a 256 <file>

  /** `_calculate_with_sha256sum` and `_calculate_with_shasum`: the first
      white-space separated word of the output on success. Blank output
      makes `split()[0]` raise, which the `try` turns into `None`. */
  function TokenDigest(run: Option<Completed>): (r: Option<string>)
    ensures r.Some? <==> run.Some? && run.value.returncode == 0 && !AllSpace(run.value.stdout)
    ensures r.Some? ==> IsFirstWord(run.value.stdout, r.value)
  {
    match run
    case None => None
    case Some(c) => if c.returncode == 0 then FirstToken(c.stdout) else None
  }

  /** A word followed by white space (or nothing) is the first token. */
  lemma {:induction false} FirstTokenOfWord(word: string, rest: string)
    requires word != [] && forall k :: 0 <= k < |word| ==> !IsSpace(word[k])
    requires rest == [] || IsSpace(rest[0])
    ensures FirstToken(word + rest) == Some(word)
  {
    var s := word + rest;
    assert s[0] == word[0];
    assert WordAt(s, 0, word);
    FirstWordUnique(s, FirstToken(s).value, word);
  }

  /** On the `<digest>  <file>` line both tools print, the parser returns
      the digest. */
  lemma TokenDigestOfReport(digest: string, name: string)
    requires IsLowerDigest(digest)
    ensures TokenDigest(Some(Completed(0, digest + "  " + name + "\n"))) == Some(digest)
  {
    forall k | 0 <= k < |digest|
      ensures !IsSpace(digest[k])
    {
      assert '0' <= digest[k] <= '9' || 'a' <= digest[k] <= 'f';
    }
    assert digest + "  " + name + "\n" == digest + ("  " + name + "\n");
    FirstTokenOfWord(digest, "  " + name + "\n");
  }

  // ---------------------------------------------------------------------
  // calculate_sha256: which tool

  datatype Backend = SevenZip | Sha256sum | Shasum

  /** The tool `calculate_sha256` uses: 7-Zip on Windows, otherwise
      `sha256sum` if `which` finds it, otherwise `shasum` if found,
      otherwise none. */
  function SelectBackend(system: string, hasSha256sum: bool, hasShasum: bool): (b: Option<Backend>)
  {
    if system == "Windows" then Some(SevenZip)
    else if hasSha256sum then Some(Sha256sum)
    else if hasShasum then Some(Shasum)
    else None
  }

  /** The order of preference: each tool is used exactly when every tool
      before it is unavailable and it is available. */
  lemma SelectBackendOrder(system: string, hasSha256sum: bool, hasShasum: bool)
    ensures SelectBackend(system, hasSha256sum, hasShasum) == Some(SevenZip) <==> system == "Windows"
    ensures SelectBackend(system, hasSha256sum, hasShasum) == Some(Sha256sum) <==>
              system != "Windows" && hasSha256sum
    ensures SelectBackend(system, hasSha256sum, hasShasum) == Some(Shasum) <==>
              system != "Windows" && !hasSha256sum && hasShasum
    ensures SelectBackend(system, hasSha256sum, hasShasum).None? <==>
              system != "Windows" && !hasSha256sum && !hasShasum
  {
  }

  // ---------------------------------------------------------------------
  // The cached location of 7z.exe

  /** `_seven_zip_exe` and `_get_seven_zip_exe`. `isFile` stands for
      `os.path.isfile` and `answer` for what the file dialog returns
      (empty when the user cancels). */
  class SevenZipLocator {
    var exe: Option<string>

    /** A cached path is never empty: only a non-empty answer is stored. */
    predicate Valid()
      reads this
    {
      exe.Some? ==> exe.value != []
    }

    constructor()
      ensures exe.None? && Valid()
    {
      exe := None;
    }

    /** Returns the executable to use and whether the dialog was shown. A
        cached path that still names a file is returned without asking;
        otherwise the dialog is shown and its answer replaces the cache
        only when it is not empty, so a cancelled dialog leaves the old
        (possibly stale) path in place. */
    method Locate(isFile: string -> bool, answer: string) returns (r: Option<string>, prompted: bool)
      requires Valid()
      modifies this
      ensures Valid()
      ensures prompted <==> !(old(exe).Some? && isFile(old(exe).value))
      ensures exe == (if prompted && answer != [] then Some(answer) else old(exe))
      ensures r == exe
    {
      if exe.Some? && isFile(exe.value) {
        return exe, false;
      }
      prompted := true;
      if answer != [] {
        exe := Some(answer);
      }
      r := exe;
    }

    /** `_calculate_with_7z`: locate the executable, then read its output.
        `run` is what running 7-Zip on the file gives back. */
    method CalculateWith7z(isFile: string -> bool, answer: string, run: Option<Completed>)
      returns (r: Option<string>)
      requires Valid()
      modifies this
      ensures Valid()
      ensures exe == (if (old(exe).Some? && isFile(old(exe).value)) || answer == [] then old(exe)
                      else Some(answer))
      ensures r == SevenZipDigest(exe, run)
    {
      var path, _ := Locate(isFile, answer);
      if path.None? || path.value == [] {
        return None;
      }
      if run.None? || run.value.returncode != 0 {
        return None;
      }
      r := FindDigest(run.value.stdout);
    }

    /** `calculate_sha256` of `sha256_tools`: dispatch on the platform and
        the tools found. `run` is what running the chosen tool gives back. */
    method CalculateSha256(system: string, hasSha256sum: bool, hasShasum: bool,
                           isFile: string -> bool, answer: string, run: Option<Completed>)
      returns (r: Option<string>)
      requires Valid()
      modifies this
      ensures Valid()
      ensures system != "Windows" ==> exe == old(exe)
      ensures system == "Windows" ==>
                exe == (if (old(exe).Some? && isFile(old(exe).value)) || answer == [] then old(exe)
                        else Some(answer))
      ensures r == match SelectBackend(system, hasSha256sum, hasShasum)
                   case None => None
                   case Some(SevenZip) => SevenZipDigest(exe, run)
                   case Some(_) => TokenDigest(run)
    {
      if system == "Windows" {
        r := CalculateWith7z(isFile, answer, run);
        return;
      }
      if hasSha256sum {
        return TokenDigest(run);
      }
      if hasShasum {
        return TokenDigest(run);
      }
      return None;
    }
  }
}
