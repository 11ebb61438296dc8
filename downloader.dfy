/**
  The command-line driver of youtube_downloader.py: the cleaning of a URL
  list file's lines, and `main`, which checks the arguments, resolves the
  URL list, gates on the output directory and downloads the URLs one by one
  while it counts successes and failures.

  The outside world enters as three functions passed in: `readFile` (the
  lines of a URL file, or `None` when opening or reading it fails),
  `validateDirectory` (helpers.py's directory check, which may create the
  directory) and `download` (`download_video`, which catches every
  `Exception` and answers with a bool).
 */
module Downloader {

  import opened Wrappers
  import opened Text

  // ---------------------------------------------------------------------
  // read_urls_from_file
  // ---------------------------------------------------------------------

  /** A line that strips to nothing and is therefore skipped. */
  predicate IsBlank(line: string)
  {
    Strip(line) == []
  }

  /** `[line.strip() for line in f if line.strip()]` over the file's lines. */
  function CleanUrls(lines: seq<string>): (urls: seq<string>)
    ensures |urls| <= |lines|
  {
    if lines == [] then []
    else
      var url := Strip(lines[0]);
      (if url != [] then [url] else []) + CleanUrls(lines[1..])
  }

  /** Every URL kept is non-empty and has no whitespace at either end. */
  lemma {:induction false} CleanUrlsTrimmed(lines: seq<string>)
    ensures forall j :: 0 <= j < |CleanUrls(lines)| ==>
              CleanUrls(lines)[j] != [] && IsTrimmed(CleanUrls(lines)[j])
  {
    if lines != [] {
      CleanUrlsTrimmed(lines[1..]);
    }
  }

  /** How many of the lines are not blank. */
  function CountNonBlank(lines: seq<string>): (n: nat)
    ensures n <= |lines|
  {
    if lines == [] then 0
    else (if IsBlank(lines[0]) then 0 else 1) + CountNonBlank(lines[1..])
  }

  /** Cleaning a concatenation cleans each part. */
  lemma {:induction false} CleanUrlsAppend(a: seq<string>, b: seq<string>)
    ensures CleanUrls(a + b) == CleanUrls(a) + CleanUrls(b)
  {
    if a == [] {
      assert a + b == b;
    } else {
      var head := if IsBlank(a[0]) then [] else [Strip(a[0])];
      calc {
        CleanUrls(a + b);
        { assert (a + b)[0] == a[0] && (a + b)[1..] == a[1..] + b; }
        head + CleanUrls(a[1..] + b);
        { CleanUrlsAppend(a[1..], b); }
        head + (CleanUrls(a[1..]) + CleanUrls(b));
        (head + CleanUrls(a[1..])) + CleanUrls(b);
        CleanUrls(a) + CleanUrls(b);
      }
    }
  }

  /** One URL per non-blank line. */
  lemma {:induction false} CleanUrlsLength(lines: seq<string>)
    ensures |CleanUrls(lines)| == CountNonBlank(lines)
  {
    if lines != [] {
      CleanUrlsLength(lines[1..]);
    }
  }

  /** The non-blank line `i` lands after the URLs of the non-blank lines before it. */
  lemma {:induction false} CleanUrlsAt(lines: seq<string>, i: nat)
    requires i < |lines| && !IsBlank(lines[i])
    ensures CountNonBlank(lines[..i]) < |CleanUrls(lines)|
    ensures CleanUrls(lines)[CountNonBlank(lines[..i])] == Strip(lines[i])
  {
    var head := if IsBlank(lines[0]) then [] else [Strip(lines[0])];
    assert CleanUrls(lines) == head + CleanUrls(lines[1..]);
    if i == 0 {
      assert lines[..i] == [];
    } else {
      var rest := lines[1..];
      assert lines[..i][0] == lines[0] && lines[..i][1..] == rest[..i - 1];
      assert CountNonBlank(lines[..i]) == |head| + CountNonBlank(rest[..i - 1]);
      CleanUrlsAt(rest, i - 1);
    }
  }

  /**
    The cleaned list is exactly the stripped non-blank lines in file order:
    it has one entry per non-blank line, and the non-blank line `i` lands at
    the position that counts the non-blank lines before it.
   */
  lemma CleanUrlsExact(lines: seq<string>)
    ensures |CleanUrls(lines)| == CountNonBlank(lines)
    ensures forall i :: 0 <= i < |lines| && !IsBlank(lines[i]) ==>
              CountNonBlank(lines[..i]) < |CleanUrls(lines)|
              && CleanUrls(lines)[CountNonBlank(lines[..i])] == Strip(lines[i])
  {
    CleanUrlsLength(lines);
    forall i | 0 <= i < |lines| && !IsBlank(lines[i])
      ensures CountNonBlank(lines[..i]) < |CleanUrls(lines)|
      ensures CleanUrls(lines)[CountNonBlank(lines[..i])] == Strip(lines[i])
    {
      CleanUrlsAt(lines, i);
    }
  }

  /**
    `read_urls_from_file(path)` once the file is read: `None` when it could
    not be read (the source then exits with status 1), else the cleaned list.
   */
  function ReadUrlsFromFile(contents: Option<seq<string>>): (urls: Option<seq<string>>)
    ensures urls.None? <==> contents.None?
    ensures urls.Some? ==> urls.value == CleanUrls(contents.value)
    ensures urls.Some? ==> |urls.value| == CountNonBlank(contents.value)
  {
    match contents
    case None => None
    case Some(lines) => CleanUrlsExact(lines); Some(CleanUrls(lines))
  }

  // ---------------------------------------------------------------------
  // main
  // ---------------------------------------------------------------------

  /** The flag that selects batch mode in `argv[1]`. */
  const BatchFlag: string := "--batch"

  /**
    What one run of `main` did: its exit status, whether it got as far as
    validating the output directory, the URLs handed to `download_video` in
    call order, and the two counters of the summary.
   */
  datatype Run = Run(exitCode: int, directoryChecked: bool, attempted: seq<string>,
                     successful: nat, failed: nat)

  /** A run that exits with status 1 before the directory check. */
  const EarlyExit: Run := Run(1, false, [], 0, 0)

  /** How many of the URLs `download` reports as downloaded. */
  function Successes(urls: seq<string>, outputPath: string, download: (string, string) -> bool): (n: nat)
    ensures n <= |urls|
  {
    if urls == [] then 0
    else Successes(urls[..|urls| - 1], outputPath, download)
         + (if download(urls[|urls| - 1], outputPath) then 1 else 0)
  }

  /** How many of the URLs `download` reports as failed. */
  function Failures(urls: seq<string>, outputPath: string, download: (string, string) -> bool): (n: nat)
    ensures n <= |urls|
  {
    if urls == [] then 0
    else Failures(urls[..|urls| - 1], outputPath, download)
         + (if download(urls[|urls| - 1], outputPath) then 0 else 1)
  }

  /** Every URL is counted once, as a success or as a failure. */
  lemma {:induction false} TallyComplete(urls: seq<string>, outputPath: string, download: (string, string) -> bool)
    ensures Successes(urls, outputPath, download) + Failures(urls, outputPath, download) == |urls|
  {
    if urls != [] {
      TallyComplete(urls[..|urls| - 1], outputPath, download);
    }
  }

  /**
    A failure in the middle of a batch does not hide the URLs after it: three
    URLs of which only the second fails tally as two successes and one failure.
   */
  lemma PartialFailureTally(u1: string, u2: string, u3: string, outputPath: string,
                            download: (string, string) -> bool)
    requires download(u1, outputPath) && !download(u2, outputPath) && download(u3, outputPath)
    ensures Successes([u1, u2, u3], outputPath, download) == 2
    ensures Failures([u1, u2, u3], outputPath, download) == 1
  {
    var urls := [u1, u2, u3];
    assert urls[..2] == [u1, u2] && urls[..2][..1] == [u1] && urls[..2][..1][..0] == [];
    assert Successes([u1], outputPath, download) == 1;
    assert Failures([u1], outputPath, download) == 0;
    assert Successes([u1, u2], outputPath, download) == 1;
    assert Failures([u1, u2], outputPath, download) == 1;
  }

  /**
    `main()` for the argument vector `argv` (`argv[0]` is the program name).
    Wrong argument counts, batch mode without a file argument and an
    unreadable URL file stop the run with status 1 before the directory is
    looked at; a directory that fails validation stops it with status 1
    before any download; otherwise every URL is downloaded once, in order,
    whatever the earlier outcomes, and the run ends with status 0.
   */
  method RunDownloader(argv: seq<string>,
                       readFile: string -> Option<seq<string>>,
                       validateDirectory: string -> bool,
                       download: (string, string) -> bool)
    returns (r: Run)
    // argument-count gate
    ensures |argv| !in {3, 4} ==> r == EarlyExit
    // batch mode needs both a URL file and an output path
    ensures |argv| == 3 && argv[1] == BatchFlag ==> r == EarlyExit
    // an unreadable URL file is fatal
    ensures |argv| == 4 && argv[1] == BatchFlag && readFile(argv[2]).None? ==> r == EarlyExit
    // single-URL mode: the list is argv[1], the directory argv[2]; a fourth argument is ignored
    ensures |argv| in {3, 4} && argv[1] != BatchFlag ==>
              r.directoryChecked
              && (validateDirectory(argv[2]) ==> r.exitCode == 0 && r.attempted == [argv[1]])
    // batch mode: the list is the cleaned file, the directory argv[3]
    ensures |argv| == 4 && argv[1] == BatchFlag && readFile(argv[2]).Some? ==>
              r.directoryChecked
              && (validateDirectory(argv[3]) ==>
                    r.exitCode == 0 && r.attempted == CleanUrls(readFile(argv[2]).value))
    // the directory gate: a failed check means status 1 and no download
    ensures r.directoryChecked ==>
              var outputPath := if argv[1] == BatchFlag then argv[3] else argv[2];
              && (!validateDirectory(outputPath) ==> r == Run(1, true, [], 0, 0))
              && (validateDirectory(outputPath) ==>
                    && r.successful == Successes(r.attempted, outputPath, download)
                    && r.failed == Failures(r.attempted, outputPath, download))
    // the summary accounts for every attempted URL
    ensures r.successful + r.failed == |r.attempted|
    ensures r.exitCode == 0 || r.exitCode == 1
    ensures r.exitCode == 1 ==> r.attempted == []
  {
    if |argv| !in {3, 4} {
      return EarlyExit;
    }

    var isBatchMode := argv[1] == BatchFlag;
    var outputPath: string;
    var urls: seq<string>;
    if isBatchMode {
      if |argv| != 4 {
        return EarlyExit;
      }
      var urlsFile := argv[2];
      outputPath := argv[3];
      var read := ReadUrlsFromFile(readFile(urlsFile));
      if read.None? {
        return EarlyExit;
      }
      urls := read.value;
    } else {
      var url := argv[1];
      outputPath := argv[2];
      urls := [url];
    }

    if !validateDirectory(outputPath) {
      return Run(1, true, [], 0, 0);
    }

    var totalUrls := |urls|;
    var successful, failed := 0, 0;
    var attempted := [];
    for i := 1 to totalUrls + 1
      invariant successful + failed == i - 1
      invariant attempted == urls[..i - 1]
      invariant successful == Successes(attempted, outputPath, download)
      invariant failed == Failures(attempted, outputPath, download)
    {
      var url := urls[i - 1];
      if download(url, outputPath) {
        successful := successful + 1;
      } else {
        failed := failed + 1;
      }
      assert (attempted + [url])[..|attempted|] == attempted;
      attempted := attempted + [url];
    }
    assert attempted == urls;
    return Run(0, true, attempted, successful, failed);
  }
}
