# YouTube audio downloader — verified model of its core

The downloader is a small command-line program around an external video
library. It takes one URL or a file of URLs plus an output directory, and
downloads each video's audio in turn. This project models the parts of it that
are the program's own logic, and proves what they promise:

- **helpers.py**
  - the filename sanitiser `create_safe_filename`;
  - the ETA formatter `format_time`;
  - the unit choice of the byte formatter `format_bytes`.
- **youtube_downloader.py**
  - the cleaning of a URL file's lines in `read_urls_from_file`;
  - `main`, which checks the argument count and the mode, resolves the URL
    list, checks the output directory and downloads the URLs one at a time
    while it counts successes and failures.

The project has four modules:

- `Wrappers` holds `Option`.
- `Text` holds Python's `str.strip()` and `str(n)`.
- `Helpers` models helpers.py.
- `Downloader` models youtube_downloader.py.

`main` becomes the method `Downloader.RunDownloader`. It receives the outside
world as three function parameters:

- `readFile` gives the lines of a URL file, or `None` when opening or reading
  it fails.
- `validateDirectory` is the directory check.
- `download` is `download_video(url, output_path)`. That function catches
  every `Exception` and returns a bool.

The method returns a `Run`:

- the exit status (`sys.exit(1)` is status 1, a normal return is status 0);
- whether the directory check was reached;
- the URLs passed to `download`, in call order;
- the two counters of the summary.

`format_bytes` divides by `1024.0`. For integer counts below 2^53 this
division is exact, so the model divides a `real` by 1024 and is exact there.

## Model

| member | source | states |
|---|---|---|
| `Text.Strip` | youtube_downloader.py:51 | a stripped line neither starts nor ends with a whitespace character and is no longer than the line |
| `Text.StripSlice` | youtube_downloader.py:51 | strip keeps one contiguous slice of the line, and everything it drops before and after that slice is whitespace |
| `Text.StripEmpty` | youtube_downloader.py:51 | a line strips to the empty string exactly when it consists of whitespace only (the blank lines the comprehension skips) |
| `Text.Digits` | helpers.py:41 | `str(n)` is a non-empty string of decimal digits with no leading zero, one digit exactly below 10 and at least three from 100 on |
| `Text.DecimalRoundTrip` | helpers.py:41 | reading the digits of `str(n)` back gives `n` |
| `Helpers.RemoveForbidden` | helpers.py:11 | deleting the class `[<>:"/\\|?*]` leaves no forbidden character and never lengthens the title |
| `Helpers.RemoveForbiddenAppend` | helpers.py:11 | deletion works character by character: it distributes over concatenation, so order is preserved |
| `Helpers.RemoveForbiddenMembers` | helpers.py:11 | a character occurs in the result exactly when it occurs in the title and is not forbidden |
| `Helpers.RemoveForbiddenIdentity` | helpers.py:11 | deletion leaves the title unchanged exactly when the title holds no forbidden character |
| `Helpers.ReplaceSpaces` | helpers.py:13 | the replacement keeps the length and turns each space into `_` at the same position, leaving every other character alone |
| `Helpers.CreateSafeFilename` | helpers.py:8-15 | the file name has no forbidden character and no space, is at most 100 characters and no longer than the title, and is the first min(100, n) characters of the filtered title with spaces mapped to `_` |
| `Helpers.CreateSafeFilenameFixpoint` | helpers.py:8-15 | a name comes back unchanged exactly when it has no forbidden character, no space and at most 100 characters |
| `Helpers.CreateSafeFilenameIdempotent` | helpers.py:8-15 | sanitising a sanitised name returns it unchanged |
| `Helpers.CreateSafeFilenameSample` | helpers.py:8-15 | `a:b/c*d` becomes `abcd`: the forbidden characters are deleted, not replaced |
| `Helpers.SplitDuration` | helpers.py:38-40 | the hours, minutes and seconds recombine to the count, with minutes and seconds below 60 |
| `Helpers.SplitDurationUnique` | helpers.py:38-40 | no other split into hours, minutes below 60 and seconds below 60 exists |
| `Helpers.Pad2` | helpers.py:41 | the `02d` field is all digits and denotes the number; it is exactly two characters below 100, and from 100 on it is the plain digits of the number, with no leading zero and nothing cut |
| `Helpers.FormatTime` | helpers.py:34-41 | a negative count gives `--:--:--`; otherwise the string has colons at the sixth and third positions from the end, is exactly 8 characters with colons at 2 and 5 below 360000 seconds, and from 100 hours on is longer and starts with a non-zero digit |
| `Helpers.FormatTimeRoundTrip` | helpers.py:34-41 | parsing the formatted string gives back exactly the hours, minutes and seconds of the count, with no field truncated; the placeholder parses to nothing |
| `Helpers.FormatTimeSamples` | helpers.py:34-41 | -1 gives `--:--:--`, 0 gives `00:00:00` and 3661 gives `01:01:01` |
| `Helpers.UnitIndexBounds` | helpers.py:28-32 | unit k is chosen exactly when 1024^k <= n < 1024^(k+1), with no lower bound for B and no upper bound for TB |
| `Helpers.UnitIndexRanges` | helpers.py:28-32 | B iff n < 1024, KB iff 1024 <= n < 1024², MB iff 1024² <= n < 1024³, GB iff 1024³ <= n < 1024⁴, TB iff n >= 1024⁴ |
| `Helpers.UnitIndexMonotone` | helpers.py:28-32 | a larger count never gets a smaller unit |
| `Helpers.SelectUnit` | helpers.py:26-32 | the loop over B, KB, MB, GB stops at the unit of the count's range, or falls through to TB; the printed value times 1024^rank is the count; it is below 1024 unless the unit is TB, and at least 1 unless the unit is B |
| `Downloader.CleanUrls` | youtube_downloader.py:51 | the comprehension returns no more URLs than there are lines |
| `Downloader.CleanUrlsTrimmed` | youtube_downloader.py:51 | every returned URL is non-empty and has no leading or trailing whitespace |
| `Downloader.CleanUrlsAppend` | youtube_downloader.py:51 | cleaning works line by line: it distributes over concatenation of the line list |
| `Downloader.CleanUrlsLength` | youtube_downloader.py:51 | there is one URL per line whose strip is non-empty |
| `Downloader.CleanUrlsAt` | youtube_downloader.py:51 | a non-blank line's stripped form stands at the position given by the number of non-blank lines before it |
| `Downloader.CleanUrlsExact` | youtube_downloader.py:51 | the result is exactly the stripped non-blank lines in file order |
| `Downloader.ReadUrlsFromFile` | youtube_downloader.py:46-55 | an unreadable file gives no list; a readable one gives exactly the cleaned lines, one URL per non-blank line |
| `Downloader.Successes` | youtube_downloader.py:94-95 | the success counter never exceeds the number of URLs |
| `Downloader.Failures` | youtube_downloader.py:96-97 | the failure counter never exceeds the number of URLs |
| `Downloader.TallyComplete` | youtube_downloader.py:85-97 | successes plus failures equal the number of URLs |
| `Downloader.PartialFailureTally` | youtube_downloader.py:92-97 | with three URLs of which only the second fails, the tally is two successes and one failure |
| `Downloader.RunDownloader` | youtube_downloader.py:57-103 | an argument count outside {3, 4}, `--batch` with three arguments and an unreadable URL file all give status 1 before the directory check, with no download. Single mode downloads exactly `[argv[1]]` into `argv[2]` and ignores a fourth argument. Batch mode downloads the cleaned file into `argv[3]`. A failed directory check gives status 1 with no download. Otherwise every URL is attempted once, in order, whatever the earlier outcomes, the counters equal the numbers of true and false answers, and the status is 0 |

## Left out

- `validate_directory` (helpers.py:17-24) creates directories and checks write access on the file system. It becomes the parameter `validateDirectory`.
- `show_progress` (helpers.py:43-76) writes the progress bar to standard output and works on floating-point percentages and the library's progress dictionaries. It is not modelled.
- The `.1f` rendering in `format_bytes` (helpers.py:30, 32) is not modelled. `SelectUnit` returns the scaled value as an exact `real` and the unit.
- Float arguments to `format_bytes` are not modelled: the progress line passes a float speed. Nor is float rounding of counts from 2^53 up to the largest float; the unit is the same there, but the value is exact in the model.
- Helpers.SelectUnit: counts beyond the float range (about 1.8·10^308 and up) raise `OverflowError` in the source when `bytes_count /= 1024.0` converts them to a float (helpers.py:31), so `format_bytes` returns nothing; the model gives them `TB` with an exact value instead.
- `format_time` is modelled on integers only. A float or missing ETA reported by the library is not.
- `download_video` (youtube_downloader.py:9-44) calls the external library and prints messages. It becomes the parameter `download`, which gives one fixed answer per (URL, directory) pair. A URL listed twice in a batch therefore gets the same answer both times in the model, while the network could answer differently.
- File opening in `read_urls_from_file` (youtube_downloader.py:49, 53-55) is not modelled, and neither is splitting the file into lines (newline translation included). The parameter `readFile` gives the lines, or `None` when opening or reading fails.
- Everything printed is left out: usage text, error messages, the `video`/`videos` plural on youtube_downloader.py:89 and the summary lines. Only the counters the summary shows are modelled.
- `Text.IsWhitespace` lists the code points for which Python 3's `str.isspace()` holds. A later Unicode version that added whitespace characters is not followed.
- Files are not named with `create_safe_filename`. The output template at youtube_downloader.py:21 uses the raw `%(title)s`, and the function is imported at youtube_downloader.py:7 but never called. So `CreateSafeFilename` stands alone and `RunDownloader` does not use it.
