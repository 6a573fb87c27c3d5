# checksumValidation in Dafny

checksumValidation is made of two command-line scripts that share a plain-text
manifest format, with one `<hash>:<path>` line per file.

- **Scanner.** `psScannerV1.py` walks a directory and computes a SHA-512 digest of
  every regular file. It writes the manifest sorted by path to
  `<output>_<YYYYmmdd_HHMMSS>.txt`.
- **Comparator.** `psValidatorV1.py` reads two manifests, a baseline and a current
  one, into dictionaries from path to hash. It puts every path into one of four
  groups: matching, mismatching, only in the baseline, and only in the current
  manifest. It then prints the four group sizes and, for some outcomes, one closing
  status line.

This project models both scripts' logic and proves what they guarantee. The modules
are:

- `PyStrings` (`pystrings.dfy`): the Python built-ins the scripts depend on.
  - `str.isspace`, `str.strip`, `str.split(':', 1)` and ordinal `<` on `str`.
  - Text-mode line reading with universal newlines, and writing lines one after the
    other.
- `PySorted` (`pysorted.dfy`): `sorted()` over a dictionary's keys. It yields the
  unique strictly ascending enumeration of the keys.
- `Validator` (`validator.dfy`): `read_hash_file` and `compare_hashes`.
  - Each line is classified as blank, malformed, or an entry.
  - A loop folds the lines into the dictionary and the format-error count. It is
    proved equal to a left fold over the line classifications. Lemmas then say what
    that fold means.
  - The reconciliation loop is proved to give the sizes of the four groups,
    whatever order it visits the paths in.
  - The summary chain is stated as the table of outcomes it actually produces.
- `Scanner` (`scanner.dfy`): three parts of the scanner.
  - The digest-collecting loop of `generate_hashes`, with each file's read outcome
    given as an input.
  - `save_hashes_to_file`, proved to write the lines sorted by path.
  - The output file name built from the `%Y%m%d_%H%M%S` stamp.
- `RoundTrip` (`roundtrip.dfy`): what the comparator reads back from a manifest the
  scanner wrote.

### Behaviour the model makes explicit

- **The first entry for a path wins.** A later line with the same path changes
  neither the dictionary nor the error count.
- **Malformed lines.** A non-blank line is one format error when it has no `:`, or
  when the text before its first `:` or the text after it is empty. Only the whole
  line is stripped; the two parts are not stripped separately.
- **The split is at the first `:`.** The path keeps any later `:`. Once the line
  holds a `:`, the split always gives two parts, so the source's check for a
  different number of parts (`psValidatorV1.py:31-37`) can never fire. The method
  has `assert false` there.
- **An empty manifest ends the comparison early.** If either dictionary is empty
  (for example because the file could not be read), `compare_hashes` returns before
  classifying anything (`Comparison.Aborted`). So the later "Format errors
  detected" branch (`psValidatorV1.py:121-123`) can never be reached.
- **The summary chain.**
  - No mismatch, nothing only in the baseline and nothing only in the current
    manifest gives "all match".
  - Otherwise, no mismatch and something only in the current manifest gives "new
    files". This holds even when some files also disappeared, so the combined
    "added/removed" branch (`psValidatorV1.py:132-133`) is never taken.
  - Otherwise, no mismatch and something only in the baseline gives "old files".
  - Any mismatch prints no closing status line (`Status.Unreported`). The four group
    sizes (`psValidatorV1.py:116-120`) are still printed.
- **An unreadable manifest does not fail the comparison.** `read_hash_file` catches
  every exception, prints an error line (`psValidatorV1.py:60`, `psValidatorV1.py:63`)
  and returns an empty dictionary with zero errors (`psValidatorV1.py:59-64`).
  `compare_hashes` then returns at lines 72-73 without a summary message and with
  exit status 0.
- **Paths that do not survive the format.** The round trip needs every path to be
  non-empty, free of line breaks and free of trailing whitespace
  (`RoundTrip.PathSurvives`). Other names are read back wrongly.
  - A name ending in whitespace is read back under the stripped name
    (`RoundTrip.TrailingSpaceAliases`). When a file with that stripped name also
    exists, the first line wins, so changes to one of the two files go unseen.
  - A name holding a line break splits its manifest line in two
    (`RoundTrip.LineBreakSplitsEntry`).
  - The first half names a prefix of the path, and a prefix sorts first
    (`PyStrings.PrefixSortsFirst`). So that prefix's own line, if the file exists,
    is written earlier and wins. When the name starts with a line break, the first
    half has an empty path and is a format error (`Validator.ClassifyEmptyField`).
  - The second half is a format error or, when it holds a `:`, a spurious entry. That
    entry shadows the real entry of a path that sorts after the name
    (`RoundTrip.LineBreakShadows`). For example, with files `a`, `a\nh2:z` and `z`,
    the real `a` keeps its hash but `z` is read with the hash `h2`
    (`RoundTrip.LineBreakShadowsExample`).

## Model

| member | source | states |
|---|---|---|
| PyStrings.Strip | psValidatorV1.py:16 | `line.strip()` is the slice left once leading and trailing whitespace is cut. It is empty exactly when every character is whitespace, and a non-empty result neither starts nor ends with whitespace. |
| PyStrings.SplitOnce | psValidatorV1.py:30 | `split(':', 1)` gives two parts exactly when `:` occurs. Two parts are the text before the first `:` (which holds no `:`) and the whole remainder; one part is the line itself. |
| PyStrings.SplitOnceAt | psValidatorV1.py:30 | Any decomposition `h + ":" + p` where `h` has no `:` is the one the split returns. |
| PyStrings.SpaceClasses | psValidatorV1.py:16 | Both line terminators are whitespace, so `strip()` removes the newline each line is delivered with. `:`, decimal digits and ASCII letters are not whitespace. `IsSpace` itself is the exact set `str.isspace` accepts. |
| PyStrings.ReadLinesShape | psValidatorV1.py:13-15 | `for line in f` in text mode delivers lines with no line break except a final `\n`: no line ends in `\r`, and every line but the last has that `\n`. |
| PyStrings.ReadLinesLast | psValidatorV1.py:13-15 | The last line delivered ends with `\n` exactly when the file's text ends with a line break. |
| PyStrings.ReadLinesOfJoin | psValidatorV1.py:13-15 | Iterating over a text file made of `\n`-terminated lines with no other line break yields exactly those lines. |
| PyStrings.ReadLinesOfJoinCrLf | psValidatorV1.py:13-15 | The same lines written with `\r\n` terminators are read back as the `\n`-terminated lines: universal newlines turn each `\r\n` into `\n`. |
| PyStrings.LessIrreflexive | psScannerV1.py:44 | No string sorts before itself under `<` on `str`. |
| PyStrings.LessTransitive | psScannerV1.py:44 | `<` on `str` is transitive. |
| PyStrings.LessTotal | psScannerV1.py:44 | Of two different strings, one sorts before the other, so `sorted()` has a single answer. |
| PyStrings.PrefixSortsFirst | psScannerV1.py:44 | A string sorts before every longer string that starts with it. |
| PySorted.Sorted | psScannerV1.py:44 | `sorted()` of the dictionary's keys is strictly ascending in ordinal order and lists exactly the keys. |
| PySorted.SortedUnique | psScannerV1.py:44 | Two strictly ascending sequences with the same elements are equal, so the sorted order is unique. |
| PySorted.SortedLength | psScannerV1.py:44 | A strictly ascending enumeration of a key set has one element per key. |
| Validator.ClassifyLine | psValidatorV1.py:16-50 | A line is blank exactly when it is all whitespace, and lacks a separator exactly when its stripped text is non-empty with no `:`. An entry's stripped text is `hash:path` with both parts non-empty and no `:` in the hash. |
| Validator.ClassifyEntry | psValidatorV1.py:30-50 | A stripped line `h:p` with `h` free of `:` and both parts non-empty is the entry `(h, p)`, and the path keeps every later `:`. |
| Validator.ClassifyEmptyField | psValidatorV1.py:39-46 | A stripped line `h:p` with an empty hash or empty path is one malformed line, and the parts are not stripped themselves. |
| Validator.ReadHashFile | psValidatorV1.py:8-64 | The reader loop returns the left fold of the line classifications over the file's lines. An unreadable file gives an empty dictionary and zero errors. |
| Validator.FoldErrors | psValidatorV1.py:22-46 | The format-error count is the number of malformed lines. |
| Validator.FoldEntries | psValidatorV1.py:48-54 | A path is a key exactly when some line is an entry for it, and its value is the hash of the first such line. |
| Validator.ParseLinesErrors | psValidatorV1.py:15-46 | Over a whole file, the error count equals the number of lines classified as malformed. |
| Validator.ParseLinesEntries | psValidatorV1.py:15-54 | Over a whole file, the keys are exactly the paths of well-formed lines, and each is mapped to the hash of its first line. |
| Validator.ParseLinesSnoc | psValidatorV1.py:15-56 | Reading one more line applies that line's step to the state reached so far. |
| Validator.DuplicateLineIgnored | psValidatorV1.py:49-54 | An entry line for a path that an earlier line already recorded changes neither the dictionary nor the error count. |
| Validator.NoSeparatorLine | psValidatorV1.py:22-28 | A non-blank line with no `:` adds exactly one format error and leaves the dictionary unchanged. |
| Validator.BlankLine | psValidatorV1.py:16-19 | A line that is empty after stripping changes nothing. |
| Validator.PartitionCovers | psValidatorV1.py:76-111 | The matching, mismatching, baseline-only and current-only groups are pairwise disjoint and together cover the union of both key sets. |
| Validator.PartitionSize | psValidatorV1.py:76-111 | The four counts add up to the number of distinct paths in both manifests. |
| Validator.VisitPath | psValidatorV1.py:88-111 | Visiting one path raises exactly the counter of the group that path belongs to. |
| Validator.VisitedBounds | psValidatorV1.py:79-113 | Before the loop all counters are zero. After it, the counts are the sizes of the four groups. |
| Validator.CountPaths | psValidatorV1.py:76-113 | The counting loop, visiting the union in any order, ends with the sizes of the matching, mismatching, baseline-only and current-only groups. |
| Validator.Summary | psValidatorV1.py:121-133 | "Format errors" comes only when a dictionary is empty. The combined added/removed outcome is never produced. With both non-empty: all-match iff all three change counts are zero; new-files iff there is no mismatch and some current-only path; old-files iff there is no mismatch, no current-only path and some baseline-only path; otherwise no summary line. |
| Validator.CompareHashes | psValidatorV1.py:66-133 | The comparison aborts exactly when either manifest reads as an empty dictionary. When it runs, it reports neither "format errors" nor "added/removed". |
| Validator.MixedChangesReportedAsNew | psValidatorV1.py:125-133 | With no mismatch but both removed and added paths, the outcome is "new files". |
| Validator.CompareWithItself | psValidatorV1.py:66-133 | Comparing a non-empty manifest with itself counts every path as matching and reports "all match". |
| Validator.AllMatchIffSameHashes | psValidatorV1.py:125-127 | When both manifests are non-empty, "all files match" is reported exactly when the two dictionaries are equal. |
| Scanner.GenerateHashes | psScannerV1.py:27-37 | The digest loop returns the dictionary built from the walked files in order. A failed read is skipped, and the loop goes on. |
| Scanner.CollectEntries | psScannerV1.py:27-37 | The dictionary's keys are exactly the paths read successfully, and each holds the digest of its last successful read. |
| Scanner.CollectDistinct | psScannerV1.py:27-35 | With distinct paths, every file read successfully is stored with its own digest. |
| Scanner.CollectOrderIrrelevant | psScannerV1.py:23-37 | With distinct paths, the dictionary does not depend on the order the walk yields the files in. |
| Scanner.SaveHashesToFile | psScannerV1.py:40-48 | An unwritable output fails. Otherwise the file holds the manifest text: one `hash:path\n` line per entry, by ascending path. |
| Scanner.ManifestLayout | psScannerV1.py:44-45 | The manifest has exactly one line per dictionary entry, in strictly ascending path order. Any such listing gives the same text, so the text depends only on the dictionary's contents. |
| Scanner.FormatTimestamp | psScannerV1.py:89 | The stamp is 15 characters long, with `_` at position 8 and decimal digits everywhere else. |
| Scanner.TimestampRoundTrip | psScannerV1.py:89 | The six fields can be read back from the stamp, so the stamp determines the time. |
| Scanner.OutputFileName | psScannerV1.py:91 | The output name is the given base, then `_`, then the stamp, then `.txt`. |
| Scanner.OutputNamesDistinct | psScannerV1.py:89-91 | Runs started at different local times, to the second, write to different file names. |
| RoundTrip.HexDigestSurvives | psScannerV1.py:35 | A 128-character lowercase hex digest is a hash the reader gives back unchanged. |
| RoundTrip.EntryLineRead | psScannerV1.py:45 | A written line is read back as the entry it was written from, when the hash is non-empty with no `:`, no leading whitespace and no `\n` or `\r`, and the path is non-empty with no trailing whitespace and no `\n` or `\r`. |
| RoundTrip.TrailingSpaceAliases | psValidatorV1.py:16-50 | The line written for path `a ` is read as the entry for `a`: the reader's `strip()` removes the trailing space together with the newline. |
| RoundTrip.LineBreakSplitsEntry | psValidatorV1.py:13-15 | Let `h`, `a` and `b` hold no line break. The line written with hash `h` for the path `a\nb` is read as the two lines `h:a\n` and `b\n`. |
| RoundTrip.LineBreakShadows | psScannerV1.py:44-45 | Take surviving paths `a` and `z` and a surviving hash `h2`, where the name `a\n<h2>:z` sorts before `z`. The name sorts after `a`. With the three files hashed `h1`, `h` and `h3`, the manifest reads back as `{a: h1, z: h2}` with zero format errors: `a` keeps its own hash and `z` gets `h2`, not its real hash. |
| RoundTrip.LineBreakShadowsExample | psValidatorV1.py:49-54 | With files `a`, `a\nh2:z` and `z` hashed `h1`, `h` and `h3`, the manifest reads back as `{a: h1, z: h2}` with zero format errors. |
| RoundTrip.EntryLineBreaks | psScannerV1.py:45 | A written line ends with its newline and holds no other line break. |
| RoundTrip.ParseEntryLines | psValidatorV1.py:15-56 | Reading the lines written for distinct paths gives exactly those paths' entries, with zero format errors. |
| RoundTrip.ManifestRoundTrip | psScannerV1.py:40-48 | Reading back the manifest written for a dictionary gives the same dictionary with zero format errors, provided hashes and paths survive the format. |
| RoundTrip.ManifestRoundTripCrLf | psScannerV1.py:40-48 | The same holds when each line's `\n` is written as `\r\n`. |
| RoundTrip.ScanSurvivesCollect | psScannerV1.py:27-37 | When every digest is hex and every path survives the format, the same holds for every entry of the scanned dictionary. |
| RoundTrip.RescanSameManifest | psScannerV1.py:23-48 | Two scans of an unchanged tree with distinct paths, in any walk order, write the same manifest. |
| RoundTrip.RescanUnchangedTree | psScannerV1.py:27-48 | For a non-empty scan whose digests are hex and whose paths survive the format, comparing its manifest with itself counts every file as matching and reports "all match". |

## Left out

- Walking the file system and reading files (`Path.is_file`, `rglob`, opening files, the 64 KiB chunk loop). The model takes the walked files and each one's read outcome as input.
- SHA-512 itself. Digests are opaque strings. `RoundTrip.IsHexDigest` states their shape only where the round trip needs it.
- The existence check on the input path, `datetime.now()` and `time.time()`. The timestamp is a parameter, and the exit on a missing path is not modelled.
- Opening and writing the output file. `Scanner.SaveHashesToFile` takes writability as an input.
- Scanner.SaveHashesToFile: an error in the middle of writing is modelled as `WriteFailed` with no file contents, so partly written files are not modelled.
- Scanner.SaveHashesToFile: a path the locale encoding cannot encode raises `UnicodeEncodeError` in `f.write`. That includes undecodable file names that `rglob` returns as surrogate escapes, which a Dafny `string` cannot hold. `except IOError` does not catch this error, so the scan ends with a traceback after writing the lines before it. The model folds this case into `Unwritable`/`WriteFailed` too.
- Validator.ReadHashFile: every exception inside the reader is a single `Unreadable` input, because the code handles them all by returning an empty dictionary with no errors. This covers a missing file, a read error and a decoding error, and a failure part-way through the file is not separated out.
- Validator.ReadHashFile: text decoding is outside the model. The manifest is given as the decoded text.
- The format-error counts that `compare_hashes` receives are never used by the code, so the model keeps them but does not thread them into the comparison.
- All messages, progress bars, colours and ASCII art printed by both scripts. The summary is modelled as a `Status` value in place of the printed line.
- The Typer command wrappers and `__main__` blocks.
- Scanner.FormatTimestamp: years must be 1000..9999, because `%Y` does not give four digits for other years.
- Scanner.OutputNamesDistinct: it is about distinct `Timestamp` values only. `datetime.now()` is naive local time, which repeats during a daylight-saving fall-back hour. Two runs an hour apart can then get the same name, as can two runs started in the same second. `open(output_file, 'w')` then overwrites the earlier manifest. Clock behaviour is outside the model.
- Scanner.SaveHashesToFile: on platforms that write `\n` as `\r\n`, the written text differs. The writer-side translation is not part of `SaveHashesToFile`. `RoundTrip.ManifestRoundTripCrLf` proves the reader gives back the same dictionary from the translated text.
