/** The comparator script: reading a `<hash>:<path>` manifest into a dictionary
    with a count of malformed lines, and reconciling two such dictionaries. */
module Validator {
  import opened PyStrings

  // ---------------------------------------------------------------------------
  // Reading a manifest (read_hash_file)
  // ---------------------------------------------------------------------------

  /** A manifest as the comparator finds it: a file it cannot open or read (any
      exception inside the reader), or the text the file holds. */
  datatype ManifestFile = Unreadable | Readable(text: string)

  /** Why a non-blank line is rejected. */
  datatype FormatError = NoSeparator | EmptyField

  /** How the reader treats one line. */
  datatype LineKind = Blank | Malformed(why: FormatError) | Entry(hash: string, path: string)

  /** The reader's result: the dictionary path -> hash and the format-error count. */
  datatype Parsed = Parsed(hashes: map<string, string>, formatErrors: nat)

  /** The verdict on one raw line: blank after stripping, malformed, or an entry made of
      the text before the first `:` (the hash) and everything after it (the path). */
  function ClassifyLine(raw: string): (k: LineKind)
    ensures k.Blank? <==> forall i :: 0 <= i < |raw| ==> IsSpace(raw[i])
    ensures k == Malformed(NoSeparator) <==> Strip(raw) != [] && ':' !in Strip(raw)
    ensures k.Entry? ==> && Strip(raw) == k.hash + ":" + k.path
                         && k.hash != [] && k.path != [] && ':' !in k.hash
  {
    var line := Strip(raw);
    if line == [] then Blank
    else if ':' !in line then Malformed(NoSeparator)
    else
      var parts := SplitOnce(line, ':');
      var fileHash, filePath := parts[0], parts[1];
      if fileHash == [] || filePath == [] then Malformed(EmptyField)
      else Entry(fileHash, filePath)
  }

  /** A stripped line `h:p` whose hash part holds no `:` and whose parts are both
      non-empty is the entry (h, p): the path keeps every later `:`. */
  lemma ClassifyEntry(raw: string, h: string, p: string)
    requires Strip(raw) == h + ":" + p && ':' !in h
    requires h != [] && p != []
    ensures ClassifyLine(raw) == Entry(h, p)
  {
    SplitOnceAt(h, ':', p);
  }

  /** A stripped line `h:p` with an empty hash part or an empty path part is one
      format error; the parts themselves are not stripped. */
  lemma ClassifyEmptyField(raw: string, h: string, p: string)
    requires Strip(raw) == h + ":" + p && ':' !in h
    requires h == [] || p == []
    ensures ClassifyLine(raw) == Malformed(EmptyField)
  {
    SplitOnceAt(h, ':', p);
  }

  /** The effect of one classified line on the reader's state. */
  function Step(acc: Parsed, k: LineKind): Parsed {
    match k
    case Blank => acc
    case Malformed(_) => acc.(formatErrors := acc.formatErrors + 1)
    case Entry(h, p) => if p in acc.hashes then acc else acc.(hashes := acc.hashes[p := h])
  }

  /** The reader's state after lines of the given kinds, in file order. */
  function Fold(kinds: seq<LineKind>): Parsed
    decreases |kinds|
  {
    if kinds == [] then Parsed(map[], 0)
    else Step(Fold(kinds[..|kinds| - 1]), kinds[|kinds| - 1])
  }

  /** The classification of every line. */
  function Kinds(lines: seq<string>): (kinds: seq<LineKind>)
    ensures |kinds| == |lines|
    ensures forall i :: 0 <= i < |lines| ==> kinds[i] == ClassifyLine(lines[i])
  {
    seq(|lines|, i requires 0 <= i < |lines| => ClassifyLine(lines[i]))
  }

  /** The reader's state after the given lines. */
  function ParseLines(lines: seq<string>): Parsed {
    Fold(Kinds(lines))
  }

  /** What `read_hash_file` returns for a manifest. */
  function ReadSpec(f: ManifestFile): Parsed {
    match f
    case Unreadable => Parsed(map[], 0)
    case Readable(text) => ParseLines(ReadLines(text))
  }

  /** `read_hash_file`: one pass over the lines, updating the dictionary and the counter. */
  method ReadHashFile(f: ManifestFile) returns (r: Parsed)
    ensures r == ReadSpec(f)
    ensures f.Unreadable? ==> r == Parsed(map[], 0)
  {
    if f.Unreadable? {
      return Parsed(map[], 0);
    }
    var lines := ReadLines(f.text);
    var hashes: map<string, string> := map[];
    var formatErrorCount: nat := 0;
    ghost var kinds := Kinds(lines);
    var i := 0;
    while i < |lines|
      invariant 0 <= i <= |lines|
      invariant Parsed(hashes, formatErrorCount) == Fold(kinds[..i])
    {
      ghost var kind := ClassifyLine(lines[i]);
      ghost var before := Parsed(hashes, formatErrorCount);
      FoldSnoc(kinds, i);
      var line := Strip(lines[i]);
      if line == [] {
        // blank line: skipped
        assert kind == Blank;
        assert Parsed(hashes, formatErrorCount) == Step(before, kind);
      } else if ':' !in line {
        formatErrorCount := formatErrorCount + 1;
        assert kind == Malformed(NoSeparator);
        assert Parsed(hashes, formatErrorCount) == Step(before, kind);
      } else {
        var parts := SplitOnce(line, ':');
        if |parts| != 2 {
          // split(':', 1) of a line holding ':' always has two parts
          assert false;
        }
        var fileHash, filePath := parts[0], parts[1];
        if fileHash == [] || filePath == [] {
          formatErrorCount := formatErrorCount + 1;
          assert kind == Malformed(EmptyField);
          assert Parsed(hashes, formatErrorCount) == Step(before, kind);
        } else {
          assert kind == Entry(fileHash, filePath);
          if filePath !in hashes {
            hashes := hashes[filePath := fileHash];
          }
          // a repeated path keeps its first hash and is not a format error
          assert Parsed(hashes, formatErrorCount) == Step(before, kind);
        }
      }
      i := i + 1;
    }
    assert kinds[..|lines|] == kinds;
    r := Parsed(hashes, formatErrorCount);
  }

  /** One more line applies its step to the fold so far. */
  lemma FoldSnoc(kinds: seq<LineKind>, i: nat)
    requires i < |kinds|
    ensures Fold(kinds[..i + 1]) == Step(Fold(kinds[..i]), kinds[i])
  {
    assert kinds[..i + 1][..i] == kinds[..i];
  }

  /** Positions of the malformed lines among `kinds`. */
  function MalformedAt(kinds: seq<LineKind>): set<nat> {
    set i: nat | i < |kinds| && kinds[i].Malformed?
  }

  /** The line kind `k` is a well-formed entry for `path`. */
  predicate IsEntryFor(k: LineKind, path: string) {
    k.Entry? && k.path == path
  }

  /** The format-error count is the number of malformed lines; blank lines and
      repeated paths never add to it. */
  lemma {:induction false} FoldErrors(kinds: seq<LineKind>)
    ensures Fold(kinds).formatErrors == |MalformedAt(kinds)|
    decreases |kinds|
  {
    if kinds != [] {
      var n := |kinds| - 1;
      var init := kinds[..n];
      FoldErrors(init);
      assert forall i :: 0 <= i < n ==> kinds[i] == init[i];
      if kinds[n].Malformed? {
        assert MalformedAt(kinds) == MalformedAt(init) + {n};
      } else {
        assert MalformedAt(kinds) == MalformedAt(init);
      }
    }
  }

  /** The dictionary holds exactly the paths of the well-formed lines, each with the
      hash of the first line that names it. */
  lemma {:induction false} FoldEntries(kinds: seq<LineKind>)
    ensures forall p :: p in Fold(kinds).hashes <==>
      exists i :: 0 <= i < |kinds| && IsEntryFor(kinds[i], p)
    ensures forall p :: p in Fold(kinds).hashes ==>
      exists i :: && 0 <= i < |kinds|
                  && kinds[i] == Entry(Fold(kinds).hashes[p], p)
                  && forall j :: 0 <= j < i ==> !IsEntryFor(kinds[j], p)
    decreases |kinds|
  {
    if kinds != [] {
      var n := |kinds| - 1;
      var init := kinds[..n];
      FoldEntries(init);
      assert forall i :: 0 <= i < n ==> kinds[i] == init[i];
      var before, after := Fold(init).hashes, Fold(kinds).hashes;
      forall p | p in after
        ensures exists i :: && 0 <= i < |kinds|
                            && kinds[i] == Entry(after[p], p)
                            && forall j :: 0 <= j < i ==> !IsEntryFor(kinds[j], p)
      {
        if p in before {
          var i :| && 0 <= i < |init|
                   && init[i] == Entry(before[p], p)
                   && forall j :: 0 <= j < i ==> !IsEntryFor(init[j], p);
          assert kinds[i] == Entry(after[p], p);
        } else {
          assert kinds[n] == Entry(after[p], p);
        }
      }
    }
  }

  /** `FoldErrors` for the lines of a manifest. */
  lemma ParseLinesErrors(lines: seq<string>)
    ensures ParseLines(lines).formatErrors == |set i: nat | i < |lines| && ClassifyLine(lines[i]).Malformed?|
  {
    var kinds := Kinds(lines);
    FoldErrors(kinds);
    assert MalformedAt(kinds) == set i: nat | i < |lines| && ClassifyLine(lines[i]).Malformed?;
  }

  /** `FoldEntries` for the lines of a manifest: a path is a key exactly when some line
      is a well-formed entry for it, and its hash is that of the first such line. */
  lemma ParseLinesEntries(lines: seq<string>)
    ensures forall p :: p in ParseLines(lines).hashes <==>
      exists i :: 0 <= i < |lines| && IsEntryFor(ClassifyLine(lines[i]), p)
    ensures forall p :: p in ParseLines(lines).hashes ==>
      exists i :: && 0 <= i < |lines|
                  && ClassifyLine(lines[i]) == Entry(ParseLines(lines).hashes[p], p)
                  && forall j :: 0 <= j < i ==> !IsEntryFor(ClassifyLine(lines[j]), p)
  {
    FoldEntries(Kinds(lines));
  }

  /** Reading one more line is one more `Step`. */
  lemma ParseLinesSnoc(lines: seq<string>, raw: string)
    ensures ParseLines(lines + [raw]) == Step(ParseLines(lines), ClassifyLine(raw))
  {
    var kinds := Kinds(lines + [raw]);
    assert kinds[..|lines|] == Kinds(lines);
  }

  /** A line naming a path that an earlier line already recorded changes nothing: the
      first hash stays and no format error is counted. */
  lemma DuplicateLineIgnored(lines: seq<string>, raw: string, i: nat)
    requires i < |lines|
    requires ClassifyLine(raw).Entry? && IsEntryFor(ClassifyLine(lines[i]), ClassifyLine(raw).path)
    ensures ParseLines(lines + [raw]) == ParseLines(lines)
  {
    ParseLinesEntries(lines);
    ParseLinesSnoc(lines, raw);
  }

  /** A non-blank line without `:` adds exactly one format error and no entry. */
  lemma NoSeparatorLine(lines: seq<string>, raw: string)
    requires Strip(raw) != [] && ':' !in Strip(raw)
    ensures ParseLines(lines + [raw]).hashes == ParseLines(lines).hashes
    ensures ParseLines(lines + [raw]).formatErrors == ParseLines(lines).formatErrors + 1
  {
    ParseLinesSnoc(lines, raw);
  }

  /** A line that is empty once stripped changes nothing. */
  lemma BlankLine(lines: seq<string>, raw: string)
    requires Strip(raw) == []
    ensures ParseLines(lines + [raw]) == ParseLines(lines)
  {
    ParseLinesSnoc(lines, raw);
  }

  // ---------------------------------------------------------------------------
  // Reconciling two manifests (compare_hashes)
  // ---------------------------------------------------------------------------

  /** The four counters of the comparison. */
  datatype Counts = Counts(matched: nat, mismatched: nat, onlyOld: nat, onlyNew: nat)

  /** The closing message of the comparison. `Unreported` is the case where the
      chain prints nothing (some hash mismatched). */
  datatype Status = AllMatch | NewFiles | OldFiles | AddedAndRemoved | FormatErrors | Unreported

  /** What a comparison does: it stops before classifying anything, or classifies
      every path and closes with a status. */
  datatype Comparison = Aborted | Compared(counts: Counts, status: Status)

  function Matched(baseline: map<string, string>, current: map<string, string>): set<string> {
    set p | p in baseline && p in current && baseline[p] == current[p]
  }

  function Mismatched(baseline: map<string, string>, current: map<string, string>): set<string> {
    set p | p in baseline && p in current && baseline[p] != current[p]
  }

  function OnlyOld(baseline: map<string, string>, current: map<string, string>): set<string> {
    baseline.Keys - current.Keys
  }

  function OnlyNew(baseline: map<string, string>, current: map<string, string>): set<string> {
    current.Keys - baseline.Keys
  }

  /** The counts the comparison must arrive at, whatever order it visits the paths in. */
  function Tally(baseline: map<string, string>, current: map<string, string>): Counts {
    Counts(|Matched(baseline, current)|, |Mismatched(baseline, current)|, |OnlyOld(baseline, current)|, |OnlyNew(baseline, current)|)
  }

  /** Every path of either manifest is in one of the four classes, and in no other. */
  lemma PartitionCovers(baseline: map<string, string>, current: map<string, string>)
    ensures Matched(baseline, current) + Mismatched(baseline, current)
            + OnlyOld(baseline, current) + OnlyNew(baseline, current)
            == baseline.Keys + current.Keys
    ensures Matched(baseline, current) !! Mismatched(baseline, current)
    ensures Matched(baseline, current) + Mismatched(baseline, current) !! OnlyOld(baseline, current)
    ensures Matched(baseline, current) + Mismatched(baseline, current) + OnlyOld(baseline, current)
            !! OnlyNew(baseline, current)
  {
    assert Matched(baseline, current) + Mismatched(baseline, current) == baseline.Keys * current.Keys;
  }

  /** The four counters add up to the number of distinct paths of the two manifests. */
  lemma PartitionSize(baseline: map<string, string>, current: map<string, string>)
    ensures var c := Tally(baseline, current);
            c.matched + c.mismatched + c.onlyOld + c.onlyNew == |baseline.Keys + current.Keys|
  {
    var m, x := Matched(baseline, current), Mismatched(baseline, current);
    var o, n := OnlyOld(baseline, current), OnlyNew(baseline, current);
    PartitionCovers(baseline, current);
    DisjointUnionSize(m, x);
    DisjointUnionSize(m + x, o);
    DisjointUnionSize(m + x + o, n);
  }

  lemma DisjointUnionSize(a: set<string>, b: set<string>)
    requires a !! b
    ensures |a + b| == |a| + |b|
  {
    assert a * b == {};
  }

  /** Visiting `p`, still unvisited, adds it to the visited part of `s` if it is in `s`. */
  lemma VisitOne(s: set<string>, remaining: set<string>, p: string)
    requires p in remaining
    ensures |s - (remaining - {p})| == |s - remaining| + (if p in s then 1 else 0)
  {
    if p in s {
      assert s - (remaining - {p}) == (s - remaining) + {p};
    } else {
      assert s - (remaining - {p}) == s - remaining;
    }
  }

  /** The four classes, each restricted to the paths no longer in `remaining`. */
  function Visited(baseline: map<string, string>, current: map<string, string>,
                   remaining: set<string>): Counts
  {
    Counts(|Matched(baseline, current) - remaining|, |Mismatched(baseline, current) - remaining|,
           |OnlyOld(baseline, current) - remaining|, |OnlyNew(baseline, current) - remaining|)
  }

  /** Visiting one more path bumps exactly the counter of its class. */
  lemma VisitPath(baseline: map<string, string>, current: map<string, string>,
                  remaining: set<string>, p: string)
    requires p in remaining && p in baseline.Keys + current.Keys
    ensures var before, after := Visited(baseline, current, remaining),
                                 Visited(baseline, current, remaining - {p});
      if p in baseline && p in current then
        if baseline[p] == current[p] then after == before.(matched := before.matched + 1)
        else after == before.(mismatched := before.mismatched + 1)
      else if p in baseline then after == before.(onlyOld := before.onlyOld + 1)
      else after == before.(onlyNew := before.onlyNew + 1)
  {
    VisitOne(Matched(baseline, current), remaining, p);
    VisitOne(Mismatched(baseline, current), remaining, p);
    VisitOne(OnlyOld(baseline, current), remaining, p);
    VisitOne(OnlyNew(baseline, current), remaining, p);
  }

  /** Set differences at the two ends of the loop. */
  lemma NoneRemoved(s: set<string>)
    ensures s - {} == s
  {
  }

  lemma AllRemoved(s: set<string>, all: set<string>)
    requires s <= all
    ensures |s - all| == 0
  {
    assert s - all == {};
  }

  /** Before the loop nothing is visited; after it, everything is. */
  lemma VisitedBounds(baseline: map<string, string>, current: map<string, string>)
    ensures Visited(baseline, current, baseline.Keys + current.Keys) == Counts(0, 0, 0, 0)
    ensures Visited(baseline, current, {}) == Tally(baseline, current)
  {
    var all := baseline.Keys + current.Keys;
    var m, x := Matched(baseline, current), Mismatched(baseline, current);
    var o, n := OnlyOld(baseline, current), OnlyNew(baseline, current);
    NoneRemoved(m);
    NoneRemoved(x);
    NoneRemoved(o);
    NoneRemoved(n);
    PartitionCovers(baseline, current);
    AllRemoved(m, all);
    AllRemoved(x, all);
    AllRemoved(o, all);
    AllRemoved(n, all);
  }

  /** The classification loop of `compare_hashes`: visits every path of the union once,
      in an arbitrary order, and bumps exactly one counter for it. */
  method CountPaths(baseline: map<string, string>, current: map<string, string>) returns (c: Counts)
    ensures c == Tally(baseline, current)
  {
    var allFiles := baseline.Keys + current.Keys;
    var matchCount, mismatchCount, uniqueToOldCount, uniqueToNewCount := 0, 0, 0, 0;
    var remaining := allFiles;
    VisitedBounds(baseline, current);
    while remaining != {}
      invariant remaining <= allFiles
      invariant Counts(matchCount, mismatchCount, uniqueToOldCount, uniqueToNewCount)
                == Visited(baseline, current, remaining)
      decreases remaining
    {
      var filePath :| filePath in remaining;
      VisitPath(baseline, current, remaining, filePath);
      if filePath in baseline && filePath in current {
        if baseline[filePath] == current[filePath] {
          matchCount := matchCount + 1;
        } else {
          mismatchCount := mismatchCount + 1;
        }
      } else if filePath in baseline {
        uniqueToOldCount := uniqueToOldCount + 1;
      } else {
        uniqueToNewCount := uniqueToNewCount + 1;
      }
      remaining := remaining - {filePath};
    }
    c := Counts(matchCount, mismatchCount, uniqueToOldCount, uniqueToNewCount);
  }

  /** The closing `if`/`elif` chain, with the re-check of empty dictionaries in front. */
  function Summary(bothNonEmpty: bool, c: Counts): (s: Status)
    ensures s != AddedAndRemoved
    ensures s == FormatErrors <==> !bothNonEmpty
    ensures bothNonEmpty ==>
      && (s == AllMatch <==> c.mismatched == 0 && c.onlyOld == 0 && c.onlyNew == 0)
      && (s == NewFiles <==> c.mismatched == 0 && c.onlyNew != 0)
      && (s == OldFiles <==> c.mismatched == 0 && c.onlyNew == 0 && c.onlyOld != 0)
      && (s == Unreported <==> c.mismatched != 0)
  {
    if !bothNonEmpty then FormatErrors
    else if c.mismatched == 0 && c.onlyOld == 0 && c.onlyNew == 0 then AllMatch
    else if c.mismatched == 0 && c.onlyNew != 0 then NewFiles
    else if c.mismatched == 0 && c.onlyOld != 0 then OldFiles
    else if c.mismatched == 0 && c.onlyOld != 0 && c.onlyNew != 0 then AddedAndRemoved
    else Unreported
  }

  /** What `compare_hashes` does with two manifests. */
  function CompareSpec(oldFile: ManifestFile, newFile: ManifestFile): Comparison {
    var hashes1, hashes2 := ReadSpec(oldFile).hashes, ReadSpec(newFile).hashes;
    if hashes1 == map[] || hashes2 == map[] then Aborted
    else
      var c := Tally(hashes1, hashes2);
      Compared(c, Summary(hashes1 != map[] && hashes2 != map[], c))
  }

  /** `compare_hashes`: read both manifests, stop if either dictionary is empty,
      classify the union of paths, then pick the closing message. The format-error
      counts are read and never used. */
  method CompareHashes(oldFile: ManifestFile, newFile: ManifestFile) returns (result: Comparison)
    ensures result == CompareSpec(oldFile, newFile)
    ensures result.Aborted? <==> ReadSpec(oldFile).hashes == map[] || ReadSpec(newFile).hashes == map[]
    ensures result.Compared? ==> result.status != FormatErrors && result.status != AddedAndRemoved
  {
    var parsed1 := ReadHashFile(oldFile);
    var parsed2 := ReadHashFile(newFile);
    var hashes1, hashes2 := parsed1.hashes, parsed2.hashes;
    if hashes1 == map[] || hashes2 == map[] {
      return Aborted;
    }
    var c := CountPaths(hashes1, hashes2);
    result := Compared(c, Summary(hashes1 != map[] && hashes2 != map[], c));
  }

  /** With no mismatch, a comparison that finds both new and missing paths reports
      only the new ones: the "added/removed" message can never be printed. */
  lemma MixedChangesReportedAsNew(oldFile: ManifestFile, newFile: ManifestFile)
    requires ReadSpec(oldFile).hashes != map[] && ReadSpec(newFile).hashes != map[]
    requires Mismatched(ReadSpec(oldFile).hashes, ReadSpec(newFile).hashes) == {}
    requires OnlyOld(ReadSpec(oldFile).hashes, ReadSpec(newFile).hashes) != {}
    requires OnlyNew(ReadSpec(oldFile).hashes, ReadSpec(newFile).hashes) != {}
    ensures CompareSpec(oldFile, newFile).status == NewFiles
  {
    var h1, h2 := ReadSpec(oldFile).hashes, ReadSpec(newFile).hashes;
    var o :| o in OnlyOld(h1, h2);
    var n :| n in OnlyNew(h1, h2);
    assert |OnlyOld(h1, h2)| > 0 && |OnlyNew(h1, h2)| > 0;
  }

  /** A manifest compared with itself matches on every path it holds. */
  lemma CompareWithItself(f: ManifestFile)
    requires ReadSpec(f).hashes != map[]
    ensures CompareSpec(f, f) == Compared(Counts(|ReadSpec(f).hashes|, 0, 0, 0), AllMatch)
  {
    var h := ReadSpec(f).hashes;
    assert Matched(h, h) == h.Keys;
    assert Mismatched(h, h) == {};
    assert OnlyOld(h, h) == {} && OnlyNew(h, h) == {};
  }

  /** "All files match" means what it says: when both manifests are non-empty, the
      comparison reports it exactly when the two dictionaries are equal. */
  lemma AllMatchIffSameHashes(oldFile: ManifestFile, newFile: ManifestFile)
    requires ReadSpec(oldFile).hashes != map[] && ReadSpec(newFile).hashes != map[]
    ensures CompareSpec(oldFile, newFile).status == AllMatch
            <==> ReadSpec(oldFile).hashes == ReadSpec(newFile).hashes
  {
    var h1, h2 := ReadSpec(oldFile).hashes, ReadSpec(newFile).hashes;
    if CompareSpec(oldFile, newFile).status == AllMatch {
      assert |Mismatched(h1, h2)| == 0 && |OnlyOld(h1, h2)| == 0 && |OnlyNew(h1, h2)| == 0;
      assert h1.Keys == h2.Keys by {
        assert OnlyOld(h1, h2) == {} && OnlyNew(h1, h2) == {};
      }
      forall p | p in h1 ensures h1[p] == h2[p] {
        assert p !in Mismatched(h1, h2);
      }
    }
    if h1 == h2 {
      CompareWithItself(oldFile);
    }
  }
}
