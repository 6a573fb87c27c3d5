/** The scanner script: collecting one digest per readable file, writing the
    sorted `<hash>:<path>` manifest, and naming the manifest file. */
module Scanner {
  import opened PyStrings
  import opened PySorted

  // ---------------------------------------------------------------------------
  // Collecting digests (generate_hashes)
  // ---------------------------------------------------------------------------

  /** What reading one file gave: its SHA-512 hex digest, or an I/O error. */
  datatype ReadOutcome = Digest(hex: string) | ReadError

  /** One regular file found by the walk (its path as `str(file_path)`) and the
      outcome of reading it. */
  datatype ScannedFile = ScannedFile(path: string, outcome: ReadOutcome)

  /** The dictionary after the files were visited in the given order: a successful
      read stores the digest under the path, a failed one is skipped. */
  function Collect(files: seq<ScannedFile>): map<string, string>
    decreases |files|
  {
    if files == [] then map[]
    else
      var hashes := Collect(files[..|files| - 1]);
      var file := files[|files| - 1];
      match file.outcome
      case Digest(d) => hashes[file.path := d]
      case ReadError => hashes
  }

  /** The loop of `generate_hashes` over the walked files. */
  method GenerateHashes(files: seq<ScannedFile>) returns (hashes: map<string, string>)
    ensures hashes == Collect(files)
  {
    hashes := map[];
    for i := 0 to |files|
      invariant hashes == Collect(files[..i])
    {
      assert files[..i + 1][..i] == files[..i];
      var file := files[i];
      match file.outcome {
        case Digest(d) =>
          hashes := hashes[file.path := d];
        case ReadError =>
          // the warning is printed and the loop goes on with the next file
      }
    }
    assert files[..|files|] == files;
  }

  /** No path occurs twice (what a directory walk yields). */
  predicate DistinctPaths(files: seq<ScannedFile>) {
    forall i, j :: 0 <= i < j < |files| ==> files[i].path != files[j].path
  }

  /** The dictionary holds exactly the paths that were read successfully, and a path
      holds the digest of its last successful read. */
  lemma {:induction false} CollectEntries(files: seq<ScannedFile>)
    ensures forall p :: p in Collect(files) <==>
      exists i :: 0 <= i < |files| && files[i].path == p && files[i].outcome.Digest?
    ensures forall p :: p in Collect(files) ==>
      exists i :: && 0 <= i < |files| && files[i] == ScannedFile(p, Digest(Collect(files)[p]))
                  && forall j :: i < j < |files| ==> files[j].path != p || files[j].outcome.ReadError?
    decreases |files|
  {
    if files != [] {
      var n := |files| - 1;
      var init := files[..n];
      CollectEntries(init);
      assert forall i :: 0 <= i < n ==> files[i] == init[i];
      var before, after := Collect(init), Collect(files);
      forall p | p in after
        ensures exists i :: && 0 <= i < |files| && files[i] == ScannedFile(p, Digest(after[p]))
                            && forall j :: i < j < |files| ==> files[j].path != p || files[j].outcome.ReadError?
      {
        if files[n].path == p && files[n].outcome.Digest? {
          assert files[n] == ScannedFile(p, Digest(after[p]));
        } else {
          var i :| && 0 <= i < |init| && init[i] == ScannedFile(p, Digest(before[p]))
                   && forall j :: i < j < |init| ==> init[j].path != p || init[j].outcome.ReadError?;
          assert files[i] == ScannedFile(p, Digest(after[p]));
        }
      }
    }
  }

  /** When the walk yields distinct paths, every successfully read file is stored with
      its own digest. */
  lemma CollectDistinct(files: seq<ScannedFile>, i: nat)
    requires DistinctPaths(files) && i < |files| && files[i].outcome.Digest?
    ensures files[i].path in Collect(files)
    ensures Collect(files)[files[i].path] == files[i].outcome.hex
  {
    CollectEntries(files);
    var p := files[i].path;
    var k :| && 0 <= k < |files| && files[k] == ScannedFile(p, Digest(Collect(files)[p]))
             && forall j :: k < j < |files| ==> files[j].path != p || files[j].outcome.ReadError?;
    assert k == i;
  }

  /** With distinct paths, the dictionary does not depend on the order the walk
      visits the files in. */
  lemma CollectOrderIrrelevant(a: seq<ScannedFile>, b: seq<ScannedFile>)
    requires DistinctPaths(a) && DistinctPaths(b) && multiset(a) == multiset(b)
    ensures Collect(a) == Collect(b)
  {
    CollectEntries(a);
    CollectEntries(b);
    forall p | p in Collect(a)
      ensures p in Collect(b) && Collect(b)[p] == Collect(a)[p]
    {
      var i :| 0 <= i < |a| && a[i].path == p && a[i].outcome.Digest?;
      CollectDistinct(a, i);
      assert a[i] in multiset(b);
      var j :| 0 <= j < |b| && b[j] == a[i];
      CollectDistinct(b, j);
    }
    forall p | p in Collect(b)
      ensures p in Collect(a)
    {
      var j :| 0 <= j < |b| && b[j].path == p && b[j].outcome.Digest?;
      assert b[j] in multiset(a);
      var i :| 0 <= i < |a| && a[i] == b[j];
    }
  }

  // ---------------------------------------------------------------------------
  // Writing the manifest (save_hashes_to_file)
  // ---------------------------------------------------------------------------

  /** One manifest line. */
  function EntryLine(hash: string, path: string): string {
    hash + ":" + path + "\n"
  }

  /** The lines for the paths `paths` of `hashes`, in that order. */
  function EntryLines(hashes: map<string, string>, paths: seq<string>): (lines: seq<string>)
    requires forall i :: 0 <= i < |paths| ==> paths[i] in hashes
    ensures |lines| == |paths|
    ensures forall i :: 0 <= i < |paths| ==> lines[i] == EntryLine(hashes[paths[i]], paths[i])
  {
    seq(|paths|, i requires 0 <= i < |paths| => EntryLine(hashes[paths[i]], paths[i]))
  }

  /** The manifest text for `hashes`: one line per entry, by ascending path. */
  ghost function ManifestText(hashes: map<string, string>): string {
    Join(EntryLines(hashes, SortedEnumeration(hashes.Keys)))
  }

  /** Whether the output file can be opened and written. */
  datatype OutputTarget = Writable | Unwritable

  /** The file's final contents, or the failure that ends the command with exit code 1. */
  datatype SaveOutcome = Saved(text: string) | WriteFailed

  /** `save_hashes_to_file`: write the entries sorted by path, one line each. */
  method SaveHashesToFile(hashes: map<string, string>, target: OutputTarget) returns (r: SaveOutcome)
    ensures target == Unwritable ==> r == WriteFailed
    ensures target == Writable ==> r == Saved(ManifestText(hashes))
  {
    if target == Unwritable {
      return WriteFailed;
    }
    var paths := Sorted(hashes.Keys);
    SortedUnique(paths, SortedEnumeration(hashes.Keys));
    var text := "";
    for i := 0 to |paths|
      invariant text == Join(EntryLines(hashes, paths[..i]))
    {
      assert EntryLines(hashes, paths[..i + 1])[..i] == EntryLines(hashes, paths[..i]);
      text := text + EntryLine(hashes[paths[i]], paths[i]);
    }
    assert paths[..|paths|] == paths;
    r := Saved(text);
  }

  /** The manifest has one line per entry, `hash:path`, in strictly ascending path
      order; any listing of the paths in that order gives the same text, so the text
      depends only on the dictionary's contents. */
  lemma ManifestLayout(hashes: map<string, string>, paths: seq<string>)
    requires StrictlySorted(paths) && Enumerates(paths, hashes.Keys)
    ensures |paths| == |hashes|
    ensures ManifestText(hashes) == Join(EntryLines(hashes, paths))
  {
    SortedUnique(paths, SortedEnumeration(hashes.Keys));
    SortedLength(paths, hashes.Keys);
  }

  // ---------------------------------------------------------------------------
  // Naming the manifest file (generate_and_save_hashes)
  // ---------------------------------------------------------------------------

  /** A local time as `datetime.now()` gives it, to the second. */
  datatype Timestamp = Timestamp(year: nat, month: nat, day: nat, hour: nat, minute: nat, second: nat)

  /** A time whose `%Y` has four digits. */
  predicate ValidTimestamp(t: Timestamp) {
    && 1000 <= t.year <= 9999 && 1 <= t.month <= 12 && 1 <= t.day <= 31
    && t.hour < 24 && t.minute < 60 && t.second < 60
  }

  function DigitChar(d: nat): (c: char)
    requires d < 10
    ensures '0' <= c <= '9'
  {
    ('0' as int + d) as char
  }

  /** The value of a decimal digit (0 for any other character). */
  function DigitValue(c: char): (d: nat)
    ensures d < 10
  {
    if '0' <= c <= '9' then c as int - '0' as int else 0
  }

  /** A zero-padded two-digit field. */
  function Two(n: nat): (s: string)
    requires n < 100
  {
    [DigitChar(n / 10), DigitChar(n % 10)]
  }

  /** A zero-padded four-digit field. */
  function Four(n: nat): (s: string)
    requires n < 10000
  {
    Two(n / 100) + Two(n % 100)
  }

  /** `strftime("%Y%m%d_%H%M%S")`. */
  function FormatTimestamp(t: Timestamp): (s: string)
    requires ValidTimestamp(t)
    ensures |s| == 15 && s[8] == '_'
    ensures forall i :: 0 <= i < 15 && i != 8 ==> '0' <= s[i] <= '9'
  {
    Four(t.year) + Two(t.month) + Two(t.day) + "_" + Two(t.hour) + Two(t.minute) + Two(t.second)
  }

  /** Reads back the six fields of a `%Y%m%d_%H%M%S` stamp. */
  function ParseTimestamp(s: string): Timestamp
    requires |s| == 15
  {
    var d := (i: int) requires 0 <= i < 15 => DigitValue(s[i]);
    Timestamp(
      1000 * d(0) + 100 * d(1) + 10 * d(2) + d(3),
      10 * d(4) + d(5), 10 * d(6) + d(7),
      10 * d(9) + d(10), 10 * d(11) + d(12), 10 * d(13) + d(14))
  }

  lemma TwoRoundTrip(n: nat)
    requires n < 100
    ensures 10 * DigitValue(Two(n)[0]) + DigitValue(Two(n)[1]) == n
  {
  }

  lemma FourRoundTrip(n: nat)
    requires n < 10000
    ensures var s := Four(n);
            1000 * DigitValue(s[0]) + 100 * DigitValue(s[1]) + 10 * DigitValue(s[2]) + DigitValue(s[3]) == n
  {
    var hi, lo := n / 100, n % 100;
    TwoRoundTrip(hi);
    TwoRoundTrip(lo);
    assert Four(n) == Two(hi) + Two(lo);
    assert n == 100 * hi + lo;
  }

  /** The stamp determines the time it was made from. */
  lemma TimestampRoundTrip(t: Timestamp)
    requires ValidTimestamp(t)
    ensures ParseTimestamp(FormatTimestamp(t)) == t
  {
    var s := FormatTimestamp(t);
    var y, mo, d, h, mi, se := Four(t.year), Two(t.month), Two(t.day), Two(t.hour), Two(t.minute), Two(t.second);
    assert s[..4] == y && s[4..6] == mo && s[6..8] == d;
    assert s[9..11] == h && s[11..13] == mi && s[13..] == se;
    FourRoundTrip(t.year);
    TwoRoundTrip(t.month);
    TwoRoundTrip(t.day);
    TwoRoundTrip(t.hour);
    TwoRoundTrip(t.minute);
    TwoRoundTrip(t.second);
  }

  /** The name the manifest is written under: the given base, `_`, the stamp, `.txt`. */
  function OutputFileName(base: string, stamp: string): (name: string)
    ensures |name| == |base| + |stamp| + 5
    ensures name[..|base| + 1] == base + "_"
    ensures name[|base| + 1..|base| + 1 + |stamp|] == stamp
    ensures name[|base| + 1 + |stamp|..] == ".txt"
  {
    base + "_" + stamp + ".txt"
  }

  /** Runs started at different local times (to the second) write to different files. */
  lemma OutputNamesDistinct(base: string, t1: Timestamp, t2: Timestamp)
    requires ValidTimestamp(t1) && ValidTimestamp(t2) && t1 != t2
    ensures OutputFileName(base, FormatTimestamp(t1)) != OutputFileName(base, FormatTimestamp(t2))
  {
    var s1, s2 := FormatTimestamp(t1), FormatTimestamp(t2);
    TimestampRoundTrip(t1);
    TimestampRoundTrip(t2);
    var n1, n2 := OutputFileName(base, s1), OutputFileName(base, s2);
    assert s1 == n1[|base| + 1..|base| + 16] && s2 == n2[|base| + 1..|base| + 16];
  }
}
