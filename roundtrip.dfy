/** How the two scripts meet: the manifest the scanner writes is read back by the
    comparator as the same dictionary, with no format errors. */
module RoundTrip {
  import opened PyStrings
  import opened PySorted
  import opened Validator
  import opened Scanner

  /** A hash the reader gives back unchanged: non-empty, no leading whitespace, no `:`
      and no line break. */
  predicate HashSurvives(h: string) {
    && h != [] && !IsSpace(h[0]) && ':' !in h
    && forall i :: 0 <= i < |h| ==> !IsLineBreak(h[i])
  }

  /** A path the reader gives back unchanged: non-empty, no trailing whitespace and no
      line break (later `:` are fine). */
  predicate PathSurvives(p: string) {
    && p != [] && !IsSpace(p[|p| - 1])
    && forall i :: 0 <= i < |p| ==> !IsLineBreak(p[i])
  }

  predicate AllSurvive(hashes: map<string, string>) {
    forall p :: p in hashes ==> HashSurvives(hashes[p]) && PathSurvives(p)
  }

  /** A lowercase SHA-512 hex digest, as `hexdigest()` returns it. */
  predicate IsHexDigest(d: string) {
    |d| == 128 && forall i :: 0 <= i < |d| ==> '0' <= d[i] <= '9' || 'a' <= d[i] <= 'f'
  }

  lemma HexDigestSurvives(d: string)
    requires IsHexDigest(d)
    ensures HashSurvives(d)
  {
    SpaceClasses(d[0]);
    assert forall i :: 0 <= i < |d| ==> d[i] != ':';
  }

  /** A written line is read as the entry it was written from. */
  lemma EntryLineRead(h: string, p: string)
    requires HashSurvives(h) && PathSurvives(p)
    ensures ClassifyLine(EntryLine(h, p)) == Entry(h, p)
  {
    var x := h + ":" + p;
    assert EntryLine(h, p) == x + "\n";
    assert x[0] == h[0] && x[|x| - 1] == p[|p| - 1];
    SpaceClasses('\n');
    StripTrailing(x, "\n");
    ClassifyEntry(EntryLine(h, p), h, p);
  }

  /** Written lines hold no line break but their final newline. */
  lemma EntryLineBreaks(h: string, p: string)
    requires HashSurvives(h) && PathSurvives(p)
    ensures Last(EntryLine(h, p)) == '\n' && NoInnerBreak(EntryLine(h, p))
  {
    var line := EntryLine(h, p);
    forall j | 0 <= j < |line| - 1 ensures !IsLineBreak(line[j]) {
      if j < |h| {
        assert line[j] == h[j];
      } else if j > |h| {
        assert line[j] == p[j - |h| - 1];
      }
    }
  }

  /** The entries of `hashes` for the given paths. */
  function EntriesFor(hashes: map<string, string>, paths: seq<string>): (m: map<string, string>)
    requires forall i :: 0 <= i < |paths| ==> paths[i] in hashes
    ensures forall p :: p in m <==> p in paths
    ensures forall p :: p in m ==> m[p] == hashes[p]
  {
    map p | p in paths :: hashes[p]
  }

  lemma EntriesSnoc(hashes: map<string, string>, paths: seq<string>)
    requires forall i :: 0 <= i < |paths| ==> paths[i] in hashes
    requires paths != []
    ensures var last := paths[|paths| - 1];
            EntriesFor(hashes, paths) == EntriesFor(hashes, paths[..|paths| - 1])[last := hashes[last]]
  {
    assert paths == paths[..|paths| - 1] + [paths[|paths| - 1]];
  }

  lemma EntryLinesSnoc(hashes: map<string, string>, paths: seq<string>)
    requires forall i :: 0 <= i < |paths| ==> paths[i] in hashes
    requires paths != []
    ensures var last := paths[|paths| - 1];
            EntryLines(hashes, paths) == EntryLines(hashes, paths[..|paths| - 1]) + [EntryLine(hashes[last], last)]
  {
  }

  /** A path ending in whitespace is read back without it: the entry for `a ` is
      recorded under `a`, and collides with the entry of a file really named `a`. */
  lemma TrailingSpaceAliases()
    ensures ClassifyLine(EntryLine("h", "a ")) == Entry("h", "a")
  {
    var raw := EntryLine("h", "a ");
    assert raw == "h:a" + " \n";
    SpaceClasses('\n');
    StripTrailing("h:a", " \n");
    ClassifyEntry(raw, "h", "a");
  }

  /** `h:a` with its newline holds no other line break when `h` and `a` hold none. */
  lemma BreakFreeLine(h: string, a: string)
    requires forall i :: 0 <= i < |h| ==> !IsLineBreak(h[i])
    requires forall i :: 0 <= i < |a| ==> !IsLineBreak(a[i])
    ensures NoInnerBreak(h + ":" + a + "\n") && Last(h + ":" + a + "\n") == '\n'
  {
    var line := h + ":" + a + "\n";
    forall j | 0 <= j < |line| - 1 ensures !IsLineBreak(line[j]) {
      if j < |h| {
        assert line[j] == h[j];
      } else if j > |h| {
        assert line[j] == a[j - |h| - 1];
      }
    }
  }

  /** A path holding a line break splits its entry in two: the manifest line for
      `a\nb` is read as the line `h:a` followed by the line `b`. */
  lemma LineBreakSplitsEntry(h: string, a: string, b: string)
    requires forall i :: 0 <= i < |h| ==> !IsLineBreak(h[i])
    requires forall i :: 0 <= i < |a| ==> !IsLineBreak(a[i])
    requires forall i :: 0 <= i < |b| ==> !IsLineBreak(b[i])
    ensures ReadLines(EntryLine(h, a + "\n" + b)) == [h + ":" + a + "\n", b + "\n"]
  {
    var first, second := h + ":" + a + "\n", b + "\n";
    assert EntryLine(h, a + "\n" + b) == first + second;
    assert ReadLines(second) == [second] by {
      assert NoInnerBreak(second) by {
        assert forall j :: 0 <= j < |second| - 1 ==> second[j] == b[j];
      }
      assert second + [] == second;
      ReadLinesHead(second, []);
    }
    assert ReadLines(first + second) == [first] + ReadLines(second) by {
      BreakFreeLine(h, a);
      ReadLinesHead(first, second);
    }
  }

  /** The name `a\n<h2>:z`: a path `a`, a line break, then what reads as an entry. */
  function Smuggling(a: string, h2: string, z: string): string {
    a + "\n" + h2 + ":" + z
  }

  /** The line written for the name `Smuggling(a, h2, z)` is the line for `a` followed
      by the line for `z`. */
  lemma SmugglingLine(h: string, a: string, h2: string, z: string)
    ensures EntryLine(h, Smuggling(a, h2, z)) == EntryLine(h, a) + EntryLine(h2, z)
  {
    calc {
      EntryLine(h, Smuggling(a, h2, z));
      h + ":" + (a + "\n" + h2 + ":" + z) + "\n";
      (h + ":" + a + "\n") + (h2 + ":" + z + "\n");
    }
  }

  /** Writing three lines, and four, one after the other. */
  lemma JoinThree(x: string, y: string, w: string)
    ensures Join([x, y, w]) == x + y + w
  {
    assert Join([x]) == x by { assert [x][..0] == []; }
    assert Join([x, y]) == x + y by { assert [x, y][..1] == [x]; }
    assert [x, y, w][..2] == [x, y];
  }

  lemma JoinFour(x: string, y: string, v: string, w: string)
    ensures Join([x, y, v, w]) == x + y + v + w
  {
    var all := [x, y, v, w];
    assert all[..|all| - 1] == [x, y, v] && all[|all| - 1] == w;
    JoinThree(x, y, v);
  }

  /** `a` sorts before `Smuggling(a, h2, z)`, so the three names sort in that order. */
  lemma ShadowingSorted(a: string, z: string, h2: string)
    requires Less(Smuggling(a, h2, z), z)
    ensures StrictlySorted([a, Smuggling(a, h2, z), z])
    ensures a != Smuggling(a, h2, z) && Smuggling(a, h2, z) != z && a != z
  {
    var mid := Smuggling(a, h2, z);
    PrefixSortsFirst(a, "\n" + h2 + ":" + z);
    assert a + ("\n" + h2 + ":" + z) == mid;
    LessTransitive(a, mid, z);
    LessIrreflexive(a);
    LessIrreflexive(mid);
  }

  /** The manifest for `a`, `Smuggling(a, h2, z)` and `z` lists them in that order. */
  lemma ShadowingOrder(a: string, z: string, h1: string, h: string, h2: string, h3: string)
    requires Less(Smuggling(a, h2, z), z)
    ensures var mid := Smuggling(a, h2, z);
            ManifestText(map[a := h1, mid := h, z := h3])
            == Join([EntryLine(h1, a), EntryLine(h, mid), EntryLine(h3, z)])
  {
    var mid := Smuggling(a, h2, z);
    var m := map[a := h1, mid := h, z := h3];
    var paths := [a, mid, z];
    ShadowingSorted(a, z, h2);
    assert m[a] == h1 && m[mid] == h && m[z] == h3;
    ManifestLayout(m, paths);
    assert EntryLines(m, paths) == [EntryLine(h1, a), EntryLine(h, mid), EntryLine(h3, z)];
  }

  /** The manifest for `a`, `Smuggling(a, h2, z)` and `z`: the middle name's line is the
      line for `a` with hash `h` followed by the line for `z` with hash `h2`. */
  lemma ShadowingManifest(a: string, z: string, h1: string, h: string, h2: string, h3: string)
    requires Less(Smuggling(a, h2, z), z)
    ensures var mid := Smuggling(a, h2, z);
            ManifestText(map[a := h1, mid := h, z := h3])
            == Join([EntryLine(h1, a), EntryLine(h, a), EntryLine(h2, z), EntryLine(h3, z)])
  {
    var mid := Smuggling(a, h2, z);
    ShadowingOrder(a, z, h1, h, h2, h3);
    JoinThree(EntryLine(h1, a), EntryLine(h, mid), EntryLine(h3, z));
    SmugglingLine(h, a, h2, z);
    JoinFour(EntryLine(h1, a), EntryLine(h, a), EntryLine(h2, z), EntryLine(h3, z));
  }

  /** Two more written lines that survive the format apply their entries' steps. */
  lemma ParseTwoEntries(lines: seq<string>, h: string, p: string, h': string, p': string)
    requires HashSurvives(h) && PathSurvives(p) && HashSurvives(h') && PathSurvives(p')
    ensures ParseLines(lines + [EntryLine(h, p), EntryLine(h', p')])
            == Step(Step(ParseLines(lines), Entry(h, p)), Entry(h', p'))
  {
    var first := lines + [EntryLine(h, p)];
    assert lines + [EntryLine(h, p), EntryLine(h', p')] == first + [EntryLine(h', p')];
    EntryLineRead(h, p);
    ParseLinesSnoc(lines, EntryLine(h, p));
    EntryLineRead(h', p');
    ParseLinesSnoc(first, EntryLine(h', p'));
  }

  /** The four lines the reader sees, parsed: the first line for each path wins. */
  lemma ShadowingParse(a: string, z: string, h1: string, h: string, h2: string, h3: string)
    requires PathSurvives(a) && PathSurvives(z) && a != z
    requires HashSurvives(h1) && HashSurvives(h) && HashSurvives(h2) && HashSurvives(h3)
    ensures ParseLines([EntryLine(h1, a), EntryLine(h, a), EntryLine(h2, z), EntryLine(h3, z)])
            == Parsed(map[a := h1, z := h2], 0)
  {
    var front := [EntryLine(h1, a), EntryLine(h, a)];
    assert front + [EntryLine(h2, z), EntryLine(h3, z)]
           == [EntryLine(h1, a), EntryLine(h, a), EntryLine(h2, z), EntryLine(h3, z)];
    assert [] + front == front;
    assert ParseLines([]) == Parsed(map[], 0) by { assert Kinds([]) == []; }
    ParseTwoEntries([], h1, a, h, a);
    ParseTwoEntries(front, h2, z, h3, z);
  }

  /** A path holding a line break and then a `:` smuggles in an entry for another path.
      The manifest for `a`, `a\n<h2>:z` and `z` lists them in that order when the middle
      name sorts before `z` (a prefix always sorts first). The real `a` keeps its hash,
      because its own line comes first; `z` is read with the hash `h2` taken from the
      middle name, and its real entry is shadowed. */
  lemma LineBreakShadows(a: string, z: string, h1: string, h: string, h2: string, h3: string)
    requires PathSurvives(a) && PathSurvives(z) && a != z
    requires HashSurvives(h1) && HashSurvives(h) && HashSurvives(h2) && HashSurvives(h3)
    requires Less(Smuggling(a, h2, z), z)
    ensures Less(a, Smuggling(a, h2, z))
    ensures var m := map[a := h1, Smuggling(a, h2, z) := h, z := h3];
            ReadSpec(Readable(ManifestText(m))) == Parsed(map[a := h1, z := h2], 0)
  {
    PrefixSortsFirst(a, "\n" + h2 + ":" + z);
    assert a + ("\n" + h2 + ":" + z) == Smuggling(a, h2, z);
    ShadowingManifest(a, z, h1, h, h2, h3);
    var lines := [EntryLine(h1, a), EntryLine(h, a), EntryLine(h2, z), EntryLine(h3, z)];
    EntryLineBreaks(h1, a);
    EntryLineBreaks(h, a);
    EntryLineBreaks(h2, z);
    EntryLineBreaks(h3, z);
    assert NewlineTerminated(lines);
    ReadLinesOfJoin(lines);
    ShadowingParse(a, z, h1, h, h2, h3);
  }

  /** An instance: with `a`, `a\nh2:z` and `z` on disk, `z` is read with hash `h2`. */
  lemma LineBreakShadowsExample()
    ensures var m := map["a" := "h1", "a\nh2:z" := "h", "z" := "h3"];
            ReadSpec(Readable(ManifestText(m))) == Parsed(map["a" := "h1", "z" := "h2"], 0)
  {
    assert Smuggling("a", "h2", "z") == "a\nh2:z";
    assert Less("a\nh2:z", "z");
    LineBreakShadows("a", "z", "h1", "h", "h2", "h3");
  }

  /** Parsing the lines written for distinct paths gives those entries and no error. */
  lemma {:induction false} ParseEntryLines(hashes: map<string, string>, paths: seq<string>)
    requires AllSurvive(hashes)
    requires forall i :: 0 <= i < |paths| ==> paths[i] in hashes
    requires forall i, j :: 0 <= i < j < |paths| ==> paths[i] != paths[j]
    ensures ParseLines(EntryLines(hashes, paths)) == Parsed(EntriesFor(hashes, paths), 0)
    decreases |paths|
  {
    if paths != [] {
      var n := |paths| - 1;
      var init, last := paths[..n], paths[n];
      ParseEntryLines(hashes, init);
      var before := EntryLines(hashes, init);
      var line := EntryLine(hashes[last], last);
      EntryLinesSnoc(hashes, paths);
      ParseLinesSnoc(before, line);
      EntryLineRead(hashes[last], last);
      assert last !in EntriesFor(hashes, init);
      EntriesSnoc(hashes, paths);
    } else {
      assert EntryLines(hashes, paths) == [];
      assert EntriesFor(hashes, paths) == map[];
    }
  }

  /** The lines written for paths of `hashes` are newline-terminated and hold no other break. */
  lemma EntryLinesWellFormed(hashes: map<string, string>, paths: seq<string>)
    requires AllSurvive(hashes)
    requires forall i :: 0 <= i < |paths| ==> paths[i] in hashes
    ensures NewlineTerminated(EntryLines(hashes, paths))
  {
    var lines := EntryLines(hashes, paths);
    forall k | 0 <= k < |lines|
      ensures lines[k] != [] && Last(lines[k]) == '\n' && NoInnerBreak(lines[k])
    {
      EntryLineBreaks(hashes[paths[k]], paths[k]);
    }
  }

  /** A strictly sorted sequence repeats no element. */
  lemma SortedDistinct(paths: seq<string>)
    requires StrictlySorted(paths)
    ensures forall i, j :: 0 <= i < j < |paths| ==> paths[i] != paths[j]
  {
    forall i, j | 0 <= i < j < |paths| ensures paths[i] != paths[j] {
      LessIrreflexive(paths[i]);
    }
  }

  /** The entries of an enumeration of a map's keys make up the whole map. */
  lemma EnumeratedMap(hashes: map<string, string>, paths: seq<string>)
    requires Enumerates(paths, hashes.Keys)
    ensures EntriesFor(hashes, paths) == hashes
  {
  }

  /** Parsing the manifest's lines gives `hashes` back. */
  lemma ParseManifestLines(hashes: map<string, string>, paths: seq<string>)
    requires AllSurvive(hashes)
    requires StrictlySorted(paths) && Enumerates(paths, hashes.Keys)
    ensures ParseLines(EntryLines(hashes, paths)) == Parsed(hashes, 0)
  {
    SortedDistinct(paths);
    ParseEntryLines(hashes, paths);
    EnumeratedMap(hashes, paths);
  }

  /** Reading back the manifest written for `hashes` gives `hashes` and no format error. */
  lemma ManifestRoundTrip(hashes: map<string, string>)
    requires AllSurvive(hashes)
    ensures ReadSpec(Readable(ManifestText(hashes))) == Parsed(hashes, 0)
  {
    var paths := SortedEnumeration(hashes.Keys);
    var lines := EntryLines(hashes, paths);
    EntryLinesWellFormed(hashes, paths);
    ReadLinesOfJoin(lines);
    ParseManifestLines(hashes, paths);
  }

  /** The same holds when the platform writes each line's `\n` as `\r\n`: the reader's
      universal newlines give back the same lines. */
  lemma ManifestRoundTripCrLf(hashes: map<string, string>)
    requires AllSurvive(hashes)
    ensures var lines := EntryLines(hashes, SortedEnumeration(hashes.Keys));
            ReadSpec(Readable(Join(CrLfLines(lines)))) == Parsed(hashes, 0)
  {
    var paths := SortedEnumeration(hashes.Keys);
    var lines := EntryLines(hashes, paths);
    EntryLinesWellFormed(hashes, paths);
    ReadLinesOfJoinCrLf(lines);
    ParseManifestLines(hashes, paths);
  }

  /** Every file the scan read has a hex digest and a path that survives the format. */
  predicate ScanSurvives(files: seq<ScannedFile>) {
    forall i :: 0 <= i < |files| && files[i].outcome.Digest? ==>
      IsHexDigest(files[i].outcome.hex) && PathSurvives(files[i].path)
  }

  lemma ScanSurvivesCollect(files: seq<ScannedFile>)
    requires ScanSurvives(files)
    ensures AllSurvive(Collect(files))
  {
    CollectEntries(files);
    forall p | p in Collect(files)
      ensures HashSurvives(Collect(files)[p]) && PathSurvives(p)
    {
      var i :| && 0 <= i < |files| && files[i] == ScannedFile(p, Digest(Collect(files)[p]))
               && forall j :: i < j < |files| ==> files[j].path != p || files[j].outcome.ReadError?;
      HexDigestSurvives(files[i].outcome.hex);
    }
  }

  /** Scanning an unchanged tree twice, whatever order the walk visits it in, writes the
      same manifest text. */
  lemma RescanSameManifest(first: seq<ScannedFile>, second: seq<ScannedFile>)
    requires DistinctPaths(first) && DistinctPaths(second) && multiset(first) == multiset(second)
    ensures ManifestText(Collect(first)) == ManifestText(Collect(second))
  {
    CollectOrderIrrelevant(first, second);
  }

  /** Comparing the manifest of a non-empty scan with itself finds every path matching,
      when every digest is hex and every path survives the format. */
  lemma RescanUnchangedTree(files: seq<ScannedFile>)
    requires ScanSurvives(files)
    requires Collect(files) != map[]
    ensures var text := ManifestText(Collect(files));
            CompareSpec(Readable(text), Readable(text)) == Compared(Counts(|Collect(files)|, 0, 0, 0), AllMatch)
  {
    ScanSurvivesCollect(files);
    ManifestRoundTrip(Collect(files));
    CompareWithItself(Readable(ManifestText(Collect(files))));
  }
}
