/** The Python `str` built-ins and text-mode file reading that the two scripts
    rely on, stated over `string` (a sequence of Unicode scalar values). */
module PyStrings {

  /** `c.isspace()`: the characters `str.strip()` removes when given no argument. */
  predicate IsSpace(c: char) {
    || ('\t' <= c <= '\r')
    || ('\U{1C}' <= c <= ' ')
    || c == '\U{85}' || c == '\U{A0}' || c == '\U{1680}'
    || ('\U{2000}' <= c <= '\U{200A}')
    || c == '\U{2028}' || c == '\U{2029}' || c == '\U{202F}' || c == '\U{205F}' || c == '\U{3000}'
  }

  /** The characters that end a line when a file is read in text mode (universal newlines). */
  predicate IsLineBreak(c: char) {
    c == '\n' || c == '\r'
  }

  /** The last character of a line (a space for the empty line, which `ReadLines` never
      delivers). */
  function Last(line: string): char {
    if line == [] then ' ' else line[|line| - 1]
  }

  /** Number of whitespace characters at the front of `s`. */
  function LeadingSpace(s: string): (n: nat)
    ensures n <= |s|
    ensures forall i :: 0 <= i < n ==> IsSpace(s[i])
    ensures n < |s| ==> !IsSpace(s[n])
  {
    if s != [] && IsSpace(s[0]) then 1 + LeadingSpace(s[1..]) else 0
  }

  /** Number of whitespace characters at the end of `s`. */
  function TrailingSpace(s: string): (n: nat)
    ensures n <= |s|
    ensures forall i :: |s| - n <= i < |s| ==> IsSpace(s[i])
    ensures n < |s| ==> !IsSpace(s[|s| - 1 - n])
  {
    if s != [] && IsSpace(s[|s| - 1]) then 1 + TrailingSpace(s[..|s| - 1]) else 0
  }

  /** `s.strip()`: the longest slice of `s` that neither starts nor ends with
      whitespace, once only whitespace has been cut from both ends. */
  function Strip(s: string): (r: string)
    ensures LeadingSpace(s) + |r| <= |s|
    ensures r == s[LeadingSpace(s)..LeadingSpace(s) + |r|]
    ensures forall i :: LeadingSpace(s) + |r| <= i < |s| ==> IsSpace(s[i])
    ensures r == [] <==> forall i :: 0 <= i < |s| ==> IsSpace(s[i])
    ensures r != [] ==> !IsSpace(r[0]) && !IsSpace(r[|r| - 1])
  {
    var a := LeadingSpace(s);
    var rest := s[a..];
    var b := TrailingSpace(rest);
    rest[..|rest| - b]
  }

  /** Stripping a text that starts with a non-space character and is followed only by
      whitespace gives back exactly that text. */
  lemma StripTrailing(x: string, tail: string)
    requires x != [] && !IsSpace(x[0]) && !IsSpace(x[|x| - 1])
    requires forall i :: 0 <= i < |tail| ==> IsSpace(tail[i])
    ensures Strip(x + tail) == x
  {
    var s := x + tail;
    var r := Strip(s);
    assert LeadingSpace(s) == 0 by { assert s[0] == x[0]; }
    assert !IsSpace(s[|x| - 1]);
    assert forall i :: |x| <= i < |s| ==> IsSpace(s[i]) by {
      forall i | |x| <= i < |s| ensures IsSpace(s[i]) { assert s[i] == tail[i - |x|]; }
    }
    assert |r| == |x|;
    assert r == s[..|x|] == x;
  }

  /** Index of the first `c` in `s`, or `|s|` when there is none (`s.find(c)`). */
  function FirstIndex(s: string, c: char): (i: nat)
    ensures i <= |s|
    ensures i < |s| ==> s[i] == c
    ensures forall j :: 0 <= j < i ==> s[j] != c
  {
    if s == [] || s[0] == c then 0 else 1 + FirstIndex(s[1..], c)
  }

  /** `s.split(sep, 1)`: one part when `sep` does not occur, otherwise the text before the
      first `sep` and everything after it (later separators included). */
  function SplitOnce(s: string, sep: char): (parts: seq<string>)
    ensures |parts| == 1 || |parts| == 2
    ensures |parts| == 2 <==> sep in s
    ensures |parts| == 1 ==> parts[0] == s
    ensures |parts| == 2 ==> s == parts[0] + [sep] + parts[1] && sep !in parts[0]
  {
    var i := FirstIndex(s, sep);
    if i == |s| then [s] else [s[..i], s[i + 1..]]
  }

  /** The split is determined by the first separator: any decomposition whose head holds
      no separator is the one `SplitOnce` returns. */
  lemma SplitOnceAt(h: string, sep: char, p: string)
    requires sep !in h
    ensures SplitOnce(h + [sep] + p, sep) == [h, p]
  {
    var s := h + [sep] + p;
    var i := FirstIndex(s, sep);
    assert s[|h|] == sep;
    assert forall j :: 0 <= j < |h| ==> s[j] == h[j];
    assert i == |h|;
    assert s[..i] == h;
    assert s[i + 1..] == p;
  }

  /** Index of the first line break in `s`, or `|s|` when there is none. */
  function BreakIndex(s: string): (i: nat)
    ensures i <= |s|
    ensures i < |s| ==> IsLineBreak(s[i])
    ensures forall j :: 0 <= j < i ==> !IsLineBreak(s[j])
  {
    if s == [] || IsLineBreak(s[0]) then 0 else 1 + BreakIndex(s[1..])
  }

  /** The lines `for line in f` yields for a file opened in text mode with universal
      newlines: `\n`, `\r\n` and a lone `\r` each end a line and are delivered as `\n`;
      a last line without a terminator is delivered as it is. */
  function ReadLines(text: string): (lines: seq<string>)
    ensures forall i :: 0 <= i < |lines| ==> lines[i] != []
    ensures text == [] <==> lines == []
    decreases |text|
  {
    if text == [] then []
    else
      var i := BreakIndex(text);
      if i == |text| then [text]
      else
        var next := if text[i] == '\r' && i + 1 < |text| && text[i + 1] == '\n' then i + 2 else i + 1;
        [text[..i] + "\n"] + ReadLines(text[next..])
  }

  /** No line break occurs in `line` before its last character. */
  predicate NoInnerBreak(line: string) {
    forall j :: 0 <= j < |line| - 1 ==> !IsLineBreak(line[j])
  }

  /** A `\n`-terminated line with no inner break, put in front of lines of the shape
      `ReadLines` delivers, keeps that shape. */
  lemma ShapeCons(first: string, rest: seq<string>)
    requires NoInnerBreak(first) && Last(first) == '\n'
    requires forall i :: 0 <= i < |rest| ==> NoInnerBreak(rest[i]) && Last(rest[i]) != '\r'
    requires forall i :: 0 <= i < |rest| - 1 ==> Last(rest[i]) == '\n'
    ensures forall i :: 0 <= i < |[first] + rest| ==> NoInnerBreak(([first] + rest)[i])
    ensures forall i :: 0 <= i < |[first] + rest| ==> Last(([first] + rest)[i]) != '\r'
    ensures forall i :: 0 <= i < |[first] + rest| - 1 ==> Last(([first] + rest)[i]) == '\n'
  {
    var lines := [first] + rest;
    assert forall k :: 0 < k < |lines| ==> lines[k] == rest[k - 1];
  }

  /** Every line `ReadLines` delivers holds no line break but a final `\n` (never a
      `\r`), and every line but the last has that `\n`. */
  lemma {:induction false} ReadLinesShape(text: string)
    ensures forall i :: 0 <= i < |ReadLines(text)| ==> NoInnerBreak(ReadLines(text)[i])
    ensures forall i :: 0 <= i < |ReadLines(text)| ==> Last(ReadLines(text)[i]) != '\r'
    ensures forall i :: 0 <= i < |ReadLines(text)| - 1 ==> Last(ReadLines(text)[i]) == '\n'
    decreases |text|
  {
    if text != [] {
      var i := BreakIndex(text);
      if i < |text| {
        var next := if text[i] == '\r' && i + 1 < |text| && text[i + 1] == '\n' then i + 2 else i + 1;
        var first := text[..i] + "\n";
        assert ReadLines(text) == [first] + ReadLines(text[next..]);
        assert NoInnerBreak(first) by {
          assert forall j :: 0 <= j < |first| - 1 ==> first[j] == text[j];
        }
        ReadLinesShape(text[next..]);
        ShapeCons(first, ReadLines(text[next..]));
      } else {
        assert ReadLines(text) == [text];
        assert !IsLineBreak(text[|text| - 1]);
      }
    }
  }

  /** The last line ends with `\n` exactly when the text ends with a line break. */
  lemma {:induction false} ReadLinesLast(text: string)
    requires text != []
    ensures Last(ReadLines(text)[|ReadLines(text)| - 1]) == '\n' <==> IsLineBreak(text[|text| - 1])
    decreases |text|
  {
    var i := BreakIndex(text);
    if i < |text| {
      var next := if text[i] == '\r' && i + 1 < |text| && text[i + 1] == '\n' then i + 2 else i + 1;
      if next < |text| {
        ReadLinesLast(text[next..]);
        assert text[next..][|text[next..]| - 1] == text[|text| - 1];
      } else {
        assert ReadLines(text[next..]) == [];
      }
    }
  }

  /** The text obtained by writing `lines` one after the other. */
  function Join(lines: seq<string>): string {
    if lines == [] then "" else Join(lines[..|lines| - 1]) + lines[|lines| - 1]
  }

  lemma {:induction false} JoinCons(line: string, rest: seq<string>)
    ensures Join([line] + rest) == line + Join(rest)
    decreases |rest|
  {
    if rest != [] {
      var all := [line] + rest;
      assert all[..|all| - 1] == [line] + rest[..|rest| - 1];
      JoinCons(line, rest[..|rest| - 1]);
    } else {
      assert ([line] + rest)[..0] == [];
    }
  }

  /** Every line ends with `\n` and holds no other line break: how `for line in f`
      delivers the lines of a file, and how the scanner writes them. */
  predicate NewlineTerminated(lines: seq<string>) {
    forall k :: 0 <= k < |lines| ==> lines[k] != [] && Last(lines[k]) == '\n' && NoInnerBreak(lines[k])
  }

  lemma NewlineTerminatedTail(lines: seq<string>)
    requires NewlineTerminated(lines) && lines != []
    ensures NewlineTerminated(lines[1..])
  {
    assert forall k :: 0 <= k < |lines| - 1 ==> lines[1..][k] == lines[k + 1];
  }

  /** A newline-terminated line at the front of a text is read as that line. */
  lemma ReadLinesHead(line: string, after: string)
    requires line != [] && Last(line) == '\n' && NoInnerBreak(line)
    ensures ReadLines(line + after) == [line] + ReadLines(after)
  {
    var text := line + after;
    var n := |line| - 1;
    assert forall j :: 0 <= j < n ==> text[j] == line[j];
    assert text[n] == '\n';
    assert BreakIndex(text) == n;
    assert text[..n] + "\n" == line;
    assert text[n + 1..] == after;
  }

  /** Reading back text written as newline-terminated lines that hold no other line
      break gives exactly those lines. */
  lemma {:induction false} ReadLinesOfJoin(lines: seq<string>)
    requires NewlineTerminated(lines)
    ensures ReadLines(Join(lines)) == lines
    decreases |lines|
  {
    if lines != [] {
      var first, rest := lines[0], lines[1..];
      calc {
        ReadLines(Join(lines));
        { assert lines == [first] + rest; JoinCons(first, rest); }
        ReadLines(first + Join(rest));
        { ReadLinesHead(first, Join(rest)); }
        [first] + ReadLines(Join(rest));
        { NewlineTerminatedTail(lines); ReadLinesOfJoin(rest); }
        [first] + rest;
        lines;
      }
    }
  }

  /** `line` with its closing `\n` written as `\r\n`, as text mode writes it where the
      platform's line separator is CR LF. */
  function WithCrLf(line: string): string {
    if line == [] then "\r\n" else line[..|line| - 1] + "\r\n"
  }

  function CrLfLines(lines: seq<string>): (r: seq<string>)
    ensures |r| == |lines|
    ensures forall k :: 0 <= k < |lines| ==> r[k] == WithCrLf(lines[k])
  {
    seq(|lines|, k requires 0 <= k < |lines| => WithCrLf(lines[k]))
  }

  /** A CR LF-terminated line at the front of a text is read as that line with `\n`. */
  lemma ReadLinesCrLfHead(line: string, after: string)
    requires line != [] && Last(line) == '\n' && NoInnerBreak(line)
    ensures ReadLines(WithCrLf(line) + after) == [line] + ReadLines(after)
  {
    var text := WithCrLf(line) + after;
    var n := |line| - 1;
    assert text == line[..n] + "\r\n" + after;
    assert forall j :: 0 <= j < n ==> text[j] == line[j];
    assert text[n] == '\r' && text[n + 1] == '\n';
    assert BreakIndex(text) == n;
    assert text[..n] + "\n" == line;
    assert text[n + 2..] == after;
  }

  lemma CrLfLinesCons(lines: seq<string>)
    requires lines != []
    ensures CrLfLines(lines) == [WithCrLf(lines[0])] + CrLfLines(lines[1..])
  {
    var r, rest := CrLfLines(lines), [WithCrLf(lines[0])] + CrLfLines(lines[1..]);
    forall k | 0 <= k < |r| ensures r[k] == rest[k] {
      if k > 0 {
        assert lines[1..][k - 1] == lines[k];
      }
    }
  }

  /** Reading back text written as CR LF-terminated lines gives the same lines as the
      `\n`-terminated text: universal newlines turn each `\r\n` into `\n`. */
  lemma {:induction false} ReadLinesOfJoinCrLf(lines: seq<string>)
    requires NewlineTerminated(lines)
    ensures ReadLines(Join(CrLfLines(lines))) == lines
    decreases |lines|
  {
    if lines != [] {
      var first, rest := lines[0], lines[1..];
      var tail := Join(CrLfLines(rest));
      calc {
        ReadLines(Join(CrLfLines(lines)));
        { CrLfLinesCons(lines); JoinCons(WithCrLf(first), CrLfLines(rest)); }
        ReadLines(WithCrLf(first) + tail);
        { ReadLinesCrLfHead(first, tail); }
        [first] + ReadLines(tail);
        { NewlineTerminatedTail(lines); ReadLinesOfJoinCrLf(rest); }
        [first] + rest;
        lines;
      }
    }
  }

  /** The whitespace classes the reader depends on: both line terminators are whitespace,
      so `strip()` drops the newline a line is delivered with, while `:`, decimal digits
      and ASCII letters are not. */
  lemma SpaceClasses(c: char)
    ensures IsLineBreak(c) ==> IsSpace(c)
    ensures c == ':' || '0' <= c <= '9' || 'a' <= c <= 'z' || 'A' <= c <= 'Z' ==> !IsSpace(c)
  {
  }

  /** Python's `<` on `str`: ordinal comparison, a proper prefix sorts first. */
  predicate Less(a: string, b: string)
    decreases |a|
  {
    if a == [] then b != []
    else b != [] && (a[0] < b[0] || (a[0] == b[0] && Less(a[1..], b[1..])))
  }

  lemma {:induction false} LessIrreflexive(a: string)
    ensures !Less(a, a)
    decreases |a|
  {
    if a != [] {
      LessIrreflexive(a[1..]);
    }
  }

  lemma {:induction false} LessTransitive(a: string, b: string, c: string)
    requires Less(a, b) && Less(b, c)
    ensures Less(a, c)
    decreases |a|
  {
    if a != [] && a[0] == b[0] && b[0] == c[0] {
      LessTransitive(a[1..], b[1..], c[1..]);
    }
  }

  lemma {:induction false} LessTotal(a: string, b: string)
    requires a != b
    ensures Less(a, b) || Less(b, a)
    decreases |a|
  {
    if a != [] && b != [] && a[0] == b[0] {
      assert a == [a[0]] + a[1..] && b == [b[0]] + b[1..];
      LessTotal(a[1..], b[1..]);
    }
  }

  /** A proper prefix sorts before every longer string that starts with it. */
  lemma {:induction false} PrefixSortsFirst(p: string, q: string)
    requires q != []
    ensures Less(p, p + q)
    decreases |p|
  {
    if p != [] {
      assert (p + q)[1..] == p[1..] + q;
      PrefixSortsFirst(p[1..], q);
    }
  }

  lemma LessAsymmetric(a: string, b: string)
    requires Less(a, b)
    ensures !Less(b, a)
  {
    if Less(b, a) {
      LessTransitive(a, b, a);
      LessIrreflexive(a);
    }
  }
}
