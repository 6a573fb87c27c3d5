/** Python's `sorted()` over the distinct keys of a dictionary of `str`, with
    the ordinal order of `PyStrings.Less`. */
module PySorted {
  import opened PyStrings

  /** Every element is strictly smaller than every later one. */
  predicate StrictlySorted(s: seq<string>) {
    forall i, j :: 0 <= i < j < |s| ==> Less(s[i], s[j])
  }

  /** `s` lists exactly the members of `keys`. */
  ghost predicate Enumerates(s: seq<string>, keys: set<string>) {
    forall x :: x in s <==> x in keys
  }

  /** Puts `x` at its place in a strictly sorted sequence that does not hold it yet. */
  function Insert(s: seq<string>, x: string): (r: seq<string>)
    requires StrictlySorted(s) && x !in s
    ensures StrictlySorted(r)
    ensures forall y :: y in r <==> y in s || y == x
    ensures |r| == |s| + 1
  {
    if s == [] then [x]
    else
      LessTotal(x, s[0]);
      if Less(x, s[0]) then
        assert forall j :: 0 < j < |s| ==> Less(x, s[j]) by {
          forall j | 0 < j < |s| ensures Less(x, s[j]) { LessTransitive(x, s[0], s[j]); }
        }
        [x] + s
      else
        var tail := Insert(s[1..], x);
        assert forall y :: y in tail ==> Less(s[0], y);
        [s[0]] + tail
  }

  /** The sorted list of `keys`, as `sorted()` builds it. */
  method Sorted(keys: set<string>) returns (ks: seq<string>)
    ensures StrictlySorted(ks) && Enumerates(ks, keys)
  {
    ks := [];
    var rest := keys;
    while rest != {}
      invariant rest <= keys
      invariant StrictlySorted(ks)
      invariant forall x :: x in ks <==> x in keys && x !in rest
      decreases rest
    {
      var x :| x in rest;
      ks := Insert(ks, x);
      rest := rest - {x};
    }
  }

  /** Some strictly sorted enumeration of `keys`, used to state what the writer emits. */
  ghost function SortedEnumeration(keys: set<string>): (ks: seq<string>)
    ensures StrictlySorted(ks) && Enumerates(ks, keys)
    decreases keys
  {
    if keys == {} then []
    else
      var x :| x in keys;
      Insert(SortedEnumeration(keys - {x}), x)
  }

  /** A strictly sorted enumeration of a set is unique. */
  lemma {:induction false} SortedUnique(a: seq<string>, b: seq<string>)
    requires StrictlySorted(a) && StrictlySorted(b)
    requires forall x :: x in a <==> x in b
    ensures a == b
    decreases |a|
  {
    if a != [] {
      assert a[0] in b && b[0] in a;
      if a[0] != b[0] {
        HeadIsLeast(a, b[0]);
        HeadIsLeast(b, a[0]);
        LessAsymmetric(a[0], b[0]);
      }
      assert a == [a[0]] + a[1..] && b == [b[0]] + b[1..];
      forall x ensures x in a[1..] <==> x in b[1..] {
        LessIrreflexive(x);
        if x in a[1..] {
          var i :| 1 <= i < |a| && a[i] == x;
          assert x in b;
        }
        if x in b[1..] {
          var i :| 1 <= i < |b| && b[i] == x;
          assert x in a;
        }
      }
      SortedUnique(a[1..], b[1..]);
    } else {
      SortedLength(b, {});
    }
  }

  /** The first element of a strictly sorted sequence is below every other element. */
  lemma HeadIsLeast(s: seq<string>, x: string)
    requires StrictlySorted(s) && x in s && x != s[0]
    ensures Less(s[0], x)
  {
  }

  /** A strictly sorted enumeration of `keys` has exactly `|keys|` elements. */
  lemma {:induction false} SortedLength(ks: seq<string>, keys: set<string>)
    requires StrictlySorted(ks) && Enumerates(ks, keys)
    ensures |ks| == |keys|
    decreases |ks|
  {
    if ks != [] {
      LessIrreflexive(ks[0]);
      assert ks[0] !in ks[1..];
      SortedLength(ks[1..], keys - {ks[0]});
    } else {
      assert forall x :: x !in keys;
    }
  }
}
