/**
 * Swift's `split(separator:)` and `joined(separator:)` on strings.
 *
 * `split` by default omits empty subsequences: consecutive, leading and
 * trailing separators produce no piece. `Fields` is the lossless split that
 * keeps the empty pieces. `Split` is proved equal to `Fields` with the empty
 * pieces dropped.
 */
module Segments {

  /** True when some character of `s` is not `sep`, i.e. `Split(s, sep)` is not empty. */
  predicate HasNonSep(s: string, sep: char) {
    exists i :: 0 <= i < |s| && s[i] != sep
  }

  /** The pieces of `s` between occurrences of `sep`, empty pieces included. */
  function Fields(s: string, sep: char): (r: seq<string>)
    ensures |r| >= 1
    ensures forall i :: 0 <= i < |r| ==> sep !in r[i]
  {
    if s == [] then [[]]
    else
      var rest := Fields(s[1..], sep);
      if s[0] == sep then [[]] + rest
      else [[s[0]] + rest[0]] + rest[1..]
  }

  /**
   * Swift's `joined(separator:)`: the parts with one `sep` between neighbours.
   * The result starts with the first part.
   */
  function Join(parts: seq<string>, sep: char): (r: string)
    ensures |parts| >= 1 ==> parts[0] <= r
  {
    if |parts| == 0 then []
    else if |parts| == 1 then parts[0]
    else parts[0] + [sep] + Join(parts[1..], sep)
  }

  /** The parts that are not empty, in order. */
  function NonEmpty(parts: seq<string>): (r: seq<string>)
    ensures |r| <= |parts|
    ensures forall i :: 0 <= i < |r| ==> r[i] != [] && r[i] in parts
  {
    if parts == [] then []
    else Piece(parts[0]) + NonEmpty(parts[1..])
  }

  /** The piece contributed by a finished run of non-separator characters. */
  function Piece(run: string): seq<string> {
    if run == [] then [] else [run]
  }

  /** Swift's `s.split(separator: sep)` with `omittingEmptySubsequences: true`. */
  function Split(s: string, sep: char): (r: seq<string>)
    ensures forall i :: 0 <= i < |r| ==> r[i] != [] && sep !in r[i]
  {
    SplitFrom(s, sep, [])
  }

  /** The scan behind `Split`: `run` holds the characters seen since the last separator. */
  function SplitFrom(s: string, sep: char, run: string): (r: seq<string>)
    requires sep !in run
    ensures forall i :: 0 <= i < |r| ==> r[i] != [] && sep !in r[i]
    decreases |s|
  {
    if s == [] then Piece(run)
    else if s[0] == sep then Piece(run) + SplitFrom(s[1..], sep, [])
    else SplitFrom(s[1..], sep, run + [s[0]])
  }

  // ---------------------------------------------------------------------
  // The lossless split and its inverse

  /** Joining the lossless split gives the string back. */
  lemma {:induction false} JoinFields(s: string, sep: char)
    ensures Join(Fields(s, sep), sep) == s
  {
    if s != [] {
      var rest := Fields(s[1..], sep);
      JoinFields(s[1..], sep);
      if s[0] == sep {
        assert ([[]] + rest)[1..] == rest;
      } else if |rest| > 1 {
        var f := [[s[0]] + rest[0]] + rest[1..];
        assert f[1..] == rest[1..];
        assert Join(rest, sep) == rest[0] + [sep] + Join(rest[1..], sep);
        assert s == [s[0]] + s[1..];
      } else {
        assert s == [s[0]] + s[1..];
      }
    }
  }

  /** A join of separator-free parts holds one separator fewer than there are parts. */
  lemma {:induction false} JoinSeparators(parts: seq<string>, sep: char)
    requires |parts| >= 1
    requires forall i :: 0 <= i < |parts| ==> sep !in parts[i]
    ensures multiset(Join(parts, sep))[sep] == |parts| - 1
  {
    assert sep !in parts[0];
    assert multiset(parts[0])[sep] == 0;
    if |parts| > 1 {
      JoinSeparators(parts[1..], sep);
      assert multiset(parts[0] + [sep] + Join(parts[1..], sep))
        == multiset(parts[0]) + multiset([sep]) + multiset(Join(parts[1..], sep));
    }
  }

  /** `Fields` of a separator-free run followed by a separator and more. */
  lemma {:induction false} FieldsAfterRun(x: string, b: string, sep: char)
    requires sep !in x
    ensures Fields(x + [sep] + b, sep) == [x] + Fields(b, sep)
    decreases |x|
  {
    var s := x + [sep] + b;
    if x == [] {
      assert s == [sep] + b && s[1..] == b;
    } else {
      assert s[0] == x[0] && s[1..] == x[1..] + [sep] + b;
      FieldsAfterRun(x[1..], b, sep);
      assert [x[0]] + x[1..] == x;
    }
  }

  /** `Fields` of a separator-free string is that string alone. */
  lemma {:induction false} FieldsOfRun(x: string, sep: char)
    requires sep !in x
    ensures Fields(x, sep) == [x]
  {
    if x != [] {
      FieldsOfRun(x[1..], sep);
      assert [x[0]] + x[1..] == x;
    }
  }

  /** Splitting a join of separator-free parts, empty parts included, gives the parts back. */
  lemma {:induction false} FieldsJoin(parts: seq<string>, sep: char)
    requires |parts| >= 1
    requires forall i :: 0 <= i < |parts| ==> sep !in parts[i]
    ensures Fields(Join(parts, sep), sep) == parts
  {
    if |parts| == 1 {
      FieldsOfRun(parts[0], sep);
    } else {
      FieldsJoin(parts[1..], sep);
      FieldsAfterRun(parts[0], Join(parts[1..], sep), sep);
      assert [parts[0]] + parts[1..] == parts;
    }
  }

  // ---------------------------------------------------------------------
  // Split is the lossless split without its empty pieces

  lemma {:induction false} NonEmptyAppend(a: seq<string>, b: seq<string>)
    ensures NonEmpty(a + b) == NonEmpty(a) + NonEmpty(b)
  {
    if a != [] {
      assert (a + b)[0] == a[0] && (a + b)[1..] == a[1..] + b;
      NonEmptyAppend(a[1..], b);
    } else {
      assert a + b == b;
    }
  }

  lemma {:induction false} SplitFromFields(s: string, sep: char, run: string)
    requires sep !in run
    ensures var f := Fields(s, sep);
      SplitFrom(s, sep, run) == NonEmpty([run + f[0]] + f[1..])
    decreases |s|
  {
    var f := Fields(s, sep);
    if s == [] {
      assert run + f[0] == run && f[1..] == [];
      assert NonEmpty([run]) == Piece(run) + NonEmpty([]);
    } else {
      var rest := Fields(s[1..], sep);
      if s[0] == sep {
        SplitFromFields(s[1..], sep, []);
        assert [] + rest[0] == rest[0];
        assert [[] + rest[0]] + rest[1..] == rest;
        assert f[0] == [] && run + f[0] == run && f[1..] == rest;
        assert [run + f[0]] + f[1..] == [run] + rest;
        NonEmptyAppend([run], rest);
        assert NonEmpty([run]) == Piece(run) + NonEmpty([]);
      } else {
        SplitFromFields(s[1..], sep, run + [s[0]]);
        assert run + f[0] == (run + [s[0]]) + rest[0];
        assert f[1..] == rest[1..];
      }
    }
  }

  /** Swift's `split` is the lossless split with the empty pieces omitted. */
  lemma SplitIsNonEmptyFields(s: string, sep: char)
    ensures Split(s, sep) == NonEmpty(Fields(s, sep))
  {
    var f := Fields(s, sep);
    SplitFromFields(s, sep, []);
    assert [] + f[0] == f[0];
    assert [[] + f[0]] + f[1..] == f;
  }

  // ---------------------------------------------------------------------
  // Direct facts about Split

  lemma {:induction false} SplitFromEmpty(s: string, sep: char, run: string)
    requires sep !in run
    ensures SplitFrom(s, sep, run) == [] <==> run == [] && !HasNonSep(s, sep)
    decreases |s|
  {
    if s != [] {
      if s[0] == sep {
        SplitFromEmpty(s[1..], sep, []);
      } else {
        SplitFromEmpty(s[1..], sep, run + [s[0]]);
      }
      if HasNonSep(s[1..], sep) {
        var i :| 0 <= i < |s[1..]| && s[1..][i] != sep;
        assert s[i + 1] != sep;
      }
      if HasNonSep(s, sep) && s[0] == sep {
        var i :| 0 <= i < |s| && s[i] != sep;
        assert s[1..][i - 1] != sep;
      }
    }
  }

  /** `Split` yields no piece exactly when every character is a separator. */
  lemma SplitEmptyIff(s: string, sep: char)
    ensures Split(s, sep) == [] <==> !HasNonSep(s, sep)
  {
    SplitFromEmpty(s, sep, []);
  }

  lemma {:induction false} SplitFromAtSep(a: string, b: string, sep: char, run: string)
    requires sep !in run
    ensures SplitFrom(a + [sep] + b, sep, run) == SplitFrom(a, sep, run) + Split(b, sep)
    decreases |a|
  {
    var s := a + [sep] + b;
    if a == [] {
      assert s[0] == sep && s[1..] == b;
    } else {
      assert s[0] == a[0] && s[1..] == a[1..] + [sep] + b;
      if a[0] == sep {
        SplitFromAtSep(a[1..], b, sep, []);
      } else {
        SplitFromAtSep(a[1..], b, sep, run + [a[0]]);
      }
    }
  }

  /** Splitting at a separator splits the two sides independently. */
  lemma SplitAtSep(a: string, b: string, sep: char)
    ensures Split(a + [sep] + b, sep) == Split(a, sep) + Split(b, sep)
  {
    SplitFromAtSep(a, b, sep, []);
  }

  lemma {:induction false} SplitFromTrailing(a: string, d: string, sep: char, run: string)
    requires sep !in run
    requires !HasNonSep(d, sep)
    ensures SplitFrom(a + d, sep, run) == SplitFrom(a, sep, run)
    decreases |a|
  {
    var s := a + d;
    if a == [] {
      assert s == d;
      SplitFromEmpty(d, sep, []);
      if d != [] {
        assert d[0] == sep;
        assert SplitFrom(d, sep, run) == Piece(run) + SplitFrom(d[1..], sep, []);
        assert !HasNonSep(d[1..], sep);
        SplitFromEmpty(d[1..], sep, []);
      }
    } else {
      assert s[0] == a[0] && s[1..] == a[1..] + d;
      if a[0] == sep {
        SplitFromTrailing(a[1..], d, sep, []);
      } else {
        SplitFromTrailing(a[1..], d, sep, run + [a[0]]);
      }
    }
  }

  /** Trailing separators add no piece. */
  lemma SplitTrailing(a: string, d: string, sep: char)
    requires !HasNonSep(d, sep)
    ensures Split(a + d, sep) == Split(a, sep)
  {
    SplitFromTrailing(a, d, sep, []);
  }

  lemma {:induction false} SplitFromRun(x: string, sep: char, run: string)
    requires sep !in run && sep !in x
    requires run + x != []
    ensures SplitFrom(x, sep, run) == [run + x]
    decreases |x|
  {
    if x == [] {
      assert run + x == run;
    } else {
      SplitFromRun(x[1..], sep, run + [x[0]]);
      assert (run + [x[0]]) + x[1..] == run + x;
    }
  }

  /** A non-empty separator-free string is its own only piece. */
  lemma SplitOfRun(x: string, sep: char)
    requires x != [] && sep !in x
    ensures Split(x, sep) == [x]
  {
    SplitFromRun(x, sep, []);
    assert [] + x == x;
  }

  /** Splitting a join of non-empty separator-free parts gives the parts back. */
  lemma {:induction false} SplitJoin(parts: seq<string>, sep: char)
    requires forall i :: 0 <= i < |parts| ==> parts[i] != [] && sep !in parts[i]
    ensures Split(Join(parts, sep), sep) == parts
  {
    if |parts| == 1 {
      SplitOfRun(parts[0], sep);
    } else if |parts| > 1 {
      SplitJoin(parts[1..], sep);
      SplitAtSep(parts[0], Join(parts[1..], sep), sep);
      SplitOfRun(parts[0], sep);
      assert [parts[0]] + parts[1..] == parts;
    }
  }

  /**
   * The last piece of a string that ends in a separator-free run `x` followed
   * only by separators, where the run starts the string or follows a separator.
   */
  lemma LastPiece(p: string, x: string, d: string, sep: char)
    requires p == [] || p[|p| - 1] == sep
    requires x != [] && sep !in x
    requires !HasNonSep(d, sep)
    ensures var r := Split(p + x + d, sep); r != [] && r[|r| - 1] == x
  {
    SplitTrailing(p + x, d, sep);
    SplitOfRun(x, sep);
    if p != [] {
      var q := p[..|p| - 1];
      assert p + x == q + [sep] + x;
      SplitAtSep(q, x, sep);
    } else {
      assert p + x == x;
    }
  }
}
