/**
 * The Python string operations the pipeline relies on: `str.split` and `str.join`
 * with a one-character separator, `os.path.basename` on POSIX paths, and the
 * document id `basename.split('.')[0]`.
 */
module Strings {

  /** Python's `s.split(sep)`: the maximal runs between separators, empty runs included. */
  function Split(s: string, sep: char): (parts: seq<string>)
    ensures |parts| >= 1
  {
    if |s| == 0 then [""]
    else
      var rest := Split(s[1..], sep);
      if s[0] == sep then [""] + rest
      else [[s[0]] + rest[0]] + rest[1..]
  }

  /** Python's `sep.join(xs)`. */
  function Join(sep: string, xs: seq<string>): string
  {
    if |xs| == 0 then ""
    else if |xs| == 1 then xs[0]
    else xs[0] + sep + Join(sep, xs[1..])
  }

  /** Number of occurrences of `c` in `s`. */
  function Count(s: string, c: char): nat
  {
    if |s| == 0 then 0 else (if s[0] == c then 1 else 0) + Count(s[1..], c)
  }

  /** `t` ends `s`. */
  predicate IsSuffix(t: string, s: string)
  {
    |t| <= |s| && s[|s| - |t|..] == t
  }

  /** `os.path.basename` on a POSIX path: everything after the last '/'. */
  function BaseName(path: string): string
  {
    LastPart(path, '/')
  }

  /** The document id of line 18: the base name up to its first '.'. */
  function DocId(path: string): string
  {
    Split(BaseName(path), '.')[0]
  }

  /** Joining the parts of a split with the separator gives back the string. */
  lemma {:induction false} JoinSplit(s: string, sep: char)
    ensures Join([sep], Split(s, sep)) == s
  {
    if |s| > 0 {
      var rest := Split(s[1..], sep);
      JoinSplit(s[1..], sep);
      if s[0] == sep {
        assert s == [sep] + s[1..];
      } else if |rest| == 1 {
        assert s == [s[0]] + s[1..];
      } else {
        assert Join([sep], rest) == rest[0] + [sep] + Join([sep], rest[1..]);
        assert s == [s[0]] + s[1..];
      }
    }
  }

  /** A split yields one more part than there are separators, and no part holds the separator. */
  lemma {:induction false} SplitParts(s: string, sep: char)
    ensures |Split(s, sep)| == Count(s, sep) + 1
    ensures forall p <- Split(s, sep) :: sep !in p
  {
    if |s| > 0 {
      SplitParts(s[1..], sep);
      var rest := Split(s[1..], sep);
      if s[0] != sep {
        assert sep !in rest[0];
        forall p <- Split(s, sep) ensures sep !in p {
          if p != [s[0]] + rest[0] {
            assert p in rest[1..];
          }
        }
      }
    }
  }

  /** A string without the separator splits into itself. */
  lemma {:induction false} SplitNoSep(s: string, sep: char)
    requires sep !in s
    ensures Split(s, sep) == [s]
  {
    if |s| > 0 {
      SplitNoSep(s[1..], sep);
      assert s == [s[0]] + s[1..];
    }
  }

  /** Splitting at the first separator. */
  lemma {:induction false} SplitAfter(a: string, b: string, sep: char)
    requires sep !in a
    ensures Split(a + [sep] + b, sep) == [a] + Split(b, sep)
  {
    var s := a + [sep] + b;
    if |a| == 0 {
      assert s[1..] == b;
    } else {
      assert s[1..] == a[1..] + [sep] + b;
      SplitAfter(a[1..], b, sep);
      assert a == [a[0]] + a[1..];
    }
  }

  /** Splitting a join of separator-free parts gives back the parts. */
  lemma {:induction false} SplitJoin(xs: seq<string>, sep: char)
    requires |xs| >= 1
    requires forall x <- xs :: sep !in x
    ensures Split(Join([sep], xs), sep) == xs
  {
    if |xs| == 1 {
      SplitNoSep(xs[0], sep);
    } else {
      SplitJoin(xs[1..], sep);
      SplitAfter(xs[0], Join([sep], xs[1..]), sep);
      assert xs == [xs[0]] + xs[1..];
    }
  }

  /** The first part of a split is the prefix up to, not including, the first separator. */
  lemma {:induction false} SplitFirst(s: string, sep: char)
    ensures var h := Split(s, sep)[0];
      h <= s && sep !in h && (|h| < |s| ==> s[|h|] == sep)
  {
    if |s| > 0 {
      SplitFirst(s[1..], sep);
    }
  }

  /** The last part of a split is the suffix after the last separator. */
  lemma {:induction false} SplitLast(s: string, sep: char)
    ensures var t := LastPart(s, sep);
      IsSuffix(t, s) && sep !in t && (|t| < |s| ==> s[|s| - |t| - 1] == sep)
    decreases |s|, 1
  {
    if |s| > 0 {
      if s[0] != sep && |Split(s[1..], sep)| == 1 {
        SplitLastWhole(s, sep);
      } else {
        SplitLastTail(s, sep);
      }
    }
  }

  /** SplitLast's step when the tail holds no separator: the last part is all of `s`. */
  lemma {:induction false} SplitLastWhole(s: string, sep: char)
    requires |s| > 0 && s[0] != sep && |Split(s[1..], sep)| == 1
    ensures var t := LastPart(s, sep);
      IsSuffix(t, s) && sep !in t && (|t| < |s| ==> s[|s| - |t| - 1] == sep)
    decreases |s|, 0
  {
    var tail := s[1..];
    SplitLast(tail, sep);
    JoinSplit(tail, sep);
    LastOfSplitWhole(s, sep);
  }

  /** SplitLast's step when the last part lies in the tail. */
  lemma {:induction false} SplitLastTail(s: string, sep: char)
    requires |s| > 0 && !(s[0] != sep && |Split(s[1..], sep)| == 1)
    ensures var t := LastPart(s, sep);
      IsSuffix(t, s) && sep !in t && (|t| < |s| ==> s[|s| - |t| - 1] == sep)
    decreases |s|, 0
  {
    var tail := s[1..];
    SplitLast(tail, sep);
    var t := LastPart(tail, sep);
    LastOfSplitTail(s, sep);
    SuffixStep(s, t);
    if s[0] != sep {
      SplitParts(tail, sep);
      CountMember(tail, sep);
      assert tail[|tail| - |t|..] == t;
    }
  }


  /** A character occurs in a string exactly when its count is positive. */
  lemma {:induction false} CountMember(s: string, c: char)
    ensures Count(s, c) > 0 <==> c in s
  {
    if |s| > 0 {
      CountMember(s[1..], c);
      assert s == [s[0]] + s[1..];
    }
  }

  /** The last part of `s.split(sep)`, which is what `os.path.basename` keeps. */
  function LastPart(s: string, sep: char): string
  {
    var parts := Split(s, sep);
    parts[|parts| - 1]
  }

  /** When the tail does not split and the head is no separator, the last part is the whole string. */
  lemma LastOfSplitWhole(s: string, sep: char)
    requires |s| > 0 && s[0] != sep && |Split(s[1..], sep)| == 1
    requires Split(s[1..], sep)[0] == s[1..]
    ensures LastPart(s, sep) == s
  {
    assert s == [s[0]] + s[1..];
  }

  /** Otherwise the last part of `s` is the last part of its tail. */
  lemma LastOfSplitTail(s: string, sep: char)
    requires |s| > 0 && !(s[0] != sep && |Split(s[1..], sep)| == 1)
    ensures LastPart(s, sep) == LastPart(s[1..], sep)
  {
  }

  /** A suffix of `s[1..]` is a suffix of `s`, at the same distance from the end. */
  lemma SuffixStep(s: string, t: string)
    requires |s| > 0 && IsSuffix(t, s[1..])
    ensures IsSuffix(t, s)
    ensures |t| < |s| - 1 ==> s[|s| - |t| - 1] == s[1..][|s| - 1 - |t| - 1]
    ensures |t| == |s| - 1 ==> s[|s| - |t| - 1] == s[0]
  {
    assert s[|s| - |t|..] == s[1..][|s| - 1 - |t|..];
  }

  /** Base name: a suffix of the path that holds no '/', preceded by a '/' unless it is the whole path. */
  lemma BaseNameIsLastComponent(path: string)
    ensures var b := BaseName(path);
      IsSuffix(b, path) && '/' !in b && (|b| < |path| ==> path[|path| - |b| - 1] == '/')
  {
    SplitLast(path, '/');
  }

  /**
   * The document id is the base name up to, not including, its first '.': a prefix of the
   * base name without '.' or '/', followed there by a '.' unless it is the whole base name.
   * A base name without '.' is its own id.
   */
  lemma DocIdIsStem(path: string)
    ensures var b, id := BaseName(path), DocId(path);
      id <= b && '.' !in id && '/' !in id
      && (|id| < |b| ==> b[|id|] == '.')
      && ('.' !in b ==> id == b)
  {
    var b := BaseName(path);
    SplitFirst(b, '.');
    SplitLast(path, '/');
    if '.' !in b {
      SplitNoSep(b, '.');
    }
  }

  /** A pair id with exactly one '_' splits into two '_'-free parts that rebuild it. */
  lemma SplitOneUnderscore(s: string)
    requires Count(s, '_') == 1
    ensures var parts := Split(s, '_');
      |parts| == 2 && parts[0] + "_" + parts[1] == s
      && '_' !in parts[0] && '_' !in parts[1]
  {
    SplitParts(s, '_');
    JoinSplit(s, '_');
    var parts := Split(s, '_');
    assert Join("_", parts) == parts[0] + "_" + parts[1];
  }
}
