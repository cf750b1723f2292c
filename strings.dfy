/**
 * The string operations the editor relies on: `str::trim` (used when an
 * insertion is committed) and splitting/joining on a separator character
 * (used for the path list and for path components).
 */
module Strings {

  /** Unicode White_Space, the set `char::is_whitespace` and `str::trim` use. */
  predicate IsWhitespace(c: char) {
    ('\U{0009}' <= c <= '\U{000D}') || c == ' ' || c == '\U{0085}' || c == '\U{00A0}'
    || c == '\U{1680}' || ('\U{2000}' <= c <= '\U{200A}') || c == '\U{2028}' || c == '\U{2029}'
    || c == '\U{202F}' || c == '\U{205F}' || c == '\U{3000}'
  }

  /** Drops leading whitespace: the result is the suffix that starts at the first non-whitespace character. */
  function TrimStart(s: string): (r: string)
    ensures |r| <= |s| && r == s[|s| - |r|..]
    ensures forall i :: 0 <= i < |s| - |r| ==> IsWhitespace(s[i])
    ensures r == [] || !IsWhitespace(r[0])
  {
    if s != [] && IsWhitespace(s[0]) then TrimStart(s[1..]) else s
  }

  /** Drops trailing whitespace: the result is the prefix that ends at the last non-whitespace character. */
  function TrimEnd(s: string): (r: string)
    ensures |r| <= |s| && r == s[..|r|]
    ensures forall i :: |r| <= i < |s| ==> IsWhitespace(s[i])
    ensures r == [] || !IsWhitespace(r[|r| - 1])
  {
    if s != [] && IsWhitespace(s[|s| - 1]) then TrimEnd(s[..|s| - 1]) else s
  }

  /** `r` is the slice of `s` starting at `a`, with only whitespace before and after it. */
  predicate IsSliceAmidWhitespace(s: string, r: string, a: int) {
    0 <= a <= |s| - |r| && r == s[a..a + |r|]
    && (forall i :: 0 <= i < a ==> IsWhitespace(s[i]))
    && (forall i :: a + |r| <= i < |s| ==> IsWhitespace(s[i]))
  }

  /**
   * `str::trim`: the result is a slice of `s` with only whitespace before and
   * after it, and neither end of the result is whitespace.
   */
  function Trim(s: string): (r: string)
    ensures r == [] || (!IsWhitespace(r[0]) && !IsWhitespace(r[|r| - 1]))
    ensures |r| <= |s|
    ensures exists a :: IsSliceAmidWhitespace(s, r, a)
  {
    var t := TrimStart(s);
    var r := TrimEnd(t);
    SliceAmidWhitespace(s, t, r);
    r
  }

  /** A suffix after leading whitespace, cut before trailing whitespace, is a slice amid whitespace. */
  lemma SliceAmidWhitespace(s: string, t: string, r: string)
    requires |t| <= |s| && t == s[|s| - |t|..]
    requires forall i :: 0 <= i < |s| - |t| ==> IsWhitespace(s[i])
    requires |r| <= |t| && r == t[..|r|]
    requires forall i :: |r| <= i < |t| ==> IsWhitespace(t[i])
    ensures IsSliceAmidWhitespace(s, r, |s| - |t|)
  {
    var a := |s| - |t|;
    assert r == s[a..a + |r|];
    forall i | a + |r| <= i < |s| ensures IsWhitespace(s[i]) {
      assert s[i] == t[i - a];
    }
  }

  /** A string is left alone by Trim exactly when neither of its ends is whitespace. */
  lemma TrimFixedPoint(s: string)
    ensures Trim(s) == s <==> (s == [] || (!IsWhitespace(s[0]) && !IsWhitespace(s[|s| - 1])))
  {
    if s != [] && !IsWhitespace(s[0]) && !IsWhitespace(s[|s| - 1]) {
      assert TrimStart(s) == s;
      assert TrimEnd(s) == s;
    }
  }

  /** Trimming twice is trimming once. */
  lemma TrimIdempotent(s: string)
    ensures Trim(Trim(s)) == Trim(s)
  {
    TrimFixedPoint(Trim(s));
  }

  /** Position of the first occurrence of `c` in `s`. */
  function FirstIndex(s: string, c: char): (k: nat)
    requires c in s
    ensures k < |s| && s[k] == c && c !in s[..k]
  {
    if s[0] == c then 0 else 1 + FirstIndex(s[1..], c)
  }

  /**
   * Splits `s` at every occurrence of `sep`: n separators give n + 1 parts,
   * so the empty string is one empty part (as `env::split_paths` does on Unix).
   */
  function Split(s: string, sep: char): (r: seq<string>)
    ensures |r| >= 1
    decreases |s|
  {
    if sep !in s then [s]
    else
      var k := FirstIndex(s, sep);
      [s[..k]] + Split(s[k + 1..], sep)
  }

  /** Concatenates `parts` with `sep` between consecutive parts. */
  function Join(parts: seq<string>, sep: char): (r: string)
  {
    if |parts| == 0 then []
    else if |parts| == 1 then parts[0]
    else parts[0] + [sep] + Join(parts[1..], sep)
  }

  /** A first part free of the separator is split off whole. */
  lemma SplitAfterPart(a: string, sep: char, b: string)
    requires sep !in a
    ensures Split(a + [sep] + b, sep) == [a] + Split(b, sep)
  {
    var s := a + [sep] + b;
    assert s[|a|] == sep;
    var k := FirstIndex(s, sep);
    assert forall j :: 0 <= j < k ==> s[j] != sep by {
      forall j | 0 <= j < k ensures s[j] != sep { assert s[j] == s[..k][j]; }
    }
    assert forall j :: 0 <= j < |a| ==> s[j] == a[j];
    assert k == |a|;
    assert s[..k] == a;
    assert s[k + 1..] == b;
  }

  /** One step of Join on a list of at least two parts. */
  lemma JoinCons(p: string, rest: seq<string>, sep: char)
    requires |rest| >= 1
    ensures Join([p] + rest, sep) == p + [sep] + Join(rest, sep)
  {
    assert ([p] + rest)[1..] == rest;
  }

  /** Joining the parts of a split gives back the string. */
  lemma {:induction false} JoinSplit(s: string, sep: char)
    ensures Join(Split(s, sep), sep) == s
    decreases |s|
  {
    if sep in s {
      var k := FirstIndex(s, sep);
      var rest := Split(s[k + 1..], sep);
      calc {
        Join(Split(s, sep), sep);
        Join([s[..k]] + rest, sep);
        { JoinCons(s[..k], rest, sep); }
        s[..k] + [sep] + Join(rest, sep);
        { JoinSplit(s[k + 1..], sep); }
        s[..k] + [sep] + s[k + 1..];
        s;
      }
    }
  }

  /** Splitting a join gives back the parts, provided there is at least one part and none holds the separator. */
  lemma {:induction false} SplitJoin(parts: seq<string>, sep: char)
    requires |parts| >= 1
    requires forall i :: 0 <= i < |parts| ==> sep !in parts[i]
    ensures Split(Join(parts, sep), sep) == parts
  {
    if |parts| > 1 {
      SplitJoin(parts[1..], sep);
      SplitAfterPart(parts[0], sep, Join(parts[1..], sep));
      assert parts == [parts[0]] + parts[1..];
    }
  }

  /** Text appended after an occurrence of `c` does not move the first occurrence. */
  lemma {:induction false} FirstIndexOfPrefix(a: string, c: char, t: string)
    requires c in a
    ensures FirstIndex(a + t, c) == FirstIndex(a, c)
  {
    if a[0] != c {
      assert (a + t)[1..] == a[1..] + t;
      FirstIndexOfPrefix(a[1..], c, t);
    }
  }

  /** One step of Split on a string that holds the separator. */
  lemma SplitUnfold(s: string, sep: char)
    requires sep in s
    ensures Split(s, sep) == [s[..FirstIndex(s, sep)]] + Split(s[FirstIndex(s, sep) + 1..], sep)
  {
  }

  /** A separator in `a` is found first in `a + [sep] + b`, and cuts it the same way. */
  lemma CutInPrefix(a: string, sep: char, b: string)
    requires sep in a
    ensures var s := a + [sep] + b; var k := FirstIndex(a, sep);
            sep in s && FirstIndex(s, sep) == k && s[..k] == a[..k] && s[k + 1..] == a[k + 1..] + [sep] + b
  {
    var s := a + [sep] + b;
    var k := FirstIndex(a, sep);
    assert s == a + ([sep] + b);
    FirstIndexOfPrefix(a, sep, [sep] + b);
  }

  /** Two separator-free parts around one separator split into exactly those parts. */
  lemma SplitPair(a: string, sep: char, b: string)
    requires sep !in a && sep !in b
    ensures Split(a + [sep] + b, sep) == [a, b]
  {
    SplitAfterPart(a, sep, b);
    assert Split(b, sep) == [b];
  }

  /** When `a` holds the separator, the first part of `a + [sep] + b` is cut from `a`. */
  lemma SplitCutsPrefix(a: string, sep: char, b: string)
    requires sep in a
    ensures var k := FirstIndex(a, sep);
            Split(a + [sep] + b, sep) == [a[..k]] + Split(a[k + 1..] + [sep] + b, sep)
  {
    CutInPrefix(a, sep, b);
    SplitUnfold(a + [sep] + b, sep);
  }

  /** Whatever follows the last separator is the last part. */
  lemma {:induction false} LastPart(a: string, sep: char, b: string)
    requires sep !in b
    ensures var r := Split(a + [sep] + b, sep); r[|r| - 1] == b
    decreases |a|, 1
  {
    if sep !in a {
      SplitPair(a, sep, b);
    } else {
      LastPartAfterCut(a, sep, b);
    }
  }

  /** LastPart when `a` holds the separator: the last part lies after the first cut. */
  lemma {:induction false} LastPartAfterCut(a: string, sep: char, b: string)
    requires sep in a && sep !in b
    ensures var r := Split(a + [sep] + b, sep); r[|r| - 1] == b
    decreases |a|, 0
  {
    var r := Split(a + [sep] + b, sep);
    var k := FirstIndex(a, sep);
    var tail := Split(a[k + 1..] + [sep] + b, sep);
    assert r == [a[..k]] + tail by { SplitCutsPrefix(a, sep, b); }
    assert tail[|tail| - 1] == b by { LastPart(a[k + 1..], sep, b); }
    assert r[|r| - 1] == tail[|tail| - 1];
  }

  /** No part of a split holds the separator. */
  lemma {:induction false} SplitPartsLackSeparator(s: string, sep: char)
    ensures forall i :: 0 <= i < |Split(s, sep)| ==> sep !in Split(s, sep)[i]
    decreases |s|
  {
    if sep in s {
      var k := FirstIndex(s, sep);
      SplitPartsLackSeparator(s[k + 1..], sep);
    }
  }
}
