/**
  The few functions of Go's `strings` package that the configuration reader
  relies on: white-space trimming, prefix and suffix tests, and splitting a
  line at the first occurrence of a separator character.
 */
module Strings {

  /** White space as trimmed by `strings.TrimSpace`, restricted to ASCII:
      space, tab, line feed, vertical tab, form feed and carriage return. */
  predicate IsSpace(c: char) {
    c == ' ' || ('\t' <= c <= '\r')
  }

  predicate AllSpace(s: string) {
    forall i :: 0 <= i < |s| ==> IsSpace(s[i])
  }

  /** A string that neither starts nor ends with white space. */
  predicate Trimmed(s: string) {
    s == [] || (!IsSpace(s[0]) && !IsSpace(s[|s| - 1]))
  }

  predicate HasPrefix(s: string, p: string) {
    |p| <= |s| && s[..|p|] == p
  }

  predicate HasSuffix(s: string, p: string) {
    |p| <= |s| && s[|s| - |p|..] == p
  }

  /** Drops leading white space. */
  function TrimLeft(s: string): string {
    if s != [] && IsSpace(s[0]) then TrimLeft(s[1..]) else s
  }

  /** Drops trailing white space. */
  function TrimRight(s: string): string {
    if s != [] && IsSpace(s[|s| - 1]) then TrimRight(s[..|s| - 1]) else s
  }

  /** `TrimLeft` keeps a suffix of `s`, what it drops is all white space,
      and what it keeps does not start with white space. */
  lemma {:induction false} TrimLeftSuffix(s: string)
    ensures var r := TrimLeft(s);
      |r| <= |s| && r == s[|s| - |r|..] && AllSpace(s[..|s| - |r|])
      && (r != [] ==> !IsSpace(r[0]))
    decreases |s|
  {
    if s != [] && IsSpace(s[0]) {
      TrimLeftSuffix(s[1..]);
      var r := TrimLeft(s);
      var n := |s| - |r|;
      assert s[1..][|s[1..]| - |r|..] == s[n..];
      assert s[..n] == [s[0]] + s[1..][..n - 1];
    }
  }

  /** `TrimRight` keeps a prefix of `s`, what it drops is all white space,
      and what it keeps does not end with white space. */
  lemma {:induction false} TrimRightPrefix(s: string)
    ensures var r := TrimRight(s);
      |r| <= |s| && r == s[..|r|] && AllSpace(s[|r|..])
      && (r != [] ==> !IsSpace(r[|r| - 1]))
    decreases |s|
  {
    if s != [] && IsSpace(s[|s| - 1]) {
      var p := s[..|s| - 1];
      TrimRightPrefix(p);
      var r := TrimRight(s);
      assert p[..|r|] == s[..|r|];
      assert s[|r|..] == p[|r|..] + [s[|s| - 1]];
    }
  }

  /** `strings.TrimSpace`: `s` without white space on either end. */
  function TrimSpace(s: string): (r: string)
    ensures Trimmed(r) && |r| <= |s|
  {
    var l := TrimLeft(s);
    TrimLeftSuffix(s);
    var r := TrimRight(l);
    TrimRightPrefix(l);
    assert r != [] ==> r[0] == l[0];
    r
  }

  /** What trimming keeps is one slice of `s`, and what it drops on either
      side of it is white space. */
  lemma TrimSpaceIsSlice(s: string)
    ensures var r := TrimSpace(s);
      exists i :: 0 <= i <= |s| - |r| && r == s[i..i + |r|]
                  && AllSpace(s[..i]) && AllSpace(s[i + |r|..])
  {
    var l := TrimLeft(s);
    TrimLeftSuffix(s);
    var r := TrimRight(l);
    TrimRightPrefix(l);
    var i := |s| - |l|;
    assert s[i..i + |r|] == r;
    assert s[i + |r|..] == l[|r|..];
  }

  lemma {:induction false} TrimLeftPadded(a: string, u: string)
    requires AllSpace(a)
    requires u == [] || !IsSpace(u[0])
    ensures TrimLeft(a + u) == u
  {
    if a != [] {
      assert (a + u)[1..] == a[1..] + u;
      TrimLeftPadded(a[1..], u);
    }
  }

  lemma {:induction false} TrimRightPadded(u: string, b: string)
    requires AllSpace(b)
    requires u == [] || !IsSpace(u[|u| - 1])
    ensures TrimRight(u + b) == u
  {
    if b != [] {
      assert (u + b)[..|u + b| - 1] == u + b[..|b| - 1];
      TrimRightPadded(u, b[..|b| - 1]);
    }
  }

  /** Trimming removes exactly the white-space padding around a trimmed
      string, and nothing of the string itself. */
  lemma TrimSpacePadded(a: string, t: string, b: string)
    requires AllSpace(a) && AllSpace(b) && Trimmed(t)
    ensures TrimSpace(a + t + b) == t
  {
    if t == [] {
      assert a + t + b == (a + b) + [];
      TrimLeftPadded(a + b, []);
    } else {
      assert a + t + b == a + (t + b);
      TrimLeftPadded(a, t + b);
      TrimRightPadded(t, b);
    }
  }

  lemma {:induction false} TrimLeftKeepsLast(s: string)
    requires s != [] && !IsSpace(s[|s| - 1])
    ensures TrimLeft(s) != [] && TrimLeft(s)[|TrimLeft(s)| - 1] == s[|s| - 1]
    decreases |s|
  {
    if IsSpace(s[0]) {
      TrimLeftKeepsLast(s[1..]);
    }
  }

  /** A string whose last character is not white space keeps that
      character as the last one of its trimmed form. */
  lemma TrimSpaceKeepsLast(s: string)
    requires s != [] && !IsSpace(s[|s| - 1])
    ensures TrimSpace(s) != [] && TrimSpace(s)[|TrimSpace(s)| - 1] == s[|s| - 1]
  {
    var l := TrimLeft(s);
    TrimLeftKeepsLast(s);
    assert l + [] == l;
    TrimRightPadded(l, []);
  }

  /** Trimming twice is trimming once. */
  lemma TrimSpaceIdempotent(s: string)
    ensures TrimSpace(TrimSpace(s)) == TrimSpace(s)
  {
    var t := TrimSpace(s);
    assert [] + t + [] == t;
    TrimSpacePadded([], t, []);
  }

  /** `strings.SplitN(s, [sep], 2)`: `[s]` when `sep` does not occur in `s`,
      otherwise the text before the first `sep` and the text after it. */
  function SplitFirst(s: string, sep: char): (parts: seq<string>)
    ensures |parts| == 1 || |parts| == 2
  {
    if s == [] then [s]
    else if s[0] == sep then ["", s[1..]]
    else
      var rest := SplitFirst(s[1..], sep);
      if |rest| == 1 then [s] else [[s[0]] + rest[0], rest[1]]
  }

  /** One part, `s` itself, exactly when `sep` does not occur in `s`;
      otherwise two parts, the first free of `sep`, which joined around
      `sep` give `s` back. */
  lemma {:induction false} SplitFirstParts(s: string, sep: char)
    ensures var parts := SplitFirst(s, sep);
      (|parts| == 1 <==> sep !in s)
      && (|parts| == 1 ==> parts[0] == s)
      && (|parts| == 2 ==> sep !in parts[0] && parts[0] + [sep] + parts[1] == s)
    decreases |s|
  {
    if s == [] {
    } else if s[0] == sep {
      assert "" + [sep] + s[1..] == s;
    } else {
      SplitFirstParts(s[1..], sep);
      var rest := SplitFirst(s[1..], sep);
      assert s == [s[0]] + s[1..];
      if |rest| == 2 {
        assert [s[0]] + rest[0] + [sep] + rest[1] == [s[0]] + (rest[0] + [sep] + rest[1]);
      }
    }
  }

  /** Splitting at the first `sep` recovers the text before it and the
      text after it, whatever the latter contains. */
  lemma {:induction false} SplitFirstAtFirst(k: string, sep: char, v: string)
    requires sep !in k
    ensures SplitFirst(k + [sep] + v, sep) == [k, v]
  {
    if k != [] {
      assert (k + [sep] + v)[1..] == k[1..] + [sep] + v;
      SplitFirstAtFirst(k[1..], sep, v);
      assert [k[0]] + k[1..] == k;
    }
  }
}
