/** The stock Option type used by the parsers and look-ups of this model. */
module Wrappers {
  datatype Option<+T> = None | Some(value: T)
}

/**
  String helpers with Python semantics: `str.strip()` on a Python 2 byte
  string, and splitting / joining on a one-character separator.
 */
module Text {
  import opened Wrappers

  /** The bytes Python 2's `str.strip()` removes: space, TAB, LF, VT, FF and CR. */
  predicate IsSpace(c: char) {
    c == ' ' || ('\t' <= c <= '\r')
  }

  /** `s` without its leading whitespace. */
  function TrimLeft(s: string): string
    decreases |s|
  {
    if s != [] && IsSpace(s[0]) then TrimLeft(s[1..]) else s
  }

  /** `s` without its trailing whitespace. */
  function TrimRight(s: string): string
    decreases |s|
  {
    if s != [] && IsSpace(s[|s| - 1]) then TrimRight(s[..|s| - 1]) else s
  }

  /** Python's `s.strip()`. */
  function Strip(s: string): string {
    TrimRight(TrimLeft(s))
  }

  /** Trimming on the left drops a run of whitespace and stops at the first other character. */
  lemma {:induction false} TrimLeftSpec(s: string)
    ensures |TrimLeft(s)| <= |s| && TrimLeft(s) == s[|s| - |TrimLeft(s)|..]
    ensures forall k :: 0 <= k < |s| - |TrimLeft(s)| ==> IsSpace(s[k])
    ensures TrimLeft(s) == [] || !IsSpace(TrimLeft(s)[0])
    decreases |s|
  {
    if s != [] && IsSpace(s[0]) {
      TrimLeftSpec(s[1..]);
    }
  }

  /** Trimming on the right drops a run of whitespace and stops at the last other character. */
  lemma {:induction false} TrimRightSpec(s: string)
    ensures |TrimRight(s)| <= |s| && TrimRight(s) == s[..|TrimRight(s)|]
    ensures forall k :: |TrimRight(s)| <= k < |s| ==> IsSpace(s[k])
    ensures TrimRight(s) == [] || !IsSpace(TrimRight(s)[|TrimRight(s)| - 1])
    decreases |s|
  {
    if s != [] && IsSpace(s[|s| - 1]) {
      TrimRightSpec(s[..|s| - 1]);
    }
  }

  /** Stripping twice is stripping once. */
  lemma StripIdempotent(s: string)
    ensures Strip(Strip(s)) == Strip(s)
  {
    var l := TrimLeft(s);
    var r := Strip(s);
    TrimLeftSpec(s);
    TrimRightSpec(l);
    TrimRightSpec(r);
    if r != [] {
      assert r[0] == l[0];
      assert TrimLeft(r) == r;
    }
    assert TrimRight(r) == r;
  }

  /** Position of the first `c` in `s`. */
  function IndexOf(s: string, c: char): (r: Option<nat>)
    ensures r.None? ==> c !in s
    ensures r.Some? ==> r.value < |s| && s[r.value] == c && c !in s[..r.value]
    decreases |s|
  {
    if s == [] then None
    else if s[0] == c then Some(0)
    else match IndexOf(s[1..], c)
      case None => None
      case Some(i) => assert s[..i + 1] == [s[0]] + s[1..][..i]; Some(i + 1)
  }

  /** The pieces of `[c] + t`, given the pieces `p` of `t`: a separator opens a new first piece. */
  function Cons(c: char, p: seq<string>, d: char): seq<string>
    requires |p| >= 1
  {
    if c == d then [[]] + p else [[c] + p[0]] + p[1..]
  }

  /** The pieces of `t + [c]`, given the pieces `p` of `t`: a separator opens a new last piece. */
  function Snoc(p: seq<string>, c: char, d: char): seq<string>
    requires |p| >= 1
  {
    if c == d then p + [[]] else p[..|p| - 1] + [p[|p| - 1] + [c]]
  }

  /** Python's `s.split(d)`: the pieces between the occurrences of `d`. */
  function Split(s: string, d: char): (r: seq<string>)
    ensures |r| >= 1
    decreases |s|
  {
    if s == [] then [[]] else Cons(s[0], Split(s[1..], d), d)
  }

  /** Python's `d.join(parts)`. */
  function Join(parts: seq<string>, d: char): string
    decreases |parts|
  {
    if parts == [] then []
    else if |parts| == 1 then parts[0]
    else parts[0] + [d] + Join(parts[1..], d)
  }

  /** A piece without separators splits to itself. */
  lemma {:induction false} SplitNoSeparator(s: string, d: char)
    requires d !in s
    ensures Split(s, d) == [s]
    decreases |s|
  {
    if s != [] {
      SplitNoSeparator(s[1..], d);
      assert [s[0]] + s[1..] == s;
    }
  }

  /** Splitting a string with a given first character. */
  lemma SplitFront(c: char, t: string, d: char)
    ensures Split([c] + t, d) == Cons(c, Split(t, d), d)
  {
    assert ([c] + t)[1..] == t;
  }

  /** Prepending a character only touches the first piece. */
  lemma ConsAppend(c: char, x: seq<string>, y: seq<string>, d: char)
    requires |x| >= 1
    ensures Cons(c, x + y, d) == Cons(c, x, d) + y
  {
    if c != d {
      assert (x + y)[0] == x[0];
      assert (x + y)[1..] == x[1..] + y;
    }
  }

  /** Splitting distributes over a separator. */
  lemma {:induction false} SplitAround(a: string, b: string, d: char)
    ensures Split(a + [d] + b, d) == Split(a, d) + Split(b, d)
    decreases |a|
  {
    if a == [] {
      assert a + [d] + b == [d] + b;
      SplitFront(d, b, d);
    } else {
      SplitAround(a[1..], b, d);
      assert a + [d] + b == [a[0]] + (a[1..] + [d] + b);
      SplitFront(a[0], a[1..] + [d] + b, d);
      ConsAppend(a[0], Split(a[1..], d), Split(b, d), d);
    }
  }

  /** Joining the pieces of a split gives the string back. */
  lemma {:induction false} JoinSplit(s: string, d: char)
    ensures Join(Split(s, d), d) == s
    decreases |s|
  {
    if s != [] {
      JoinSplit(s[1..], d);
      var rest := Split(s[1..], d);
      if s[0] == d {
        assert [s[0]] + s[1..] == s;
      } else {
        if |rest| == 1 {
          assert [s[0]] + s[1..] == s;
        } else {
          assert Join(rest, d) == rest[0] + [d] + Join(rest[1..], d);
          assert s == [s[0]] + s[1..];
        }
      }
    }
  }

  /** Splitting a join of separator-free pieces gives the pieces back. */
  lemma {:induction false} SplitJoin(parts: seq<string>, d: char)
    requires |parts| >= 1
    requires forall i :: 0 <= i < |parts| ==> d !in parts[i]
    ensures Split(Join(parts, d), d) == parts
    decreases |parts|
  {
    if |parts| == 1 {
      SplitNoSeparator(parts[0], d);
    } else {
      SplitJoin(parts[1..], d);
      SplitNoSeparator(parts[0], d);
      SplitAround(parts[0], Join(parts[1..], d), d);
      assert [parts[0]] + parts[1..] == parts;
    }
  }

  /** Prepending and appending a character commute on pieces. */
  lemma ConsSnoc(c0: char, p: seq<string>, c: char, d: char)
    requires |p| >= 1
    ensures Cons(c0, Snoc(p, c, d), d) == Snoc(Cons(c0, p, d), c, d)
  {
    var n := |p|;
    if c0 != d && c != d && n > 1 {
      assert Snoc(p, c, d)[1..] == p[1..n - 1] + [p[n - 1] + [c]];
    } else if c0 != d && c != d {
      assert [c0] + (p[0] + [c]) == ([c0] + p[0]) + [c];
    }
  }

  /** Appending one character either opens a new piece (a separator) or extends the last one. */
  lemma {:induction false} SplitSnoc(s: string, c: char, d: char)
    ensures Split(s + [c], d) == Snoc(Split(s, d), c, d)
    decreases |s|
  {
    if s == [] {
      assert s + [c] == [c] + [];
      SplitFront(c, [], d);
    } else {
      SplitSnoc(s[1..], c, d);
      assert s + [c] == [s[0]] + (s[1..] + [c]);
      SplitFront(s[0], s[1..] + [c], d);
      ConsSnoc(s[0], Split(s[1..], d), c, d);
    }
  }

  /** There is one more piece than there are separators. */
  lemma {:induction false} SplitCount(s: string, d: char)
    ensures |Split(s, d)| == multiset(s)[d] + 1
    decreases |s|
  {
    if s != [] {
      SplitCount(s[1..], d);
      assert s == [s[0]] + s[1..];
      assert multiset(s) == multiset{s[0]} + multiset(s[1..]);
    }
  }
}
