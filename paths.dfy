/** The string operations the tree builder and the bare-archive export apply
    to entry names: Python's `str.strip("/")`, `str.split("/")` and
    `"/".join(...)`. */
module Paths {

  const Slash: char := '/'

  /** Every character of `s` is a separator. */
  predicate AllSlashes(s: string)
  {
    forall k :: 0 <= k < |s| ==> s[k] == Slash
  }

  /** `s` with its leading separators removed. */
  function StripLeft(s: string): (r: string)
    ensures |r| <= |s| && r == s[|s| - |r|..]
    ensures AllSlashes(s[..|s| - |r|])
    ensures r == [] || r[0] != Slash
  {
    if s != [] && s[0] == Slash then
      var r := StripLeft(s[1..]);
      LeadingSlash(s, r);
      r
    else s
  }

  /** A suffix of `s[1..]` preceded there by separators only is preceded by
      separators only in `s` too, when `s` starts with one. */
  lemma LeadingSlash(s: string, r: string)
    requires s != [] && s[0] == Slash
    requires |r| <= |s| - 1 && r == s[1..][|s| - 1 - |r|..]
    requires AllSlashes(s[1..][..|s| - 1 - |r|])
    ensures r == s[|s| - |r|..] && AllSlashes(s[..|s| - |r|])
  {
    var n := |s| - |r|;
    assert s[..n] == [s[0]] + s[1..][..n - 1];
  }

  /** `s` with its trailing separators removed. */
  function StripRight(s: string): (r: string)
    ensures |r| <= |s| && r == s[..|r|]
    ensures AllSlashes(s[|r|..])
    ensures r == [] || r[|r| - 1] != Slash
  {
    if s != [] && s[|s| - 1] == Slash then StripRight(s[..|s| - 1]) else s
  }

  /** Python's `s.strip("/")`: what remains of `s` once every leading and
      every trailing separator is removed. */
  function Strip(s: string): string
  {
    StripRight(StripLeft(s))
  }

  /** Slicing a suffix is slicing the whole. */
  lemma SuffixSlices(s: string, i: nat, n: nat)
    requires i + n <= |s|
    ensures s[i..][..n] == s[i..i + n]
    ensures s[i..][n..] == s[i + n..]
  {
  }

  /** Where Strip's result starts in `s`. */
  function StripStart(s: string): nat
  {
    |s| - |StripLeft(s)|
  }

  /** Strip's result neither begins nor ends with a separator. */
  lemma StripEnds(s: string)
    ensures Strip(s) == [] || (Strip(s)[0] != Slash && Strip(s)[|Strip(s)| - 1] != Slash)
  {
    var l := StripLeft(s);
    var r := StripRight(l);
    if r != [] {
      assert r[0] == l[0];
    }
  }

  /** Strip's result is the slice of `s` from StripStart on. */
  lemma StripSlice(s: string)
    ensures StripStart(s) + |Strip(s)| <= |s|
    ensures Strip(s) == s[StripStart(s)..StripStart(s) + |Strip(s)|]
  {
    SuffixSlices(s, StripStart(s), |Strip(s)|);
  }

  /** What Strip cuts away on either side is separators. */
  lemma StripCuts(s: string)
    ensures StripStart(s) + |Strip(s)| <= |s|
    ensures AllSlashes(s[..StripStart(s)]) && AllSlashes(s[StripStart(s) + |Strip(s)|..])
  {
    SuffixSlices(s, StripStart(s), |Strip(s)|);
  }

  /** Strip removes separators only, and only at the two ends: its result
      is a slice of `s` that neither begins nor ends with a separator and
      everything cut away on either side is separators. */
  lemma StripSpec(s: string) returns (i: nat)
    ensures Strip(s) == [] || (Strip(s)[0] != Slash && Strip(s)[|Strip(s)| - 1] != Slash)
    ensures i + |Strip(s)| <= |s| && Strip(s) == s[i..i + |Strip(s)|]
    ensures AllSlashes(s[..i]) && AllSlashes(s[i + |Strip(s)|..])
  {
    i := StripStart(s);
    StripEnds(s);
    StripSlice(s);
    StripCuts(s);
  }

  /** Python's `s.split("/")`: the pieces between separators, in order;
      never an empty list, and "" splits into [""]. */
  function Split(s: string): (r: seq<string>)
    ensures |r| >= 1
    ensures forall k :: 0 <= k < |r| ==> Slash !in r[k]
  {
    if s == [] then [[]]
    else
      var rest := Split(s[1..]);
      if s[0] == Slash then [[]] + rest
      else [[s[0]] + rest[0]] + rest[1..]
  }

  /** Python's `"/".join(ps)`. */
  function Join(ps: seq<string>): string
  {
    if ps == [] then []
    else if |ps| == 1 then ps[0]
    else ps[0] + [Slash] + Join(ps[1..])
  }

  /** Joining the pieces of a split gives back the original string. */
  lemma {:induction false} JoinSplit(s: string)
    ensures Join(Split(s)) == s
  {
    if s != [] {
      var rest := Split(s[1..]);
      JoinSplit(s[1..]);
      if s[0] == Slash {
        assert ([[]] + rest)[1..] == rest;
      } else if |rest| > 1 {
        assert ([[s[0]] + rest[0]] + rest[1..])[1..] == rest[1..];
      }
    }
  }

  /** A string without separators splits into itself. */
  lemma {:induction false} SplitNoSlash(s: string)
    requires Slash !in s
    ensures Split(s) == [s]
  {
    if s != [] {
      SplitNoSlash(s[1..]);
      assert s[0] != Slash && [s[0]] + s[1..] == s;
    }
  }

  /** A separator-free head followed by a separator splits off as one piece. */
  lemma {:induction false} SplitCons(a: string, b: string)
    requires Slash !in a
    ensures Split(a + [Slash] + b) == [a] + Split(b)
  {
    var s := a + [Slash] + b;
    if a == [] {
      assert s[1..] == b;
    } else {
      assert s[1..] == a[1..] + [Slash] + b;
      SplitCons(a[1..], b);
      assert [s[0]] + a[1..] == a;
    }
  }

  /** Splitting a join of separator-free pieces gives back the pieces. */
  lemma {:induction false} SplitJoin(ps: seq<string>)
    requires |ps| >= 1
    requires forall k :: 0 <= k < |ps| ==> Slash !in ps[k]
    ensures Split(Join(ps)) == ps
  {
    if |ps| == 1 {
      SplitNoSlash(ps[0]);
    } else {
      SplitJoin(ps[1..]);
      SplitCons(ps[0], Join(ps[1..]));
      assert [ps[0]] + ps[1..] == ps;
    }
  }

  /** The result of Strip is a fixed point of Strip. */
  lemma StripIdempotent(s: string)
    ensures Strip(Strip(s)) == Strip(s)
  {
    var r := Strip(s);
    if r != [] {
      assert StripLeft(r) == r;
      assert StripRight(r) == r;
    }
  }

  /** A segment as the tree builder produces it from a well-behaved name:
      not empty, without separators, and not "." or "..", which a file
      system would resolve to the current or the parent directory. */
  predicate Plain(seg: string)
  {
    seg != [] && Slash !in seg && seg != "." && seg != ".."
  }

  /** Python's `os.path.join(a, b)` on POSIX: an absolute `b` replaces
      `a`; otherwise a separator goes between them unless `a` is empty or
      already ends with one. */
  function PathJoin(a: string, b: string): string
  {
    if b != [] && b[0] == Slash then b
    else if a == [] || a[|a| - 1] == Slash then a + b
    else a + [Slash] + b
  }

  /** Python's `os.path.join(a, *ps)`: the segments joined on one at a
      time, from the left. */
  function JoinAll(a: string, ps: seq<string>): string
    decreases |ps|
  {
    if ps == [] then a else JoinAll(PathJoin(a, ps[0]), ps[1..])
  }

  /** `a` followed by a separator, unless it is empty or has one already. */
  function DirPrefix(a: string): (r: string)
    ensures r == [] || r[|r| - 1] == Slash
  {
    if a == [] || a[|a| - 1] == Slash then a else a + [Slash]
  }

  /** Joining plain segments onto a directory is that directory's prefix
      followed by the segments joined with separators. */
  lemma {:induction false} JoinAllPlain(a: string, ps: seq<string>)
    requires |ps| >= 1
    requires forall k :: 0 <= k < |ps| ==> Plain(ps[k])
    ensures JoinAll(a, ps) == DirPrefix(a) + Join(ps)
    decreases |ps|
  {
    var x := ps[0];
    assert x != [] && x[0] != Slash;
    var b := PathJoin(a, x);
    assert b == DirPrefix(a) + x;
    if |ps| > 1 {
      assert b != [] && b[|b| - 1] == x[|x| - 1] != Slash;
      JoinAllPlain(b, ps[1..]);
      assert DirPrefix(b) == b + [Slash];
    }
  }

  /** Two different lists of plain segments never join to the same path
      below one directory. */
  lemma JoinAllInjective(a: string, ps: seq<string>, qs: seq<string>)
    requires |ps| >= 1 && |qs| >= 1
    requires forall k :: 0 <= k < |ps| ==> Plain(ps[k])
    requires forall k :: 0 <= k < |qs| ==> Plain(qs[k])
    requires JoinAll(a, ps) == JoinAll(a, qs)
    ensures ps == qs
  {
    JoinAllPlain(a, ps);
    JoinAllPlain(a, qs);
    var d := DirPrefix(a);
    assert Join(ps) == (d + Join(ps))[|d|..] == (d + Join(qs))[|d|..] == Join(qs);
    SplitJoin(ps);
    SplitJoin(qs);
  }

  /** A join of plain segments is not empty and neither starts nor ends
      with a separator. */
  lemma {:induction false} JoinPlainEnds(ps: seq<string>)
    requires |ps| >= 1
    requires forall k :: 0 <= k < |ps| ==> Plain(ps[k])
    ensures Join(ps) != [] && Join(ps)[0] != Slash && Join(ps)[|Join(ps)| - 1] != Slash
    decreases |ps|
  {
    var x := ps[0];
    assert x[0] in x && x[|x| - 1] in x;
    if |ps| > 1 {
      JoinPlainEnds(ps[1..]);
      var rest := Join(ps[1..]);
      assert Join(ps) == x + [Slash] + rest;
      assert Join(ps)[|Join(ps)| - 1] == rest[|rest| - 1];
    }
  }

  /** A string that neither begins nor ends with a separator is its own
      strip. */
  lemma StripUnframed(j: string)
    requires j != [] && j[0] != Slash && j[|j| - 1] != Slash
    ensures Strip(j) == j
  {
    assert StripLeft(j) == j;
  }

  /** One separator appended to such a string is stripped off again. */
  lemma StripUnframedSlash(j: string)
    requires j != [] && j[0] != Slash && j[|j| - 1] != Slash
    ensures Strip(j + [Slash]) == j
  {
    var d := j + [Slash];
    assert d[0] == j[0];
    assert StripLeft(d) == d;
    assert d[..|d| - 1] == j;
    assert StripRight(d) == StripRight(j);
  }

  /** Stripping a join of plain segments, with or without one separator
      appended, gives the join back. */
  lemma StripJoin(ps: seq<string>)
    requires |ps| >= 1
    requires forall k :: 0 <= k < |ps| ==> Plain(ps[k])
    ensures Strip(Join(ps)) == Join(ps)
    ensures Strip(Join(ps) + [Slash]) == Join(ps)
  {
    JoinPlainEnds(ps);
    StripUnframed(Join(ps));
    StripUnframedSlash(Join(ps));
  }
}
