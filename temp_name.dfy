/** Where a double-clicked file is downloaded to: its name in the temporary
    directory or, when that path exists already, the first of `base_1ext`,
    `base_2ext`, ... that does not, `base` and `ext` coming from splitting
    the original path at its extension. */
module TempName {
  import opened Paths

  const Dot: char := '.'

  /** No character of `s` is `c`. */
  predicate Lacks(s: string, c: char)
  {
    forall j :: 0 <= j < |s| ==> s[j] != c
  }

  /** `str.rfind`: the index of the last `c` in `s`, or -1 when there is none. */
  function LastIndexOf(s: string, c: char): (r: int)
    ensures -1 <= r < |s|
    ensures r >= 0 ==> s[r] == c
    ensures forall j :: r < j < |s| ==> s[j] != c
  {
    if s == [] then -1
    else if s[|s| - 1] == c then |s| - 1
    else
      var init := s[..|s| - 1];
      assert forall j :: 0 <= j < |init| ==> init[j] == s[j];
      LastIndexOf(init, c)
  }

  /** An occurrence of `c` with no `c` after it is the one `LastIndexOf` finds. */
  lemma LastIndexUnique(s: string, c: char, r: nat)
    requires r < |s| && s[r] == c
    requires forall j :: r < j < |s| ==> s[j] != c
    ensures LastIndexOf(s, c) == r
  {
  }

  /** Characters appended after the last `c` do not move it. */
  lemma LastIndexOfAppend(x: string, y: string, c: char)
    requires Lacks(y, c)
    ensures LastIndexOf(x + y, c) == LastIndexOf(x, c)
  {
    var q := LastIndexOf(x, c);
    var xy := x + y;
    forall j | q < j < |xy|
      ensures xy[j] != c
    {
      if j < |x| {
        assert xy[j] == x[j];
      } else {
        assert xy[j] == y[j - |x|];
      }
    }
    if q >= 0 {
      assert xy[q] == x[q];
      LastIndexUnique(xy, c, q);
    }
  }

  /** Cutting `p` after its last `c` does not move that `c`. */
  lemma LastIndexOfPrefix(p: string, c: char, n: nat)
    requires LastIndexOf(p, c) < n <= |p|
    ensures LastIndexOf(p[..n], c) == LastIndexOf(p, c)
  {
    var q := LastIndexOf(p, c);
    var pre := p[..n];
    forall j | q < j < n
      ensures pre[j] != c
    {
      assert pre[j] == p[j];
    }
    if q >= 0 {
      assert pre[q] == p[q];
      LastIndexUnique(pre, c, q);
    }
  }

  /** `e` is what `os.path.splitext` takes off `b + e` as the extension:
      a dot followed by neither a separator nor another dot, placed after a
      file name in `b` that is not made of dots alone. */
  predicate IsExtension(b: string, e: string)
  {
    && e != [] && e[0] == Dot && Lacks(e, Slash) && Lacks(e[1..], Dot)
    && exists i :: LastIndexOf(b, Slash) < i < |b| && b[i] != Dot
  }

  /** A string is its part before `n` followed by its part from `n` on. */
  lemma TakeDrop(p: string, n: nat)
    requires n <= |p|
    ensures p[..n] + p[n..] == p
  {
  }

  /** When the last dot comes after the last separator and after some
      character of the file name that is not a dot, the dot starts an
      extension. */
  lemma ExtensionAt(p: string, dot: nat)
    requires dot < |p| && p[dot] == Dot
    requires forall j :: dot < j < |p| ==> p[j] != Dot
    requires LastIndexOf(p, Slash) < dot
    requires exists i :: LastIndexOf(p, Slash) < i < dot && p[i] != Dot
    ensures IsExtension(p[..dot], p[dot..])
  {
    var b, e := p[..dot], p[dot..];
    LastIndexOfPrefix(p, Slash, dot);
    forall j | 0 <= j < |e|
      ensures e[j] != Slash && (j > 0 ==> e[j] != Dot)
    {
      assert e[j] == p[dot + j];
    }
    var e' := e[1..];
    forall j | 0 <= j < |e'|
      ensures e'[j] != Dot
    {
      assert e'[j] == e[j + 1];
    }
    var i :| LastIndexOf(p, Slash) < i < dot && p[i] != Dot;
    assert b[i] == p[i];
  }

  /** `os.path.splitext` on POSIX: the path split into a root and an
      extension, the extension empty when there is none. */
  function SplitExt(p: string): (r: (string, string))
    ensures r.0 + r.1 == p
    ensures r.1 != [] ==> IsExtension(r.0, r.1)
  {
    var sep := LastIndexOf(p, Slash);
    var dot := LastIndexOf(p, Dot);
    if dot > sep && exists i :: sep + 1 <= i < dot && p[i] != Dot then
      ExtensionAt(p, dot);
      TakeDrop(p, dot);
      (p[..dot], p[dot..])
    else
      (p, [])
  }

  /** Whenever `e` is an extension of `b`, `os.path.splitext(b + e)` gives
      `(b, e)` back; so an empty extension means the path has none. */
  lemma SplitExtFinds(b: string, e: string)
    requires IsExtension(b, e)
    ensures SplitExt(b + e) == (b, e)
  {
    var p := b + e;
    forall j | |b| < j < |p|
      ensures p[j] != Dot
    {
      assert p[j] == e[j - |b|] == e[1..][j - |b| - 1];
    }
    assert p[|b|] == e[0];
    LastIndexUnique(p, Dot, |b|);
    LastIndexOfAppend(b, e, Slash);
    var i :| LastIndexOf(b, Slash) < i < |b| && b[i] != Dot;
    assert p[i] == b[i];
    assert p[..|b|] == b && p[|b|..] == e;
  }

  /** The digit character for `d`. */
  function Digit(d: nat): char
    requires d < 10
  {
    ('0' as int + d) as char
  }

  predicate IsDigit(c: char)
  {
    '0' as int <= c as int <= '9' as int
  }

  /** `str(k)` for a natural number: its decimal digits, most significant
      first, with no leading zero. */
  function Decimal(k: nat): (r: string)
    ensures r != [] && forall i :: 0 <= i < |r| ==> IsDigit(r[i])
    ensures k > 0 ==> r[0] != '0'
  {
    if k < 10 then [Digit(k)] else Decimal(k / 10) + [Digit(k % 10)]
  }

  /** The number a string of decimal digits denotes. */
  function DecimalValue(s: string): nat
    requires forall i :: 0 <= i < |s| ==> IsDigit(s[i])
  {
    if s == [] then 0
    else
      assert IsDigit(s[|s| - 1]);
      DecimalValue(s[..|s| - 1]) * 10 + (s[|s| - 1] as int - '0' as int)
  }

  /** Reading `str(k)` back gives `k`, so different numbers are written
      differently. */
  lemma {:induction false} DecimalRoundTrip(k: nat)
    ensures DecimalValue(Decimal(k)) == k
  {
    if k >= 10 {
      DecimalRoundTrip(k / 10);
      var s := Decimal(k);
      assert s[..|s| - 1] == Decimal(k / 10);
    }
  }

  /** `f"{base}_{count}{ext}"`. */
  function Candidate(base: string, ext: string, count: nat): string
  {
    base + "_" + Decimal(count) + ext
  }

  /** The path tried at attempt `i`: the original path first, then the
      candidates numbered from 1, all built from the original's root and
      extension. */
  function Attempt(path: string, i: nat): string
  {
    var (base, ext) := SplitExt(path);
    if i == 0 then path else Candidate(base, ext, i)
  }

  /** A numbered candidate keeps the original extension: splitting it again
      gives the original root with the suffix, and the same extension. */
  lemma CandidateKeepsExtension(path: string, count: nat)
    requires SplitExt(path).1 != []
    ensures SplitExt(Attempt(path, count + 1)) == (SplitExt(path).0 + "_" + Decimal(count + 1), SplitExt(path).1)
  {
    var (base, ext) := SplitExt(path);
    var d := Decimal(count + 1);
    var suffix := "_" + d;
    forall j | 0 <= j < |suffix|
      ensures suffix[j] != Slash
    {
      if j > 0 {
        assert suffix[j] == d[j - 1];
      }
    }
    var b := base + suffix;
    LastIndexOfAppend(base, suffix, Slash);
    assert base + "_" + d == b;
    assert b[|base|] == '_';
    assert IsExtension(b, ext);
    SplitExtFinds(b, ext);
  }

  /** Where the number sits in a candidate. */
  lemma CandidateParts(base: string, ext: string, k: nat)
    ensures |Candidate(base, ext, k)| == |base| + 1 + |Decimal(k)| + |ext|
    ensures Candidate(base, ext, k)[|base| + 1..|base| + 1 + |Decimal(k)|] == Decimal(k)
  {
    var c := Candidate(base, ext, k);
    assert c == base + ("_" + Decimal(k)) + ext;
  }

  /** No two attempts are the same path. */
  lemma AttemptsDistinct(path: string, i: nat, j: nat)
    requires i != j
    ensures Attempt(path, i) != Attempt(path, j)
  {
    var (base, ext) := SplitExt(path);
    if i > 0 && j > 0 {
      CandidateParts(base, ext, i);
      CandidateParts(base, ext, j);
      if Candidate(base, ext, i) == Candidate(base, ext, j) {
        DecimalRoundTrip(i);
        DecimalRoundTrip(j);
      }
    } else if i > 0 {
      CandidateParts(base, ext, i);
    } else {
      CandidateParts(base, ext, j);
    }
  }

  /** A sequence of different paths all in `taken` is no longer than
      `taken` is large. */
  lemma {:induction false} DistinctWithin(s: seq<string>, taken: set<string>)
    requires forall i, j :: 0 <= i < j < |s| ==> s[i] != s[j]
    requires forall i :: 0 <= i < |s| ==> s[i] in taken
    ensures |s| <= |taken|
    decreases |s|
  {
    if |s| > 0 {
      var last := s[|s| - 1];
      DistinctWithin(s[..|s| - 1], taken - {last});
    }
  }

  /** When the first `n` attempts are all taken, at least `n` paths are. */
  lemma AttemptsTaken(path: string, n: nat, taken: set<string>)
    requires forall i :: 0 <= i < n ==> Attempt(path, i) in taken
    ensures n <= |taken|
  {
    var s := seq(n, i requires 0 <= i => Attempt(path, i));
    forall i, j | 0 <= i < j < n
      ensures s[i] != s[j]
    {
      AttemptsDistinct(path, i, j);
    }
    DistinctWithin(s, taken);
  }

  /** The naming loop of the double-click download: `taken` is the set of
      paths that exist. The result is free; it is the first free attempt, so
      the file's own name is kept whenever that is free. */
  method UniqueTempPath(taken: set<string>, tempDir: string, name: string) returns (path: string)
    ensures path !in taken
    ensures exists n: nat :: path == Attempt(PathJoin(tempDir, name), n)
                          && forall i :: 0 <= i < n ==> Attempt(PathJoin(tempDir, name), i) in taken
    ensures path == PathJoin(tempDir, name) <==> PathJoin(tempDir, name) !in taken
  {
    path := PathJoin(tempDir, name);
    ghost var original := path;
    var (base, ext) := SplitExt(path);
    var count := 1;
    while path in taken
      invariant count >= 1 && count - 1 <= |taken|
      invariant path == Attempt(original, count - 1)
      invariant forall i :: 0 <= i < count - 1 ==> Attempt(original, i) in taken
      decreases |taken| + 1 - count
    {
      AttemptsTaken(original, count, taken);
      path := base + "_" + Decimal(count) + ext;
      count := count + 1;
    }
    if count > 1 {
      AttemptsDistinct(original, 0, count - 1);
    }
  }
}
