/** The POSIX path and string helpers the app relies on: os.path.join with two
    components, os.path.basename, os.path.splitext and str.lower(). */
module Paths {

  /** `c` occurs nowhere in `s` after position `k`. */
  predicate NoneAfter(s: string, c: char, k: int)
  {
    forall j :: k < j < |s| && 0 <= j ==> s[j] != c
  }

  /** A file name as a directory listing gives it: no separator inside. */
  predicate NoSeparator(s: string)
  {
    NoneAfter(s, '/', -1)
  }

  /** Position of the last occurrence of `c` in `s`, or -1 when there is none
      (the `rfind` that posixpath uses to find separators and dots). */
  function LastIndexOf(s: string, c: char): (r: int)
    ensures -1 <= r < |s|
    ensures r >= 0 ==> s[r] == c
    ensures NoneAfter(s, c, r)
  {
    LastIndexBelow(s, c, |s|)
  }

  /** The last occurrence of `c` among the first `n` characters of `s`. */
  function LastIndexBelow(s: string, c: char, n: nat): (r: int)
    requires n <= |s|
    ensures -1 <= r < n
    ensures r >= 0 ==> s[r] == c
    ensures forall j :: r < j < n && 0 <= j ==> s[j] != c
  {
    if n == 0 then -1
    else if s[n - 1] == c then n - 1
    else LastIndexBelow(s, c, n - 1)
  }

  /** An occurrence of `c` with no `c` after it is the one LastIndexOf finds. */
  lemma LastIndexOfUnique(s: string, c: char, k: int)
    requires -1 <= k < |s| && (k >= 0 ==> s[k] == c) && NoneAfter(s, c, k)
    ensures LastIndexOf(s, c) == k
  {
  }

  /** posixpath.join(a, b): an absolute `b` replaces `a`; otherwise a separator
      is inserted unless `a` is empty or already ends with one. */
  function Join(a: string, b: string): (r: string)
    ensures |b| <= |r| && r[|r| - |b|..] == b
  {
    if |b| > 0 && b[0] == '/' then b
    else if |a| == 0 || a[|a| - 1] == '/' then a + b
    else a + "/" + b
  }

  /** posixpath.basename(p): the longest suffix of `p` without a separator. */
  function Basename(p: string): (r: string)
    ensures NoSeparator(r) && |r| <= |p| && p[|p| - |r|..] == r
  {
    p[LastIndexOf(p, '/') + 1..]
  }

  /** The basename is the longest suffix of the path without a separator. */
  lemma BasenameIsLastComponent(p: string)
    ensures var r := Basename(p);
      NoSeparator(r) && |r| <= |p| && p[|p| - |r|..] == r && (|r| < |p| ==> p[|p| - |r| - 1] == '/')
  {
    var k := LastIndexOf(p, '/');
    SuffixFrom(p, k + 1, '/');
  }

  /** Joining a file name (which never holds a separator) onto any directory and
      taking the basename gives the name back. */
  lemma BasenameOfJoin(dir: string, name: string)
    requires NoSeparator(name)
    ensures Basename(Join(dir, name)) == name
  {
    var j := Join(dir, name);
    if |dir| == 0 {
      assert j == name;
      LastIndexOfUnique(j, '/', -1);
    } else if dir[|dir| - 1] == '/' {
      assert j == dir + name;
      assert j[|dir| - 1] == '/' && j[|dir|..] == name;
      LastIndexOfUnique(j, '/', |dir| - 1);
    } else {
      assert j == dir + "/" + name;
      assert j[|dir|] == '/' && j[|dir| + 1..] == name;
      LastIndexOfUnique(j, '/', |dir|);
    }
  }

  /** Distinct file names joined onto one directory give distinct paths. */
  lemma JoinInjective(dir: string, m: string, n: string)
    requires NoSeparator(m) && NoSeparator(n)
    ensures Join(dir, m) == Join(dir, n) <==> m == n
  {
    BasenameOfJoin(dir, m);
    BasenameOfJoin(dir, n);
  }

  /** str.lower() on one character. Only ASCII letters are mapped. */
  function LowerChar(c: char): char
  {
    if IsUpper(c) then (c as int + 32) as char else c
  }

  predicate IsUpper(c: char)
  {
    'A' <= c <= 'Z'
  }

  /** str.lower(): the result holds no upper-case letter, and a string without
      one is its own lower-case form. */
  function Lower(s: string): (r: string)
    ensures |r| == |s|
    ensures forall i :: 0 <= i < |r| ==> !IsUpper(r[i])
    ensures (forall i :: 0 <= i < |s| ==> !IsUpper(s[i])) ==> r == s
  {
    seq(|s|, i requires 0 <= i < |s| => LowerChar(s[i]))
  }

  /** Lower-casing twice is lower-casing once. */
  lemma LowerIdempotent(s: string)
    ensures Lower(Lower(s)) == Lower(s)
  {
  }

  /** Lower-casing moves no separator and no dot. */
  lemma LowerKeepsSeparators(s: string, c: char)
    requires c == '/' || c == '.'
    ensures LastIndexOf(Lower(s), c) == LastIndexOf(s, c)
  {
    LastIndexOfUnique(Lower(s), c, LastIndexOf(s, c));
  }

  lemma BasenameOfLower(p: string)
    ensures Basename(Lower(p)) == Lower(Basename(p))
  {
    LowerKeepsSeparators(p, '/');
  }

  /** Nothing but dots between positions `lo` (included) and `hi` (excluded). */
  predicate OnlyDots(s: string, lo: int, hi: int)
    requires 0 <= lo <= hi <= |s|
  {
    forall i :: lo <= i < hi ==> s[i] == '.'
  }

  /** A suffix starting after the last `c` holds no `c`. */
  lemma SuffixFrom(p: string, k: int, c: char)
    requires 0 <= k <= |p| && NoneAfter(p, c, k - 1)
    ensures NoneAfter(p[k..], c, -1)
  {
    var t := p[k..];
    forall j | 0 <= j < |t| ensures t[j] != c { assert t[j] == p[k + j]; }
  }

  /** What starts at the last dot, when that dot follows the last separator, is
      a dot followed by neither dots nor separators. */
  lemma ExtensionShape(p: string, sep: int, dot: int)
    requires sep == LastIndexOf(p, '/') && dot == LastIndexOf(p, '.') && dot > sep
    ensures var e := p[dot..]; e[0] == '.' && NoneAfter(e, '.', 0) && NoSeparator(e)
  {
    SuffixFrom(p, dot + 1, '.');
    SuffixFrom(p, dot, '/');
    assert p[dot..][1..] == p[dot + 1..];
  }

  /** posixpath.splitext(p): the extension starts at the last dot, provided that
      dot lies in the last path component and something other than a dot comes
      before it in that component; otherwise the extension is empty. */
  function SplitExt(p: string): (r: (string, string))
    ensures r.0 + r.1 == p
    ensures r.1 == [] || (r.1[0] == '.' && NoneAfter(r.1, '.', 0) && NoSeparator(r.1))
  {
    var sep := LastIndexOf(p, '/');
    var dot := LastIndexOf(p, '.');
    if dot > sep && !OnlyDots(p, sep + 1, dot) then
      ExtensionShape(p, sep, dot);
      (p[..dot], p[dot..])
    else (p, [])
  }

  /** The extension depends only on the last path component. */
  lemma SplitExtOfBasename(p: string)
    ensures SplitExt(p).1 == SplitExt(Basename(p)).1
  {
    var sep := LastIndexOf(p, '/');
    var dot := LastIndexOf(p, '.');
    if dot > sep {
      DotInLastComponent(p, sep, dot);
    } else {
      NoDotInLastComponent(p, sep, dot);
    }
  }

  /** SplitExtOfBasename when the last dot lies in the last component. */
  lemma DotInLastComponent(p: string, sep: int, dot: int)
    requires sep == LastIndexOf(p, '/') && dot == LastIndexOf(p, '.') && dot > sep
    ensures SplitExt(p).1 == SplitExt(p[sep + 1..]).1
  {
    var b := p[sep + 1..];
    var d := dot - sep - 1;
    LastComponentIndices(p, sep, dot);
    var stemOnlyDots := OnlyDots(p, sep + 1, dot);
    assert OnlyDots(b, 0, d) == stemOnlyDots by {
      assert forall i :: 0 <= i < d ==> b[i] == p[sep + 1 + i];
    }
    if stemOnlyDots {
      assert SplitExt(p).1 == [];
      assert SplitExt(b).1 == [];
    } else {
      assert SplitExt(p).1 == p[dot..];
      assert SplitExt(b).1 == b[d..];
      assert b[d..] == p[dot..];
    }
  }

  /** Where the separator and the dot are, counted within the last component. */
  lemma LastComponentIndices(p: string, sep: int, dot: int)
    requires sep == LastIndexOf(p, '/') && dot == LastIndexOf(p, '.') && dot > sep
    ensures LastIndexOf(p[sep + 1..], '/') == -1
    ensures LastIndexOf(p[sep + 1..], '.') == dot - sep - 1
  {
    var b := p[sep + 1..];
    var d := dot - sep - 1;
    SuffixFrom(p, sep + 1, '/');
    LastIndexOfUnique(b, '/', -1);
    assert b[d] == '.';
    assert NoneAfter(b, '.', d) by {
      forall j | d < j < |b| ensures b[j] != '.' { assert b[j] == p[sep + 1 + j]; }
    }
    LastIndexOfUnique(b, '.', d);
  }

  /** SplitExtOfBasename when the last component holds no dot. */
  lemma NoDotInLastComponent(p: string, sep: int, dot: int)
    requires sep == LastIndexOf(p, '/') && dot == LastIndexOf(p, '.') && dot <= sep
    ensures SplitExt(p).1 == SplitExt(p[sep + 1..]).1
  {
    var b := p[sep + 1..];
    SuffixFrom(p, sep + 1, '/');
    LastIndexOfUnique(b, '/', -1);
    assert NoneAfter(b, '.', -1) by {
      forall j | 0 <= j < |b| ensures b[j] != '.' { assert b[j] == p[sep + 1 + j]; }
    }
    LastIndexOfUnique(b, '.', -1);
  }

  /** For a name without separators that ends with a dot followed by no further
      dot, splitext picks exactly that suffix, unless only dots come before it. */
  lemma SplitExtOfDottedSuffix(name: string, e: string)
    requires NoSeparator(name)
    requires |e| <= |name| && name[|name| - |e|..] == e
    requires |e| >= 1 && e[0] == '.' && NoneAfter(e, '.', 0)
    ensures SplitExt(name).1 == if OnlyDots(name, 0, |name| - |e|) then [] else e
  {
    var k := |name| - |e|;
    assert NoneAfter(name, '.', k) by {
      forall j | k < j < |name| ensures name[j] != '.' {
        assert name[j] == e[j - k];
      }
    }
    LastIndexOfUnique(name, '.', k);
    LastIndexOfUnique(name, '/', -1);
  }
}
