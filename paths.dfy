/** POSIX path helpers the import relies on: the suffix test, os.path.splitext
    and os.path.join. */
module Paths {

  predicate EndsWith(s: string, suffix: string) {
    |suffix| <= |s| && s[|s| - |suffix|..] == suffix
  }

  /** A string with no character `c`. */
  predicate Free(s: string, c: char) {
    forall i :: 0 <= i < |s| ==> s[i] != c
  }

  /** The index of the last `c` in `s`, or -1. */
  function LastIndex(s: string, c: char): (i: int)
    ensures -1 <= i < |s|
    ensures i >= 0 ==> s[i] == c
    ensures forall j :: i < j < |s| ==> s[j] != c
    decreases |s|
  {
    if s == [] then -1
    else if s[|s| - 1] == c then |s| - 1
    else LastIndex(s[..|s| - 1], c)
  }

  /** Positions lo .. hi - 1 of `p` all hold a dot. */
  predicate OnlyDots(p: string, lo: int, hi: int)
    requires 0 <= lo <= hi <= |p|
  {
    forall i :: lo <= i < hi ==> p[i] == '.'
  }

  /** os.path.splitext on a POSIX path: the extension starts at the last dot
      of the last path component, unless only dots precede it there. The
      extension is empty or a dot followed by no dot and no slash; it is
      non-empty exactly when the last component has a dot with some other
      character before it. */
  function SplitExt(p: string): (parts: (string, string))
    ensures parts.0 + parts.1 == p
    ensures parts.1 != [] ==> p[|parts.0|] == '.'
    ensures forall i :: |parts.0| < i < |p| ==> p[i] != '.' && p[i] != '/'
    ensures parts.1 != [] ==>
      LastIndex(p, '/') < |parts.0| && !OnlyDots(p, LastIndex(p, '/') + 1, |parts.0|)
    ensures parts.1 == [] ==>
      forall j :: LastIndex(p, '/') < j < |p| && p[j] == '.' ==> OnlyDots(p, LastIndex(p, '/') + 1, j)
  {
    var sep := LastIndex(p, '/');
    var dot := LastIndex(p, '.');
    if dot > sep && !OnlyDots(p, sep + 1, dot) then
      assert p[..dot] + p[dot..] == p;
      (p[..dot], p[dot..])
    else
      assert dot > sep ==> OnlyDots(p, sep + 1, dot);
      (p, "")
  }

  /** A file name whose stem has no slash and is not all dots keeps ".xlsx"
      as its extension, whatever directory `head` precedes it. */
  lemma SplitExtXlsx(head: string, stem: string)
    requires Free(stem, '/')
    requires exists i :: 0 <= i < |stem| && stem[i] != '.'
    ensures SplitExt(head + stem + ".xlsx") == (head + stem, ".xlsx")
  {
    var p := head + stem + ".xlsx";
    var n := |head| + |stem|;
    assert p[n] == '.';
    assert forall j :: n < j < |p| ==> p[j] != '.';
    assert LastIndex(p, '.') == n;
    var sep := LastIndex(p, '/');
    assert forall j :: |head| <= j < n ==> p[j] == stem[j - |head|];
    assert sep < |head|;
    var i :| 0 <= i < |stem| && stem[i] != '.';
    assert p[|head| + i] != '.';
    assert !OnlyDots(p, sep + 1, n);
    assert p[..n] == head + stem && p[n..] == ".xlsx";
  }

  /** A path without any dot has no extension. */
  lemma SplitExtNoDot(p: string)
    requires Free(p, '.')
    ensures SplitExt(p) == (p, "")
  {
    assert LastIndex(p, '.') == -1 by {
      assert forall i :: 0 <= i < |p| ==> p[i] != '.';
    }
  }

  /** os.path.join(dir, name): an absolute name replaces the folder. */
  function Join(dir: string, name: string): (path: string)
    ensures |name| > 0 && name[0] == '/' ==> path == name
    ensures !(|name| > 0 && name[0] == '/') ==> path == dir + "/" + name && EndsWith(path, name)
  {
    if |name| > 0 && name[0] == '/' then name
    else
      assert (dir + "/" + name)[|dir| + 1..] == name;
      dir + "/" + name
  }
}
