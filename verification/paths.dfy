/** POSIX path helpers used by the aggregator: `os.path.join` and `os.path.splitext`. */
module Paths {

  /** The index of the last `c` in `s`, or -1 (Python's `str.rfind`). */
  function LastIndexOf(s: string, c: char): (r: int)
    ensures -1 <= r < |s|
    ensures r >= 0 ==> s[r] == c
    ensures forall i :: r < i < |s| ==> s[i] != c
  {
    if |s| == 0 then -1
    else if s[|s| - 1] == c then |s| - 1
    else LastIndexOf(s[..|s| - 1], c)
  }

  /** The postcondition of `LastIndexOf` pins its result down. */
  lemma LastIndexOfUnique(s: string, c: char, k: int)
    requires -1 <= k < |s|
    requires k >= 0 ==> s[k] == c
    requires forall i :: k < i < |s| ==> s[i] != c
    ensures LastIndexOf(s, c) == k
  {
  }

  /** The last occurrence of `c` in `a + b` lies in `b` when `b` has one, else in `a`. */
  lemma LastIndexOfConcat(a: string, b: string, c: char)
    ensures LastIndexOf(a + b, c) ==
            if LastIndexOf(b, c) >= 0 then |a| + LastIndexOf(b, c) else LastIndexOf(a, c)
  {
    var rb := LastIndexOf(b, c);
    var ra := LastIndexOf(a, c);
    var k := if rb >= 0 then |a| + rb else ra;
    forall i | k < i < |a + b| ensures (a + b)[i] != c {
      if i >= |a| {
        assert (a + b)[i] == b[i - |a|];
      } else {
        assert (a + b)[i] == a[i];
      }
    }
    LastIndexOfUnique(a + b, c, k);
  }

  /** Whether `p[lo..hi]` holds a character other than '.'. */
  predicate HasNonDot(p: string, lo: int, hi: int)
    requires 0 <= lo && hi <= |p|
  {
    exists i :: lo <= i < hi && p[i] != '.'
  }

  /**
    Where `os.path.splitext(p)` cuts `p`: at the last '.' of the last path
    component, unless everything before that '.' in the component is dots; at
    the end of `p` when there is no such '.'.
   */
  function ExtStart(p: string): (e: nat)
    ensures e <= |p|
  {
    var sep := LastIndexOf(p, '/');
    var dot := LastIndexOf(p, '.');
    if dot > sep && HasNonDot(p, sep + 1, dot) then dot else |p|
  }

  /** `os.path.splitext(p)`: the root and the extension. */
  function SplitExt(p: string): (r: (string, string))
    ensures r.0 + r.1 == p
    ensures r.1 == [] || (r.1[0] == '.' && forall i :: 0 < i < |r.1| ==> r.1[i] != '.' && r.1[i] != '/')
    ensures |r.1| > 0 ==> HasNonDot(p, LastIndexOf(p, '/') + 1, |r.0|)
    ensures |r.1| == 0 ==>
              forall j :: LastIndexOf(p, '/') < j < |p| && p[j] == '.' ==> !HasNonDot(p, LastIndexOf(p, '/') + 1, j)
  {
    var e := ExtStart(p);
    assert p[..e] + p[e..] == p;
    (p[..e], p[e..])
  }

  /** `os.path.join(dir, name)` for POSIX paths. */
  function PathJoin(dir: string, name: string): string {
    JoinPrefix(dir, name) + name
  }

  /**
    A joined path ends with the name; an absolute name replaces the directory;
    otherwise the path is the directory, a separator when the directory is not
    empty and does not already end with one, and the name.
   */
  lemma PathJoinShape(dir: string, name: string)
    ensures var path := PathJoin(dir, name);
            && |path| >= |name| && path[|path| - |name|..] == name
            && (|name| > 0 && name[0] == '/' ==> path == name)
            && ((|name| == 0 || name[0] != '/') ==> |path| >= |dir| && path[..|dir|] == dir)
            && ((|name| == 0 || name[0] != '/') && |dir| > 0 ==> |path| > |name| && path[|path| - |name| - 1] == '/')
            && ((|name| == 0 || name[0] != '/') ==>
                  |path| == |dir| + |name| + (if |dir| > 0 && dir[|dir| - 1] != '/' then 1 else 0))
  {
    var pre := JoinPrefix(dir, name);
    assert (pre + name)[|pre|..] == name;
    if |name| == 0 || name[0] != '/' {
      assert pre[..|dir|] == dir;
      assert (pre + name)[..|dir|] == pre[..|dir|];
    } else {
      assert pre + name == name;
    }
  }

  /** What `os.path.join` puts in front of `name`: nothing, `dir`, or `dir + "/"`. */
  function JoinPrefix(dir: string, name: string): (pre: string)
    ensures pre == [] || pre[|pre| - 1] == '/'
  {
    if |name| > 0 && name[0] == '/' then []
    else if |dir| == 0 || dir[|dir| - 1] == '/' then dir
    else dir + "/"
  }

  /** The last separator of a joined path is the last separator of the name, shifted. */
  lemma SepOfJoin(pre: string, name: string)
    requires pre == [] || pre[|pre| - 1] == '/'
    ensures LastIndexOf(pre + name, '/') == |pre| + LastIndexOf(name, '/')
  {
    LastIndexOfConcat(pre, name, '/');
    if |pre| > 0 {
      LastIndexOfUnique(pre, '/', |pre| - 1);
    }
  }

  /** A dot-free name gives a joined path whose last dot precedes its last separator. */
  lemma DotBeforeSep(pre: string, name: string)
    requires pre == [] || pre[|pre| - 1] == '/'
    requires LastIndexOf(name, '.') < 0
    ensures LastIndexOf(pre + name, '.') <= LastIndexOf(pre + name, '/')
  {
    LastIndexOfConcat(pre, name, '.');
    SepOfJoin(pre, name);
  }

  lemma HasNonDotShift(pre: string, name: string, lo: int, hi: int)
    requires 0 <= lo && hi <= |name|
    ensures HasNonDot(pre + name, |pre| + lo, |pre| + hi) <==> HasNonDot(name, lo, hi)
  {
    var p := pre + name;
    if HasNonDot(p, |pre| + lo, |pre| + hi) {
      var i :| |pre| + lo <= i < |pre| + hi && p[i] != '.';
      assert name[i - |pre|] == p[i];
    }
    if HasNonDot(name, lo, hi) {
      var i :| lo <= i < hi && name[i] != '.';
      assert p[i + |pre|] == name[i];
    }
  }

  /** The extension of a joined path is the extension of the name joined on. */
  lemma ExtOfJoin(dir: string, name: string)
    ensures SplitExt(PathJoin(dir, name)).1 == SplitExt(name).1
  {
    var pre := JoinPrefix(dir, name);
    ExtStartOfJoin(pre, name);
    var e := ExtStart(name);
    assert (pre + name)[|pre| + e..] == name[e..];
  }

  /** Joining shifts the cut point of `splitext` by the length of what was put in front. */
  lemma ExtStartOfJoin(pre: string, name: string)
    requires pre == [] || pre[|pre| - 1] == '/'
    ensures ExtStart(pre + name) == |pre| + ExtStart(name)
  {
    SepOfJoin(pre, name);
    LastIndexOfConcat(pre, name, '.');
    var nsep, ndot := LastIndexOf(name, '/'), LastIndexOf(name, '.');
    if ndot > nsep {
      HasNonDotShift(pre, name, nsep + 1, ndot);
    } else if ndot < 0 {
      DotBeforeSep(pre, name);
    }
  }

  /** `ext.lstrip('.')`. */
  function LStripDots(s: string): (r: string)
    ensures |r| > 0 ==> r[0] != '.'
    ensures |r| <= |s| && r == s[|s| - |r|..]
    ensures forall i :: 0 <= i < |s| - |r| ==> s[i] == '.'
  {
    if |s| > 0 && s[0] == '.' then LStripDots(s[1..]) else s
  }

  /** An extension with a single leading dot loses exactly that dot. */
  lemma LStripOneDot(x: string)
    requires |x| == 0 || x[0] != '.'
    ensures LStripDots("." + x) == x
  {
    assert ("." + x)[1..] == x;
  }

  /** The image subtype of an extension `splitext` returns: the extension without its one dot. */
  lemma ExtType(ext: string)
    requires ext == [] || (ext[0] == '.' && forall i :: 0 < i < |ext| ==> ext[i] != '.')
    ensures |ext| > 0 ==> "." + LStripDots(ext) == ext
  {
    if |ext| > 0 {
      assert ext == "." + ext[1..];
      LStripOneDot(ext[1..]);
    }
  }

  /** A name with a non-dot character and no separator keeps its own root and extension. */
  lemma SplitExtOfName(root: string, ext: string)
    requires forall i :: 0 <= i < |root| ==> root[i] != '/'
    requires exists i :: 0 <= i < |root| && root[i] != '.'
    requires |ext| > 0 && ext[0] == '.'
    requires forall i :: 0 < i < |ext| ==> ext[i] != '.' && ext[i] != '/'
    ensures SplitExt(root + ext) == (root, ext)
  {
    var p := root + ext;
    LastIndexOfConcat(root, ext, '/');
    LastIndexOfConcat(root, ext, '.');
    LastIndexOfUnique(ext, '.', 0);
    LastIndexOfUnique(ext, '/', -1);
    LastIndexOfUnique(root, '/', -1);
    var i :| 0 <= i < |root| && root[i] != '.';
    assert p[i] != '.';
    assert p[..|root|] == root;
    assert p[|root|..] == ext;
  }
}
