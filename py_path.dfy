/** The POSIX path helpers of Python 2's `os.path` that the pipeline uses to
    name its files: `join` of two components, `basename` and `splitext`. */
module PyPath {

  /** `s.rfind(c)`: the index of the last `c` in `s`, or -1. */
  function LastIndexOf(s: string, c: char): (k: int)
    ensures -1 <= k < |s|
    ensures k >= 0 ==> s[k] == c
    ensures forall i :: k < i < |s| ==> s[i] != c
  {
    if s == [] then -1
    else if s[|s| - 1] == c then |s| - 1
    else LastIndexOf(s[..|s| - 1], c)
  }

  /** `os.path.join(a, b)`: an absolute `b` replaces `a`; otherwise a `/` is
      inserted unless `a` is empty or already ends with one. */
  function Join(a: string, b: string): string
  {
    if |b| > 0 && b[0] == '/' then b
    else if a == [] || a[|a| - 1] == '/' then a + b
    else a + "/" + b
  }

  /** `os.path.basename(p)`: what follows the last `/`. */
  function Basename(p: string): (b: string)
    ensures '/' !in b
    ensures |b| <= |p| && p == p[..|p| - |b|] + b
  {
    p[LastIndexOf(p, '/') + 1..]
  }

  /** `os.path.splitext(p)`: the extension is the part from the last `.`
      after the last `/`, unless only dots precede that `.` within the last
      component (a leading-dot name such as `.temp` has no extension). */
  function SplitExt(p: string): (r: (string, string))
    ensures r.0 + r.1 == p
    ensures r.1 == [] || (r.1[0] == '.' && '.' !in r.1[1..] && '/' !in r.1)
  {
    var sep := LastIndexOf(p, '/');
    var dot := LastIndexOf(p, '.');
    if CutsAt(p, sep, dot) then
      (p[..dot], p[dot..])
    else
      (p, "")
  }

  /** The `.` at `dot` starts an extension: it lies after the last `/` at
      `sep`, and some character between them is not a `.`. */
  predicate CutsAt(p: string, sep: int, dot: int)
    requires -1 <= sep && dot < |p|
  {
    dot > sep && exists k :: sep < k < dot && p[k] != '.'
  }

  /** `splitext` cuts an extension only when, in the last component (after
      the last `/`), some character before the extension is not a `.`; the
      extension is then the part from the last `.` on (by the contract of
      `SplitExt`). */
  lemma SplitExtCuts(p: string)
    requires SplitExt(p).1 != []
    ensures var r := SplitExt(p);
      exists k :: LastIndexOf(p, '/') < k < |r.0| && p[k] != '.'
  {
    var sep := LastIndexOf(p, '/');
    var dot := LastIndexOf(p, '.');
    var k :| sep < k < dot && p[k] != '.';
    assert |SplitExt(p).0| == dot;
  }

  /** When `splitext` cuts nothing, every `.` of the last component is
      preceded there only by dots: the name has no extension, or is a
      leading-dot name. */
  lemma SplitExtKeeps(p: string)
    ensures SplitExt(p).1 == [] ==>
      forall k, i :: LastIndexOf(p, '/') < k < i < |p| && p[i] == '.' ==> p[k] == '.'
  {
    CutIsNonEmpty(p);
    if SplitExt(p).1 == [] {
      DotsLead(p);
    }
  }

  /** Where `CutsAt` holds, the extension is not empty. */
  lemma CutIsNonEmpty(p: string)
    ensures CutsAt(p, LastIndexOf(p, '/'), LastIndexOf(p, '.')) ==> SplitExt(p).1 != []
  {
  }

  /** Where no `.` starts an extension, the dots of the last component
      are all at its start. */
  lemma DotsLead(p: string)
    requires !CutsAt(p, LastIndexOf(p, '/'), LastIndexOf(p, '.'))
    ensures forall k, i :: LastIndexOf(p, '/') < k < i < |p| && p[i] == '.' ==> p[k] == '.'
  {
    var sep := LastIndexOf(p, '/');
    var dot := LastIndexOf(p, '.');
    forall k, i | sep < k < i < |p| && p[i] == '.' ensures p[k] == '.' {
      assert i <= dot;
    }
  }

  /** The component that `join` adds is what `basename` gives back. */
  lemma BasenameOfJoin(a: string, b: string)
    requires '/' !in b
    ensures Basename(Join(a, b)) == b
  {
    var p := Join(a, b);
    var k := LastIndexOf(p, '/');
    if a != [] && !(|b| > 0 && b[0] == '/') {
      assert p[|p| - |b| - 1] == '/';
    }
    assert forall i :: |p| - |b| <= i < |p| ==> p[i] == b[i - (|p| - |b|)];
    assert k == |p| - |b| - 1 || (k == -1 && p == b);
    assert p[k + 1..] == b;
  }

  /** A name without `/` is its own base name. */
  lemma BasenameOfName(p: string)
    requires '/' !in p
    ensures Basename(p) == p
  {
  }

  /** Joining a relative component to a directory that does not end in `/`
      puts exactly one `/` between them. */
  lemma JoinRelative(a: string, b: string)
    requires a != [] && a[|a| - 1] != '/'
    requires b == [] || b[0] != '/'
    ensures Join(a, b) == a + "/" + b
  {
  }

  /** `splitext` undoes appending an extension `.e` (no `.` or `/` in `e`)
      to a name whose last character is neither `.` nor `/`. */
  lemma {:induction false} SplitExtOfAppend(root: string, ext: string)
    requires root != [] && root[|root| - 1] != '.' && root[|root| - 1] != '/'
    requires |ext| > 0 && ext[0] == '.' && '.' !in ext[1..] && '/' !in ext
    ensures SplitExt(root + ext) == (root, ext)
  {
    var p := root + ext;
    var sep := LastIndexOf(p, '/');
    var dot := LastIndexOf(p, '.');
    assert p[|root|] == '.';
    forall i | |root| < i < |p| ensures p[i] != '.' && p[i] != '/' {
      assert p[i] == ext[1..][i - |root| - 1];
    }
    assert dot == |root|;
    assert p[|root| - 1] == root[|root| - 1];
    assert sep < |root| - 1;
    assert sep < |root| - 1 < dot && p[|root| - 1] != '.';
    assert p[..dot] == root && p[dot..] == ext;
  }
}
