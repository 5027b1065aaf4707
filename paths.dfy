/** The POSIX path helpers the merger relies on (`os.path.join`, `basename`,
    `splitext`, `str.endswith`), written out on strings, and the fixed directory
    names of merge.py. */
module Paths {

  /** Directory holding one extracted folder per chapter archive. */
  const ExtractDir: string := ".extracted"

  /** Flat staging directory holding the renamed or converted pages. */
  const ZipDir: string := "zipper"

  /** Directory receiving one archive per volume. */
  const VolumesDir: string := "zipped_volumes"

  /** Chunk size used when merging many one-page documents. */
  const MaxOpenFiles: int := 250

  predicate StartsWith(s: string, prefix: string)
  {
    |prefix| <= |s| && s[..|prefix|] == prefix
  }

  predicate EndsWith(s: string, suffix: string)
  {
    |suffix| <= |s| && s[|s| - |suffix|..] == suffix
  }

  predicate IsAbsolute(s: string)
  {
    |s| > 0 && s[0] == '/'
  }

  /** `'/' not in s`: a single path component, as `os.listdir` returns. */
  predicate NoSep(s: string)
  {
    forall i :: 0 <= i < |s| ==> s[i] != '/'
  }

  /** `s.rfind(c)`: the last index holding `c`, or -1. */
  function LastIndex(s: string, c: char): (r: int)
    ensures -1 <= r < |s|
    ensures r >= 0 ==> s[r] == c
    ensures forall j :: r < j < |s| ==> s[j] != c
  {
    if s == [] then -1
    else if s[|s| - 1] == c then |s| - 1
    else LastIndex(s[..|s| - 1], c)
  }

  /** `posixpath.join(a, b)`: an absolute `b` replaces `a`; otherwise a separator
      is inserted unless `a` is empty or already ends with one. */
  function Join(a: string, b: string): (r: string)
    ensures IsAbsolute(a) ==> IsAbsolute(r)
  {
    if IsAbsolute(b) then b
    else if a == [] || a[|a| - 1] == '/' then a + b
    else a + "/" + b
  }

  /** A joined path ends with the joined name; a relative name extends the
      directory by at most one separator. */
  lemma JoinShape(a: string, b: string)
    ensures EndsWith(Join(a, b), b)
    ensures !IsAbsolute(b) ==> StartsWith(Join(a, b), a) && |Join(a, b)| <= |a| + 1 + |b|
    ensures !IsAbsolute(b) ==> Join(a, b) == a + b || Join(a, b) == a + "/" + b
  {
  }

  lemma StartsWithTrans(a: string, b: string, c: string)
    requires StartsWith(a, b) && StartsWith(b, c)
    ensures StartsWith(a, c)
  {
    assert a[..|c|] == a[..|b|][..|c|];
  }

  /** Nothing under `<m>/zipper` is also under `<m>/.extracted`: the two work
      folders of one main directory are apart. */
  lemma WorkDirsApart(m: string, x: string, y: string)
    requires StartsWith(x, Join(m, ZipDir)) && StartsWith(y, Join(m, ExtractDir))
    ensures x != y
  {
    var z, e := Join(m, ZipDir), Join(m, ExtractDir);
    var i := if m == [] || m[|m| - 1] == '/' then |m| else |m| + 1;
    assert z[i] == 'z' && e[i] == '.';
    assert x[i] == x[..|z|][i];
    assert y[i] == y[..|e|][i];
  }

  /** Two relative names joined onto one directory give one path only when the
      names are equal. */
  lemma JoinInjective(a: string, b1: string, b2: string)
    requires IsAbsolute(b1) == IsAbsolute(b2)
    requires Join(a, b1) == Join(a, b2)
    ensures b1 == b2
  {
    if !IsAbsolute(b1) {
      var r := Join(a, b1);
      if a == [] || a[|a| - 1] == '/' {
        assert b1 == r[|a|..] && b2 == r[|a|..];
      } else {
        assert b1 == r[|a| + 1..] && b2 == r[|a| + 1..];
      }
    }
  }

  /** Text appended after a joined relative name stays inside the last component. */
  lemma JoinExtend(a: string, b: string, t: string)
    requires |b| > 0 && !IsAbsolute(b)
    ensures Join(a, b) + t == Join(a, b + t)
  {
    assert (b + t)[0] == b[0];
    if a == [] || a[|a| - 1] == '/' {
      assert a + b + t == a + (b + t);
    } else {
      assert a + "/" + b + t == a + "/" + (b + t);
    }
  }

  /** A joined relative name ends as the name does. */
  lemma JoinLast(a: string, b: string)
    requires |b| > 0 && !IsAbsolute(b)
    ensures |Join(a, b)| >= |b| && Join(a, b)[|Join(a, b)| - 1] == b[|b| - 1]
  {
    var r := Join(a, b);
    assert r[|r| - |b|..] == b;
    assert r[|r| - 1] == r[|r| - |b|..][|b| - 1];
  }

  /** Joining in two steps is joining once with the joined tail, as long as the
      middle part is a non-empty relative path. */
  lemma JoinAssoc(a: string, b: string, c: string)
    requires |b| > 0 && !IsAbsolute(b)
    ensures Join(Join(a, b), c) == Join(a, Join(b, c))
  {
    if !IsAbsolute(c) {
      JoinLast(a, b);
      if b[|b| - 1] == '/' {
        JoinAssocSlash(a, b, c);
      } else {
        JoinAssocPlain(a, b, c);
      }
    }
  }

  lemma JoinAssocSlash(a: string, b: string, c: string)
    requires |b| > 0 && !IsAbsolute(b) && !IsAbsolute(c) && b[|b| - 1] == '/'
    requires |Join(a, b)| >= |b| && Join(a, b)[|Join(a, b)| - 1] == '/'
    ensures Join(Join(a, b), c) == Join(a, Join(b, c))
  {
    assert Join(Join(a, b), c) == Join(a, b) + c;
    assert Join(b, c) == b + c;
    JoinExtend(a, b, c);
  }

  lemma JoinAssocPlain(a: string, b: string, c: string)
    requires |b| > 0 && !IsAbsolute(b) && !IsAbsolute(c) && b[|b| - 1] != '/'
    requires |Join(a, b)| >= |b| && Join(a, b)[|Join(a, b)| - 1] != '/'
    ensures Join(Join(a, b), c) == Join(a, Join(b, c))
  {
    var ab, sc := Join(a, b), "/" + c;
    calc {
      Join(ab, c);
    == { JoinPlain(ab, c); }
      ab + "/" + c;
    == { assert ab + "/" + c == ab + sc; }
      ab + sc;
    == { JoinExtend(a, b, sc); }
      Join(a, b + sc);
    == { JoinPlain(b, c); assert b + "/" + c == b + sc; }
      Join(a, Join(b, c));
    }
  }

  lemma JoinPlain(a: string, b: string)
    requires |a| > 0 && a[|a| - 1] != '/' && !IsAbsolute(b)
    ensures Join(a, b) == a + "/" + b
  {
  }

  /** `posixpath.basename(p)`: everything after the last separator. */
  function Basename(p: string): (r: string)
    ensures NoSep(r) && EndsWith(p, r)
    ensures |r| < |p| ==> p[|p| - |r| - 1] == '/'
  {
    p[LastIndex(p, '/') + 1..]
  }

  /** The last component of `a` joined with a single component `d` is `d`. */
  lemma BasenameOfJoin(a: string, d: string)
    requires |d| > 0 && NoSep(d)
    ensures Basename(Join(a, d)) == d
  {
    var p := Join(a, d);
    var q := |p| - |d| - 1;
    assert p[q + 1..] == d;
    assert forall j :: q < j < |p| ==> p[j] == d[j - q - 1];
    var k := LastIndex(p, '/');
    if q >= 0 {
      if a == [] {
        assert false;
      } else if a[|a| - 1] == '/' {
        assert p == a + d && q == |a| - 1 && p[q] == a[q];
      } else {
        assert p == a + "/" + d && p[q] == '/';
      }
      assert p[q] == '/';
    } else {
      assert p == d;
    }
    assert k == q;
  }

  /** `posixpath.splitext(p)`: the extension runs from the last dot of the last
      component, unless every character before that dot in the component is a
      dot (so `.bashrc` and `..cbz` have no extension). */
  function SplitExt(p: string): (r: (string, string))
    ensures r.0 + r.1 == p
    ensures r.1 == [] || (r.1[0] == '.' && forall i :: 0 < i < |r.1| ==> r.1[i] != '.' && r.1[i] != '/')
  {
    var sepIndex := LastIndex(p, '/');
    var dotIndex := LastIndex(p, '.');
    if dotIndex > sepIndex && exists i :: sepIndex + 1 <= i < dotIndex && p[i] != '.' then
      (p[..dotIndex], p[dotIndex..])
    else
      (p, [])
  }

  /** Name `stem + ext` of one component, where `ext` is a dot and dot-free text:
      `splitext` gives the stem back exactly when the stem is not made of dots only. */
  lemma {:induction false} SplitExtOfName(stem: string, ext: string)
    requires NoSep(stem + ext)
    requires |ext| >= 1 && ext[0] == '.'
    requires forall i :: 0 < i < |ext| ==> ext[i] != '.'
    ensures (exists i :: 0 <= i < |stem| && stem[i] != '.') ==> SplitExt(stem + ext) == (stem, ext)
    ensures (forall i :: 0 <= i < |stem| ==> stem[i] == '.') ==> SplitExt(stem + ext) == (stem + ext, [])
  {
    var p := stem + ext;
    var dotIndex := LastIndex(p, '.');
    assert p[|stem|] == '.';
    assert dotIndex == |stem|;
    assert LastIndex(p, '/') == -1;
    if exists i :: 0 <= i < |stem| && stem[i] != '.' {
      var i :| 0 <= i < |stem| && stem[i] != '.';
      assert p[i] == stem[i];
      assert p[..dotIndex] == stem && p[dotIndex..] == ext;
    } else {
      assert forall i :: 0 <= i < dotIndex ==> p[i] == stem[i];
    }
  }

  lemma NoSepConcat(a: string, b: string)
    requires NoSep(a) && NoSep(b)
    ensures NoSep(a + b)
  {
    assert forall i :: |a| <= i < |a + b| ==> (a + b)[i] == b[i - |a|];
  }
}
