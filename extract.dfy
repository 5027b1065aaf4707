/** `extractCbz`, merge.py:79-104: which top-level entries of the main directory
    are extracted, and into which folder. The extraction itself
    (`ZipFile.extractall`) is a foreign call; the model records each one as an
    (archive, target folder) pair and creates the target folder. */
module Extract {
  import opened Common
  import opened Paths
  import opened Files

  /** `file.endswith(('.cbz', '.zip'))`. */
  predicate IsArchiveName(f: string)
  {
    EndsWith(f, ".cbz") || EndsWith(f, ".zip")
  }

  /** The tests of merge.py:90-94 on the entry `f` of the working directory
      `cwd`: an archive name, not one of the two work directories, and a regular
      file (`os.path.isfile`). */
  predicate Eligible(files: FileMap, cwd: string, f: string)
  {
    IsArchiveName(f) && f != ExtractDir && f != ZipDir && Join(cwd, f) in files
  }

  /** `path.join(EXTRACT_DIR, name)` where `name, ext = path.splitext(file)`. */
  function ExtractPath(f: string): (r: string)
    ensures !IsAbsolute(SplitExt(f).0) ==> r == ExtractDir + "/" + SplitExt(f).0
  {
    Join(ExtractDir, SplitExt(f).0)
  }

  /** The extractions `extractCbz` performs on the sorted listing `names`, in
      order: every eligible entry with its target folder. */
  function ExtractPlan(files: FileMap, cwd: string, names: seq<string>): (r: seq<(string, string)>)
    ensures |r| <= |names|
    ensures forall i :: 0 <= i < |r| ==> Eligible(files, cwd, r[i].0) && r[i].1 == ExtractPath(r[i].0)
  {
    if names == [] then []
    else
      var init := ExtractPlan(files, cwd, names[..|names| - 1]);
      var f := names[|names| - 1];
      if Eligible(files, cwd, f) then init + [(f, ExtractPath(f))] else init
  }

  /** The folders a plan creates, resolved against the working directory. */
  function Created(cwd: string, plan: seq<(string, string)>): set<string>
  {
    set i | 0 <= i < |plan| :: Join(cwd, plan[i].1)
  }

  lemma CreatedSnoc(cwd: string, plan: seq<(string, string)>, e: (string, string))
    ensures Created(cwd, plan + [e]) == Created(cwd, plan) + {Join(cwd, e.1)}
  {
    var p := plan + [e];
    assert p[|plan|] == e;
    forall x | x in Created(cwd, plan) ensures x in Created(cwd, p) {
      var i :| 0 <= i < |plan| && x == Join(cwd, plan[i].1);
      assert p[i] == plan[i];
    }
  }

  /** `extractCbz(zips)` run in the main directory `cwd`, with `natsort` standing
      for `natsorted`. `os.mkdir` raises when a target folder is held by a
      regular file, so that is excluded. */
  method ExtractCbz(fs: FileSystem, cwd: string, zips: seq<string>, natsort: seq<string> -> seq<string>)
      returns (r: FileSystem, extracted: seq<(string, string)>)
    requires forall i :: 0 <= i < |natsort(zips)| && Eligible(fs.files, cwd, natsort(zips)[i]) ==>
               Join(cwd, ExtractPath(natsort(zips)[i])) !in fs.files
    ensures extracted == ExtractPlan(fs.files, cwd, natsort(zips))
    ensures r.files == fs.files
    ensures r.dirs == fs.dirs + Created(cwd, extracted)
  {
    var sorted := natsort(zips);
    r := fs;
    extracted := [];
    for i := 0 to |sorted|
      invariant extracted == ExtractPlan(fs.files, cwd, sorted[..i])
      invariant r.files == fs.files
      invariant r.dirs == fs.dirs + Created(cwd, extracted)
    {
      var file := sorted[i];
      assert sorted[..i + 1] == sorted[..i] + [file];
      if !(EndsWith(file, ".cbz") || EndsWith(file, ".zip")) {
        continue;
      }
      if file == ExtractDir || file == ZipDir || Join(cwd, file) !in r.files {
        continue;
      }
      var (name, ext) := SplitExt(file);
      var extractPath := Join(ExtractDir, name);
      r := MakeDirectory(r, Join(cwd, extractPath));
      CreatedSnoc(cwd, extracted, (file, extractPath));
      extracted := extracted + [(file, extractPath)];
    }
    assert sorted[..|sorted|] == sorted;
  }

  /** An entry is extracted exactly when it is listed and passes the tests. */
  lemma {:induction false} ExtractPlanMembers(fs: FileSystem, cwd: string, names: seq<string>, f: string)
    ensures f in Keys(ExtractPlan(fs.files, cwd, names)) <==> f in names && Eligible(fs.files, cwd, f)
    decreases |names|
  {
    if names != [] {
      var init := names[..|names| - 1];
      var last := names[|names| - 1];
      assert names == init + [last];
      ExtractPlanMembers(fs, cwd, init, f);
      var p := ExtractPlan(fs.files, cwd, init);
      if Eligible(fs.files, cwd, last) {
        assert Keys(p + [(last, ExtractPath(last))]) == Keys(p) + [last];
      }
    }
  }

  /** An entry is extracted as many times as it is listed when it passes the
      tests, and never otherwise. */
  lemma {:induction false} ExtractPlanCount(files: FileMap, cwd: string, names: seq<string>, f: string)
    ensures multiset(Keys(ExtractPlan(files, cwd, names)))[f] == if Eligible(files, cwd, f) then multiset(names)[f] else 0
    decreases |names|
  {
    if names != [] {
      var init, last := names[..|names| - 1], names[|names| - 1];
      assert names == init + [last];
      ExtractPlanCount(files, cwd, init, f);
      var p := ExtractPlan(files, cwd, init);
      if Eligible(files, cwd, last) {
        assert Keys(p + [(last, ExtractPath(last))]) == Keys(p) + [last];
      }
    }
  }

  /** The plan of a concatenated listing is the concatenation of the plans: the
      filter keeps the listing's order. */
  lemma {:induction false} ExtractPlanAppend(fs: FileSystem, cwd: string, a: seq<string>, b: seq<string>)
    ensures ExtractPlan(fs.files, cwd, a + b) == ExtractPlan(fs.files, cwd, a) + ExtractPlan(fs.files, cwd, b)
    decreases |b|
  {
    if b == [] {
      assert a + b == a;
    } else {
      var init := b[..|b| - 1];
      assert (a + b)[..|a + b| - 1] == a + init;
      assert (a + b)[|a + b| - 1] == b[|b| - 1];
      ExtractPlanAppend(fs, cwd, a, init);
    }
  }

  /** The target folder of `<stem>.cbz` (or `.zip`) is `.extracted/<stem>`,
      unless the stem is made of dots only: `splitext` then sees no extension
      and the folder keeps the whole name (`..cbz` goes to `.extracted/..cbz`). */
  lemma ExtractPathOfArchive(stem: string, ext: string)
    requires ext == ".cbz" || ext == ".zip"
    requires NoSep(stem + ext)
    ensures (exists i :: 0 <= i < |stem| && stem[i] != '.') ==>
              ExtractPath(stem + ext) == ExtractDir + "/" + stem
    ensures (forall i :: 0 <= i < |stem| ==> stem[i] == '.') ==>
              ExtractPath(stem + ext) == ExtractDir + "/" + stem + ext
  {
    SplitExtOfName(stem, ext);
    assert (stem + ext)[0] != '/';
    assert stem != [] ==> stem[0] == (stem + ext)[0];
  }
}
