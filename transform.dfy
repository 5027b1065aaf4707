/** `mapExtractedImages`, merge.py:319-350, with the two per-image actions it
    chooses between: `renameKeepExtension` (merge.py:301-316), which copies the
    image to `<destination>-<n><ext>`, and `convertToPdf` (merge.py:278-298),
    which saves a one-page PDF named `<basename(destination)>-<n>.pdf` in the
    staging folder. Every image of a chapter folder gets the number of its
    position in the sorted listing, counting from 0 in each folder. */
module Transform {
  import opened Common
  import opened Paths
  import opened Files

  /** One call `f(origin, destination, n, args)` of the naming loop. */
  datatype Call = Call(origin: string, destination: string, n: string)

  /** `path.join(main_dir, EXTRACT_DIR, dir)`: the folder of one chapter. */
  function ChapterDir(mainDir: string, dir: string): string
  {
    Join(Join(mainDir, ExtractDir), dir)
  }

  /** `path.join(main_dir, ZIP_DIR)`: the staging folder. */
  function StagingDir(mainDir: string): string
  {
    Join(mainDir, ZipDir)
  }

  /** The copy's path in `renameKeepExtension`: `destination + '-' + n + ext`,
      `ext` being the extension of the origin. */
  function RenameTarget(c: Call): string
  {
    c.destination + "-" + c.n + SplitExt(c.origin).1
  }

  /** The PDF's path in `convertToPdf`: `basename(destination) + '-' + n + '.pdf'`,
      saved in the working directory `cwd`. */
  function PdfTarget(cwd: string, c: Call): string
  {
    Join(cwd, Basename(c.destination) + "-" + c.n + ".pdf")
  }

  /** `renameKeepExtension(origin, destination, n, args)`: `copy2` reads the
      image, so it must be a regular file. */
  function RenameKeepExtension(fs: FileSystem, c: Call): (r: FileSystem)
    requires c.origin in fs.files
    ensures r.dirs == fs.dirs && fs.files.Keys <= r.files.Keys
    ensures RenameTarget(c) in r.files && r.files[RenameTarget(c)] == fs.files[c.origin]
    ensures forall p :: p != RenameTarget(c) ==> (p in r.files <==> p in fs.files)
    ensures forall p :: p != RenameTarget(c) && p in fs.files ==> r.files[p] == fs.files[p]
  {
    WriteFile(fs, RenameTarget(c), fs.files[c.origin])
  }

  /** `convertToPdf(img, destination, n, args)` in the working directory `cwd`:
      `drawImage` reads the image, so it must be a regular file; the new PDF has
      one page, the image. */
  function ConvertToPdf(fs: FileSystem, cwd: string, c: Call): (r: FileSystem)
    requires c.origin in fs.files
    ensures r.dirs == fs.dirs && fs.files.Keys <= r.files.Keys
    ensures PdfTarget(cwd, c) in r.files && r.files[PdfTarget(cwd, c)] == [c.origin]
    ensures forall p :: p != PdfTarget(cwd, c) ==> (p in r.files <==> p in fs.files)
    ensures forall p :: p != PdfTarget(cwd, c) && p in fs.files ==> r.files[p] == fs.files[p]
  {
    WriteFile(fs, PdfTarget(cwd, c), [c.origin])
  }

  /** Where the call `c` puts its unit: with `--pdf` the working directory is the
      staging folder (merge.py:330). */
  function Target(isPdf: bool, mainDir: string, c: Call): string
  {
    if isPdf then PdfTarget(StagingDir(mainDir), c) else RenameTarget(c)
  }

  /** The effect of one call `f(origin, destination, n, args)`. */
  function Apply(fs: FileSystem, isPdf: bool, mainDir: string, c: Call): (r: FileSystem)
    requires c.origin in fs.files
    ensures r.dirs == fs.dirs && fs.files.Keys <= r.files.Keys
    ensures Target(isPdf, mainDir, c) in r.files
    ensures r.files[Target(isPdf, mainDir, c)] == if isPdf then [c.origin] else fs.files[c.origin]
    ensures forall p :: p != Target(isPdf, mainDir, c) ==> (p in r.files <==> p in fs.files)
    ensures forall p :: p != Target(isPdf, mainDir, c) && p in fs.files ==> r.files[p] == fs.files[p]
  {
    if isPdf then ConvertToPdf(fs, StagingDir(mainDir), c) else RenameKeepExtension(fs, c)
  }

  predicate OriginsPresent(fs: FileSystem, calls: seq<Call>)
  {
    forall k :: 0 <= k < |calls| ==> calls[k].origin in fs.files
  }

  predicate IsTarget(isPdf: bool, mainDir: string, calls: seq<Call>, p: string)
  {
    exists k :: 0 <= k < |calls| && Target(isPdf, mainDir, calls[k]) == p
  }

  /** The calls run one after another: directories stay, files only appear. */
  function ApplyAll(fs: FileSystem, isPdf: bool, mainDir: string, calls: seq<Call>): (r: FileSystem)
    requires OriginsPresent(fs, calls)
    ensures r.dirs == fs.dirs && fs.files.Keys <= r.files.Keys
  {
    if calls == [] then fs
    else
      var init := calls[..|calls| - 1];
      assert OriginsPresent(fs, init) by {
        assert forall k :: 0 <= k < |init| ==> init[k] == calls[k];
      }
      Apply(ApplyAll(fs, isPdf, mainDir, init), isPdf, mainDir, calls[|calls| - 1])
  }

  /** After the calls, every call's target exists, and a file that no call
      targets keeps its content. */
  lemma {:induction false} ApplyAllEffect(fs: FileSystem, isPdf: bool, mainDir: string, calls: seq<Call>)
    requires OriginsPresent(fs, calls)
    ensures forall k :: 0 <= k < |calls| ==> Target(isPdf, mainDir, calls[k]) in ApplyAll(fs, isPdf, mainDir, calls).files
    ensures forall p :: p in fs.files && !IsTarget(isPdf, mainDir, calls, p) ==>
              ApplyAll(fs, isPdf, mainDir, calls).files[p] == fs.files[p]
    decreases |calls|
  {
    if calls != [] {
      var init, c := calls[..|calls| - 1], calls[|calls| - 1];
      assert calls == init + [c];
      ApplyAllSnoc(fs, isPdf, mainDir, init, c);
      ApplyAllEffect(fs, isPdf, mainDir, init);
      var prev := ApplyAll(fs, isPdf, mainDir, init);
      var r := Apply(prev, isPdf, mainDir, c);
      forall k | 0 <= k < |calls| ensures Target(isPdf, mainDir, calls[k]) in r.files {
        if k < |init| {
          assert calls[k] == init[k];
        }
      }
      forall p | p in fs.files && !IsTarget(isPdf, mainDir, calls, p) ensures r.files[p] == fs.files[p] {
        IsTargetSnoc(isPdf, mainDir, init, c, p);
        assert p in prev.files && prev.files[p] == fs.files[p];
      }
    }
  }

  /** After the calls, the files are exactly the earlier files and the calls'
      targets: nothing else appears. */
  lemma {:induction false} ApplyAllFiles(fs: FileSystem, isPdf: bool, mainDir: string, calls: seq<Call>)
    requires OriginsPresent(fs, calls)
    ensures forall p :: p in ApplyAll(fs, isPdf, mainDir, calls).files <==> p in fs.files || IsTarget(isPdf, mainDir, calls, p)
    decreases |calls|
  {
    if calls == [] {
      assert forall p :: !IsTarget(isPdf, mainDir, calls, p);
    } else {
      var init, c := calls[..|calls| - 1], calls[|calls| - 1];
      assert calls == init + [c];
      ApplyAllSnoc(fs, isPdf, mainDir, init, c);
      ApplyAllFiles(fs, isPdf, mainDir, init);
      forall p ensures p in ApplyAll(fs, isPdf, mainDir, calls).files <==> p in fs.files || IsTarget(isPdf, mainDir, calls, p) {
        IsTargetSnoc(isPdf, mainDir, init, c, p);
      }
    }
  }

  /** The unit call `k` leaves is still there at the end, with the content the
      call gave it (a one-page PDF of the origin, or the origin's content), when
      no later call writes the same target and no earlier call wrote over the
      origin. */
  lemma {:induction false} ApplyAllTargetContent(fs: FileSystem, isPdf: bool, mainDir: string, calls: seq<Call>, k: nat)
    requires OriginsPresent(fs, calls)
    requires k < |calls|
    requires forall j :: k < j < |calls| ==> Target(isPdf, mainDir, calls[j]) != Target(isPdf, mainDir, calls[k])
    requires forall j :: 0 <= j < k ==> Target(isPdf, mainDir, calls[j]) != calls[k].origin
    ensures Target(isPdf, mainDir, calls[k]) in ApplyAll(fs, isPdf, mainDir, calls).files
    ensures ApplyAll(fs, isPdf, mainDir, calls).files[Target(isPdf, mainDir, calls[k])] ==
              if isPdf then [calls[k].origin] else fs.files[calls[k].origin]
    decreases |calls|
  {
    var init, c := calls[..|calls| - 1], calls[|calls| - 1];
    assert calls == init + [c];
    SurvivesPrefix(isPdf, mainDir, calls, k);
    if k == |calls| - 1 {
      LastCallContent(fs, isPdf, mainDir, init, c);
    } else {
      ApplyAllTargetContent(fs, isPdf, mainDir, init, k);
      LaterCallKeeps(fs, isPdf, mainDir, init, c, Target(isPdf, mainDir, calls[k]));
    }
  }

  /** The side conditions of call `k` carry over to the calls without the last. */
  lemma SurvivesPrefix(isPdf: bool, mainDir: string, calls: seq<Call>, k: nat)
    requires k < |calls|
    requires forall j :: k < j < |calls| ==> Target(isPdf, mainDir, calls[j]) != Target(isPdf, mainDir, calls[k])
    requires forall j :: 0 <= j < k ==> Target(isPdf, mainDir, calls[j]) != calls[k].origin
    ensures var init := calls[..|calls| - 1];
            && (k == |calls| - 1 ==> forall j :: 0 <= j < |init| ==> Target(isPdf, mainDir, init[j]) != calls[k].origin)
            && (k < |calls| - 1 ==>
                  && (forall j :: k < j < |init| ==> Target(isPdf, mainDir, init[j]) != Target(isPdf, mainDir, init[k]))
                  && (forall j :: 0 <= j < k ==> Target(isPdf, mainDir, init[j]) != init[k].origin)
                  && Target(isPdf, mainDir, calls[|calls| - 1]) != Target(isPdf, mainDir, calls[k]))
  {
  }

  /** The last call's unit is what the call makes from the untouched origin. */
  lemma LastCallContent(fs: FileSystem, isPdf: bool, mainDir: string, init: seq<Call>, c: Call)
    requires OriginsPresent(fs, init + [c])
    requires forall j :: 0 <= j < |init| ==> Target(isPdf, mainDir, init[j]) != c.origin
    ensures OriginsPresent(fs, init)
    ensures Target(isPdf, mainDir, c) in ApplyAll(fs, isPdf, mainDir, init + [c]).files
    ensures ApplyAll(fs, isPdf, mainDir, init + [c]).files[Target(isPdf, mainDir, c)] ==
              if isPdf then [c.origin] else fs.files[c.origin]
  {
    ApplyAllSnoc(fs, isPdf, mainDir, init, c);
    ApplyAllEffect(fs, isPdf, mainDir, init);
    assert !IsTarget(isPdf, mainDir, init, c.origin);
    assert c.origin in fs.files by {
      assert (init + [c])[|init|] == c;
    }
  }

  /** A later call that writes elsewhere keeps a present file as it is. */
  lemma LaterCallKeeps(fs: FileSystem, isPdf: bool, mainDir: string, init: seq<Call>, c: Call, t: string)
    requires OriginsPresent(fs, init + [c])
    requires Target(isPdf, mainDir, c) != t
    ensures OriginsPresent(fs, init)
    ensures t in ApplyAll(fs, isPdf, mainDir, init).files ==>
              t in ApplyAll(fs, isPdf, mainDir, init + [c]).files &&
              ApplyAll(fs, isPdf, mainDir, init + [c]).files[t] == ApplyAll(fs, isPdf, mainDir, init).files[t]
  {
    ApplyAllSnoc(fs, isPdf, mainDir, init, c);
  }

  lemma IsTargetSnoc(isPdf: bool, mainDir: string, calls: seq<Call>, c: Call, p: string)
    ensures IsTarget(isPdf, mainDir, calls + [c], p) <==> IsTarget(isPdf, mainDir, calls, p) || Target(isPdf, mainDir, c) == p
  {
    var s := calls + [c];
    assert s[|calls|] == c;
    if IsTarget(isPdf, mainDir, calls, p) {
      var k :| 0 <= k < |calls| && Target(isPdf, mainDir, calls[k]) == p;
      assert s[k] == calls[k];
    }
    if IsTarget(isPdf, mainDir, s, p) && Target(isPdf, mainDir, c) != p {
      var k :| 0 <= k < |s| && Target(isPdf, mainDir, s[k]) == p;
      assert k < |calls| && s[k] == calls[k];
    }
  }

  lemma ApplyAllSnoc(fs: FileSystem, isPdf: bool, mainDir: string, calls: seq<Call>, c: Call)
    requires OriginsPresent(fs, calls + [c])
    ensures OriginsPresent(fs, calls)
    ensures ApplyAll(fs, isPdf, mainDir, calls + [c]) == Apply(ApplyAll(fs, isPdf, mainDir, calls), isPdf, mainDir, c)
  {
    assert (calls + [c])[..|calls|] == calls;
    assert forall k :: 0 <= k < |calls| ==> calls[k] == (calls + [c])[k];
  }

  /** The calls for one chapter folder whose sorted listing is `imgs`. */
  function ChapterCalls(mainDir: string, dir: string, imgs: seq<string>): (r: seq<Call>)
    ensures |r| == |imgs|
  {
    seq(|imgs|, j requires 0 <= j < |imgs| =>
      Call(Join(ChapterDir(mainDir, dir), imgs[j]), Join(StagingDir(mainDir), dir), NatToString(j)))
  }

  /** The sorted listing of the chapter folder `dir`. */
  function Listing(mainDir: string, dir: string, natsort: seq<string> -> seq<string>,
                   listdir: string -> seq<string>): seq<string>
  {
    natsort(listdir(ChapterDir(mainDir, dir)))
  }

  /** The calls of every chapter of `ds`, chapter by chapter. */
  function Chapters(mainDir: string, ds: seq<string>, natsort: seq<string> -> seq<string>,
                    listdir: string -> seq<string>): (r: seq<seq<Call>>)
    ensures |r| == |ds|
  {
    seq(|ds|, i requires 0 <= i < |ds| => ChapterCalls(mainDir, ds[i], Listing(mainDir, ds[i], natsort, listdir)))
  }

  /** Every call `mapExtractedImages(dirs, ...)` makes, in order: the folders in
      sorted order, and in each folder its images in sorted order. */
  function Plan(mainDir: string, dirs: seq<string>, natsort: seq<string> -> seq<string>,
                listdir: string -> seq<string>): seq<Call>
  {
    Flatten(Chapters(mainDir, natsort(dirs), natsort, listdir))
  }

  /** One more image of chapter `i`: the call is the next one of the plan. */
  lemma NextCall(fs: FileSystem, chs: seq<seq<Call>>, i: nat, counter: nat, calls: seq<Call>)
    requires i < |chs| && counter < |chs[i]|
    requires OriginsPresent(fs, Flatten(chs))
    requires OriginsPresent(fs, calls)
    requires calls == Flatten(chs[..i]) + chs[i][..counter]
    ensures OriginsPresent(fs, calls + [chs[i][counter]])
    ensures calls + [chs[i][counter]] == Flatten(chs[..i]) + chs[i][..counter + 1]
  {
    FlattenAt(chs, i, counter);
    assert chs[i][..counter + 1] == chs[i][..counter] + [chs[i][counter]];
  }

  /** The last image of chapter `i` done: the calls are those of chapters `..i+1`. */
  lemma ChapterDone(chs: seq<seq<Call>>, i: nat)
    requires i < |chs|
    ensures Flatten(chs[..i]) + chs[i][..|chs[i]|] == Flatten(chs[..i + 1])
  {
    assert chs[i][..|chs[i]|] == chs[i];
    assert chs[..i + 1] == chs[..i] + [chs[i]];
    FlattenSnoc(chs[..i], chs[i]);
  }

  /** `mapExtractedImages(dirs, isPdf, main_dir, args)`, with `natsort` for
      `natsorted` and `listdir` for `os.listdir`. Every listed image is read, so
      each must be a regular file. */
  method MapExtractedImages(fs: FileSystem, dirs: seq<string>, isPdf: bool, mainDir: string,
                            natsort: seq<string> -> seq<string>, listdir: string -> seq<string>)
      returns (r: FileSystem, calls: seq<Call>)
    requires OriginsPresent(fs, Plan(mainDir, dirs, natsort, listdir))
    ensures calls == Plan(mainDir, dirs, natsort, listdir)
    ensures r == ApplyAll(fs, isPdf, mainDir, calls)
  {
    var ds := natsort(dirs);
    ghost var chs := Chapters(mainDir, ds, natsort, listdir);
    r := fs;
    calls := [];
    for i := 0 to |ds|
      invariant calls == Flatten(chs[..i])
      invariant OriginsPresent(fs, calls)
      invariant r == ApplyAll(fs, isPdf, mainDir, calls)
    {
      var dir := ds[i];
      var currentDir := Join(Join(mainDir, ExtractDir), dir);
      var imgs := natsort(listdir(currentDir));
      assert chs[i] == ChapterCalls(mainDir, dir, imgs);
      var counter := 0;
      while counter < |imgs|
        invariant 0 <= counter <= |imgs|
        invariant calls == Flatten(chs[..i]) + chs[i][..counter]
        invariant OriginsPresent(fs, calls)
        invariant r == ApplyAll(fs, isPdf, mainDir, calls)
      {
        var img := imgs[counter];
        var origin := Join(currentDir, img);
        var destination := Join(Join(mainDir, ZipDir), dir);
        var n := NatToString(counter);
        var c := Call(origin, destination, n);
        assert c == chs[i][counter];
        NextCall(fs, chs, i, counter, calls);
        ApplyAllSnoc(fs, isPdf, mainDir, calls, c);
        if isPdf {
          r := ConvertToPdf(r, Join(mainDir, ZipDir), c);
        } else {
          r := RenameKeepExtension(r, c);
        }
        calls := calls + [c];
        counter := counter + 1;
      }
      ChapterDone(chs, i);
    }
    assert chs[..|ds|] == chs;
  }

  // ---------------------------------------------------------------------
  // Numbering and names.

  /** Image `j` of the `i`-th folder in sorted order is visited at position
      `Offset(.., i) + j`, with number `str(j)`: the counter starts at 0 in every
      folder; and every call of the plan is one of these. */
  lemma PlanNumbering(mainDir: string, dirs: seq<string>, natsort: seq<string> -> seq<string>,
                      listdir: string -> seq<string>, i: nat, j: nat)
    requires i < |natsort(dirs)|
    requires j < |Listing(mainDir, natsort(dirs)[i], natsort, listdir)|
    ensures var chs := Chapters(mainDir, natsort(dirs), natsort, listdir);
            var dir := natsort(dirs)[i];
            && Offset(chs, i) + j < |Plan(mainDir, dirs, natsort, listdir)|
            && Plan(mainDir, dirs, natsort, listdir)[Offset(chs, i) + j] ==
                 Call(Join(ChapterDir(mainDir, dir), Listing(mainDir, dir, natsort, listdir)[j]),
                      Join(StagingDir(mainDir), dir), NatToString(j))
  {
    FlattenAt(Chapters(mainDir, natsort(dirs), natsort, listdir), i, j);
  }

  lemma PlanCalls(mainDir: string, dirs: seq<string>, natsort: seq<string> -> seq<string>,
                  listdir: string -> seq<string>, c: Call)
    requires c in Plan(mainDir, dirs, natsort, listdir)
    ensures exists i, j :: 0 <= i < |natsort(dirs)| && 0 <= j < |Listing(mainDir, natsort(dirs)[i], natsort, listdir)| &&
              c == Call(Join(ChapterDir(mainDir, natsort(dirs)[i]), Listing(mainDir, natsort(dirs)[i], natsort, listdir)[j]),
                        Join(StagingDir(mainDir), natsort(dirs)[i]), NatToString(j))
  {
    var chs := Chapters(mainDir, natsort(dirs), natsort, listdir);
    FlattenMember(chs, c);
    var i, j :| 0 <= i < |chs| && 0 <= j < |chs[i]| && chs[i][j] == c;
  }

  /** The plan makes one call per listed image. */
  lemma PlanLength(mainDir: string, dirs: seq<string>, natsort: seq<string> -> seq<string>,
                   listdir: string -> seq<string>)
    ensures var chs := Chapters(mainDir, natsort(dirs), natsort, listdir);
            |Plan(mainDir, dirs, natsort, listdir)| == Offset(chs, |chs|)
            && forall i :: 0 <= i < |chs| ==> |chs[i]| == |Listing(mainDir, natsort(dirs)[i], natsort, listdir)|
  {
    var chs := Chapters(mainDir, natsort(dirs), natsort, listdir);
    FlattenLength(chs, |chs|);
  }

  /** Within one chapter no two images get the same target, in either mode. */
  lemma ChapterTargetsDistinct(isPdf: bool, mainDir: string, dir: string, imgs: seq<string>, j1: nat, j2: nat)
    requires j1 < |imgs| && j2 < |imgs| && j1 != j2
    ensures Target(isPdf, mainDir, ChapterCalls(mainDir, dir, imgs)[j1]) !=
            Target(isPdf, mainDir, ChapterCalls(mainDir, dir, imgs)[j2])
  {
    var cs := ChapterCalls(mainDir, dir, imgs);
    var c1, c2 := cs[j1], cs[j2];
    var e1, e2 := SplitExt(c1.origin).1, SplitExt(c2.origin).1;
    if isPdf {
      var b := Basename(c1.destination);
      var t1, t2 := b + "-" + NatToString(j1) + ".pdf", b + "-" + NatToString(j2) + ".pdf";
      if PdfTarget(StagingDir(mainDir), c1) == PdfTarget(StagingDir(mainDir), c2) {
        assert t1[0] == t2[0];
        JoinInjective(StagingDir(mainDir), t1, t2);
        NumberedNameUnique(b + "-", j1, ".pdf", j2, ".pdf");
      }
    } else {
      if RenameTarget(c1) == RenameTarget(c2) {
        NumberedNameUnique(c1.destination + "-", j1, e1, j2, e2);
      }
    }
  }

  /** No image of a chapter is the target of a call: targets are in the
      staging folder, images in the extraction folder. */
  lemma OriginNotTarget(isPdf: bool, mainDir: string, dir: string, imgs: seq<string>, j1: nat, j2: nat)
    requires NoSep(dir) && j1 < |imgs| && j2 < |imgs| && NoSep(imgs[j2])
    ensures Target(isPdf, mainDir, ChapterCalls(mainDir, dir, imgs)[j1]) != ChapterCalls(mainDir, dir, imgs)[j2].origin
  {
    var cs := ChapterCalls(mainDir, dir, imgs);
    var staging, chapter := StagingDir(mainDir), ChapterDir(mainDir, dir);
    var t := Target(isPdf, mainDir, cs[j1]);
    if isPdf {
      var name := Basename(cs[j1].destination) + "-" + cs[j1].n + ".pdf";
      assert name[0] != '/';
      JoinShape(staging, name);
    } else {
      JoinShape(staging, dir);
      assert StartsWith(t, cs[j1].destination) by {
        assert t[..|cs[j1].destination|] == cs[j1].destination;
      }
      StartsWithTrans(t, cs[j1].destination, staging);
    }
    JoinShape(Join(mainDir, ExtractDir), dir);
    JoinShape(chapter, imgs[j2]);
    StartsWithTrans(cs[j2].origin, chapter, Join(mainDir, ExtractDir));
    WorkDirsApart(mainDir, t, cs[j2].origin);
  }

  /** After the calls of one chapter, image `j` is staged under its own name
      with the content its action gave it: the numbered names of a folder never
      collide, and no target overwrites an image still to be read. */
  lemma ChapterTargetContent(fs: FileSystem, isPdf: bool, mainDir: string, dir: string, imgs: seq<string>, j: nat)
    requires NoSep(dir) && forall i :: 0 <= i < |imgs| ==> NoSep(imgs[i])
    requires OriginsPresent(fs, ChapterCalls(mainDir, dir, imgs))
    requires j < |imgs|
    ensures var cs := ChapterCalls(mainDir, dir, imgs);
            var r := ApplyAll(fs, isPdf, mainDir, cs);
            var img := Join(ChapterDir(mainDir, dir), imgs[j]);
            && Target(isPdf, mainDir, cs[j]) in r.files
            && r.files[Target(isPdf, mainDir, cs[j])] == if isPdf then [img] else fs.files[img]
  {
    var cs := ChapterCalls(mainDir, dir, imgs);
    forall i | j < i < |cs| ensures Target(isPdf, mainDir, cs[i]) != Target(isPdf, mainDir, cs[j]) {
      ChapterTargetsDistinct(isPdf, mainDir, dir, imgs, i, j);
    }
    forall i | 0 <= i < j ensures Target(isPdf, mainDir, cs[i]) != cs[j].origin {
      OriginNotTarget(isPdf, mainDir, dir, imgs, i, j);
    }
    ApplyAllTargetContent(fs, isPdf, mainDir, cs, j);
  }

  /** Both actions put the unit of image `n` of folder `dir` in the staging
      folder under the name `<dir>-<n><ext>`: the original extension when
      renaming, `.pdf` when converting. */
  lemma StagedName(mainDir: string, dir: string, c: Call)
    requires |dir| > 0 && NoSep(dir)
    requires c.destination == Join(StagingDir(mainDir), dir)
    ensures RenameTarget(c) == Join(StagingDir(mainDir), dir + "-" + c.n + SplitExt(c.origin).1)
    ensures PdfTarget(StagingDir(mainDir), c) == Join(StagingDir(mainDir), dir + "-" + c.n + ".pdf")
  {
    StagedRenameName(StagingDir(mainDir), dir, c.n, SplitExt(c.origin).1);
    BasenameOfJoin(StagingDir(mainDir), dir);
  }

  lemma StagedRenameName(staging: string, dir: string, n: string, ext: string)
    requires |dir| > 0 && NoSep(dir)
    ensures Join(staging, dir) + "-" + n + ext == Join(staging, dir + "-" + n + ext)
  {
    var t := "-" + n + ext;
    assert dir[0] != '/';
    JoinExtend(staging, dir, t);
    assert Join(staging, dir) + "-" + n + ext == Join(staging, dir) + t;
    assert dir + "-" + n + ext == dir + t;
  }
}
