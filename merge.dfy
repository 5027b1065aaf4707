/** `mergeImages`, `makeTempPdf` and `makeVolume`, merge.py:134-228 and 385-418:
    the staged units are packed into the final archives. A PDF writer collects
    the pages of the files appended to it; a zip archive records its entry names
    in the order they are written. */
module Merge {
  import opened Common
  import opened Paths
  import opened Files
  import opened Segment
  import opened Volumes

  /** Every name of `ps`, resolved against `cwd`, is a regular file. */
  predicate Present(files: FileMap, cwd: string, ps: seq<string>)
  {
    forall i :: 0 <= i < |ps| ==> Join(cwd, ps[i]) in files
  }

  /** The pages a `PdfWriter` holds after `append` of each file of `ps`, in order. */
  function Pages(files: FileMap, cwd: string, ps: seq<string>): seq<string>
    requires Present(files, cwd, ps)
  {
    if ps == [] then []
    else
      assert Present(files, cwd, ps[..|ps| - 1]) by {
        assert forall i :: 0 <= i < |ps| - 1 ==> ps[..|ps| - 1][i] == ps[i];
      }
      Pages(files, cwd, ps[..|ps| - 1]) + files[Join(cwd, ps[|ps| - 1])]
  }

  lemma PagesSnoc(files: FileMap, cwd: string, ps: seq<string>, p: string)
    requires Present(files, cwd, ps + [p])
    ensures Present(files, cwd, ps) && Join(cwd, p) in files
    ensures Pages(files, cwd, ps + [p]) == Pages(files, cwd, ps) + files[Join(cwd, p)]
  {
    assert (ps + [p])[..|ps|] == ps;
    assert forall i :: 0 <= i < |ps| ==> ps[i] == (ps + [p])[i];
    assert (ps + [p])[|ps|] == p;
  }

  lemma PresentAppend(files: FileMap, cwd: string, a: seq<string>, b: seq<string>)
    ensures Present(files, cwd, a + b) <==> Present(files, cwd, a) && Present(files, cwd, b)
  {
    assert forall i :: 0 <= i < |a| ==> a[i] == (a + b)[i];
    assert forall i :: 0 <= i < |b| ==> b[i] == (a + b)[|a| + i];
  }

  /** Appending two lists of files one after the other gives the pages of both. */
  lemma {:induction false} PagesAppend(files: FileMap, cwd: string, a: seq<string>, b: seq<string>)
    requires Present(files, cwd, a) && Present(files, cwd, b)
    ensures Present(files, cwd, a + b)
    ensures Pages(files, cwd, a + b) == Pages(files, cwd, a) + Pages(files, cwd, b)
    decreases |b|
  {
    PresentAppend(files, cwd, a, b);
    if b == [] {
      assert a + b == a;
    } else {
      var init, p := b[..|b| - 1], b[|b| - 1];
      assert a + b == (a + init) + [p];
      assert b == init + [p];
      PagesSnoc(files, cwd, a + init, p);
      PagesSnoc(files, cwd, init, p);
      PagesAppend(files, cwd, a, init);
    }
  }

  /** Pages only depend on the files read. */
  lemma {:induction false} PagesFrame(f1: FileMap, f2: FileMap, cwd: string, ps: seq<string>)
    requires Present(f1, cwd, ps)
    requires forall i :: 0 <= i < |ps| ==> Join(cwd, ps[i]) in f2 && f2[Join(cwd, ps[i])] == f1[Join(cwd, ps[i])]
    ensures Present(f2, cwd, ps) && Pages(f2, cwd, ps) == Pages(f1, cwd, ps)
    decreases |ps|
  {
    if ps != [] {
      var init, p := ps[..|ps| - 1], ps[|ps| - 1];
      assert ps == init + [p];
      PagesSnoc(f1, cwd, init, p);
      assert forall i :: 0 <= i < |init| ==> init[i] == ps[i];
      PagesFrame(f1, f2, cwd, init);
      PagesSnoc(f2, cwd, init, p);
    }
  }

  /** A `PdfWriter` that appends the files `ps` in turn (merge.py:393-395,
      409-411 and 209-214). */
  method AppendPages(files: FileMap, cwd: string, ps: seq<string>) returns (pages: seq<string>)
    requires Present(files, cwd, ps)
    ensures pages == Pages(files, cwd, ps)
  {
    pages := [];
    for i := 0 to |ps|
      invariant Present(files, cwd, ps[..i])
      invariant pages == Pages(files, cwd, ps[..i])
    {
      assert ps[..i + 1] == ps[..i] + [ps[i]];
      PagesSnoc(files, cwd, ps[..i], ps[i]);
      pages := pages + files[Join(cwd, ps[i])];
    }
    assert ps[..|ps|] == ps;
  }

  /** A zip archive opened for writing, to which `zf.write(img)` adds each image
      of `imgs` (merge.py:224-227 and 415-418). Each image is read, so each must
      be a regular file; the entries come out in exactly the given order. */
  method WriteEntries(files: FileMap, cwd: string, imgs: seq<string>) returns (entries: seq<string>)
    requires Present(files, cwd, imgs)
    ensures entries == imgs
  {
    entries := [];
    for i := 0 to |imgs|
      invariant entries == imgs[..i]
    {
      assert Join(cwd, imgs[i]) in files;
      entries := entries + [imgs[i]];
      assert imgs[..i + 1] == imgs[..i] + [imgs[i]];
    }
    assert imgs[..|imgs|] == imgs;
  }

  /** `makeTempPdf(path, imgs)` in the working directory `cwd`. */
  method MakeTempPdf(fs: FileSystem, cwd: string, path: string, imgs: seq<string>) returns (r: FileSystem)
    requires Present(fs.files, cwd, imgs)
    ensures r == WriteFile(fs, Join(cwd, path), Pages(fs.files, cwd, imgs))
  {
    var pages := AppendPages(fs.files, cwd, imgs);
    r := WriteFile(fs, Join(cwd, path), pages);
  }

  /** What a volume archive holds: the pages of its units for a PDF, the unit
      names as entries for a zip. */
  function VolumeContent(files: FileMap, cwd: string, isPdf: bool, imgs: seq<string>): seq<string>
    requires Present(files, cwd, imgs)
  {
    if isPdf then Pages(files, cwd, imgs) else imgs
  }

  /** `makeVolume(path, isPdf, imgs)` in the working directory `cwd`. */
  method MakeVolume(fs: FileSystem, cwd: string, path: string, isPdf: bool, imgs: seq<string>) returns (r: FileSystem)
    requires Present(fs.files, cwd, imgs)
    ensures r == WriteFile(fs, Join(cwd, path), VolumeContent(fs.files, cwd, isPdf, imgs))
  {
    if isPdf {
      var pages := AppendPages(fs.files, cwd, imgs);
      r := WriteFile(fs, Join(cwd, path), pages);
    } else {
      var entries := WriteEntries(fs.files, cwd, imgs);
      r := WriteFile(fs, Join(cwd, path), entries);
    }
  }

  // ---------------------------------------------------------------------
  // Paths used by mergeImages.

  /** `path.join(topDir, ZIP_DIR)`: the staged units; also the working directory
      of the merge (merge.py:152-153). */
  function ImgsDir(topDir: string): string
  {
    Join(topDir, ZipDir)
  }

  /** `path.join(topDir, 'zipped_volumes')`. */
  function VolsDir(topDir: string): string
  {
    Join(topDir, VolumesDir)
  }

  /** `ARCHIVE_EXT`. */
  function ArchiveExt(isPdf: bool): string
  {
    if isPdf then ".pdf" else ".cbz"
  }

  /** `ARCHIVE`: `path.join(topDir, args.archive + ARCHIVE_EXT)`. */
  function ArchivePath(topDir: string, archive: string, isPdf: bool): string
  {
    Join(topDir, archive + ArchiveExt(isPdf))
  }

  /** Temporary file `i`: `path.join(topDir, args.archive + '-' + str(i) + '.pdf')`. */
  function TempName(topDir: string, archive: string, i: nat): string
  {
    Join(topDir, archive + "-" + NatToString(i) + ".pdf")
  }

  /** The first `m` temporary files. */
  function TempNames(topDir: string, archive: string, m: nat): (r: seq<string>)
    ensures |r| == m && forall i :: 0 <= i < m ==> r[i] == TempName(topDir, archive, i)
  {
    seq(m, i requires 0 <= i < m => TempName(topDir, archive, i))
  }

  /** Names as `os.listdir` returns them: single, non-empty path components. */
  predicate Names(ps: seq<string>)
  {
    forall i :: 0 <= i < |ps| ==> |ps[i]| > 0 && NoSep(ps[i])
  }

  lemma NoSepTempName(archive: string, i: nat)
    requires NoSep(archive)
    ensures NoSep(archive + "-" + NatToString(i) + ".pdf")
    ensures !IsAbsolute(archive + "-" + NatToString(i) + ".pdf")
  {
    NoSepConcat(archive, "-");
    NoSepConcat(archive + "-", NatToString(i));
    NoSepConcat(archive + "-" + NatToString(i), ".pdf");
  }

  /** A staged unit is never a file directly under the main directory. */
  lemma StagedNotTop(topDir: string, s: string, name: string)
    requires NoSep(s) && |name| > 0 && NoSep(name)
    ensures Join(ImgsDir(topDir), name) != Join(topDir, s)
  {
    JoinAssoc(topDir, ZipDir, name);
    assert name[0] != '/';
    var z := Join(ZipDir, name);
    assert z == ZipDir + "/" + name;
    assert z[6] == '/';
    if Join(topDir, z) == Join(topDir, s) {
      JoinInjective(topDir, z, s);
    }
  }

  /** A staged unit is never a volume archive. */
  lemma StagedNotVolume(topDir: string, s: string, name: string)
    requires !IsAbsolute(s) && |name| > 0 && NoSep(name)
    ensures Join(ImgsDir(topDir), name) != Join(VolsDir(topDir), s)
  {
    JoinAssoc(topDir, ZipDir, name);
    JoinAssoc(topDir, VolumesDir, s);
    assert name[0] != '/';
    var z, v := Join(ZipDir, name), Join(VolumesDir, s);
    assert z == ZipDir + "/" + name && z[5] == 'r';
    assert v == VolumesDir + "/" + s && v[5] == 'd';
    if Join(topDir, z) == Join(topDir, v) {
      JoinInjective(topDir, z, v);
    }
  }

  /** Distinct counters give distinct temporary files, none of them the archive. */
  lemma TempNamesSeparate(topDir: string, archive: string, i: nat, j: nat)
    requires NoSep(archive)
    ensures TempName(topDir, archive, i) == TempName(topDir, archive, j) ==> i == j
    ensures TempName(topDir, archive, i) != ArchivePath(topDir, archive, true)
  {
    NoSepTempName(archive, i);
    NoSepTempName(archive, j);
    var si, sj := archive + "-" + NatToString(i) + ".pdf", archive + "-" + NatToString(j) + ".pdf";
    if TempName(topDir, archive, i) == TempName(topDir, archive, j) {
      JoinInjective(topDir, si, sj);
      NumberedNameUnique(archive + "-", i, ".pdf", j, ".pdf");
    }
    NoSepConcat(archive, ".pdf");
    if TempName(topDir, archive, i) == ArchivePath(topDir, archive, true) {
      JoinInjective(topDir, si, archive + ".pdf");
    }
  }

  // ---------------------------------------------------------------------
  // The default PDF branch of mergeImages (merge.py:185-221).

  /** After the temporary files `queue` were made from the first `|queue|`
      segments: each holds the pages of its segment and nothing else changed. */
  ghost predicate TempsWritten(fs: FileSystem, r: FileSystem, cwd: string, sets: seq<seq<string>>, queue: seq<string>)
  {
    && |queue| <= |sets|
    && r.dirs == fs.dirs
    && (forall t :: 0 <= t < |queue| ==>
          Present(fs.files, cwd, sets[t]) && queue[t] in r.files && r.files[queue[t]] == Pages(fs.files, cwd, sets[t]))
    && (forall p :: p !in queue ==> (p in r.files <==> p in fs.files))
    && (forall p :: p !in queue && p in fs.files ==> r.files[p] == fs.files[p])
  }

  lemma TempStep(fs: FileSystem, r: FileSystem, cwd: string, sets: seq<seq<string>>, queue: seq<string>,
                 k: nat, temp: string, next: seq<string>)
    requires TempsWritten(fs, r, cwd, sets, queue) && |queue| == k < |sets|
    requires Present(fs.files, cwd, sets[k])
    requires forall i :: 0 <= i < |sets[k]| ==> Join(cwd, sets[k][i]) !in queue
    requires IsAbsolute(temp) && temp !in queue && next == queue + [temp]
    ensures Present(r.files, cwd, sets[k])
    ensures TempsWritten(fs, WriteFile(r, Join(cwd, temp), Pages(r.files, cwd, sets[k])), cwd, sets, next)
  {
    PagesFrame(fs.files, r.files, cwd, sets[k]);
    assert Join(cwd, temp) == temp;
    var pages := Pages(r.files, cwd, sets[k]);
    var r' := WriteFile(r, temp, pages);
    forall t | 0 <= t < |next|
      ensures Present(fs.files, cwd, sets[t]) && next[t] in r'.files && r'.files[next[t]] == Pages(fs.files, cwd, sets[t])
    {
      if t < k {
        assert next[t] == queue[t] && queue[t] != temp;
      }
    }
    forall p | p !in next
      ensures (p in r'.files <==> p in fs.files) && (p in fs.files ==> r'.files[p] == fs.files[p])
    {
      assert p !in queue && p != temp;
    }
  }

  /** One iteration of the first loop keeps `TempsWritten`: the next temporary
      file is new and is none of the staged units it is made from. */
  lemma TempNext(fs: FileSystem, r: FileSystem, topDir: string, archive: string, sets: seq<seq<string>>, k: nat)
    requires IsAbsolute(topDir) && NoSep(archive) && k < |sets|
    requires Names(sets[k]) && Present(fs.files, ImgsDir(topDir), sets[k])
    requires TempsWritten(fs, r, ImgsDir(topDir), sets, TempNames(topDir, archive, k))
    ensures Present(r.files, ImgsDir(topDir), sets[k])
    ensures TempNames(topDir, archive, k) + [TempName(topDir, archive, k)] == TempNames(topDir, archive, k + 1)
    ensures TempsWritten(fs, WriteFile(r, Join(ImgsDir(topDir), TempName(topDir, archive, k)), Pages(r.files, ImgsDir(topDir), sets[k])),
                         ImgsDir(topDir), sets, TempNames(topDir, archive, k + 1))
  {
    var queue, temp, next := TempNames(topDir, archive, k), TempName(topDir, archive, k), TempNames(topDir, archive, k + 1);
    StagedNotInQueue(topDir, archive, sets[k], queue);
    TempFresh(topDir, archive, k);
    TempNamesSnoc(topDir, archive, k);
    TempStep(fs, r, ImgsDir(topDir), sets, queue, k, temp, next);
  }

  lemma TempNamesSnoc(topDir: string, archive: string, k: nat)
    ensures TempNames(topDir, archive, k) + [TempName(topDir, archive, k)] == TempNames(topDir, archive, k + 1)
  {
    assert TempNames(topDir, archive, k) + [TempName(topDir, archive, k)] == TempNames(topDir, archive, k + 1);
  }

  lemma TempFresh(topDir: string, archive: string, k: nat)
    requires IsAbsolute(topDir) && NoSep(archive)
    ensures IsAbsolute(TempName(topDir, archive, k))
    ensures TempName(topDir, archive, k) !in TempNames(topDir, archive, k)
  {
    var queue := TempNames(topDir, archive, k);
    forall t | 0 <= t < |queue| ensures queue[t] != TempName(topDir, archive, k) {
      TempNamesSeparate(topDir, archive, t, k);
    }
  }

  /** Every name of a segment is a name of the whole listing. */
  lemma SegmentNames(files: FileMap, cwd: string, allImgs: seq<string>, sets: seq<seq<string>>, k: nat)
    requires Names(allImgs) && Present(files, cwd, allImgs) && Flatten(sets) == allImgs && k < |sets|
    ensures Names(sets[k]) && Present(files, cwd, sets[k])
  {
    forall j | 0 <= j < |sets[k]| ensures |sets[k][j]| > 0 && NoSep(sets[k][j]) && Join(cwd, sets[k][j]) in files {
      FlattenMember(sets, sets[k][j]);
    }
  }

  /** Temporary files written so far are never staged units. */
  lemma StagedNotInQueue(topDir: string, archive: string, names: seq<string>, queue: seq<string>)
    requires NoSep(archive) && Names(names)
    requires queue == TempNames(topDir, archive, |queue|)
    ensures forall i :: 0 <= i < |names| ==> Join(ImgsDir(topDir), names[i]) !in queue
  {
    forall i, t | 0 <= i < |names| && 0 <= t < |queue| ensures Join(ImgsDir(topDir), names[i]) != queue[t] {
      NoSepTempName(archive, t);
      StagedNotTop(topDir, archive + "-" + NatToString(t) + ".pdf", names[i]);
    }
  }

  /** Temporary file `t` of `queue` holds the pages of segment `t` of `sets`. */
  ghost predicate HoldsSegments(f2: FileMap, f1: FileMap, cwd: string, queue: seq<string>, sets: seq<seq<string>>)
  {
    && |queue| == |sets|
    && forall t :: 0 <= t < |queue| ==>
         Join(cwd, queue[t]) in f2 && Present(f1, cwd, sets[t]) && f2[Join(cwd, queue[t])] == Pages(f1, cwd, sets[t])
  }

  lemma HoldsSegmentsInit(f2: FileMap, f1: FileMap, cwd: string, queue: seq<string>, sets: seq<seq<string>>)
    requires HoldsSegments(f2, f1, cwd, queue, sets) && queue != []
    ensures HoldsSegments(f2, f1, cwd, queue[..|queue| - 1], sets[..|sets| - 1])
    ensures Join(cwd, queue[|queue| - 1]) in f2 && Present(f1, cwd, sets[|sets| - 1])
    ensures f2[Join(cwd, queue[|queue| - 1])] == Pages(f1, cwd, sets[|sets| - 1])
  {
  }

  /** The temporary files, being absolute, resolve to themselves from the
      staging folder. */
  lemma QueueHoldsSegments(fs: FileSystem, r: FileSystem, topDir: string, archive: string,
                           sets: seq<seq<string>>, queue: seq<string>)
    requires TempsWritten(fs, r, ImgsDir(topDir), sets, queue) && |queue| == |sets|
    requires IsAbsolute(topDir) && NoSep(archive) && queue == TempNames(topDir, archive, |sets|)
    ensures HoldsSegments(r.files, fs.files, ImgsDir(topDir), queue, sets)
  {
    var cwd := ImgsDir(topDir);
    forall t | 0 <= t < |queue|
      ensures Join(cwd, queue[t]) in r.files && Present(fs.files, cwd, sets[t])
      ensures r.files[Join(cwd, queue[t])] == Pages(fs.files, cwd, sets[t])
    {
      NoSepTempName(archive, t);
      assert IsAbsolute(queue[t]);
      assert Join(cwd, queue[t]) == queue[t];
    }
  }

  /** Appending the temporary files in creation order gives the pages of the
      whole listing. */
  lemma {:induction false} PagesOfQueue(f2: FileMap, f1: FileMap, cwd: string, queue: seq<string>, sets: seq<seq<string>>)
    requires HoldsSegments(f2, f1, cwd, queue, sets)
    ensures Present(f1, cwd, Flatten(sets)) && Present(f2, cwd, queue)
    ensures Pages(f2, cwd, queue) == Pages(f1, cwd, Flatten(sets))
    decreases |queue|
  {
    if queue == [] {
      assert Flatten(sets) == [];
    } else {
      var n := |queue| - 1;
      HoldsSegmentsInit(f2, f1, cwd, queue, sets);
      PagesOfQueue(f2, f1, cwd, queue[..n], sets[..n]);
      PagesOfQueueStep(f2, f1, cwd, queue, sets);
    }
  }

  /** One more temporary file holding one more segment. */
  lemma PagesOfQueueStep(f2: FileMap, f1: FileMap, cwd: string, queue: seq<string>, sets: seq<seq<string>>)
    requires |queue| == |sets| > 0
    requires var n := |queue| - 1;
             && Present(f1, cwd, Flatten(sets[..n])) && Present(f2, cwd, queue[..n])
             && Pages(f2, cwd, queue[..n]) == Pages(f1, cwd, Flatten(sets[..n]))
             && Join(cwd, queue[n]) in f2 && Present(f1, cwd, sets[n]) && f2[Join(cwd, queue[n])] == Pages(f1, cwd, sets[n])
    ensures Present(f1, cwd, Flatten(sets)) && Present(f2, cwd, queue)
    ensures Pages(f2, cwd, queue) == Pages(f1, cwd, Flatten(sets))
  {
    var n := |queue| - 1;
    var qi, si, last, seg := queue[..n], sets[..n], queue[n], sets[n];
    assert queue == qi + [last];
    assert sets == si + [seg];
    PagesOfQueueSnoc(f2, f1, cwd, qi, last, si, seg);
  }

  lemma PagesOfQueueSnoc(f2: FileMap, f1: FileMap, cwd: string, qi: seq<string>, last: string,
                         si: seq<seq<string>>, seg: seq<string>)
    requires Present(f1, cwd, Flatten(si)) && Present(f2, cwd, qi)
    requires Pages(f2, cwd, qi) == Pages(f1, cwd, Flatten(si))
    requires Join(cwd, last) in f2 && Present(f1, cwd, seg) && f2[Join(cwd, last)] == Pages(f1, cwd, seg)
    ensures Present(f1, cwd, Flatten(si + [seg])) && Present(f2, cwd, qi + [last])
    ensures Pages(f2, cwd, qi + [last]) == Pages(f1, cwd, Flatten(si + [seg]))
  {
    FlattenSnoc(si, seg);
    PagesAppend(f1, cwd, Flatten(si), seg);
    PresentAppend(f2, cwd, qi, [last]);
    PagesSnoc(f2, cwd, qi, last);
  }

  /** While the queue is emptied from the back: the files popped so far are gone
      and nothing else changed since the archive was written. */
  ghost predicate Cleaned(w: FileSystem, r: FileSystem, temps: seq<string>, q: nat)
    requires q <= |temps|
  {
    && r.dirs == w.dirs
    && (forall t :: q <= t < |temps| ==> temps[t] !in r.files)
    && (forall p :: p !in temps[q..] ==> (p in r.files <==> p in w.files))
    && (forall p :: p !in temps[q..] && p in w.files ==> r.files[p] == w.files[p])
  }

  lemma CleanStep(w: FileSystem, r: FileSystem, temps: seq<string>, q: nat)
    requires 0 < q <= |temps| && Cleaned(w, r, temps, q)
    requires temps[q - 1] in w.files
    requires temps[q - 1] !in temps[q..]
    ensures temps[q - 1] in r.files
    ensures Cleaned(w, RemoveFile(r, temps[q - 1]), temps, q - 1)
  {
    assert temps[q - 1..] == [temps[q - 1]] + temps[q..];
  }

  /** The state the default PDF branch leaves: the archive holds the pages of
      every listed unit in listing order, every temporary file is gone, and
      nothing else changed. */
  ghost predicate PdfMerged(fs: FileSystem, r: FileSystem, topDir: string, archive: string,
                            allImgs: seq<string>, temps: seq<string>)
  {
    && Present(fs.files, ImgsDir(topDir), allImgs)
    && temps == TempNames(topDir, archive, |SegmentImgs(allImgs, MaxOpenFiles)|)
    && r.dirs == fs.dirs
    && ArchivePath(topDir, archive, true) in r.files
    && r.files[ArchivePath(topDir, archive, true)] == Pages(fs.files, ImgsDir(topDir), allImgs)
    && (forall t :: 0 <= t < |temps| ==> temps[t] !in r.files)
    && (forall p :: p != ArchivePath(topDir, archive, true) && p !in temps ==> (p in r.files <==> p in fs.files))
    && (forall p :: p != ArchivePath(topDir, archive, true) && p !in temps && p in fs.files ==> r.files[p] == fs.files[p])
  }

  /** The first loop of the default PDF branch (merge.py:194-202): one
      temporary PDF per segment, named by a counter from 0, queued in order. */
  method WriteTemps(fs: FileSystem, topDir: string, archive: string, imgsSets: seq<seq<string>>)
      returns (r: FileSystem, queue: seq<string>)
    requires IsAbsolute(topDir) && NoSep(archive)
    requires forall k :: 0 <= k < |imgsSets| ==> Names(imgsSets[k]) && Present(fs.files, ImgsDir(topDir), imgsSets[k])
    ensures queue == TempNames(topDir, archive, |imgsSets|)
    ensures TempsWritten(fs, r, ImgsDir(topDir), imgsSets, queue)
  {
    var imgsDir := Join(topDir, ZipDir);
    queue := [];
    var counter := 0;
    r := fs;
    for k := 0 to |imgsSets|
      invariant counter == k && queue == TempNames(topDir, archive, k)
      invariant TempsWritten(fs, r, imgsDir, imgsSets, queue)
    {
      var imgs := imgsSets[k];
      var temp := Join(topDir, archive + "-" + NatToString(counter) + ".pdf");
      TempNext(fs, r, topDir, archive, imgsSets, k);
      r := MakeTempPdf(r, imgsDir, temp, imgs);
      counter := counter + 1;
      queue := queue + [temp];
    }
  }

  /** The last loop of the default PDF branch (merge.py:220-221): the queue is
      popped from the back and each file removed. */
  method RemoveTemps(w: FileSystem, temps: seq<string>) returns (r: FileSystem)
    requires forall t :: 0 <= t < |temps| ==> temps[t] in w.files
    requires forall s, t :: 0 <= s < t < |temps| ==> temps[s] != temps[t]
    ensures Cleaned(w, r, temps, 0)
  {
    var queue := temps;
    r := w;
    while queue != []
      invariant |queue| <= |temps| && queue == temps[..|queue|]
      invariant Cleaned(w, r, temps, |queue|)
    {
      var q := |queue|;
      CleanStep(w, r, temps, q);
      r := RemoveFile(r, queue[q - 1]);
      queue := queue[..q - 1];
    }
  }

  /** The default branch with `--pdf`, on the sorted listing `allImgs` of the
      staging folder: one temporary PDF per segment of at most 250 units, the
      temporary files appended in creation order to the archive, then popped
      from the queue and removed. */
  method MergeDefaultPdf(fs: FileSystem, topDir: string, archive: string, allImgs: seq<string>)
      returns (r: FileSystem, temps: seq<string>)
    requires IsAbsolute(topDir) && NoSep(archive)
    requires Names(allImgs) && Present(fs.files, ImgsDir(topDir), allImgs)
    ensures PdfMerged(fs, r, topDir, archive, allImgs, temps)
  {
    var imgsDir := Join(topDir, ZipDir);
    var archivePath := Join(topDir, archive + ".pdf");
    var imgsSets := SegmentImgs(allImgs, MaxOpenFiles);
    forall k | 0 <= k < |imgsSets| ensures Names(imgsSets[k]) && Present(fs.files, imgsDir, imgsSets[k]) {
      SegmentNames(fs.files, imgsDir, allImgs, imgsSets, k);
    }
    var queue;
    r, queue := WriteTemps(fs, topDir, archive, imgsSets);
    QueueHoldsSegments(fs, r, topDir, archive, imgsSets, queue);
    PagesOfQueue(r.files, fs.files, imgsDir, queue, imgsSets);
    var merged := AppendPages(r.files, imgsDir, queue);
    ghost var written := r;
    r := WriteFile(r, archivePath, merged);
    temps := queue;
    TempsDistinct(topDir, archive, |temps|);
    ghost var w := r;
    r := RemoveTemps(r, temps);
    PdfDone(fs, written, w, r, topDir, archive, allImgs, temps);
  }

  /** The temporary files are pairwise distinct and none is the archive. */
  lemma TempsDistinct(topDir: string, archive: string, m: nat)
    requires NoSep(archive)
    ensures forall s, t :: 0 <= s < t < m ==> TempNames(topDir, archive, m)[s] != TempNames(topDir, archive, m)[t]
    ensures ArchivePath(topDir, archive, true) !in TempNames(topDir, archive, m)
  {
    var temps := TempNames(topDir, archive, m);
    forall s, t | 0 <= s < t < m ensures temps[s] != temps[t] {
      TempNamesSeparate(topDir, archive, s, t);
    }
    forall t | 0 <= t < m ensures temps[t] != ArchivePath(topDir, archive, true) {
      TempNamesSeparate(topDir, archive, t, t);
    }
  }

  /** Writing the archive over the temporary files and then removing them leaves
      the state `PdfMerged` describes. */
  lemma PdfDone(fs: FileSystem, written: FileSystem, w: FileSystem, r: FileSystem, topDir: string, archive: string,
                allImgs: seq<string>, temps: seq<string>)
    requires Present(fs.files, ImgsDir(topDir), allImgs)
    requires temps == TempNames(topDir, archive, |SegmentImgs(allImgs, MaxOpenFiles)|)
    requires TempsWritten(fs, written, ImgsDir(topDir), SegmentImgs(allImgs, MaxOpenFiles), temps)
    requires w == WriteFile(written, ArchivePath(topDir, archive, true), Pages(fs.files, ImgsDir(topDir), allImgs))
    requires ArchivePath(topDir, archive, true) !in temps
    requires Cleaned(w, r, temps, 0)
    ensures PdfMerged(fs, r, topDir, archive, allImgs, temps)
  {
    assert temps[0..] == temps;
  }

  // ---------------------------------------------------------------------
  // The default zip branch of mergeImages (merge.py:223-227).

  /** Without `--pdf`: the archive's entries are the sorted listing, in order. */
  method MergeDefaultZip(fs: FileSystem, topDir: string, archive: string, allImgs: seq<string>)
      returns (r: FileSystem)
    requires Present(fs.files, ImgsDir(topDir), allImgs)
    ensures r == WriteFile(fs, ArchivePath(topDir, archive, false), allImgs)
  {
    var archivePath := Join(topDir, archive + ".cbz");
    var entries := WriteEntries(fs.files, Join(topDir, ZipDir), allImgs);
    r := WriteFile(fs, archivePath, entries);
  }

  // ---------------------------------------------------------------------
  // The --volumize branch of mergeImages (merge.py:157-181).

  /** `path.join(VOLS_DIR, volume + ARCHIVE_EXT)`. */
  function VolumePath(topDir: string, vol: string, isPdf: bool): string
  {
    Join(VolsDir(topDir), vol + ArchiveExt(isPdf))
  }

  /** The archive paths of the volumes, in the dictionary's order. */
  function VolumePaths(topDir: string, isPdf: bool, vols: VolumeMap): (r: seq<string>)
    ensures |r| == |vols| && forall i :: 0 <= i < |vols| ==> r[i] == VolumePath(topDir, vols[i].0, isPdf)
  {
    seq(|vols|, i requires 0 <= i < |vols| => VolumePath(topDir, vols[i].0, isPdf))
  }

  lemma VolumeNameRelative(vol: string, isPdf: bool)
    requires NoSep(vol)
    ensures !IsAbsolute(vol + ArchiveExt(isPdf))
  {
    if vol != [] {
      assert (vol + ArchiveExt(isPdf))[0] == vol[0];
    }
  }

  /** Distinct volume keys give distinct archives. */
  lemma VolumePathInjective(topDir: string, v1: string, v2: string, isPdf: bool)
    requires NoSep(v1) && NoSep(v2)
    requires VolumePath(topDir, v1, isPdf) == VolumePath(topDir, v2, isPdf)
    ensures v1 == v2
  {
    VolumeNameRelative(v1, isPdf);
    VolumeNameRelative(v2, isPdf);
    JoinInjective(VolsDir(topDir), v1 + ArchiveExt(isPdf), v2 + ArchiveExt(isPdf));
    assert v1 == (v1 + ArchiveExt(isPdf))[..|v1|];
  }

  /** The dictionary the loop reads: distinct keys that are single path
      components, each with a list of staged units. */
  predicate Storable(fs: FileSystem, topDir: string, vols: VolumeMap)
  {
    && Distinct(Keys(vols))
    && forall i :: 0 <= i < |vols| ==> NoSep(vols[i].0) && Names(vols[i].1) && Present(fs.files, ImgsDir(topDir), vols[i].1)
  }

  /** After the volumes `vols` were archived: each archive holds its units'
      content, read before any archive was written, and nothing else changed. */
  ghost predicate VolumesWritten(fs: FileSystem, r: FileSystem, topDir: string, isPdf: bool, vols: VolumeMap)
  {
    && r.dirs == fs.dirs
    && (forall i :: 0 <= i < |vols| ==>
          Present(fs.files, ImgsDir(topDir), vols[i].1) && VolumePath(topDir, vols[i].0, isPdf) in r.files
          && r.files[VolumePath(topDir, vols[i].0, isPdf)] == VolumeContent(fs.files, ImgsDir(topDir), isPdf, vols[i].1))
    && (forall p :: p !in VolumePaths(topDir, isPdf, vols) ==> (p in r.files <==> p in fs.files))
    && (forall p :: p !in VolumePaths(topDir, isPdf, vols) && p in fs.files ==> r.files[p] == fs.files[p])
  }

  /** Archiving one more volume `e` after the volumes `done`. */
  lemma VolumesWrittenSnoc(fs: FileSystem, r: FileSystem, topDir: string, isPdf: bool, done: VolumeMap, e: (string, seq<string>))
    requires VolumesWritten(fs, r, topDir, isPdf, done)
    requires NoSep(e.0) && Names(e.1) && Present(fs.files, ImgsDir(topDir), e.1)
    requires forall i :: 0 <= i < |done| ==> NoSep(done[i].0) && done[i].0 != e.0
    ensures Present(r.files, ImgsDir(topDir), e.1)
    ensures VolumeContent(r.files, ImgsDir(topDir), isPdf, e.1) == VolumeContent(fs.files, ImgsDir(topDir), isPdf, e.1)
    ensures VolumesWritten(fs, WriteFile(r, VolumePath(topDir, e.0, isPdf), VolumeContent(r.files, ImgsDir(topDir), isPdf, e.1)),
                           topDir, isPdf, done + [e])
  {
    var imgsDir, imgs, path := ImgsDir(topDir), e.1, VolumePath(topDir, e.0, isPdf);
    var paths := VolumePaths(topDir, isPdf, done);
    forall j | 0 <= j < |imgs| ensures Join(imgsDir, imgs[j]) !in paths {
      forall i | 0 <= i < |done| ensures Join(imgsDir, imgs[j]) != paths[i] {
        VolumeNameRelative(done[i].0, isPdf);
        StagedNotVolume(topDir, done[i].0 + ArchiveExt(isPdf), imgs[j]);
      }
    }
    PagesFrame(fs.files, r.files, imgsDir, imgs);
    assert path !in paths by {
      forall i | 0 <= i < |done| ensures paths[i] != path {
        if paths[i] == path {
          VolumePathInjective(topDir, done[i].0, e.0, isPdf);
        }
      }
    }
    var done' := done + [e];
    assert VolumePaths(topDir, isPdf, done') == paths + [path];
    assert forall i :: 0 <= i < |done| ==> done'[i] == done[i];
  }

  lemma VolumeStep(fs: FileSystem, r: FileSystem, topDir: string, isPdf: bool, vols: VolumeMap, k: nat)
    requires Storable(fs, topDir, vols) && k < |vols|
    requires VolumesWritten(fs, r, topDir, isPdf, vols[..k])
    ensures Present(r.files, ImgsDir(topDir), vols[k].1)
    ensures VolumeContent(r.files, ImgsDir(topDir), isPdf, vols[k].1) == VolumeContent(fs.files, ImgsDir(topDir), isPdf, vols[k].1)
    ensures VolumesWritten(fs, WriteFile(r, VolumePath(topDir, vols[k].0, isPdf),
                                         VolumeContent(r.files, ImgsDir(topDir), isPdf, vols[k].1)),
                           topDir, isPdf, vols[..k + 1])
  {
    assert vols[..k + 1] == vols[..k] + [vols[k]];
    assert forall i :: 0 <= i < k ==> vols[..k][i] == vols[i] && Keys(vols)[i] != Keys(vols)[k];
    VolumesWrittenSnoc(fs, r, topDir, isPdf, vols[..k], vols[k]);
  }

  /** The loop over `volumes.items()`: one `makeVolume` per entry, in order,
      run from the staging folder. */
  method MergeVolumes(fs: FileSystem, topDir: string, isPdf: bool, volumes: VolumeMap) returns (r: FileSystem)
    requires IsAbsolute(topDir) && Storable(fs, topDir, volumes)
    ensures VolumesWritten(fs, r, topDir, isPdf, volumes)
  {
    var imgsDir := Join(topDir, ZipDir);
    var volsDir := Join(topDir, VolumesDir);
    var archiveExt := if isPdf then ".pdf" else ".cbz";
    r := fs;
    for k := 0 to |volumes|
      invariant VolumesWritten(fs, r, topDir, isPdf, volumes[..k])
    {
      var (volume, imgs) := volumes[k];
      var currentArchive := Join(volsDir, volume + archiveExt);
      assert IsAbsolute(currentArchive);
      VolumeStep(fs, r, topDir, isPdf, volumes, k);
      r := MakeVolume(r, imgsDir, currentArchive, isPdf, imgs);
    }
    assert volumes[..|volumes|] == volumes;
  }

  /** What each of the lists `vss` puts in its archive. */
  function VolumeContents(files: FileMap, cwd: string, isPdf: bool, vss: seq<seq<string>>): (r: seq<seq<string>>)
    requires forall i :: 0 <= i < |vss| ==> Present(files, cwd, vss[i])
    ensures |r| == |vss| && forall i :: 0 <= i < |vss| ==> r[i] == VolumeContent(files, cwd, isPdf, vss[i])
  {
    seq(|vss|, i requires 0 <= i < |vss| && Present(files, cwd, vss[i]) => VolumeContent(files, cwd, isPdf, vss[i]))
  }

  /** Archiving lists one by one puts, all archives together, what a single
      archive of their concatenation holds. */
  lemma {:induction false} VolumeContentsFlatten(files: FileMap, cwd: string, isPdf: bool, vss: seq<seq<string>>)
    requires forall i :: 0 <= i < |vss| ==> Present(files, cwd, vss[i])
    ensures Present(files, cwd, Flatten(vss))
    ensures Flatten(VolumeContents(files, cwd, isPdf, vss)) == VolumeContent(files, cwd, isPdf, Flatten(vss))
    decreases |vss|
  {
    if vss == [] {
      assert Flatten(VolumeContents(files, cwd, isPdf, vss)) == [];
    } else {
      var n := |vss| - 1;
      var init, last := vss[..n], vss[n];
      assert vss == init + [last];
      VolumeContentsFlatten(files, cwd, isPdf, init);
      var cs := VolumeContents(files, cwd, isPdf, vss);
      assert cs == VolumeContents(files, cwd, isPdf, init) + [VolumeContent(files, cwd, isPdf, last)];
      FlattenSnoc(VolumeContents(files, cwd, isPdf, init), VolumeContent(files, cwd, isPdf, last));
      FlattenSnoc(init, last);
      PagesAppend(files, cwd, Flatten(init), last);
    }
  }

  /** The contents of the files `paths`, in order. */
  function ArchiveContents(files: FileMap, paths: seq<string>): (r: seq<seq<string>>)
    requires forall i :: 0 <= i < |paths| ==> paths[i] in files
    ensures |r| == |paths| && forall i :: 0 <= i < |paths| ==> r[i] == files[paths[i]]
  {
    seq(|paths|, i requires 0 <= i < |paths| && paths[i] in files => files[paths[i]])
  }

  /** The volume archives, together, hold what one archive of all the
      volumes' lists would. */
  lemma WrittenCover(fs: FileSystem, r: FileSystem, topDir: string, isPdf: bool, vols: VolumeMap)
    requires VolumesWritten(fs, r, topDir, isPdf, vols)
    ensures forall i :: 0 <= i < |vols| ==> VolumePaths(topDir, isPdf, vols)[i] in r.files
    ensures Present(fs.files, ImgsDir(topDir), Flatten(Values(vols)))
    ensures Flatten(ArchiveContents(r.files, VolumePaths(topDir, isPdf, vols)))
              == VolumeContent(fs.files, ImgsDir(topDir), isPdf, Flatten(Values(vols)))
  {
    var vs := Values(vols);
    VolumeContentsFlatten(fs.files, ImgsDir(topDir), isPdf, vs);
    assert ArchiveContents(r.files, VolumePaths(topDir, isPdf, vols)) == VolumeContents(fs.files, ImgsDir(topDir), isPdf, vs);
  }

  /** When every volume key occupies one run of the sorted listing, the volume
      archives taken in the dictionary's order hold, together, exactly what the
      single default archive of the listing would: the entries of the listing,
      or the pages of its units, in order. */
  lemma VolumesCoverListing(fs: FileSystem, r: FileSystem, topDir: string, isPdf: bool,
                            imgs: seq<string>, key: string -> Option<string>)
    requires AllMatch(imgs, key) && Contiguous(imgs, key)
    requires VolumesWritten(fs, r, topDir, isPdf, Build(Runs(imgs, key)))
    ensures forall i :: 0 <= i < |Build(Runs(imgs, key))| ==> VolumePaths(topDir, isPdf, Build(Runs(imgs, key)))[i] in r.files
    ensures Present(fs.files, ImgsDir(topDir), imgs)
    ensures Flatten(ArchiveContents(r.files, VolumePaths(topDir, isPdf, Build(Runs(imgs, key)))))
              == VolumeContent(fs.files, ImgsDir(topDir), isPdf, imgs)
  {
    VolumesContiguous(imgs, key);
    WrittenCover(fs, r, topDir, isPdf, Build(Runs(imgs, key)));
  }

  /** The volumes `getVolumes` returns from a listing of staged units can be
      archived: distinct keys, and units of the listing as values. */
  lemma VolumesStorable(fs: FileSystem, topDir: string, imgs: seq<string>, key: string -> Option<string>)
    requires imgs != [] && AllMatch(imgs, key)
    requires Names(imgs) && Present(fs.files, ImgsDir(topDir), imgs)
    requires forall x :: x in imgs && key(x).Some? ==> NoSep(key(x).value)
    ensures Storable(fs, topDir, Build(Runs(imgs, key)))
  {
    var v := Build(Runs(imgs, key));
    VolumesWellFormed(imgs, key);
    forall i | 0 <= i < |v| ensures NoSep(v[i].0) && Names(v[i].1) && Present(fs.files, ImgsDir(topDir), v[i].1) {
      assert key(v[i].1[0]) == Some(v[i].0) && v[i].1[0] in imgs;
      forall t | 0 <= t < |v[i].1| ensures |v[i].1[t]| > 0 && NoSep(v[i].1[t]) && Join(ImgsDir(topDir), v[i].1[t]) in fs.files {
        assert v[i].1[t] in imgs;
      }
    }
  }

  // ---------------------------------------------------------------------
  // mergeImages (merge.py:134-228).

  /** The staging folder's listing as `os.listdir` gives it: names of regular
      files of the folder. */
  predicate Staged(fs: FileSystem, topDir: string, names: seq<string>)
  {
    Names(names) && Present(fs.files, ImgsDir(topDir), names)
  }

  /** `natsorted` reorders the listing and keeps every name. */
  lemma SortedStaged(fs: FileSystem, topDir: string, names: seq<string>, sorted: seq<string>)
    requires Staged(fs, topDir, names) && multiset(sorted) == multiset(names)
    ensures Staged(fs, topDir, sorted)
  {
    forall i | 0 <= i < |sorted| ensures |sorted[i]| > 0 && NoSep(sorted[i]) && Join(ImgsDir(topDir), sorted[i]) in fs.files {
      assert sorted[i] in multiset(names);
    }
  }

  /** The `--volumize` branch on the sorted listing `imgs`: `getVolumes`, then
      one archive per volume. */
  method MergeVolumize(fs: FileSystem, topDir: string, isPdf: bool, key: string -> Option<string>, imgs: seq<string>)
      returns (r: FileSystem, err: Option<VolumeError>)
    requires IsAbsolute(topDir) && Staged(fs, topDir, imgs)
    requires forall x :: x in imgs && key(x).Some? ==> NoSep(key(x).value)
    ensures err.Some? <==> imgs == [] || !AllMatch(imgs, key)
    ensures imgs == [] ==> err == Some(EmptyListing)
    ensures err.Some? ==> r == fs
    ensures err.None? ==> VolumesWritten(fs, r, topDir, isPdf, Build(Runs(imgs, key)))
  {
    var volumes := GetVolumes(imgs, key);
    if volumes.Failure? {
      return fs, Some(volumes.error);
    }
    VolumesStorable(fs, topDir, imgs, key);
    r := MergeVolumes(fs, topDir, isPdf, volumes.value);
    err := None;
  }

  /** `mergeImages(args)` run from the main directory `topDir`, with `names` the
      listing of the staging folder, `natsort` standing for `natsorted`, `key`
      for the compiled `--volumize` pattern, and `archive` for `args.archive`.
      `err` is the exception `getVolumes` raises, with the state at that point:
      `zipped_volumes` was already made. */
  method MergeImages(fs: FileSystem, topDir: string, isPdf: bool, volumize: bool, key: string -> Option<string>,
                     archive: string, names: seq<string>, natsort: seq<string> -> seq<string>)
      returns (r: FileSystem, err: Option<VolumeError>)
    requires IsAbsolute(topDir) && VolsDir(topDir) !in fs.files
    requires Staged(fs, topDir, names) && multiset(natsort(names)) == multiset(names)
    requires !volumize ==> NoSep(archive)
    requires volumize ==> forall x :: x in names && key(x).Some? ==> NoSep(key(x).value)
    ensures err.Some? <==> volumize && (natsort(names) == [] || !AllMatch(natsort(names), key))
    ensures volumize && natsort(names) == [] ==> err == Some(EmptyListing)
    ensures err.Some? ==> r == MakeDirectory(fs, VolsDir(topDir))
    ensures volumize && err.None? ==>
              VolumesWritten(MakeDirectory(fs, VolsDir(topDir)), r, topDir, isPdf, Build(Runs(natsort(names), key)))
    ensures !volumize && isPdf ==>
              PdfMerged(MakeDirectory(fs, VolsDir(topDir)), r, topDir, archive, natsort(names),
                        TempNames(topDir, archive, |SegmentImgs(natsort(names), MaxOpenFiles)|))
    ensures !volumize && !isPdf ==>
              r == WriteFile(MakeDirectory(fs, VolsDir(topDir)), ArchivePath(topDir, archive, false), natsort(names))
  {
    var volsDir := Join(topDir, VolumesDir);
    var fs1 := MakeDirectory(fs, volsDir);
    var sorted := natsort(names);
    SortedStaged(fs1, topDir, names, sorted);
    err := None;
    if volumize {
      assert forall x :: x in sorted ==> x in names by {
        forall x | x in sorted ensures x in names {
          assert x in multiset(names);
        }
      }
      r, err := MergeVolumize(fs1, topDir, isPdf, key, sorted);
    } else if isPdf {
      var temps;
      r, temps := MergeDefaultPdf(fs1, topDir, archive, sorted);
    } else {
      r := MergeDefaultZip(fs1, topDir, archive, sorted);
    }
  }
}
