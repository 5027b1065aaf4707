# cbz-merger, modelled in Dafny

`merge.py` turns a folder of comic archives (`.cbz`/`.zip`) into a single
archive or PDF, or into one archive per volume. It works in three stages:

1. **Extraction.** Every top-level archive is extracted into
   `.extracted/<stem>`. The listing is split into round-robin partitions by
   `groupZips` for a worker pool.
2. **Staging.** Every image of every chapter folder goes into `zipper/` as
   `<chapter>-<n><ext>`. In PDF mode it goes there as the one-page PDF
   `<chapter>-<n>.pdf` instead. `n` counts from 0 in each folder.
3. **Merging.** The staged units go into one of three outputs:
   - a single `.cbz`;
   - a single `.pdf`, built through temporary PDFs of at most 250 units each;
   - one archive per volume. The volume key of a unit is the first match of
     a user regex in its name (`getVolumes`).

The model covers the list-shaping logic of these stages:

- **Common**: `str(n)` as decimal digits, and the flattening of lists of
  lists.
- **Paths**: `posixpath.join`, `basename` and `splitext`, and the constants
  `.extracted`, `zipper`, `zipped_volumes` and the 250-file cap.
- **Files**: the filesystem as a value, namely a set of directories and a
  map from regular files to their contents. The module also holds
  `makeDirectory`, a file write and `os.remove`.
- **Partition**: `groupZips` / `groupDirs`, which is `zips[i::n]`.
- **Segment**: `segmentImgs`.
- **Volumes**: `getVolumes`, with the Python dict as an ordered sequence of
  pairs.
- **Extract**: the filter and the target folder of `extractCbz`.
- **Transform**: `mapExtractedImages` with `renameKeepExtension` and
  `convertToPdf`.
- **Merge**: `mergeImages`, `makeTempPdf` and `makeVolume`.
- **Pipeline**: the extraction stage of `main`, with the partitions
  processed in turn.

How the model represents the source:

- **Archives and PDFs.**
  - A zip archive's content is its sequence of entry names.
  - A PDF's content is its sequence of pages. Each page is named after the
    image drawn on it.
  - `PdfWriter.append(p)` appends the pages of `p`.
- **Paths.** All paths are absolute strings, as the code builds them from
  `os.getcwd()` / `main_dir`. A name relative to the working directory is
  resolved with `path.join(cwd, name)`.
- **Parameters.** `natsorted`, the compiled regex (`string -> Option<string>`)
  and `os.listdir` are parameters.
- **Exceptions.** A Python exception the code does not handle is a
  precondition. Examples are `os.mkdir` on a path held by a file, and copying
  or appending a missing file. The two exceptions of `getVolumes` are the
  exception: they are modelled as a `Failure` result, because that is what
  the volume branch of `mergeImages` reports.

Two behaviours of merge.py are worth knowing when reading the model:

- `groupZips(zips, n)` with `n <= 0` returns `[]` (merge.py:363-373).
- `getVolumes` (merge.py:262-274) stores runs in a dict. A key that recurs after a gap
  overwrites the entry it already has. The entry keeps its first position,
  gets the later run, and the earlier run's units are dropped. A recurring
  key does not start a new volume. `Volumes.VolumesRecurringKey` shows this
  on the keys `[V1, V1, V2, V2, V1]`.

## Model

| member | source | states |
|---|---|---|
| Common.NatToString | merge.py:342 | `str(counter)`: at least one decimal digit, and a leading `0` only for the number 0 |
| Common.NatToStringRoundTrip | merge.py:342 | reading the digits back gives the counter |
| Common.NatToStringInjective | merge.py:342 | different counters give different strings |
| Common.NumberedNameUnique | merge.py:290 | `prefix + str(j) + ext` with `ext` empty or starting with `.` determines both `j` and `ext` |
| Paths.Join | merge.py:98 | `path.join(a, b)` onto an absolute folder is an absolute path |
| Paths.JoinShape | merge.py:98 | `path.join(a, b)` ends with `b`; for a relative `b` it is `a + b` or `a + "/" + b` |
| Paths.JoinInjective | merge.py:165 | joining onto the same folder keeps distinct names distinct (both relative or both absolute) |
| Paths.JoinAssoc | merge.py:336-341 | `path.join(path.join(a, b), c) == path.join(a, path.join(b, c))` for a non-empty relative `b` |
| Paths.Basename | merge.py:290 | `path.basename(p)` is a single component that ends `p`, preceded by a separator unless it is all of `p` |
| Paths.SplitExt | merge.py:96 | the two parts of `path.splitext` concatenate to the name; the extension is empty or a dot followed by neither dot nor separator |
| Paths.BasenameOfJoin | merge.py:290 | the basename of `path.join(d, name)` is `name` for a single path component |
| Paths.SplitExtOfName | merge.py:96 | `splitext(stem + ext)` is `(stem, ext)` unless the stem is all dots |
| Files.MakeDirectory | merge.py:353-360 | afterwards the path is a directory and no file changed |
| Files.MakeDirectoryExisting | merge.py:359-360 | for an existing directory nothing happens |
| Files.MakeDirectoryTwice | merge.py:359-360 | a second call is a no-op |
| Files.WriteFile | merge.py:316 | the path holds the new content; every other file and every directory is unchanged |
| Files.RemoveFile | merge.py:221 | the path is gone and nothing else changes |
| Partition.GroupZips | merge.py:363-373 | `n <= 0` gives `[]`; `n >= 1` gives exactly `n` groups |
| Partition.GroupZipsAt | merge.py:373 | item `j` of group `i` exists exactly when `i + j*n < len(zips)`, and is `zips[i + j*n]` |
| Partition.GroupZipsSlot | merge.py:373 | `zips[p]` is item `p / n` of group `p % n` |
| Partition.GroupZipsSizes | merge.py:373 | group sizes are non-increasing and differ by at most 1 |
| Partition.GroupZipsMembers | merge.py:373 | something is in some group exactly when it is in the input |
| Partition.GroupZipsRoundRobin | merge.py:373 | taking one item from each group in turn rebuilds the input exactly |
| Partition.GroupZipsPermutation | merge.py:373 | for `n >= 1` the groups together hold exactly the input, each item as often as it occurs there |
| Segment.SegmentImgs | merge.py:231-242 | the chunks concatenate to the input; each has at most `cap` items; all but the last have exactly `cap`; the last is non-empty unless the input is empty; a list of at most `cap` items gives `[imgs]` |
| Segment.SegmentImgsUnique | merge.py:239-242 | any chunking with those properties is the one `segmentImgs` returns |
| Segment.SegmentSixHundred | merge.py:192 | 600 units with cap 250 give chunks of 250, 250 and 100 |
| Volumes.GetVolumes | merge.py:244-275 | fails with `EmptyListing` on an empty listing, and with `NoMatch` at the first name without a match; otherwise returns the dict built from the maximal runs of equal key |
| Volumes.Assign | merge.py:265 | `volumes[k] = v` keeps the keys distinct; an existing key keeps its position and gets `v`, every other entry is unchanged; a new key is appended at the end |
| Volumes.BuildIsDictOf | merge.py:265-274 | filling the dict run by run gives one entry per distinct key, in first-appearance order, holding the last run of that key |
| Volumes.RunsFlatten | merge.py:257-271 | the runs concatenate to the listing |
| Volumes.RunsShape | merge.py:257-271 | every run is non-empty, all its names carry its key, and neighbouring runs have different keys |
| Volumes.VolumesAsDict | merge.py:257-274 | the dict's keys are the listing's keys in first-appearance order; each value is the last run of its key |
| Volumes.VolumesWellFormed | merge.py:255-274 | the first entry's key is the key of `imgs[0]`; keys are distinct; every list is non-empty and holds names of the listing with that entry's key |
| Volumes.VolumesContiguous | merge.py:257-274 | when each key occupies one run, the dict is the list of runs, its values concatenate to the listing, and its keys come in first-appearance order |
| Volumes.VolumesRecurringKey | merge.py:262-274 | keys `[V1, V1, V2, V2, V1]` give `{V1: [u4], V2: [u2, u3]}` |
| Extract.ExtractPath | merge.py:96-98 | the target folder of an archive is `.extracted/<name without extension>` |
| Extract.ExtractPathOfArchive | merge.py:96-98 | `<stem>.cbz` / `<stem>.zip` goes to `.extracted/<stem>`; a stem of dots only keeps its extension |
| Extract.ExtractPlan | merge.py:89-99 | every extracted entry passes the tests of lines 90-94 and goes to its target folder |
| Extract.ExtractPlanMembers | merge.py:89-94 | an entry is extracted exactly when it is listed, has an archive extension, is neither work folder, and is a regular file |
| Extract.ExtractPlanAppend | merge.py:89 | the filter keeps the listing's order |
| Extract.ExtractPlanCount | merge.py:89-94 | an entry that passes the tests is extracted as many times as it is listed, any other entry never |
| Extract.ExtractCbz | merge.py:79-104 | extracts exactly the filtered sorted listing in order, creates its target folders, and writes no file |
| Pipeline.CreatedOfSorted | merge.py:89 | sorting a partition does not change which folders it creates |
| Pipeline.TargetsOfPartitions | merge.py:57-59 | the partitions together create the folders of the whole listing |
| Pipeline.ExtractPartitions | merge.py:56-59 | with the partitions processed in turn, whatever their number, each entry of the listing that passes the tests is extracted exactly as often as it is listed and no other entry is; every extracted entry goes to its own target folder; those folders are created and no file is written |
| Transform.RenameKeepExtension | merge.py:301-316 | the copy `<destination>-<n><ext>` holds the origin's content; no other file appears, disappears or changes, and the directories stay |
| Transform.ConvertToPdf | merge.py:278-298 | the working directory gains `<basename(destination)>-<n>.pdf`, with the origin as its one page; no other file appears, disappears or changes, and the directories stay |
| Transform.Apply | merge.py:326-330 | the chosen action creates its target, holding the image as a one-page PDF or a copy of its content; no other file appears, disappears or changes |
| Transform.ApplyAll | merge.py:334-347 | applying the calls in turn changes no directory and removes no file |
| Transform.ApplyAllEffect | merge.py:334-347 | after all the calls every target exists, and every file that no call targets keeps its content |
| Transform.ApplyAllFiles | merge.py:334-347 | after all the calls the files are exactly the earlier files and the calls' targets: no other file appears |
| Transform.ApplyAllTargetContent | merge.py:334-347 | call `k`'s unit survives to the end with the content the call gave it (a one-page PDF of the image, or a copy of its content), when no later call writes the same name and no earlier call wrote over the image |
| Transform.ChapterTargetContent | merge.py:338-347 | after one chapter folder is processed, each of its images is staged under its own numbered name, holding the image (one-page PDF) or its content (copy) |
| Transform.OriginNotTarget | merge.py:336-341 | no staged name is the path of an image of the chapter: staged names are under `zipper`, images under `.extracted` |
| Transform.MapExtractedImages | merge.py:319-350 | makes exactly the calls of the plan, in order, and leaves the state the plan's calls produce |
| Transform.PlanNumbering | merge.py:334-347 | image `j` of the `i`-th sorted folder is the call at position offset(i)+j, with number `str(j)`: the counter restarts at 0 in every folder |
| Transform.PlanCalls | merge.py:334-347 | every call of the plan is such an (folder, image) call |
| Transform.PlanLength | merge.py:334-347 | one call per listed image of every folder |
| Transform.ChapterTargetsDistinct | merge.py:290-316 | within one folder, no two images get the same target name, in either mode |
| Transform.StagedName | merge.py:290-316 | both actions put image `n` of folder `dir` into `zipper/` as `<dir>-<n><ext>` or `<dir>-<n>.pdf` |
| Merge.PagesAppend | merge.py:209-214 | appending two lists of files in turn gives the pages of both in order |
| Merge.AppendPages | merge.py:393-395 | a `PdfWriter` fed the files in turn holds their pages in order |
| Merge.WriteEntries | merge.py:415-418 | a zip archive fed the images in turn holds exactly those entries, in the given order |
| Merge.MakeTempPdf | merge.py:385-397 | the path holds the pages of the images; nothing else changes |
| Merge.MakeVolume | merge.py:400-418 | the path holds the pages of the images for a PDF, or the images as entries for a zip; nothing else changes |
| Merge.StagedNotTop | merge.py:152-153 | a staged unit is never a file of the main directory |
| Merge.StagedNotVolume | merge.py:149-153 | a staged unit is never a volume archive |
| Merge.TempNamesSeparate | merge.py:184-197 | different counters give different temporary files, and none is the final archive |
| Merge.PagesOfQueue | merge.py:206-217 | appending the temporary files in creation order gives the pages of the whole listing |
| Merge.WriteTemps | merge.py:188-202 | temporary file `i` is `<archive>-<i>.pdf`, holds the pages of segment `i`, and is queued in order |
| Merge.RemoveTemps | merge.py:220-221 | popping the queue to empty removes every temporary file and nothing else |
| Merge.MergeDefaultPdf | merge.py:185-221 | the archive holds the pages of the sorted listing in order; every temporary file is gone; no other file or directory changes |
| Merge.MergeDefaultZip | merge.py:223-227 | the archive's entries are the sorted listing, in order; nothing else changes |
| Merge.VolumePathInjective | merge.py:165 | distinct volume keys give distinct archive paths |
| Merge.VolumesWrittenSnoc | merge.py:163-180 | writing one more volume leaves the earlier volume archives and the staged units unchanged |
| Merge.MergeVolumes | merge.py:163-180 | every volume archive holds its list's content, read from the staged units; nothing else changes |
| Merge.VolumeContentsFlatten | merge.py:163-180 | the contents of separately archived lists concatenate to the content of one archive of their concatenation |
| Merge.VolumesCoverListing | merge.py:157-180 | when each key occupies one run, the volume archives in dict order together hold exactly the default archive's content |
| Merge.VolumesStorable | merge.py:159-165 | the dict from `getVolumes` has distinct single-component keys whose lists are staged units |
| Merge.MergeVolumize | merge.py:156-180 | fails exactly when `getVolumes` does, changing nothing; otherwise archives every volume |
| Merge.MergeImages | merge.py:134-228 | makes `zipped_volumes`, then does exactly one of: the volumes (or the `getVolumes` failure), the merged PDF with its temporary files removed, or the single zip of the sorted listing |

## Left out

- The command line, logging, `main`'s `chdir` and try/print/re-raise, and its
  `makeDirectory` calls for `.extracted` and `zipper`. This is plumbing.
- The staging loop of `main` over the `groupDirs` partitions is not
  modelled. `Transform.MapExtractedImages` models one call.
- Concurrency: `Pool.map` and the `Process` start/join pairs. Each partition
  or volume is processed in turn, which is their sequential effect.
- Foreign calls are abstracted:
  - `ZipFile.extractall`: the model creates the target folder but not the
    extracted files.
  - reportlab drawing: a PDF page is named after its image.
  - `PdfWriter` internals and the `--compression` float.
  - `natsorted` and the `re` engine are parameters. The only thing required of `natsorted`
    is that it returns a permutation of its input.
  - `os.listdir` is a parameter.
- Files.WriteFile: writing onto a path that is a directory is not modelled.
  There `copy2` would copy into the directory, and `Canvas.save`,
  `PdfWriter.write` and `ZipFile(path, 'w')` raise `IsADirectoryError`. The
  model writes the file anyway, so a path can be in both `dirs` and `files`.
  Requiring every target to be free of directories would have to be carried
  through every caller, for a case the fixed file names of merge.py do not
  produce in a fresh working directory.
- Paths are not normalised (`.`/`..`). The parent of a new directory is not
  checked to exist.
- The main directory must be absolute, so that the paths the code builds
  from `os.getcwd()` and `main_dir` compare as strings.
- Merge.MergeImages: requires `args.archive` to be a single path component
  with no `/`. It also requires every regex match on a listed name to be one,
  which holds for real matches because they are substrings of the name.
- Transform: names that collide across two chapter folders are not ruled
  out. An example is folder `v` with an image of extension `.x-1` against
  folder `v-0.x`. Only names within one folder are proved distinct.
- `renameImages` is dead code and is not modelled. It numbers from 1,
  because its counter is incremented before the copy.
- `--chapterize` and `--maxsize` appear only in docstrings.
- `askIfPdf` only returns `args.pdf`. It is the `isPdf` parameter.
