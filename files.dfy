/** The part of the filesystem the merger touches, as a value: the set of
    directories and the map from regular files to their contents. A file's
    content is a sequence of strings: the entry names of an archive, or the
    pages of a PDF (each page named after the image drawn on it). Paths are
    absolute and kept as the code spells them: no `.`/`..` normalisation. */
module Files {
  import opened Paths

  /** Regular files and their contents. */
  type FileMap = map<string, seq<string>>

  datatype FileSystem = FileSystem(dirs: set<string>, files: FileMap)

  /** `makeDirectory(name)`, merge.py:353-360: `os.mkdir` runs only when `name`
      is not yet a directory. `os.mkdir` on a path held by a regular file raises
      FileExistsError, which callers must rule out. */
  function MakeDirectory(fs: FileSystem, name: string): (r: FileSystem)
    requires name !in fs.files
    ensures r.dirs == fs.dirs + {name} && r.files == fs.files
  {
    if name in fs.dirs then fs else fs.(dirs := fs.dirs + {name})
  }

  /** Asking for a directory that is already there changes nothing. */
  lemma MakeDirectoryExisting(fs: FileSystem, name: string)
    requires name in fs.dirs && name !in fs.files
    ensures MakeDirectory(fs, name) == fs
  {
  }

  /** A second `makeDirectory` of the same path is a no-op. */
  lemma MakeDirectoryTwice(fs: FileSystem, name: string)
    requires name !in fs.files
    ensures MakeDirectory(MakeDirectory(fs, name), name) == MakeDirectory(fs, name)
  {
  }

  /** Writing a regular file (`copy2`, `Canvas.save`, `PdfWriter.write`,
      `ZipFile(path, 'w')`): the path now holds `content`, nothing else changes. */
  function WriteFile(fs: FileSystem, path: string, content: seq<string>): (r: FileSystem)
    ensures r.dirs == fs.dirs
    ensures path in r.files && r.files[path] == content
    ensures forall p :: p != path ==> (p in r.files <==> p in fs.files)
    ensures forall p :: p != path && p in fs.files ==> r.files[p] == fs.files[p]
  {
    fs.(files := fs.files[path := content])
  }

  /** `os.remove(path)`; removing a missing file raises FileNotFoundError, so the
      path must be a file. */
  function RemoveFile(fs: FileSystem, path: string): (r: FileSystem)
    requires path in fs.files
    ensures r.dirs == fs.dirs && path !in r.files
    ensures forall p :: p != path ==> (p in r.files <==> p in fs.files)
    ensures forall p :: p != path && p in fs.files ==> r.files[p] == fs.files[p]
  {
    fs.(files := fs.files - {path})
  }
}
