/** The disk as the loaders see it: which paths are files (with their
    text), which are directories, and what `iterdir` yields for each
    directory. */
module FileSystems {

  import opened Results

  /** Regular files with their contents, and the set of directories. */
  datatype FileSystem = FileSystem(files: map<string, string>, dirs: set<string>)

  /** What `iterdir` yields for each directory, in the operating system's
      (unspecified) order: the entry names, not full paths. Kept apart from
      `FileSystem` so that nothing but a listing depends on that order. */
  type Listings = map<string, seq<string>>

  /** `Path.exists()`. */
  predicate Exists(fs: FileSystem, path: string) {
    path in fs.files || path in fs.dirs
  }

  /** Nothing exists at `dir` or anywhere below it. */
  predicate Missing(fs: FileSystem, dir: string) {
    && (forall p :: p in fs.files ==> !AtOrBelow(p, dir))
    && (forall p :: p in fs.dirs ==> !AtOrBelow(p, dir))
  }

  predicate AtOrBelow(path: string, dir: string) {
    path == dir || (|path| > |dir| && path[..|dir| + 1] == dir + "/")
  }

  /** `Path.is_dir()`. */
  predicate IsDir(fs: FileSystem, path: string) {
    path in fs.dirs
  }

  /** `Path.read_text()`: the file's text, or the `OSError` it raises. */
  function ReadText(fs: FileSystem, path: string): (r: Result<string>)
    ensures r.Ok? <==> path in fs.files
    ensures r.Ok? ==> r.value == fs.files[path]
    ensures r.Err? ==> r.error == (if path in fs.dirs then IsADirectoryError(path) else FileNotFoundError(path))
  {
    if path in fs.files then Ok(fs.files[path])
    else if path in fs.dirs then Err(IsADirectoryError(path))
    else Err(FileNotFoundError(path))
  }

  /** `Path.iterdir()`: the entry names of a directory in listing order. */
  function IterDir(fs: FileSystem, listings: Listings, dir: string): (r: Result<seq<string>>)
    ensures r.Ok? <==> dir in listings
    ensures r.Ok? ==> r.value == listings[dir]
    ensures r.Err? ==> r.error == (if dir in fs.files then NotADirectoryError(dir) else FileNotFoundError(dir))
  {
    if dir in listings then Ok(listings[dir])
    else if dir in fs.files then Err(NotADirectoryError(dir))
    else Err(FileNotFoundError(dir))
  }
}
