/**
 * The part of the filesystem the converter sees: regular files with their
 * contents and the set of existing directories. A file's content is its
 * decoded text together with whether it decodes as UTF-8; its byte size is
 * zero exactly when that text is empty.
 */
module Files {
  import opened Text
  import opened Paths

  datatype Blob = Blob(text: string, utf8: bool)

  datatype Fs = Fs(files: map<string, Blob>, dirs: set<string>)

  /** `Path.exists()`. */
  predicate Exists(fs: Fs, p: string) {
    p in fs.files || p in fs.dirs
  }

  /** `Path.is_dir()`. */
  predicate IsDir(fs: Fs, p: string) {
    p in fs.dirs
  }

  /** `Path.is_file()`. */
  predicate IsFile(fs: Fs, p: string) {
    p in fs.files
  }

  /** `p` and every ancestor above it that `mkdir(parents=True)` may have to create. */
  function Ancestry(p: string): (r: set<string>)
    ensures p !in {"", ".", "/"} ==> p in r
    ensures forall q :: q in r ==> q !in {"", ".", "/"}
    decreases |p|
  {
    if p in {"", ".", "/"} then {}
    else
      var i := LastIndexOf(p, '/');
      {p} + (if i > 0 then Ancestry(p[..i]) else {})
  }

  /** `Path(p).mkdir(parents=True, exist_ok=True)`: every missing directory on the way is created; files are untouched. */
  function MakeDirs(fs: Fs, p: string): (r: Fs)
    ensures r.files == fs.files && fs.dirs <= r.dirs
    ensures p !in {"", ".", "/"} ==> IsDir(r, p)
  {
    Fs(fs.files, fs.dirs + Ancestry(p))
  }

  /** `shutil.copy2(src, dst)` of a regular file. */
  function Copy(fs: Fs, src: string, dst: string): (r: Fs)
    requires src in fs.files
    ensures r.dirs == fs.dirs && dst in r.files && r.files[dst] == fs.files[src]
    ensures forall q :: q != dst && q in fs.files ==> q in r.files && r.files[q] == fs.files[q]
  {
    Fs(fs.files[dst := fs.files[src]], fs.dirs)
  }

  /** Writing `text` to `p` as UTF-8. */
  function Write(fs: Fs, p: string, text: string): (r: Fs)
    ensures r.dirs == fs.dirs && p in r.files && r.files[p] == Blob(text, true)
    ensures forall q :: q != p && q in fs.files ==> q in r.files && r.files[q] == fs.files[q]
  {
    Fs(fs.files[p := Blob(text, true)], fs.dirs)
  }
}
