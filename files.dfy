/**
 * The file system the dataset scripts change: a map from path to contents.
 * `shutil.move` and writing a text file are its two operations.
 */
module Files {
  import opened Paths

  /** Path `p` is present in both maps or in neither, with the same contents. */
  predicate SameAt(f: map<Path, string>, g: map<Path, string>, p: Path)
  {
    (p in f <==> p in g) && (p in f ==> f[p] == g[p])
  }

  /** The map after `shutil.move(src, dst)` of an existing `src`: `dst` takes its contents, replacing any file there. */
  function Moved(files: map<Path, string>, src: Path, dst: Path): (r: map<Path, string>)
    requires src in files
    ensures dst in r && r[dst] == files[src]
    ensures src != dst ==> src !in r
    ensures forall p :: p != src && p != dst ==> SameAt(r, files, p)
  {
    (files - {src})[dst := files[src]]
  }

  class FileSystem {
    var files: map<Path, string>

    constructor (initial: map<Path, string>)
      ensures files == initial
    {
      files := initial;
    }

    /** `shutil.move(src, dst)`; fails, changing nothing, when `src` does not exist. */
    method Move(src: Path, dst: Path) returns (ok: bool)
      modifies this
      ensures ok == (src in old(files))
      ensures files == if ok then Moved(old(files), src, dst) else old(files)
    {
      ok := src in files;
      if ok {
        files := Moved(files, src, dst);
      }
    }

    /** `open(p, "w").write(text)`: creates or replaces the file. */
    method Write(p: Path, text: string)
      modifies this
      ensures files == old(files)[p := text]
    {
      files := files[p := text];
    }
  }
}
