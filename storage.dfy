/**
 * The filesystem under the media root, reduced to what the asset helpers observe: which
 * directories exist and the contents of each file.
 */
module Storage {
  import opened Wrappers
  import opened Strings

  /** A location under the media root: its directory part and its last component. */
  datatype Path = Path(dir: string, name: string)

  /** What a failing operation raises, with the filename it names. */
  datatype Error = IOError(filename: string) | OSError(filename: string) | ValueError

  /** `os.path.dirname` and `os.path.basename` of a filename relative to the media root. */
  function ToPath(filename: string): (p: Path)
    ensures '/' !in p.name
    ensures if '/' in filename then p.dir + "/" + p.name == filename else p == Path("", filename)
  {
    match RIndex(filename, '/')
    case None => Path("", filename)
    case Some(k) =>
      assert filename == filename[..k] + "/" + filename[k + 1..];
      Path(filename[..k], filename[k + 1..])
  }

  /** The filename a path stands for, as the source passes it to `open` or `os.unlink`. */
  function FullName(p: Path): string {
    if p.dir == "" then p.name else p.dir + "/" + p.name
  }

  lemma RIndexAppend(s: string, x: char, c: char)
    requires x != c
    ensures RIndex(s + [x], c) == RIndex(s, c)
  {
    assert (s + [x])[..|s|] == s;
  }

  /** The `.gz` companion of a file lives in the same directory, under the name plus `.gz`. */
  lemma CompanionPath(filename: string)
    ensures ToPath(filename + ".gz") == Path(ToPath(filename).dir, ToPath(filename).name + ".gz")
  {
    var s1 := filename + ['.'];
    var s2 := s1 + ['g'];
    var s3 := s2 + ['z'];
    assert s3 == filename + ".gz";
    RIndexAppend(filename, '.', '/');
    RIndexAppend(s1, 'g', '/');
    RIndexAppend(s2, 'z', '/');
    match RIndex(filename, '/')
    case None =>
    case Some(k) =>
      assert s3[..k] == filename[..k];
      assert s3[k + 1..] == filename[k + 1..] + ".gz";
  }

  /** No element occurs twice. */
  predicate Distinct<T(==)>(s: seq<T>) {
    forall i, j :: 0 <= i < j < |s| ==> s[i] != s[j]
  }

  class FileSystem {
    /** The contents of every file. */
    var files: map<Path, string>
    /** The directories that exist. */
    var dirs: set<string>

    /** Every file lives in an existing directory. */
    ghost predicate Valid()
      reads this
    {
      forall p :: p in files ==> p.dir in dirs
    }

    constructor (files0: map<Path, string>, dirs0: set<string>)
      requires forall p :: p in files0 ==> p.dir in dirs0
      ensures Valid() && files == files0 && dirs == dirs0
    {
      files, dirs := files0, dirs0;
    }

    /**
     * `os.listdir`: every file of the directory exactly once, in an order the system picks;
     * `OSError` when the directory does not exist.
     */
    method ListDir(d: string) returns (r: Result<seq<string>, Error>)
      ensures r.Err? <==> d !in dirs
      ensures r.Err? ==> r.error == OSError(d)
      ensures r.Ok? ==> Distinct(r.value) && forall n :: n in r.value <==> Path(d, n) in files
    {
      if d !in dirs {
        return Err(OSError(d));
      }
      var left := set p | p in files && p.dir == d :: p.name;
      var listing := [];
      while left != {}
        invariant Distinct(listing)
        invariant forall n :: n in left ==> n !in listing
        invariant forall n :: n in listing || n in left <==> Path(d, n) in files
        decreases left
      {
        var n :| n in left;
        listing := listing + [n];
        left := left - {n};
      }
      return Ok(listing);
    }

    /** `os.unlink`: removes a file, or raises `OSError` when there is none. */
    method Unlink(p: Path) returns (r: Result<(), Error>)
      requires Valid()
      modifies this
      ensures Valid() && dirs == old(dirs)
      ensures p in old(files) ==> r.Ok? && files == old(files) - {p}
      ensures p !in old(files) ==> r == Err(OSError(FullName(p))) && files == old(files)
    {
      if p !in files {
        return Err(OSError(FullName(p)));
      }
      files := files - {p};
      return Ok(());
    }

    /** `os.makedirs`, which raises `OSError` for a directory that already exists. */
    method MakeDirs(d: string)
      requires Valid() && d !in dirs
      modifies this
      ensures Valid() && dirs == old(dirs) + {d} && files == old(files)
    {
      dirs := dirs + {d};
    }

    /** Opening for writing and writing everything: the file is created or truncated; `IOError` without its directory. */
    method Write(p: Path, contents: string) returns (r: Result<(), Error>)
      requires Valid()
      modifies this
      ensures Valid() && dirs == old(dirs)
      ensures p.dir in dirs ==> r.Ok? && files == old(files)[p := contents]
      ensures p.dir !in dirs ==> r == Err(IOError(FullName(p))) && files == old(files)
    {
      if p.dir !in dirs {
        return Err(IOError(FullName(p)));
      }
      files := files[p := contents];
      return Ok(());
    }
  }
}
