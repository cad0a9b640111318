/**
 * The asset helpers proper: concatenating sources, deciding whether a bundle must be rebuilt,
 * pruning outdated versioned outputs, reading a version back from a directory, saving an
 * output with its gzip copy, and the whole filter-and-save run for one bundle.
 */
module Utils {
  import opened Wrappers
  import opened Strings
  import opened Names
  import opened Storage

  /**
   * The pluggable versioning strategy: the version of a list of sources, and whether an
   * existing output is out of date (its answer is returned to the caller unchanged).
   */
  datatype Strategy = Strategy(
    getVersion: seq<string> -> Option<string>,
    needsUpdate: (string, seq<string>, Option<string>) -> (bool, Option<string>))

  /** One configured asset group: its sources in order and its output filename template. */
  datatype Bundle = Bundle(sourceFilenames: seq<string>, outputFilename: string)

  /** A text filter (a minifier, say), already instantiated. */
  type Filter = string -> string

  // ---------------------------------------------------------------------------------------
  // Concatenation

  /**
   * What concatenating the files yields: each file's contents followed by the separator, in
   * order, or `IOError` for the first file that cannot be opened.
   */
  function ConcatSpec(files: map<Path, string>, names: seq<string>, sep: string): Result<string, Error>
    decreases |names|
  {
    if names == [] then Ok("")
    else
      match ConcatSpec(files, names[..|names| - 1], sep)
      case Err(e) => Err(e)
      case Ok(acc) =>
        var last := names[|names| - 1];
        if ToPath(last) in files then Ok(acc + files[ToPath(last)] + sep) else Err(IOError(last))
  }

  /** Reads the files in order into one string, a separator after each. */
  method Concat(fs: FileSystem, filenames: seq<string>, separator: string) returns (r: Result<string, Error>)
    ensures r == ConcatSpec(fs.files, filenames, separator)
  {
    var acc := "";
    for i := 0 to |filenames|
      invariant ConcatSpec(fs.files, filenames[..i], separator) == Ok(acc)
    {
      assert filenames[..i + 1][..i] == filenames[..i];
      var p := ToPath(filenames[i]);
      if p !in fs.files {
        ConcatErrorSticks(fs.files, filenames, i + 1, separator);
        return Err(IOError(filenames[i]));
      }
      acc := acc + fs.files[p] + separator;
    }
    assert filenames[..|filenames|] == filenames;
    return Ok(acc);
  }

  /** Once a prefix of the list fails, the whole list fails with the same error. */
  lemma {:induction false} ConcatErrorSticks(files: map<Path, string>, names: seq<string>, k: nat, sep: string)
    requires k <= |names| && ConcatSpec(files, names[..k], sep).Err?
    ensures ConcatSpec(files, names, sep) == ConcatSpec(files, names[..k], sep)
    decreases |names| - k
  {
    if k < |names| {
      var m := names[..k + 1];
      assert m[..|m| - 1] == names[..k];
      ConcatErrorSticks(files, names, k + 1, sep);
    } else {
      assert names[..k] == names;
    }
  }

  /** All sources are present. */
  predicate AllPresent(files: map<Path, string>, names: seq<string>) {
    forall i :: 0 <= i < |names| ==> ToPath(names[i]) in files
  }

  /** Concatenation succeeds exactly when every source can be opened. */
  lemma {:induction false} ConcatOkIff(files: map<Path, string>, names: seq<string>, sep: string)
    ensures ConcatSpec(files, names, sep).Ok? <==> AllPresent(files, names)
    decreases |names|
  {
    if names != [] {
      var init := names[..|names| - 1];
      ConcatOkIff(files, init, sep);
      assert forall i :: 0 <= i < |init| ==> init[i] == names[i];
    }
  }

  /** A failure names the first source that cannot be opened. */
  lemma {:induction false} ConcatFirstMissing(files: map<Path, string>, names: seq<string>, i: nat, sep: string)
    requires i < |names| && ToPath(names[i]) !in files
    requires forall k :: 0 <= k < i ==> ToPath(names[k]) in files
    ensures ConcatSpec(files, names, sep) == Err(IOError(names[i]))
  {
    var pre := names[..i + 1];
    assert pre[..i] == names[..i];
    ConcatOkIff(files, names[..i], sep);
    ConcatErrorSticks(files, names, i + 1, sep);
  }

  /** The contents of the named files, in list order. */
  function Contents(files: map<Path, string>, names: seq<string>): (cs: seq<string>)
    requires AllPresent(files, names)
    ensures |cs| == |names| && forall i :: 0 <= i < |names| ==> cs[i] == files[ToPath(names[i])]
  {
    seq(|names|, i requires 0 <= i < |names| => files[ToPath(names[i])])
  }

  /** Each piece followed by the separator, read from the front. */
  function Chunks(pieces: seq<string>, sep: string): string
    decreases |pieces|
  {
    if pieces == [] then "" else pieces[0] + sep + Chunks(pieces[1..], sep)
  }

  lemma {:induction false} ChunksSnoc(pieces: seq<string>, sep: string)
    requires pieces != []
    ensures Chunks(pieces, sep) == Chunks(pieces[..|pieces| - 1], sep) + pieces[|pieces| - 1] + sep
    decreases |pieces|
  {
    if |pieces| > 1 {
      ChunksSnoc(pieces[1..], sep);
      assert pieces[1..][..|pieces| - 2] == pieces[..|pieces| - 1][1..];
    }
  }

  /** A successful concatenation is every file's contents followed by the separator, in list order. */
  lemma {:induction false} ConcatIsChunks(files: map<Path, string>, names: seq<string>, sep: string)
    requires AllPresent(files, names)
    ensures ConcatSpec(files, names, sep) == Ok(Chunks(Contents(files, names), sep))
    decreases |names|
  {
    if names != [] {
      var init := names[..|names| - 1];
      assert AllPresent(files, init) by {
        assert forall i :: 0 <= i < |init| ==> init[i] == names[i];
      }
      ConcatIsChunks(files, init, sep);
      var cs := Contents(files, names);
      ChunksSnoc(cs, sep);
      assert cs[..|cs| - 1] == Contents(files, init);
    }
  }

  /** Total length of the pieces. */
  function TotalLength(pieces: seq<string>): nat
    decreases |pieces|
  {
    if pieces == [] then 0 else |pieces[0]| + TotalLength(pieces[1..])
  }

  /** The concatenation is as long as the sources together plus one separator per source. */
  lemma {:induction false} ConcatLength(files: map<Path, string>, names: seq<string>, sep: string)
    requires AllPresent(files, names)
    ensures ConcatSpec(files, names, sep).Ok?
      && |ConcatSpec(files, names, sep).value| == TotalLength(Contents(files, names)) + |names| * |sep|
  {
    ConcatIsChunks(files, names, sep);
    ChunksLength(Contents(files, names), sep);
  }

  lemma {:induction false} ChunksLength(pieces: seq<string>, sep: string)
    ensures |Chunks(pieces, sep)| == TotalLength(pieces) + |pieces| * |sep|
    decreases |pieces|
  {
    if pieces != [] {
      ChunksLength(pieces[1..], sep);
      assert |pieces| * |sep| == |sep| + (|pieces| - 1) * |sep|;
    }
  }

  /** The two-file example: `x;` then `y;` with no separator. */
  lemma ConcatExample()
    ensures ConcatSpec(map[Path("", "a.js") := "x;", Path("", "b.js") := "y;"], ["a.js", "b.js"], "") == Ok("x;y;")
  {
    var files := map[Path("", "a.js") := "x;", Path("", "b.js") := "y;"];
    var names := ["a.js", "b.js"];
    assert ToPath("a.js") == Path("", "a.js") && ToPath("b.js") == Path("", "b.js");
    assert AllPresent(files, names);
    ConcatIsChunks(files, names, "");
    var cs := Contents(files, names);
    assert cs == ["x;", "y;"];
    assert cs[1..] == ["y;"] && cs[1..][1..] == [];
    assert Chunks(cs, "") == "x;" + "" + ("y;" + "" + "");
    assert "x;" + "" + ("y;" + "" + "") == "x;y;";
  }

  // ---------------------------------------------------------------------------------------
  // Rebuild decision

  /**
   * Whether the bundle's output must be regenerated, with the version to use. A missing
   * output answers at once, without asking the strategy; otherwise the strategy decides.
   */
  function NeedsUpdate(cfg: Settings, strategy: Strategy, files: map<Path, string>,
                       outputFile: string, sourceFiles: seq<string>): (r: (bool, Option<string>))
    ensures ToPath(GetOutputFilename(cfg, outputFile, strategy.getVersion(sourceFiles))) !in files ==>
      r == (true, strategy.getVersion(sourceFiles))
    ensures ToPath(GetOutputFilename(cfg, outputFile, strategy.getVersion(sourceFiles))) in files ==>
      r == strategy.needsUpdate(outputFile, sourceFiles, strategy.getVersion(sourceFiles))
  {
    var version := strategy.getVersion(sourceFiles);
    var on := GetOutputFilename(cfg, outputFile, version);
    if ToPath(on) !in files then (true, version)
    else strategy.needsUpdate(outputFile, sourceFiles, version)
  }

  // ---------------------------------------------------------------------------------------
  // Pruning outdated outputs

  /** The name ends in `.gz`. */
  predicate IsGz(n: string) {
    |n| >= 3 && n[|n| - 3..] == ".gz"
  }

  /** The name without its `.gz` suffix. */
  function Stem(n: string): string
    requires IsGz(n)
  {
    n[..|n| - 3]
  }

  lemma GzStem(n: string, f: string)
    ensures (IsGz(n) && Stem(n) == f) <==> n == f + ".gz"
  {
    if n == f + ".gz" {
      assert n[|n| - 3..] == ".gz" && n[..|n| - 3] == f;
    }
    if IsGz(n) && Stem(n) == f {
      assert n == n[..|n| - 3] + n[|n| - 3..];
    }
  }

  /**
   * The file is one pruning deletes: an entry of the directory whose name matches the
   * pattern, or the `.gz` companion of such an entry.
   */
  predicate IsStale(files: map<Path, string>, d: string, pat: Pattern, p: Path) {
    p.dir == d &&
    (Matches(pat, p.name) || (IsGz(p.name) && Path(d, Stem(p.name)) in files && Matches(pat, Stem(p.name))))
  }

  /** The files left after pruning directory `d`. */
  function Prune(files: map<Path, string>, d: string, pat: Pattern): map<Path, string> {
    map p | p in files && !IsStale(files, d, pat, p) :: files[p]
  }

  /** After pruning, no file of the directory matches the pattern and no companion of one is left. */
  lemma PruneLeavesNoMatch(files: map<Path, string>, d: string, pat: Pattern, n: string)
    requires Path(d, n) in files && Matches(pat, n)
    ensures Path(d, n) !in Prune(files, d, pat) && Path(d, n + ".gz") !in Prune(files, d, pat)
  {
    GzStem(n + ".gz", n);
  }

  /** Pruning touches nothing outside the directory and nothing that is neither a match nor a companion of one. */
  lemma PruneKeepsOthers(files: map<Path, string>, d: string, pat: Pattern, p: Path)
    requires p in files && !IsStale(files, d, pat, p)
    ensures p in Prune(files, d, pat) && Prune(files, d, pat)[p] == files[p]
  {
  }

  /** Pruning twice is pruning once: nothing stale is left for a second run. */
  lemma PruneIdempotent(files: map<Path, string>, d: string, pat: Pattern)
    ensures Prune(Prune(files, d, pat), d, pat) == Prune(files, d, pat)
  {
    var once := Prune(files, d, pat);
    forall p | p in once
      ensures !IsStale(once, d, pat, p)
    {
    }
    assert Prune(once, d, pat).Keys == once.Keys;
  }

  /** Entries of the listing already handled that make the named file gone. */
  predicate Done(listed: seq<string>, pat: Pattern, n: string) {
    (n in listed && Matches(pat, n)) || (IsGz(n) && Stem(n) in listed && Matches(pat, Stem(n)))
  }

  /**
   * Deletes from directory `path` every file matching the pattern of the template's last
   * component, and the `.gz` companion of each. A missing directory is left alone; an empty
   * placeholder raises `ValueError` before anything is touched.
   */
  method RemoveFiles(cfg: Settings, fs: FileSystem, path: string, filename: string) returns (r: Result<(), Error>)
    requires fs.Valid()
    modifies fs
    ensures fs.Valid() && fs.dirs == old(fs.dirs)
    ensures cfg.placeholder == "" ==> r == Err(ValueError) && fs.files == old(fs.files)
    ensures cfg.placeholder != "" ==>
      r == Ok(()) && fs.files == Prune(old(fs.files), path, BuildPattern(cfg, ToPath(filename).name).value)
  {
    var pattern := BuildPattern(cfg, ToPath(filename).name);
    if pattern.None? {
      return Err(ValueError);
    }
    var pat := pattern.value;
    if path !in fs.dirs {
      assert Prune(fs.files, path, pat) == fs.files;
      return Ok(());
    }
    var listing := fs.ListDir(path);
    var entries := listing.value;
    var i := 0;
    while i < |entries|
      invariant 0 <= i <= |entries|
      invariant fs.Valid() && fs.dirs == old(fs.dirs)
      invariant forall n :: n in entries <==> Path(path, n) in old(fs.files)
      invariant forall p :: p in fs.files ==> p in old(fs.files) && fs.files[p] == old(fs.files)[p]
      invariant forall p :: p in old(fs.files) ==>
        (p in fs.files <==> !(p.dir == path && Done(entries[..i], pat, p.name)))
    {
      var f := entries[i];
      ghost var before := fs.files;
      if Matches(pat, f) {
        NotYetDone(entries, i, pat);
        assert Path(path, f) in old(fs.files);
        assert Path(path, f) in fs.files;
        var primary := fs.Unlink(Path(path, f));
        assert primary.Ok?;
        var companion := fs.Unlink(Path(path, f + ".gz"));
        assert fs.files == before - {Path(path, f), Path(path, f + ".gz")};
      }
      PruneStep(old(fs.files), before, fs.files, path, pat, entries, i);
      i := i + 1;
    }
    assert entries[..|entries|] == entries;
    DoneIsStale(old(fs.files), path, pat, entries);
    assert fs.files.Keys == Prune(old(fs.files), path, pat).Keys;
    r := Ok(());
  }

  /**
   * A matching entry is still there when its turn comes: it was not listed before (the
   * listing has no duplicates) and it is not the companion of an earlier match, since a
   * companion never matches.
   */
  lemma NotYetDone(entries: seq<string>, i: nat, pat: Pattern)
    requires Distinct(entries) && i < |entries| && Matches(pat, entries[i])
    ensures !Done(entries[..i], pat, entries[i])
  {
    var f := entries[i];
    if IsGz(f) && Matches(pat, Stem(f)) {
      GzStem(f, Stem(f));
      CompanionNeverMatches(pat, Stem(f));
    }
  }

  /** One listed entry handled: the files it removes are exactly those it makes `Done`. */
  lemma PruneStep(orig: map<Path, string>, cur: map<Path, string>, next: map<Path, string>,
                  path: string, pat: Pattern, entries: seq<string>, i: nat)
    requires i < |entries|
    requires forall p :: p in orig ==> (p in cur <==> !(p.dir == path && Done(entries[..i], pat, p.name)))
    requires next == if Matches(pat, entries[i]) then cur - {Path(path, entries[i]), Path(path, entries[i] + ".gz")} else cur
    ensures forall p :: p in orig ==> (p in next <==> !(p.dir == path && Done(entries[..i + 1], pat, p.name)))
  {
    var f := entries[i];
    assert entries[..i + 1] == entries[..i] + [f];
    forall p | p in orig
      ensures p in next <==> !(p.dir == path && Done(entries[..i + 1], pat, p.name))
    {
      GzStem(p.name, f);
    }
  }

  /** Over the whole listing, being `Done` is being stale. */
  lemma DoneIsStale(orig: map<Path, string>, path: string, pat: Pattern, entries: seq<string>)
    requires forall n :: n in entries <==> Path(path, n) in orig
    ensures forall p :: p in orig ==> ((p.dir == path && Done(entries, pat, p.name)) <==> IsStale(orig, path, pat, p))
  {
  }

  // ---------------------------------------------------------------------------------------
  // Reading a version back

  /**
   * The token captured from the first entry of the listing that matches, or `None` when no
   * entry matches or the pattern has no group.
   */
  method FirstVersion(pat: Pattern, listing: seq<string>) returns (v: Option<string>)
    ensures v.None? <==> !HasGroup(pat) || forall k :: 0 <= k < |listing| ==> !Matches(pat, listing[k])
    ensures v.Some? ==> HasGroup(pat)
    ensures v.Some? ==>
      exists k :: 0 <= k < |listing| && Matches(pat, listing[k]) &&
        (forall i :: 0 <= i < k ==> !Matches(pat, listing[i])) &&
        HasGroup(pat) && v == Capture(pat.parts, listing[k])
  {
    var i := 0;
    while i < |listing|
      invariant 0 <= i <= |listing|
      invariant HasGroup(pat) ==> forall k :: 0 <= k < i ==> !Matches(pat, listing[k])
    {
      if Matches(pat, listing[i]) && HasGroup(pat) {
        return Capture(pat.parts, listing[i]);
      }
      i := i + 1;
    }
    return None;
  }

  /**
   * The version a directory holds for a pattern: `None` when the pattern has no group or no
   * file of the directory matches, otherwise the token captured from one matching file.
   */
  ghost predicate DirVersion(files: map<Path, string>, d: string, pat: Pattern, v: Option<string>) {
    if !HasGroup(pat) || (forall n :: Path(d, n) in files ==> !Matches(pat, n)) then v == None
    else exists n :: Path(d, n) in files && Matches(pat, n) && v == Capture(pat.parts, n)
  }

  /**
   * The version read from the first file of directory `path` that matches the template.
   * Raises `ValueError` for an empty placeholder and `OSError` for a missing directory.
   */
  method GetVersionFromFile(cfg: Settings, fs: FileSystem, path: string, filename: string)
    returns (r: Result<Option<string>, Error>)
    ensures cfg.placeholder == "" ==> r == Err(ValueError)
    ensures cfg.placeholder != "" && path !in fs.dirs ==> r == Err(OSError(path))
    ensures r.Ok? <==> cfg.placeholder != "" && path in fs.dirs
    ensures r.Ok? ==> DirVersion(fs.files, path, BuildPattern(cfg, filename).value, r.value)
    ensures r.Ok? && !cfg.versioned ==> r.value == None
  {
    var pattern := BuildPattern(cfg, filename);
    if pattern.None? {
      return Err(ValueError);
    }
    var listing := fs.ListDir(path);
    if listing.Err? {
      return Err(listing.error);
    }
    var v := FirstVersion(pattern.value, listing.value);
    return Ok(v);
  }

  // ---------------------------------------------------------------------------------------
  // Saving

  /** Writes the output and its gzip copy, creating the directory first when it is missing. */
  method SaveFile(fs: FileSystem, filename: string, contents: string, gzip: string -> string)
    requires fs.Valid()
    modifies fs
    ensures fs.Valid()
    ensures fs.dirs == old(fs.dirs) + {ToPath(filename).dir}
    ensures fs.files == old(fs.files)[ToPath(filename) := contents][ToPath(filename + ".gz") := gzip(contents)]
  {
    var p := ToPath(filename);
    if p.dir !in fs.dirs {
      fs.MakeDirs(p.dir);
    }
    var plain := fs.Write(p, contents);
    assert plain.Ok?;
    CompanionPath(filename);
    var gz := fs.Write(ToPath(filename + ".gz"), gzip(contents));
    assert gz.Ok?;
  }
}
