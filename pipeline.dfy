/**
 * One rebuild of a bundle: concatenate the sources, prune outdated versioned outputs, run the
 * filters in order, fill in the three viewer-version placeholders, and save the result with
 * its gzip copy.
 */
module Pipeline {
  import opened Wrappers
  import opened Strings
  import opened Names
  import opened Storage
  import opened Utils

  /** The directory, under the media root, that holds the viewer scripts. */
  const ViewerDir := "webroot/static/js"

  const WebglTemplate := "webglviewer.r?.js"
  const HtmlTemplate := "htmlviewer.r?.js"
  const FlashTemplate := "flashviewer.r?.js"

  const WebglTag := "{{ webgljsfileversion }}"
  const HtmlTag := "{{ htmljsfileversion }}"
  const FlashTag := "{{ flashjsfileversion }}"

  /** The filters applied in order, each to the previous one's output. */
  function FoldFilters(filters: seq<Filter>, text: string): string
    decreases |filters|
  {
    if filters == [] then text else filters[|filters| - 1](FoldFilters(filters[..|filters| - 1], text))
  }

  /** Runs the filters over the text, each output being the next input. */
  method ApplyFilters(filters: seq<Filter>, text: string) returns (output: string)
    ensures output == FoldFilters(filters, text)
  {
    output := text;
    for i := 0 to |filters|
      invariant output == FoldFilters(filters[..i], text)
    {
      assert filters[..i + 1][..i] == filters[..i];
      output := filters[i](output);
    }
    assert filters[..|filters|] == filters;
  }

  /** Running two filter lists one after the other is running their concatenation. */
  lemma {:induction false} FoldFiltersAppend(a: seq<Filter>, b: seq<Filter>, text: string)
    ensures FoldFilters(a + b, text) == FoldFilters(b, FoldFilters(a, text))
    decreases |b|
  {
    if b == [] {
      assert a + b == a;
    } else {
      var b' := b[..|b| - 1];
      FoldFiltersAppend(a, b', text);
      assert (a + b)[..|a + b| - 1] == a + b';
    }
  }

  /** The first filter sees the concatenated text, and the rest see its output. */
  lemma FoldFiltersFirst(f: Filter, rest: seq<Filter>, text: string)
    ensures FoldFilters([f] + rest, text) == FoldFilters(rest, f(text))
  {
    FoldFiltersAppend([f], rest, text);
    assert [f][..0] == [];
  }

  /** `str(version)`: the token, or `None` when no version was found. */
  function Str(v: Option<string>): string {
    match v
    case None => "None"
    case Some(t) => t
  }

  /** The three placeholders replaced, in this order, by the three viewer versions. */
  function Render(text: string, webgl: Option<string>, html: Option<string>, flash: Option<string>): string {
    Replace(Replace(Replace(text, WebglTag, Str(webgl)), HtmlTag, Str(html)), FlashTag, Str(flash))
  }

  /** A text without the three placeholders passes the post-pass unchanged. */
  lemma RenderWithoutTags(text: string, webgl: Option<string>, html: Option<string>, flash: Option<string>)
    requires !Contains(text, WebglTag) && !Contains(text, HtmlTag) && !Contains(text, FlashTag)
    ensures Render(text, webgl, html, flash) == text
  {
    ReplaceAbsent(text, WebglTag, Str(webgl));
    ReplaceAbsent(text, HtmlTag, Str(html));
    ReplaceAbsent(text, FlashTag, Str(flash));
  }

  lemma ReplaceAbsent(s: string, p: string, r: string)
    requires p != [] && !Contains(s, p)
    ensures Replace(s, p, r) == s
  {
    ReplaceIsJoinSplit(s, p, r);
    SplitAbsent(s, p);
  }

  /** The output filename of a bundle for the version the strategy computes. */
  function OutputName(cfg: Settings, strategy: Strategy, obj: Bundle): string {
    GetOutputFilename(cfg, obj.outputFilename, strategy.getVersion(obj.sourceFilenames))
  }

  /** The files once outdated outputs are pruned, which happens only with versioning on. */
  function Pruned(cfg: Settings, files: map<Path, string>, obj: Bundle, name: string): map<Path, string> {
    if cfg.versioned && cfg.placeholder != "" then
      Prune(files, ToPath(name).dir, BuildPattern(cfg, ToPath(obj.outputFilename).name).value)
    else files
  }

  /** Each viewer version is what the viewer directory holds for its template. */
  ghost predicate ViewerVersions(cfg: Settings, files: map<Path, string>,
                                 webgl: Option<string>, html: Option<string>, flash: Option<string>)
    requires cfg.placeholder != ""
  {
    && DirVersion(files, ViewerDir, BuildPattern(cfg, WebglTemplate).value, webgl)
    && DirVersion(files, ViewerDir, BuildPattern(cfg, HtmlTemplate).value, html)
    && DirVersion(files, ViewerDir, BuildPattern(cfg, FlashTemplate).value, flash)
  }

  /**
   * The files after a successful rebuild: the pruned files plus the output, which is the
   * filtered concatenation with the viewer versions filled in, and its gzip copy.
   */
  ghost predicate Rebuilt(cfg: Settings, strategy: Strategy, obj: Bundle, filters: seq<Filter>, sep: string,
                          gzip: string -> string, before: map<Path, string>, after: map<Path, string>,
                          webgl: Option<string>, html: Option<string>, flash: Option<string>)
    requires cfg.placeholder != "" && ConcatSpec(before, obj.sourceFilenames, sep).Ok?
  {
    var name := OutputName(cfg, strategy, obj);
    var pruned := Pruned(cfg, before, obj, name);
    var text := Render(FoldFilters(filters, ConcatSpec(before, obj.sourceFilenames, sep).value), webgl, html, flash);
    && ViewerVersions(cfg, pruned, webgl, html, flash)
    && after == pruned[ToPath(name) := text][ToPath(name + ".gz") := gzip(text)]
  }

  /**
   * Rebuilds one bundle. Fails without touching anything when a source is missing; fails
   * after pruning when the viewer directory is missing or the placeholder is empty.
   */
  method FilterCommon(cfg: Settings, strategy: Strategy, fs: FileSystem, obj: Bundle, filters: seq<Filter>,
                      separator: string, gzip: string -> string) returns (r: Result<(), Error>)
    requires fs.Valid()
    modifies fs
    ensures fs.Valid()
    ensures ConcatSpec(old(fs.files), obj.sourceFilenames, separator).Err? ==>
      r == Err(ConcatSpec(old(fs.files), obj.sourceFilenames, separator).error)
      && fs.files == old(fs.files) && fs.dirs == old(fs.dirs)
    ensures r.Ok? <==>
      ConcatSpec(old(fs.files), obj.sourceFilenames, separator).Ok? && cfg.placeholder != "" && ViewerDir in old(fs.dirs)
    ensures ConcatSpec(old(fs.files), obj.sourceFilenames, separator).Ok? && cfg.placeholder == "" ==>
      r == Err(ValueError)
    ensures (ConcatSpec(old(fs.files), obj.sourceFilenames, separator).Ok? && cfg.placeholder != ""
             && ViewerDir !in old(fs.dirs)) ==> r == Err(OSError(ViewerDir))
    ensures r.Err? ==> fs.dirs == old(fs.dirs)
    ensures r.Err? && ConcatSpec(old(fs.files), obj.sourceFilenames, separator).Ok? ==>
      fs.files == Pruned(cfg, old(fs.files), obj, OutputName(cfg, strategy, obj))
    ensures r.Ok? ==> fs.dirs == old(fs.dirs) + {ToPath(OutputName(cfg, strategy, obj)).dir}
    ensures r.Ok? ==>
      cfg.placeholder != "" && ConcatSpec(old(fs.files), obj.sourceFilenames, separator).Ok? &&
      exists webgl, html, flash ::
        Rebuilt(cfg, strategy, obj, filters, separator, gzip, old(fs.files), fs.files, webgl, html, flash)
  {
    var output := Concat(fs, obj.sourceFilenames, separator);
    if output.Err? {
      return Err(output.error);
    }
    var filename := GetOutputFilename(cfg, obj.outputFilename, strategy.getVersion(obj.sourceFilenames));
    if cfg.versioned {
      var removed := RemoveFiles(cfg, fs, ToPath(filename).dir, obj.outputFilename);
      if removed.Err? {
        return Err(removed.error);
      }
    }
    ghost var pruned := fs.files;
    var text := ApplyFilters(filters, output.value);

    var webgl := GetVersionFromFile(cfg, fs, ViewerDir, WebglTemplate);
    if webgl.Err? {
      return Err(webgl.error);
    }
    text := Replace(text, WebglTag, Str(webgl.value));
    var html := GetVersionFromFile(cfg, fs, ViewerDir, HtmlTemplate);
    text := Replace(text, HtmlTag, Str(html.value));
    var flash := GetVersionFromFile(cfg, fs, ViewerDir, FlashTemplate);
    text := Replace(text, FlashTag, Str(flash.value));

    SaveFile(fs, filename, text, gzip);
    assert Rebuilt(cfg, strategy, obj, filters, separator, gzip, old(fs.files), fs.files,
                   webgl.value, html.value, flash.value);
    return Ok(());
  }

  /** After pruning and writing a file and its companion, only those two can match. */
  lemma PrunedThenWritten(files: map<Path, string>, d: string, pat: Pattern, name: string,
                          text: string, gz: string, n: string)
    requires Path(d, n) in Prune(files, d, pat)[Path(d, name) := text][Path(d, name + ".gz") := gz]
    requires Matches(pat, n)
    ensures n == name || (n == name + ".gz" && !Matches(pat, name))
  {
    if Matches(pat, name) {
      CompanionNeverMatches(pat, name);
    }
  }

  /**
   * After a rebuild with versioning on, the output directory holds at most one file of the
   * bundle's pattern: the new output (its `.gz` copy counts only when the output itself does
   * not match). Stated for the pruned files plus any output and copy written under the
   * output name, which is what `Rebuilt` describes.
   */
  lemma RebuildLeavesOneVersion(cfg: Settings, obj: Bundle, name: string, text: string, gz: string,
                                before: map<Path, string>, after: map<Path, string>, n: string)
    requires cfg.versioned && cfg.placeholder != ""
    requires after == Pruned(cfg, before, obj, name)[ToPath(name) := text][ToPath(name + ".gz") := gz]
    requires Path(ToPath(name).dir, n) in after
    requires Matches(BuildPattern(cfg, ToPath(obj.outputFilename).name).value, n)
    ensures n == ToPath(name).name
      || (n == ToPath(name).name + ".gz"
          && !Matches(BuildPattern(cfg, ToPath(obj.outputFilename).name).value, ToPath(name).name))
  {
    var out := ToPath(name);
    var pat := BuildPattern(cfg, ToPath(obj.outputFilename).name).value;
    CompanionPath(name);
    assert after == Prune(before, out.dir, pat)[Path(out.dir, out.name) := text][Path(out.dir, out.name + ".gz") := gz];
    PrunedThenWritten(before, out.dir, pat, out.name, text, gz, n);
  }
}
