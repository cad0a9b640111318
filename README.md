# django-compress asset helpers, modelled in Dafny

django-compress bundles the CSS and JavaScript sources of a Django site. For each configured
bundle, the helpers in `compress/utils.py` do the following:
- concatenate the source files, with a separator after each;
- run the text through a list of pluggable filters (minifiers);
- put a version token into the output filename template, at the version placeholder;
- delete outdated versioned outputs, and the `.gz` copy of each;
- fill the three viewer-version placeholders of the output with the versions found in the
  viewer script directory;
- write the result, plus a gzip copy.

This project models those helpers and proves what they guarantee.

The model has six modules:

- `Wrappers` defines `Option` and `Result`.
- `Strings` models Python's `str.replace`, `str.split`, `str.join` and `str.rindex` with
  Python's semantics. This includes `replace` with an empty pattern and the `ValueError` of
  `split`. `Join` is defined for non-empty lists only, which are the only lists the helpers
  join (a split always has at least one piece).
- `Names` holds the settings (versioning on or off, the placeholder, the default token) and
  `get_mod_func`. It also builds the output filename.
  - The anchored expression built from a template is the `Pattern` datatype. Its exact match
    is the predicate `Matches`.
  - `Capture` gives the first group's text, as Python's backtracking matcher leaves it: the
    longest first token for which the rest of the name still matches.
- `Storage` models the filesystem under the media root as a `FileSystem` object. The object
  holds the contents of every file and the set of existing directories. It offers the
  operations the helpers call: `os.listdir`, `os.unlink`, `os.makedirs`, and opening for
  writing.
- `Utils` models `concat`, `needs_update`, `remove_files`, `get_version_from_file` and
  `save_file`.
  - The imperative helpers are module-level methods that take the `FileSystem` and change it
    only through its own methods (`ListDir`, `Unlink`, `MakeDirs` and `Write`).
  - Each method is proved against a specification function:
    - `ConcatSpec` for `concat`;
    - `Prune` for `remove_files`;
    - `DirVersion` for `get_version_from_file`.
  - The properties of those functions are proved as lemmas.
- `Pipeline` models `filter_common`: one rebuild of a bundle, from concatenation to the saved
  output.

Paths are relative to the media root. A filename is split at its last `/` into a directory
and a last component, as `os.path.dirname` and `os.path.basename` do.

The versioning strategy is given as a pair of functions. So are the filters and the gzip
encoder. In the source these come from dynamic class loading.

The order in which `os.listdir` returns entries is chosen by the system. The model's
`ListDir` may return any order, so every contract holds for all orders.

Pruning also matches the current output. With an unchanged version token, the current output
and its `.gz` copy are deleted and then written again (see `Utils.PruneLeavesNoMatch` and
`Pipeline.FilterCommon`).

## Model

| member | source | states |
|---|---|---|
| Strings.RIndex | compress/utils.py:37-39 | `None` exactly when the character does not occur; otherwise the position of an occurrence with none after it |
| Strings.ReplaceIsJoinSplit | compress/utils.py:97-99 | `replace` with a non-empty pattern is splitting at the pattern and joining the pieces with the replacement |
| Strings.ReplaceEmptyJoin | compress/utils.py:97-99 | `replace` with an empty pattern puts the replacement before every character and once at the end: the characters joined by it, with an empty piece at either end |
| Strings.ReplaceEmptyLength | compress/utils.py:97-99 | the length of `replace` with an empty pattern: the string's length plus one copy of the replacement per character and one more |
| Strings.JoinSplit | compress/utils.py:106 | joining the pieces of a split with the same separator gives back the original string |
| Strings.SplitPartsFree | compress/utils.py:106 | no piece of a split contains the separator |
| Strings.SplitAbsent | compress/utils.py:106 | a string without the separator splits into itself alone |
| Names.GetModFunc | compress/utils.py:30-40 | with no dot, the whole string and an empty name; otherwise a module part and a name that rejoin with a dot into the input, the name holding no dot |
| Names.GetModFuncUnique | compress/utils.py:30-40 | the split at the last dot is the only split whose name part has no dot |
| Names.GetOutputFilename | compress/utils.py:95-99 | every placeholder occurrence becomes the version when versioning is on and a version exists, and the default token otherwise; a template without the placeholder is unchanged; an empty placeholder puts the token before every character and once at the end |
| Names.OutputFilenameExample | compress/utils.py:95-97 | `app.r?.js` with placeholder `?` and version `abc123` becomes `app.rabc123.js` |
| Names.BuildPattern | compress/utils.py:106 | an empty placeholder raises `ValueError`; otherwise a pattern is built, and it has a capture group exactly when versioning is on and the template contains the placeholder |
| Names.MatchPartsIffInstance | compress/utils.py:106-108 | the anchored match succeeds exactly on the names that are the template with each placeholder replaced by a non-empty `[A-Za-z0-9]+` token |
| Names.TemplateMatch | compress/utils.py:113-116 | with versioning on, a name matches the template's pattern iff it is an instance of the template; with versioning off, iff it is the default output filename |
| Names.OutputNameMatches | compress/utils.py:95-97 | every output filename made with an alphanumeric version token matches its own template's pattern |
| Names.Capture | compress/utils.py:106-110 | a group is captured iff the name matches; the capture is a token that follows the first piece; and no longer token leaves a match of the rest |
| Names.LongestToken | compress/utils.py:106-110 | the search from the longest candidate down returns the longest token after which the rest matches, or none when no token does |
| Names.VersionRoundTrip | compress/utils.py:95-110 | with one placeholder, the version read back from an output filename is the version put into it |
| Names.StrayNewlineMatchesAsWritten | compress/utils.py:106-108 | Python's `$` accepts a versioned name followed by a newline, though that name is no instance of the template |
| Names.TrailingNewlineMatchesAsWritten | compress/utils.py:113-116 | `app.rabc.js` plus a newline matches `app.r?.js` as the source anchors it, and not under an exact match |
| Names.NoTrailingNewline | compress/utils.py:113-116 | under the exact match, a template whose last piece has no newline never matches a name ending in a newline |
| Names.MatchDots | compress/utils.py:113-116 | a matching name has exactly the dots of the template's literal pieces, since tokens hold no dots |
| Names.CompanionNeverMatches | compress/utils.py:116-122 | the `.gz` copy of a matching name never matches the same pattern |
| Storage.ToPath | compress/utils.py:85 | the last component holds no `/`; directory, `/` and last component rejoin into the filename; a filename without `/` lies in the top directory |
| Storage.CompanionPath | compress/utils.py:91 | the gzip copy lies in the same directory as the output, under the output's name plus `.gz` |
| Storage.FileSystem.ListDir | compress/utils.py:107 | `OSError` iff the directory does not exist; otherwise every file of the directory exactly once, and nothing else |
| Storage.FileSystem.Unlink | compress/utils.py:120-124 | removes the file and nothing else, or raises `OSError` naming it and changes nothing |
| Storage.FileSystem.MakeDirs | compress/utils.py:86-87 | called only for a missing directory, as the source guards it; the directory exists afterwards, and the files are unchanged |
| Storage.FileSystem.Write | compress/utils.py:88-90 | the file holds exactly the new contents, or `IOError` when its directory is missing |
| Utils.Concat | compress/utils.py:69-79 | the loop computes the specification: the contents in order with a separator after each, or `IOError` |
| Utils.ConcatOkIff | compress/utils.py:74-75 | concatenation succeeds iff every source exists |
| Utils.ConcatFirstMissing | compress/utils.py:74-75 | a failure names the first source in list order that is missing |
| Utils.ConcatIsChunks | compress/utils.py:73-79 | a success is each source's contents followed by the separator, read from the front of the list |
| Utils.ConcatLength | compress/utils.py:73-79 | the output is as long as the sources together, plus one separator per source |
| Utils.ConcatExample | compress/utils.py:69-79 | `x;` and `y;` with an empty separator give `x;y;` |
| Utils.NeedsUpdate | compress/utils.py:42-56 | a missing output answers (true, version) without asking the strategy; otherwise the strategy's answer is returned unchanged |
| Utils.PruneLeavesNoMatch | compress/utils.py:115-124 | after pruning, no matching file of the directory is left, and neither is its `.gz` copy (the current output included) |
| Utils.PruneKeepsOthers | compress/utils.py:115-124 | pruning keeps, unchanged, every file that neither matches nor is the `.gz` copy of a match |
| Utils.PruneIdempotent | compress/utils.py:112-124 | pruning twice is the same as pruning once |
| Utils.NotYetDone | compress/utils.py:115-122 | a matching entry is still present when the loop reaches it, so its unlink cannot fail |
| Utils.RemoveFiles | compress/utils.py:112-124 | an empty placeholder raises `ValueError` and changes nothing; otherwise the files become exactly `Prune` of the old files (a missing directory changes nothing); directories are unchanged |
| Utils.FirstVersion | compress/utils.py:107-110 | no version iff the pattern has no group or no entry matches; otherwise the capture from the first matching entry in listing order |
| Utils.GetVersionFromFile | compress/utils.py:105-110 | `ValueError` for an empty placeholder and `OSError` for a missing directory; otherwise the version some matching file of the directory carries, and `None` when none matches or versioning is off |
| Utils.SaveFile | compress/utils.py:84-93 | the output directory exists; the output holds the contents and its `.gz` copy holds their gzip encoding; nothing else changes |
| Pipeline.ApplyFilters | compress/utils.py:137-138 | the loop applies the filters in list order, each one to the previous output |
| Pipeline.FoldFiltersAppend | compress/utils.py:137-138 | running two filter lists one after the other is running their concatenation |
| Pipeline.FoldFiltersFirst | compress/utils.py:137-138 | the first filter sees the concatenated text, and the rest see its output |
| Pipeline.RenderWithoutTags | compress/utils.py:140-147 | a text without the three viewer placeholders passes the substitutions unchanged |
| Pipeline.FilterCommon | compress/utils.py:126-150 | a missing source fails with its `IOError` and changes nothing. The run succeeds iff the sources exist, the placeholder is non-empty and the viewer directory exists. On success, the files are the pruned files plus the filtered, substituted output and its gzip copy, and the viewer versions are those the pruned directory holds. After a successful concatenation, an empty placeholder raises `ValueError`, and a missing viewer directory raises `OSError` naming it. A failure after concatenation leaves only the pruning done |
| Pipeline.RebuildLeavesOneVersion | compress/utils.py:126-150 | with versioning on, once the outdated outputs are pruned and the new output and its `.gz` copy are saved (the final state `FilterCommon` promises), the only file of the output directory that matches the bundle's pattern is the new output (its `.gz` copy only when the output itself does not match) |

## Left out

- `get_class` (compress/utils.py:13-28) is left out. It imports filters and the versioning strategy by dotted name, so the model takes the strategy and the filters as functions. `get_mod_func`, the name splitting it relies on, is modelled.
- `get_version` (compress/utils.py:101-103) becomes the strategy's `getVersion` function.
- `media_root` (compress/utils.py:58-62) is the identity: every path is relative to the media root.
- `media_url` (compress/utils.py:64-67) and its URL quoting are left out. Nothing in the helpers above calls it.
- `max_mtime` (compress/utils.py:81-82) is left out, because file modification times are not modelled.
- The `verbosity` messages, the `verbose` flag passed to filters, and `signal.send` (compress/utils.py:151) are left out. They produce output or notify listeners, and they do not change files.
- `filter_css` and `filter_js` (compress/utils.py:153-157) are `Pipeline.FilterCommon` with an empty separator and the filter list from the settings. The `version` argument of `filter_common` is not used by the code, so it is not modelled.
- Gzip compression is a function of the contents. The compressed bytes and the gzip header (with its timestamp) are left out.
- Strings are sequences of characters. Python 2's distinction between byte strings and unicode is left out.
- When versioning is off, the source puts the default token into the expression without escaping it. The model matches the default token literally, so a default token that contains regular-expression metacharacters is not modelled.
- The model assumes that the placeholder does not occur inside the escaped literal pieces of a template, and that it does not contain `/`. For such placeholders the source's substitution into the escaped expression, and its `basename` of the expression, can differ from the model's pattern.
- Utils.RemoveFiles, Utils.GetVersionFromFile and Pipeline.FilterCommon use the exact match `Names.Matches`, not Python's `$`. So a directory entry whose name is a template instance followed by a newline is kept by the model where the source deletes it, and is not read by the model where the source reads its version (see "## Findings").
- Paths are split at the last `/` only. Repeated slashes are not collapsed, and absolute paths are not modelled.
- Directories are not entries of a listing. A subdirectory whose name matches a pattern, which would make the unlink in `remove_files` fail, is not modelled.
- `Storage.FileSystem.MakeDirs` records only the directory itself. Its ancestors are not tracked.
- Write failures other than a missing directory are not modelled. Examples are permissions and a full disk. Read failures of `concat` other than a missing file are not modelled either.
- Utils.NeedsUpdate: a directory at the output path counts as existing for `os.path.exists`. The model checks only files.
- Storage.FileSystem.ListDir: the contract says which entries are listed, each once. It says nothing about the order, because the system chooses it.
- Utils.GetVersionFromFile: the contract says the version comes from some matching file of the directory, not which one. Which one depends on the listing order (`Utils.FirstVersion` states the exact choice for a given listing).
- Names.VersionRoundTrip is proved for templates with a single placeholder. With several placeholders, greedy capture of the first group can pick a different split when the literal pieces between placeholders are themselves alphanumeric.

## Findings

| source | as written | input that shows it | evidently intended | confidence | as-written member | corrected member |
|---|---|---|---|---|---|---|
| compress/utils.py:106-116 | The patterns are anchored with `^...$`. Python's `$` also matches just before a final newline. | A directory entry `app.rabc.js` followed by a newline, with the template `app.r?.js`: `remove_files` deletes it, and `get_version_from_file` reads `abc` from it. | An exact full match of the name (`\Z`), so only instances of the template match. | not executed | Names.TrailingNewlineMatchesAsWritten | Names.NoTrailingNewline |
