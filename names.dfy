/**
 * Names of generated assets: splitting a dotted class path, putting a version token into an
 * output filename template, and recognising the names a template can produce.
 */
module Names {
  import opened Wrappers
  import opened Strings

  /**
   * The settings the helpers read: whether versioning is on, the placeholder that marks
   * where the version goes in a filename template, and the token used when there is none.
   */
  datatype Settings = Settings(versioned: bool, placeholder: string, defaultVersion: string)

  /** Splits a dotted path such as `pkg.mod.Class` into `("pkg.mod", "Class")` at its last dot. */
  function GetModFunc(callback: string): (r: (string, string))
    ensures '.' !in callback ==> r == (callback, "")
    ensures '.' in callback ==> r.0 + "." + r.1 == callback && '.' !in r.1
  {
    match RIndex(callback, '.')
    case None => (callback, "")
    case Some(dot) =>
      assert callback == callback[..dot] + "." + callback[dot + 1..];
      (callback[..dot], callback[dot + 1..])
  }

  /** The split at the last dot is the only one whose second half has no dot. */
  lemma GetModFuncUnique(callback: string, m: string, f: string)
    requires m + "." + f == callback && '.' !in f
    ensures GetModFunc(callback) == (m, f)
  {
    assert callback[|m|] == '.';
    var r := GetModFunc(callback);
    var m', f' := r.0, r.1;
    assert callback[|m'|] == '.';
    assert m == callback[..|m|] && f == callback[|m| + 1..];
  }

  /** What replaces the placeholder: the version, or the default token when versioning is off or there is no version. */
  function VersionToken(cfg: Settings, version: Option<string>): string {
    if cfg.versioned && version.Some? then version.value else cfg.defaultVersion
  }

  /**
   * The output filename for a template: every placeholder occurrence replaced by the
   * version token. Stated through the template's pieces between placeholders.
   */
  function GetOutputFilename(cfg: Settings, filename: string, version: Option<string>): (r: string)
    ensures cfg.placeholder != "" ==>
      r == Join(Split(filename, cfg.placeholder), VersionToken(cfg, version))
    ensures cfg.placeholder != "" && !Contains(filename, cfg.placeholder) ==> r == filename
    ensures cfg.placeholder == "" ==>
      r == Join([""] + Chars(filename) + [""], VersionToken(cfg, version))
    ensures cfg.placeholder == "" ==>
      |r| == |filename| + (|filename| + 1) * |VersionToken(cfg, version)|
  {
    var token := VersionToken(cfg, version);
    var r := Replace(filename, cfg.placeholder, token);
    ReplaceEmptyJoin(filename, token);
    ReplaceEmptyLength(filename, token);
    assert cfg.placeholder != "" ==> r == Join(Split(filename, cfg.placeholder), token) by {
      if cfg.placeholder != "" {
        ReplaceIsJoinSplit(filename, cfg.placeholder, token);
      }
    }
    assert cfg.placeholder != "" && !Contains(filename, cfg.placeholder) ==> r == filename by {
      if cfg.placeholder != "" && !Contains(filename, cfg.placeholder) {
        SplitAbsent(filename, cfg.placeholder);
      }
    }
    r
  }

  /** A one-character placeholder between two literal pieces, replaced by a version. */
  lemma OutputFilenameExample()
    ensures GetOutputFilename(Settings(true, "?", "0"), "app.r?.js", Some("abc123")) == "app.rabc123.js"
  {
    var cfg := Settings(true, "?", "0");
    OneCharPlaceholder(cfg, "app.r", ".js", Some("abc123"));
    assert GetOutputFilename(cfg, "app.r" + "?" + ".js", Some("abc123")) == "app.r" + "abc123" + ".js";
    assert "app.r" + "?" + ".js" == "app.r?.js";
    assert "app.r" + "abc123" + ".js" == "app.rabc123.js";
  }

  /** A template with one one-character placeholder between two placeholder-free pieces. */
  lemma OneCharPlaceholder(cfg: Settings, a: string, b: string, version: Option<string>)
    requires |cfg.placeholder| == 1 && cfg.placeholder[0] !in a && cfg.placeholder[0] !in b
    ensures GetOutputFilename(cfg, a + cfg.placeholder + b, version) == a + VersionToken(cfg, version) + b
  {
    var c := cfg.placeholder[0];
    assert cfg.placeholder == [c];
    SplitAtChar(a, c, b);
    NoCharNoSplit(b, c);
    var parts := Split(a + [c] + b, [c]);
    assert a + cfg.placeholder + b == a + [c] + b;
    assert parts == [a, b] && parts[1..] == [b];
    var token := VersionToken(cfg, version);
    assert Join(parts, token) == a + token + Join([b], token);
  }

  lemma {:induction false} NoCharNoSplit(s: string, c: char)
    requires c !in s
    ensures Split(s, [c]) == [s]
    decreases |s|
  {
    if s != [] {
      assert s[..1] == [s[0]] && s[0] != c;
      assert !StartsWith(s, [c]);
      NoCharNoSplit(s[1..], c);
      assert [s[0]] + s[1..] == s;
    }
  }

  /** Splitting at a one-character placeholder cuts at its first occurrence. */
  lemma {:induction false} SplitAtChar(a: string, c: char, b: string)
    requires c !in a
    ensures Split(a + [c] + b, [c]) == [a] + Split(b, [c])
    decreases |a|
  {
    var s := a + [c] + b;
    if a == [] {
      assert StartsWith(s, [c]);
      assert s[1..] == b;
    } else {
      assert s[..1] == [a[0]] && a[0] != c;
      assert !StartsWith(s, [c]);
      assert s[1..] == a[1..] + [c] + b;
      SplitAtChar(a[1..], c, b);
      assert [s[0]] + a[1..] == a;
    }
  }

  /** A character of `[A-Za-z0-9]`. */
  predicate IsAlnum(c: char) {
    'A' <= c <= 'Z' || 'a' <= c <= 'z' || '0' <= c <= '9'
  }

  /** A string `[A-Za-z0-9]+` matches in full: a possible version token. */
  predicate IsToken(t: string) {
    |t| > 0 && forall i :: 0 <= i < |t| ==> IsAlnum(t[i])
  }

  /**
   * The anchored expression built from a template. With versioning on, the literal pieces
   * between placeholders are matched exactly and each placeholder is a capturing
   * `([A-Za-z0-9]+)`; with versioning off, each placeholder is the default token and the
   * whole expression is literal.
   */
  datatype Pattern = Grouped(parts: seq<string>) | Literal(text: string)

  /** Whether a successful match has at least one group, so that there is a version to extract. */
  predicate HasGroup(pat: Pattern) {
    pat.Grouped? && |pat.parts| >= 2
  }

  /**
   * The pattern for a template, or `None` where the source raises `ValueError` because
   * `str.split` is given an empty placeholder.
   */
  function BuildPattern(cfg: Settings, template: string): (r: Option<Pattern>)
    ensures r.None? <==> cfg.placeholder == ""
    ensures r.Some? ==> (HasGroup(r.value) <==> cfg.versioned && Contains(template, cfg.placeholder))
  {
    if cfg.placeholder == "" then None
    else
      var parts := Split(template, cfg.placeholder);
      assert Contains(template, cfg.placeholder) <==> |parts| >= 2 by {
        if |parts| == 1 {
          JoinSplit(template, cfg.placeholder);
          SplitPartsFree(template, cfg.placeholder);
          assert Join(parts, cfg.placeholder) == parts[0];
        } else {
          SplitAbsentLength(template, cfg.placeholder);
        }
      }
      if cfg.versioned then Some(Grouped(parts))
      else Some(Literal(Join(parts, cfg.defaultVersion)))
  }

  lemma SplitAbsentLength(s: string, p: string)
    requires p != [] && |Split(s, p)| >= 2
    ensures Contains(s, p)
  {
    if !Contains(s, p) {
      SplitAbsent(s, p);
    }
  }

  /**
   * A name matches the pieces when it is the first piece, a non-empty alphanumeric token,
   * the second piece, and so on, with nothing before or after.
   */
  predicate MatchParts(parts: seq<string>, s: string)
    requires |parts| >= 1
    decreases |parts|
  {
    if |parts| == 1 then s == parts[0]
    else
      StartsWith(s, parts[0]) &&
      exists j :: |parts[0]| < j <= |s| && IsToken(s[|parts[0]|..j]) && MatchParts(parts[1..], s[j..])
  }

  /** A full match of the pattern against a name. */
  predicate Matches(pat: Pattern, name: string) {
    match pat
    case Literal(text) => name == text
    case Grouped(parts) => |parts| >= 1 && MatchParts(parts, name)
  }

  /** The pieces with the given tokens put between them. */
  function Interleave(parts: seq<string>, tokens: seq<string>): string
    requires |tokens| + 1 == |parts|
    decreases |tokens|
  {
    if tokens == [] then parts[0] else parts[0] + tokens[0] + Interleave(parts[1..], tokens[1..])
  }

  /** The name is the template with each placeholder replaced by some version token. */
  ghost predicate IsInstance(parts: seq<string>, name: string)
    requires |parts| >= 1
  {
    exists tokens :: |tokens| + 1 == |parts| && (forall k :: 0 <= k < |tokens| ==> IsToken(tokens[k]))
      && name == Interleave(parts, tokens)
  }

  /** The matcher recognises exactly the instances of the template. */
  lemma MatchPartsIffInstance(parts: seq<string>, s: string)
    requires |parts| >= 1
    ensures MatchParts(parts, s) <==> IsInstance(parts, s)
  {
    if MatchParts(parts, s) {
      MatchedIsInstance(parts, s);
    }
    if IsInstance(parts, s) {
      var tokens :| |tokens| + 1 == |parts| && (forall k :: 0 <= k < |tokens| ==> IsToken(tokens[k]))
        && s == Interleave(parts, tokens);
      InstanceIsMatched(parts, tokens);
    }
  }

  lemma MatchedIsInstance(parts: seq<string>, s: string)
    requires |parts| >= 1 && MatchParts(parts, s)
    ensures IsInstance(parts, s)
  {
    var tokens := MatchedTokens(parts, s);
  }

  /** The tokens a match reads between the pieces. */
  lemma {:induction false} MatchedTokens(parts: seq<string>, s: string) returns (tokens: seq<string>)
    requires |parts| >= 1 && MatchParts(parts, s)
    ensures |tokens| + 1 == |parts| && (forall k :: 0 <= k < |tokens| ==> IsToken(tokens[k]))
    ensures s == Interleave(parts, tokens)
    decreases |parts|
  {
    if |parts| == 1 {
      tokens := [];
    } else {
      var n := |parts[0]|;
      var j := MatchHead(parts, s);
      var t := s[n..j];
      var rest := MatchedTokens(parts[1..], s[j..]);
      tokens := [t] + rest;
      InterleaveCons(parts, t, rest);
      forall k | 0 <= k < |tokens|
        ensures IsToken(tokens[k])
      {
        if k > 0 {
          assert tokens[k] == rest[k - 1];
        }
      }
    }
  }

  /** Where the first token of a match ends. */
  lemma MatchHead(parts: seq<string>, s: string) returns (j: nat)
    requires |parts| >= 2 && MatchParts(parts, s)
    ensures |parts[0]| < j <= |s| && IsToken(s[|parts[0]|..j]) && MatchParts(parts[1..], s[j..])
    ensures s == parts[0] + s[|parts[0]|..j] + s[j..]
  {
    var n := |parts[0]|;
    j :| n < j <= |s| && IsToken(s[n..j]) && MatchParts(parts[1..], s[j..]);
    assert s == s[..n] + s[n..j] + s[j..];
  }

  lemma InterleaveCons(parts: seq<string>, t: string, rest: seq<string>)
    requires |rest| + 2 == |parts|
    ensures Interleave(parts, [t] + rest) == parts[0] + t + Interleave(parts[1..], rest)
  {
    assert ([t] + rest)[1..] == rest;
  }

  lemma {:induction false} InstanceIsMatched(parts: seq<string>, tokens: seq<string>)
    requires |tokens| + 1 == |parts|
    requires forall k :: 0 <= k < |tokens| ==> IsToken(tokens[k])
    ensures MatchParts(parts, Interleave(parts, tokens))
    decreases |tokens|
  {
    if tokens != [] {
      var s := Interleave(parts, tokens);
      var n := |parts[0]|;
      var j := n + |tokens[0]|;
      var rest := Interleave(parts[1..], tokens[1..]);
      assert s == parts[0] + tokens[0] + rest;
      assert s[..n] == parts[0] && s[n..j] == tokens[0] && s[j..] == rest;
      assert IsToken(tokens[0]);
      assert forall k :: 0 <= k < |tokens[1..]| ==> IsToken(tokens[1..][k]);
      InstanceIsMatched(parts[1..], tokens[1..]);
      assert n < j <= |s| && IsToken(s[n..j]) && MatchParts(parts[1..], s[j..]);
    }
  }

  /**
   * The pattern of a template recognises exactly the names that are the template with each
   * placeholder replaced by a non-empty alphanumeric token (versioning on), or exactly the
   * default output filename (versioning off). Nothing may precede or follow.
   */
  lemma TemplateMatch(cfg: Settings, template: string, name: string)
    requires cfg.placeholder != ""
    ensures Matches(BuildPattern(cfg, template).value, name) <==>
      if cfg.versioned then IsInstance(Split(template, cfg.placeholder), name)
      else name == GetOutputFilename(cfg, template, None)
  {
    if cfg.versioned {
      MatchPartsIffInstance(Split(template, cfg.placeholder), name);
    }
  }

  function Repeat(t: string, n: nat): (r: seq<string>)
    ensures |r| == n && forall k :: 0 <= k < n ==> r[k] == t
  {
    if n == 0 then [] else [t] + Repeat(t, n - 1)
  }

  lemma {:induction false} JoinIsInterleave(parts: seq<string>, t: string)
    requires |parts| >= 1
    ensures Join(parts, t) == Interleave(parts, Repeat(t, |parts| - 1))
    decreases |parts|
  {
    if |parts| > 1 {
      JoinIsInterleave(parts[1..], t);
      assert Repeat(t, |parts| - 1)[1..] == Repeat(t, |parts| - 2);
    }
  }

  /** Every versioned output filename of a template matches the template's pattern. */
  lemma OutputNameMatches(cfg: Settings, template: string, t: string)
    requires cfg.versioned && cfg.placeholder != "" && IsToken(t)
    ensures Matches(BuildPattern(cfg, template).value, GetOutputFilename(cfg, template, Some(t)))
  {
    var parts := Split(template, cfg.placeholder);
    JoinIsInterleave(parts, t);
    var tokens := Repeat(t, |parts| - 1);
    assert IsInstance(parts, Interleave(parts, tokens));
    MatchPartsIffInstance(parts, GetOutputFilename(cfg, template, Some(t)));
  }

  /**
   * The text the first group captures, as Python's backtracking matcher leaves it: the
   * longest first token for which the rest of the pattern still matches.
   */
  function Capture(parts: seq<string>, s: string): (r: Option<string>)
    requires |parts| >= 2
    ensures r.Some? <==> MatchParts(parts, s)
    ensures r.Some? ==>
      IsToken(r.value) && StartsWith(s, parts[0] + r.value)
      && MatchParts(parts[1..], s[|parts[0]| + |r.value|..])
    ensures r.Some? ==> forall k :: |parts[0]| + |r.value| < k <= |s| ==>
      !(IsToken(s[|parts[0]|..k]) && MatchParts(parts[1..], s[k..]))
  {
    if StartsWith(s, parts[0]) then
      var r := LongestToken(parts, s, |s|);
      assert r.Some? ==> s[..|parts[0]| + |r.value|] == parts[0] + r.value;
      r
    else None
  }

  /** The longest first token ending at or before `j` after which the rest of the pattern matches. */
  function LongestToken(parts: seq<string>, s: string, j: nat): (r: Option<string>)
    requires |parts| >= 2 && StartsWith(s, parts[0]) && j <= |s|
    ensures r.Some? ==>
      |parts[0]| + |r.value| <= j && r.value == s[|parts[0]|..|parts[0]| + |r.value|]
      && IsToken(r.value) && MatchParts(parts[1..], s[|parts[0]| + |r.value|..])
    ensures r.Some? ==> forall k :: |parts[0]| + |r.value| < k <= j ==>
      !(IsToken(s[|parts[0]|..k]) && MatchParts(parts[1..], s[k..]))
    ensures r.None? ==> forall k :: |parts[0]| < k <= j ==>
      !(IsToken(s[|parts[0]|..k]) && MatchParts(parts[1..], s[k..]))
    decreases j
  {
    var n := |parts[0]|;
    if j <= n then None
    else if IsToken(s[n..j]) && MatchParts(parts[1..], s[j..]) then Some(s[n..j])
    else LongestToken(parts, s, j - 1)
  }

  /** With a single placeholder, the version put into a filename is the one read back from it. */
  lemma VersionRoundTrip(cfg: Settings, template: string, t: string)
    requires cfg.versioned && cfg.placeholder != "" && IsToken(t)
    requires |Split(template, cfg.placeholder)| == 2
    ensures Capture(Split(template, cfg.placeholder), GetOutputFilename(cfg, template, Some(t))) == Some(t)
  {
    var parts := Split(template, cfg.placeholder);
    var s := GetOutputFilename(cfg, template, Some(t));
    assert parts[1..] == [parts[1]];
    assert Join(parts[1..], t) == parts[1];
    assert s == parts[0] + t + parts[1];
    var n := |parts[0]|;
    assert s[n..n + |t|] == t && s[n + |t|..] == parts[1];
    assert MatchParts(parts[1..], s[n + |t|..]);
    assert MatchParts(parts, s);
    var u := Capture(parts, s).value;
    assert s[n + |u|..] == parts[1];
    assert |u| == |t|;
  }

  // ---------------------------------------------------------------------------------------
  // Python's `$` also matches just before a final newline, so the anchored expression of the
  // source accepts a name with one extra trailing "\n". The rest of the model uses the exact
  // match that the anchors were evidently meant to give.

  /** The match as the source performs it with `re.match('^...$')`. */
  predicate MatchesAsWritten(pat: Pattern, name: string) {
    Matches(pat, name) || (|name| > 0 && name[|name| - 1] == '\n' && Matches(pat, name[..|name| - 1]))
  }

  /**
   * As written, a newline after a versioned name still matches a single-placeholder pattern,
   * although that name is not an instance of the template.
   */
  lemma StrayNewlineMatchesAsWritten(a: string, t: string, b: string)
    requires IsToken(t) && '\n' !in b
    ensures MatchesAsWritten(Grouped([a, b]), a + t + b + "\n")
    ensures !Matches(Grouped([a, b]), a + t + b + "\n")
    ensures !IsInstance([a, b], a + t + b + "\n")
  {
    var parts := [a, b];
    var s := a + t + b;
    var name := s + "\n";
    assert parts[1..] == [b];
    assert s[|a|..|a| + |t|] == t && s[|a| + |t|..] == b && s[..|a|] == a;
    assert MatchParts(parts[1..], s[|a| + |t|..]);
    assert MatchParts(parts, s);
    assert name[..|name| - 1] == s;
    if MatchParts(parts, name) {
      NoTrailingNewline(parts, name);
    }
    MatchPartsIffInstance(parts, name);
  }

  /** The concrete input: `app.rabc.js` followed by a newline, against the template `app.r?.js`. */
  lemma TrailingNewlineMatchesAsWritten()
    ensures MatchesAsWritten(Grouped(["app.r", ".js"]), "app.rabc.js\n")
    ensures !Matches(Grouped(["app.r", ".js"]), "app.rabc.js\n")
  {
    assert IsToken("abc");
    StrayNewlineMatchesAsWritten("app.r", "abc", ".js");
    assert "app.r" + "abc" + ".js" + "\n" == "app.rabc.js\n";
  }

  /**
   * With the exact match, a template whose last piece has no newline never matches a
   * name ending in a newline.
   */
  lemma {:induction false} NoTrailingNewline(parts: seq<string>, name: string)
    requires |parts| >= 1 && '\n' !in parts[|parts| - 1]
    requires MatchParts(parts, name)
    ensures |name| == 0 || name[|name| - 1] != '\n'
    decreases |parts|
  {
    if |parts| > 1 {
      var n := |parts[0]|;
      var j :| n < j <= |name| && IsToken(name[n..j]) && MatchParts(parts[1..], name[j..]);
      assert parts[1..][|parts[1..]| - 1] == parts[|parts| - 1];
      NoTrailingNewline(parts[1..], name[j..]);
      if j == |name| {
        assert name[|name| - 1] == name[n..j][j - n - 1];
      } else {
        assert name[|name| - 1] == name[j..][|name| - j - 1];
      }
    } else if |name| > 0 {
      assert name[|name| - 1] in parts[0];
    }
  }

  /** A name matching a grouped pattern has exactly the dots of its literal pieces. */
  function PartsDots(parts: seq<string>): nat
    decreases |parts|
  {
    if parts == [] then 0 else Dots(parts[0]) + PartsDots(parts[1..])
  }

  lemma {:induction false} TokenHasNoDots(t: string)
    requires forall i :: 0 <= i < |t| ==> IsAlnum(t[i])
    ensures Dots(t) == 0
    decreases |t|
  {
    if t != [] {
      TokenHasNoDots(t[1..]);
    }
  }

  lemma {:induction false} MatchDots(parts: seq<string>, s: string)
    requires |parts| >= 1 && MatchParts(parts, s)
    ensures Dots(s) == PartsDots(parts)
    decreases |parts|
  {
    if |parts| == 1 {
      assert parts[1..] == [];
    } else {
      var n := |parts[0]|;
      var j :| n < j <= |s| && IsToken(s[n..j]) && MatchParts(parts[1..], s[j..]);
      MatchDots(parts[1..], s[j..]);
      TokenHasNoDots(s[n..j]);
      assert s == parts[0] + s[n..j] + s[j..];
      DotsAppend(parts[0] + s[n..j], s[j..]);
      DotsAppend(parts[0], s[n..j]);
    }
  }

  /** The `.gz` companion of a matching name never matches itself. */
  lemma CompanionNeverMatches(pat: Pattern, name: string)
    requires Matches(pat, name)
    ensures !Matches(pat, name + ".gz")
  {
    if pat.Grouped? && Matches(pat, name + ".gz") {
      MatchDots(pat.parts, name);
      MatchDots(pat.parts, name + ".gz");
      DotsAppend(name, ".gz");
    }
  }
}
