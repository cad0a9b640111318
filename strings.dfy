/**
 * The few Python string operations the asset helpers rely on, with Python's semantics:
 * `str.replace`, `str.split`, `str.join` and `str.rindex`.
 */
module Strings {
  import opened Wrappers

  /** `s.startswith(p)`. */
  predicate StartsWith(s: string, p: string) {
    |p| <= |s| && s[..|p|] == p
  }

  /** `p in s`: `p` occurs somewhere in `s`. */
  predicate Contains(s: string, p: string)
    decreases |s|
  {
    StartsWith(s, p) || (|s| > 0 && Contains(s[1..], p))
  }

  /**
   * `s.replace(p, r)`: every non-overlapping occurrence of `p`, scanning left to right,
   * becomes `r`. With an empty `p`, Python inserts `r` before every character and at the end.
   */
  function Replace(s: string, p: string, r: string): string
    decreases |s|
  {
    if p == [] then
      (if s == [] then r else r + [s[0]] + Replace(s[1..], p, r))
    else if StartsWith(s, p) then r + Replace(s[|p|..], p, r)
    else if s == [] then []
    else [s[0]] + Replace(s[1..], p, r)
  }

  /** The characters of `s`, each as a one-character string. */
  function Chars(s: string): seq<string>
    decreases |s|
  {
    if s == [] then [] else [[s[0]]] + Chars(s[1..])
  }

  /**
   * With an empty pattern, `r` goes before each character and once at the end: the
   * characters joined with `r`, with an empty piece at either end.
   */
  lemma {:induction false} ReplaceEmptyJoin(s: string, r: string)
    ensures Replace(s, [], r) == Join([""] + Chars(s) + [""], r)
    decreases |s|
  {
    var q := [""] + Chars(s) + [""];
    assert q[1..] == Chars(s) + [""];
    if s == [] {
      assert q == ["", ""] && q[1..] == [""];
    } else {
      ReplaceEmptyJoin(s[1..], r);
      var tail := Chars(s[1..]) + [""];
      var q' := [""] + tail;
      assert [""] + Chars(s[1..]) + [""] == q';
      assert q'[1..] == tail;
      assert Chars(s) + [""] == [[s[0]]] + tail;
      assert ([[s[0]]] + tail)[1..] == tail;
      assert Join(q, r) == "" + r + ([s[0]] + r + Join(tail, r));
      assert Join(q', r) == "" + r + Join(tail, r);
    }
  }

  /** With an empty pattern, the result has one copy of `r` per character and one more. */
  lemma {:induction false} ReplaceEmptyLength(s: string, r: string)
    ensures |Replace(s, [], r)| == |s| + (|s| + 1) * |r|
    decreases |s|
  {
    if s != [] {
      ReplaceEmptyLength(s[1..], r);
      assert (|s| + 1) * |r| == |r| + |s| * |r|;
    }
  }

  /** `s.split(p)` for a non-empty separator (Python raises `ValueError` for an empty one). */
  function Split(s: string, p: string): (parts: seq<string>)
    requires p != []
    ensures |parts| >= 1
    decreases |s|
  {
    if StartsWith(s, p) then [""] + Split(s[|p|..], p)
    else if s == [] then [""]
    else
      var rest := Split(s[1..], p);
      [[s[0]] + rest[0]] + rest[1..]
  }

  /** `sep.join(parts)`. */
  function Join(parts: seq<string>, sep: string): string
    requires |parts| >= 1
    decreases |parts|
  {
    if |parts| == 1 then parts[0] else parts[0] + sep + Join(parts[1..], sep)
  }

  lemma {:induction false} JoinPrefixFirst(x: string, parts: seq<string>, sep: string)
    requires |parts| >= 1
    ensures Join([x + parts[0]] + parts[1..], sep) == x + Join(parts, sep)
  {
    var q := [x + parts[0]] + parts[1..];
    assert q[1..] == parts[1..];
  }

  /** Splitting and joining back with the same separator gives the original string. */
  lemma {:induction false} JoinSplit(s: string, p: string)
    requires p != []
    ensures Join(Split(s, p), p) == s
  {
    ReplaceIsJoinSplit(s, p, p);
    ReplaceSelf(s, p);
  }

  /** Replacing a separator by itself changes nothing. */
  lemma {:induction false} ReplaceSelf(s: string, p: string)
    requires p != []
    ensures Replace(s, p, p) == s
    decreases |s|
  {
    if StartsWith(s, p) {
      ReplaceSelf(s[|p|..], p);
      assert s == p + s[|p|..];
    } else if s != [] {
      ReplaceSelf(s[1..], p);
      assert s == [s[0]] + s[1..];
    }
  }

  /** Replacing is splitting at the occurrences and joining with the replacement. */
  lemma {:induction false} ReplaceIsJoinSplit(s: string, p: string, r: string)
    requires p != []
    ensures Replace(s, p, r) == Join(Split(s, p), r)
    decreases |s|
  {
    if StartsWith(s, p) {
      ReplaceIsJoinSplit(s[|p|..], p, r);
      ReplaceSkipStep(s, p, r);
    } else if s != [] {
      ReplaceIsJoinSplit(s[1..], p, r);
      ReplaceKeepStep(s, p, r);
    }
  }

  /** An occurrence at the front becomes an empty first piece. */
  lemma ReplaceSkipStep(s: string, p: string, r: string)
    requires p != [] && StartsWith(s, p)
    requires Replace(s[|p|..], p, r) == Join(Split(s[|p|..], p), r)
    ensures Replace(s, p, r) == Join(Split(s, p), r)
  {
    var rest := Split(s[|p|..], p);
    assert Split(s, p) == [""] + rest;
    assert ([""] + rest)[1..] == rest;
  }

  /** A first character that starts no occurrence joins the first piece. */
  lemma ReplaceKeepStep(s: string, p: string, r: string)
    requires p != [] && !StartsWith(s, p) && s != []
    requires Replace(s[1..], p, r) == Join(Split(s[1..], p), r)
    ensures Replace(s, p, r) == Join(Split(s, p), r)
  {
    var rest := Split(s[1..], p);
    assert Split(s, p) == [[s[0]] + rest[0]] + rest[1..];
    JoinPrefixFirst([s[0]], rest, r);
  }

  /** Starting with a string that starts with `p` is starting with `p`. */
  lemma {:induction false} StartsWithPrefix(s: string, x: string, p: string)
    ensures StartsWith(x, p) && StartsWith(s, x) ==> StartsWith(s, p)
  {
    if StartsWith(x, p) && StartsWith(s, x) {
      assert s[..|x|][..|p|] == s[..|p|];
    }
  }

  lemma {:induction false} ContainsPrefix(s: string, x: string, p: string)
    requires Contains(x, p) && StartsWith(s, x)
    ensures Contains(s, p)
    decreases |x|
  {
    if StartsWith(x, p) {
      StartsWithPrefix(s, x, p);
    } else {
      assert s[1..][..|x| - 1] == x[1..];
      ContainsPrefix(s[1..], x[1..], p);
    }
  }

  /** The first piece of a split is a prefix of the string. */
  lemma {:induction false} SplitFirstIsPrefix(s: string, p: string)
    requires p != []
    ensures StartsWith(s, Split(s, p)[0])
    decreases |s|
  {
    if StartsWith(s, p) {
    } else if s == [] {
    } else {
      SplitFirstIsPrefix(s[1..], p);
      var x := Split(s[1..], p)[0];
      assert s[..|x| + 1] == [s[0]] + s[1..][..|x|];
    }
  }

  /** No piece produced by `split` contains the separator: every occurrence was cut out. */
  lemma {:induction false} SplitPartsFree(s: string, p: string)
    requires p != []
    ensures forall k :: 0 <= k < |Split(s, p)| ==> !Contains(Split(s, p)[k], p)
    decreases |s|
  {
    if StartsWith(s, p) {
      SplitPartsFree(s[|p|..], p);
      var rest := Split(s[|p|..], p);
      assert forall k :: 1 <= k < |rest| + 1 ==> ([""] + rest)[k] == rest[k - 1];
      assert !StartsWith("", p);
    } else if s == [] {
      assert !StartsWith("", p);
    } else {
      SplitPartsFree(s[1..], p);
      var rest := Split(s[1..], p);
      var first := [s[0]] + rest[0];
      var parts := [first] + rest[1..];
      assert parts == Split(s, p);
      assert forall k :: 1 <= k < |parts| ==> parts[k] == rest[k];
      SplitFirstIsPrefix(s[1..], p);
      assert s[..|first|] == first;
      StartsWithPrefix(s, first, p);
      assert first[1..] == rest[0];
    }
  }

  /** A string without the separator splits into itself alone. */
  lemma {:induction false} SplitAbsent(s: string, p: string)
    requires p != [] && !Contains(s, p)
    ensures Split(s, p) == [s]
    decreases |s|
  {
    if s != [] {
      SplitAbsent(s[1..], p);
      assert [s[0]] + s[1..] == s;
    }
  }

  /** `s.rindex(c)`: the last position of `c` in `s`, or `None` where Python raises. */
  function RIndex(s: string, c: char): (r: Option<nat>)
    ensures r.None? <==> c !in s
    ensures r.Some? ==> r.value < |s| && s[r.value] == c && c !in s[r.value + 1..]
    decreases |s|
  {
    if s == [] then None
    else if s[|s| - 1] == c then Some(|s| - 1)
    else
      assert s == s[..|s| - 1] + [s[|s| - 1]];
      RIndex(s[..|s| - 1], c)
  }

  /** Number of `.` characters in `s`. */
  function Dots(s: string): nat
    decreases |s|
  {
    if s == [] then 0 else (if s[0] == '.' then 1 else 0) + Dots(s[1..])
  }

  lemma {:induction false} DotsAppend(a: string, b: string)
    ensures Dots(a + b) == Dots(a) + Dots(b)
    decreases |a|
  {
    if a != [] {
      assert (a + b)[0] == a[0];
      assert (a + b)[1..] == a[1..] + b;
      DotsAppend(a[1..], b);
    } else {
      assert a + b == b;
    }
  }
}
