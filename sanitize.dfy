/**
 * The output-filename sanitiser. `HTMLToMarkdownConverter._sanitize_filename`
 * (mdconverter-mcp) and `utils.sanitize_filename` (MDConverter) have the same
 * body, so one definition models both: replace each forbidden character by
 * `_`, collapse runs of `_`, strip spaces and dots from both ends, substitute
 * `converted_file` for an empty result and cap the length at 200 while
 * keeping the extension.
 */
module Sanitize {
  import opened Text
  import Paths

  const Forbidden: set<char> := {'<', '>', ':', '"', '/', '\\', '|', '?', '*'}
  const Fallback := "converted_file"
  const MaxLength := 200

  predicate NoForbidden(s: string) {
    forall i :: 0 <= i < |s| ==> s[i] !in Forbidden
  }

  predicate NoDoubleUnderscore(s: string) {
    forall i :: 0 <= i < |s| - 1 ==> !(s[i] == '_' && s[i + 1] == '_')
  }

  predicate IsEdge(c: char) {
    c == ' ' || c == '.'
  }

  /** `re.sub(r'[<>:"/\\|?*]', '_', s)`. */
  function ReplaceForbidden(s: string): (r: string)
    ensures |r| == |s| && NoForbidden(r)
  {
    seq(|s|, i requires 0 <= i < |s| => if s[i] in Forbidden then '_' else s[i])
  }

  /** `re.sub(r'_+', '_', s)`: every maximal run of underscores becomes one. */
  function CollapseUnderscores(s: string): (r: string)
    ensures NoDoubleUnderscore(r)
    ensures |r| <= |s|
    ensures NoForbidden(s) ==> NoForbidden(r)
    ensures s != [] ==> r != [] && r[0] == s[0] && r[|r| - 1] == s[|s| - 1]
    decreases |s|
  {
    if |s| <= 1 then s
    else if s[0] == '_' && s[1] == '_' then CollapseUnderscores(s[1..])
    else [s[0]] + CollapseUnderscores(s[1..])
  }

  /** On a string without `__` the collapse changes nothing. */
  lemma {:induction false} CollapseUnderscoresIdentity(s: string)
    requires NoDoubleUnderscore(s)
    ensures CollapseUnderscores(s) == s
    decreases |s|
  {
    if |s| > 1 {
      CollapseUnderscoresIdentity(s[1..]);
    }
  }

  /** Everything up to and including the empty-name fallback, before the length cap. */
  function Presanitized(filename: string): (r: string)
    ensures r != [] && NoForbidden(r) && NoDoubleUnderscore(r)
    ensures !IsEdge(r[0]) && !IsEdge(r[|r| - 1])
  {
    var collapsed := CollapseUnderscores(ReplaceForbidden(filename));
    var stripped := StripBy(collapsed, IsEdge);
    SliceKeeps(collapsed, stripped, |collapsed| - |LStripBy(collapsed, IsEdge)|);
    if stripped == [] then FallbackClean(); Fallback else stripped
  }

  lemma FallbackClean()
    ensures Fallback != [] && NoForbidden(Fallback) && NoDoubleUnderscore(Fallback)
    ensures !IsEdge(Fallback[0]) && !IsEdge(Fallback[|Fallback| - 1])
  {
  }

  /** A slice keeps the absence of forbidden characters and of `__`. */
  lemma SliceKeeps(s: string, r: string, i: nat)
    requires NoForbidden(s) && NoDoubleUnderscore(s)
    requires i + |r| <= |s| && forall k :: 0 <= k < |r| ==> r[k] == s[i + k]
    ensures NoForbidden(r) && NoDoubleUnderscore(r)
  {
  }

  /** Python's `s[:n]`, where a negative `n` counts from the end. */
  function SliceTo(s: string, n: int): (r: string)
    ensures |r| <= |s| && r == s[..|r|]
    ensures n >= 0 ==> |r| == if n <= |s| then n else |s|
  {
    if n >= 0 then (if n <= |s| then s[..n] else s)
    else if |s| + n >= 0 then s[..|s| + n]
    else ""
  }

  /** The extension the length cap keeps. */
  function CapExtension(filename: string): string {
    Paths.Splitext(Presanitized(filename)).1
  }

  /** The length cap: cut the name so that name and extension fit in 200 characters. */
  function Cap(s: string): (r: string)
    requires |s| > MaxLength && NoForbidden(s) && NoDoubleUnderscore(s)
    ensures r != [] && NoForbidden(r) && NoDoubleUnderscore(r)
    ensures |Paths.Splitext(s).1| <= MaxLength ==> |r| == MaxLength
    ensures var ext := Paths.Splitext(s).1;
            |ext| <= MaxLength ==> r == s[..MaxLength - |ext|] + ext
  {
    var parts := Paths.Splitext(s);
    var name, ext := parts.0, parts.1;
    var head := SliceTo(name, MaxLength - |ext|);
    assert ext == [] ==> |head| == MaxLength;
    CapKeeps(s, name, ext, head);
    head + ext
  }

  /** `_sanitize_filename` / `sanitize_filename`. */
  function SanitizeFilename(filename: string): (r: string)
    ensures r != [] && NoForbidden(r) && NoDoubleUnderscore(r)
    ensures |CapExtension(filename)| <= MaxLength ==> |r| <= MaxLength
    ensures |Presanitized(filename)| <= MaxLength ==> r == Presanitized(filename)
    ensures |Presanitized(filename)| <= MaxLength ==> !IsEdge(r[0]) && !IsEdge(r[|r| - 1])
  {
    var s := Presanitized(filename);
    if |s| > MaxLength then Cap(s) else s
  }

  /** The capped name is a prefix of the name glued to the extension, which starts with a dot. */
  lemma CapKeeps(s: string, name: string, ext: string, head: string)
    requires NoForbidden(s) && NoDoubleUnderscore(s) && s != []
    requires name + ext == s && (ext == [] || ext[0] == '.')
    requires |head| <= |name| && head == name[..|head|]
    requires head != [] || ext != []
    ensures NoForbidden(head + ext) && NoDoubleUnderscore(head + ext)
  {
    assert forall k :: 0 <= k < |name| ==> name[k] == s[k];
    assert forall k :: 0 <= k < |ext| ==> ext[k] == s[|name| + k];
    var r := head + ext;
    forall k | 0 <= k < |r| - 1 ensures !(r[k] == '_' && r[k + 1] == '_') {
      if k + 1 < |head| {
        assert r[k] == s[k] && r[k + 1] == s[k + 1];
      } else if k + 1 == |head| {
        assert r[k + 1] == ext[0] == '.';
      } else {
        assert r[k] == s[|name| + k - |head|] && r[k + 1] == s[|name| + k + 1 - |head|];
      }
    }
  }

  /** Without truncation, sanitising twice is sanitising once. */
  lemma SanitizeIdempotent(filename: string)
    requires |Presanitized(filename)| <= MaxLength
    ensures SanitizeFilename(SanitizeFilename(filename)) == SanitizeFilename(filename)
  {
    var s := SanitizeFilename(filename);
    assert ReplaceForbidden(s) == s;
    CollapseUnderscoresIdentity(s);
    EdgeFreeStripIdentity(s);
  }

  lemma EdgeFreeStripIdentity(s: string)
    requires s != [] && !IsEdge(s[0]) && !IsEdge(s[|s| - 1])
    ensures StripBy(s, IsEdge) == s
  {
  }

  lemma CapWithoutExtension(s: string)
    requires |s| > MaxLength && NoForbidden(s) && NoDoubleUnderscore(s)
    requires Paths.Splitext(s).1 == []
    ensures Cap(s) == s[..MaxLength]
  {
    assert s[..MaxLength] + [] == s[..MaxLength];
  }

  predicate NoDot(s: string) {
    forall i :: 0 <= i < |s| ==> s[i] != '.'
  }

  /**
   * With truncation the edge guarantee is lost: a clean name longer than 200
   * characters without a dot is cut to its first 200 characters, so a space
   * at position 199 ends the result.
   */
  lemma TruncationCanEndWithSpace(f: string)
    requires |f| > MaxLength && f[MaxLength - 1] == ' ' && NoDot(f)
    requires NoForbidden(f) && NoDoubleUnderscore(f) && !IsEdge(f[0]) && !IsEdge(f[|f| - 1])
    ensures |SanitizeFilename(f)| == MaxLength && SanitizeFilename(f)[MaxLength - 1] == ' '
  {
    CleanNameUnchanged(f);
    Paths.SplitextNoDot(f);
    CapWithoutExtension(f);
  }

  /** A name already free of forbidden characters, `__` and edge characters passes the first stages unchanged. */
  lemma CleanNameUnchanged(f: string)
    requires f != [] && NoForbidden(f) && NoDoubleUnderscore(f) && !IsEdge(f[0]) && !IsEdge(f[|f| - 1])
    ensures Presanitized(f) == f
  {
    assert ReplaceForbidden(f) == f;
    CollapseUnderscoresIdentity(f);
    EdgeFreeStripIdentity(f);
  }

  /** Such names exist: 199 letters, a space, then 50 letters. */
  lemma SpacedNameExists()
    ensures var f := seq(199, _ => 'a') + " " + seq(50, _ => 'b');
            |f| > MaxLength && f[MaxLength - 1] == ' ' && NoDot(f) && NoForbidden(f)
            && NoDoubleUnderscore(f) && !IsEdge(f[0]) && !IsEdge(f[|f| - 1])
  {
    var f := seq(199, _ => 'a') + " " + seq(50, _ => 'b');
    assert forall i :: 0 <= i < |f| ==> f[i] == 'a' || f[i] == 'b' || f[i] == ' ';
  }
}

/**
 * The shapes of the examples the command-line package's tests use
 * (`test<>file.md`, `  test  `, the empty name), as the code computes them.
 */
module SanitizeExamples {
  import opened Text
  import opened Sanitize

  /** A word free of forbidden characters and underscores. */
  predicate Plain(w: string) {
    NoForbidden(w) && forall i :: 0 <= i < |w| ==> w[i] != '_'
  }

  /** Characters other than `_` in front of a non-empty rest pass through the collapse. */
  lemma {:induction false} CollapseWord(w: string, s: string)
    requires s != [] && forall i :: 0 <= i < |w| ==> w[i] != '_'
    ensures CollapseUnderscores(w + s) == w + CollapseUnderscores(s)
    decreases |w|
  {
    if w != [] {
      var t := w + s;
      Uncons(w, s);
      assert |t| > 1 && t[0] == w[0] != '_';
      assert CollapseUnderscores(t) == [t[0]] + CollapseUnderscores(t[1..]);
      CollapseWord(w[1..], s);
      Uncons(w, CollapseUnderscores(s));
    } else {
      assert w + s == s;
    }
  }

  lemma Uncons(w: string, s: string)
    requires w != []
    ensures (w + s)[1..] == w[1..] + s && [w[0]] + (w[1..] + s) == w + s
  {
    assert forall i :: 0 <= i < |w + s| - 1 ==> (w + s)[1..][i] == (w[1..] + s)[i];
    assert forall i :: 0 <= i < |w + s| ==> ([w[0]] + (w[1..] + s))[i] == (w + s)[i];
  }

  /** Two forbidden characters between two words: replaced by `__`, then collapsed to one `_`. */
  lemma TwoForbidden(a: string, c1: char, c2: char, b: string)
    requires Plain(a) && NoForbidden(b) && NoDoubleUnderscore(b) && b != [] && b[0] != '_'
    requires c1 in Forbidden && c2 in Forbidden
    ensures CollapseUnderscores(ReplaceForbidden(a + [c1, c2] + b)) == a + "_" + b
  {
    var run := ['_', '_'] + b;
    var r := ReplaceForbidden(a + [c1, c2] + b);
    assert r == a + run by {
      ReplacePlain(a, [c1, c2], b);
      assert seq(2, _ => '_') == ['_', '_'];
    }
    CollapseRun(b);
    CollapseWord(a, run);
    assert CollapseUnderscores(r) == a + (['_'] + b);
    assert a + (['_'] + b) == a + "_" + b;
    assert CollapseUnderscores(ReplaceForbidden(a + [c1, c2] + b)) == a + "_" + b;
  }

  /** `__` before a word without a leading `_` collapses to one `_`. */
  lemma CollapseRun(b: string)
    requires NoDoubleUnderscore(b) && b != [] && b[0] != '_'
    ensures CollapseUnderscores(['_', '_'] + b) == ['_'] + b
  {
    var run, rest := ['_', '_'] + b, ['_'] + b;
    assert run[1..] == rest;
    assert NoDoubleUnderscore(rest) by {
      assert forall i :: 1 <= i < |rest| ==> rest[i] == b[i - 1];
    }
    CollapseUnderscoresIdentity(rest);
  }

  /** Forbidden characters between two words become underscores; the words stay. */
  lemma ReplacePlain(a: string, m: string, b: string)
    requires NoForbidden(a) && NoForbidden(b) && forall i :: 0 <= i < |m| ==> m[i] in Forbidden
    ensures ReplaceForbidden(a + m + b) == a + seq(|m|, _ => '_') + b
  {
    var s := a + m + b;
    var r := a + seq(|m|, _ => '_') + b;
    forall i | 0 <= i < |s| ensures ReplaceForbidden(s)[i] == r[i] {
      if i < |a| {
        assert s[i] == a[i] && r[i] == a[i];
      } else if i < |a| + |m| {
        assert s[i] == m[i - |a|] && r[i] == '_';
      } else {
        assert s[i] == b[i - |a| - |m|] && r[i] == b[i - |a| - |m|];
      }
    }
  }

  /**
   * `test<>file.md` becomes `test_file.md`: the run of forbidden characters
   * ends up as a single underscore, where the package's own test expects two.
   */
  lemma ForbiddenRunCollapses(a: string, c1: char, c2: char, b: string)
    requires a != [] && Plain(a) && !IsEdge(a[0])
    requires NoForbidden(b) && NoDoubleUnderscore(b) && b != [] && b[0] != '_' && !IsEdge(b[|b| - 1])
    requires c1 in Forbidden && c2 in Forbidden && |a| + 1 + |b| <= MaxLength
    ensures SanitizeFilename(a + [c1, c2] + b) == a + "_" + b
  {
    TwoForbidden(a, c1, c2, b);
    var r := a + "_" + b;
    assert r[0] == a[0] && r[|r| - 1] == b[|b| - 1];
    EdgeFreeStripIdentity(r);
  }

  lemma {:induction false} LStripPadding(p: string, w: string)
    requires w != [] && !IsEdge(w[0]) && forall i :: 0 <= i < |p| ==> IsEdge(p[i])
    ensures LStripBy(p + w, IsEdge) == w
    decreases |p|
  {
    if p == [] {
      assert p + w == w;
    } else {
      assert (p + w)[0] == p[0] && (p + w)[1..] == p[1..] + w;
      LStripPadding(p[1..], w);
    }
  }

  lemma {:induction false} RStripPadding(w: string, q: string)
    requires w != [] && !IsEdge(w[|w| - 1]) && forall i :: 0 <= i < |q| ==> IsEdge(q[i])
    ensures RStripBy(w + q, IsEdge) == w
    decreases |q|
  {
    if q == [] {
      assert w + q == w;
    } else {
      var t := w + q;
      assert t[|t| - 1] == q[|q| - 1] && t[..|t| - 1] == w + q[..|q| - 1];
      RStripPadding(w, q[..|q| - 1]);
    }
  }

  /** `  test  ` becomes `test`: spaces and dots around a clean word are stripped. */
  lemma PaddingStripped(p: string, w: string, q: string)
    requires w != [] && NoForbidden(w) && NoDoubleUnderscore(w) && !IsEdge(w[0]) && !IsEdge(w[|w| - 1])
    requires forall i :: 0 <= i < |p| ==> IsEdge(p[i])
    requires forall i :: 0 <= i < |q| ==> IsEdge(q[i])
    requires |w| <= MaxLength
    ensures SanitizeFilename(p + w + q) == w
  {
    var s := p + w + q;
    PaddedClean(p, w, q);
    assert ReplaceForbidden(s) == s;
    CollapseUnderscoresIdentity(s);
    StripPadding(p, w, q);
  }

  lemma StripPadding(p: string, w: string, q: string)
    requires w != [] && !IsEdge(w[0]) && !IsEdge(w[|w| - 1])
    requires forall i :: 0 <= i < |p| ==> IsEdge(p[i])
    requires forall i :: 0 <= i < |q| ==> IsEdge(q[i])
    ensures StripBy(p + w + q, IsEdge) == w
  {
    var t := w + q;
    assert t[0] == w[0] && p + t == p + w + q;
    LStripPadding(p, t);
    RStripPadding(w, q);
  }

  /** Padding a clean word with spaces and dots adds no forbidden character and no `__`. */
  lemma PaddedClean(p: string, w: string, q: string)
    requires NoForbidden(w) && NoDoubleUnderscore(w)
    requires forall i :: 0 <= i < |p| ==> IsEdge(p[i])
    requires forall i :: 0 <= i < |q| ==> IsEdge(q[i])
    ensures NoForbidden(p + w + q) && NoDoubleUnderscore(p + w + q)
  {
    var s := p + w + q;
    forall i | 0 <= i < |s| ensures s[i] !in Forbidden && (s[i] == '_' ==> |p| <= i < |p| + |w|) {
      if i < |p| {
        assert s[i] == p[i];
      } else if i < |p| + |w| {
        assert s[i] == w[i - |p|];
      } else {
        assert s[i] == q[i - |p| - |w|];
      }
    }
    forall i | 0 <= i < |s| - 1 ensures !(s[i] == '_' && s[i + 1] == '_') {
      if |p| <= i && i + 1 < |p| + |w| {
        assert s[i] == w[i - |p|] && s[i + 1] == w[i - |p| + 1];
      }
    }
  }

  /** The empty name falls back to `converted_file`. */
  lemma EmptyFallsBack()
    ensures SanitizeFilename("") == "converted_file"
  {
    assert ReplaceForbidden("") == "";
  }
}
