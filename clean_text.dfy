/**
 * Text normalisation. `HTMLToMarkdownConverter._clean_text` (mdconverter-mcp)
 * collapses whitespace runs, trims, and then decodes five HTML entities by
 * successive `replace` calls; `utils.clean_text` (MDConverter) collapses and
 * trims the same way and then deletes ASCII control characters, decoding no
 * entity.
 */
module CleanText {
  import opened Text

  /** No character is whitespace other than the plain space. */
  predicate OnlyPlainSpaces(s: string) {
    forall i :: 0 <= i < |s| ==> (IsSpace(s[i]) ==> s[i] == ' ')
  }

  predicate NoDoubleSpace(s: string) {
    forall i :: 0 <= i < |s| - 1 ==> !(s[i] == ' ' && s[i + 1] == ' ')
  }

  /** Single interior spaces only: the shape both cleaners aim for. */
  predicate Normalized(s: string) {
    OnlyPlainSpaces(s) && NoDoubleSpace(s) && (s == [] || (s[0] != ' ' && s[|s| - 1] != ' '))
  }

  /** The characters of `s` that are not whitespace, in order. */
  function NonSpace(s: string): (r: string)
    ensures forall i :: 0 <= i < |r| ==> !IsSpace(r[i])
  {
    if s == [] then []
    else if IsSpace(s[0]) then NonSpace(s[1..])
    else [s[0]] + NonSpace(s[1..])
  }

  /**
   * `re.sub(r'\s+', ' ', s)`: each maximal whitespace run becomes one space.
   * Read left to right, a whitespace character followed by another one is
   * dropped and the last one of its run is written as a space.
   */
  function CollapseSpaces(s: string): (r: string)
    ensures s == [] <==> r == []
    ensures s != [] ==> (IsSpace(s[0]) <==> r[0] == ' ')
    decreases |s|
  {
    if s == [] then []
    else if IsSpace(s[0]) then
      if |s| > 1 && IsSpace(s[1]) then CollapseSpaces(s[1..]) else [' '] + CollapseSpaces(s[1..])
    else [s[0]] + CollapseSpaces(s[1..])
  }

  /** The collapse leaves only plain, single spaces. */
  lemma {:induction false} CollapseShape(s: string)
    ensures OnlyPlainSpaces(CollapseSpaces(s)) && NoDoubleSpace(CollapseSpaces(s))
    decreases |s|
  {
    if s != [] {
      CollapseShape(s[1..]);
      var r := CollapseSpaces(s);
      var tail := CollapseSpaces(s[1..]);
      if !(IsSpace(s[0]) && |s| > 1 && IsSpace(s[1])) {
        assert r == [r[0]] + tail;
        assert r[0] == ' ' ==> tail == [] || tail[0] != ' ';
        forall i | 0 <= i < |r| - 1 ensures !(r[i] == ' ' && r[i + 1] == ' ') {
          if i > 0 {
            assert r[i] == tail[i - 1] && r[i + 1] == tail[i];
          }
        }
        assert OnlyPlainSpaces(r);
      }
    }
  }

  /** Every character of the collapse is a space or comes from `s`. */
  lemma {:induction false} CollapseChars(s: string, c: char)
    requires c in CollapseSpaces(s)
    ensures c == ' ' || c in s
    decreases |s|
  {
    var tail := CollapseSpaces(s[1..]);
    if c != ' ' && c != s[0] {
      CollapseChars(s[1..], c);
    }
  }

  /** The collapse only touches whitespace: every other character survives, in order. */
  lemma {:induction false} CollapseKeepsNonSpace(s: string)
    ensures NonSpace(CollapseSpaces(s)) == NonSpace(s)
    decreases |s|
  {
    if s != [] {
      CollapseKeepsNonSpace(s[1..]);
      var tail := CollapseSpaces(s[1..]);
      if IsSpace(s[0]) && !(|s| > 1 && IsSpace(s[1])) {
        assert ([' '] + tail)[1..] == tail;
      } else if !IsSpace(s[0]) {
        assert ([s[0]] + tail)[1..] == tail;
      }
    }
  }

  /** Trimming a collapsed string gives a normalised one. */
  lemma StripCollapsedNormalized(s: string)
    ensures Normalized(Strip(CollapseSpaces(s)))
  {
    CollapseShape(s);
    var c := CollapseSpaces(s);
    var r := Strip(c);
    var i, j := StripBounds(c);
    SliceSpaces(c, i, j);
    assert r == [] || (!IsSpace(r[0]) && !IsSpace(r[|r| - 1]));
    assert OnlyPlainSpaces(r) && NoDoubleSpace(r);
    assert r == [] || (r[0] != ' ' && r[|r| - 1] != ' ');
    assert Normalized(r);
  }

  /** A slice keeps both whitespace properties. */
  lemma SliceSpaces(c: string, i: nat, j: nat)
    requires i <= j <= |c| && OnlyPlainSpaces(c) && NoDoubleSpace(c)
    ensures OnlyPlainSpaces(c[i..j]) && NoDoubleSpace(c[i..j])
  {
    assert forall k :: 0 <= k < j - i ==> c[i..j][k] == c[i + k];
  }

  /** `replace` never introduces whitespace other than what `rep` contains. */
  lemma ReplaceKeepsPlainSpaces(s: string, pat: string, rep: string)
    requires pat != "" && OnlyPlainSpaces(s) && OnlyPlainSpaces(rep)
    ensures OnlyPlainSpaces(ReplaceAll(s, pat, rep))
  {
    ReplaceAllChars(s, pat, rep, c => IsSpace(c) ==> c == ' ');
  }

  /** A string without the first character of `pat` is left alone by `replace`. */
  lemma {:induction false} ReplaceAbsent(s: string, pat: string, rep: string)
    requires pat != "" && pat[0] !in s
    ensures ReplaceAll(s, pat, rep) == s
    decreases |s|
  {
    if |s| >= |pat| {
      assert s[..|pat|][0] == s[0];
      ReplaceAbsent(s[1..], pat, rep);
    }
  }

  /** The five entity replacements of `_clean_text`, in source order. */
  function DecodeEntities(s: string): string {
    var a := ReplaceAll(s, "&nbsp;", " ");
    var b := ReplaceAll(a, "&amp;", "&");
    var c := ReplaceAll(b, "&lt;", "<");
    var d := ReplaceAll(c, "&gt;", ">");
    ReplaceAll(d, "&quot;", "\"")
  }

  lemma DecodeEntitiesPlainSpaces(s: string)
    requires OnlyPlainSpaces(s)
    ensures OnlyPlainSpaces(DecodeEntities(s))
  {
    var a := ReplaceAll(s, "&nbsp;", " ");
    ReplaceKeepsPlainSpaces(s, "&nbsp;", " ");
    var b := ReplaceAll(a, "&amp;", "&");
    ReplaceKeepsPlainSpaces(a, "&amp;", "&");
    var c := ReplaceAll(b, "&lt;", "<");
    ReplaceKeepsPlainSpaces(b, "&lt;", "<");
    var d := ReplaceAll(c, "&gt;", ">");
    ReplaceKeepsPlainSpaces(c, "&gt;", ">");
    ReplaceKeepsPlainSpaces(d, "&quot;", "\"");
  }

  /** Without an `&` there is nothing to decode. */
  lemma DecodeEntitiesNoAmpersand(s: string)
    requires '&' !in s
    ensures DecodeEntities(s) == s
  {
    ReplaceAbsent(s, "&nbsp;", " ");
    ReplaceAbsent(s, "&amp;", "&");
    ReplaceAbsent(s, "&lt;", "<");
    ReplaceAbsent(s, "&gt;", ">");
    ReplaceAbsent(s, "&quot;", "\"");
  }

  /** The four replacements after the first change nothing in a text without `&`. */
  lemma DecodeRestNoAmpersand(s: string)
    requires '&' !in s
    ensures ReplaceAll(ReplaceAll(ReplaceAll(ReplaceAll(s, "&amp;", "&"), "&lt;", "<"), "&gt;", ">"), "&quot;", "\"") == s
  {
    ReplaceAbsent(s, "&amp;", "&");
    ReplaceAbsent(s, "&lt;", "<");
    ReplaceAbsent(s, "&gt;", ">");
    ReplaceAbsent(s, "&quot;", "\"");
  }

  /** `HTMLToMarkdownConverter._clean_text`. */
  function ServerCleanText(text: string): (r: string)
    ensures OnlyPlainSpaces(r)
    ensures '&' !in text ==> r == Join(Words(text), " ")
  {
    if text == "" then ""
    else
      var t := Strip(CollapseSpaces(text));
      StripCollapsedNormalized(text);
      DecodeEntitiesPlainSpaces(t);
      CollapseStripWords(text);
      DecodeAmpersandFree(text);
      DecodeEntities(t)
  }

  /** Decoding is the identity on the trimmed collapse of a text without `&`. */
  lemma DecodeAmpersandFree(text: string)
    ensures '&' !in text ==> DecodeEntities(Strip(CollapseSpaces(text))) == Strip(CollapseSpaces(text))
  {
    if '&' !in text {
      CollapseKeepsNonSpaceChar(text, '&');
      DecodeEntitiesNoAmpersand(Strip(CollapseSpaces(text)));
    }
  }

  /** The server cleaner's output holds no whitespace character but the plain space. */
  lemma ServerCleanTextPlainSpaces(text: string)
    ensures OnlyPlainSpaces(ServerCleanText(text))
  {
    if text != "" {
      var t := Strip(CollapseSpaces(text));
      StripCollapsedNormalized(text);
      DecodeEntitiesPlainSpaces(t);
    }
  }

  /**
   * For a text without `&` the server cleaner's output is normalised: entity
   * decoding is the only stage that can bring back a double or edge space
   * (through `&nbsp;`).
   */
  lemma ServerCleanTextNormalized(text: string)
    requires '&' !in text
    ensures Normalized(ServerCleanText(text))
    ensures ServerCleanText(text) == Join(Words(text), " ")
  {
    if text != "" {
      CollapseStripWords(text);
      var t := Strip(CollapseSpaces(text));
      StripCollapsedNormalized(text);
      CollapseKeepsNonSpaceChar(text, '&');
      DecodeEntitiesNoAmpersand(t);
    }
  }

  /** A non-whitespace character absent from `s` is absent from its trimmed collapse. */
  lemma CollapseKeepsNonSpaceChar(s: string, c: char)
    requires !IsSpace(c) && c !in s
    ensures c !in Strip(CollapseSpaces(s))
  {
    var col := CollapseSpaces(s);
    if c in col {
      CollapseChars(s, c);
    }
    assert c !in col;
    var r := Strip(col);
    var i, j := StripBounds(col);
    SliceLacks(col, r, i, j, c);
  }

  lemma SliceLacks(s: string, r: string, i: nat, j: nat, c: char)
    requires i <= j <= |s| && r == s[i..j] && c !in s
    ensures c !in r
  {
  }

  /** `NonSpace(s)` holds exactly the non-whitespace characters of `s`. */
  lemma {:induction false} NonSpaceMembers(s: string, c: char)
    ensures c in NonSpace(s) <==> c in s && !IsSpace(c)
    decreases |s|
  {
    if s != [] {
      NonSpaceMembers(s[1..], c);
      assert s == [s[0]] + s[1..];
    }
  }

  /** A string of plain single spaces is left alone by the collapse. */
  lemma {:induction false} CollapseIdentity(s: string)
    requires OnlyPlainSpaces(s) && NoDoubleSpace(s)
    ensures CollapseSpaces(s) == s
    decreases |s|
  {
    if s != [] {
      var t := s[1..];
      assert OnlyPlainSpaces(t) && NoDoubleSpace(t) by {
        assert forall i :: 0 <= i < |t| ==> t[i] == s[i + 1];
      }
      CollapseIdentity(t);
      assert s == [s[0]] + t;
    }
  }

  /** Trimming leaves a string with non-whitespace ends alone. */
  lemma StripIdentity(s: string)
    requires s == [] || (!IsSpace(s[0]) && !IsSpace(s[|s| - 1]))
    ensures Strip(s) == s
  {
  }

  /** A normalised text is a fixed point of the server cleaner when it holds no `&`. */
  lemma ServerCleanTextFixpoint(s: string)
    requires Normalized(s) && '&' !in s
    ensures ServerCleanText(s) == s
  {
    if s != [] {
      CollapseIdentity(s);
      StripIdentity(s);
      DecodeEntitiesNoAmpersand(s);
    }
  }

  /** `[\x00-\x08\x0B\x0C\x0E-\x1F\x7F]`. */
  predicate IsControl(c: char) {
    ('\U{0}' <= c <= '\U{8}') || c == '\U{B}' || c == '\U{C}' || ('\U{E}' <= c <= '\U{1F}') || c == '\U{7F}'
  }

  predicate NoControl(s: string) {
    forall i :: 0 <= i < |s| ==> !IsControl(s[i])
  }

  /** `re.sub(r'[\x00-\x08\x0B\x0C\x0E-\x1F\x7F]', '', s)`. */
  function RemoveControls(s: string): (r: string)
    ensures NoControl(r)
    ensures NoControl(s) ==> r == s
  {
    if s == [] then []
    else if IsControl(s[0]) then RemoveControls(s[1..])
    else [s[0]] + RemoveControls(s[1..])
  }

  /** `utils.clean_text`. */
  function UtilsCleanText(text: string): (r: string)
    ensures NoControl(r)
  {
    if text == "" then "" else RemoveControls(Strip(CollapseSpaces(text)))
  }

  /** For control-free text `utils.clean_text` normalises whitespace and changes nothing else. */
  lemma UtilsCleanTextControlFree(text: string)
    requires NoControl(text)
    ensures Normalized(UtilsCleanText(text))
    ensures NonSpace(UtilsCleanText(text)) == NonSpace(text)
    ensures UtilsCleanText(text) == Join(Words(text), " ")
  {
    if text != "" {
      CollapseStripWords(text);
      var c := CollapseSpaces(text);
      StripCollapsedNormalized(text);
      CollapseKeepsNonSpace(text);
      StripNonSpace(c);
      CollapseNoControl(text);
      var r := Strip(c);
      var lo, hi := StripBounds(c);
      SliceNoControl(c, lo, hi);
      assert RemoveControls(r) == r;
    }
  }

  lemma CollapseNoControl(s: string)
    requires NoControl(s)
    ensures NoControl(CollapseSpaces(s))
  {
    var r := CollapseSpaces(s);
    forall i | 0 <= i < |r| ensures !IsControl(r[i]) {
      CollapseChars(s, r[i]);
    }
  }

  lemma SliceNoControl(s: string, i: nat, j: nat)
    requires i <= j <= |s| && NoControl(s)
    ensures NoControl(s[i..j])
  {
    assert forall k :: 0 <= k < j - i ==> s[i..j][k] == s[i + k];
  }

  lemma {:induction false} NonSpaceLStrip(s: string)
    ensures NonSpace(LStripBy(s, IsSpace)) == NonSpace(s)
    decreases |s|
  {
    if s != [] && IsSpace(s[0]) {
      NonSpaceLStrip(s[1..]);
    }
  }

  /** A normalised control-free text is a fixed point of `utils.clean_text`. */
  lemma UtilsCleanTextFixpoint(s: string)
    requires Normalized(s) && NoControl(s)
    ensures UtilsCleanText(s) == s
  {
    if s != [] {
      CollapseIdentity(s);
      StripIdentity(s);
    }
  }

  /** On control-free text, cleaning twice is cleaning once. */
  lemma UtilsCleanTextIdempotent(text: string)
    requires NoControl(text)
    ensures UtilsCleanText(UtilsCleanText(text)) == UtilsCleanText(text)
  {
    UtilsCleanTextControlFree(text);
    UtilsCleanTextFixpoint(UtilsCleanText(text));
  }

  /** Trimming whitespace keeps the non-whitespace characters. */
  lemma StripNonSpace(s: string)
    ensures NonSpace(Strip(s)) == NonSpace(s)
  {
    var l := LStripBy(s, IsSpace);
    NonSpaceLStrip(s);
    NonSpaceRStrip(l);
  }

  lemma {:induction false} NonSpaceRStrip(s: string)
    ensures NonSpace(RStripBy(s, IsSpace)) == NonSpace(s)
    decreases |s|
  {
    if s != [] && IsSpace(s[|s| - 1]) {
      NonSpaceRStrip(s[..|s| - 1]);
      NonSpaceDropLast(s);
    }
  }

  lemma {:induction false} NonSpaceDropLast(s: string)
    requires s != [] && IsSpace(s[|s| - 1])
    ensures NonSpace(s[..|s| - 1]) == NonSpace(s)
    decreases |s|
  {
    if |s| > 1 {
      assert s[1..][..|s[1..]| - 1] == s[..|s| - 1][1..];
      NonSpaceDropLast(s[1..]);
    }
  }

  /** Length of the run of non-whitespace characters that `s` starts with. */
  function WordLength(s: string): (n: nat)
    ensures n <= |s| && (n == |s| || IsSpace(s[n]))
    ensures forall i :: 0 <= i < n ==> !IsSpace(s[i])
    ensures s != [] && !IsSpace(s[0]) ==> n > 0
  {
    if s == [] || IsSpace(s[0]) then 0 else 1 + WordLength(s[1..])
  }

  /**
   * Python's `s.split()` without a separator: the maximal runs of
   * non-whitespace characters, in order. This is the reference the two
   * cleaners are measured against, since `' '.join(s.split())` is what
   * collapsing and trimming should give.
   */
  function Words(s: string): (ws: seq<string>)
    ensures forall k :: 0 <= k < |ws| ==> ws[k] != [] && forall i :: 0 <= i < |ws[k]| ==> !IsSpace(ws[k][i])
    decreases |s|
  {
    if s == [] then []
    else if IsSpace(s[0]) then Words(s[1..])
    else var n := WordLength(s); [s[..n]] + Words(s[n..])
  }

  /** A whitespace character in front does not change the words. */
  lemma WordsSpaceCons(c: char, x: string)
    requires IsSpace(c)
    ensures Words([c] + x) == Words(x)
  {
    assert ([c] + x)[1..] == x;
  }

  /** A non-whitespace character in front starts a new word or extends the first one. */
  lemma WordsWordCons(c: char, x: string)
    requires !IsSpace(c)
    ensures x == [] || IsSpace(x[0]) ==> Words([c] + x) == [[c]] + Words(x)
    ensures x != [] && !IsSpace(x[0]) ==> Words(x) != [] && Words([c] + x) == [[c] + Words(x)[0]] + Words(x)[1..]
  {
    var s := [c] + x;
    assert s[1..] == x;
    var m := WordLength(x);
    assert WordLength(s) == 1 + m;
    assert s[..1 + m] == [c] + x[..m];
    assert s[1 + m..] == x[m..];
    if x == [] || IsSpace(x[0]) {
      assert x[..m] == [] && x[m..] == x;
    }
  }

  /** The collapse keeps the words. */
  lemma {:induction false} WordsCollapse(s: string)
    ensures Words(CollapseSpaces(s)) == Words(s)
    decreases |s|
  {
    if s != [] {
      WordsCollapse(s[1..]);
      var tail := CollapseSpaces(s[1..]);
      assert s == [s[0]] + s[1..];
      if IsSpace(s[0]) {
        WordsSpaceCons(s[0], s[1..]);
        if !(|s| > 1 && IsSpace(s[1])) {
          WordsSpaceCons(' ', tail);
        }
      } else {
        WordsWordCons(s[0], s[1..]);
        WordsWordCons(s[0], tail);
      }
    }
  }

  /** A whitespace character at the back does not change the words. */
  lemma {:induction false} WordsSpaceSnoc(s: string, c: char)
    requires IsSpace(c)
    ensures Words(s + [c]) == Words(s)
    decreases |s|
  {
    if s == [] {
      assert s + [c] == [c] + [];
      WordsSpaceCons(c, []);
    } else {
      var x := s[1..];
      assert s + [c] == [s[0]] + (x + [c]);
      assert s == [s[0]] + x;
      WordsSpaceSnoc(x, c);
      if IsSpace(s[0]) {
        WordsSpaceCons(s[0], x + [c]);
        WordsSpaceCons(s[0], x);
      } else {
        WordsWordCons(s[0], x + [c]);
        WordsWordCons(s[0], x);
      }
    }
  }

  lemma {:induction false} WordsLStrip(s: string)
    ensures Words(LStripBy(s, IsSpace)) == Words(s)
    decreases |s|
  {
    if s != [] && IsSpace(s[0]) {
      WordsLStrip(s[1..]);
    }
  }

  lemma {:induction false} WordsRStrip(s: string)
    ensures Words(RStripBy(s, IsSpace)) == Words(s)
    decreases |s|
  {
    if s != [] && IsSpace(s[|s| - 1]) {
      var t := s[..|s| - 1];
      assert s == t + [s[|s| - 1]];
      WordsSpaceSnoc(t, s[|s| - 1]);
      WordsRStrip(t);
    }
  }

  /** Trimming keeps the words. */
  lemma WordsStrip(s: string)
    ensures Words(Strip(s)) == Words(s)
  {
    WordsLStrip(s);
    WordsRStrip(LStripBy(s, IsSpace));
  }

  /** The suffix of a normalised string after a space is normalised. */
  lemma NormalizedSuffix(r: string, k: nat)
    requires Normalized(r) && 0 < k < |r| && r[k - 1] == ' '
    ensures Normalized(r[k..])
  {
    var t := r[k..];
    assert forall i :: 0 <= i < |t| ==> t[i] == r[k + i];
    assert t[0] != ' ';
  }

  /** A normalised string that does not end with its first word continues after one space. */
  lemma NormalizedSplit(r: string) returns (w: string, t: string)
    requires Normalized(r) && r != [] && WordLength(r) < |r|
    ensures r == w + " " + t && Normalized(t) && |t| < |r|
    ensures Words(t) != [] && Words(r) == [w] + Words(t)
  {
    var n := WordLength(r);
    w, t := r[..n], r[n + 1..];
    assert r[n] == ' ' && n + 1 < |r|;
    assert r[n..] == [r[n]] + t;
    assert !IsSpace(r[0]);
    assert Words(r) == [w] + Words(r[n..]);
    WordsSpaceCons(r[n], t);
    NormalizedSuffix(r, n + 1);
    assert !IsSpace(t[0]);
    assert Words(t) == [t[..WordLength(t)]] + Words(t[WordLength(t)..]);
    assert r == w + " " + t;
  }

  /** A normalised string that is one word. */
  lemma NormalizedOneWord(r: string)
    requires Normalized(r) && r != [] && WordLength(r) == |r|
    ensures Words(r) == [r]
  {
    assert !IsSpace(r[0]);
    assert r[|r|..] == [] && r[..|r|] == r;
  }

  /** A normalised string is its own words joined by single spaces. */
  lemma {:induction false} NormalizedJoin(r: string)
    requires Normalized(r)
    ensures r == Join(Words(r), " ")
    decreases |r|
  {
    if r != [] {
      if WordLength(r) == |r| {
        NormalizedOneWord(r);
      } else {
        var w, t := NormalizedSplit(r);
        NormalizedJoin(t);
        JoinCons(w, Words(t), " ");
      }
    }
  }

  /** Collapsing and trimming gives `' '.join(s.split())`. */
  lemma CollapseStripWords(s: string)
    ensures Strip(CollapseSpaces(s)) == Join(Words(s), " ")
  {
    StripCollapsedNormalized(s);
    NormalizedJoin(Strip(CollapseSpaces(s)));
    WordsStrip(CollapseSpaces(s));
    WordsCollapse(s);
  }

  /** `_clean_text` decodes the entities of the words joined by single spaces. */
  lemma ServerCleanTextWords(text: string)
    ensures ServerCleanText(text) == DecodeEntities(Join(Words(text), " "))
  {
    if text == "" {
      DecodeEntitiesNoAmpersand("");
    } else {
      CollapseStripWords(text);
    }
  }

  /** `utils.clean_text` drops the control characters of the words joined by single spaces. */
  lemma UtilsCleanTextWords(text: string)
    ensures UtilsCleanText(text) == RemoveControls(Join(Words(text), " "))
  {
    if text != "" {
      CollapseStripWords(text);
    }
  }
}

module CleanTextExamples {
  import opened Text
  import opened CleanText

  predicate AllSpace(s: string) {
    forall i :: 0 <= i < |s| ==> IsSpace(s[i])
  }

  predicate NoSpace(s: string) {
    forall i :: 0 <= i < |s| ==> !IsSpace(s[i])
  }

  /** A whitespace run in front collapses to one space. */
  lemma {:induction false} CollapseRun(ws: string, rest: string)
    requires ws != [] && AllSpace(ws) && (rest == [] || !IsSpace(rest[0]))
    ensures CollapseSpaces(ws + rest) == " " + CollapseSpaces(rest)
    decreases |ws|
  {
    assert (ws + rest)[1..] == ws[1..] + rest;
    if |ws| > 1 {
      CollapseRun(ws[1..], rest);
    }
  }

  /** A word in front is copied. */
  lemma {:induction false} CollapseWord(w: string, rest: string)
    requires NoSpace(w)
    ensures CollapseSpaces(w + rest) == w + CollapseSpaces(rest)
    decreases |w|
  {
    if w != [] {
      var x := w + rest;
      assert x[0] == w[0] && !IsSpace(x[0]);
      assert x[1..] == w[1..] + rest;
      CollapseWord(w[1..], rest);
      assert CollapseSpaces(x) == [w[0]] + CollapseSpaces(w[1..] + rest);
      assert [w[0]] + (w[1..] + CollapseSpaces(rest)) == w + CollapseSpaces(rest);
    } else {
      assert w + rest == rest && w + CollapseSpaces(rest) == CollapseSpaces(rest);
    }
  }

  /** One space on each side of a word with non-whitespace ends is trimmed away. */
  lemma StripFrame(w: string)
    requires w != [] && !IsSpace(w[0]) && !IsSpace(w[|w| - 1])
    ensures Strip(" " + w + " ") == w
  {
    var s := " " + w + " ";
    assert s[1..] == w + " ";
    assert LStripBy(s, IsSpace) == LStripBy(w + " ", IsSpace) == w + " ";
    assert (w + " ")[..|w|] == w;
    assert RStripBy(w + " ", IsSpace) == RStripBy(w, IsSpace) == w;
  }

  /** `replace` copies a prefix that cannot start a match. */
  lemma {:induction false} ReplaceWord(w: string, s: string, pat: string, rep: string)
    requires pat != "" && pat[0] !in w
    ensures ReplaceAll(w + s, pat, rep) == w + ReplaceAll(s, pat, rep)
    decreases |w|
  {
    if w != [] {
      var x := w + s;
      assert x[0] == w[0] && x[1..] == w[1..] + s;
      if |x| >= |pat| {
        assert x[..|pat|][0] == w[0];
      }
      ReplaceWord(w[1..], s, pat, rep);
      assert [w[0]] + (w[1..] + ReplaceAll(s, pat, rep)) == w + ReplaceAll(s, pat, rep);
    } else {
      assert w + s == s;
    }
  }

  /** `replace` rewrites a match at the front. */
  lemma ReplaceFront(s: string, pat: string, rep: string)
    requires pat != ""
    ensures ReplaceAll(pat + s, pat, rep) == rep + ReplaceAll(s, pat, rep)
  {
    var x := pat + s;
    assert x[..|pat|] == pat && x[|pat|..] == s;
  }

  lemma {:induction false} RemoveControlsConcat(a: string, b: string)
    ensures RemoveControls(a + b) == RemoveControls(a) + RemoveControls(b)
    decreases |a|
  {
    if a != [] {
      assert (a + b)[0] == a[0] && (a + b)[1..] == a[1..] + b;
      RemoveControlsConcat(a[1..], b);
    } else {
      assert a + b == b;
    }
  }

  /**
   * Two words between whitespace runs: the inner run becomes one space and
   * the outer ones are trimmed away.
   */
  lemma UtilsCleanTextTwoWords(p: string, a: string, q: string, b: string, r: string)
    requires p != [] && q != [] && r != [] && AllSpace(p) && AllSpace(q) && AllSpace(r)
    requires a != [] && b != [] && NoSpace(a) && NoSpace(b) && NoControl(a) && NoControl(b)
    ensures UtilsCleanText(p + (a + (q + (b + r)))) == a + " " + b
  {
    var s := p + (a + (q + (b + r)));
    CollapseTail(b, r);
    CollapseRun(q, b + r);
    CollapseWord(a, q + (b + r));
    CollapseRun(p, a + (q + (b + r)));
    var w := a + " " + b;
    assert CollapseSpaces(s) == " " + (a + (" " + (b + " ")));
    assert " " + (a + (" " + (b + " "))) == " " + w + " ";
    assert w[0] == a[0] && w[|w| - 1] == b[|b| - 1];
    StripFrame(w);
    NoControlJoin(a, b);
  }

  lemma NoControlJoin(a: string, b: string)
    requires NoControl(a) && NoControl(b)
    ensures NoControl(a + " " + b) && NoControl(a + " ") && NoControl(" " + b)
  {
  }

  /** A word followed by a whitespace run: the run becomes one space. */
  lemma CollapseTail(b: string, r: string)
    requires NoSpace(b) && AllSpace(r)
    requires r != []
    ensures CollapseSpaces(b + r) == b + " "
  {
    assert r == r + [];
    CollapseRun(r, []);
    CollapseWord(b, r);
  }

  /** `utils.clean_text` decodes no entity: `a&nbsp;b` stays as it is. */
  lemma UtilsCleanTextKeepsEntity(a: string, b: string)
    requires NoSpace(a) && NoSpace(b) && NoControl(a) && NoControl(b)
    ensures UtilsCleanText(a + "&nbsp;" + b) == a + "&nbsp;" + b
  {
    var s := a + "&nbsp;" + b;
    assert NoSpace(s) && NoControl(s);
    UtilsCleanTextFixpoint(s);
  }

  /** `_clean_text` decodes `&nbsp;` between two words to a single space. */
  lemma ServerCleanTextDecodesSpace(a: string, b: string)
    requires NoSpace(a) && NoSpace(b) && '&' !in a && '&' !in b
    ensures ServerCleanText(a + "&nbsp;" + b) == a + " " + b
  {
    var s := a + "&nbsp;" + b;
    assert NoSpace(s);
    CollapseIdentity(s);
    StripIdentity(s);
    DecodeSpaceBetween(a, b);
  }

  lemma DecodeSpaceBetween(a: string, b: string)
    requires '&' !in a && '&' !in b
    ensures DecodeEntities(a + "&nbsp;" + b) == a + " " + b
  {
    var s := a + ("&nbsp;" + b);
    assert s == a + "&nbsp;" + b;
    ReplaceAbsent(b, "&nbsp;", " ");
    ReplaceFront(b, "&nbsp;", " ");
    ReplaceWord(a, "&nbsp;" + b, "&nbsp;", " ");
    var d := a + " " + b;
    assert ReplaceAll(s, "&nbsp;", " ") == d;
    AmpersandFreeJoin(a, b);
    DecodeRestNoAmpersand(d);
  }

  lemma AmpersandFreeJoin(a: string, b: string)
    requires '&' !in a && '&' !in b
    ensures '&' !in a + " " + b
  {
  }

  /** A control character between two spaces leaves a double space behind. */
  lemma UtilsCleanTextControlGap(a: string, k: char, b: string)
    requires a != [] && b != [] && NoSpace(a) && NoSpace(b) && NoControl(a) && NoControl(b)
    requires IsControl(k) && !IsSpace(k)
    ensures UtilsCleanText(a + " " + [k] + " " + b) == a + "  " + b
  {
    var s := a + " " + [k] + " " + b;
    GapShape(a, k, b);
    CollapseIdentity(s);
    StripIdentity(s);
    GapRemoval(a, k, b);
  }

  lemma GapShape(a: string, k: char, b: string)
    requires a != [] && b != [] && NoSpace(a) && NoSpace(b) && !IsSpace(k)
    ensures var s := a + " " + [k] + " " + b;
            OnlyPlainSpaces(s) && NoDoubleSpace(s) && !IsSpace(s[0]) && !IsSpace(s[|s| - 1])
  {
    var s := a + " " + [k] + " " + b;
    assert forall i :: 0 <= i < |a| ==> s[i] == a[i];
    assert s[|a|] == ' ' && s[|a| + 1] == k && s[|a| + 2] == ' ';
    assert forall i :: |a| + 3 <= i < |s| ==> s[i] == b[i - |a| - 3];
  }

  lemma TwoSpaces(a: string, b: string)
    ensures (a + " ") + (" " + b) == a + "  " + b
  {
    var l, r := (a + " ") + (" " + b), a + "  " + b;
    assert |l| == |r|;
    forall i | 0 <= i < |l|
      ensures l[i] == r[i]
    {
      if i < |a| {
        assert l[i] == a[i] == r[i];
      } else if i > |a| + 1 {
        assert l[i] == b[i - |a| - 2] == r[i];
      }
    }
  }

  lemma GapRemoval(a: string, k: char, b: string)
    requires NoControl(a) && NoControl(b) && IsControl(k)
    ensures RemoveControls(a + " " + [k] + " " + b) == a + "  " + b
  {
    var x, y := a + " ", " " + b;
    var s := a + " " + [k] + " " + b;
    assert s == x + ([k] + y);
    RemoveControlsConcat(x, [k] + y);
    RemoveControlsConcat([k], y);
    NoControlJoin(a, b);
    assert RemoveControls(x) == x && RemoveControls(y) == y;
    assert RemoveControls([k]) == [];
    assert RemoveControls(s) == x + y;
    TwoSpaces(a, b);
    assert RemoveControls(a + " " + [k] + " " + b) == a + "  " + b;
  }
}
