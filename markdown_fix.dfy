/**
 * `HTMLToMarkdownConverter._fix_markdown_formatting`: six regular-expression
 * substitutions and a final `strip`, applied to markdownify's output. Each
 * substitution is modelled as the left-to-right scan that `re.sub` performs:
 * at each position the pattern is tried, a match is replaced and the scan
 * resumes after it, otherwise one character is copied.
 */
module MarkdownFix {
  import opened Text

  predicate NoTripleNewline(s: string) {
    forall i :: 0 <= i < |s| - 2 ==> !(s[i] == '\n' && s[i + 1] == '\n' && s[i + 2] == '\n')
  }

  predicate IsBlank(c: char) {
    c == ' ' || c == '\t'
  }

  predicate NoTab(s: string) {
    forall i :: 0 <= i < |s| ==> s[i] != '\t'
  }

  predicate NoDoubleSpace(s: string) {
    forall i :: 0 <= i < |s| - 1 ==> !(s[i] == ' ' && s[i + 1] == ' ')
  }

  /** The length of the run of `c` at the front of `s`. */
  function RunLength(s: string, c: char): (n: nat)
    ensures n <= |s|
    ensures forall i :: 0 <= i < n ==> s[i] == c
    ensures n < |s| ==> s[n] != c
    decreases |s|
  {
    if s != [] && s[0] == c then 1 + RunLength(s[1..], c) else 0
  }

  /** The characters of `s` other than newlines, in order. */
  function DropNewlines(s: string): string {
    if s == [] then []
    else if s[0] == '\n' then DropNewlines(s[1..])
    else [s[0]] + DropNewlines(s[1..])
  }

  lemma {:induction false} DropNewlinesConcat(a: string, b: string)
    ensures DropNewlines(a + b) == DropNewlines(a) + DropNewlines(b)
    decreases |a|
  {
    if a == [] {
      assert a + b == b;
    } else {
      assert (a + b)[0] == a[0] && (a + b)[1..] == a[1..] + b;
      DropNewlinesConcat(a[1..], b);
    }
  }

  lemma {:induction false} DropNewlinesAll(s: string)
    requires forall i :: 0 <= i < |s| ==> s[i] == '\n'
    ensures DropNewlines(s) == []
    decreases |s|
  {
    if s != [] {
      DropNewlinesAll(s[1..]);
    }
  }

  // Step 1: `re.sub(r'\n{3,}', '\n\n', s)`.

  /** A maximal run of three or more newlines becomes exactly two. */
  function CollapseNewlines(s: string): (r: string)
    ensures s == [] <==> r == []
    ensures s != [] && s[0] != '\n' ==> r[0] == s[0]
    decreases |s|
  {
    if s == [] then []
    else if s[0] == '\n' then
      var k := RunLength(s, '\n');
      (if k >= 3 then "\n\n" else s[..k]) + CollapseNewlines(s[k..])
    else [s[0]] + CollapseNewlines(s[1..])
  }

  /** After step 1 no three newlines are adjacent. */
  lemma {:induction false} CollapseNewlinesBound(s: string)
    ensures NoTripleNewline(CollapseNewlines(s))
    decreases |s|
  {
    if s != [] {
      var r := CollapseNewlines(s);
      if s[0] == '\n' {
        var k := RunLength(s, '\n');
        var head := if k >= 3 then "\n\n" else s[..k];
        var tail := CollapseNewlines(s[k..]);
        CollapseNewlinesBound(s[k..]);
        assert r == head + tail;
        NewlinesBeforeText(head, tail);
      } else {
        CollapseNewlinesBound(s[1..]);
        var tail := CollapseNewlines(s[1..]);
        assert r == [s[0]] + tail;
        TextBeforeAny(s[0], tail);
      }
    }
  }

  /** At most two newlines in front of text that does not start with one keep the property. */
  lemma NewlinesBeforeText(head: string, tail: string)
    requires |head| <= 2 && forall i :: 0 <= i < |head| ==> head[i] == '\n'
    requires NoTripleNewline(tail) && (tail == [] || tail[0] != '\n')
    ensures NoTripleNewline(head + tail)
  {
    var r := head + tail;
    forall i | 0 <= i < |r| - 2 ensures !(r[i] == '\n' && r[i + 1] == '\n' && r[i + 2] == '\n') {
      if i >= |head| {
        assert r[i] == tail[i - |head|] && r[i + 1] == tail[i + 1 - |head|] && r[i + 2] == tail[i + 2 - |head|];
      } else if i + 2 == |head| {
        assert r[i + 2] == tail[0];
      } else {
        assert r[|head|] == tail[0];
      }
    }
  }

  /** A character other than a newline in front keeps the property. */
  lemma TextBeforeAny(c: char, tail: string)
    requires c != '\n' && NoTripleNewline(tail)
    ensures NoTripleNewline([c] + tail)
  {
    var r := [c] + tail;
    forall i | 0 <= i < |r| - 2 ensures !(r[i] == '\n' && r[i + 1] == '\n' && r[i + 2] == '\n') {
      if i > 0 {
        assert r[i] == tail[i - 1] && r[i + 1] == tail[i] && r[i + 2] == tail[i + 1];
      }
    }
  }

  /** Step 1 changes nothing when no three newlines are adjacent. */
  lemma {:induction false} CollapseNewlinesIdentity(s: string)
    requires NoTripleNewline(s)
    ensures CollapseNewlines(s) == s
    decreases |s|
  {
    if s != [] {
      var k := if s[0] == '\n' then RunLength(s, '\n') else 1;
      assert |s| >= 3 ==> !(s[0] == '\n' && s[1] == '\n' && s[2] == '\n');
      NoTripleSuffix(s, k);
      CollapseNewlinesIdentity(s[k..]);
      assert s == s[..k] + s[k..];
    }
  }

  lemma NoTripleSuffix(s: string, k: nat)
    requires NoTripleNewline(s) && k <= |s|
    ensures NoTripleNewline(s[k..])
  {
    assert forall i :: 0 <= i < |s| - k ==> s[k..][i] == s[k + i];
  }

  // Step 2: `re.sub(r'\n(#{1,6}\s)', r'\n\n\1', s)`.

  /**
   * A match at the front of `s`: a newline, one to six `#` and a whitespace
   * character; a longer `#` run cannot match, since backtracking leaves a `#`
   * where the whitespace is needed.
   */
  predicate HeadingAt(s: string) {
    |s| >= 1 && s[0] == '\n' &&
    var m := RunLength(s[1..], '#');
    1 <= m <= 6 && m + 1 < |s| && IsSpace(s[m + 1])
  }

  function HeadingGap(s: string): (r: string)
    decreases |s|
  {
    if s == [] then []
    else if HeadingAt(s) then
      var m := RunLength(s[1..], '#');
      "\n\n" + s[1..m + 2] + HeadingGap(s[m + 2..])
    else [s[0]] + HeadingGap(s[1..])
  }

  /** Step 2 only inserts newlines. */
  lemma {:induction false} HeadingGapInsertsNewlines(s: string)
    ensures DropNewlines(HeadingGap(s)) == DropNewlines(s)
    decreases |s|
  {
    if s != [] {
      if HeadingAt(s) {
        var m := RunLength(s[1..], '#');
        var x, rest := s[1..m + 2], s[m + 2..];
        HeadingGapInsertsNewlines(rest);
        HeadingSplit(s);
        DropAfterNewlines("\n\n", x, HeadingGap(rest));
        DropAfterNewlines("\n", x, rest);
      } else {
        HeadingGapInsertsNewlines(s[1..]);
        assert HeadingGap(s) == [s[0]] + HeadingGap(s[1..]);
        assert ([s[0]] + HeadingGap(s[1..]))[1..] == HeadingGap(s[1..]);
      }
    }
  }

  /** A heading match is its newline, the marks and the space, and the rest; step 2 doubles the newline. */
  lemma HeadingSplit(s: string)
    requires HeadingAt(s)
    ensures var m := RunLength(s[1..], '#');
      s == "\n" + s[1..m + 2] + s[m + 2..]
      && HeadingGap(s) == "\n\n" + s[1..m + 2] + HeadingGap(s[m + 2..])
  {
    var m := RunLength(s[1..], '#');
    assert s == [s[0]] + s[1..m + 2] + s[m + 2..];
  }

  /** Newlines in front vanish, and the two parts after them are kept apart. */
  lemma DropAfterNewlines(p: string, x: string, y: string)
    requires forall i :: 0 <= i < |p| ==> p[i] == '\n'
    ensures DropNewlines(p + x + y) == DropNewlines(x) + DropNewlines(y)
  {
    DropNewlinesConcat(p + x, y);
    DropNewlinesConcat(p, x);
    DropNewlinesAll(p);
  }

  // Step 3: `re.sub(r'(#{1,6}.*)\n([^\n#])', r'\1\n\n\2', s)`.

  /**
   * A match at the front of `s`: a `#`, the rest of its line, the newline and
   * one character that is neither a newline nor `#`. The pattern is not
   * anchored, so a `#` anywhere in a line starts a match.
   */
  predicate HeadingLineAt(s: string) {
    |s| >= 1 && s[0] == '#' &&
    var e := IndexOf(s, '\n');
    e > 0 && e + 1 < |s| && s[e + 1] != '\n' && s[e + 1] != '#'
  }

  function HeadingLineGap(s: string): (r: string)
    decreases |s|
  {
    if s == [] then []
    else if HeadingLineAt(s) then
      var e := IndexOf(s, '\n');
      s[..e] + "\n\n" + [s[e + 1]] + HeadingLineGap(s[e + 2..])
    else [s[0]] + HeadingLineGap(s[1..])
  }

  /** Step 3 only inserts newlines. */
  lemma {:induction false} HeadingLineGapInsertsNewlines(s: string)
    ensures DropNewlines(HeadingLineGap(s)) == DropNewlines(s)
    decreases |s|
  {
    if s != [] {
      if HeadingLineAt(s) {
        var e := IndexOf(s, '\n');
        var rest := s[e + 2..];
        HeadingLineGapInsertsNewlines(rest);
        var out := s[..e] + "\n\n" + [s[e + 1]];
        DropNewlinesConcat(out, HeadingLineGap(rest));
        DropNewlinesConcat(s[..e] + "\n\n", [s[e + 1]]);
        DropNewlinesConcat(s[..e], "\n\n");
        DropNewlinesAll("\n\n");
        assert s == ((s[..e] + "\n") + [s[e + 1]]) + rest;
        DropNewlinesConcat((s[..e] + "\n") + [s[e + 1]], rest);
        DropNewlinesConcat(s[..e] + "\n", [s[e + 1]]);
        DropNewlinesConcat(s[..e], "\n");
        DropNewlinesAll("\n");
      } else {
        HeadingLineGapInsertsNewlines(s[1..]);
        assert ([s[0]] + HeadingLineGap(s[1..]))[1..] == HeadingLineGap(s[1..]);
      }
    }
  }

  // Step 4: `re.sub(r'\n(\*|\+|-|\d+\.)\s', r'\n\n\1 ', s)`.

  /** The length of a list marker at the front of `s` (`*`, `+`, `-` or digits and a dot), or 0. */
  function MarkerLength(s: string): (n: nat)
    ensures n <= |s|
  {
    if s == [] then 0
    else if s[0] == '*' || s[0] == '+' || s[0] == '-' then 1
    else
      var d := DigitRun(s);
      if d >= 1 && d < |s| && s[d] == '.' then d + 1 else 0
  }

  function DigitRun(s: string): (n: nat)
    ensures n <= |s|
    decreases |s|
  {
    if s != [] && IsDigit(s[0]) then 1 + DigitRun(s[1..]) else 0
  }

  /** A match at the front of `s`: a newline, a list marker and a whitespace character. */
  predicate ListItemAt(s: string) {
    |s| >= 1 && s[0] == '\n' &&
    var k := MarkerLength(s[1..]);
    k > 0 && k + 1 < |s| && IsSpace(s[k + 1])
  }

  /** The whitespace character after the marker is written as a space. */
  function ListItemGap(s: string): (r: string)
    decreases |s|
  {
    if s == [] then []
    else if ListItemAt(s) then
      var k := MarkerLength(s[1..]);
      "\n\n" + s[1..k + 1] + " " + ListItemGap(s[k + 2..])
    else [s[0]] + ListItemGap(s[1..])
  }

  // Step 5: `re.sub(r'\n(>)', r'\n\n\1', s)`.

  function QuoteGap(s: string): (r: string)
    decreases |s|
  {
    if s == [] then []
    else if |s| >= 2 && s[0] == '\n' && s[1] == '>' then "\n\n>" + QuoteGap(s[2..])
    else [s[0]] + QuoteGap(s[1..])
  }

  /** Step 5 only inserts newlines. */
  lemma {:induction false} QuoteGapInsertsNewlines(s: string)
    ensures DropNewlines(QuoteGap(s)) == DropNewlines(s)
    decreases |s|
  {
    if s != [] {
      if |s| >= 2 && s[0] == '\n' && s[1] == '>' {
        QuoteGapInsertsNewlines(s[2..]);
        DropNewlinesConcat("\n\n>", QuoteGap(s[2..]));
        assert s == "\n>" + s[2..];
        DropNewlinesConcat("\n>", s[2..]);
      } else {
        QuoteGapInsertsNewlines(s[1..]);
        assert ([s[0]] + QuoteGap(s[1..]))[1..] == QuoteGap(s[1..]);
      }
    }
  }

  // Step 6: `re.sub(r'[ \t]+', ' ', s)`.

  /** Each maximal run of spaces and tabs becomes one space. */
  function CollapseBlanks(s: string): (r: string)
    ensures s == [] <==> r == []
    ensures s != [] ==> (IsBlank(s[0]) <==> r[0] == ' ')
    decreases |s|
  {
    if s == [] then []
    else if IsBlank(s[0]) then
      if |s| > 1 && IsBlank(s[1]) then CollapseBlanks(s[1..]) else [' '] + CollapseBlanks(s[1..])
    else [s[0]] + CollapseBlanks(s[1..])
  }

  /** After step 6 there is no tab and no two adjacent spaces. */
  lemma {:induction false} CollapseBlanksShape(s: string)
    ensures NoTab(CollapseBlanks(s)) && NoDoubleSpace(CollapseBlanks(s))
    decreases |s|
  {
    if s != [] {
      CollapseBlanksShape(s[1..]);
      var r := CollapseBlanks(s);
      var tail := CollapseBlanks(s[1..]);
      if !(IsBlank(s[0]) && |s| > 1 && IsBlank(s[1])) {
        assert r == [r[0]] + tail;
        assert r[0] == ' ' ==> tail == [] || tail[0] != ' ';
        forall i | 0 <= i < |r| - 1 ensures !(r[i] == ' ' && r[i + 1] == ' ') {
          if i > 0 {
            assert r[i] == tail[i - 1] && r[i + 1] == tail[i];
          }
        }
        assert NoTab(r);
      }
    }
  }

  /** No newline is followed by the first character of a list marker. */
  predicate NoListStart(s: string) {
    forall i :: 0 <= i < |s| - 1 && s[i] == '\n' ==> !(s[i + 1] in "*+-" || IsDigit(s[i + 1]))
  }

  /** Step 4 changes nothing when no newline is followed by a marker character. */
  lemma {:induction false} ListItemGapIdentity(s: string)
    requires NoListStart(s)
    ensures ListItemGap(s) == s
    decreases |s|
  {
    if s != [] {
      assert |s| > 1 && s[0] == '\n' ==> !(s[1] in "*+-" || IsDigit(s[1]));
      assert !ListItemAt(s);
      assert NoListStart(s[1..]) by {
        assert forall i :: 0 <= i < |s| - 1 ==> s[1..][i] == s[i + 1];
      }
      ListItemGapIdentity(s[1..]);
      assert s == [s[0]] + s[1..];
    }
  }

  /** No newline is followed by `>`. */
  predicate NoQuoteStart(s: string) {
    forall i :: 0 <= i < |s| - 1 && s[i] == '\n' ==> s[i + 1] != '>'
  }

  /** Step 5 changes nothing when no newline is followed by `>`. */
  lemma {:induction false} QuoteGapIdentity(s: string)
    requires NoQuoteStart(s)
    ensures QuoteGap(s) == s
    decreases |s|
  {
    if s != [] {
      assert |s| > 1 && s[0] == '\n' ==> s[1] != '>';
      assert NoQuoteStart(s[1..]) by {
        assert forall i :: 0 <= i < |s| - 1 ==> s[1..][i] == s[i + 1];
      }
      QuoteGapIdentity(s[1..]);
      assert s == [s[0]] + s[1..];
    }
  }

  /** Step 6 changes nothing on a string without tabs and without two adjacent spaces. */
  lemma {:induction false} CollapseBlanksIdentity(s: string)
    requires NoTab(s) && NoDoubleSpace(s)
    ensures CollapseBlanks(s) == s
    decreases |s|
  {
    if s != [] {
      assert s[0] != '\t';
      assert |s| > 1 ==> !(s[0] == ' ' && s[1] == ' ') && s[1] != '\t';
      assert NoTab(s[1..]) && NoDoubleSpace(s[1..]) by {
        assert forall i :: 0 <= i < |s| - 1 ==> s[1..][i] == s[i + 1];
      }
      CollapseBlanksIdentity(s[1..]);
      assert s == [s[0]] + s[1..];
    }
  }

  /** Step 3 changes nothing on a line without a newline. */
  lemma {:induction false} HeadingLineGapOneLine(s: string)
    requires forall i :: 0 <= i < |s| ==> s[i] != '\n'
    ensures HeadingLineGap(s) == s
    decreases |s|
  {
    if s != [] {
      assert IndexOf(s, '\n') == -1;
      HeadingLineGapOneLine(s[1..]);
      assert s == [s[0]] + s[1..];
    }
  }

  /** Step 2 copies a character other than a newline. */
  lemma HeadingGapCons(c: char, s: string)
    requires c != '\n'
    ensures HeadingGap([c] + s) == [c] + HeadingGap(s)
  {
    assert ([c] + s)[1..] == s;
  }

  /** Step 2 copies a newline that no `#` follows. */
  lemma HeadingGapNewline(s: string)
    requires s != [] && s[0] != '#'
    ensures HeadingGap("\n" + s) == "\n" + HeadingGap(s)
  {
    assert ("\n" + s)[1..] == s;
  }

  /** Step 3 copies a prefix without `#`. */
  lemma {:induction false} HeadingLineGapPrefix(p: string, s: string)
    requires forall i :: 0 <= i < |p| ==> p[i] != '#'
    ensures HeadingLineGap(p + s) == p + HeadingLineGap(s)
    decreases |p|
  {
    if p != [] {
      assert (p + s)[0] == p[0] && (p + s)[1..] == p[1..] + s;
      HeadingLineGapPrefix(p[1..], s);
      assert p == [p[0]] + p[1..];
    } else {
      assert p + s == s;
    }
  }

  /** The whole pass: the six substitutions in source order, then `strip`. */
  function FixMarkdown(s: string): (r: string)
    ensures Tidy(r)
  {
    var s1 := CollapseNewlines(s);
    var s2 := HeadingGap(s1);
    var s3 := HeadingLineGap(s2);
    var s4 := ListItemGap(s3);
    var s5 := QuoteGap(s4);
    BlankStripShape(s5);
    var s6 := CollapseBlanks(s5);
    Strip(s6)
  }

  /** No tab, no two adjacent spaces and no whitespace at either end. */
  predicate Tidy(r: string) {
    NoTab(r) && NoDoubleSpace(r) && (r == [] || (!IsSpace(r[0]) && !IsSpace(r[|r| - 1])))
  }

  /** The result has no tab, no two adjacent spaces and no whitespace at either end. */
  lemma FixMarkdownShape(s: string)
    ensures Tidy(FixMarkdown(s))
  {
    var s5 := QuoteGap(ListItemGap(HeadingLineGap(HeadingGap(CollapseNewlines(s)))));
    BlankStripShape(s5);
    assert FixMarkdown(s) == Strip(CollapseBlanks(s5));
  }

  lemma BlankStripShape(t: string)
    ensures Tidy(Strip(CollapseBlanks(t)))
  {
    var c := CollapseBlanks(t);
    CollapseBlanksShape(t);
    var r := Strip(c);
    var i, j := StripBounds(c);
    SliceBlanks(c, i, j);
    assert r == [] || (!IsSpace(r[0]) && !IsSpace(r[|r| - 1]));
    assert NoTab(r) && NoDoubleSpace(r);
    assert Tidy(r);
  }

  lemma SliceBlanks(c: string, i: nat, j: nat)
    requires i <= j <= |c| && NoTab(c) && NoDoubleSpace(c)
    ensures NoTab(c[i..j]) && NoDoubleSpace(c[i..j])
  {
    assert forall k :: 0 <= k < j - i ==> c[i..j][k] == c[i + k];
  }
}

/** Concrete runs of the pass. */
module MarkdownFixExamples {
  import opened Text
  import opened MarkdownFix

  /** Later steps undo step 1: a heading after a blank line gets a third newline. */
  lemma HeadingAfterBlankLine()
    ensures NoTripleNewline("a\n\n# x")
    ensures FixMarkdown("a\n\n# x") == "a\n\n\n# x"
  {
    var s := "a\n\n# x";
    var t := "a\n\n\n# x";
    Step1();
    Step2();
    Step3();
    Step4();
    Step5();
    Step6();
    Step7();
    assert FixMarkdown(s) == Strip(CollapseBlanks(QuoteGap(ListItemGap(HeadingLineGap(HeadingGap(s))))));
  }

  lemma TripleNewline()
    ensures !NoTripleNewline("a\n\n\n# x")
  {
    var s := "a\n\n\n# x";
    assert s[1] == '\n' && s[2] == '\n' && s[3] == '\n';
  }

  lemma Step1() ensures NoTripleNewline("a\n\n# x") && CollapseNewlines("a\n\n# x") == "a\n\n# x" {
    var s := "a\n\n# x";
    assert forall i :: 0 <= i < |s| - 2 ==> s[i] != '\n' || s[i + 2] != '\n';
    CollapseNewlinesIdentity(s);
  }

  lemma HeadingMatch() ensures HeadingGap("\n# x") == "\n\n# x" {
    assert HeadingGap("x") == "x";
  }

  lemma Step2() ensures HeadingGap("a\n\n# x") == "a\n\n\n# x" {
    var u := "\n# x";
    var v := "\n" + u;
    HeadingMatch();
    HeadingGapNewline(u);
    HeadingGapCons('a', v);
    assert ['a'] + v == "a\n\n# x";
    assert ['a'] + ("\n" + "\n\n# x") == "a\n\n\n# x";
  }

  lemma Step3() ensures HeadingLineGap("a\n\n\n# x") == "a\n\n\n# x" {
    HeadingLineGapOneLine("# x");
    HeadingLineGapPrefix("a\n\n\n", "# x");
    assert "a\n\n\n" + "# x" == "a\n\n\n# x";
  }

  lemma Step4() ensures ListItemGap("a\n\n\n# x") == "a\n\n\n# x" {
    ListItemGapIdentity("a\n\n\n# x");
  }

  lemma Step5() ensures QuoteGap("a\n\n\n# x") == "a\n\n\n# x" {
    QuoteGapIdentity("a\n\n\n# x");
  }

  lemma Step6() ensures CollapseBlanks("a\n\n\n# x") == "a\n\n\n# x" {
    CollapseBlanksIdentity("a\n\n\n# x");
  }

  lemma Step7() ensures Strip("a\n\n\n# x") == "a\n\n\n# x" {
    StripNoEdge("a\n\n\n# x");
  }
}
