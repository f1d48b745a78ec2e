/**
 * String operations of Python's `str` that the modelled code relies on,
 * written over `seq<char>`: prefixes and suffixes, `in`, `replace`,
 * `strip`, `lower`, `split` and `join`, and decimal formatting.
 */
module Text {

  /** Python's `str.isspace()`, which is also what `\s` and `strip()` use on `str`. */
  predicate IsSpace(c: char) {
    || c == ' ' || ('\t' <= c <= '\r') || ('\U{1C}' <= c <= '\U{1F}')
    || c == '\U{85}' || c == '\U{A0}' || c == '\U{1680}' || ('\U{2000}' <= c <= '\U{200A}')
    || c == '\U{2028}' || c == '\U{2029}' || c == '\U{202F}' || c == '\U{205F}' || c == '\U{3000}'
  }

  predicate IsDigit(c: char) {
    '0' <= c <= '9'
  }

  predicate StartsWith(s: string, prefix: string) {
    |prefix| <= |s| && s[..|prefix|] == prefix
  }

  predicate EndsWith(s: string, suffix: string) {
    |suffix| <= |s| && s[|s| - |suffix|..] == suffix
  }

  /** Python's `sub in s`. */
  predicate Contains(s: string, sub: string)
    decreases |s|
  {
    StartsWith(s, sub) || (|s| > 0 && Contains(s[1..], sub))
  }

  lemma {:induction false} ContainsAt(s: string, sub: string, i: nat)
    requires i + |sub| <= |s| && s[i..i + |sub|] == sub
    ensures Contains(s, sub)
    decreases i
  {
    if i > 0 {
      assert s[1..][i - 1..i - 1 + |sub|] == sub;
      ContainsAt(s[1..], sub, i - 1);
    }
  }

  /** Python's `s.replace(pat, rep)`: every non-overlapping occurrence of `pat`, left to right. */
  function ReplaceAll(s: string, pat: string, rep: string): string
    requires pat != ""
    decreases |s|
  {
    if |s| < |pat| then s
    else if s[..|pat|] == pat then rep + ReplaceAll(s[|pat|..], pat, rep)
    else [s[0]] + ReplaceAll(s[1..], pat, rep)
  }

  /** A character of `ReplaceAll`'s result comes from `s` or from `rep`. */
  lemma {:induction false} ReplaceAllChars(s: string, pat: string, rep: string, P: char -> bool)
    requires pat != ""
    requires forall i :: 0 <= i < |s| ==> P(s[i])
    requires forall i :: 0 <= i < |rep| ==> P(rep[i])
    ensures forall i :: 0 <= i < |ReplaceAll(s, pat, rep)| ==> P(ReplaceAll(s, pat, rep)[i])
    decreases |s|
  {
    if |s| < |pat| {
    } else if s[..|pat|] == pat {
      ReplaceAllChars(s[|pat|..], pat, rep, P);
    } else {
      ReplaceAllChars(s[1..], pat, rep, P);
    }
  }

  /** Removing the characters satisfying `drop` from the front (Python `lstrip`). */
  function LStripBy(s: string, drop: char -> bool): (r: string)
    ensures |r| <= |s| && r == s[|s| - |r|..]
    ensures r == [] || !drop(r[0])
    ensures forall i :: 0 <= i < |s| - |r| ==> drop(s[i])
    decreases |s|, 1
  {
    if s != [] && drop(s[0]) then
      LStripStep(s, drop);
      LStripBy(s[1..], drop)
    else s
  }

  lemma LStripStep(s: string, drop: char -> bool)
    requires s != [] && drop(s[0])
    ensures var t := LStripBy(s[1..], drop);
      |t| < |s| && t == s[|s| - |t|..] && forall i :: 0 <= i < |s| - |t| ==> drop(s[i])
    decreases |s|, 0
  {
    var u := s[1..];
    var t := LStripBy(u, drop);
    assert t == u[|u| - |t|..];
    assert u[|u| - |t|..] == s[|s| - |t|..];
    forall i | 0 <= i < |s| - |t|
      ensures drop(s[i])
    {
      if i > 0 {
        assert 0 <= i - 1 < |u| - |t|;
        assert drop(u[i - 1]);
        assert s[i] == u[i - 1];
      }
    }
  }

  /** Removing the characters satisfying `drop` from the back (Python `rstrip`). */
  function RStripBy(s: string, drop: char -> bool): (r: string)
    ensures |r| <= |s| && r == s[..|r|]
    ensures r == [] || !drop(r[|r| - 1])
    ensures forall i :: |r| <= i < |s| ==> drop(s[i])
    decreases |s|
  {
    if s != [] && drop(s[|s| - 1]) then
      var t := RStripBy(s[..|s| - 1], drop);
      assert forall i :: 0 <= i < |s| - 1 ==> s[i] == s[..|s| - 1][i];
      t
    else s
  }

  /** Python `strip` with a character predicate: a slice of `s` with no dropped ends. */
  function StripBy(s: string, drop: char -> bool): (r: string)
    ensures var i := |s| - |LStripBy(s, drop)|; i + |r| <= |s| && forall k :: 0 <= k < |r| ==> r[k] == s[i + k]
    ensures r == [] || (!drop(r[0]) && !drop(r[|r| - 1]))
    ensures r == [] ==> forall i :: 0 <= i < |s| ==> drop(s[i])
  {
    StripCompose(s, drop);
    RStripBy(LStripBy(s, drop), drop)
  }

  /** Stripping the back of the front-stripped string strips both ends. */
  lemma StripCompose(s: string, drop: char -> bool)
    ensures var l := LStripBy(s, drop); var r := RStripBy(l, drop); var i := |s| - |l|;
      i + |r| <= |s| && (forall k :: 0 <= k < |r| ==> r[k] == s[i + k])
      && (r == [] || (!drop(r[0]) && !drop(r[|r| - 1])))
      && (r == [] ==> forall i :: 0 <= i < |s| ==> drop(s[i]))
  {
    var l := LStripBy(s, drop);
    var r := RStripBy(l, drop);
    var i := |s| - |l|;
    assert r == s[i..][..|r|];
    if r == [] {
      assert l == [];
    } else {
      assert r[0] == l[0];
    }
  }

  /** Python's `s.strip()`. */
  function Strip(s: string): string {
    StripBy(s, IsSpace)
  }

  /** The bounds of the slice that `strip` keeps. */
  lemma StripBounds(s: string) returns (i: nat, j: nat)
    ensures i <= j <= |s| && Strip(s) == s[i..j]
  {
    i, j := StripByBounds(s, IsSpace);
  }

  lemma StripByBounds(s: string, drop: char -> bool) returns (i: nat, j: nat)
    ensures i <= j <= |s| && StripBy(s, drop) == s[i..j]
  {
    i := |s| - |LStripBy(s, drop)|;
    j := i + |StripBy(s, drop)|;
    assert StripBy(s, drop) == s[i..j];
  }

  /** `strip` leaves a string with non-whitespace ends unchanged. */
  lemma StripNoEdge(s: string)
    requires s != [] && !IsSpace(s[0]) && !IsSpace(s[|s| - 1])
    ensures Strip(s) == s
  {
  }

  /** ASCII case folding (Python's `lower` on the ASCII range). */
  function ToLower(c: char): char {
    if 'A' <= c <= 'Z' then (c as int + 32) as char else c
  }

  function Lower(s: string): (r: string)
    ensures |r| == |s|
  {
    seq(|s|, i requires 0 <= i < |s| => ToLower(s[i]))
  }

  /** `sep.join(parts)`. */
  function Join(parts: seq<string>, sep: string): string {
    if |parts| == 0 then ""
    else if |parts| == 1 then parts[0]
    else parts[0] + sep + Join(parts[1..], sep)
  }

  /** Joining two non-empty lists of parts puts one separator between them. */
  lemma {:induction false} JoinAppend(a: seq<string>, b: seq<string>, sep: string)
    requires a != [] && b != []
    ensures Join(a + b, sep) == Join(a, sep) + sep + Join(b, sep)
    decreases |a|
  {
    if |a| == 1 {
      assert (a + b)[0] == a[0] && (a + b)[1..] == b;
    } else {
      assert (a + b)[0] == a[0] && (a + b)[1..] == a[1..] + b;
      JoinAppend(a[1..], b, sep);
    }
  }

  /** Index of the first `c` in `s`, or -1. */
  function IndexOf(s: string, c: char): (r: int)
    ensures -1 <= r < |s|
    ensures r >= 0 ==> s[r] == c && forall j :: 0 <= j < r ==> s[j] != c
    ensures r == -1 ==> forall j :: 0 <= j < |s| ==> s[j] != c
    decreases |s|
  {
    if s == [] then -1
    else if s[0] == c then 0
    else
      var k := IndexOf(s[1..], c);
      if k == -1 then -1 else k + 1
  }

  /** Index of the last `c` in `s`, or -1 (Python `rfind`). */
  function LastIndexOf(s: string, c: char): (r: int)
    ensures -1 <= r < |s|
    ensures r >= 0 ==> s[r] == c && forall j :: r < j < |s| ==> s[j] != c
    ensures r == -1 ==> forall j :: 0 <= j < |s| ==> s[j] != c
    decreases |s|
  {
    if s == [] then -1
    else if s[|s| - 1] == c then |s| - 1
    else LastIndexOf(s[..|s| - 1], c)
  }

  /** Python's `s.split(c)`: always at least one piece. */
  function Split(s: string, c: char): (r: seq<string>)
    ensures |r| >= 1
    decreases |s|
  {
    var i := IndexOf(s, c);
    if i == -1 then [s]
    else [s[..i]] + Split(s[i + 1..], c)
  }

  /** A string is what comes before position `i`, the character there, and what follows. */
  lemma Around(s: string, i: nat)
    requires i < |s|
    ensures s[..i] + [s[i]] + s[i + 1..] == s
  {
    var t := s[..i] + [s[i]] + s[i + 1..];
    assert |t| == |s|;
    forall k | 0 <= k < |s|
      ensures t[k] == s[k]
    {
      if k < i {
        assert t[k] == s[..i][k];
      } else if k > i {
        assert t[k] == s[i + 1..][k - i - 1];
      }
    }
  }

  /** Splitting on `c` and joining with `[c]` gives the string back. */
  lemma {:induction false} SplitJoin(s: string, c: char)
    ensures Join(Split(s, c), [c]) == s
    decreases |s|
  {
    var i := IndexOf(s, c);
    if i != -1 {
      var head, tail := s[..i], s[i + 1..];
      SplitJoin(tail, c);
      var rest := Split(tail, c);
      SplitAt(s, c);
      JoinCons(head, rest, [c]);
      assert s[i] == c;
      Around(s, i);
    } else {
      assert Split(s, c) == [s];
    }
  }

  /** One step of `Split` at the first separator. */
  lemma SplitAt(s: string, c: char)
    requires IndexOf(s, c) >= 0
    ensures var i := IndexOf(s, c); Split(s, c) == [s[..i]] + Split(s[i + 1..], c)
  {
  }

  /** Joining a part in front of a non-empty list puts one separator after it. */
  lemma JoinCons(x: string, rest: seq<string>, sep: string)
    requires rest != []
    ensures Join([x] + rest, sep) == x + sep + Join(rest, sep)
  {
    assert ([x] + rest)[1..] == rest;
  }

  /** Decimal digits of a natural number, as Python's `str` of an int prints it. */
  function NatToString(n: nat): (r: string)
    ensures |r| >= 1 && forall i :: 0 <= i < |r| ==> IsDigit(r[i])
    ensures |r| > 1 ==> r[0] != '0'
  {
    if n < 10 then [('0' as int + n) as char]
    else NatToString(n / 10) + [('0' as int + n % 10) as char]
  }

  /** The value of a string of decimal digits. */
  function DigitsValue(s: string): nat
    requires forall i :: 0 <= i < |s| ==> IsDigit(s[i])
  {
    if s == [] then 0
    else
      assert IsDigit(s[|s| - 1]);
      DigitsValue(s[..|s| - 1]) * 10 + (s[|s| - 1] as int - '0' as int)
  }

  lemma {:induction false} NatToStringRoundTrip(n: nat)
    ensures DigitsValue(NatToString(n)) == n
  {
    if n >= 10 {
      var r := NatToString(n);
      assert r[..|r| - 1] == NatToString(n / 10);
      NatToStringRoundTrip(n / 10);
    }
  }

  /** Python's `f"{n:02d}"` for a non-negative `n`: at least two digits, zero-padded. */
  function ZeroPad2(n: nat): (r: string)
    ensures |r| >= 2 && forall i :: 0 <= i < |r| ==> IsDigit(r[i])
    ensures DigitsValue(r) == n
  {
    NatToStringRoundTrip(n);
    var d := NatToString(n);
    if |d| < 2 then
      assert ("0" + d)[..1] == "0";
      "0" + d
    else d
  }
}
