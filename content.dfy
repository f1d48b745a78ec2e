/**
 * The tree stages of `convert`: `_extract_main_content` (pruning with the
 * blocklist, then choosing the main element) and `_process_code_blocks`
 * (turning each `<pre>` that holds a `<code>` into a fenced block). CSS
 * selection is modelled for the selector forms the two lists use.
 */
module Content {
  import opened Wrappers
  import opened Text
  import opened Dom

  /** The selector forms that occur: `tag`, `.class`, `[attr="v"]` and `[attr*="v"]`. */
  datatype Selector =
    | TagSel(name: string)
    | ClassSel(name: string)
    | AttrEquals(attr: string, value: string)
    | AttrContains(attr: string, sub: string)

  /**
   * The value an attribute selector sees: for `class`, the token list joined
   * by spaces; absent attributes have no value.
   */
  function AttrValue(e: Node, attr: string): Option<string>
    requires e.Element?
  {
    if attr == "class" then (if e.classes == [] then None else Some(Join(e.classes, " ")))
    else if attr in e.attrs then Some(e.attrs[attr])
    else None
  }

  predicate Matches(sel: Selector, e: Node) {
    e.Element? &&
    match sel
    case TagSel(name) => e.tag == name
    case ClassSel(name) => name in e.classes
    case AttrEquals(attr, value) => AttrValue(e, attr) == Some(value)
    case AttrContains(attr, sub) =>
      // an empty needle never matches in CSS
      sub != "" && AttrValue(e, attr).Some? && Contains(AttrValue(e, attr).value, sub)
  }

  /** `soup.select(sel)`: every matching element below `n`, in document order. */
  function Select(n: Node, sel: Selector): seq<Node> {
    Filter(Descendants(n), e => Matches(sel, e))
  }

  /** `soup.select_one(sel)`. */
  function SelectOne(n: Node, sel: Selector): (r: Option<Node>)
    ensures r.Some? <==> Select(n, sel) != []
  {
    var all := Select(n, sel);
    if all == [] then None else Some(all[0])
  }

  const Unwanted: seq<Selector> := [
    TagSel("script"), TagSel("style"), TagSel("nav"), TagSel("header"), TagSel("footer"),
    ClassSel("advertisement"), ClassSel("ad"), ClassSel("popup"), ClassSel("modal"),
    ClassSel("cookie-banner"), ClassSel("newsletter-signup"),
    AttrContains("class", "ad-"), AttrContains("id", "ad-"),
    ClassSel("social-share"), ClassSel("comments-section")
  ]

  const MainSelectors: seq<Selector> := [
    TagSel("main"), TagSel("article"), AttrEquals("role", "main"),
    ClassSel("post-content"), ClassSel("article-content"), ClassSel("entry-content"),
    ClassSel("content"), ClassSel("main-content")
  ]

  // Pruning.

  /**
   * `for element in soup.select(sel): element.decompose()`: every matching
   * element goes, with everything below it.
   */
  function PruneForest(ns: seq<Node>, sel: Selector): seq<Node>
    decreases ns
  {
    if ns == [] then []
    else
      var rest := PruneForest(ns[1..], sel);
      match ns[0]
      case TextNode(_) => [ns[0]] + rest
      case Element(tag, classes, attrs, kids) =>
        if Matches(sel, ns[0]) then rest
        else [Element(tag, classes, attrs, PruneForest(kids, sel))] + rest
  }

  /** Pruning below the document node, which `select` itself never returns. */
  function PruneRoot(root: Node, sel: Selector): Node {
    match root
    case TextNode(_) => root
    case Element(tag, classes, attrs, kids) => Element(tag, classes, attrs, PruneForest(kids, sel))
  }

  /** The selectors of `sels` applied one after another. */
  function PruneAll(root: Node, sels: seq<Selector>): Node
    decreases |sels|
  {
    if sels == [] then root else PruneAll(PruneRoot(root, sels[0]), sels[1..])
  }

  /** No element anywhere in the forest matches `sel`. */
  predicate NoneMatch(ns: seq<Node>, sel: Selector)
    decreases ns
  {
    ns == [] ||
    ((match ns[0]
      case TextNode(_) => true
      case Element(_, _, _, kids) => !Matches(sel, ns[0]) && NoneMatch(kids, sel))
     && NoneMatch(ns[1..], sel))
  }

  /** After pruning with `sel` nothing matches `sel`. */
  lemma {:induction false} PruneRemoves(ns: seq<Node>, sel: Selector)
    ensures NoneMatch(PruneForest(ns, sel), sel)
    decreases ns
  {
    if ns != [] {
      PruneRemoves(ns[1..], sel);
      var rest := PruneForest(ns[1..], sel);
      match ns[0]
      case TextNode(_) =>
        assert ([ns[0]] + rest)[1..] == rest;
      case Element(tag, classes, attrs, kids) =>
        if !Matches(sel, ns[0]) {
          PruneRemoves(kids, sel);
          var e := Element(tag, classes, attrs, PruneForest(kids, sel));
          assert !Matches(sel, e);
          assert ([e] + rest)[1..] == rest;
        }
    }
  }

  /** Pruning with one selector never brings back a match of another. */
  lemma {:induction false} PruneKeepsNoneMatch(ns: seq<Node>, sel: Selector, other: Selector)
    requires NoneMatch(ns, other)
    ensures NoneMatch(PruneForest(ns, sel), other)
    decreases ns
  {
    if ns != [] {
      PruneKeepsNoneMatch(ns[1..], sel, other);
      var rest := PruneForest(ns[1..], sel);
      match ns[0]
      case TextNode(_) =>
        assert ([ns[0]] + rest)[1..] == rest;
      case Element(tag, classes, attrs, kids) =>
        if !Matches(sel, ns[0]) {
          PruneKeepsNoneMatch(kids, sel, other);
          var e := Element(tag, classes, attrs, PruneForest(kids, sel));
          assert !Matches(other, e);
          assert ([e] + rest)[1..] == rest;
        }
    }
  }

  /** No member of `es` matches `sel`. */
  predicate NoMatchIn(es: seq<Node>, sel: Selector) {
    forall j :: 0 <= j < |es| ==> !Matches(sel, es[j])
  }

  /** `NoneMatch` is the absence of matches among the forest's elements. */
  lemma {:induction false} NoneMatchElements(ns: seq<Node>, sel: Selector)
    ensures NoneMatch(ns, sel) <==> NoMatchIn(ForestElements(ns), sel)
    decreases ns
  {
    if ns != [] {
      NoneMatchElements(ns[1..], sel);
      var tail := ForestElements(ns[1..]);
      var head := NodeElements(ns[0]);
      assert ForestElements(ns) == head + tail;
      ConcatAll(head, tail, sel);
      match ns[0]
      case TextNode(_) =>
        assert head == [];
      case Element(_, _, _, kids) =>
        NoneMatchElements(kids, sel);
        assert head == [ns[0]] + ForestElements(kids);
        ConcatAll([ns[0]], ForestElements(kids), sel);
        assert NoMatchIn([ns[0]], sel) <==> !Matches(sel, ns[0]) by {
          assert [ns[0]][0] == ns[0];
        }
        assert NoneMatch(ns, sel) <==> !Matches(sel, ns[0]) && NoneMatch(kids, sel) && NoneMatch(ns[1..], sel);
    }
  }

  lemma ConcatAll(a: seq<Node>, b: seq<Node>, sel: Selector)
    ensures NoMatchIn(a + b, sel) <==> NoMatchIn(a, sel) && NoMatchIn(b, sel)
  {
    assert forall j :: 0 <= j < |a| ==> (a + b)[j] == a[j];
    assert forall j :: 0 <= j < |b| ==> (a + b)[|a| + j] == b[j];
  }

  /** `select` finds nothing below `root` exactly when no element below it matches. */
  lemma SelectEmpty(root: Node, sel: Selector)
    requires root.Element?
    ensures Select(root, sel) == [] <==> NoneMatch(root.children, sel)
  {
    NoneMatchElements(root.children, sel);
    FilterEmpty(Descendants(root), e => Matches(sel, e));
  }

  /**
   * `main` is the first match of the earliest selector of `sels` that
   * matches anything in `tree`; when none does, it is the first `<body>`,
   * and without one the whole tree.
   */
  predicate IsMainChoice(tree: Node, sels: seq<Selector>, main: Node) {
    ((exists k :: 0 <= k < |sels| && Select(tree, sels[k]) != []) ==>
      exists k :: 0 <= k < |sels| && Select(tree, sels[k]) != []
        && main == Select(tree, sels[k])[0]
        && (forall j :: 0 <= j < k ==> Select(tree, sels[j]) == []))
    && ((forall k :: 0 <= k < |sels| ==> Select(tree, sels[k]) == []) ==>
      main == (if Find(tree, "body").Some? then Find(tree, "body").value else tree))
  }

  /** No element below `tree` matches any selector of `sels`. */
  predicate Pruned(tree: Node, sels: seq<Selector>) {
    forall k :: 0 <= k < |sels| ==> Select(tree, sels[k]) == []
  }

  /**
   * The pruning loop: the selectors in order, each one removing its matches
   * from what the earlier ones left.
   */
  method PruneSelectors(root: Node, sels: seq<Selector>) returns (r: Node)
    ensures r == PruneAll(root, sels)
    ensures root.Element? ==> r.Element? && Pruned(r, sels)
  {
    r := root;
    var i := 0;
    while i < |sels|
      invariant 0 <= i <= |sels|
      invariant PruneAll(r, sels[i..]) == PruneAll(root, sels)
      invariant root.Element? ==> r.Element?
      invariant root.Element? ==> forall k :: 0 <= k < i ==> NoneMatch(r.children, sels[k])
    {
      assert sels[i..][1..] == sels[i + 1..];
      var next := PruneRoot(r, sels[i]);
      if root.Element? {
        PruneRemoves(r.children, sels[i]);
        forall k | 0 <= k < i
          ensures NoneMatch(next.children, sels[k])
        {
          PruneKeepsNoneMatch(r.children, sels[i], sels[k]);
        }
      }
      r := next;
      i := i + 1;
    }
    assert sels[i..] == [];
    if root.Element? {
      forall k | 0 <= k < |sels|
        ensures Select(r, sels[k]) == []
      {
        SelectEmpty(r, sels[k]);
      }
    }
  }

  /**
   * The selection loop: the first match of the earliest selector that
   * matches anything, else `<body>`, else the whole document.
   */
  method ChooseMain(pruned: Node, sels: seq<Selector>) returns (main: Node)
    ensures IsMainChoice(pruned, sels, main)
  {
    var i := 0;
    while i < |sels|
      invariant 0 <= i <= |sels|
      invariant forall j :: 0 <= j < i ==> Select(pruned, sels[j]) == []
    {
      var found := SelectOne(pruned, sels[i]);
      if found.Some? {
        main := found.value;
        return;
      }
      i := i + 1;
    }
    var body := Find(pruned, "body");
    main := if body.Some? then body.value else pruned;
  }

  /** `_extract_main_content` with its two selector lists; the pruned tree is returned too, as the source prunes the soup in place. */
  method ExtractMainContent(soup: Node) returns (pruned: Node, main: Node)
    ensures pruned == PruneAll(soup, Unwanted)
    ensures soup.Element? ==> Pruned(pruned, Unwanted)
    ensures IsMainChoice(pruned, MainSelectors, main)
  {
    pruned := PruneSelectors(soup, Unwanted);
    main := ChooseMain(pruned, MainSelectors);
  }

  /** The main element as a plain function: the earliest selector with a match, else `<body>`, else the tree. */
  function MainOf(tree: Node, sels: seq<Selector>): Node
    decreases |sels|
  {
    if sels == [] then (if Find(tree, "body").Some? then Find(tree, "body").value else tree)
    else if Select(tree, sels[0]) != [] then Select(tree, sels[0])[0]
    else MainOf(tree, sels[1..])
  }

  /** `MainOf` makes the choice `_extract_main_content` describes. */
  lemma {:induction false} MainOfIsChoice(tree: Node, sels: seq<Selector>)
    ensures IsMainChoice(tree, sels, MainOf(tree, sels))
    decreases |sels|
  {
    if sels != [] && Select(tree, sels[0]) == [] {
      var rest := sels[1..];
      var m := MainOf(tree, sels);
      MainOfIsChoice(tree, rest);
      assert m == MainOf(tree, rest);
      if exists k :: 0 <= k < |sels| && Select(tree, sels[k]) != [] {
        var k :| 0 <= k < |sels| && Select(tree, sels[k]) != [];
        assert k > 0 && rest[k - 1] == sels[k];
        var k2 :| 0 <= k2 < |rest| && Select(tree, rest[k2]) != [] && m == Select(tree, rest[k2])[0]
          && (forall j :: 0 <= j < k2 ==> Select(tree, rest[j]) == []);
        assert sels[k2 + 1] == rest[k2];
        forall j | 0 <= j < k2 + 1
          ensures Select(tree, sels[j]) == []
        {
          if j > 0 {
            assert sels[j] == rest[j - 1];
          }
        }
      } else {
        forall k | 0 <= k < |rest|
          ensures Select(tree, rest[k]) == []
        {
          assert rest[k] == sels[k + 1];
        }
      }
    } else if sels != [] {
      assert Select(tree, sels[0]) != [] && MainOf(tree, sels) == Select(tree, sels[0])[0];
    }
  }

  /** There is only one main choice. */
  lemma MainChoiceUnique(tree: Node, sels: seq<Selector>, m1: Node, m2: Node)
    requires IsMainChoice(tree, sels, m1) && IsMainChoice(tree, sels, m2)
    ensures m1 == m2
  {
    if exists k :: 0 <= k < |sels| && Select(tree, sels[k]) != [] {
      var k1 :| 0 <= k1 < |sels| && Select(tree, sels[k1]) != [] && m1 == Select(tree, sels[k1])[0]
        && (forall j :: 0 <= j < k1 ==> Select(tree, sels[j]) == []);
      var k2 :| 0 <= k2 < |sels| && Select(tree, sels[k2]) != [] && m2 == Select(tree, sels[k2])[0]
        && (forall j :: 0 <= j < k2 ==> Select(tree, sels[j]) == []);
      assert k1 == k2;
    }
  }

  /** The main choice is the one `MainOf` makes. */
  lemma MainChoiceIsMainOf(tree: Node, sels: seq<Selector>, main: Node)
    requires IsMainChoice(tree, sels, main)
    ensures main == MainOf(tree, sels)
  {
    MainOfIsChoice(tree, sels);
    MainChoiceUnique(tree, sels, main, MainOf(tree, sels));
  }

  /** What `select_one` returns is the first matching element in document order. */
  lemma SelectOneFirst(n: Node, sel: Selector)
    requires Select(n, sel) != []
    ensures exists i :: (0 <= i < |Descendants(n)| && Descendants(n)[i] == Select(n, sel)[0]
      && Matches(sel, Descendants(n)[i])
      && (forall j :: 0 <= j < i ==> !Matches(sel, Descendants(n)[j])))
  {
    var i := FilterHead(Descendants(n), e => Matches(sel, e));
  }

  // Code blocks.

  /** The language a single class token names, if it is a `language-` or `lang-` token. */
  function TokenLanguage(token: string): Option<string> {
    if StartsWith(token, "language-") then Some(ReplaceAll(token, "language-", ""))
    else if StartsWith(token, "lang-") then Some(ReplaceAll(token, "lang-", ""))
    else None
  }

  /** The language of a `<code>`: from its first token that names one, else empty. */
  function LanguageOf(classes: seq<string>): string
    decreases |classes|
  {
    if classes == [] then ""
    else
      var t := TokenLanguage(classes[0]);
      if t.Some? then t.value else LanguageOf(classes[1..])
  }

  /**
   * The class loop of `_process_code_blocks`, which stops at the first token
   * that names a language; the result is that token without every occurrence
   * of its prefix (Python's `replace`), or empty when no token names one.
   */
  method CodeLanguage(classes: seq<string>) returns (language: string)
    ensures language == LanguageOf(classes)
    ensures (forall k :: 0 <= k < |classes| ==> TokenLanguage(classes[k]).None?) ==> language == ""
    ensures forall k :: (0 <= k < |classes| && TokenLanguage(classes[k]).Some? &&
      (forall j :: 0 <= j < k ==> TokenLanguage(classes[j]).None?)) ==> language == TokenLanguage(classes[k]).value
  {
    language := "";
    var i := 0;
    while i < |classes|
      invariant 0 <= i <= |classes|
      invariant forall j :: 0 <= j < i ==> TokenLanguage(classes[j]).None?
      invariant LanguageOf(classes) == LanguageOf(classes[i..])
    {
      assert classes[i..][1..] == classes[i + 1..];
      var t := TokenLanguage(classes[i]);
      if t.Some? {
        language := t.value;
        return;
      }
      i := i + 1;
    }
  }

  /** The fenced block written into the `<pre>`; with no language both branches of the source agree. */
  function Fence(language: string, code: string): string {
    "```" + language + "\n" + code + "\n```"
  }

  /** The code text can be read back from the fence, and so can a language without a newline. */
  lemma FenceRoundTrip(language: string, code: string)
    ensures var f := Fence(language, code);
            |f| == |language| + |code| + 8
            && f[|language| + 4..|f| - 4] == code
            && f[3..|language| + 3] == language
            && f[..3] == "```" && f[|f| - 4..] == "\n```"
  {
    var f := Fence(language, code);
    assert f == ("```" + language) + ("\n" + code + "\n```");
  }

  /**
   * `_process_code_blocks`: every `<pre>` with a `<code>` below it keeps its
   * tag and attributes and gets a single text child, the fence of the first
   * such `<code>`.
   */
  function CodeBlocksForest(ns: seq<Node>): seq<Node>
    decreases ns
  {
    if ns == [] then []
    else [CodeBlocksNode(ns[0])] + CodeBlocksForest(ns[1..])
  }

  function CodeBlocksNode(n: Node): Node
    decreases n
  {
    match n
    case TextNode(_) => n
    case Element(tag, classes, attrs, kids) =>
      var code := Find(n, "code");
      if tag == "pre" && code.Some? then
        Element(tag, classes, attrs, [TextNode(Fence(LanguageOf(code.value.classes), NodeText(code.value)))])
      else Element(tag, classes, attrs, CodeBlocksForest(kids))
  }

  /** No `pre` element has a `code` element below it. */
  predicate NoCodeInPre(ns: seq<Node>)
    decreases ns
  {
    ns == [] ||
    ((match ns[0]
      case TextNode(_) => true
      case Element(tag, _, _, kids) => (tag == "pre" ==> NoneMatch(kids, TagSel("code"))) && NoCodeInPre(kids))
     && NoCodeInPre(ns[1..]))
  }

  /** After the rewrite every `pre` holds only its fence. */
  lemma {:induction false} CodeBlocksDone(ns: seq<Node>)
    ensures NoCodeInPre(CodeBlocksForest(ns))
    decreases ns
  {
    if ns != [] {
      CodeBlocksDone(ns[1..]);
      var rest := CodeBlocksForest(ns[1..]);
      var m := CodeBlocksNode(ns[0]);
      assert CodeBlocksForest(ns) == [m] + rest && ([m] + rest)[1..] == rest;
      match ns[0]
      case TextNode(_) =>
      case Element(tag, classes, attrs, kids) =>
        var code := Find(ns[0], "code");
        if tag == "pre" && code.Some? {
          var fence := [TextNode(Fence(LanguageOf(code.value.classes), NodeText(code.value)))];
          assert NoneMatch(fence[1..], TagSel("code"));
          assert NoCodeInPre(fence[1..]);
        } else {
          CodeBlocksDone(kids);
          if tag == "pre" {
            NoCodeBelow(ns[0]);
            CodeBlocksNoCode(kids);
          }
        }
    }
  }

  /** A `pre` for which `find('code')` finds nothing has no `code` below it. */
  lemma NoCodeBelow(n: Node)
    requires n.Element? && Find(n, "code").None?
    ensures NoneMatch(n.children, TagSel("code"))
  {
    FindFirst(n, "code");
    NoneMatchElements(n.children, TagSel("code"));
    forall j | 0 <= j < |Descendants(n)|
      ensures !Matches(TagSel("code"), Descendants(n)[j])
    {
      assert !HasTag(Descendants(n)[j], "code");
    }
  }

  /** The rewrite adds no `code` element. */
  lemma {:induction false} CodeBlocksNoCode(ns: seq<Node>)
    requires NoneMatch(ns, TagSel("code"))
    ensures NoneMatch(CodeBlocksForest(ns), TagSel("code"))
    decreases ns
  {
    if ns != [] {
      CodeBlocksNoCode(ns[1..]);
      var rest := CodeBlocksForest(ns[1..]);
      var m := CodeBlocksNode(ns[0]);
      assert CodeBlocksForest(ns) == [m] + rest && ([m] + rest)[1..] == rest;
      match ns[0]
      case TextNode(_) =>
      case Element(tag, classes, attrs, kids) =>
        var code := Find(ns[0], "code");
        if tag == "pre" && code.Some? {
          var fence := [TextNode(Fence(LanguageOf(code.value.classes), NodeText(code.value)))];
          assert NoneMatch(fence[1..], TagSel("code"));
        } else {
          CodeBlocksNoCode(kids);
        }
    }
  }

  /** The document node itself is never a `<pre>` of the converted page; its children are rewritten. */
  function ProcessCodeBlocks(soup: Node): Node {
    match soup
    case TextNode(_) => soup
    case Element(tag, classes, attrs, kids) => Element(tag, classes, attrs, CodeBlocksForest(kids))
  }
}
