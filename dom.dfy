/**
 * The parsed HTML document as BeautifulSoup presents it to the converter: a
 * tree of elements and text nodes. An element carries its tag, its class
 * tokens (bs4 splits the multi-valued `class` attribute into a list) and its
 * other attributes; `id` and `role` are among the attributes. Parsing itself
 * is not modelled: the converter receives the tree.
 */
module Dom {
  import opened Wrappers
  import opened Text

  datatype Node =
    | TextNode(text: string)
    | Element(tag: string, classes: seq<string>, attrs: map<string, string>, children: seq<Node>)

  /** `tag.get(name, '')` for a single-valued attribute: the empty string when it is absent. */
  function Attr(n: Node, name: string): string {
    if n.Element? && name in n.attrs then n.attrs[name] else ""
  }

  /** `get_text()`: the text of every text node below `n`, in document order. */
  function NodeText(n: Node): string
    decreases n
  {
    match n
    case TextNode(t) => t
    case Element(_, _, _, kids) => ForestText(kids)
  }

  function ForestText(ns: seq<Node>): string
    decreases ns
  {
    if ns == [] then "" else NodeText(ns[0]) + ForestText(ns[1..])
  }

  /** The element `n` (when it is one) followed by every element below it, in document order. */
  function NodeElements(n: Node): (r: seq<Node>)
    ensures forall i :: 0 <= i < |r| ==> r[i].Element?
    decreases n
  {
    match n
    case TextNode(_) => []
    case Element(_, _, _, kids) => [n] + ForestElements(kids)
  }

  function ForestElements(ns: seq<Node>): (r: seq<Node>)
    ensures forall i :: 0 <= i < |r| ==> r[i].Element?
    decreases ns
  {
    if ns == [] then [] else NodeElements(ns[0]) + ForestElements(ns[1..])
  }

  /** The elements strictly below `n` in document order, which is what `find_all` and `select` search. */
  function Descendants(n: Node): seq<Node> {
    if n.Element? then ForestElements(n.children) else []
  }

  /** The members of `es` satisfying `p`, in order. */
  function Filter(es: seq<Node>, p: Node -> bool): (r: seq<Node>)
    ensures |r| <= |es|
    ensures forall i :: 0 <= i < |r| ==> p(r[i])
  {
    if es == [] then []
    else if p(es[0]) then [es[0]] + Filter(es[1..], p)
    else Filter(es[1..], p)
  }

  /** Filtering distributes over concatenation. */
  lemma {:induction false} FilterConcat(a: seq<Node>, b: seq<Node>, p: Node -> bool)
    ensures Filter(a + b, p) == Filter(a, p) + Filter(b, p)
    decreases |a|
  {
    if a == [] {
      assert a + b == b;
    } else {
      assert (a + b)[0] == a[0] && (a + b)[1..] == a[1..] + b;
      FilterConcat(a[1..], b, p);
    }
  }

  /** `Filter` keeps exactly the members satisfying `p`. */
  lemma {:induction false} FilterMembers(es: seq<Node>, p: Node -> bool)
    ensures forall x :: x in Filter(es, p) <==> x in es && p(x)
    decreases |es|
  {
    if es != [] {
      FilterMembers(es[1..], p);
    }
  }

  /** The first member `Filter` keeps is the first member of `es` satisfying `p`. */
  lemma {:induction false} FilterHead(es: seq<Node>, p: Node -> bool) returns (i: nat)
    requires Filter(es, p) != []
    ensures i < |es| && es[i] == Filter(es, p)[0] && p(es[i])
    ensures forall j :: 0 <= j < i ==> !p(es[j])
    decreases |es|
  {
    if p(es[0]) {
      i := 0;
    } else {
      var k := FilterHead(es[1..], p);
      i := k + 1;
    }
  }

  /** `Filter` keeps nothing exactly when no member satisfies `p`. */
  lemma {:induction false} FilterEmpty(es: seq<Node>, p: Node -> bool)
    ensures Filter(es, p) == [] <==> forall j :: 0 <= j < |es| ==> !p(es[j])
    decreases |es|
  {
    if es != [] {
      FilterEmpty(es[1..], p);
      assert forall j :: 1 <= j < |es| ==> es[j] == es[1..][j - 1];
    }
  }

  predicate HasTag(e: Node, tag: string) {
    e.Element? && e.tag == tag
  }

  /** `soup.find_all(tag)`. */
  function FindAll(n: Node, tag: string): seq<Node> {
    Filter(Descendants(n), e => HasTag(e, tag))
  }

  /** `soup.find(tag)`: the first element with that tag, if any. */
  function Find(n: Node, tag: string): (r: Option<Node>)
    ensures r.Some? <==> FindAll(n, tag) != []
    ensures r.Some? ==> r.value == FindAll(n, tag)[0]
  {
    var all := FindAll(n, tag);
    if all == [] then None else Some(all[0])
  }

  /**
   * `find` returns the first element in document order that has the tag, and
   * finds nothing exactly when no element below `n` has it.
   */
  lemma FindFirst(n: Node, tag: string)
    ensures Find(n, tag).None? <==> forall j :: 0 <= j < |Descendants(n)| ==> !HasTag(Descendants(n)[j], tag)
    ensures Find(n, tag).Some? ==>
      exists i :: 0 <= i < |Descendants(n)| && Descendants(n)[i] == Find(n, tag).value && HasTag(Descendants(n)[i], tag)
        && forall j :: 0 <= j < i ==> !HasTag(Descendants(n)[j], tag)
  {
    var es := Descendants(n);
    var p := e => HasTag(e, tag);
    FilterEmpty(es, p);
    if Find(n, tag).Some? {
      var i := FilterHead(es, p);
    }
  }
}
