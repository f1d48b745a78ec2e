/**
 * `_extract_metadata`: the page title and the recognised `<meta>` tags,
 * collected into an insertion-ordered dictionary. The dictionary is a
 * sequence of key/value pairs; assigning an existing key keeps its place and
 * replaces its value, as a Python `dict` does.
 */
module Metadata {
  import opened Wrappers
  import opened Text
  import opened Dom
  import CleanText

  type Dict = seq<(string, string)>

  function Keys(d: Dict): (r: seq<string>)
    ensures |r| == |d|
    ensures forall i :: 0 <= i < |d| ==> r[i] == d[i].0
    decreases |d|
  {
    if d == [] then [] else [d[0].0] + Keys(d[1..])
  }

  /** `d.get(k)`. */
  function Lookup(d: Dict, k: string): Option<string>
    decreases |d|
  {
    if d == [] then None
    else if d[0].0 == k then Some(d[0].1)
    else Lookup(d[1..], k)
  }

  /** `d[k] = v`. */
  function Put(d: Dict, k: string, v: string): Dict
    decreases |d|
  {
    if d == [] then [(k, v)]
    else if d[0].0 == k then [(k, v)] + d[1..]
    else [d[0]] + Put(d[1..], k, v)
  }

  /** Assignment keeps the key order and appends a new key at the end. */
  lemma {:induction false} PutKeys(d: Dict, k: string, v: string)
    ensures Keys(Put(d, k, v)) == if k in Keys(d) then Keys(d) else Keys(d) + [k]
    decreases |d|
  {
    if d != [] {
      PutKeys(d[1..], k, v);
      assert Keys(d) == [d[0].0] + Keys(d[1..]);
      if d[0].0 != k {
        assert Keys(Put(d, k, v)) == [d[0].0] + Keys(Put(d[1..], k, v));
      } else {
        assert Keys(Put(d, k, v)) == [k] + Keys(d[1..]);
      }
    }
  }

  /** After assignment `k` maps to `v` and every other key to what it mapped to before. */
  lemma {:induction false} PutLookup(d: Dict, k: string, v: string, k2: string)
    ensures Lookup(Put(d, k, v), k2) == if k2 == k then Some(v) else Lookup(d, k2)
    decreases |d|
  {
    if d != [] && d[0].0 != k {
      PutLookup(d[1..], k, v, k2);
    }
  }

  /** The dictionary key a `<meta>` name or property is filed under, if it is one of the recognised ones. */
  function MetaKey(name: string): Option<string> {
    if name == "description" || name == "og:description" then Some("description")
    else if name == "author" || name == "og:author" then Some("author")
    else if name == "keywords" then Some("keywords")
    else if name == "og:title" then Some("og_title")
    else if name == "og:url" then Some("url")
    else if name == "article:published_time" || name == "pubdate" then Some("published")
    else None
  }

  /** No recognised name is filed under `title`, so the title is never overwritten. */
  lemma MetaKeyNotTitle(name: string)
    ensures MetaKey(name) != Some("title")
  {
  }

  /**
   * The entry a `<meta>` contributes: `name`, or `property` when `name` is
   * absent or empty, must be recognised, and `content` must be non-empty.
   */
  function MetaEntry(meta: Node): Option<(string, string)> {
    var name := if Attr(meta, "name") != "" then Attr(meta, "name") else Attr(meta, "property");
    var content := Attr(meta, "content");
    if name != "" && content != "" && MetaKey(name).Some? then Some((MetaKey(name).value, content))
    else None
  }

  /** One step of the loop over the `<meta>` tags. */
  function Step(d: Dict, meta: Node): Dict {
    var e := MetaEntry(meta);
    if e.Some? then Put(d, e.value.0, e.value.1) else d
  }

  /** The loop over `metas`, from the dictionary `d`. */
  function Fold(d: Dict, metas: seq<Node>): Dict
    decreases |metas|
  {
    if metas == [] then d else Step(Fold(d, metas[..|metas| - 1]), metas[|metas| - 1])
  }

  /** The dictionary before the `<meta>` loop: the cleaned text of the first `<title>`, if there is one. */
  function TitleEntry(soup: Node): Dict {
    var title := Find(soup, "title");
    if title.Some? then [("title", CleanText.ServerCleanText(NodeText(title.value)))] else []
  }

  function MetadataOf(soup: Node): Dict {
    Fold(TitleEntry(soup), FindAll(soup, "meta"))
  }

  /** `_extract_metadata`. */
  method ExtractMetadata(soup: Node) returns (metadata: Dict)
    ensures metadata == MetadataOf(soup)
  {
    metadata := TitleEntry(soup);
    var metas := FindAll(soup, "meta");
    var i := 0;
    while i < |metas|
      invariant 0 <= i <= |metas|
      invariant metadata == Fold(TitleEntry(soup), metas[..i])
    {
      assert metas[..i + 1][..i] == metas[..i];
      var entry := MetaEntry(metas[i]);
      if entry.Some? {
        metadata := Put(metadata, entry.value.0, entry.value.1);
      }
      i := i + 1;
    }
    assert metas[..i] == metas;
  }

  /** The value of the last tag of `metas` filed under `k`, if any. */
  function LastFor(metas: seq<Node>, k: string): Option<string>
    decreases |metas|
  {
    if metas == [] then None
    else
      var e := MetaEntry(metas[|metas| - 1]);
      if e.Some? && e.value.0 == k then Some(e.value.1) else LastFor(metas[..|metas| - 1], k)
  }

  /** Later tags overwrite earlier ones: a key's value comes from the last tag filed under it. */
  lemma {:induction false} FoldValue(d: Dict, metas: seq<Node>, k: string)
    ensures Lookup(Fold(d, metas), k) == if LastFor(metas, k).Some? then LastFor(metas, k) else Lookup(d, k)
    decreases |metas|
  {
    if metas != [] {
      var init := metas[..|metas| - 1];
      FoldValue(d, init, k);
      var e := MetaEntry(metas[|metas| - 1]);
      if e.Some? {
        PutLookup(Fold(d, init), e.value.0, e.value.1, k);
      }
    }
  }

  /** Some tag of `metas` is filed under `k`. */
  predicate FiledUnder(metas: seq<Node>, k: string) {
    exists j :: 0 <= j < |metas| && MetaEntry(metas[j]).Some? && MetaEntry(metas[j]).value.0 == k
  }

  /** The keys are those present before the loop and those some tag is filed under. */
  lemma {:induction false} FoldKeyMembers(d: Dict, metas: seq<Node>, k: string)
    ensures k in Keys(Fold(d, metas)) <==> k in Keys(d) || FiledUnder(metas, k)
    decreases |metas|
  {
    if metas != [] {
      var init := metas[..|metas| - 1];
      FoldKeyMembers(d, init, k);
      var e := MetaEntry(metas[|metas| - 1]);
      if e.Some? {
        PutKeys(Fold(d, init), e.value.0, e.value.1);
      }
      FiledUnderSplit(metas, k);
    }
  }

  lemma FiledUnderSplit(metas: seq<Node>, k: string)
    requires metas != []
    ensures var e := MetaEntry(metas[|metas| - 1]);
            FiledUnder(metas, k) <==> FiledUnder(metas[..|metas| - 1], k) || (e.Some? && e.value.0 == k)
  {
    var init := metas[..|metas| - 1];
    assert forall j :: 0 <= j < |init| ==> init[j] == metas[j];
  }

  /**
   * Processing more tags never moves a key: the keys after the first `i`
   * tags are a prefix of the final keys, so a key's place is fixed by the
   * first tag filed under it.
   */
  lemma {:induction false} FoldKeysGrow(d: Dict, metas: seq<Node>, i: nat)
    requires i <= |metas|
    ensures var before := Keys(Fold(d, metas[..i]));
            var after := Keys(Fold(d, metas));
            |before| <= |after| && after[..|before|] == before
    decreases |metas| - i
  {
    if i < |metas| {
      FoldKeysGrow(d, metas, i + 1);
      var prefix := metas[..i + 1];
      assert prefix[..|prefix| - 1] == metas[..i];
      assert Fold(d, prefix) == Step(Fold(d, metas[..i]), metas[i]);
      StepKeysGrow(Fold(d, metas[..i]), metas[i]);
      PrefixTrans(Keys(Fold(d, metas[..i])), Keys(Fold(d, prefix)), Keys(Fold(d, metas)));
    } else {
      assert metas[..i] == metas;
    }
  }

  /** One tag keeps the keys in place, adding at most one at the end. */
  lemma StepKeysGrow(d: Dict, meta: Node)
    ensures var before, after := Keys(d), Keys(Step(d, meta));
            |before| <= |after| && after[..|before|] == before
  {
    var e := MetaEntry(meta);
    if e.Some? {
      PutKeys(d, e.value.0, e.value.1);
    }
  }

  lemma PrefixTrans(a: seq<string>, b: seq<string>, c: seq<string>)
    requires |a| <= |b| && b[..|a|] == a
    requires |b| <= |c| && c[..|b|] == b
    ensures |a| <= |c| && c[..|a|] == a
  {
    assert forall j :: 0 <= j < |a| ==> c[j] == b[j];
  }

  /** The title, when present, is the first key and keeps the cleaned title text. */
  lemma TitleFirst(soup: Node)
    requires Find(soup, "title").Some?
    ensures var m := MetadataOf(soup);
            |m| > 0 && m[0].0 == "title"
            && Lookup(m, "title") == Some(CleanText.ServerCleanText(NodeText(Find(soup, "title").value)))
  {
    var metas := FindAll(soup, "meta");
    var d := TitleEntry(soup);
    FoldKeysGrow(d, metas, 0);
    assert metas[..0] == [];
    FoldValue(d, metas, "title");
    NoTitleFiled(metas);
  }

  lemma {:induction false} NoTitleFiled(metas: seq<Node>)
    ensures LastFor(metas, "title") == None
    decreases |metas|
  {
    if metas != [] {
      NoTitleFiled(metas[..|metas| - 1]);
    }
  }

  /** The keys `_extract_metadata` can produce. */
  const Canonical: set<string> := {"title", "description", "author", "keywords", "og_title", "url", "published"}

  lemma MetaKeyCanonical(name: string)
    ensures MetaKey(name).Some? ==> MetaKey(name).value in Canonical
  {
  }

  predicate Distinct(ks: seq<string>) {
    forall i, j :: 0 <= i < j < |ks| ==> ks[i] != ks[j]
  }

  /** Assignment never duplicates a key. */
  lemma PutDistinct(d: Dict, k: string, v: string)
    requires Distinct(Keys(d))
    ensures Distinct(Keys(Put(d, k, v)))
  {
    PutKeys(d, k, v);
    if k !in Keys(d) {
      var ks := Keys(d) + [k];
      forall i, j | 0 <= i < j < |ks|
        ensures ks[i] != ks[j]
      {
        if j == |ks| - 1 {
          assert ks[i] == Keys(d)[i];
        }
      }
    }
  }

  lemma {:induction false} FoldDistinct(d: Dict, metas: seq<Node>)
    requires Distinct(Keys(d))
    ensures Distinct(Keys(Fold(d, metas)))
    decreases |metas|
  {
    if metas != [] {
      FoldDistinct(d, metas[..|metas| - 1]);
      var e := MetaEntry(metas[|metas| - 1]);
      if e.Some? {
        PutDistinct(Fold(d, metas[..|metas| - 1]), e.value.0, e.value.1);
      }
    }
  }

  /** Every key of the extracted metadata is one of the canonical keys, and no key appears twice. */
  lemma MetadataKeys(soup: Node)
    ensures forall k :: k in Keys(MetadataOf(soup)) ==> k in Canonical
    ensures Distinct(Keys(MetadataOf(soup)))
  {
    FoldDistinct(TitleEntry(soup), FindAll(soup, "meta"));
    var metas := FindAll(soup, "meta");
    forall k | k in Keys(MetadataOf(soup))
      ensures k in Canonical
    {
      FoldKeyMembers(TitleEntry(soup), metas, k);
      if FiledUnder(metas, k) {
        FiledCanonical(metas, k);
      }
    }
  }

  lemma FiledCanonical(metas: seq<Node>, k: string)
    requires FiledUnder(metas, k)
    ensures k in Canonical
  {
    var j :| 0 <= j < |metas| && MetaEntry(metas[j]).Some? && MetaEntry(metas[j]).value.0 == k;
    var meta := metas[j];
    var name := if Attr(meta, "name") != "" then Attr(meta, "name") else Attr(meta, "property");
    MetaKeyCanonical(name);
  }
}
