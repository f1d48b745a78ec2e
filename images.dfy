/**
 * The image stage of `convert` and `_process_image`: how an `<img src>` is
 * classified, where a local image is looked for, when it is copied into the
 * images directory, and how the rewritten attributes are put back into the
 * tree at the `<img>` elements `find_all('img')` visited.
 */
module ImageRefs {
  import opened Wrappers
  import opened Text
  import opened Paths
  import opened Files
  import opened Dom

  /** Where a converter looks for and puts images: the HTML file's directory, its assets folder and the images directory. */
  datatype Site = Site(baseDir: string, assets: Option<string>, imagesDir: string)

  /** The first member of `ps` satisfying `p`. */
  function First(ps: seq<string>, p: string -> bool): (r: Option<string>)
    ensures r.None? <==> forall i :: 0 <= i < |ps| ==> !p(ps[i])
    ensures r.Some? ==> exists i :: 0 <= i < |ps| && ps[i] == r.value && p(ps[i]) && forall j :: 0 <= j < i ==> !p(ps[j])
    decreases |ps|
  {
    if ps == [] then None
    else if p(ps[0]) then Some(ps[0])
    else
      var r := First(ps[1..], p);
      assert forall j :: 1 <= j < |ps| ==> ps[j] == ps[1..][j - 1];
      r
  }

  /** `First` picks the member at `i` when it is the first one satisfying `p`. */
  lemma {:induction false} FirstAt(ps: seq<string>, p: string -> bool, i: nat)
    requires i < |ps| && p(ps[i]) && forall j :: 0 <= j < i ==> !p(ps[j])
    ensures First(ps, p) == Some(ps[i])
    decreases i
  {
    if i > 0 {
      FirstAt(ps[1..], p, i - 1);
    }
  }

  /** `lstrip('./')`, which drops any leading run of dots and slashes. */
  function Relative(src: string): string {
    LStripChars(src, {'.', '/'})
  }

  /** The three places `_process_image` tries, in order. */
  function Candidates(assets: string, baseDir: string, src: string): seq<string> {
    [PathJoin(assets, Basename(src)), PathJoin(assets, Relative(src)), PathJoin(baseDir, Relative(src))]
  }

  /** The existing file the image is taken from, when there is an assets folder and a candidate exists. */
  function Source(site: Site, fs: Fs, src: string): Option<string> {
    if site.assets.Some? then First(Candidates(site.assets.value, site.baseDir, src), q => Exists(fs, q)) else None
  }

  predicate IsRemote(src: string) {
    StartsWith(src, "http://") || StartsWith(src, "https://")
  }

  /** Where the copy of a local image goes. */
  function Dest(site: Site, src: string): string {
    PathJoin(site.imagesDir, Basename(src))
  }

  /** What `_process_image` returns. */
  function ImageResult(site: Site, fs: Fs, src: string): (r: string)
    ensures r == "" || r == src || r == "images/" + Basename(src)
  {
    if src == "" then ""
    else if IsRemote(src) then src
    else if StartsWith(src, "data:") then ""
    else if Source(site, fs, src).Some? then "images/" + Basename(src)
    else src
  }

  /** The filesystem after `_process_image`: a found file is copied when nothing exists at its destination yet. */
  function ImageFs(site: Site, fs: Fs, src: string): (r: Fs)
    ensures r.dirs == fs.dirs
    ensures forall q :: q in fs.files ==> q in r.files && r.files[q] == fs.files[q]
  {
    if src == "" || IsRemote(src) || StartsWith(src, "data:") then fs
    else
      var found := Source(site, fs, src);
      if found.Some? && !Exists(fs, Dest(site, src)) && found.value in fs.files then Copy(fs, found.value, Dest(site, src))
      else fs
  }

  /** A data URI is never taken for a remote URL. */
  lemma DataNotRemote(src: string)
    requires StartsWith(src, "data:")
    ensures !IsRemote(src)
  {
    assert src[..5][0] == src[0];
    assert |src| >= 7 ==> src[..7][0] == src[0];
    assert |src| >= 8 ==> src[..8][0] == src[0];
  }

  /**
   * The classification: empty and data URIs give the empty string, remote
   * URLs are kept, a local image found through the assets folder is
   * redirected into `images/`, and anything else is kept.
   */
  lemma ImageResultCases(site: Site, fs: Fs, src: string)
    ensures src == "" ==> ImageResult(site, fs, src) == ""
    ensures IsRemote(src) ==> ImageResult(site, fs, src) == src
    ensures StartsWith(src, "data:") ==> ImageResult(site, fs, src) == ""
    ensures src != "" && !IsRemote(src) && !StartsWith(src, "data:") ==>
      ImageResult(site, fs, src) == if Source(site, fs, src).Some? then "images/" + Basename(src) else src
    ensures site.assets.None? && !StartsWith(src, "data:") ==> ImageResult(site, fs, src) == src
  {
    if StartsWith(src, "data:") {
      DataNotRemote(src);
    }
  }

  /** A local image is resolved through the first existing candidate, and only when there is an assets folder. */
  lemma SourceFirst(site: Site, fs: Fs, src: string)
    ensures Source(site, fs, src).Some? ==> (site.assets.Some? &&
      var c := Candidates(site.assets.value, site.baseDir, src);
      exists i :: 0 <= i < 3 && c[i] == Source(site, fs, src).value && Exists(fs, c[i])
        && forall j :: 0 <= j < i ==> !Exists(fs, c[j]))
    ensures site.assets.Some? ==>
      var c := Candidates(site.assets.value, site.baseDir, src);
      (Source(site, fs, src).None? <==> !Exists(fs, c[0]) && !Exists(fs, c[1]) && !Exists(fs, c[2]))
  {
  }

  /**
   * Copy-once: the only file `_process_image` may create is the image's
   * destination, only when nothing is there yet, and no file that existed
   * is changed; directories are never touched.
   */
  lemma ImageFsCopyOnce(site: Site, fs: Fs, src: string)
    ensures var r := ImageFs(site, fs, src);
      r.dirs == fs.dirs
      && (forall q :: q in fs.files ==> q in r.files && r.files[q] == fs.files[q])
      && (forall q :: q in r.files && q !in fs.files ==> q == Dest(site, src))
    ensures Exists(fs, Dest(site, src)) ==> ImageFs(site, fs, src) == fs
  {
  }

  /** The copy made for a found image holds the content of the file it was found at. */
  lemma ImageFsCopies(site: Site, fs: Fs, src: string)
    requires src != "" && !IsRemote(src) && !StartsWith(src, "data:") && Source(site, fs, src).Some?
    requires !Exists(fs, Dest(site, src)) && Source(site, fs, src).value in fs.files
    ensures ImageResult(site, fs, src) == "images/" + Basename(src)
    ensures var r := ImageFs(site, fs, src);
      Dest(site, src) in r.files && r.files[Dest(site, src)] == fs.files[Source(site, fs, src).value]
  {
  }

  /** `lstrip('./')` strips characters, not a prefix: `"../a.png"` and `"./a.png"` both look for `a.png`. */
  lemma RelativeDropsRuns(rest: string)
    requires rest == [] || rest[0] !in {'.', '/'}
    ensures Relative("../" + rest) == rest && Relative("./" + rest) == rest
  {
    assert ("../" + rest)[1..] == "./" + rest;
    assert ("./" + rest)[1..] == "/" + rest;
    assert ("/" + rest)[1..] == rest;
  }

  type Attrs = map<string, string>

  /** `img.get('src', '')`. */
  function SrcOf(a: Attrs): string {
    if "src" in a then a["src"] else ""
  }

  /** A truthy `img.get('alt')`. */
  predicate HasAlt(a: Attrs) {
    "alt" in a && a["alt"] != ""
  }

  /**
   * One pass of the image loop: an image with a non-empty `src` gets the
   * processed value when that is non-empty, and `alt="Image"` when it has
   * no alternative text.
   */
  function ImageStep(site: Site, fs: Fs, a: Attrs): (Attrs, Fs) {
    var src := SrcOf(a);
    if src == "" then (a, fs)
    else
      var r := ImageResult(site, fs, src);
      var a1 := if r != "" then a["src" := r] else a;
      (if HasAlt(a1) then a1 else a1["alt" := "Image"], ImageFs(site, fs, src))
  }

  /** The image loop over `imgs` in order, threading the filesystem. */
  function ImagePass(site: Site, fs: Fs, imgs: seq<Attrs>): (r: (seq<Attrs>, Fs))
    ensures |r.0| == |imgs|
    decreases |imgs|
  {
    if imgs == [] then ([], fs)
    else
      var before := ImagePass(site, fs, imgs[..|imgs| - 1]);
      var step := ImageStep(site, before.1, imgs[|imgs| - 1]);
      (before.0 + [step.0], step.1)
  }

  /** The pass over the first `i + 1` images is one step after the pass over the first `i`. */
  lemma PassSnoc(site: Site, fs: Fs, imgs: seq<Attrs>, i: nat)
    requires i < |imgs|
    ensures var before := ImagePass(site, fs, imgs[..i]);
      var step := ImageStep(site, before.1, imgs[i]);
      ImagePass(site, fs, imgs[..i + 1]) == (before.0 + [step.0], step.1)
  {
    assert imgs[..i + 1][..i] == imgs[..i];
  }

  /**
   * What one pass does to an image's attributes: without a `src` it is left
   * alone; otherwise it gains non-empty alternative text, keeps a data URI
   * (the empty result is not written back), and no attribute other than
   * `src` and `alt` changes.
   */
  lemma ImageStepAttrs(site: Site, fs: Fs, a: Attrs)
    ensures var b := ImageStep(site, fs, a).0;
      (SrcOf(a) == "" ==> b == a)
      && (SrcOf(a) != "" ==> HasAlt(b) && (HasAlt(a) ==> b["alt"] == a["alt"]))
      && (StartsWith(SrcOf(a), "data:") ==> SrcOf(b) == SrcOf(a))
      && (SrcOf(a) != "" && !StartsWith(SrcOf(a), "data:") ==> SrcOf(b) == ImageResult(site, fs, SrcOf(a)))
      && b.Keys == a.Keys + (if SrcOf(a) != "" then {"src", "alt"} else {})
      && (forall k :: k in a && k != "src" && k != "alt" ==> b[k] == a[k])
  {
    var src := SrcOf(a);
    if src != "" {
      assert "src" in a;
      var r := ImageResult(site, fs, src);
      var a1 := if r != "" then a["src" := r] else a;
      var b := if HasAlt(a1) then a1 else a1["alt" := "Image"];
      assert ImageStep(site, fs, a).0 == b;
      assert a1.Keys == a.Keys;
      if HasAlt(a1) {
        assert b.Keys == a.Keys + {"src", "alt"};
      } else {
        assert b.Keys == a1.Keys + {"alt"};
      }
      if StartsWith(src, "data:") {
        DataNotRemote(src);
        assert r == "" && a1 == a;
      } else {
        assert SrcOf(b) == r;
      }
    }
  }

  /** The copy destinations of the images' sources, in order. */
  function Dests(site: Site, imgs: seq<Attrs>): seq<string>
    decreases |imgs|
  {
    if imgs == [] then [] else Dests(site, imgs[..|imgs| - 1]) + [Dest(site, SrcOf(imgs[|imgs| - 1]))]
  }

  /** The pass threads the filesystem through `ImageFs`, so it keeps every existing file and creates only image destinations. */
  lemma {:induction false} ImagePassFiles(site: Site, fs: Fs, imgs: seq<Attrs>)
    ensures var r := ImagePass(site, fs, imgs).1;
      r.dirs == fs.dirs
      && (forall q :: q in fs.files ==> q in r.files && r.files[q] == fs.files[q])
      && (forall q :: q in r.files && q !in fs.files ==> q in Dests(site, imgs))
    decreases |imgs|
  {
    if imgs != [] {
      var init := imgs[..|imgs| - 1];
      ImagePassFiles(site, fs, init);
      var mid := ImagePass(site, fs, init).1;
      var last := imgs[|imgs| - 1];
      ImageFsCopyOnce(site, mid, SrcOf(last));
      var r := ImagePass(site, fs, imgs).1;
      var im := ImageFs(site, mid, SrcOf(last));
      assert r == ImageStep(site, mid, last).1;
      StepFs(site, mid, last);
      assert r == im;
      var ds := Dests(site, imgs);
      assert ds == Dests(site, init) + [Dest(site, SrcOf(last))];
      forall q | q in r.files && q !in fs.files
        ensures q in ds
      {
        if q in mid.files {
          assert q in Dests(site, init);
        } else {
          assert q in im.files && q !in mid.files;
        }
      }
    }
  }

  /** A step changes the filesystem exactly as `ImageFs` does for the image's `src`. */
  lemma StepFs(site: Site, fs: Fs, a: Attrs)
    ensures ImageStep(site, fs, a).1 == ImageFs(site, fs, SrcOf(a))
  {
  }

  /** The pass treats each image with the step in order: the `i`-th output is one step applied to the `i`-th input. */
  lemma {:induction false} ImagePassStep(site: Site, fs: Fs, imgs: seq<Attrs>, i: nat)
    requires i < |imgs|
    ensures ImagePass(site, fs, imgs).0[i] == ImageStep(site, ImagePass(site, fs, imgs[..i]).1, imgs[i]).0
    decreases |imgs|
  {
    var init := imgs[..|imgs| - 1];
    if i < |imgs| - 1 {
      ImagePassStep(site, fs, init, i);
      assert init[..i] == imgs[..i];
      assert init[i] == imgs[i];
    } else {
      assert init == imgs[..i];
    }
  }

  /** The `<img>` attribute maps of the elements in and below `n`, in document order. */
  function NodeImages(n: Node): seq<Attrs>
    decreases n
  {
    match n
    case TextNode(_) => []
    case Element(tag, _, attrs, kids) => (if tag == "img" then [attrs] else []) + ForestImages(kids)
  }

  function ForestImages(ns: seq<Node>): seq<Attrs>
    decreases ns
  {
    if ns == [] then [] else NodeImages(ns[0]) + ForestImages(ns[1..])
  }

  /** The attribute maps `soup.find_all('img')` visits. */
  function Images(soup: Node): seq<Attrs> {
    if soup.Element? then ForestImages(soup.children) else []
  }

  /** `n` with the `<img>` attribute maps replaced, in document order, by `a`. */
  function SetNode(n: Node, a: seq<Attrs>): Node
    requires |a| == |NodeImages(n)|
    decreases n
  {
    match n
    case TextNode(_) => n
    case Element(tag, classes, attrs, kids) =>
      if tag == "img" then Element(tag, classes, a[0], SetForest(kids, a[1..]))
      else Element(tag, classes, attrs, SetForest(kids, a))
  }

  function SetForest(ns: seq<Node>, a: seq<Attrs>): seq<Node>
    requires |a| == |ForestImages(ns)|
    decreases ns
  {
    if ns == [] then []
    else
      var k := |NodeImages(ns[0])|;
      [SetNode(ns[0], a[..k])] + SetForest(ns[1..], a[k..])
  }

  /** The tree after the loop: every visited `<img>` carries its rewritten attributes. */
  function WithImages(soup: Node, a: seq<Attrs>): Node
    requires |a| == |Images(soup)|
  {
    if soup.Element? then soup.(children := SetForest(soup.children, a)) else soup
  }

  /** Writing the attributes back and reading them again gives them back. */
  lemma {:induction false} SetNodeRoundTrip(n: Node, a: seq<Attrs>)
    requires |a| == |NodeImages(n)|
    ensures NodeImages(SetNode(n, a)) == a
    decreases n
  {
    match n
    case TextNode(_) =>
    case Element(tag, classes, attrs, kids) =>
      if tag == "img" {
        SetForestRoundTrip(kids, a[1..]);
        assert [a[0]] + a[1..] == a;
      } else {
        SetForestRoundTrip(kids, a);
      }
  }

  lemma {:induction false} SetForestRoundTrip(ns: seq<Node>, a: seq<Attrs>)
    requires |a| == |ForestImages(ns)|
    ensures ForestImages(SetForest(ns, a)) == a
    decreases ns
  {
    if ns != [] {
      var k := |NodeImages(ns[0])|;
      SetNodeRoundTrip(ns[0], a[..k]);
      SetForestRoundTrip(ns[1..], a[k..]);
      var r := SetForest(ns, a);
      assert r[0] == SetNode(ns[0], a[..k]) && r[1..] == SetForest(ns[1..], a[k..]);
      assert a[..k] + a[k..] == a;
    }
  }

  /** Writing back the attributes the tree already has changes nothing. */
  lemma {:induction false} SetNodeIdentity(n: Node)
    ensures SetNode(n, NodeImages(n)) == n
    decreases n
  {
    match n
    case TextNode(_) =>
    case Element(tag, classes, attrs, kids) =>
      SetForestIdentity(kids);
      if tag == "img" {
        assert NodeImages(n)[1..] == ForestImages(kids);
      } else {
        assert NodeImages(n) == ForestImages(kids);
      }
  }

  lemma {:induction false} SetForestIdentity(ns: seq<Node>)
    ensures SetForest(ns, ForestImages(ns)) == ns
    decreases ns
  {
    if ns != [] {
      var a := ForestImages(ns);
      var k := |NodeImages(ns[0])|;
      assert a[..k] == NodeImages(ns[0]) && a[k..] == ForestImages(ns[1..]);
      SetNodeIdentity(ns[0]);
      SetForestIdentity(ns[1..]);
      assert [ns[0]] + ns[1..] == ns;
    }
  }

  /** The text of the tree does not change when image attributes are rewritten. */
  lemma {:induction false} SetNodeText(n: Node, a: seq<Attrs>)
    requires |a| == |NodeImages(n)|
    ensures NodeText(SetNode(n, a)) == NodeText(n)
    decreases n
  {
    match n
    case TextNode(_) =>
    case Element(tag, classes, attrs, kids) =>
      if tag == "img" {
        SetForestText(kids, a[1..]);
      } else {
        SetForestText(kids, a);
      }
  }

  lemma {:induction false} SetForestText(ns: seq<Node>, a: seq<Attrs>)
    requires |a| == |ForestImages(ns)|
    ensures ForestText(SetForest(ns, a)) == ForestText(ns)
    decreases ns
  {
    if ns != [] {
      var k := |NodeImages(ns[0])|;
      SetNodeText(ns[0], a[..k]);
      SetForestText(ns[1..], a[k..]);
      var r := SetForest(ns, a);
      assert r[0] == SetNode(ns[0], a[..k]) && r[1..] == SetForest(ns[1..], a[k..]);
    }
  }

  /** Writing the loop's results back and reading the images again gives those results. */
  lemma WithImagesRoundTrip(soup: Node, a: seq<Attrs>)
    requires |a| == |Images(soup)|
    ensures Images(WithImages(soup, a)) == a
    ensures NodeText(WithImages(soup, a)) == NodeText(soup)
  {
    if soup.Element? {
      SetForestRoundTrip(soup.children, a);
      SetForestText(soup.children, a);
    }
  }

  lemma WithImagesIdentity(soup: Node)
    ensures WithImages(soup, Images(soup)) == soup
  {
    if soup.Element? {
      SetForestIdentity(soup.children);
    }
  }

  /** The attribute maps of a list of elements. */
  function AttrsOf(es: seq<Node>): (r: seq<Attrs>)
    ensures |r| == |es|
  {
    if es == [] then [] else [if es[0].Element? then es[0].attrs else map[]] + AttrsOf(es[1..])
  }

  lemma {:induction false} AttrsOfConcat(a: seq<Node>, b: seq<Node>)
    ensures AttrsOf(a + b) == AttrsOf(a) + AttrsOf(b)
    decreases |a|
  {
    if a == [] {
      assert a + b == b;
    } else {
      assert (a + b)[0] == a[0] && (a + b)[1..] == a[1..] + b;
      AttrsOfConcat(a[1..], b);
    }
  }

  lemma {:induction false} NodeImagesFilter(n: Node, p: Node -> bool)
    requires forall e :: p(e) == HasTag(e, "img")
    ensures NodeImages(n) == AttrsOf(Filter(NodeElements(n), p))
    decreases n
  {
    match n
    case TextNode(_) =>
    case Element(tag, classes, attrs, kids) =>
      ForestImagesFilter(kids, p);
      var es := NodeElements(n);
      assert es[0] == n && es[1..] == ForestElements(kids);
      if tag == "img" {
        assert Filter(es, p) == [n] + Filter(ForestElements(kids), p);
      } else {
        assert Filter(es, p) == Filter(ForestElements(kids), p);
      }
  }

  lemma {:induction false} ForestImagesFilter(ns: seq<Node>, p: Node -> bool)
    requires forall e :: p(e) == HasTag(e, "img")
    ensures ForestImages(ns) == AttrsOf(Filter(ForestElements(ns), p))
    decreases ns
  {
    if ns != [] {
      NodeImagesFilter(ns[0], p);
      ForestImagesFilter(ns[1..], p);
      FilterConcat(NodeElements(ns[0]), ForestElements(ns[1..]), p);
      AttrsOfConcat(Filter(NodeElements(ns[0]), p), Filter(ForestElements(ns[1..]), p));
    }
  }

  /** The loop visits exactly the `<img>` elements `find_all('img')` returns, in the same order. */
  lemma ImagesAreFindAll(soup: Node)
    ensures Images(soup) == AttrsOf(FindAll(soup, "img"))
  {
    if soup.Element? {
      ForestImagesFilter(soup.children, e => HasTag(e, "img"));
    }
  }
}
