/**
 * `HTMLToMarkdownConverter`: where the output goes, how the assets folder
 * is found, and the order of the stages of `convert`. Parsing the HTML and
 * rendering Markdown (`markdownify`) are not modelled: `convert` receives
 * the parsed tree and the renderer.
 */
module Converter {
  import opened Wrappers
  import opened Text
  import opened Paths
  import opened Files
  import opened Dom
  import Sanitize
  import opened Metadata
  import opened Content
  import MarkdownFix
  import opened Assembly
  import opened ImageRefs

  /** `MDConverterConfig`. */
  datatype ServerConfig = ServerConfig(
    outputDir: string, imagesDir: string, preserveImages: bool, cleanHtml: bool,
    addMetadata: bool, logLevel: string, maxFileSize: nat)

  /** `MDConverterConfig()` without arguments. */
  const DefaultConfig := ServerConfig("output", "images", true, true, true, "INFO", 50 * 1024 * 1024)

  /** The folders `_find_assets_folder` tries, in order. */
  function AssetPatterns(htmlFilePath: string): seq<string> {
    var base := PathParent(htmlFilePath);
    [ PathJoin(base, PathStem(htmlFilePath) + "_files"),
      PathJoin(base, PathStem(htmlFilePath) + "_assets"),
      PathJoin(base, PathName(htmlFilePath) + "_files") ]
  }

  /** `_find_assets_folder`: the first pattern that is an existing directory. */
  method FindAssetsFolder(fs: Fs, htmlFilePath: string) returns (r: Option<string>)
    ensures r == First(AssetPatterns(htmlFilePath), q => IsDir(fs, q))
  {
    r := FirstDirectory(fs, AssetPatterns(htmlFilePath));
  }

  /** The loop of `_find_assets_folder` over its patterns. */
  method FirstDirectory(fs: Fs, patterns: seq<string>) returns (r: Option<string>)
    ensures r == First(patterns, q => IsDir(fs, q))
  {
    var i := 0;
    while i < |patterns|
      invariant 0 <= i <= |patterns|
      invariant forall j :: 0 <= j < i ==> !IsDir(fs, patterns[j])
    {
      if Exists(fs, patterns[i]) && IsDir(fs, patterns[i]) {
        FirstAt(patterns, q => IsDir(fs, q), i);
        return Some(patterns[i]);
      }
      i := i + 1;
    }
    return None;
  }

  /** The file name the output gets when none is given. */
  function DefaultName(htmlFilePath: string): string {
    Sanitize.SanitizeFilename(PathStem(htmlFilePath) + ".md")
  }

  /** A truthy `config` whose `output_dir` differs from the default. */
  predicate CustomDir(config: Option<ServerConfig>) {
    config.Some? && config.value.outputDir != "output"
  }

  /**
   * The constructor's output rule: a non-empty `output_file` is used as it
   * is; otherwise the sanitised `<stem>.md` goes into a custom output
   * directory when a configuration names one, and next to the HTML file
   * when not.
   */
  function OutputFileFor(htmlFilePath: string, outputFile: Option<string>, config: Option<ServerConfig>): string {
    if outputFile.Some? && outputFile.value != "" then outputFile.value
    else if CustomDir(config) then PathJoin(config.value.outputDir, DefaultName(htmlFilePath))
    else PathJoin(PathParent(htmlFilePath), DefaultName(htmlFilePath))
  }

  /** No configuration and no output file: the output sits next to the HTML file under the sanitised name. */
  lemma DefaultOutputBesideInput(htmlFilePath: string, config: Option<ServerConfig>)
    requires !CustomDir(config)
    requires var dir := PathParent(htmlFilePath); dir == "/" || !EndsWith(dir, "/")
    ensures var out := OutputFileFor(htmlFilePath, None, config);
      PathParent(out) == PathParent(htmlFilePath) && Basename(out) == DefaultName(htmlFilePath)
  {
    var dir := PathParent(htmlFilePath);
    var name := DefaultName(htmlFilePath);
    ParentNonEmpty(htmlFilePath);
    DefaultNameComponent(htmlFilePath);
    var out := OutputFileFor(htmlFilePath, None, config);
    assert out == PathJoin(dir, name);
    JoinParent(dir, name);
    assert PathParent(out) == dir && Basename(out) == name;
  }

  /** The default name is a single non-empty path component. */
  lemma DefaultNameComponent(htmlFilePath: string)
    ensures var name := DefaultName(htmlFilePath);
      name != "" && forall i :: 0 <= i < |name| ==> name[i] != '/'
  {
    var name := DefaultName(htmlFilePath);
    assert '/' in Sanitize.Forbidden;
  }

  /** A custom output directory receives the sanitised name unless an output file is given. */
  lemma CustomOutputDir(htmlFilePath: string, outputFile: Option<string>, config: Option<ServerConfig>)
    requires CustomDir(config) && !(outputFile.Some? && outputFile.value != "")
    requires var dir := config.value.outputDir; dir != "" && (dir == "/" || !EndsWith(dir, "/"))
    ensures var out := OutputFileFor(htmlFilePath, outputFile, config);
      PathParent(out) == config.value.outputDir && Basename(out) == DefaultName(htmlFilePath)
  {
    var name := DefaultName(htmlFilePath);
    DefaultNameComponent(htmlFilePath);
    JoinParent(config.value.outputDir, name);
  }

  /** The filesystem after the output directory is ensured (only on the custom-directory path). */
  function OutputDirFs(fs: Fs, outputFile: Option<string>, config: Option<ServerConfig>): Fs {
    if !(outputFile.Some? && outputFile.value != "") && CustomDir(config) then MakeDirs(fs, config.value.outputDir) else fs
  }

  /** The returned `result_info`. */
  datatype ResultInfo = ResultInfo(
    inputFile: string, outputFile: string, assetsFolder: Option<string>, imagesProcessed: nat,
    imagesDirectory: string, metadata: Dict, contentLength: nat, status: string)

  /** The tree and the filesystem after the image loop, which runs only when `preserve_images` is set. */
  function ImageStage(config: ServerConfig, site: Site, fs: Fs, soup: Node): (Node, Fs) {
    if config.preserveImages then
      var r := ImagePass(site, fs, Images(soup));
      (WithImages(soup, r.0), r.1)
    else (soup, fs)
  }

  /** The element `markdownify` renders: code blocks are fenced after the image stage, then the page is pruned and its main element chosen. */
  function MainElement(config: ServerConfig, site: Site, fs: Fs, soup: Node): Node {
    var tree := ProcessCodeBlocks(ImageStage(config, site, fs, soup).0);
    MainOf(PruneAll(tree, Unwanted), MainSelectors)
  }

  /** The document `convert` writes. The metadata comes from the tree as parsed, before any stage changed it. */
  function DocumentOf(config: ServerConfig, site: Site, fs: Fs, soup: Node, render: Node -> string): string {
    var content := MarkdownFix.FixMarkdown(render(MainElement(config, site, fs, soup)));
    Join(FinalLines(config.addMetadata, MetadataOf(soup), content), "\n")
  }

  /** The document ends with the rule and the tidied rendering of the main element. */
  lemma DocumentEndsWithContent(config: ServerConfig, site: Site, fs: Fs, soup: Node, render: Node -> string)
    ensures var content := MarkdownFix.FixMarkdown(render(MainElement(config, site, fs, soup)));
      EndsWith(DocumentOf(config, site, fs, soup, render), "---\n\n" + content) && MarkdownFix.Tidy(content)
  {
    var content := MarkdownFix.FixMarkdown(render(MainElement(config, site, fs, soup)));
    EndsWithContent(config.addMetadata, MetadataOf(soup), content);
    MarkdownFix.FixMarkdownShape(render(MainElement(config, site, fs, soup)));
  }

  /** `clean_html` is never consulted: the document and the filesystem do not depend on it. */
  lemma CleanHtmlIgnored(config: ServerConfig, site: Site, fs: Fs, soup: Node, render: Node -> string, b: bool)
    ensures DocumentOf(config.(cleanHtml := b), site, fs, soup, render) == DocumentOf(config, site, fs, soup, render)
    ensures ImageStage(config.(cleanHtml := b), site, fs, soup) == ImageStage(config, site, fs, soup)
  {
    var other := config.(cleanHtml := b);
    SameStages(other, config, site, fs, soup, render);
  }

  /** Configurations that agree on `preserve_images` and `add_metadata` give the same image stage and document. */
  lemma SameStages(c1: ServerConfig, c2: ServerConfig, site: Site, fs: Fs, soup: Node, render: Node -> string)
    requires c1.preserveImages == c2.preserveImages && c1.addMetadata == c2.addMetadata
    ensures ImageStage(c1, site, fs, soup) == ImageStage(c2, site, fs, soup)
    ensures DocumentOf(c1, site, fs, soup, render) == DocumentOf(c2, site, fs, soup, render)
  {
    assert MainElement(c1, site, fs, soup) == MainElement(c2, site, fs, soup);
  }

  /**
   * The image stage keeps the text of the page and every existing file, and
   * rewrites the `i`-th `<img>` as one step of the loop: an image without a
   * `src` is untouched, one with a `src` ends up with alternative text, and a
   * data URI `src` survives.
   */
  lemma ImageStageEffect(config: ServerConfig, site: Site, fs: Fs, soup: Node, i: nat)
    requires i < |Images(soup)|
    ensures var (tree, fs2) := ImageStage(config, site, fs, soup);
      NodeText(tree) == NodeText(soup)
      && |Images(tree)| == |Images(soup)|
      && (forall q :: q in fs.files ==> q in fs2.files && fs2.files[q] == fs.files[q])
      && var a := Images(soup)[i];
         var b := Images(tree)[i];
         (!config.preserveImages || SrcOf(a) == "" ==> b == a)
         && (config.preserveImages && SrcOf(a) != "" ==> HasAlt(b))
         && (StartsWith(SrcOf(a), "data:") ==> SrcOf(b) == SrcOf(a))
  {
    if config.preserveImages {
      var imgs := Images(soup);
      var r := ImagePass(site, fs, imgs);
      WithImagesRoundTrip(soup, r.0);
      ImagePassFiles(site, fs, imgs);
      ImagePassStep(site, fs, imgs, i);
      ImageStepAttrs(site, ImagePass(site, fs, imgs[..i]).1, imgs[i]);
    }
  }

  /** The converter. The fields other than `fs` are set once, by the constructor. */
  class HtmlToMarkdownConverter {
    const config: ServerConfig
    const htmlFilePath: string
    const baseDir: string
    const assetsFolder: Option<string>
    const outputFile: string
    const imagesDir: string
    /** `processed_images`, which nothing ever adds to. */
    const processedImages: map<string, string> := map[]
    var fs: Fs

    function Where(): Site {
      Site(baseDir, assetsFolder, imagesDir)
    }

    constructor (fs0: Fs, htmlFilePath: string, outputFile: Option<string>, config: Option<ServerConfig>)
      ensures this.config == if config.Some? then config.value else DefaultConfig
      ensures this.htmlFilePath == htmlFilePath && baseDir == PathParent(htmlFilePath)
      ensures assetsFolder == First(AssetPatterns(htmlFilePath), q => IsDir(fs0, q))
      ensures this.outputFile == OutputFileFor(htmlFilePath, outputFile, config)
      ensures imagesDir == PathJoin(PathParent(this.outputFile), this.config.imagesDir)
      ensures fs == MakeDirs(OutputDirFs(fs0, outputFile, config), imagesDir)
    {
      var cfg := if config.Some? then config.value else DefaultConfig;
      var base := PathParent(htmlFilePath);
      var assets := FindAssetsFolder(fs0, htmlFilePath);
      var out: string;
      var fs1 := fs0;
      if outputFile.Some? && outputFile.value != "" {
        out := outputFile.value;
      } else if CustomDir(config) {
        fs1 := MakeDirs(fs1, config.value.outputDir);
        var filename := Sanitize.SanitizeFilename(PathStem(htmlFilePath) + ".md");
        out := PathJoin(config.value.outputDir, filename);
      } else {
        var filename := Sanitize.SanitizeFilename(PathStem(htmlFilePath) + ".md");
        out := PathJoin(base, filename);
      }
      var images := PathJoin(PathParent(out), cfg.imagesDir);
      this.config := cfg;
      this.htmlFilePath := htmlFilePath;
      baseDir := base;
      assetsFolder := assets;
      this.outputFile := out;
      imagesDir := images;
      fs := MakeDirs(fs1, images);
    }

    /** `_process_image`. */
    method ProcessImage(src: string) returns (r: string)
      modifies this
      ensures r == ImageResult(Where(), old(fs), src)
      ensures fs == ImageFs(Where(), old(fs), src)
    {
      if src == "" {
        return "";
      }
      if StartsWith(src, "http://") || StartsWith(src, "https://") {
        return src;
      }
      if StartsWith(src, "data:") {
        return "";
      }
      var imgFilename := Basename(src);
      ghost var site := Where();
      assert !IsRemote(src);
      if assetsFolder.Some? {
        var found := FirstExisting(fs, Candidates(assetsFolder.value, baseDir, src));
        assert found == Source(site, fs, src);
        if found.Some? {
          var dest := PathJoin(imagesDir, imgFilename);
          assert dest == Dest(site, src);
          if !Exists(fs, dest) && found.value in fs.files {
            fs := Copy(fs, found.value, dest);
          }
          return "images/" + imgFilename;
        }
      }
      return src;
    }

    /** The candidate loop of `_process_image`: the first of `potential` that exists. */
    static method FirstExisting(fs: Fs, potential: seq<string>) returns (r: Option<string>)
      ensures r == First(potential, q => Exists(fs, q))
    {
      var i := 0;
      while i < |potential|
        invariant 0 <= i <= |potential|
        invariant forall j :: 0 <= j < i ==> !Exists(fs, potential[j])
      {
        if Exists(fs, potential[i]) {
          FirstAt(potential, q => Exists(fs, q), i);
          return Some(potential[i]);
        }
        i := i + 1;
      }
      return None;
    }

    /**
     * `convert` on an already parsed tree: metadata, the image loop, code
     * blocks, pruning and the main element, rendering, the fix-ups, assembly,
     * and writing the output file.
     */
    method Convert(soup: Node, render: Node -> string) returns (doc: string, info: ResultInfo)
      modifies this
      ensures doc == DocumentOf(config, Where(), old(fs), soup, render)
      ensures fs == Write(ImageStage(config, Where(), old(fs), soup).1, outputFile, doc)
      ensures info == ResultInfo(htmlFilePath, outputFile, assetsFolder, 0, imagesDir, MetadataOf(soup), |doc|, "success")
    {
      ghost var fs0 := fs;
      var metadata := ExtractMetadata(soup);
      var tree := RunImages(soup);
      tree := ProcessCodeBlocks(tree);
      var pruned, main := ExtractMainContent(tree);
      MainChoiceIsMainOf(pruned, MainSelectors, main);
      assert main == MainElement(config, Where(), fs0, soup);
      var markdown := render(main);
      markdown := MarkdownFix.FixMarkdown(markdown);
      doc := CreateFinalMarkdown(config.addMetadata, metadata, markdown);
      assert doc == DocumentOf(config, Where(), fs0, soup, render);
      fs := Write(fs, outputFile, doc);
      info := ResultInfo(htmlFilePath, outputFile, assetsFolder, |processedImages|, imagesDir, metadata, |doc|, "success");
    }

    /** The image stage of `convert`. */
    method RunImages(soup: Node) returns (tree: Node)
      modifies this
      ensures (tree, fs) == ImageStage(config, Where(), old(fs), soup)
    {
      tree := soup;
      if config.preserveImages {
        var out := ImageLoop(Images(soup));
        tree := WithImages(soup, out);
      }
    }

    /** The loop of `convert` over the `<img>` elements: each is processed and gets its attributes back. */
    method ImageLoop(imgs: seq<Attrs>) returns (out: seq<Attrs>)
      modifies this
      ensures (out, fs) == ImagePass(Where(), old(fs), imgs)
    {
      out := [];
      var i := 0;
      ghost var site, fs0 := Where(), fs;
      while i < |imgs|
        invariant 0 <= i <= |imgs|
        invariant out == ImagePass(site, fs0, imgs[..i]).0 && fs == ImagePass(site, fs0, imgs[..i]).1
      {
        PassSnoc(site, fs0, imgs, i);
        ghost var step := ImageStep(site, fs, imgs[i]);
        var a := imgs[i];
        var src := SrcOf(a);
        if src != "" {
          var newSrc := ProcessImage(src);
          if newSrc != "" {
            a := a["src" := newSrc];
          }
          if !HasAlt(a) {
            a := a["alt" := "Image"];
          }
        }
        assert a == step.0 && fs == step.1;
        out := out + [a];
        i := i + 1;
      }
      assert imgs[..i] == imgs;
    }
  }
}
