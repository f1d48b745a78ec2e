/**
 * The Word-document image extractor. A .docx file is a ZIP archive, given
 * here as its list of entries in archive order; the images are the entries
 * under `word/media/`. Each one that can be read is written out under a
 * consecutive name `<stem>_imageNN<ext>`.
 */
module WordExtractor {
  import opened Wrappers
  import opened Text
  import opened Paths
  import opened DocUtils

  /** An archive entry: its name, its bytes, and whether reading it succeeds. */
  datatype Entry = Entry(name: string, data: seq<byte>, readable: bool)

  /** The exceptions the extractor raises before or instead of producing output. */
  datatype Failure = FileNotFound(path: string) | NotADocx | ReadFailed

  /** An image written out: its path and its bytes. */
  datatype Image = Image(path: string, data: seq<byte>)

  const MediaFolder := "word/media/"

  /** `[f for f in file_list if f.startswith('word/media/')]`, over the entries. */
  function MediaFiles(entries: seq<Entry>): (r: seq<Entry>)
    ensures |r| <= |entries|
    ensures forall i :: 0 <= i < |r| ==> StartsWith(r[i].name, MediaFolder)
    decreases |entries|
  {
    if entries == [] then []
    else
      var rest := MediaFiles(entries[..|entries| - 1]);
      var e := entries[|entries| - 1];
      if StartsWith(e.name, MediaFolder) then rest + [e] else rest
  }

  /** The media entries are exactly the entries under `word/media/`, in archive order. */
  lemma {:induction false} MediaFilesConcat(a: seq<Entry>, b: seq<Entry>)
    ensures MediaFiles(a + b) == MediaFiles(a) + MediaFiles(b)
    decreases |b|
  {
    if b == [] {
      assert a + b == a;
    } else {
      var front := b[..|b| - 1];
      assert (a + b)[..|a + b| - 1] == a + front;
      assert (a + b)[|a + b| - 1] == b[|b| - 1];
      MediaFilesConcat(a, front);
    }
  }

  lemma {:induction false} MediaFilesMembers(entries: seq<Entry>, e: Entry)
    ensures e in MediaFiles(entries) <==> e in entries && StartsWith(e.name, MediaFolder)
    decreases |entries|
  {
    if entries != [] {
      var front := entries[..|entries| - 1];
      MediaFilesMembers(front, e);
      assert entries == front + [entries[|entries| - 1]];
    }
  }

  /** The extension kept for a media entry: its own, lower-cased, or else the one its leading bytes suggest. */
  function ExtensionFor(e: Entry): (r: string)
    ensures r != ""
    ensures Splitext(Basename(e.name)).1 != "" ==> r == Lower(Splitext(Basename(e.name)).1)
    ensures Splitext(Basename(e.name)).1 == "" ==> r == DetectImageFormat(e.data)
  {
    var ext := Lower(Splitext(Basename(e.name)).1);
    if ext == "" then DetectImageFormat(e.data) else ext
  }

  /** `f"{base_name}_image{image_index + 1:02d}{file_ext}"`. */
  function ImageName(docxPath: string, index: nat, ext: string): string {
    Splitext(Basename(docxPath)).0 + "_image" + ZeroPad2(index + 1) + ext
  }

  /** Where the images go: the given directory, or `extracted_word_images` beside the document. */
  function OutputDirFor(docxPath: string, outputDir: Option<string>): string {
    if outputDir.Some? then outputDir.value else OsJoin(Dirname(docxPath), "extracted_word_images")
  }

  /** The image written for entry `e` when `index` images precede it. */
  function ImageAt(docxPath: string, dir: string, index: nat, e: Entry): Image {
    Image(OsJoin(dir, ImageName(docxPath, index, ExtensionFor(e))), e.data)
  }

  /** The naming rule of one extraction, as a function of the count so far and the entry. */
  function Namer(docxPath: string, dir: string): (nat, Entry) -> Image {
    (index: nat, e: Entry) => ImageAt(docxPath, dir, index, e)
  }

  /**
   * The images written for a list of media entries: an entry that cannot be
   * read is skipped, and each written one is named by `at` from how many were
   * written before it.
   */
  function Extracted(at: (nat, Entry) -> Image, media: seq<Entry>): (r: seq<Image>)
    ensures |r| <= |media|
    decreases |media|
  {
    if media == [] then []
    else
      var prev := Extracted(at, media[..|media| - 1]);
      var e := media[|media| - 1];
      if e.readable then prev + [at(|prev|, e)] else prev
  }

  /** The readable entries, in order. */
  function Readable(media: seq<Entry>): (r: seq<Entry>)
    ensures forall i :: 0 <= i < |r| ==> r[i].readable
    decreases |media|
  {
    if media == [] then []
    else
      var rest := Readable(media[..|media| - 1]);
      if media[|media| - 1].readable then rest + [media[|media| - 1]] else rest
  }

  /**
   * The k-th image written comes from the k-th readable entry and carries
   * number k + 1: the numbering is consecutive, with no gap for an entry
   * that failed.
   */
  lemma {:induction false} ExtractedNumbering(at: (nat, Entry) -> Image, media: seq<Entry>)
    ensures var r, ok := Extracted(at, media), Readable(media);
      |r| == |ok| && forall k :: 0 <= k < |r| ==> r[k] == at(k, ok[k])
    decreases |media|
  {
    if media != [] {
      var front := media[..|media| - 1];
      var e := media[|media| - 1];
      var prev, okf := Extracted(at, front), Readable(front);
      ExtractedNumbering(at, front);
      if e.readable {
        var r, ok := prev + [at(|prev|, e)], okf + [e];
        assert Extracted(at, media) == r && Readable(media) == ok;
        forall k | 0 <= k < |r| ensures r[k] == at(k, ok[k]) {
          if k < |prev| {
            assert r[k] == prev[k] && ok[k] == okf[k];
          }
        }
      } else {
        assert Extracted(at, media) == prev && Readable(media) == okf;
      }
    }
  }

  lemma {:induction false} ReadableConcat(a: seq<Entry>, b: seq<Entry>)
    ensures Readable(a + b) == Readable(a) + Readable(b)
    decreases |b|
  {
    if b == [] {
      assert a + b == a;
    } else {
      var front := b[..|b| - 1];
      assert (a + b)[..|a + b| - 1] == a + front;
      assert (a + b)[|a + b| - 1] == b[|b| - 1];
      ReadableConcat(a, front);
    }
  }

  /** Output depends only on the readable entries. */
  lemma {:induction false} ExtractedByReadable(at: (nat, Entry) -> Image, m1: seq<Entry>, m2: seq<Entry>)
    requires Readable(m1) == Readable(m2)
    ensures Extracted(at, m1) == Extracted(at, m2)
  {
    ExtractedNumbering(at, m1);
    ExtractedNumbering(at, m2);
  }

  /** An entry that cannot be read is skipped, and the entries after it are still extracted, numbered as if it were absent. */
  lemma FailedEntrySkipped(at: (nat, Entry) -> Image, a: seq<Entry>, e: Entry, b: seq<Entry>)
    requires !e.readable
    ensures Extracted(at, a + [e] + b) == Extracted(at, a + b)
  {
    ReadableConcat(a + [e], b);
    ReadableConcat(a, [e]);
    ReadableConcat(a, b);
    assert Readable([e]) == [] by {
      assert [e][..0] == [];
    }
    ExtractedByReadable(at, a + [e] + b, a + b);
  }

  function PathsOf(images: seq<Image>): (r: seq<string>)
    ensures |r| == |images| && forall i :: 0 <= i < |r| ==> r[i] == images[i].path
  {
    seq(|images|, i requires 0 <= i < |images| => images[i].path)
  }

  lemma PathsOfSnoc(images: seq<Image>, image: Image)
    ensures PathsOf(images + [image]) == PathsOf(images) + [image.path]
  {
  }

  /**
   * `WordImageExtractor.extract_images`, given whether the path exists and
   * the archive's entries (`None` when it cannot be opened as a ZIP file).
   * Returns the image paths and the files written, in writing order.
   */
  method ExtractImages(docxPath: string, present: bool, archive: Option<seq<Entry>>, outputDir: Option<string>)
    returns (r: Result<seq<string>, Failure>, written: seq<Image>)
    ensures !present ==> r == Err(FileNotFound(docxPath)) && written == []
    ensures present && GetFileExtension(docxPath) != ".docx" ==> r == Err(NotADocx) && written == []
    ensures present && GetFileExtension(docxPath) == ".docx" && archive.None? ==> r == Err(ReadFailed) && written == []
    ensures present && GetFileExtension(docxPath) == ".docx" && archive.Some? ==>
      written == Extracted(Namer(docxPath, OutputDirFor(docxPath, outputDir)), MediaFiles(archive.value))
      && r == Ok(PathsOf(written))
  {
    written := [];
    if !present {
      return Err(FileNotFound(docxPath)), written;
    }
    if GetFileExtension(docxPath) != ".docx" {
      return Err(NotADocx), written;
    }
    var dir := OutputDirFor(docxPath, outputDir);
    if archive.None? {
      return Err(ReadFailed), written;
    }
    var media := MediaFiles(archive.value);
    var at := Namer(docxPath, dir);
    var paths: seq<string> := [];
    for i := 0 to |media|
      invariant written == Extracted(at, media[..i])
      invariant paths == PathsOf(written)
    {
      assert media[..i + 1][..i] == media[..i] && media[..i + 1][i] == media[i];
      var e := media[i];
      if e.readable {
        var image := at(|written|, e);
        PathsOfSnoc(written, image);
        written := written + [image];
        paths := paths + [image.path];
      }
      assert written == Extracted(at, media[..i + 1]);
    }
    assert media[..|media|] == media;
    return Ok(paths), written;
  }

  /** `count_images_in_docx`: the number of media entries; unlike extraction it does not check the extension. */
  function CountImagesInDocx(docxPath: string, present: bool, archive: Option<seq<Entry>>): (r: Result<nat, Failure>)
    ensures !present ==> r == Err(FileNotFound(docxPath))
    ensures present && archive.None? ==> r == Err(ReadFailed)
    ensures present && archive.Some? ==> r == Ok(|MediaFiles(archive.value)|)
  {
    if !present then Err(FileNotFound(docxPath))
    else if archive.None? then Err(ReadFailed)
    else Ok(|MediaFiles(archive.value)|)
  }

  /** With every media entry readable, extraction writes as many images as the count reports. */
  lemma CountMatchesExtraction(docxPath: string, archive: seq<Entry>, outputDir: Option<string>)
    requires forall e :: e in MediaFiles(archive) ==> e.readable
    ensures |Extracted(Namer(docxPath, OutputDirFor(docxPath, outputDir)), MediaFiles(archive))| == |MediaFiles(archive)|
  {
    var media := MediaFiles(archive);
    AllReadable(media);
    ExtractedNumbering(Namer(docxPath, OutputDirFor(docxPath, outputDir)), media);
  }

  lemma {:induction false} AllReadable(media: seq<Entry>)
    requires forall e :: e in media ==> e.readable
    ensures Readable(media) == media
    decreases |media|
  {
    if media != [] {
      var front := media[..|media| - 1];
      var last := media[|media| - 1];
      assert forall e :: e in front ==> e in media;
      AllReadable(front);
      assert last in media && last.readable;
      assert Readable(media) == Readable(front) + [last];
      assert media == front + [last];
    }
  }

  /** One record of `list_media_files`; the size in kilobytes is a float and is not kept. */
  datatype MediaInfo = MediaInfo(internalPath: string, filename: string, extension: string, sizeBytes: nat)

  function InfoOf(e: Entry): MediaInfo {
    MediaInfo(e.name, Basename(e.name), ExtensionFor(e), |e.data|)
  }

  /** The records of a list of media entries, in order. */
  function Infos(media: seq<Entry>): (r: seq<MediaInfo>)
    ensures |r| == |media|
    decreases |media|
  {
    if media == [] then [] else Infos(media[..|media| - 1]) + [InfoOf(media[|media| - 1])]
  }

  /** The i-th record describes the i-th media entry; its size is the entry's byte count. */
  lemma {:induction false} InfosAt(media: seq<Entry>, i: int)
    requires 0 <= i < |media|
    ensures Infos(media)[i] == InfoOf(media[i]) && Infos(media)[i].sizeBytes == |media[i].data|
    decreases |media|
  {
    var front := media[..|media| - 1];
    assert Infos(media) == Infos(front) + [InfoOf(media[|media| - 1])];
    if i < |media| - 1 {
      InfosAt(front, i);
      assert front[i] == media[i];
      assert Infos(media)[i] == Infos(front)[i];
    }
    assert Infos(media)[i] == InfoOf(media[i]);
  }

  lemma InfosSnoc(media: seq<Entry>, i: int)
    requires 0 <= i < |media|
    ensures Infos(media[..i + 1]) == Infos(media[..i]) + [InfoOf(media[i])]
  {
    assert media[..i + 1][..i] == media[..i] && media[..i + 1][i] == media[i];
  }

  /**
   * `list_media_files`: one record per media entry, in order. Reading any
   * entry that fails aborts the whole listing.
   */
  method ListMediaFiles(docxPath: string, present: bool, archive: Option<seq<Entry>>) returns (r: Result<seq<MediaInfo>, Failure>)
    ensures !present ==> r == Err(FileNotFound(docxPath))
    ensures present && archive.None? ==> r == Err(ReadFailed)
    ensures present && archive.Some? ==>
      ((exists i :: 0 <= i < |MediaFiles(archive.value)| && !MediaFiles(archive.value)[i].readable) <==> r == Err(ReadFailed))
    ensures present && archive.Some? && r.Ok? ==> r.value == Infos(MediaFiles(archive.value))
    ensures present && archive.Some? && (forall i :: 0 <= i < |MediaFiles(archive.value)| ==> MediaFiles(archive.value)[i].readable) ==>
      r == Ok(Infos(MediaFiles(archive.value)))
  {
    if !present {
      return Err(FileNotFound(docxPath));
    }
    if archive.None? {
      return Err(ReadFailed);
    }
    var media := MediaFiles(archive.value);
    var info: seq<MediaInfo> := [];
    for i := 0 to |media|
      invariant info == Infos(media[..i])
      invariant forall j :: 0 <= j < i ==> media[j].readable
    {
      if !media[i].readable {
        r := Err(ReadFailed);
        assert 0 <= i < |media| && !media[i].readable;
        assert media == MediaFiles(archive.value);
        return;
      }
      InfosSnoc(media, i);
      info := info + [InfoOf(media[i])];
      assert info == Infos(media[..i + 1]);
      assert forall j :: 0 <= j < i + 1 ==> media[j].readable;
    }
    assert media[..|media|] == media;
    assert media == MediaFiles(archive.value) && info == Infos(media);
    assert !exists j :: 0 <= j < |media| && !media[j].readable;
    r := Ok(info);
    assert r != Err(ReadFailed) && r.value == Infos(MediaFiles(archive.value));
  }
}
