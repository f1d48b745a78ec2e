/**
 * Helpers of the document image extractor: the image-format classifier that
 * reads a file's leading bytes, the extension and document-type checks, the
 * directory scan for documents, the size label and the archive layout.
 */
module DocUtils {
  import opened Wrappers
  import opened Text
  import opened Paths

  type byte = b: int | 0 <= b < 256

  /** Python's `data[:n]`. */
  function Take(data: seq<byte>, n: nat): (r: seq<byte>)
    ensures |r| <= n && |r| <= |data| && r == data[..|r|]
    ensures |data| >= n ==> |r| == n
  {
    if |data| <= n then data else data[..n]
  }

  predicate HasPrefix(data: seq<byte>, sig: seq<byte>) {
    |sig| <= |data| && data[..|sig|] == sig
  }

  /** JPEG start-of-image `FF D8` followed by an APP0 (JFIF) or APP1 (Exif) marker. */
  const JpegJfif: seq<byte> := [0xFF, 0xD8, 0xFF, 0xE0]
  const JpegExif: seq<byte> := [0xFF, 0xD8, 0xFF, 0xE1]
  /** The eight-byte PNG file signature. */
  const PngSignature: seq<byte> := [0x89, 0x50, 0x4E, 0x47, 0x0D, 0x0A, 0x1A, 0x0A]
  /** `GIF87a` and `GIF89a`. */
  const Gif87a: seq<byte> := [0x47, 0x49, 0x46, 0x38, 0x37, 0x61]
  const Gif89a: seq<byte> := [0x47, 0x49, 0x46, 0x38, 0x39, 0x61]
  /** `BM`. */
  const Bitmap: seq<byte> := [0x42, 0x4D]

  /** Comparing a slice with a signature is testing for that prefix, also when the data is shorter. */
  lemma TakeIsPrefix(data: seq<byte>, sig: seq<byte>)
    ensures (Take(data, |sig|) == sig) == HasPrefix(data, sig)
  {
  }

  /**
   * `ImageUtils.detect_image_format_from_signature`: the first signature in
   * the order JPEG, PNG, GIF, BMP that the data starts with decides the
   * extension, and anything else is `.img`. It never fails, whatever the
   * length of the data.
   */
  function DetectImageFormat(data: seq<byte>): (r: string)
    ensures r in [".jpg", ".png", ".gif", ".bmp", ".img"]
  {
    if Take(data, 4) == JpegJfif || Take(data, 4) == JpegExif then ".jpg"
    else if Take(data, 8) == PngSignature then ".png"
    else if Take(data, 6) == Gif87a || Take(data, 6) == Gif89a then ".gif"
    else if Take(data, 2) == Bitmap then ".bmp"
    else ".img"
  }

  /**
   * The signatures begin with different bytes (the two JPEG ones aside), so
   * the order of the tests never matters: each extension is chosen exactly
   * when the data starts with one of its own signatures.
   */
  lemma DetectExactly(data: seq<byte>)
    ensures DetectImageFormat(data) == ".jpg" <==> HasPrefix(data, JpegJfif) || HasPrefix(data, JpegExif)
    ensures DetectImageFormat(data) == ".png" <==> HasPrefix(data, PngSignature)
    ensures DetectImageFormat(data) == ".gif" <==> HasPrefix(data, Gif87a) || HasPrefix(data, Gif89a)
    ensures DetectImageFormat(data) == ".bmp" <==> HasPrefix(data, Bitmap)
    ensures |data| < 2 ==> DetectImageFormat(data) == ".img"
  {
    TakeIsPrefix(data, JpegJfif);
    TakeIsPrefix(data, JpegExif);
    TakeIsPrefix(data, PngSignature);
    TakeIsPrefix(data, Gif87a);
    TakeIsPrefix(data, Gif89a);
    TakeIsPrefix(data, Bitmap);
    if |data| > 0 {
      assert HasPrefix(data, JpegJfif) || HasPrefix(data, JpegExif) ==> data[0] == 0xFF;
      assert HasPrefix(data, PngSignature) ==> data[0] == 0x89;
      assert HasPrefix(data, Gif87a) || HasPrefix(data, Gif89a) ==> data[0] == 0x47;
      assert HasPrefix(data, Bitmap) ==> data[0] == 0x42;
    }
  }

  predicate IsLowerAscii(s: string) {
    forall i :: 0 <= i < |s| ==> !('A' <= s[i] <= 'Z')
  }

  /** `FileUtils.get_file_extension`: the final `splitext` extension, lower-cased. */
  function GetFileExtension(path: string): (r: string)
    ensures r == [] || r[0] == '.'
    ensures IsLowerAscii(r)
    ensures Lower(r) == r
  {
    var ext := Splitext(path).1;
    Lower(ext)
  }

  const SupportedDocuments: seq<string> := [".pdf", ".docx"]

  /** `FileUtils.is_supported_document`. */
  predicate IsSupportedDocument(path: string) {
    GetFileExtension(path) in SupportedDocuments
  }

  /**
   * A plain stem followed by an extension: the document check looks only at
   * the extension, and ignores its case.
   */
  lemma SupportedByExtension(stem: string, ext: string)
    requires stem != [] && forall i :: 0 <= i < |stem| ==> stem[i] != '/' && stem[i] != '.'
    requires ext != [] && ext[0] == '.' && forall i :: 1 <= i < |ext| ==> ext[i] != '/' && ext[i] != '.'
    ensures GetFileExtension(stem + ext) == Lower(ext)
    ensures IsSupportedDocument(stem + ext) <==> Lower(ext) in SupportedDocuments
  {
    var p := stem + ext;
    assert p[|stem|] == '.';
    assert forall i :: |stem| < i < |p| ==> p[i] == ext[i - |stem|];
    assert LastIndexOf(p, '.') == |stem|;
    assert LastIndexOf(p, '/') == -1;
    assert p[0] == stem[0] != '.';
    assert p[..|stem|] == stem && p[|stem|..] == ext;
  }

  /** The name filter of `find_documents_in_directory`: a `.pdf` or `.docx` ending in any case, and no leading `~`. */
  predicate Listed(name: string) {
    (EndsWith(Lower(name), ".pdf") || EndsWith(Lower(name), ".docx")) && !StartsWith(name, "~")
  }

  /** The documents of a listing, in listing order. */
  function Documents(directory: string, names: seq<string>): (r: seq<string>)
    ensures |r| <= |names|
    decreases |names|
  {
    if names == [] then []
    else
      var rest := Documents(directory, names[..|names| - 1]);
      var name := names[|names| - 1];
      if Listed(name) then rest + [OsJoin(directory, name)] else rest
  }

  /** A listing split in two gives the documents of each part, one after the other: the order is kept. */
  lemma {:induction false} DocumentsConcat(directory: string, a: seq<string>, b: seq<string>)
    ensures Documents(directory, a + b) == Documents(directory, a) + Documents(directory, b)
    decreases |b|
  {
    if b == [] {
      assert a + b == a;
    } else {
      var front := b[..|b| - 1];
      assert (a + b)[..|a + b| - 1] == a + front;
      assert (a + b)[|a + b| - 1] == b[|b| - 1];
      DocumentsConcat(directory, a, front);
    }
  }

  /** A path is found exactly when some listed name passes the filter and joins to it. */
  lemma {:induction false} DocumentsMembers(directory: string, names: seq<string>, p: string)
    ensures p in Documents(directory, names) <==>
      exists i :: 0 <= i < |names| && Listed(names[i]) && p == OsJoin(directory, names[i])
    decreases |names|
  {
    if names != [] {
      var front := names[..|names| - 1];
      DocumentsMembers(directory, front, p);
      assert forall i :: 0 <= i < |front| ==> front[i] == names[i];
    }
  }

  /**
   * `FileUtils.find_documents_in_directory`, given whether the directory
   * exists and the names `os.listdir` returns for it: a missing directory
   * gives no documents.
   */
  method FindDocumentsInDirectory(directory: string, present: bool, names: seq<string>) returns (documents: seq<string>)
    ensures !present ==> documents == []
    ensures present ==> documents == Documents(directory, names)
  {
    if !present {
      return [];
    }
    documents := [];
    for i := 0 to |names|
      invariant documents == Documents(directory, names[..i])
    {
      assert names[..i + 1][..i] == names[..i];
      if Listed(names[i]) {
        documents := documents + [OsJoin(directory, names[i])];
      }
    }
    assert names[..|names|] == names;
  }

  /**
   * The scan and the document check disagree on a name made of the extension
   * alone: `.pdf` ends in `.pdf`, but `splitext` takes a leading dot as part
   * of the stem, so it has no extension.
   */
  lemma HiddenNameListedButUnsupported()
    ensures Listed(".pdf") && !IsSupportedDocument(".pdf")
  {
    var p := ".pdf";
    assert Lower(p) == p;
    assert p[0] == '.' && p[1] != '.' && p[2] != '.' && p[3] != '.';
    assert forall i :: 0 <= i < |p| ==> p[i] != '/';
    assert LastIndexOf(p, '.') == 0;
    assert Splitext(p) == (p, "");
  }

  /** `ImageUtils.format_size_info`: a present pair of dimensions is shown as ` (WxH)`, absent ones as nothing. */
  function FormatSizeInfo(dimensions: Option<(nat, nat)>): (r: string)
    ensures r == "" <==> dimensions.None?
  {
    match dimensions
    case None => ""
    case Some(d) => " (" + NatToString(d.0) + "x" + NatToString(d.1) + ")"
  }

  predicate AllDigits(s: string) {
    forall i :: 0 <= i < |s| ==> IsDigit(s[i])
  }

  /** Reading a size label back: ` (` then two decimal numbers around the only `x`, then `)`; anything else is no size. */
  function ParseSizeInfo(s: string): Option<(nat, nat)> {
    if |s| >= 3 && s[..2] == " (" && s[|s| - 1] == ')' then
      var parts := Split(s[2..|s| - 1], 'x');
      if |parts| == 2 && parts[0] != "" && parts[1] != "" && AllDigits(parts[0]) && AllDigits(parts[1]) then
        Some((DigitsValue(parts[0]), DigitsValue(parts[1])))
      else None
    else None
  }

  /** The label reads back to the dimensions it was made from, and no label to none. */
  lemma FormatSizeInfoRoundTrip(dimensions: Option<(nat, nat)>)
    ensures ParseSizeInfo(FormatSizeInfo(dimensions)) == dimensions
  {
    if dimensions.Some? {
      var w, h := dimensions.value.0, dimensions.value.1;
      var a, b := NatToString(w), NatToString(h);
      var s := FormatSizeInfo(dimensions);
      var mid := a + "x" + b;
      Bracketed(a, b);
      assert s[2..|s| - 1] == mid;
      SplitAtOnly(a, b, 'x');
      assert Split(mid, 'x') == [a, b];
      NatToStringRoundTrip(w);
      NatToStringRoundTrip(h);
      assert ParseSizeInfo(s) == Some((w, h));
    }
  }

  /** The label wraps `a x b` in ` (` and `)`. */
  lemma Bracketed(a: string, b: string)
    ensures var s := " (" + a + "x" + b + ")";
      |s| >= 3 && s[..2] == " (" && s[|s| - 1] == ')' && s[2..|s| - 1] == a + "x" + b
  {
    var s := " (" + a + "x" + b + ")";
    var mid := a + "x" + b;
    assert s == " (" + mid + ")";
    assert forall i :: 0 <= i < |mid| ==> s[2 + i] == mid[i];
  }

  /** Splitting `a + [c] + b` on `c`, when neither part contains it. */
  lemma SplitAtOnly(a: string, b: string, c: char)
    requires forall i :: 0 <= i < |a| ==> a[i] != c
    requires forall i :: 0 <= i < |b| ==> b[i] != c
    ensures Split(a + [c] + b, c) == [a, b]
  {
    var s := a + [c] + b;
    assert s[|a|] == c && forall j :: 0 <= j < |a| ==> s[j] == a[j];
    assert IndexOf(s, c) == |a|;
    assert s[..|a|] == a && s[|a| + 1..] == b;
    assert IndexOf(b, c) == -1;
  }

  const SummaryEntry := "EXTRACTION_SUMMARY.txt"

  /** The archive the extractor writes: where it goes and its entry names, in writing order. */
  datatype Archive = Archive(path: string, entries: seq<string>)

  /** `<stem>_extracted_content_<timestamp>.zip`, beside the document. */
  function ArchivePath(docPath: string, timestamp: string): string {
    OsJoin(Dirname(docPath), Splitext(Basename(docPath)).0 + "_extracted_content_" + timestamp + ".zip")
  }

  function ImageEntry(imagePath: string): string {
    "extracted_images/" + Basename(imagePath)
  }

  /** The entry names: the document, each image in order, then the summary. */
  function ArchiveEntries(docPath: string, images: seq<string>): (r: seq<string>)
    ensures |r| == |images| + 2
    ensures r[0] == "original_document/" + Basename(docPath) && r[|r| - 1] == SummaryEntry
    ensures forall i :: 0 <= i < |images| ==> r[i + 1] == ImageEntry(images[i])
  {
    ["original_document/" + Basename(docPath)] + seq(|images|, i requires 0 <= i < |images| => ImageEntry(images[i])) + [SummaryEntry]
  }

  /** An image entry holds the image's file name under `extracted_images/`, so the names read back. */
  lemma ImageEntryRoundTrip(imagePath: string)
    ensures StartsWith(ImageEntry(imagePath), "extracted_images/")
    ensures ImageEntry(imagePath)[|"extracted_images/"|..] == Basename(imagePath)
    ensures Basename(ImageEntry(imagePath)) == Basename(imagePath)
  {
    var e := ImageEntry(imagePath);
    var b := Basename(imagePath);
    var k := |"extracted_images/"|;
    assert e[k - 1] == '/';
    assert forall j :: k <= j < |e| ==> e[j] == b[j - k];
    assert LastIndexOf(e, '/') == k - 1;
  }

  /**
   * `ZipUtils.create_archive`: nothing for an empty image list; otherwise the
   * entries written one by one. The timestamp is a parameter.
   */
  method CreateArchive(docPath: string, images: seq<string>, timestamp: string) returns (r: Option<Archive>)
    ensures images == [] <==> r.None?
    ensures r.Some? ==> r.value == Archive(ArchivePath(docPath, timestamp), ArchiveEntries(docPath, images))
  {
    if images == [] {
      return None;
    }
    var entries := ["original_document/" + Basename(docPath)];
    for i := 0 to |images|
      invariant entries == ["original_document/" + Basename(docPath)] + seq(i, j requires 0 <= j < i => ImageEntry(images[j]))
    {
      entries := entries + [ImageEntry(images[i])];
    }
    entries := entries + [SummaryEntry];
    return Some(Archive(ArchivePath(docPath, timestamp), entries));
  }
}
