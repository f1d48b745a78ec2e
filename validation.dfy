/**
 * `validate_html_file`: a fixed sequence of early-return checks on a path.
 * The command-line package's version (`MDConverter/src/mdconverter/utils.py`)
 * and the server's are the same function, so it is modelled once.
 */
module Validation {
  import opened Text
  import opened Paths
  import opened Files

  /** `get_supported_formats()`. */
  const SupportedFormats: seq<string> := [".html", ".htm"]

  /** `get_output_formats()`. */
  const OutputFormats: seq<string> := [".md", ".markdown"]

  /** The first 100 characters, as `f.read(100)` returns them. */
  function Prefix100(s: string): (r: string)
    ensures |r| <= 100 && StartsWith(s, r)
    ensures |s| >= 100 ==> |r| == 100
    ensures |s| < 100 ==> r == s
  {
    if |s| <= 100 then s else s[..100]
  }

  /**
   * The checks in order: existence, being a regular file, the lower-cased
   * suffix, a non-zero size, and (only when the file decodes as UTF-8) a
   * non-blank beginning; a file that does not decode is read as Latin-1,
   * which cannot fail, and accepted.
   */
  function ValidateHtmlFile(fs: Fs, path: string): (r: (bool, string))
    ensures r.0 <==> r.1 == "Valid HTML file"
    ensures r.0 ==> IsFile(fs, path) && Lower(PathSuffix(path)) in SupportedFormats && fs.files[path].text != ""
  {
    if !Exists(fs, path) then (false, "File does not exist: " + path)
    else if !IsFile(fs, path) then (false, "Path is not a file: " + path)
    else if Lower(PathSuffix(path)) !in SupportedFormats then (false, "File is not an HTML file: " + PathSuffix(path))
    else if fs.files[path].text == "" then (false, "File is empty")
    else if fs.files[path].utf8 && Strip(Prefix100(fs.files[path].text)) == "" then
      (false, "File appears to be empty or unreadable")
    else (true, "Valid HTML file")
  }

  /** Every check has to pass for the file to be valid, and a valid file always gets the same message. */
  lemma ValidIff(fs: Fs, path: string)
    ensures ValidateHtmlFile(fs, path).0 <==>
      path in fs.files && Lower(PathSuffix(path)) in SupportedFormats && fs.files[path].text != ""
      && (fs.files[path].utf8 ==> Strip(Prefix100(fs.files[path].text)) != "")
    ensures ValidateHtmlFile(fs, path).0 <==> ValidateHtmlFile(fs, path).1 == "Valid HTML file"
  {
  }

  /** The earliest failing check decides the message. */
  lemma FirstFailureWins(fs: Fs, path: string)
    ensures !Exists(fs, path) ==> ValidateHtmlFile(fs, path) == (false, "File does not exist: " + path)
    ensures IsDir(fs, path) && !IsFile(fs, path) ==> ValidateHtmlFile(fs, path) == (false, "Path is not a file: " + path)
    ensures IsFile(fs, path) && Lower(PathSuffix(path)) !in SupportedFormats ==>
      ValidateHtmlFile(fs, path) == (false, "File is not an HTML file: " + PathSuffix(path))
    ensures IsFile(fs, path) && Lower(PathSuffix(path)) in SupportedFormats && fs.files[path].text == "" ==>
      ValidateHtmlFile(fs, path) == (false, "File is empty")
  {
  }
}
