# HTML snapshot to Markdown, and its neighbours, in Dafny

This project models the conversion core of the `mdconverter-mcp` server and
proves properties of it. `HTMLToMarkdownConverter` takes a saved web page
(an HTML file, perhaps with a `<stem>_files` assets folder) and writes one
Markdown document. Its stages run in this order:

1. read the metadata of the parsed page;
2. rewrite the `<img>` references, copying local images into an `images/`
   directory;
3. fence the code blocks;
4. prune boilerplate elements;
5. choose the main element;
6. render it with `markdownify`;
7. tidy the Markdown with six regular-expression passes and a strip;
8. put a frontmatter and heading block in front.

The project also models some smaller parts of the same repository:

- the command-line package's sanitiser, text cleaner and validator, and its
  defaults-filling `Config` class;
- the image-format sniffer, file helpers and archive naming of the document
  image extractor;
- its Word-document media extraction;
- the line-oriented AppleScript result parsers of the macOS Mail client;
- the provider detection, server table and "last N" selection of the IMAP
  email reader;
- the maximum path sum of a binary tree.

How the model is built:

- **The DOM** is a datatype `Dom.Node`: a text node, or an element with its
  tag, class tokens, attributes and children. BeautifulSoup's in-place
  edits become tree rewrites:
  - `img['src'] = …` is `ImageRefs.WithImages`;
  - `pre.string = …` is `Content.CodeBlocksForest`;
  - `decompose()` is `Content.PruneForest`.
- **The parser and `markdownify`** are not modelled. `Converter.HtmlToMarkdownConverter.Convert`
  receives the parsed tree and the rendering function as parameters.
- **The filesystem** is a value `Files.Fs`, a map of files with their
  contents and a set of directories. The converter object keeps it in its
  mutable field `fs`.
- **Methods versus functions.** Where the source loops and mutates, the
  model is a method with a loop. Each such method is proved equal to a
  function of its inputs, and the properties are lemmas about that
  function:
  - the image loop, the candidate search and the assets-folder search;
  - the pruning and selection loops;
  - the metadata loop and the document assembly;
  - the configuration dictionary;
  - the record parsers;
  - the document listing, the media extraction and the mail search.
- **Python semantics** are written out where they matter:
  - `strip()` and `\s` use Python's whitespace set;
  - `s[:n]` and `ids[-limit:]` follow Python's negative-index slicing;
  - `split(sep, 1)`, `os.path.splitext` and `os.path.basename` are
    modelled;
  - `lstrip('./')` strips a character set, not a prefix;
  - a dict keeps insertion order, so the metadata dictionary is an
    association list.

Where the code and its own tests or documentation disagree, the model
follows the code:

- **`sanitize_filename("test<>file.md")`** collapses the two underscores,
  giving `test_file.md`, not the `test__file.md` the package's test expects
  (`SanitizeExamples.TwoForbidden`).
- **The package's `clean_text`** decodes no HTML entity, so `test&nbsp;text`
  stays as it is (`CleanTextExamples.UtilsCleanTextKeepsEntity`). Only the
  server's `_clean_text` turns it into `test text`.
- **The `clean_html` option** is never read: pruning always happens
  (`Converter.CleanHtmlIgnored`).
- **`processed_images`** is never written, so `images_processed` is always 0.
- **A data URI's `src`** is kept, because an empty result is never written
  back (`ImageRefs.ImageStepAttrs`).
- **The Markdown tidy-up.** Step 1 removes every run of three newlines, but
  step 2 can bring one back (`MarkdownFixExamples.HeadingAfterBlankLine`).
- **Step 3's pattern `(#{1,6}.*)\n([^\n#])`** is not anchored, so any line
  containing a `#` counts as a heading line.
- **The `code.unwrap()` branch** of `_process_code_blocks` (lines 249-250)
  cannot run. `pre.string = …` has already removed the `<code>` from the `<pre>`,
  so `code.parent` is no longer the `<pre>`.
- **`email_address.split('@')[1]`** is the text between the first and the
  second `@`, not everything after the first
  (`EmailReader.DomainStopsAtSecondAt`).
- **A negative search limit** is accepted and drops the first `-limit` ids
  instead of keeping the last ones (`EmailReader.LimitIds`).
- **The package's `clean_text`** collapses whitespace before it removes
  control characters. A control character between two spaces therefore
  leaves a double space (`CleanTextExamples.UtilsCleanTextControlGap`).
- **Truncation** happens after the strip, so a truncated name can end with a
  space (`Sanitize.TruncationCanEndWithSpace`). The "no leading or trailing
  space or dot" guarantee holds only for names that were not cut.

## Model

| member | source | states |
|---|---|---|
| Sanitize.ReplaceForbidden | mdconverter-mcp/src/mdconverter_mcp/server.py:112 | the replacement keeps the length and leaves none of `<>:"/\|?*` |
| Sanitize.CollapseUnderscores | mdconverter-mcp/src/mdconverter_mcp/server.py:113 | after collapsing no `__` remains, the string never grows, its first and last characters are kept, and no forbidden character is introduced |
| Sanitize.CollapseUnderscoresIdentity | mdconverter-mcp/src/mdconverter_mcp/server.py:113 | a string without `__` is left unchanged by the collapse |
| Sanitize.Presanitized | mdconverter-mcp/src/mdconverter_mcp/server.py:112-117 | before the length cap the name is non-empty, has no forbidden character and no `__`, and neither begins nor ends with a space or dot |
| Sanitize.Cap | mdconverter-mcp/src/mdconverter_mcp/server.py:119-121 | a name longer than 200 stays non-empty and clean; when its extension fits, the result is exactly 200 long and is a prefix of the stem followed by the whole extension |
| Sanitize.CapWithoutExtension | mdconverter-mcp/src/mdconverter_mcp/server.py:119-121 | without an extension the cap is the first 200 characters |
| Sanitize.SanitizeFilename | mdconverter-mcp/src/mdconverter_mcp/server.py:110-123 | the result is non-empty, has no forbidden character and no `__`; it is at most 200 long when the extension is at most 200; without truncation it has no space or dot at either end |
| Sanitize.SanitizeIdempotent | mdconverter-mcp/src/mdconverter_mcp/server.py:110-123 | when no truncation happened, sanitising the result again changes nothing |
| Sanitize.CleanNameUnchanged | mdconverter-mcp/src/mdconverter_mcp/server.py:112-117 | a name already free of forbidden characters, `__` and edge spaces or dots passes the stages before the cap unchanged |
| Sanitize.TruncationCanEndWithSpace | mdconverter-mcp/src/mdconverter_mcp/server.py:114-121 | a clean name over 200 characters with a space at position 200 is cut to a result that ends in a space |
| SanitizeExamples.TwoForbidden | MDConverter/src/mdconverter/utils.py:113-116 | two forbidden characters between two words become one `_`, so `test<>file.md` gives `test_file.md` |
| SanitizeExamples.ReplacePlain | MDConverter/src/mdconverter/utils.py:113 | forbidden characters between two clean words each become `_` and the words stay |
| SanitizeExamples.ForbiddenRunCollapses | MDConverter/src/mdconverter/utils.py:102-130 | the whole sanitiser maps a word, two forbidden characters and a word to the two words joined by one `_` |
| SanitizeExamples.PaddingStripped | MDConverter/src/mdconverter/utils.py:118-119 | spaces and dots around a clean word are stripped, so `  test  ` gives `test` |
| SanitizeExamples.EmptyFallsBack | MDConverter/src/mdconverter/utils.py:121-123 | the empty name gives `converted_file` |
| CleanText.NonSpace | mdconverter-mcp/src/mdconverter_mcp/server.py:130 | the reference for "nothing but whitespace changes": its result holds no whitespace character |
| CleanText.CollapseSpaces | mdconverter-mcp/src/mdconverter_mcp/server.py:130 | `re.sub(r'\s+', ' ', …)` empties only the empty string, and the result starts with a space exactly when the input starts with whitespace |
| CleanText.WordLength | mdconverter-mcp/src/mdconverter_mcp/server.py:130 | the length of the leading run of non-whitespace characters, which is followed by whitespace or the end |
| CleanText.Words | mdconverter-mcp/src/mdconverter_mcp/server.py:130-131 | the reference `s.split()`: the words, each non-empty and without whitespace |
| CleanText.WordsCollapse | mdconverter-mcp/src/mdconverter_mcp/server.py:130 | collapsing whitespace runs keeps the words |
| CleanText.WordsStrip | mdconverter-mcp/src/mdconverter_mcp/server.py:131 | trimming keeps the words |
| CleanText.NormalizedJoin | mdconverter-mcp/src/mdconverter_mcp/server.py:130-131 | a string with single interior spaces only is its words joined by `' '` |
| CleanText.CollapseStripWords | mdconverter-mcp/src/mdconverter_mcp/server.py:130-131 | collapsing then stripping gives `' '.join(s.split())`: the words of the input, in order, joined by single spaces |
| CleanText.CollapseShape | mdconverter-mcp/src/mdconverter_mcp/server.py:130 | after `re.sub(r'\s+', ' ', …)` the only whitespace is single plain spaces |
| CleanText.CollapseKeepsNonSpace | mdconverter-mcp/src/mdconverter_mcp/server.py:130 | the collapse keeps every non-whitespace character, in order |
| CleanText.CollapseIdentity | mdconverter-mcp/src/mdconverter_mcp/server.py:130 | a string of single plain spaces is a fixed point of the collapse |
| CleanText.StripCollapsedNormalized | mdconverter-mcp/src/mdconverter_mcp/server.py:130-131 | collapsing then stripping leaves single interior spaces only |
| CleanText.DecodeEntitiesNoAmpersand | mdconverter-mcp/src/mdconverter_mcp/server.py:132-136 | the five entity replacements change nothing in a text without `&` |
| CleanText.DecodeEntitiesPlainSpaces | mdconverter-mcp/src/mdconverter_mcp/server.py:132-136 | entity decoding brings in no whitespace other than the plain space |
| CleanText.ServerCleanText | mdconverter-mcp/src/mdconverter_mcp/server.py:125-138 | `_clean_text` output has no whitespace but the plain space; for text without `&` it is the words of the input joined by single spaces |
| CleanText.ServerCleanTextPlainSpaces | mdconverter-mcp/src/mdconverter_mcp/server.py:125-138 | `_clean_text` output has no whitespace but the plain space |
| CleanText.ServerCleanTextNormalized | mdconverter-mcp/src/mdconverter_mcp/server.py:125-138 | for text without `&`, `_clean_text` output has single interior spaces only and equals the words of the input joined by single spaces |
| CleanText.ServerCleanTextWords | mdconverter-mcp/src/mdconverter_mcp/server.py:125-138 | for any text, `_clean_text` decodes the entities of the words joined by single spaces |
| CleanText.ServerCleanTextFixpoint | mdconverter-mcp/src/mdconverter_mcp/server.py:125-138 | normalised text without `&` is a fixed point of `_clean_text` |
| CleanText.RemoveControls | MDConverter/src/mdconverter/utils.py:202 | the result has no character of `[\x00-\x08\x0B\x0C\x0E-\x1F\x7F]`, and control-free text is unchanged |
| CleanText.UtilsCleanText | MDConverter/src/mdconverter/utils.py:182-204 | the package's cleaner never returns a control character |
| CleanText.UtilsCleanTextControlFree | MDConverter/src/mdconverter/utils.py:192-199 | for control-free text the result is normalised, has the same non-whitespace characters in the same order, and is exactly the words of the input joined by single spaces |
| CleanText.UtilsCleanTextWords | MDConverter/src/mdconverter/utils.py:182-204 | for any text, `clean_text` removes the control characters from the words joined by single spaces |
| CleanText.UtilsCleanTextFixpoint | MDConverter/src/mdconverter/utils.py:182-204 | normalised control-free text is a fixed point |
| CleanText.UtilsCleanTextIdempotent | MDConverter/src/mdconverter/utils.py:182-204 | on control-free text, cleaning twice is cleaning once |
| CleanTextExamples.UtilsCleanTextTwoWords | MDConverter/src/mdconverter/utils.py:195-199 | two words surrounded and separated by whitespace runs give the words joined by one space (`  test   text  ` gives `test text`) |
| CleanTextExamples.UtilsCleanTextKeepsEntity | MDConverter/src/mdconverter/utils.py:195-202 | `a&nbsp;b` comes back unchanged: the package's cleaner decodes no entity |
| CleanTextExamples.ServerCleanTextDecodesSpace | mdconverter-mcp/src/mdconverter_mcp/server.py:132 | the server's cleaner turns `a&nbsp;b` into `a b` |
| CleanTextExamples.UtilsCleanTextControlGap | MDConverter/src/mdconverter/utils.py:195-202 | a control character between single spaces is removed after the collapse, leaving a double space |
| Validation.Prefix100 | MDConverter/src/mdconverter/utils.py:83 | `read(100)`: at most 100 characters, a prefix of the text, exactly 100 when there are that many |
| Validation.ValidateHtmlFile | mdconverter-mcp/src/mdconverter_mcp/server.py:372-405 | a path is valid exactly when the message is `Valid HTML file`, and only a regular, non-empty file with a `.html` or `.htm` suffix in any case is valid |
| Validation.ValidIff | MDConverter/src/mdconverter/utils.py:60-96 | a path is valid exactly when every check passes, and exactly then the message is `Valid HTML file` |
| Validation.FirstFailureWins | mdconverter-mcp/src/mdconverter_mcp/server.py:377-388 | each of the existence, regular-file, suffix and empty-file checks, when it is the first to fail, decides the message |
| MarkdownFix.CollapseNewlines | mdconverter-mcp/src/mdconverter_mcp/server.py:254 | step 1 empties only the empty string and keeps a leading character other than a newline |
| MarkdownFix.CollapseNewlinesBound | mdconverter-mcp/src/mdconverter_mcp/server.py:254 | after step 1 no three newlines are adjacent |
| MarkdownFix.CollapseNewlinesIdentity | mdconverter-mcp/src/mdconverter_mcp/server.py:254 | step 1 changes nothing when no three newlines are adjacent |
| MarkdownFix.HeadingGapInsertsNewlines | mdconverter-mcp/src/mdconverter_mcp/server.py:255 | step 2 only inserts newlines: with newlines dropped, input and output agree |
| MarkdownFix.HeadingLineGapInsertsNewlines | mdconverter-mcp/src/mdconverter_mcp/server.py:256 | step 3 only inserts newlines |
| MarkdownFix.HeadingLineGapOneLine | mdconverter-mcp/src/mdconverter_mcp/server.py:256 | step 3 leaves a single line alone |
| MarkdownFix.ListItemGapIdentity | mdconverter-mcp/src/mdconverter_mcp/server.py:257 | step 4 changes nothing when no newline is followed by a list-marker character |
| MarkdownFix.QuoteGapInsertsNewlines | mdconverter-mcp/src/mdconverter_mcp/server.py:258 | step 5 only inserts newlines |
| MarkdownFix.QuoteGapIdentity | mdconverter-mcp/src/mdconverter_mcp/server.py:258 | step 5 changes nothing when no newline is followed by `>` |
| MarkdownFix.CollapseBlanksShape | mdconverter-mcp/src/mdconverter_mcp/server.py:259 | after step 6 there is no tab and no two adjacent spaces |
| MarkdownFix.CollapseBlanksIdentity | mdconverter-mcp/src/mdconverter_mcp/server.py:259 | step 6 changes nothing on text without tabs or double spaces |
| MarkdownFix.FixMarkdownShape | mdconverter-mcp/src/mdconverter_mcp/server.py:252-262 | the tidied Markdown has no tab, no two adjacent spaces and no whitespace at either end |
| MarkdownFix.FixMarkdown | mdconverter-mcp/src/mdconverter_mcp/server.py:252-262 | the six substitutions and the strip leave no tab, no two adjacent spaces and no whitespace at either end |
| MarkdownFixExamples.HeadingAfterBlankLine | mdconverter-mcp/src/mdconverter_mcp/server.py:254-260 | `a\n\n# x` has no triple newline, yet the whole pass returns `a\n\n\n# x`: later steps undo step 1 |
| Metadata.PutKeys | mdconverter-mcp/src/mdconverter_mcp/server.py:185-195 | dict assignment keeps the key order and appends a new key at the end |
| Metadata.PutLookup | mdconverter-mcp/src/mdconverter_mcp/server.py:185-195 | after `d[k] = v`, `k` maps to `v` and every other key to its old value |
| Metadata.MetaKeyNotTitle | mdconverter-mcp/src/mdconverter_mcp/server.py:184-195 | no `<meta>` name or property is filed under `title` |
| Metadata.ExtractMetadata | mdconverter-mcp/src/mdconverter_mcp/server.py:170-197 | the loop over the `<meta>` tags computes the title entry followed by the fold of every tag |
| Metadata.FoldValue | mdconverter-mcp/src/mdconverter_mcp/server.py:179-195 | later tags overwrite earlier ones: a key's value comes from the last tag filed under it |
| Metadata.FoldKeyMembers | mdconverter-mcp/src/mdconverter_mcp/server.py:179-195 | the keys are exactly those present before the loop and those some tag is filed under |
| Metadata.FoldKeysGrow | mdconverter-mcp/src/mdconverter_mcp/server.py:179-195 | the keys after any prefix of the tags are a prefix of the final keys, so a key's position is fixed by its first occurrence |
| Metadata.TitleFirst | mdconverter-mcp/src/mdconverter_mcp/server.py:174-176 | with a `<title>`, `title` is the first key and holds the cleaned title text |
| Metadata.MetadataKeys | mdconverter-mcp/src/mdconverter_mcp/server.py:172-197 | every key is one of `title`, `description`, `author`, `keywords`, `og_title`, `url`, `published`, and no key occurs twice |
| Metadata.MetadataOf | mdconverter-mcp/src/mdconverter_mcp/server.py:170-197 | the reference for `_extract_metadata`: the title entry, then the fold over the `<meta>` tags in document order; `TitleFirst`, `FoldValue`, `FoldKeysGrow` and `MetadataKeys` state its properties |
| Content.SelectOne | mdconverter-mcp/src/mdconverter_mcp/server.py:220 | `select_one` finds something exactly when `select` does |
| Content.SelectOneFirst | mdconverter-mcp/src/mdconverter_mcp/server.py:220 | what `select_one` returns is the first matching element in document order |
| Content.PruneRemoves | mdconverter-mcp/src/mdconverter_mcp/server.py:209-211 | after decomposing the matches of a selector, nothing matches it |
| Content.PruneKeepsNoneMatch | mdconverter-mcp/src/mdconverter_mcp/server.py:209-211 | pruning with one selector never brings back a match of another |
| Content.PruneSelectors | mdconverter-mcp/src/mdconverter_mcp/server.py:201-211 | the pruning loop leaves no element matching any blocklist selector |
| Content.ChooseMain | mdconverter-mcp/src/mdconverter_mcp/server.py:213-225 | the chosen element is the first match of the earliest selector that matches anything, else the first `<body>`, else the whole document |
| Content.ExtractMainContent | mdconverter-mcp/src/mdconverter_mcp/server.py:199-225 | the pruned tree has no blocklisted element, and the main element is chosen from it as above |
| Content.MainOfIsChoice | mdconverter-mcp/src/mdconverter_mcp/server.py:219-225 | the plain-function reference `MainOf` makes exactly that choice |
| Content.MainChoiceUnique | mdconverter-mcp/src/mdconverter_mcp/server.py:219-225 | the choice is unique |
| Content.MainChoiceIsMainOf | mdconverter-mcp/src/mdconverter_mcp/server.py:219-225 | any element satisfying the choice rule is `MainOf` |
| Content.MainOf | mdconverter-mcp/src/mdconverter_mcp/server.py:213-225 | the reference for the main-element choice: the first match of the earliest matching selector, else the first `<body>`, else the document; `MainOfIsChoice` and `MainChoiceIsMainOf` state that it is exactly that choice |
| Content.CodeLanguage | mdconverter-mcp/src/mdconverter_mcp/server.py:232-241 | the language is that of the first `language-` or `lang-` class token, and empty when there is none |
| Content.FenceRoundTrip | mdconverter-mcp/src/mdconverter_mcp/server.py:244-247 | the fence is the three backticks, the language, a newline, the code, a newline and three backticks, and both parts read back |
| Content.CodeBlocksDone | mdconverter-mcp/src/mdconverter_mcp/server.py:229-247 | after the rewrite no `<pre>` has a `<code>` below it |
| Content.CodeBlocksNoCode | mdconverter-mcp/src/mdconverter_mcp/server.py:229-247 | the rewrite never adds a `<code>` element |
| Content.ProcessCodeBlocks | mdconverter-mcp/src/mdconverter_mcp/server.py:227-250 | the reference for `_process_code_blocks` on the whole tree; `CodeBlocksDone` and `CodeBlocksNoCode` state its effect |
| Assembly.EscapeQuotes | mdconverter-mcp/src/mdconverter_mcp/server.py:340 | every quote in an escaped value is preceded by a backslash |
| Assembly.EscapeRoundTrip | mdconverter-mcp/src/mdconverter_mcp/server.py:340 | unescaping an escaped value gives it back |
| Assembly.EntryLineRoundTrip | mdconverter-mcp/src/mdconverter_mcp/server.py:340-341 | a frontmatter line starts with its key and `: "`, ends with `"`, and its middle unescapes to the value |
| Assembly.FrontLines | mdconverter-mcp/src/mdconverter_mcp/server.py:337-343 | the frontmatter loop computes the frontmatter block |
| Assembly.FrontBlockLines | mdconverter-mcp/src/mdconverter_mcp/server.py:337-343 | the frontmatter is `---`, one line per entry in dictionary order, `---` and a blank line |
| Assembly.InfoLines | mdconverter-mcp/src/mdconverter_mcp/server.py:349-363 | the information part computes the information block |
| Assembly.CreateFinalMarkdown | mdconverter-mcp/src/mdconverter_mcp/server.py:333-369 | the document is the header lines, `---`, a blank line and the content, joined with newlines |
| Assembly.FinalLines | mdconverter-mcp/src/mdconverter_mcp/server.py:333-369 | the reference for the lines of `_create_final_markdown`: the header, then `---`, a blank line and the content; `FrontmatterLayout`, `NoFrontmatter` and `EndsWithContent` state its shape |
| Assembly.FrontmatterLayout | mdconverter-mcp/src/mdconverter_mcp/server.py:337-343 | with `add_metadata` set and metadata present, the document opens with the frontmatter block |
| Assembly.NoFrontmatter | mdconverter-mcp/src/mdconverter_mcp/server.py:337-349 | otherwise there is no frontmatter, and the header is the title block and the information block |
| Assembly.BlockHeads | mdconverter-mcp/src/mdconverter_mcp/server.py:345-351 | the title block exists exactly when there is a title and opens `# <title>`; the information block exists exactly when author, published or url is present and opens `## Article Information` |
| Assembly.TitleLayout | mdconverter-mcp/src/mdconverter_mcp/server.py:345-347 | right after the frontmatter comes `# <title>` exactly when there is a title, whatever `add_metadata` is |
| Assembly.InfoLayout | mdconverter-mcp/src/mdconverter_mcp/server.py:349-351 | after the title block comes `## Article Information` exactly when author, published or url is present |
| Assembly.EndsWithContent | mdconverter-mcp/src/mdconverter_mcp/server.py:365-369 | the document always ends with `---`, a blank line and the content |
| ImageRefs.First | mdconverter-mcp/src/mdconverter_mcp/server.py:160-161 | the first candidate with the property: it exists exactly when some candidate has it, and no earlier one does |
| ImageRefs.ImageResultCases | mdconverter-mcp/src/mdconverter_mcp/server.py:140-168 | empty gives empty; `http://` or `https://` is kept; `data:` gives empty; a local path gives `images/<basename>` when it is found, else is kept; without an assets folder it is kept |
| ImageRefs.SourceFirst | mdconverter-mcp/src/mdconverter_mcp/server.py:153-161 | a local image is found only with an assets folder, through the first of the three candidates that exists, and is not found exactly when none exists |
| ImageRefs.ImageFsCopyOnce | mdconverter-mcp/src/mdconverter_mcp/server.py:162-164 | processing keeps every file and directory and can create only the destination; an existing destination is never overwritten |
| ImageRefs.ImageResult | mdconverter-mcp/src/mdconverter_mcp/server.py:140-168 | the new `src` is empty, the old `src`, or `images/<basename>` |
| ImageRefs.ImageFs | mdconverter-mcp/src/mdconverter_mcp/server.py:140-168 | processing one image keeps the directories and every existing file with its content |
| ImageRefs.ImageFsCopies | mdconverter-mcp/src/mdconverter_mcp/server.py:160-166 | a found image with a free destination is copied there with the found file's content, and the reference becomes `images/<basename>` |
| ImageRefs.RelativeDropsRuns | mdconverter-mcp/src/mdconverter_mcp/server.py:156-157 | `lstrip('./')` turns both `../x` and `./x` into `x` |
| ImageRefs.ImageStepAttrs | mdconverter-mcp/src/mdconverter_mcp/server.py:285-292 | an `<img>` without `src` is untouched; one with `src` gets a truthy `alt` (an existing one kept); a data URI keeps its `src`; other attributes are kept |
| ImageRefs.ImagePass | mdconverter-mcp/src/mdconverter_mcp/server.py:284-292 | the loop yields one attribute map per image |
| ImageRefs.ImagePassStep | mdconverter-mcp/src/mdconverter_mcp/server.py:284-292 | the i-th output is the step applied to the i-th image, with the filesystem left by the images before it |
| ImageRefs.ImagePassFiles | mdconverter-mcp/src/mdconverter_mcp/server.py:284-292 | the loop keeps every existing file and directory and creates only image destinations |
| ImageRefs.WithImagesRoundTrip | mdconverter-mcp/src/mdconverter_mcp/server.py:289-292 | writing attributes back into the tree and reading the images again gives those attributes, and the text is unchanged |
| ImageRefs.WithImagesIdentity | mdconverter-mcp/src/mdconverter_mcp/server.py:289-292 | writing back the attributes the tree already has changes nothing |
| ImageRefs.ImagesAreFindAll | mdconverter-mcp/src/mdconverter_mcp/server.py:284 | the model's image list is exactly what `find_all('img')` visits, in document order |
| Converter.FindAssetsFolder | mdconverter-mcp/src/mdconverter_mcp/server.py:89-102 | the assets folder is the first of `<stem>_files`, `<stem>_assets`, `<name>_files` that is an existing directory |
| Converter.FirstDirectory | mdconverter-mcp/src/mdconverter_mcp/server.py:97-102 | the pattern loop returns the first existing directory, or none |
| Converter.DefaultOutputBesideInput | mdconverter-mcp/src/mdconverter_mcp/server.py:76-79 | without a custom output directory the output goes next to the HTML file, named by the sanitised `<stem>.md` |
| Converter.DefaultNameComponent | mdconverter-mcp/src/mdconverter_mcp/server.py:78 | that name is a single non-empty path component |
| Converter.CustomOutputDir | mdconverter-mcp/src/mdconverter_mcp/server.py:70-75 | a custom output directory receives the sanitised name unless an output file is given |
| Converter.OutputFileFor | mdconverter-mcp/src/mdconverter_mcp/server.py:67-79 | the reference for the constructor's output rule: a non-empty `output_file`, else the sanitised `<stem>.md` in a custom output directory, else beside the HTML file; `DefaultOutputBesideInput` and `CustomOutputDir` state where it lands |
| Converter.HtmlToMarkdownConverter.constructor | mdconverter-mcp/src/mdconverter_mcp/server.py:59-87 | the configuration defaults, the base directory is the HTML file's parent, the assets folder is found, the output path follows the output rule, and the images directory (and the custom output directory) are created |
| Converter.HtmlToMarkdownConverter.ProcessImage | mdconverter-mcp/src/mdconverter_mcp/server.py:140-168 | `_process_image` returns the classified reference and changes the filesystem by the copy-once rule |
| Converter.HtmlToMarkdownConverter.FirstExisting | mdconverter-mcp/src/mdconverter_mcp/server.py:160-166 | the candidate loop picks the first candidate that exists |
| Converter.HtmlToMarkdownConverter.ImageLoop | mdconverter-mcp/src/mdconverter_mcp/server.py:284-292 | the loop over the `<img>` elements computes the image pass, filesystem included |
| Converter.HtmlToMarkdownConverter.RunImages | mdconverter-mcp/src/mdconverter_mcp/server.py:283-292 | the image stage runs only when `preserve_images` is set, and writes the results back into the tree |
| Converter.HtmlToMarkdownConverter.Convert | mdconverter-mcp/src/mdconverter_mcp/server.py:264-331 | the document is built in the order metadata (from the tree as parsed), images, code blocks, pruning and main element, rendering, tidying and assembly; it is written to the output file; `images_processed` is 0 |
| Converter.DocumentEndsWithContent | mdconverter-mcp/src/mdconverter_mcp/server.py:301-312 | the document ends with `---`, a blank line and the tidied rendering of the main element, which is itself tidy |
| Converter.DocumentOf | mdconverter-mcp/src/mdconverter_mcp/server.py:279-312 | the reference for the document `convert` writes: the final markdown of the metadata and the tidied rendering of the main element; `DocumentEndsWithContent`, `CleanHtmlIgnored` and `SameStages` state its properties |
| Converter.CleanHtmlIgnored | mdconverter-mcp/src/mdconverter_mcp/server.py:283-298 | the document and the filesystem do not depend on `clean_html` |
| Converter.SameStages | mdconverter-mcp/src/mdconverter_mcp/server.py:283-312 | only `preserve_images` and `add_metadata` affect the image stage and the document |
| Converter.ImageStageEffect | mdconverter-mcp/src/mdconverter_mcp/server.py:283-292 | the image stage keeps the text and every existing file; without `preserve_images`, or without a `src`, an image is untouched; otherwise it gets an `alt`; a data URI keeps its `src` |
| MdConfig.Fill | MDConverter/src/mdconverter/config.py:53-55 | filling keeps every supplied key and value, adds every default key, and adds nothing else |
| MdConfig.FillFirst | MDConverter/src/mdconverter/config.py:53-55 | a key the caller did not supply gets the value of its default |
| MdConfig.DefaultAt | MDConverter/src/mdconverter/config.py:20-55 | the same for the actual default list |
| MdConfig.OutputDirDefault | MDConverter/src/mdconverter/config.py:22 | without a supplied `output_dir` it is `output` |
| MdConfig.ImagesDirDefault | MDConverter/src/mdconverter/config.py:23 | without a supplied `images_dir` it is `assets/images` |
| MdConfig.PreserveImagesDefault | MDConverter/src/mdconverter/config.py:27 | without a supplied `preserve_images` it is `True` |
| MdConfig.LogLevelDefault | MDConverter/src/mdconverter/config.py:45 | without a supplied `log_level` it is `INFO` |
| MdConfig.Dict.constructor | MDConverter/src/mdconverter/config.py:15 | a dictionary holding the given entries |
| MdConfig.Config.constructor | MDConverter/src/mdconverter/config.py:13-16 | a non-empty dict is shared and receives the defaults in place; a missing or empty one is replaced by a fresh dict; the entries are the filled ones |
| MdConfig.Config.SetDefaults | MDConverter/src/mdconverter/config.py:18-55 | every default key the dict lacks is added, and no supplied value is changed |
| MdConfig.Config.Get | MDConverter/src/mdconverter/config.py:57-59 | the stored value when the key is present, else the given default |
| MdConfig.Config.Set | MDConverter/src/mdconverter/config.py:61-63 | afterwards the key reads back as the value and every other key is as before |
| MdConfig.Config.Update | MDConverter/src/mdconverter/config.py:65-67 | the keys of the update take its values and every other key is as before |
| MdConfig.Config.ToDict | MDConverter/src/mdconverter/config.py:69-71 | a fresh dict with the same entries, so changing it leaves the configuration alone |
| DocUtils.Take | document-image-extractor/utils.py:68 | `data[:n]` is a prefix of at most `n` bytes, exactly `n` when there are that many |
| DocUtils.TakeIsPrefix | document-image-extractor/utils.py:68-74 | comparing a slice with a signature tests for that prefix, also on short data |
| DocUtils.DetectImageFormat | document-image-extractor/utils.py:66-77 | the classifier is total: it always returns one of `.jpg`, `.png`, `.gif`, `.bmp`, `.img` |
| DocUtils.DetectExactly | document-image-extractor/utils.py:66-77 | `.jpg` exactly for the JFIF or Exif start, `.png` exactly for the PNG signature, `.gif` exactly for `GIF87a` or `GIF89a`, `.bmp` exactly for `BM`; fewer than 2 bytes give `.img` |
| DocUtils.GetFileExtension | document-image-extractor/utils.py:23-25 | the extension is empty or starts with a dot, and is lower case |
| DocUtils.SupportedByExtension | document-image-extractor/utils.py:28-31 | `stem.EXT` has the lower-cased extension, and is supported exactly when that is `.pdf` or `.docx` |
| DocUtils.IsSupportedDocument | document-image-extractor/utils.py:28-31 | the reference for the document check: the lower-cased extension is `.pdf` or `.docx`; `SupportedByExtension` and `HiddenNameListedButUnsupported` state what that accepts |
| DocUtils.HiddenNameListedButUnsupported | document-image-extractor/utils.py:28-43 | `.pdf` passes the listing filter but is not a supported document, since `splitext` gives it no extension |
| DocUtils.Documents | document-image-extractor/utils.py:39-44 | the documents of a listing are never more than its names |
| DocUtils.DocumentsConcat | document-image-extractor/utils.py:40-43 | the filter keeps listing order |
| DocUtils.DocumentsMembers | document-image-extractor/utils.py:40-43 | a path is listed exactly when some name ends in `.pdf` or `.docx` in any case, does not start with `~`, and joins to it |
| DocUtils.FindDocumentsInDirectory | document-image-extractor/utils.py:34-44 | a missing directory gives nothing; otherwise the loop computes the filtered listing |
| DocUtils.FormatSizeInfoRoundTrip | document-image-extractor/utils.py:90-94 | ` (WxH)` reads back to the dimensions it shows, and the empty label to none |
| DocUtils.FormatSizeInfo | document-image-extractor/utils.py:90-94 | the label is empty exactly when there are no dimensions |
| DocUtils.ArchiveEntries | document-image-extractor/utils.py:127-142 | the entries are `original_document/<doc>`, one `extracted_images/<basename>` per image in order, then `EXTRACTION_SUMMARY.txt` |
| DocUtils.ImageEntryRoundTrip | document-image-extractor/utils.py:135-136 | an image entry is the image's file name under `extracted_images/` |
| DocUtils.CreateArchive | document-image-extractor/utils.py:114-143 | no images gives no archive; otherwise the archive sits beside the document and holds the entries above |
| WordExtractor.MediaFiles | document-image-extractor/word_extractor.py:55 | every media entry is under `word/media/` |
| WordExtractor.MediaFilesMembers | document-image-extractor/word_extractor.py:55 | the media entries are exactly the entries under `word/media/` |
| WordExtractor.MediaFilesConcat | document-image-extractor/word_extractor.py:55 | they keep archive order |
| WordExtractor.ExtensionFor | document-image-extractor/word_extractor.py:90-95 | the extension is the entry's own, lower-cased, or, when it has none, the signature classifier's |
| WordExtractor.ExtractedNumbering | document-image-extractor/word_extractor.py:64-75 | the k-th written image is named from the k-th readable entry and the number k, so numbering has no gaps |
| WordExtractor.ImageName | document-image-extractor/word_extractor.py:98-99 | the reference for an image's name: the document's stem, `_image`, the two-digit number and the extension; `ExtractedNumbering` states the numbering |
| WordExtractor.FailedEntrySkipped | document-image-extractor/word_extractor.py:64-75 | an entry that cannot be read is skipped and the rest are numbered as if it were absent |
| WordExtractor.ExtractedByReadable | document-image-extractor/word_extractor.py:64-75 | the output depends only on the readable entries |
| WordExtractor.ExtractImages | document-image-extractor/word_extractor.py:20-81 | a missing file, a non-`.docx` name and an unreadable archive fail before anything is written; otherwise the images are written under `<stem>_image<NN><ext>` and their paths returned |
| WordExtractor.CountImagesInDocx | document-image-extractor/word_extractor.py:158-178 | the count is the number of media entries, after the same existence check |
| WordExtractor.CountMatchesExtraction | document-image-extractor/word_extractor.py:64-75 | with every media entry readable, extraction writes as many images as the count reports |
| WordExtractor.InfosAt | document-image-extractor/word_extractor.py:199-213 | the i-th record describes the i-th media entry, with its size in bytes |
| WordExtractor.ListMediaFiles | document-image-extractor/word_extractor.py:180-215 | a missing file fails with `FileNotFound`, an unreadable archive with `ReadFailed`; an unreadable entry fails the whole listing; an archive whose entries are all readable gives exactly one record per media entry, in order |
| MailParse.AfterColon | programming-languages/python/mail_client_access_fixed.py:93 | what follows the first colon is a suffix of the line |
| MailParse.ValueAfterKey | programming-languages/python/mail_client_access_fixed.py:93-97 | for `key:rest` the value is `rest` stripped, colons included |
| MailParse.FieldKey | programming-languages/python/mail_client_access_fixed.py:94-97 | the recognised key is the first in `elif` order that the line starts with, and none when no key matches |
| MailParse.ParseRecordList | programming-languages/python/mail_client_access_fixed.py:81-100 | the loop computes the record list, which is the list of records segment by segment; the empty result gives no records |
| MailParse.Records | programming-languages/python/mail_client_access_fixed.py:81-100 | the reference for what a list parser returns: the finished loop state over the split lines; `RecordsAreSegments` states its contents |
| MailParse.Classify | programming-languages/python/mail_client_access_fixed.py:89-97 | a stripped line opens a record exactly when it starts with the layout's opening key; otherwise it sets the first key of the `elif` chain it starts with, to the text after the first colon, stripped (a boolean for `read`); otherwise it is ignored |
| MailParse.RecordsAreSegments | programming-languages/python/mail_client_access_fixed.py:83-100 | a list parser returns one record per segment: the field lines before the first opening line, kept when they set some key, then each opening line with the field lines up to the next one |
| MailParse.FieldsLastWins | programming-languages/python/mail_client_access_fixed.py:91-97 | within a record, a key is present exactly when the record opened with it or a field line of the record sets it, and the last such line gives its value, so a repeated field keeps its last value |
| MailParse.LeadingSegment | programming-languages/python/mail_client_access_fixed.py:87-99 | the field lines before the first opening line form a record exactly when they set a key; it is then the first record and the only one without the opening key |
| MailParse.LeadingRecord | programming-languages/python/mail_client_access_fixed.py:87-99 | the same for the lines of any list layout whose opening key is not also a field key, as in the account, mailbox and message layouts |
| MailParse.ParseMessageContent | programming-languages/python/mail_client_access_fixed.py:215-234 | the empty result gives the empty record; otherwise every recognised line sets its key |
| MailParse.RecordCount | programming-languages/python/mail_client_access_fixed.py:88-99 | the number of records is the number of opening lines, plus one when field lines come before the first of them |
| MailParse.IgnoredLine | programming-languages/python/mail_client_access_fixed.py:89-97 | a line that neither opens a record nor carries a known key changes nothing |
| MailParse.LastLineWins | programming-languages/python/mail_client_access_fixed.py:220-233 | in the message record a key is present exactly when some line carries it, and its value comes from the last such line |
| MailParse.StepKey | programming-languages/python/mail_client_access_fixed.py:220-233 | one line sets the key it carries and leaves the others as they were |
| MailParse.UnreadCount | programming-languages/python/mail_client_access_fixed.py:301-305 | no result or a non-integer result counts 0; otherwise the parsed integer |
| MailParse.ParseInt | programming-languages/python/mail_client_access_fixed.py:303-305 | the reference for `int(result)` on ASCII text: surrounding whitespace, an optional sign, then digits with single underscores between them; `UnreadCountRoundTrip` states that a printed count reads back |
| MailParse.UnreadCountRoundTrip | programming-languages/python/mail_client_access_fixed.py:302-303 | a count printed in decimal is read back |
| EmailReader.DetectProvider | programming-languages/python/email_reader.py:37-50 | a provider other than `auto` is kept; in auto mode an address without `@` fails, and otherwise the lower-cased domain is classified |
| EmailReader.Classify | programming-languages/python/email_reader.py:43-50 | `gmail` exactly when the domain contains `gmail`; `outlook` exactly when, failing that, it contains `outlook`, `hotmail` or `live`; `yahoo` after those; else `generic` |
| EmailReader.SplitHasSecond | programming-languages/python/email_reader.py:42 | `split('@')` has a second piece exactly when there is an `@` |
| EmailReader.DomainAfterAt | programming-languages/python/email_reader.py:42 | the domain of `user@host` is the lower-cased host |
| EmailReader.Domain | programming-languages/python/email_reader.py:42 | the reference for `email_address.split('@')[1].lower()`; `DomainAfterAt` and `DomainStopsAtSecondAt` state what it picks out |
| EmailReader.DomainStopsAtSecondAt | programming-languages/python/email_reader.py:42 | the domain stops at a second `@` |
| EmailReader.ImapServer | programming-languages/python/email_reader.py:52-76 | a known provider's entry, else the generic one; every entry uses port 993 over SSL |
| EmailReader.LimitIds | programming-languages/python/email_reader.py:250-251 | the kept ids are a suffix of the list: the last `min(limit, n)` for a positive limit, all for 0 or none, and all but the first `-limit` for a negative one |
| EmailReader.CollectedMatchesFetched | programming-languages/python/email_reader.py:253-258 | the k-th result is the k-th message that could be fetched, with its id |
| EmailReader.SearchEmails | programming-languages/python/email_reader.py:240-260 | nothing when not connected; otherwise the limited ids fetched in order, failed fetches skipped |
| MaxPathSum.Raise | algorithms/dynamic-programming/binary_tree_maximum_path_sum.py:19 | `max(max_sum, x)` is at least both and is one of them |
| MaxPathSum.Gain | algorithms/dynamic-programming/binary_tree_maximum_path_sum.py:12-21 | the gain of the empty tree is 0, and a node's gain is at least its value |
| MaxPathSum.Helper | algorithms/dynamic-programming/binary_tree_maximum_path_sum.py:10-21 | `helper` returns the gain and raises the running best to the best path through any node below |
| MaxPathSum.MaxPathSum | algorithms/dynamic-programming/binary_tree_maximum_path_sum.py:7-24 | the result is the best path of the tree |
| MaxPathSum.BestIsMaximum | algorithms/dynamic-programming/binary_tree_maximum_path_sum.py:15-19 | the best exists exactly for a non-empty tree, and is the largest value-plus-clipped-gains over its nodes, attained by one of them |
| MaxPathSum.Best | algorithms/dynamic-programming/binary_tree_maximum_path_sum.py:7-22 | the reference for the final `max_sum`: the larger of the best of both subtrees and the path bending at the root; `BestIsMaximum` states that it is the maximum over all nodes |
| MaxPathSum.BestAtLeastEveryValue | algorithms/dynamic-programming/binary_tree_maximum_path_sum.py:15-19 | the best is at least every node's value |
| MaxPathSum.ExampleIs42 | algorithms/dynamic-programming/binary_tree_maximum_path_sum.py:28-34 | the tree `[-10,9,20,null,null,15,7]` gives 42 |

## Left out

- HTML parsing (BeautifulSoup) and Markdown rendering (`markdownify`) are parameters of `Convert`, not modelled. The strip list passed to `md` is therefore not modelled either.
- CSS selectors are modelled only in the forms the converter uses: a tag, `.class`, `[attr="v"]` and `[attr*="v"]`.
- The DOM is a value, so in-place mutation and sharing (BeautifulSoup aliasing) are modelled as tree rewriting. The rewritten tree is returned, not mutated.
- Reading the HTML file, the UTF-8/Latin-1 fallback and writing the output are file-content values in `Files.Fs`. Character encoding is reduced to a flag saying whether a file decodes as UTF-8.
- Filesystem and decoding errors are not modelled: `mkdir` failures, `shutil.copy2` failures and the `except Exception` branches of `validate_html_file`. Nor are the copy's metadata and timestamps.
- `Converter.HtmlToMarkdownConverter.Convert`: `logger` calls are not modelled. `max_file_size` and `log_level` are configuration fields that `convert` never reads.
- The MCP server plumbing (tool listing, tool calls, JSON responses, temporary files, `main`) is asynchronous I/O glue.
- `MDConverter/src/mdconverter/converter.py` is outside the modelled core: the package's command line imports it. The package's `cli.py` is argument parsing.
- In the package's `utils.py`, `setup_logging`, `ensure_directory` and `get_file_size_mb` are left out as logging and filesystem calls. `format_file_size` is float formatting. `extract_domain_from_url` and `is_valid_url` defer to `urlparse`.
- `get_supported_formats` and `get_output_formats` are the constants `Validation.SupportedFormats` and `Validation.OutputFormats`. They have no contract of their own.
- `Config.from_file` and `save_to_file` are JSON and YAML I/O.
- A configuration value is one of string, boolean, integer, string list or `None`. That covers every default, but not arbitrary Python objects.
- In the extractor's `utils.py`, the timestamp is a parameter of `DocUtils.CreateArchive`. The summary text, logging, `get_image_dimensions` (PIL) and `DependencyChecker` are left out as I/O. The float sizes in `list_media_files` (`size_kb`) and in the printed messages are left out too.
- `get_docx_info` and the PDF extractor are left out: the first is metadata I/O and the second is a thin PyMuPDF wrapper.
- The zip writing in `create_archive` is modelled by its entry names. A write error, which makes it return `None`, is not modelled.
- `WordExtractor.ExtractImages`: `os.makedirs` of the output directory is not modelled. The `raise Exception` wrapping of a read failure is the single `ReadFailed` error.
- Whether a media entry can be read is a flag of the entry, standing in for `docx_zip.read` raising.
- The AppleScript calls of the Mail client and the IMAP connection, fetching and `email` parsing of the email reader are I/O. Fetching a message is a function parameter of `EmailReader.SearchEmails`.
- `EmailReader.SearchEmails`: the `except Exception` branch that returns `[]` is not modelled, and the ids are strings rather than bytes decoded with `decode()`.
- `str.lower()`, `int()` and `\d` are modelled for ASCII only. Python's `isspace()` set is modelled in full.
- `TreeNode` is a datatype, so trees are finite and unshared. The nonlocal `max_sum` is threaded through `Helper` as a value.
- The initial `float('-inf')` is `None`, so the empty tree's result is `None` rather than minus infinity.
- `MaxPathSum.Helper`: integers are unbounded, as Python's are.
- `_process_code_blocks`' `code.unwrap()` is left out, since `code.parent` is never the `<pre>` at that point.
- The `<pre>` elements are rewritten from the outside in. A `<pre>` nested inside a rewritten one disappears with the old children, as it does in the source.
- The candidate loop of `_process_image` and the image loop of `convert` are separate methods (`FirstExisting`, `ImageLoop`), called exactly where the source runs those loops.
- Sanitize.SanitizeFilename: "never begins or ends with a space or a dot" is stated only for names that were not truncated, because truncation can leave a trailing space (`Sanitize.TruncationCanEndWithSpace`).
- CleanText.UtilsCleanTextControlFree: the exact result (the words joined by single spaces) is stated for control-free input only. Removing a control character after the whitespace pass can leave a double space (`CleanTextExamples.UtilsCleanTextControlGap`). For any input, `CleanText.UtilsCleanTextWords` states the result as the control characters removed from the joined words.
- CleanText.ServerCleanTextNormalized: the exact result is stated for text without `&` only, because decoding `&nbsp;` can bring back a double or edge space. For any input, `CleanText.ServerCleanTextWords` states the result as the decoded joined words.
- Paths.PathParent, Paths.PathJoin, Paths.PathName, Paths.PathStem: un-normalised paths are not modelled. `pathlib` normalises them; the model compares raw strings and takes paths as already normal, with no `.` or empty components and no trailing separator. For example, `Path("out/").parent` is `.` but `PathParent("out/")` is `out`. Likewise `base_dir / "sub//a.png"` and `"img/./a.png"` differ in the model from the paths `pathlib` would build. Such paths can come from a caller or from an HTML `src`.
