/**
 * `_create_final_markdown`: the output document as a list of lines joined
 * by newlines. An optional YAML-style frontmatter block of every metadata
 * entry, the title heading, an "Article Information" block, then a rule and
 * the converted content.
 */
module Assembly {
  import opened Wrappers
  import opened Text
  import opened Metadata

  /** `value.replace('"', '\\"')`. */
  function Escape(v: string): string {
    ReplaceAll(v, "\"", "\\\"")
  }

  /** Reading an escaped value back: `replace('\\"', '"')`. */
  function Unescape(v: string): string {
    ReplaceAll(v, "\\\"", "\"")
  }

  /** An escaped value starts with a backslash or with the value's own first character, never with a quote. */
  lemma EscapeHead(v: string)
    ensures Escape(v) == [] <==> v == []
    ensures v != [] ==> Escape(v)[0] == (if v[0] == '"' then '\\' else v[0])
  {
  }

  /** Every quote in an escaped value is preceded by a backslash. */
  lemma {:induction false} EscapeQuotes(v: string)
    ensures var r := Escape(v);
            forall i :: 0 <= i < |r| && r[i] == '"' ==> i > 0 && r[i - 1] == '\\'
    decreases |v|
  {
    if v != [] {
      EscapeQuotes(v[1..]);
      var rest := Escape(v[1..]);
      var r := Escape(v);
      var head := if v[0] == '"' then "\\\"" else [v[0]];
      assert r == head + rest;
      EscapeHead(v[1..]);
      forall i | 0 <= i < |r| && r[i] == '"'
        ensures i > 0 && r[i - 1] == '\\'
      {
        if i > |head| {
          assert r[i] == rest[i - |head|] && r[i - 1] == rest[i - 1 - |head|];
        }
      }
    }
  }

  /** Escaping loses nothing: unescaping gives the value back. */
  lemma {:induction false} EscapeRoundTrip(v: string)
    ensures Unescape(Escape(v)) == v
    decreases |v|
  {
    if v != [] {
      EscapeRoundTrip(v[1..]);
      var rest := Escape(v[1..]);
      EscapeHead(v[1..]);
      if v[0] == '"' {
        assert Escape(v) == "\\\"" + rest;
        assert ("\\\"" + rest)[2..] == rest;
      } else {
        assert Escape(v) == [v[0]] + rest;
        assert ([v[0]] + rest)[1..] == rest;
        assert [v[0]] + v[1..] == v;
      }
    }
  }

  /** One frontmatter line: `key: "escaped value"`. */
  function EntryLine(key: string, value: string): string {
    key + ": \"" + Escape(value) + "\""
  }

  /** The frontmatter block, present when metadata is enabled and there is any. */
  function FrontBlock(addMetadata: bool, metadata: Dict): seq<string> {
    if addMetadata && metadata != [] then
      ["---"] + seq(|metadata|, i requires 0 <= i < |metadata| => EntryLine(metadata[i].0, metadata[i].1)) + ["---", ""]
    else []
  }

  function TitleBlock(metadata: Dict): seq<string> {
    var title := Lookup(metadata, "title");
    if title.Some? then ["# " + title.value, ""] else []
  }

  /** The labelled line for `key`, when the key is present. */
  function Labelled(metadata: Dict, key: string, prefix: string): seq<string> {
    var v := Lookup(metadata, key);
    if v.Some? then [prefix + v.value] else []
  }

  predicate HasInfo(metadata: Dict) {
    Lookup(metadata, "author").Some? || Lookup(metadata, "published").Some? || Lookup(metadata, "url").Some?
  }

  function InfoBlock(metadata: Dict): seq<string> {
    if HasInfo(metadata) then
      ["## Article Information", ""]
      + Labelled(metadata, "author", "**Author:** ")
      + Labelled(metadata, "published", "**Published:** ")
      + Labelled(metadata, "url", "**Original URL:** ")
      + [""]
      + (if Lookup(metadata, "description").Some? then ["**Description:** " + Lookup(metadata, "description").value, ""] else [])
    else []
  }

  /** Everything before the closing rule. */
  function Header(addMetadata: bool, metadata: Dict): seq<string> {
    FrontBlock(addMetadata, metadata) + TitleBlock(metadata) + InfoBlock(metadata)
  }

  function FinalLines(addMetadata: bool, metadata: Dict, content: string): seq<string> {
    Header(addMetadata, metadata) + ["---", "", content]
  }

  /** The frontmatter part of `_create_final_markdown`: one line per metadata entry, in order. */
  method FrontLines(addMetadata: bool, metadata: Dict) returns (lines: seq<string>)
    ensures lines == FrontBlock(addMetadata, metadata)
  {
    lines := [];
    if addMetadata && metadata != [] {
      lines := lines + ["---"];
      var i := 0;
      while i < |metadata|
        invariant 0 <= i <= |metadata|
        invariant lines == ["---"] + seq(i, j requires 0 <= j < i => EntryLine(metadata[j].0, metadata[j].1))
      {
        var safe := ReplaceAll(metadata[i].1, "\"", "\\\"");
        lines := lines + [metadata[i].0 + ": \"" + safe + "\""];
        i := i + 1;
      }
      lines := lines + ["---", ""];
    }
  }

  /** The "Article Information" part of `_create_final_markdown`. */
  method InfoLines(metadata: Dict) returns (lines: seq<string>)
    ensures lines == InfoBlock(metadata)
  {
    lines := [];
    if HasInfo(metadata) {
      lines := lines + ["## Article Information", ""];
      var author := Lookup(metadata, "author");
      if author.Some? {
        lines := lines + ["**Author:** " + author.value];
      }
      assert lines == ["## Article Information", ""] + Labelled(metadata, "author", "**Author:** ");
      var published := Lookup(metadata, "published");
      if published.Some? {
        lines := lines + ["**Published:** " + published.value];
      }
      ghost var people := lines;
      var url := Lookup(metadata, "url");
      if url.Some? {
        lines := lines + ["**Original URL:** " + url.value];
      }
      assert lines == people + Labelled(metadata, "url", "**Original URL:** ");
      lines := lines + [""];
      ghost var labelled := lines;
      var description := Lookup(metadata, "description");
      if description.Some? {
        lines := lines + ["**Description:** " + description.value, ""];
      }
      assert labelled == ["## Article Information", ""]
        + Labelled(metadata, "author", "**Author:** ")
        + Labelled(metadata, "published", "**Published:** ")
        + Labelled(metadata, "url", "**Original URL:** ")
        + [""];
    }
  }

  /** `_create_final_markdown`. */
  method CreateFinalMarkdown(addMetadata: bool, metadata: Dict, content: string) returns (doc: string)
    ensures doc == Join(FinalLines(addMetadata, metadata, content), "\n")
  {
    var lines := FrontLines(addMetadata, metadata);
    var title := Lookup(metadata, "title");
    if title.Some? {
      lines := lines + ["# " + title.value, ""];
    }
    assert lines == FrontBlock(addMetadata, metadata) + TitleBlock(metadata);
    var info := InfoLines(metadata);
    lines := lines + info;
    assert lines == Header(addMetadata, metadata);
    lines := lines + ["---", "", content];
    doc := Join(lines, "\n");
  }

  /** The document always ends with the rule, a blank line and the content. */
  lemma EndsWithContent(addMetadata: bool, metadata: Dict, content: string)
    ensures EndsWith(Join(FinalLines(addMetadata, metadata, content), "\n"), "---\n\n" + content)
  {
    var header := Header(addMetadata, metadata);
    var tail := ["---", "", content];
    assert Join(tail, "\n") == "---\n\n" + content by {
      assert tail[1..] == ["", content] && tail[1..][1..] == [content];
      assert Join(tail[1..], "\n") == "" + "\n" + content;
    }
    if header != [] {
      JoinAppend(header, tail, "\n");
    } else {
      assert FinalLines(addMetadata, metadata, content) == tail;
    }
  }

  /** The frontmatter block: an opening rule, one line per entry in dictionary order, a closing rule and a blank line. */
  lemma FrontBlockLines(addMetadata: bool, metadata: Dict)
    requires addMetadata && metadata != []
    ensures var front := FrontBlock(addMetadata, metadata);
            |front| == |metadata| + 3 && front[0] == "---"
            && (forall i :: 0 <= i < |metadata| ==> front[i + 1] == EntryLine(metadata[i].0, metadata[i].1))
            && front[|metadata| + 1] == "---" && front[|metadata| + 2] == ""
  {
    var entries := seq(|metadata|, i requires 0 <= i < |metadata| => EntryLine(metadata[i].0, metadata[i].1));
    var front := FrontBlock(addMetadata, metadata);
    assert front == ["---"] + entries + ["---", ""];
    forall i | 0 <= i < |metadata|
      ensures front[i + 1] == EntryLine(metadata[i].0, metadata[i].1)
    {
      assert front[i + 1] == entries[i];
    }
  }

  /** With metadata enabled and present, the document opens with the frontmatter block. */
  lemma FrontmatterLayout(addMetadata: bool, metadata: Dict, content: string)
    requires addMetadata && metadata != []
    ensures var lines := FinalLines(addMetadata, metadata, content);
            |lines| > |metadata| + 2 && lines[0] == "---"
            && (forall i :: 0 <= i < |metadata| ==> lines[i + 1] == EntryLine(metadata[i].0, metadata[i].1))
            && lines[|metadata| + 1] == "---" && lines[|metadata| + 2] == ""
  {
    FrontBlockLines(addMetadata, metadata);
    Layout(FrontBlock(addMetadata, metadata), TitleBlock(metadata), InfoBlock(metadata), ["---", "", content]);
  }

  /** Where each block sits in the concatenation of four blocks. */
  lemma Layout(a: seq<string>, b: seq<string>, c: seq<string>, d: seq<string>)
    ensures var s := a + b + c + d;
            |s| == |a| + |b| + |c| + |d|
            && (forall i :: 0 <= i < |a| ==> s[i] == a[i])
            && (forall i :: 0 <= i < |b| ==> s[|a| + i] == b[i])
            && (forall i :: 0 <= i < |c| ==> s[|a| + |b| + i] == c[i])
  {
  }

  /** The lines found where the second and the third of four blocks begin. */
  lemma BlockStarts(a: seq<string>, b: seq<string>, c: seq<string>, d: seq<string>)
    requires d != []
    ensures var s := a + b + c + d;
            |a| + |b| < |s|
            && s[|a|] == (if b != [] then b[0] else if c != [] then c[0] else d[0])
            && s[|a| + |b|] == (if c != [] then c[0] else d[0])
  {
    var s := a + b + c + d;
    assert s == a + (b + (c + d));
    assert s[|a|] == (b + (c + d))[0];
    assert s[|a| + |b|] == (c + d)[0];
  }

  /** The title block and the information block each open with a heading. */
  lemma BlockHeads(metadata: Dict)
    ensures TitleBlock(metadata) != [] <==> Lookup(metadata, "title").Some?
    ensures TitleBlock(metadata) != [] ==> TitleBlock(metadata)[0] == "# " + Lookup(metadata, "title").value
    ensures InfoBlock(metadata) != [] <==> HasInfo(metadata)
    ensures InfoBlock(metadata) != [] ==> InfoBlock(metadata)[0] == "## Article Information"
  {
  }

  /**
   * Without frontmatter the header is the title and information blocks
   * alone, so it is empty or opens with a heading, never with a rule.
   */
  lemma NoFrontmatter(addMetadata: bool, metadata: Dict)
    requires !(addMetadata && metadata != [])
    ensures var h := Header(addMetadata, metadata);
            h == TitleBlock(metadata) + InfoBlock(metadata) && (h == [] || StartsWith(h[0], "#"))
  {
    BlockHeads(metadata);
    var h := Header(addMetadata, metadata);
    assert h == TitleBlock(metadata) + InfoBlock(metadata);
    if TitleBlock(metadata) != [] {
      assert h[0] == TitleBlock(metadata)[0];
    } else if InfoBlock(metadata) != [] {
      assert h[0] == InfoBlock(metadata)[0];
    }
  }

  /** Right after the frontmatter comes the title heading, exactly when there is a title. */
  lemma TitleLayout(addMetadata: bool, metadata: Dict, content: string)
    ensures var lines := FinalLines(addMetadata, metadata, content);
            var f := |FrontBlock(addMetadata, metadata)|;
            var title := Lookup(metadata, "title");
            f < |lines| && (title.Some? <==> StartsWith(lines[f], "# "))
            && (title.Some? ==> lines[f] == "# " + title.value)
  {
    BlockHeads(metadata);
    var tail := ["---", "", content];
    var front, title, info := FrontBlock(addMetadata, metadata), TitleBlock(metadata), InfoBlock(metadata);
    BlockStarts(front, title, info, tail);
    var lines := FinalLines(addMetadata, metadata, content);
    assert lines == front + title + info + tail;
    var f := |front|;
    if title != [] {
      var v := Lookup(metadata, "title").value;
      assert lines[f] == "# " + v;
      TitleLine(v);
    } else if info != [] {
      assert lines[f] == "## Article Information";
      NotTitleLine(lines[f]);
    } else {
      assert lines[f] == "---";
      NotTitleLine(lines[f]);
    }
  }

  /**
   * After the title comes the "Article Information" heading, exactly when an
   * author, a publication date or a URL is known.
   */
  lemma InfoLayout(addMetadata: bool, metadata: Dict, content: string)
    ensures var lines := FinalLines(addMetadata, metadata, content);
            var n := |FrontBlock(addMetadata, metadata)| + |TitleBlock(metadata)|;
            n < |lines| && (HasInfo(metadata) <==> lines[n] == "## Article Information")
  {
    BlockHeads(metadata);
    var tail := ["---", "", content];
    var front, title, info := FrontBlock(addMetadata, metadata), TitleBlock(metadata), InfoBlock(metadata);
    BlockStarts(front, title, info, tail);
    var lines := FinalLines(addMetadata, metadata, content);
    assert lines == front + title + info + tail;
  }

  lemma TitleLine(v: string)
    ensures StartsWith("# " + v, "# ")
  {
    assert ("# " + v)[..2] == "# ";
  }

  lemma NotTitleLine(s: string)
    requires |s| >= 2 && s[1] != ' '
    ensures !StartsWith(s, "# ")
  {
    assert s[..2][1] == s[1];
  }

  /** A frontmatter line gives back its key and, once unescaped, its value. */
  lemma EntryLineRoundTrip(key: string, value: string)
    ensures var line := EntryLine(key, value);
            |line| >= |key| + 4 && line[..|key|] == key && line[|key|..|key| + 3] == ": \""
            && line[|line| - 1] == '"' && Unescape(line[|key| + 3..|line| - 1]) == value
  {
    var line := EntryLine(key, value);
    assert line == key + ": \"" + Escape(value) + "\"";
    assert line[|key| + 3..|line| - 1] == Escape(value);
    EscapeRoundTrip(value);
  }
}
