/**
 * Path arithmetic on POSIX path strings: the `os.path` functions
 * (`basename`, `dirname`, `splitext`, `join`) and the parts of `pathlib`
 * (`name`, `stem`, `suffix`, `parent`, `/`) that the modelled code uses.
 * Paths are taken as already normal: no `.` or empty components and no
 * trailing separator.
 */
module Paths {
  import opened Text

  /** `os.path.basename`: what follows the last `/`. */
  function Basename(p: string): (r: string)
    ensures forall i :: 0 <= i < |r| ==> r[i] != '/'
    ensures EndsWith(p, r)
  {
    var i := LastIndexOf(p, '/');
    p[i + 1..]
  }

  /** `os.path.dirname`: what precedes the last `/`, without trailing separators unless it is all separators. */
  function Dirname(p: string): string {
    var head := p[..LastIndexOf(p, '/') + 1];
    if head != "" && exists i :: 0 <= i < |head| && head[i] != '/' then
      RStripBy(head, c => c == '/')
    else head
  }

  /** True when the last component of `p` has a non-dot character before position `dot`. */
  predicate HasStemBefore(p: string, start: nat, dot: nat)
    requires start <= dot <= |p|
  {
    exists i :: start <= i < dot && p[i] != '.'
  }

  /**
   * `os.path.splitext`: the extension starts at the last dot of the last
   * component, provided that component has a non-dot character before it;
   * leading dots never start an extension.
   */
  function Splitext(p: string): (r: (string, string))
    ensures r.0 + r.1 == p
    ensures r.1 == [] || r.1[0] == '.'
    ensures forall i :: 0 <= i < |r.1| ==> r.1[i] != '/'
  {
    var sep := LastIndexOf(p, '/');
    var dot := LastIndexOf(p, '.');
    if dot > sep && HasStemBefore(p, sep + 1, dot) then
      assert p[..dot] + p[dot..] == p;
      (p[..dot], p[dot..])
    else (p, "")
  }

  lemma {:induction false} SplitextNoDot(p: string)
    requires forall i :: 0 <= i < |p| ==> p[i] != '.'
    ensures Splitext(p) == (p, "")
  {
  }

  /** `posixpath.join(a, b)` for two arguments. */
  function OsJoin(a: string, b: string): string {
    if StartsWith(b, "/") then b
    else if a == "" || EndsWith(a, "/") then a + b
    else a + "/" + b
  }

  /** `pathlib` `a / b`: an absolute `b` replaces `a`; `.` and empty parts vanish. */
  function PathJoin(a: string, b: string): string {
    if StartsWith(b, "/") then b
    else if b == "" then a
    else if a == "." || a == "" then b
    else if EndsWith(a, "/") then a + b
    else a + "/" + b
  }

  /** `PurePath.name`. */
  function PathName(p: string): string {
    if p == "." then "" else Basename(p)
  }

  /** `PurePath.parent`. */
  function PathParent(p: string): string {
    var i := LastIndexOf(p, '/');
    if i == -1 then "."
    else if i == 0 then "/"
    else p[..i]
  }

  /** `PurePath.suffix` of a name: from its last dot, unless that dot is first or last. */
  function NameSuffix(name: string): (r: string)
    ensures r == [] || r[0] == '.'
  {
    var i := LastIndexOf(name, '.');
    if 0 < i < |name| - 1 then name[i..] else ""
  }

  /** `PurePath.stem` of a name: the name without its suffix. */
  function NameStem(name: string): (r: string)
    ensures r + NameSuffix(name) == name
  {
    var i := LastIndexOf(name, '.');
    if 0 < i < |name| - 1 then
      assert name[..i] + name[i..] == name;
      name[..i]
    else name
  }

  function PathSuffix(p: string): string {
    NameSuffix(PathName(p))
  }

  function PathStem(p: string): string {
    NameStem(PathName(p))
  }

  /** Python's `s.lstrip(chars)`: drops a leading run of characters from a set, not a prefix. */
  function LStripChars(s: string, chars: set<char>): (r: string)
    ensures r == [] || r[0] !in chars
    ensures EndsWith(s, r)
  {
    LStripBy(s, c => c in chars)
  }

  lemma ParentNonEmpty(p: string)
    ensures PathParent(p) != ""
  {
  }

  /** Joining a single component onto a normal directory: the directory is the parent and the component the last part. */
  lemma JoinParent(dir: string, name: string)
    requires name != "" && forall i :: 0 <= i < |name| ==> name[i] != '/'
    requires dir != "" && (dir == "/" || !EndsWith(dir, "/"))
    ensures PathParent(PathJoin(dir, name)) == dir
    ensures Basename(PathJoin(dir, name)) == name
  {
    var p := PathJoin(dir, name);
    if dir == "." {
      assert p == name;
    } else if dir == "/" {
      assert p == "/" + name;
      assert p[1..] == name;
    } else {
      assert p == dir + "/" + name;
      assert p[|dir|] == '/' && p[..|dir|] == dir && p[|dir| + 1..] == name;
    }
  }
}
