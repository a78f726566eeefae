/**
 * The file-presence predicate of the auditor (`has_file`) over an abstract
 * directory, together with the two pieces of Rust path handling it relies on:
 * the extension of a file name and the final component of a path.
 */
module Listing {
  import opened Wrappers
  import opened Sequences

  /** One immediate child of a directory, as `read_dir` lists it.
      `resolves` is false for a dangling symbolic link: such a child is listed,
      but `Path::exists` (which follows links) reports it absent. */
  datatype Entry = Entry(name: string, resolves: bool)

  /** A repository root directory.
      `listable`: `read_dir` succeeds (the glob branch of `has_file`).
      `searchable`: the metadata of a child can be looked up (the exact-name
      branch, which calls `Path::exists` and never lists the directory). */
  datatype Dir = Dir(entries: seq<Entry>, listable: bool, searchable: bool)

  // ---------------------------------------------------------------------------
  // Extensions, as Rust's `Path::extension` computes them
  // ---------------------------------------------------------------------------

  /** Position of the last '.' in `name`, if any. */
  function LastDot(name: string): (r: Option<nat>)
    ensures r.Some? ==> r.value < |name| && name[r.value] == '.'
    ensures r.Some? ==> forall k :: r.value < k < |name| ==> name[k] != '.'
    ensures r.None? ==> forall k :: 0 <= k < |name| ==> name[k] != '.'
  {
    if |name| == 0 then None
    else if name[|name| - 1] == '.' then Some(|name| - 1)
    else LastDot(name[..|name| - 1])
  }

  /** The extension of a file name: the text after the last '.', except that
      a name without a '.', a name whose only '.' is its first character, and
      the name ".." have none. */
  function Extension(name: string): (r: Option<string>)
    ensures r.None? <==> name == ".." || forall k :: 0 < k < |name| ==> name[k] != '.'
    ensures r.Some? ==> '.' !in r.value && |r.value| + 1 < |name|
    ensures r.Some? ==> name[|name| - |r.value| - 1] == '.' && name[|name| - |r.value|..] == r.value
  {
    if name == ".." then None
    else
      match LastDot(name)
      case None => None
      case Some(i) => if i == 0 then None else Some(name[i + 1..])
  }

  /** Reference definition: `name` ends in "." followed by `ext`, the text
      before that dot is not empty, `ext` holds no dot, and `name` is not "..". */
  predicate EndsWithExtension(name: string, ext: string) {
    name != ".." && '.' !in ext && |ext| + 1 < |name| &&
    name[|name| - |ext| - 1..] == "." + ext
  }

  lemma ExtensionIff(name: string, ext: string)
    ensures Extension(name) == Some(ext) <==> EndsWithExtension(name, ext)
  {
    if EndsWithExtension(name, ext) {
      var i := |name| - |ext| - 1;
      assert name[i] == ("." + ext)[0] == '.';
      assert 0 < i;
      var r := Extension(name);
      assert r.Some?;
      assert name[|name| - |ext|..] == ("." + ext)[1..] == ext;
    }
  }

  /** A file whose only dot is its first character (".py") has no extension. */
  lemma DotFileHasNoExtension(rest: string)
    requires '.' !in rest
    ensures Extension("." + rest) == None
  {
    var name := "." + rest;
    forall k | 0 < k < |name| ensures name[k] != '.' {
      assert name[k] == rest[k - 1];
    }
  }

  /** Only the text after the last dot counts: "a.tar.gz" has extension "gz". */
  lemma ExtensionIsLastPart(stem: string, ext: string)
    requires |stem| > 0 && '.' !in ext && stem + "." + ext != ".."
    ensures Extension(stem + "." + ext) == Some(ext)
  {
    var name := stem + "." + ext;
    assert name[|name| - |ext| - 1..] == "." + ext;
    ExtensionIff(name, ext);
  }

  // ---------------------------------------------------------------------------
  // Patterns and the presence predicate
  // ---------------------------------------------------------------------------

  /** The two pattern shapes `has_file` distinguishes: a pattern without '*'
      names one child exactly; "*.ext" asks for any child with extension ext. */
  datatype Pattern = Exact(name: string) | AnyWithExtension(ext: string)

  /** The pattern as the auditor writes it in its source. */
  function Text(p: Pattern): string {
    match p
    case Exact(name) => name
    case AnyWithExtension(ext) => "*." + ext
  }

  /** `s` begins with `prefix`. */
  predicate StartsWith(s: string, prefix: string) {
    |prefix| <= |s| && s[..|prefix|] == prefix
  }

  /** `u` is made of whole copies of `prefix`, back to back. */
  predicate Copies(u: string, prefix: string)
    requires |prefix| > 0
    decreases |u|
  {
    |u| == 0 || (StartsWith(u, prefix) && Copies(u[|prefix|..], prefix))
  }

  /** Cutting a sequence at `b` and then dropping `a` elements is dropping
      first and then cutting. */
  lemma TakeThenDrop(s: string, a: nat, b: nat)
    requires a <= b <= |s|
    ensures s[..b][a..] == s[a..][..b - a]
  {
  }

  /** One more copy of `prefix` in front of whole copies gives whole copies. */
  lemma CopiesCons(u: string, prefix: string, rest: string)
    requires |prefix| > 0 && StartsWith(u, prefix) && u[|prefix|..] == rest
    requires Copies(rest, prefix)
    ensures Copies(u, prefix)
  {
  }

  /** How far the leading copies of `prefix` in `s` reach: `s[..n]` is whole
      copies and `s[n..]` does not start with another. */
  function LeadingCopies(s: string, prefix: string): (n: nat)
    requires |prefix| > 0
    ensures n <= |s|
    ensures Copies(s[..n], prefix)
    ensures !StartsWith(s[n..], prefix)
    decreases |s|
  {
    if StartsWith(s, prefix) then
      var m := LeadingCopies(s[|prefix|..], prefix);
      TakeThenDrop(s, |prefix|, |prefix| + m);
      assert s[..|prefix| + m][..|prefix|] == s[..|prefix|];
      CopiesCons(s[..|prefix| + m], prefix, s[|prefix|..][..m]);
      assert s[|prefix| + m..] == s[|prefix|..][m..];
      |prefix| + m
    else
      assert s[..0] == [];
      0
  }

  /** `s.trim_start_matches(prefix)`: remove `prefix` for as long as `s`
      starts with it. Exactly the leading copies are removed: the result is
      a suffix of `s`, what precedes it is whole copies of `prefix`, and it
      does not start with another copy. */
  function TrimStartMatches(s: string, prefix: string): (r: string)
    requires |prefix| > 0
    ensures |r| <= |s| && r == s[|s| - |r|..]
    ensures Copies(s[..|s| - |r|], prefix)
    ensures !StartsWith(r, prefix)
  {
    s[LeadingCopies(s, prefix)..]
  }

  /** How `has_file` reads its pattern: no '*' means an exact name; otherwise
      the extension is what remains after stripping leading "*." prefixes. */
  function ParsePattern(s: string): Pattern {
    if '*' !in s then Exact(s) else AnyWithExtension(TrimStartMatches(s, "*."))
  }

  /** The patterns whose text `has_file` reads back as intended: a name or an
      extension that holds no '*'. */
  predicate WellFormed(p: Pattern) {
    match p
    case Exact(name) => '*' !in name
    case AnyWithExtension(ext) => '*' !in ext
  }

  /** Round trip: reading the text of a well-formed pattern gives the pattern
      back; and a star in the name is exactly what sends the text to the
      extension branch. */
  lemma ParseText(p: Pattern)
    ensures WellFormed(p) ==> ParsePattern(Text(p)) == p
    ensures ParsePattern(Text(p)).AnyWithExtension? <==> '*' in Text(p)
  {
    match p
    case Exact(name) =>
    case AnyWithExtension(ext) =>
      var t := "*." + ext;
      assert t[0] == '*';
      assert t[..2] == "*." && t[2..] == ext;
      if WellFormed(p) {
        assert TrimStartMatches(ext, "*.") == ext;
      }
  }

  /** Some entry is a child called `name` whose target exists. */
  predicate HasResolvingChild(entries: seq<Entry>, name: string) {
    entries != [] &&
    (HasResolvingChild(Init(entries), name) || (Last(entries).name == name && Last(entries).resolves))
  }

  /** Some entry's name has extension `ext`. */
  predicate HasChildWithExtension(entries: seq<Entry>, ext: string) {
    entries != [] &&
    (HasChildWithExtension(Init(entries), ext) || Extension(Last(entries).name) == Some(ext))
  }

  lemma {:induction false} HasResolvingChildIff(entries: seq<Entry>, name: string)
    ensures HasResolvingChild(entries, name) <==>
              exists k :: 0 <= k < |entries| && entries[k] == Entry(name, true)
  {
    if entries != [] {
      HasResolvingChildIff(Init(entries), name);
      assert forall k :: 0 <= k < |entries| - 1 ==> Init(entries)[k] == entries[k];
      if exists k :: 0 <= k < |entries| && entries[k] == Entry(name, true) {
        var k :| 0 <= k < |entries| && entries[k] == Entry(name, true);
        if k < |entries| - 1 {
          assert Init(entries)[k] == Entry(name, true);
        }
      }
    }
  }

  lemma {:induction false} HasChildWithExtensionIff(entries: seq<Entry>, ext: string)
    ensures HasChildWithExtension(entries, ext) <==>
              exists k :: 0 <= k < |entries| && Extension(entries[k].name) == Some(ext)
  {
    if entries != [] {
      HasChildWithExtensionIff(Init(entries), ext);
      assert forall k :: 0 <= k < |entries| - 1 ==> Init(entries)[k] == entries[k];
      if exists k :: 0 <= k < |entries| && Extension(entries[k].name) == Some(ext) {
        var k :| 0 <= k < |entries| && Extension(entries[k].name) == Some(ext);
        if k < |entries| - 1 {
          assert Extension(Init(entries)[k].name) == Some(ext);
        }
      }
    }
  }

  /** What `Path::exists` reports for `name` joined below the directory: the
      lookup needs the directory to be searchable and follows links. */
  predicate ChildExists(dir: Dir, name: string) {
    dir.searchable && HasResolvingChild(dir.entries, name)
  }

  /** Specification of `has_file`: an exact name is looked up; "*.ext" holds when
      the directory can be listed and some child has extension ext. */
  predicate Present(dir: Dir, pattern: Pattern) {
    match pattern
    case Exact(name) => ChildExists(dir, name)
    case AnyWithExtension(ext) => dir.listable && HasChildWithExtension(dir.entries, ext)
  }

  /** `has_file`: the exact-name branch asks whether the child exists; the glob
      branch scans the listing and stops at the first child with the extension. */
  method HasFile(dir: Dir, pattern: Pattern) returns (found: bool)
    ensures found == Present(dir, pattern)
  {
    if pattern.Exact? {
      return ChildExists(dir, pattern.name);
    }
    var extension := pattern.ext;
    if dir.listable {
      var i := 0;
      while i < |dir.entries|
        invariant 0 <= i <= |dir.entries|
        invariant !HasChildWithExtension(dir.entries[..i], extension)
      {
        assert Init(dir.entries[..i + 1]) == dir.entries[..i];
        var ext := Extension(dir.entries[i].name);
        if ext.Some? && ext.value == extension {
          HasChildWithExtensionIff(dir.entries, extension);
          return true;
        }
        i := i + 1;
      }
      assert dir.entries[..i] == dir.entries;
    }
    return false;
  }

  /** An exact name holds iff a child of that name exists and resolves,
      provided the directory can be searched; otherwise it fails closed. */
  lemma ExactNamePresence(dir: Dir, name: string)
    ensures Present(dir, Exact(name)) <==>
              dir.searchable && exists k :: 0 <= k < |dir.entries| && dir.entries[k] == Entry(name, true)
  {
    HasResolvingChildIff(dir.entries, name);
  }

  /** "*.ext" holds iff the directory can be listed and some child's name ends in
      ".ext" after a non-empty stem (with Rust's ".." exception). */
  lemma ExtensionPresence(dir: Dir, ext: string)
    ensures Present(dir, AnyWithExtension(ext)) <==>
              dir.listable && exists k :: 0 <= k < |dir.entries| && EndsWithExtension(dir.entries[k].name, ext)
  {
    HasChildWithExtensionIff(dir.entries, ext);
    forall k | 0 <= k < |dir.entries|
      ensures Extension(dir.entries[k].name) == Some(ext) <==> EndsWithExtension(dir.entries[k].name, ext)
    {
      ExtensionIff(dir.entries[k].name, ext);
    }
  }

  /** Fail-closed: a directory that can be neither listed nor searched satisfies
      no pattern. */
  lemma UnreadableDirHasNothing(dir: Dir, pattern: Pattern)
    requires !dir.listable && !dir.searchable
    ensures !Present(dir, pattern)
  {
  }

  /** A child is unrelated to a pattern when it neither bears the exact name nor
      the extension the pattern asks for. */
  predicate Unrelated(e: Entry, pattern: Pattern) {
    match pattern
    case Exact(name) => e.name != name
    case AnyWithExtension(ext) => Extension(e.name) != Some(ext)
  }

  /** Adding unrelated children, before or after the existing ones, never
      changes the result. */
  lemma UnrelatedEntriesIrrelevant(dir: Dir, before: seq<Entry>, after: seq<Entry>, pattern: Pattern)
    requires forall e :: e in before + after ==> Unrelated(e, pattern)
    ensures Present(dir.(entries := before + dir.entries + after), pattern) == Present(dir, pattern)
  {
    match pattern
    case Exact(name) =>
      ResolvingChildSurrounded(before, dir.entries, after, name);
    case AnyWithExtension(ext) =>
      ChildWithExtensionSurrounded(before, dir.entries, after, ext);
  }

  /** Children of another name around the entries do not add a resolving child. */
  lemma ResolvingChildSurrounded(before: seq<Entry>, mid: seq<Entry>, after: seq<Entry>, name: string)
    requires forall e :: e in before + after ==> e.name != name
    ensures HasResolvingChild(before + mid + after, name) == HasResolvingChild(mid, name)
  {
    var all := before + mid + after;
    Surrounded(before, mid, after);
    HasResolvingChildIff(all, name);
    HasResolvingChildIff(mid, name);
    if HasResolvingChild(all, name) {
      var k :| 0 <= k < |all| && all[k] == Entry(name, true);
      assert mid[k - |before|] == Entry(name, true);
    }
  }

  /** Children of another extension around the entries do not add one with `ext`. */
  lemma ChildWithExtensionSurrounded(before: seq<Entry>, mid: seq<Entry>, after: seq<Entry>, ext: string)
    requires forall e :: e in before + after ==> Extension(e.name) != Some(ext)
    ensures HasChildWithExtension(before + mid + after, ext) == HasChildWithExtension(mid, ext)
  {
    var all := before + mid + after;
    Surrounded(before, mid, after);
    HasChildWithExtensionIff(all, ext);
    HasChildWithExtensionIff(mid, ext);
    if HasChildWithExtension(all, ext) {
      var k :| 0 <= k < |all| && Extension(all[k].name) == Some(ext);
      assert Extension(mid[k - |before|].name) == Some(ext);
    }
  }

  /** Where the elements of `before + mid + after` come from. */
  lemma Surrounded<T>(before: seq<T>, mid: seq<T>, after: seq<T>)
    ensures forall k :: 0 <= k < |mid| ==> (before + mid + after)[|before| + k] == mid[k]
    ensures forall k :: 0 <= k < |before + mid + after| && !(|before| <= k < |before| + |mid|) ==>
              (before + mid + after)[k] in before + after
  {
    var all := before + mid + after;
    forall k | 0 <= k < |all| && !(|before| <= k < |before| + |mid|) ensures all[k] in before + after {
      if k < |before| {
        assert all[k] == (before + after)[k];
      } else {
        assert all[k] == (before + after)[k - |mid|];
      }
    }
  }

  lemma ReadmeHasExtensionAdoc()
    ensures Extension("README.adoc") == Some("adoc")
  {
    ExtensionIsLastPart("README", "adoc");
    assert "README" + "." + "adoc" == "README.adoc";
  }

  /** When the directory can be listed, an existing "README.adoc" already has
      extension "adoc", so the exact README check adds something only when the
      listing fails. */
  lemma ReadmeImpliesAdoc(dir: Dir)
    requires dir.listable
    ensures Present(dir, Exact("README.adoc")) ==> Present(dir, AnyWithExtension("adoc"))
  {
    if Present(dir, Exact("README.adoc")) {
      HasResolvingChildIff(dir.entries, "README.adoc");
      var k :| 0 <= k < |dir.entries| && dir.entries[k] == Entry("README.adoc", true);
      ReadmeHasExtensionAdoc();
      HasChildWithExtensionIff(dir.entries, "adoc");
    }
  }

  // ---------------------------------------------------------------------------
  // The display name: the final component of a path
  // ---------------------------------------------------------------------------

  /** A normal path component: not empty, no separator, neither "." nor "..". */
  predicate PlainName(p: string) {
    |p| > 0 && '/' !in p && p != "." && p != ".."
  }

  /** The text after the last '/' of `path` (all of it when there is none). */
  function LastSegment(path: string): (seg: string)
    ensures |seg| <= |path| && seg == path[|path| - |seg|..]
    ensures '/' !in seg
    ensures |seg| < |path| ==> path[|path| - |seg| - 1] == '/'
  {
    if |path| == 0 || path[|path| - 1] == '/' then ""
    else LastSegment(path[..|path| - 1]) + [path[|path| - 1]]
  }

  /** `path.file_name().unwrap_or_default()`: the last normal component, after
      trailing separators and "." components are dropped; "" when the path ends
      in "..", is a root, or is empty. */
  function FileName(path: string): (name: string)
    ensures name == "" || PlainName(name)
    decreases |path|
  {
    if |path| == 0 then ""
    else if path[|path| - 1] == '/' then FileName(path[..|path| - 1])
    else
      var seg := LastSegment(path);
      if seg == "." then FileName(path[..|path| - 1])
      else if seg == ".." then ""
      else seg
  }

  /** The name of a child path is the child's own name. */
  lemma {:induction false} FileNameOfChild(parent: string, child: string)
    requires PlainName(child)
    ensures FileName(parent + "/" + child) == child
  {
    var path := parent + "/" + child;
    var seg := LastSegment(path);
    assert path[|path| - 1] == child[|child| - 1] != '/' by {
      assert child[|child| - 1] in child;
    }
    assert path[|path| - |child|..] == child;
    assert path[|path| - |child| - 1] == '/';
    assert forall k :: |path| - |child| <= k < |path| ==> path[k] in child;
    assert seg == child;
  }

  /** Trailing separators do not change the name. */
  lemma TrailingSeparatorIgnored(path: string)
    ensures FileName(path + "/") == FileName(path)
  {
    assert (path + "/")[..|path|] == path;
  }
}
