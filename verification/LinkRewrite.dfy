/** Rewriting relative Markdown links into links from the project root. */
module LinkRewrite {
  import opened Text

  /** An absolute, resolved path: its names below the file system root. */
  type Path = seq<string>

  predicate IsName(segment: string) { segment != "" && segment != "." && segment != ".." }

  /** Names as they occur in a resolved path; a backslash counts as a separator. */
  predicate ProperPath(p: Path) {
    forall i | 0 <= i < |p| :: IsName(p[i]) && '/' !in p[i] && '\\' !in p[i]
  }

  function Parent(p: Path): Path { if p == [] then [] else p[..|p| - 1] }

  // ----- What a link means --------------------------------------------------------------

  function Step(p: Path, segment: string): Path {
    if segment == ".." then Parent(p) else if IsName(segment) then p + [segment] else p
  }

  /** Following the segments of a path one after the other. */
  function Walk(p: Path, segments: seq<string>): Path {
    if segments == [] then p
    else Step(Walk(p, segments[..|segments| - 1]), segments[|segments| - 1])
  }

  /** `(p / text).resolve()`: an absolute text replaces `p`. */
  function Under(p: Path, text: string): Path {
    Walk(if text != "" && text[0] == '/' then [] else p, Split(text, '/'))
  }

  /** `resolve_relative_path`: the file or directory that a link in `file` names. */
  function Resolve(root: Path, file: Path, target: string): Path {
    if target == "" then file
    else if target[0] == '/' then Under(root, target[1..])
    else Under(Parent(file), target)
  }

  // ----- The rewriting ----------------------------------------------------------------------

  predicate Relative(url: string) { "../" <= url || "./" <= url }

  predicate InDir(url: string, dir: string) { dir + "/" <= url || url == dir }

  /** The link already begins with a directory of the project root. */
  predicate FromRootDir(url: string) {
    || InDir(url, "docs") || InDir(url, "spec") || InDir(url, "skills") || InDir(url, "agents")
    || InDir(url, "protocols") || InDir(url, "commands") || InDir(url, ".claude") || InDir(url, "backend")
    || InDir(url, "frontend") || InDir(url, "demo") || InDir(url, "scripts") || InDir(url, ".ai")
  }

  /** `path` after the loop: every `..` went up one directory, wherever it stood. */
  function Climb(p: Path, segments: seq<string>): Path {
    if segments == [] then p
    else
      var before := Climb(p, segments[..|segments| - 1]);
      if segments[|segments| - 1] == ".." then Parent(before) else before
  }

  /** `resolved_parts` after the loop; empty segments are among them. */
  function Parts(segments: seq<string>): (parts: seq<string>)
    ensures forall i | 0 <= i < |parts| :: parts[i] in segments && parts[i] != "." && parts[i] != ".."
  {
    if segments == [] then []
    else
      var last := segments[|segments| - 1];
      Parts(segments[..|segments| - 1]) + (if last == ".." || last == "." then [] else [last])
  }

  /** The text after the leading slash, for `parts` in the directory `below` the root. */
  function RootText(below: Path, parts: seq<string>): string {
    if parts == [] then (if below == [] then "." else Join(below, '/'))
    else if below == [] then Join(parts, '/')
    else Join(below, '/') + ['/'] + Join(parts, '/')
  }

  /** The link for `parts` below `path`, when that lies inside the project. */
  function FromRoot(root: Path, path: Path, parts: seq<string>): Option<string> {
    if root <= path then Some("/" + RootText(path[|root|..], parts)) else None
  }

  /** What `resolve_to_root` computes. */
  function Rewritten(root: Path, file: Path, url: string): string {
    if "/" <= url then url
    else if FromRootDir(url) then "/" + url
    else if !Relative(url) then url
    else
      var segments := Split(url, '/');
      match FromRoot(root, Climb(Parent(file), segments), Parts(segments))
      case Some(link) => link
      case None => url
  }

  /** Links that begin with one of twelve directories are taken from the project root, links
      with a leading slash stay, and so do all others that are not relative. */
  lemma RewrittenElsewhere(root: Path, file: Path, dir: string, rest: string)
    requires dir in {"docs", "spec", "skills", "agents", "protocols", "commands", ".claude", "backend", "frontend",
                     "demo", "scripts", ".ai"}
    ensures Rewritten(root, file, dir) == "/" + dir
    ensures Rewritten(root, file, dir + "/" + rest) == "/" + (dir + "/" + rest)
    ensures Rewritten(root, file, "/" + rest) == "/" + rest
  {
    assert dir + "/" <= dir + "/" + rest;
    assert InDir(dir, dir) && InDir(dir + "/" + rest, dir);
    assert dir[0] != '/';
  }

  method ResolveToRoot(root: Path, file: Path, url: string) returns (link: string)
    ensures link == Rewritten(root, file, url)
  {
    if "/" <= url { return url; }
    if FromRootDir(url) { return "/" + url; }
    if !Relative(url) { return url; }
    var path, segments, parts := Parent(file), Split(url, '/'), [];
    for i := 0 to |segments|
      invariant path == Climb(Parent(file), segments[..i]) && parts == Parts(segments[..i])
    {
      assert segments[..i + 1][..i] == segments[..i];
      if segments[i] == ".." {
        path := Parent(path);
      } else if segments[i] != "." {
        parts := parts + [segments[i]];
      }
    }
    assert segments[..|segments|] == segments;
    match FromRoot(root, path, parts)
    case Some(rewritten) => return rewritten;
    case None => return url;
  }

  predicate External(url: string) {
    "http://" <= url || "https://" <= url || "ftp://" <= url || "mailto:" <= url || "#" <= url
  }

  /** `replace_link`: only links that begin with `../` or `./` are touched. */
  function FixedUrl(root: Path, file: Path, url: string): string {
    if External(url) || !Relative(url) then url else Rewritten(root, file, url)
  }

  // ----- The rewriting keeps the target -------------------------------------------------------

  function Names(segments: seq<string>): (names: seq<string>)
    ensures forall i | 0 <= i < |names| :: names[i] in segments && IsName(names[i])
  {
    if segments == [] then []
    else
      var last := segments[|segments| - 1];
      Names(segments[..|segments| - 1]) + (if IsName(last) then [last] else [])
  }

  /** Every `..` precedes every name. */
  predicate UpsFirst(segments: seq<string>) {
    forall i, j | 0 <= i < j < |segments| && IsName(segments[i]) :: segments[j] != ".."
  }

  /** A rewritten link with this shape begins with two slashes when it starts at the root. */
  predicate DoubleSlash(parts: seq<string>) { |parts| > 1 && parts[0] == "" }

  lemma {:induction false} NoNames(segments: seq<string>)
    requires forall i | 0 <= i < |segments| :: !IsName(segments[i])
    ensures Names(segments) == []
  {
    if segments != [] { NoNames(segments[..|segments| - 1]); }
  }

  /** Climbing first and descending after is walking in order when no `..` follows a name. */
  lemma {:induction false} UpsFirstWalk(p: Path, segments: seq<string>)
    requires UpsFirst(segments)
    ensures Walk(p, segments) == Climb(p, segments) + Names(segments)
  {
    if segments != [] {
      var n := |segments| - 1;
      UpsFirstWalk(p, segments[..n]);
      if segments[n] == ".." {
        assert forall i | 0 <= i < n :: !IsName(segments[i]);
        NoNames(segments[..n]);
      }
    }
  }

  lemma {:induction false} WalkParts(p: Path, segments: seq<string>)
    ensures Walk(p, Parts(segments)) == p + Names(segments)
  {
    if segments != [] {
      var n := |segments| - 1;
      WalkParts(p, segments[..n]);
      var parts, before := Parts(segments), Parts(segments[..n]);
      if segments[n] == ".." || segments[n] == "." {
        assert parts == before;
      } else {
        assert parts[..|parts| - 1] == before;
      }
    }
  }

  lemma {:induction false} WalkProper(p: Path, names: Path)
    requires ProperPath(names)
    ensures Walk(p, names) == p + names
  {
    if names != [] {
      WalkProper(p, names[..|names| - 1]);
      assert names == names[..|names| - 1] + [names[|names| - 1]];
    }
  }

  lemma {:induction false} WalkConcat(p: Path, a: seq<string>, b: seq<string>)
    ensures Walk(p, a + b) == Walk(Walk(p, a), b)
  {
    if b == [] {
      assert a + b == a;
    } else {
      WalkConcat(p, a, b[..|b| - 1]);
      assert (a + b)[..|a + b| - 1] == a + b[..|b| - 1];
    }
  }

  lemma {:induction false} ClimbProper(p: Path, segments: seq<string>)
    requires ProperPath(p)
    ensures ProperPath(Climb(p, segments))
  {
    if segments != [] { ClimbProper(p, segments[..|segments| - 1]); }
  }

  /** A joined list as a path below `root`: it leaves the root when it begins with a slash. */
  lemma UnderJoined(root: Path, all: seq<string>)
    requires |all| >= 1 && forall i | 0 <= i < |all| :: '/' !in all[i]
    ensures Under(root, Join(all, '/')) == Walk(if DoubleSlash(all) then [] else root, all)
  {
    SplitJoin(all, '/');
    if all[0] != "" { assert all[0][0] in all[0]; }
  }

  lemma RootTextIsJoined(below: Path, parts: seq<string>)
    requires below + parts != []
    ensures RootText(below, parts) == Join(below + parts, '/')
  {
    if parts == [] {
      assert below + parts == below;
    } else if below == [] {
      assert below + parts == parts;
    } else {
      JoinConcat(below, parts, '/');
    }
  }

  lemma UnderDot(root: Path)
    ensures Under(root, ".") == root
  {
    SplitWhole(".", '/');
    assert Walk(root, ["."]) == root;
  }

  /** What the text after the leading slash means: the parts below that directory, except
      that a leading slash of its own makes it leave the project root. */
  lemma RootTextMeans(root: Path, below: Path, parts: seq<string>)
    requires ProperPath(below) && forall i | 0 <= i < |parts| :: '/' !in parts[i]
    ensures Under(root, RootText(below, parts))
            == Walk(if below == [] && DoubleSlash(parts) then [] else root, below + parts)
  {
    if below + parts == [] {
      UnderDot(root);
    } else {
      RootTextIsJoined(below, parts);
      UnderJoined(root, below + parts);
      if below == [] { assert below + parts == parts; } else { assert IsName((below + parts)[0]); }
    }
  }

  lemma WalkBelow(p: Path, below: Path, segments: seq<string>)
    requires ProperPath(below)
    ensures Walk(p, below + Parts(segments)) == p + below + Names(segments)
  {
    WalkConcat(p, below, Parts(segments));
    WalkProper(p, below);
    WalkParts(p + below, segments);
  }

  lemma ResolveRooted(root: Path, file: Path, text: string)
    ensures Resolve(root, file, "/" + text) == Under(root, text)
  {
    assert ("/" + text)[1..] == text;
  }

  /** What the link built for `path` and the parts of `segments` means. */
  lemma FromRootMeans(root: Path, path: Path, segments: seq<string>, file: Path)
    requires ProperPath(path) && root <= path
    requires forall i | 0 <= i < |segments| :: '/' !in segments[i]
    ensures var link := FromRoot(root, path, Parts(segments));
            link.Some? && Resolve(root, file, link.value)
               == (if path == root && DoubleSlash(Parts(segments)) then [] else path) + Names(segments)
  {
    var below, parts := path[|root|..], Parts(segments);
    assert path == root + below && ProperPath(below);
    ResolveRooted(root, file, RootText(below, parts));
    RootTextMeans(root, below, parts);
    WalkBelow(root, below, segments);
    WalkBelow([], below, segments);
  }

  /** The rewriting of one link in one file keeps its target when no `..` follows a name
      and the rewritten link does not begin with two slashes. */
  lemma RewritingKeepsTarget(root: Path, file: Path, url: string)
    requires ProperPath(root) && ProperPath(file)
    requires var segments := Split(url, '/');
             UpsFirst(segments) && !(Climb(Parent(file), segments) == root && DoubleSlash(Parts(segments)))
    ensures Resolve(root, file, FixedUrl(root, file, url)) == Resolve(root, file, url)
  {
    if Relative(url) && FixedUrl(root, file, url) != url {
      var segments := Split(url, '/');
      ClimbProper(Parent(file), segments);
      RelativeIsRewritten(root, file, url);
      FromRootMeans(root, Climb(Parent(file), segments), segments, file);
      UpsFirstWalk(Parent(file), segments);
    }
  }

  /** A relative link is never taken for an external one or for a path from a root directory. */
  lemma RelativeIsRewritten(root: Path, file: Path, url: string)
    requires Relative(url)
    ensures var segments := Split(url, '/');
            var link := FromRoot(root, Climb(Parent(file), segments), Parts(segments));
            && url[0] == '.' && FixedUrl(root, file, url) == (if link.Some? then link.value else url)
  {
    assert url[0] == '.' && (url[1] == '/' || url[1] == '.');
    NotInRootDir(url);
  }

  lemma NotInRootDir(url: string)
    requires |url| >= 2 && url[0] == '.' && (url[1] == '/' || url[1] == '.')
    ensures !FromRootDir(url) && !External(url)
  {
    assert ".claude"[1] == 'c' && ".ai"[1] == 'a';
    assert (".claude" + "/")[1] == 'c' && (".ai" + "/")[1] == 'a';
  }

  // ----- ... and exactly when it does so for every file --------------------------------------

  ghost predicate TargetKept(root: Path, file: Path, url: string) {
    Resolve(root, file, FixedUrl(root, file, url)) == Resolve(root, file, url)
  }

  ghost predicate KeptInEveryFile(url: string) {
    forall root: Path, file: Path | ProperPath(root) && ProperPath(file) && file != [] :: TargetKept(root, file, url)
  }

  function Ups(segments: seq<string>): nat {
    if segments == [] then 0
    else Ups(segments[..|segments| - 1]) + (if segments[|segments| - 1] == ".." then 1 else 0)
  }

  lemma {:induction false} UpsConcat(a: seq<string>, b: seq<string>)
    ensures Ups(a + b) == Ups(a) + Ups(b)
  {
    if b == [] {
      assert a + b == a;
    } else {
      UpsConcat(a, b[..|b| - 1]);
      assert (a + b)[..|a + b| - 1] == a + b[..|b| - 1];
    }
  }

  /** A walk with few `..` stays below the directory it began in. */
  lemma {:induction false} WalkStaysBelow(top: Path, p: Path, segments: seq<string>)
    requires top <= p && |top| + Ups(segments) <= |p|
    ensures top <= Walk(p, segments) && |Walk(p, segments)| >= |p| - Ups(segments)
  {
    if segments != [] { WalkStaysBelow(top, p, segments[..|segments| - 1]); }
  }

  lemma {:induction false} ClimbIs(p: Path, segments: seq<string>)
    requires Ups(segments) <= |p|
    ensures Climb(p, segments) == p[..|p| - Ups(segments)]
  {
    if segments != [] { ClimbIs(p, segments[..|segments| - 1]); }
  }

  /** A name that no segment of the link equals. */
  function FreshName(url: string): string { seq(|url| + 1, _ => 'x') }

  function Repeat(name: string, n: nat): Path { seq(n, _ => name) }

  lemma {:induction false} JoinedIsLonger(parts: seq<string>, i: nat)
    requires i < |parts|
    ensures |parts[i]| <= |Join(parts, '/')|
  {
    if |parts| > 1 && i > 0 { JoinedIsLonger(parts[1..], i - 1); }
  }

  lemma FreshIsFresh(url: string)
    ensures ProperPath([FreshName(url)])
    ensures FreshName(url) !in Names(Split(url, '/'))
  {
    var segments := Split(url, '/');
    if |url| == 0 { assert FreshName(url) == "x"; } else { assert FreshName(url)[1] == 'x'; }
    forall i | 0 <= i < |segments| ensures segments[i] != FreshName(url) { JoinedIsLonger(segments, i); }
  }

  lemma UpsAt(segments: seq<string>, j: nat)
    requires j < |segments| && segments[j] == ".."
    ensures Ups(segments) >= 1
  {
    assert segments == segments[..j + 1] + segments[j + 1..];
    UpsConcat(segments[..j + 1], segments[j + 1..]);
  }

  /** A `..` after a name leaves more of the starting directory standing than climbing does. */
  lemma LateUpKeepsMore(p: Path, segments: seq<string>, i: nat, j: nat)
    requires i < j < |segments| && IsName(segments[i]) && segments[j] == ".."
    requires |p| == Ups(segments) + 1
    ensures |p| >= 2 && p[..2] <= Walk(p, segments)
  {
    var a, b := segments[..i + 1], segments[i + 1..];
    assert segments == a + b;
    UpsConcat(a, b);
    UpsAt(b, j - i - 1);
    WalkConcat(p, a, b);
    NameDeepens(p, a, Ups(b));
    WalkStaysBelow(p[..2], Walk(p, a), b);
  }

  lemma NameDeepens(p: Path, a: seq<string>, more: nat)
    requires more >= 1 && a != [] && IsName(a[|a| - 1])
    requires |p| == Ups(a) + more + 1
    ensures p[..2] <= Walk(p, a) && |Walk(p, a)| >= more + 2
  {
    var before := a[..|a| - 1];
    assert Ups(a) == Ups(before);
    WalkStaysBelow(p[..more + 1], p, before);
    assert p[..2] <= p[..more + 1];
  }

  /** The file that a bad link breaks in: as many fresh directories as the link climbs. */
  function Witness(url: string): Path { Repeat(FreshName(url), Ups(Split(url, '/')) + 2) }

  lemma WitnessShape(url: string)
    ensures var segments, root, file := Split(url, '/'), [FreshName(url)], Witness(url);
            && ProperPath(root) && ProperPath(file) && Parent(file) == Repeat(FreshName(url), Ups(segments) + 1)
            && Climb(Parent(file), segments) == root && root <= Walk(Parent(file), segments)
  {
    var name, segments, file := FreshName(url), Split(url, '/'), Witness(url);
    var root, dir := [name], Parent(file);
    FreshIsFresh(url);
    assert IsName(name) && '/' !in name && '\\' !in name by { assert root[0] == name; }
    assert dir == Repeat(name, Ups(segments) + 1);
    ClimbIs(dir, segments);
    WalkStaysBelow(root, dir, segments);
  }

  /** What the link means before and after the rewriting in that file. */
  lemma InWitness(url: string)
    requires Relative(url)
    ensures var segments, root, file := Split(url, '/'), [FreshName(url)], Witness(url);
            && Resolve(root, file, url) == Walk(Parent(file), segments)
            && Resolve(root, file, FixedUrl(root, file, url))
               == (if DoubleSlash(Parts(segments)) then [] else root) + Names(segments)
  {
    var segments, root, file := Split(url, '/'), [FreshName(url)], Witness(url);
    WitnessShape(url);
    RelativeIsRewritten(root, file, url);
    FromRootMeans(root, root, segments, file);
  }

  lemma UnsafeBreaks(url: string)
    requires Relative(url)
    requires var segments := Split(url, '/'); !UpsFirst(segments) || DoubleSlash(Parts(segments))
    ensures ProperPath([FreshName(url)]) && ProperPath(Witness(url)) && !TargetKept([FreshName(url)], Witness(url), url)
  {
    var name, segments := FreshName(url), Split(url, '/');
    InWitness(url);
    WitnessShape(url);
    FreshIsFresh(url);
    var dir := Parent(Witness(url));
    var was := Walk(dir, segments);
    if DoubleSlash(Parts(segments)) {
      FirstDiffers(name, Names(segments), was);
    } else {
      var i, j :| 0 <= i < j < |segments| && IsName(segments[i]) && segments[j] == "..";
      LateUpKeepsMore(dir, segments, i, j);
      assert dir[..2] == [name, name];
      SecondDiffers(name, Names(segments), was);
    }
  }

  lemma FirstDiffers(name: string, names: seq<string>, was: Path)
    requires name !in names && [name] <= was
    ensures [] + names != was
  {
    assert was[0] == name && [] + names == names;
  }

  lemma SecondDiffers(name: string, names: seq<string>, was: Path)
    requires name !in names && [name, name] <= was
    ensures [name] + names != was
  {
    assert was[1] == name && (names != [] ==> ([name] + names)[1] in names);
  }

  /** A link keeps its target in every file of every project exactly when it is left alone,
      or no `..` follows a name and its parts do not begin with an empty one. */
  lemma KeptExactlyWhen(url: string)
    ensures KeptInEveryFile(url) <==>
            (Relative(url) ==> var segments := Split(url, '/'); UpsFirst(segments) && !DoubleSlash(Parts(segments)))
  {
    var segments := Split(url, '/');
    if Relative(url) && (!UpsFirst(segments) || DoubleSlash(Parts(segments))) {
      UnsafeBreaks(url);
      FreshIsFresh(url);
      assert !TargetKept([FreshName(url)], Witness(url), url);
    } else {
      forall root: Path, file: Path | ProperPath(root) && ProperPath(file) && file != []
        ensures TargetKept(root, file, url)
      {
        if Relative(url) { RewritingKeepsTarget(root, file, url); }
      }
    }
  }

  lemma SplitFirst(first: string, rest: string, text: string)
    requires '/' !in first && text == first + ['/'] + rest
    ensures Split(text, '/') == [first] + Split(rest, '/')
  {
    SplitConcat(first, '/', rest);
    SplitWhole(first, '/');
  }

  /** A link that climbs after a name. */
  lemma LateUpBreaks()
    ensures !KeptInEveryFile("./a/../b")
  {
    SplitFirst(".", "a/../b", "./a/../b");
    SplitFirst("a", "../b", "a/../b");
    SplitFirst("..", "b", "../b");
    var segments := Split("./a/../b", '/');
    assert IsName(segments[1]) && segments[2] == "..";
    KeptExactlyWhen("./a/../b");
  }

  /** A link with a doubled slash. */
  lemma DoubleSlashBreaks()
    ensures !KeptInEveryFile(".//x")
  {
    SplitFirst(".", "/x", ".//x");
    SplitFirst("", "x", "/x");
    SplitWhole("x", '/');
    PartsOfDoubled();
    KeptExactlyWhen(".//x");
  }

  lemma PartsOfDoubled()
    ensures Parts(["."] + ([""] + ["x"])) == ["", "x"]
  {
    var doubled := ["."] + ([""] + ["x"]);
    assert doubled[..2] == [".", ""] && [".", ""][..1] == ["."];
    assert Parts(["."]) == [] && Parts([".", ""]) == [""];
  }

  /** A second pass finds nothing to change. */
  lemma SecondPassChangesNothing(root: Path, file: Path, url: string)
    ensures var once := FixedUrl(root, file, url); FixedUrl(root, file, once) == once
  {
    if Relative(url) && FixedUrl(root, file, url) != url {
      RelativeIsRewritten(root, file, url);
      assert "/" <= FixedUrl(root, file, url);
    }
  }
}
