/** Rewriting all links of a Markdown file, line by line. */
module LinkFiles {
  import opened Text
  import opened LinkRewrite

  /** A line: whether it opens or closes a code block, and the targets of its links. */
  datatype Line = Line(fence: bool, urls: seq<string>)

  function Applied(fix: string -> string, urls: seq<string>): seq<string> {
    seq(|urls|, k requires 0 <= k < |urls| => fix(urls[k]))
  }

  function FixedLine(fix: string -> string, line: Line): Line {
    if line.fence then line else line.(urls := Applied(fix, line.urls))
  }

  function FixedLines(fix: string -> string, lines: seq<Line>): seq<Line> {
    seq(|lines|, i requires 0 <= i < |lines| => FixedLine(fix, lines[i]))
  }

  /** How many links `fix` changes. */
  function Changed(fix: string -> string, urls: seq<string>): nat {
    if urls == [] then 0
    else
      var last := urls[|urls| - 1];
      Changed(fix, urls[..|urls| - 1]) + (if fix(last) != last then 1 else 0)
  }

  function ChangedLine(fix: string -> string, line: Line): nat {
    if line.fence then 0 else Changed(fix, line.urls)
  }

  function ChangedIn(fix: string -> string, lines: seq<Line>): nat {
    if lines == [] then 0
    else
      var last := lines[|lines| - 1];
      ChangedIn(fix, lines[..|lines| - 1]) + ChangedLine(fix, last)
  }

  /** `replace_link` for links of one file. */
  function Fixer(root: Path, file: Path): string -> string { url => FixedUrl(root, file, url) }

  lemma AppliedStep(fix: string -> string, urls: seq<string>, k: nat)
    requires k < |urls|
    ensures Applied(fix, urls[..k + 1]) == Applied(fix, urls[..k]) + [fix(urls[k])]
    ensures Changed(fix, urls[..k + 1]) == Changed(fix, urls[..k]) + (if fix(urls[k]) != urls[k] then 1 else 0)
  {
    assert urls[..k + 1][..k] == urls[..k];
  }

  method ReplaceLink(root: Path, file: Path, url: string) returns (link: string, changed: bool)
    ensures link == Fixer(root, file)(url) && changed == (link != url)
  {
    if External(url) || !Relative(url) { return url, false; }
    link := ResolveToRoot(root, file, url);
    changed := link != url;
  }

  method FixLine(root: Path, file: Path, line: Line) returns (fixed: Line, count: nat)
    ensures fixed == FixedLine(Fixer(root, file), line)
    ensures count == ChangedLine(Fixer(root, file), line)
  {
    if line.fence { return line, 0; }
    count := 0;
    var urls := [];
    ghost var fix := Fixer(root, file);
    for k := 0 to |line.urls|
      invariant urls == Applied(fix, line.urls[..k])
      invariant count == Changed(fix, line.urls[..k])
    {
      AppliedStep(fix, line.urls, k);
      var link, changed := ReplaceLink(root, file, line.urls[k]);
      if changed { count := count + 1; }
      urls := urls + [link];
    }
    assert line.urls[..|line.urls|] == line.urls;
    fixed := line.(urls := urls);
  }

  lemma ChangedStep(fix: string -> string, lines: seq<Line>, i: nat)
    requires i < |lines|
    ensures ChangedIn(fix, lines[..i + 1]) == ChangedIn(fix, lines[..i]) + ChangedLine(fix, lines[i])
  {
    assert lines[..i + 1][..i] == lines[..i];
  }

  /** `fix_file` rewrites the list of lines in place; the file is written when the count is
      positive, which is exactly when some line changed. */
  method FixFile(root: Path, file: Path, lines: array<Line>) returns (count: nat)
    modifies lines
    ensures lines[..] == FixedLines(Fixer(root, file), old(lines[..]))
    ensures forall i | 0 <= i < lines.Length ::
              && lines[i].fence == old(lines[i]).fence && |lines[i].urls| == |old(lines[i]).urls|
              && forall k | 0 <= k < |lines[i].urls| ::
                   lines[i].urls[k] == if lines[i].fence then old(lines[i]).urls[k]
                                       else FixedUrl(root, file, old(lines[i]).urls[k])
    ensures count == ChangedIn(Fixer(root, file), old(lines[..]))
    ensures count == 0 <==> lines[..] == old(lines[..])
  {
    count := 0;
    ghost var was, fix := lines[..], Fixer(root, file);
    ghost var goal := FixedLines(fix, was);
    for i := 0 to lines.Length
      invariant forall j | 0 <= j < i :: lines[j] == goal[j]
      invariant forall j | i <= j < lines.Length :: lines[j] == was[j]
      invariant count == ChangedIn(fix, was[..i])
    {
      ChangedStep(fix, was, i);
      var fixed, n := FixLine(root, file, lines[i]);
      assert fixed == goal[i];
      lines[i], count := fixed, count + n;
    }
    assert was[..lines.Length] == was;
    assert lines[..] == goal;
    CountsChanges(fix, was);
  }

  /** In a fixed file every link that is safe to rewrite still has its target. */
  lemma FixedFileKeepsTargets(root: Path, file: Path, lines: seq<Line>, i: nat, k: nat)
    requires ProperPath(root) && ProperPath(file) && file != []
    requires i < |lines| && k < |lines[i].urls|
    requires Relative(lines[i].urls[k]) ==>
               var segments := Split(lines[i].urls[k], '/'); UpsFirst(segments) && !DoubleSlash(Parts(segments))
    ensures var fixed := FixedLines(Fixer(root, file), lines)[i];
            && |fixed.urls| == |lines[i].urls|
            && Resolve(root, file, fixed.urls[k]) == Resolve(root, file, lines[i].urls[k])
  {
    KeptExactlyWhen(lines[i].urls[k]);
    assert TargetKept(root, file, lines[i].urls[k]);
  }

  lemma {:induction false} CountsUrls(fix: string -> string, urls: seq<string>)
    ensures Changed(fix, urls) == 0 <==> Applied(fix, urls) == urls
  {
    if urls != [] {
      var n := |urls| - 1;
      CountsUrls(fix, urls[..n]);
      assert urls == urls[..n] + [urls[n]];
      assert Applied(fix, urls) == Applied(fix, urls[..n]) + [fix(urls[n])];
      assert Applied(fix, urls)[..n] == Applied(fix, urls[..n]);
    }
  }

  /** The count is zero exactly when no line changes. */
  lemma {:induction false} CountsChanges(fix: string -> string, lines: seq<Line>)
    ensures ChangedIn(fix, lines) == 0 <==> FixedLines(fix, lines) == lines
  {
    if lines != [] {
      var n := |lines| - 1;
      CountsChanges(fix, lines[..n]);
      CountsUrls(fix, lines[n].urls);
      assert lines == lines[..n] + [lines[n]];
      assert FixedLines(fix, lines) == FixedLines(fix, lines[..n]) + [FixedLine(fix, lines[n])];
      assert FixedLines(fix, lines)[..n] == FixedLines(fix, lines[..n]);
    }
  }

  /** Running the script again counts nothing, so nothing is written. */
  lemma SecondRunWritesNothing(root: Path, file: Path, lines: seq<Line>)
    ensures var fix := Fixer(root, file); ChangedIn(fix, FixedLines(fix, lines)) == 0
  {
    var fix := Fixer(root, file);
    var fixed := FixedLines(fix, lines);
    forall i | 0 <= i < |fixed| ensures FixedLine(fix, fixed[i]) == fixed[i] {
      if !lines[i].fence { SecondLine(root, file, lines[i].urls); }
    }
    assert FixedLines(fix, fixed) == fixed;
    CountsChanges(fix, fixed);
  }

  lemma SecondLine(root: Path, file: Path, urls: seq<string>)
    ensures var fix := Fixer(root, file); Applied(fix, Applied(fix, urls)) == Applied(fix, urls)
  {
    var fix := Fixer(root, file);
    var once := Applied(fix, urls);
    forall k | 0 <= k < |once| ensures fix(once[k]) == once[k] {
      SecondPassChangesNothing(root, file, urls[k]);
    }
  }
}
