/** SidebarCommands.py: the string work of the side-bar commands. The editor (views, input
    panels, the clipboard, popups), the file system and the build script are not modelled:
    what they supply arrives as parameters. */
module Sidebar {
  import opened Base
  import opened Strings
  import opened Paths

  // ---------------------------------------------------------------------------
  // `CommandHelper`.

  /** `get_path`: the first path given to the command, or else the file of the active view
      (`None` when the view has no file). */
  function GetPath(paths: seq<string>, activeFile: Option<string>): (r: Option<string>)
    ensures |paths| > 0 ==> r == Some(paths[0])
    ensures |paths| == 0 ==> r == activeFile
  {
    if |paths| > 0 then Some(paths[0]) else activeFile
  }

  /** The status message of `copy_to_clipboard`. */
  function ClipboardMessage(data: string): string {
    var lines := |Split(data, "\n")|;
    if lines > 1 then "Copied " + NatToString(lines) + " lines to clipboard"
    else "Copied \"" + data + "\" to clipboard"
  }

  /** A character that occurs is counted. */
  lemma {:induction false} CountPresent(s: string, c: char)
    requires c in s
    ensures Count(s, c) > 0
  {
    if s[0] != c {
      assert c in s[1..] by {
        var i :| 0 <= i < |s| && s[i] == c;
        assert s[1..][i - 1] == c;
      }
      CountPresent(s[1..], c);
    }
  }

  /** Data with a line break is reported by its number of lines, one more than its line
      breaks; data on one line is quoted whole. */
  lemma ClipboardMessageCases(data: string)
    ensures '\n' in data ==>
      ClipboardMessage(data) == "Copied " + NatToString(Count(data, '\n') + 1) + " lines to clipboard"
    ensures '\n' !in data ==> ClipboardMessage(data) == "Copied \"" + data + "\" to clipboard"
  {
    SplitCharCount(data, '\n');
    if '\n' in data {
      CountPresent(data, '\n');
    } else {
      CountAbsent(data, '\n');
    }
  }

  // ---------------------------------------------------------------------------
  // `DuplicateCommand.run` and `MoveCommand.run`.

  /** A name that does not start with a dot and holds a dot has an extension. */
  lemma PlainNameHasExtension(p: string)
    requires |p| > 0 && p[0] != '.' && '/' !in p && '.' in p
    ensures SplitExt(p).1 != ""
  {
    assert LastIndexOf(p, '/').None?;
    var dot := LastIndexOf(p, '.').value;
    assert !LeadingDots(p, 0, dot) by { assert p[0] != '.'; }
  }

  /** So a name cut from such a leaf keeps no dot once `splitext` finds no extension in it. */
  lemma PlainPrefixHasExtension(leaf: string, name: string)
    requires |leaf| > 0 && leaf[0] != '.' && '/' !in leaf
    requires |name| <= |leaf| && name == leaf[..|name|] && '.' in name
    ensures SplitExt(name).1 != ""
  {
    assert name[0] == leaf[0];
    assert '/' !in name by {
      forall i | 0 <= i < |name| ensures name[i] != '/' { assert name[i] == leaf[i]; }
    }
    PlainNameHasExtension(name);
  }

  /** One turn of the loop of `DuplicateCommand.run` keeps the leaf split in two at a dot. */
  lemma ShiftExtension(name: string, ext: string, leaf: string)
    requires name + ext == leaf && |ext| > 0 && ext[0] == '.'
    ensures var split := SplitExt(name);
      && split.0 + (split.1 + ext) == leaf
      && |split.1 + ext| > 0 && (split.1 + ext)[0] == '.'
  {
    var split := SplitExt(name);
    assert split.0 + (split.1 + ext) == (split.0 + split.1) + ext;
  }

  /** `name` holds a character other than a dot. */
  predicate HasNonDot(name: string) {
    exists i :: 0 <= i < |name| && name[i] != '.'
  }

  /** `leaf[..n]` is the leaf up to its first dot after a character other than a dot: the
      part that ends before the compound extension. Only leading dots come before it. */
  predicate CompoundNameEnd(leaf: string, n: nat) {
    && 0 < n < |leaf| && leaf[n] == '.' && leaf[n - 1] != '.'
    && forall i, j :: 0 <= i <= j < n && leaf[j] == '.' ==> leaf[i] == '.'
  }

  /** At most one cut of a leaf has that shape. */
  lemma CompoundNameEndUnique(leaf: string, m: nat, n: nat)
    requires CompoundNameEnd(leaf, m) && CompoundNameEnd(leaf, n)
    ensures m == n
  {
  }

  /** What `splitext` leaves of a name without a separator once it has found an extension
      still holds a character other than a dot. */
  lemma ExtensionLeavesNonDot(p: string)
    requires '/' !in p && SplitExt(p).1 != ""
    ensures HasNonDot(SplitExt(p).0)
  {
    assert LastIndexOf(p, '/').None?;
    var dot := LastIndexOf(p, '.').value;
    assert !LeadingDots(p, 0, dot);
    var i :| 0 <= i < dot && p[i] != '.';
    assert SplitExt(p).0[i] == p[i];
  }

  /** When `splitext` finds no extension in a name without a separator that holds a dot and
      a character other than a dot, all its dots lead it and it ends in that other
      character. */
  lemma NoExtensionLeadingDots(p: string)
    requires '/' !in p && '.' in p && HasNonDot(p) && SplitExt(p).1 == ""
    ensures p[|p| - 1] != '.'
    ensures forall i, j :: 0 <= i <= j < |p| && p[j] == '.' ==> p[i] == '.'
  {
    assert LastIndexOf(p, '/').None?;
    var dot := LastIndexOf(p, '.').value;
    assert LeadingDots(p, 0, dot);
    var k :| 0 <= k < |p| && p[k] != '.';
    assert dot < k;
  }

  /** The loop of `DuplicateCommand.run`: every extension of the leaf is moved from the name
      to the extension, until the name has no dot left or `splitext` finds no extension in
      it. For a leaf without a separator the name then ends at the first dot that follows
      a character other than a dot, so `.a.b` gives `.a` and `.b`, `a.tar.gz` gives `a` and
      `.tar.gz`. */
  method CompoundSplitExt(leaf: string) returns (name: string, ext: string)
    ensures name + ext == leaf
    ensures ext == "" <==> SplitExt(leaf).1 == ""
    ensures ext != "" ==> ext[0] == '.' && ('.' in name ==> SplitExt(name).1 == "")
    ensures ext != "" && '/' !in leaf ==> CompoundNameEnd(leaf, |name|)
    ensures |leaf| > 0 && leaf[0] != '.' && '/' !in leaf ==> '.' !in name
  {
    name, ext := SplitExt(leaf).0, SplitExt(leaf).1;
    if ext != "" {
      if '/' !in leaf {
        ExtensionLeavesNonDot(leaf);
      }
      while '.' in name
        invariant name + ext == leaf && |ext| > 0 && ext[0] == '.'
        invariant '/' !in leaf ==> HasNonDot(name)
        decreases |name|
      {
        var split := SplitExt(name);
        ShiftExtension(name, ext, leaf);
        if '/' !in leaf {
          assert name == leaf[..|name|];
          assert '/' !in name;
          if split.1 != "" {
            ExtensionLeavesNonDot(name);
          }
        }
        if split.1 == "" {
          break;
        }
        name := split.0;
        ext := split.1 + ext;
      }
      if '/' !in leaf {
        NameEndAfterLoop(leaf, name, ext);
      }
    }
    if |leaf| > 0 && leaf[0] != '.' && '/' !in leaf && '.' in name {
      assert name == leaf[..|name|];
      PlainPrefixHasExtension(leaf, name);
    }
  }

  /** Where the loop of `CompoundSplitExt` stops, the name ends at the first dot that
      follows a character other than a dot. */
  lemma NameEndAfterLoop(leaf: string, name: string, ext: string)
    requires name + ext == leaf && |ext| > 0 && ext[0] == '.' && '/' !in leaf
    requires HasNonDot(name) && ('.' in name ==> SplitExt(name).1 == "")
    ensures CompoundNameEnd(leaf, |name|)
  {
    assert name == leaf[..|name|] && leaf[|name|] == '.';
    if '.' in name {
      assert '/' !in name;
      NoExtensionLeadingDots(name);
    } else {
      var k :| 0 <= k < |name| && name[k] != '.';
      assert name[|name| - 1] != '.';
    }
  }

  /** The region both commands select in the input panel, as written: from one past the
      length of the directory part to the start of the extension. */
  function SelectionAsWritten(source: string, ext: string): (int, int) {
    (|PathSplit(source).0| + 1, |source| - |ext|)
  }

  /** For a file in the root directory the directory part is `/` itself, so the selection
      starts one character into the name: for `/a.txt` it is empty, and the name `a` sits at
      `[1, 2)`. */
  lemma RootFileSelectionMissesName()
    ensures PathSplit("/a.txt") == ("/", "a.txt") && SplitExt("a.txt") == ("a", ".txt")
    ensures SelectionAsWritten("/a.txt", ".txt") == (2, 2)
    ensures "/a.txt"[1..2] == "a"
  {
    var p := "/a.txt";
    assert p[0] == '/' && forall j :: 1 <= j < |p| ==> p[j] != '/';
    assert LastIndexOf(p, '/') == Some(0);
    assert p[..1] == "/" && p[1..] == "a.txt";
    assert AllOf(p[..1], 0, 1, '/');
    TxtExtension();
  }

  /** `os.path.splitext('a.txt') == ('a', '.txt')`. */
  lemma TxtExtension()
    ensures SplitExt("a.txt") == ("a", ".txt")
  {
    var leaf := "a.txt";
    assert leaf[1] == '.' && forall j :: 2 <= j < |leaf| ==> leaf[j] != '.';
    assert LastIndexOf(leaf, '.') == Some(1);
    assert forall j :: 0 <= j < |leaf| ==> leaf[j] != '/';
    assert LastIndexOf(leaf, '/') == None;
    assert !LeadingDots(leaf, 0, 1) by { assert leaf[0] != '.'; }
    assert leaf[..1] == "a" && leaf[1..] == ".txt";
  }

  /** A separator repeated before the leaf: the directory part of `/x//a.txt` is `/x`, so
      the selection starts one character early and selects `/a` instead of `a`. */
  lemma RepeatedSeparatorSelectionEarly()
    ensures PathSplit("/x//a.txt") == ("/x", "a.txt")
    ensures SelectionAsWritten("/x//a.txt", ".txt") == (3, 5)
    ensures "/x//a.txt"[3..5] == "/a"
  {
    var p := "/x//a.txt";
    assert p[3] == '/' && forall j :: 4 <= j < |p| ==> p[j] != '/';
    assert LastIndexOf(p, '/') == Some(3);
    var head := p[..4];
    assert head == "/x//" && p[4..] == "a.txt";
    assert head[1] != '/';
    assert !AllOf(head, 0, 4, '/');
    var slash := Chars({'/'});
    assert head[..3] == "/x/" && head[..3][..2] == "/x";
    assert slash.Has('/') && !slash.Has('x');
    assert TrimRight("/x", slash) == "/x";
    assert TrimRight(head, slash) == TrimRight("/x/", slash) == TrimRight("/x", slash);
    assert PathSplit(p) == (TrimRight(head, slash), p[4..]);
  }

  /** A path without a directory part: `a.txt` splits into `""` and `a.txt`, so the
      selection starts one character into the name and is empty. */
  lemma NoDirectorySelectionLate()
    ensures PathSplit("a.txt") == ("", "a.txt")
    ensures SelectionAsWritten("a.txt", ".txt") == (1, 1)
  {
    var p := "a.txt";
    assert forall j :: 0 <= j < |p| ==> p[j] != '/';
    assert LastIndexOf(p, '/') == None;
    assert p[..0] == "" && p[0..] == p;
  }

  /** On every path the region as written ends where the corrected one does, and starts
      `1 - SeparatorGap(source)` characters from it: it is right exactly when the directory
      part is not empty and one `/` separates it from the leaf. With no directory part, or
      for a file in the root directory, it starts one character late; after a repeated
      separator it starts early. */
  lemma SelectionAsWrittenOffset(source: string, ext: string)
    requires |ext| <= |PathSplit(source).1|
    requires PathSplit(source).1[|PathSplit(source).1| - |ext|..] == ext
    ensures var base := PathSplit(source).0;
      var w := SelectionAsWritten(source, ext);
      var c := NameSelection(source, PathSplit(source).1, ext);
      && w.1 == c.1 && w.0 == c.0 + 1 - SeparatorGap(source)
      && (w == c <==> base != "" && SeparatorGap(source) == 1)
      && (SeparatorGap(source) == 0 <==> AllOf(base, 0, |base|, '/'))
  {
    PathSplitGap(source);
  }

  /** The region the commands mean to select: the leaf without its extension, for a `leaf`
      that ends `source` and an `ext` that ends the leaf. */
  function NameSelection(source: string, leaf: string, ext: string): (r: (int, int))
    requires |leaf| <= |source| && source[|source| - |leaf|..] == leaf
    requires |ext| <= |leaf| && leaf[|leaf| - |ext|..] == ext
    ensures 0 <= r.0 <= r.1 <= |source|
    ensures source[r.0..r.1] + ext == leaf
  {
    assert source[|source| - |leaf|..|source| - |ext|] + ext == leaf by {
      assert leaf == leaf[..|leaf| - |ext|] + leaf[|leaf| - |ext|..];
      assert source[|source| - |leaf|..|source| - |ext|] == leaf[..|leaf| - |ext|];
    }
    (|source| - |leaf|, |source| - |ext|)
  }

  /** `DuplicateCommand.run` up to the input panel, with the region corrected: the name part
      of the leaf of `source` is selected, the compound extension left out. */
  method DuplicateSelection(source: string) returns (name: string, ext: string, region: (int, int))
    ensures name + ext == PathSplit(source).1
    ensures ext == "" <==> SplitExt(PathSplit(source).1).1 == ""
    ensures ext != "" ==> ext[0] == '.' && CompoundNameEnd(PathSplit(source).1, |name|)
    ensures 0 <= region.0 <= region.1 <= |source| && source[region.0..region.1] == name
    ensures region.1 == |source| - |ext|
  {
    var leaf := PathSplit(source).1;
    name, ext := CompoundSplitExt(leaf);
    assert leaf[|leaf| - |ext|..] == ext;
    region := NameSelection(source, leaf, ext);
    assert source[region.0..region.1] + ext == name + ext;
  }

  /** `MoveCommand.run` up to the input panel, with the region corrected: the leaf of `source`
      without its last extension is selected. */
  function MoveSelection(source: string): (r: (int, int))
    ensures 0 <= r.0 <= r.1 <= |source|
    ensures source[r.0..r.1] == SplitExt(PathSplit(source).1).0
  {
    var leaf := PathSplit(source).1;
    var ext := SplitExt(leaf).1;
    assert leaf[|leaf| - |ext|..] == ext;
    var r := NameSelection(source, leaf, ext);
    assert source[r.0..r.1] + ext == SplitExt(leaf).0 + ext;
    r
  }

  // ---------------------------------------------------------------------------
  // `BuildShadersCommand.do_build`: the report shown in a popup.

  /** The two groups of a match of the path pattern: a whole Windows path and its file name. */
  datatype PathMatch = PathMatch(path: string, file: string)

  const ReportHeader: string := "<body style=\"border: 4px solid white; padding: 10px;\"><h2>Shader Build Report</h2>"
  const FailedHtml: string := "<b style=\"color: red\">compilation failed:</b>"
  const SucceededHtml: string := "<b style=\"color: green\">compilation succeeded:</b>"
  const ErrorOpen: string := "<b style=\"color: red;\">"

  /** The lines the report keeps: none mentioning `Microsoft`, none of two characters or
      fewer. */
  predicate KeptReportLine(l: string) {
    !Contains(l, "Microsoft") && |l| > 2
  }

  /** The two filters, in order. */
  function KeptLines(lines: seq<string>): seq<string> {
    if |lines| == 0 then []
    else KeptLines(lines[..|lines| - 1]) + (if KeptReportLine(lines[|lines| - 1]) then [lines[|lines| - 1]] else [])
  }

  /** A line is kept exactly when it is one of the output lines and passes both filters. */
  lemma {:induction false} KeptLinesMembers(lines: seq<string>, l: string)
    ensures l in KeptLines(lines) <==> l in lines && KeptReportLine(l)
  {
    if |lines| > 0 {
      var init := lines[..|lines| - 1];
      KeptLinesMembers(init, l);
      assert lines == init + [lines[|lines| - 1]];
    }
  }

  /** Each path match replaced by its file name, one match after the other. */
  function ShortenPaths(line: string, matches: seq<PathMatch>): string {
    if |matches| == 0 then line
    else
      var m := matches[|matches| - 1];
      Replace(ShortenPaths(line, matches[..|matches| - 1]), m.path, m.file)
  }

  /** The rewriting of one kept line `s` whose path matches are `matches`. The markers for
      `no code produced` and `error` look at the line before its rewriting. */
  function RewriteLine(s: string, matches: seq<PathMatch>): string {
    MarkLine(s, ShortenPaths(s, matches))
  }

  /** The rewriting after the paths of `s` are shortened to `shortened`. */
  function MarkLine(s: string, shortened: string): string {
    var marked := Replace(Replace(shortened, "compilation failed;", FailedHtml), "compilation succeeded; see", SucceededHtml);
    var broken := if Contains(s, "no code produced") then marked + "<br>" else marked;
    if Contains(s, "error") then ErrorOpen + broken + "</b>" else broken
  }

  /** A line mentioning `error` is wrapped in red bold; a line mentioning
      `no code produced` ends in a line break, inside the bold when both apply. */
  lemma RewriteLineMarkers(s: string, matches: seq<PathMatch>)
    ensures var r := RewriteLine(s, matches);
      && (Contains(s, "error") ==> |r| >= |ErrorOpen| + 4 && r[..|ErrorOpen|] == ErrorOpen && r[|r| - 4..] == "</b>")
      && (Contains(s, "no code produced") && !Contains(s, "error") ==> |r| >= 4 && r[|r| - 4..] == "<br>")
      && (Contains(s, "no code produced") && Contains(s, "error") ==> r[|r| - 8..] == "<br></b>")
  {
  }

  /** The inner loop over the path matches of line `i`, shortening it in place. */
  method ShortenLine(output: array<string>, i: nat, matches: seq<PathMatch>)
    requires i < output.Length
    modifies output
    ensures output[i] == ShortenPaths(old(output[i]), matches)
    ensures forall k :: 0 <= k < output.Length && k != i ==> output[k] == old(output[k])
  {
    for j := 0 to |matches|
      invariant output[i] == ShortenPaths(old(output[i]), matches[..j])
      invariant forall k :: 0 <= k < output.Length && k != i ==> output[k] == old(output[k])
    {
      assert matches[..j + 1][..j] == matches[..j];
      output[i] := Replace(output[i], matches[j].path, matches[j].file);
    }
    assert matches[..|matches|] == matches;
  }

  /** The loop over the kept lines, rewriting each in place. */
  method RewriteReport(output: array<string>, findPaths: string -> seq<PathMatch>)
    modifies output
    ensures forall i :: 0 <= i < output.Length ==> output[i] == RewriteLine(old(output[i]), findPaths(old(output[i])))
  {
    for i := 0 to output.Length
      invariant forall k :: 0 <= k < i ==> output[k] == RewriteLine(old(output[k]), findPaths(old(output[k])))
      invariant forall k :: i <= k < output.Length ==> output[k] == old(output[k])
    {
      var s := output[i];
      var matches := findPaths(s);
      ShortenLine(output, i, matches);
      var line := output[i];
      line := Replace(line, "compilation failed;", FailedHtml);
      line := Replace(line, "compilation succeeded; see", SucceededHtml);
      if Contains(s, "no code produced") {
        line := line + "<br>";
      }
      if Contains(s, "error") {
        line := ErrorOpen + line + "</b>";
      }
      assert line == MarkLine(s, ShortenPaths(s, matches));
      output[i] := line;
    }
  }

  /** The popup text for the script output `output`. */
  function ReportOf(output: string, findPaths: string -> seq<PathMatch>): (r: string)
    ensures |r| >= |ReportHeader| && r[..|ReportHeader|] == ReportHeader
    ensures |r| >= 7 && r[|r| - 7..] == "</body>"
  {
    var kept := KeptLines(Split(output, "\r\n"));
    var lines := seq(|kept|, i requires 0 <= i < |kept| => RewriteLine(kept[i], findPaths(kept[i])));
    var body := Replace(Join("<br>", lines), "\n", "<br>");
    ReportFrame(body);
    Join("<br>", [ReportHeader, body, "</body>"])
  }

  /** The report's header opens it and the closing tag ends it, whatever the body. */
  lemma ReportFrame(body: string)
    ensures var r := Join("<br>", [ReportHeader, body, "</body>"]);
      && |r| >= |ReportHeader| && r[..|ReportHeader|] == ReportHeader
      && |r| >= 7 && r[|r| - 7..] == "</body>"
  {
    var parts := [ReportHeader, body, "</body>"];
    assert parts[1..] == [body, "</body>"] && parts[1..][1..] == ["</body>"];
    assert Join("<br>", parts[1..][1..]) == "</body>";
    assert Join("<br>", parts[1..]) == body + "<br>" + "</body>";
    var r := Join("<br>", parts);
    assert r == ReportHeader + "<br>" + (body + "<br>" + "</body>");
  }

  /** The output is split at `\r\n`, filtered, rewritten line by line and joined with line
      breaks; a failing script raises a `RuntimeError` and shows no popup. */
  method ShaderReport(output: Option<string>, findPaths: string -> seq<PathMatch>) returns (r: Outcome<string>)
    ensures output.None? ==> r == Raise(RuntimeError)
    ensures output.Some? ==> r == Ok(ReportOf(output.value, findPaths))
  {
    if output.None? {
      return Raise(RuntimeError);
    }
    var kept := KeptLines(Split(output.value, "\r\n"));
    var lines := new string[|kept|](i requires 0 <= i < |kept| => kept[i]);
    RewriteReport(lines, findPaths);
    assert lines[..] == seq(|kept|, i requires 0 <= i < |kept| => RewriteLine(kept[i], findPaths(kept[i])));
    var out := Join("<br>", lines[..]);
    r := Ok(Join("<br>", [ReportHeader, Replace(out, "\n", "<br>"), "</body>"]));
  }

  /** No line break comes before the first occurrence of one. */
  lemma NoBreakBefore(s: string, i: nat)
    requires i <= |s| && forall j :: 0 <= j < i ==> !OccursAt(s, "\n", j)
    ensures '\n' !in s[..i]
  {
    forall j | 0 <= j < i ensures s[j] != '\n' {
      assert !OccursAt(s, "\n", j);
      assert s[j..j + 1] == [s[j]];
    }
  }

  /** No line break is left in the text after its line breaks are replaced. */
  lemma {:induction false} ReplaceLineBreaks(s: string)
    ensures '\n' !in Replace(s, "\n", "<br>")
    decreases |s|
  {
    match IndexOf(s, "\n")
    case None =>
      NoBreakBefore(s, |s|);
      assert s[..|s|] == s;
    case Some(i) =>
      NoBreakBefore(s, i);
      ReplaceLineBreaks(s[i + 1..]);
      var rest := Replace(s[i + 1..], "\n", "<br>");
      assert Replace(s, "\n", "<br>") == s[..i] + "<br>" + rest;
  }
}
