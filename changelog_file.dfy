/**
 * The file step of `generateChangelog`: the new release section goes on top
 * of `CHANGELOG.md` under its `# Changelog` title, and a `_temp` sibling gets
 * the same section without its version header, for the release notes. The
 * file system is a map from path to content; paths are split on `/` only.
 */
module ChangelogFile {
  import opened Text
  import opened Results

  const ChangelogHeader: string := "# Changelog\n\n"

  /** Index of the last `c` in `s`, or -1. */
  function LastIndexOf(s: string, c: char): (r: int)
    ensures -1 <= r < |s|
    ensures r >= 0 ==> s[r] == c
    ensures forall k :: r < k < |s| ==> s[k] != c
  {
    if s == [] then -1
    else if s[|s| - 1] == c then |s| - 1
    else LastIndexOf(s[..|s| - 1], c)
  }

  /** `path.basename(p)`: the part after the last `/`. */
  function BaseName(p: string): (r: string)
    ensures '/' !in r
  {
    p[LastIndexOf(p, '/') + 1..]
  }

  /** `path.dirname(p)`: the part before the last `/`, `.` when there is none. */
  function DirName(p: string): string {
    var k := LastIndexOf(p, '/');
    if k < 0 then "." else if k == 0 then "/" else p[..k]
  }

  /** `path.extname(p)`: the base name from its last `.`, unless that dot starts the name. */
  function ExtName(p: string): (r: string)
    ensures r == [] || (r[0] == '.' && EndsWith(BaseName(p), r) && |r| < |BaseName(p)|)
  {
    var b := BaseName(p);
    var k := LastIndexOf(b, '.');
    if k <= 0 then "" else b[k..]
  }

  /** `path.basename(p, ext)`: the base name with `ext` cut off its end. */
  function BaseNameWithout(p: string, ext: string): string {
    var b := BaseName(p);
    if ext != [] && |ext| < |b| && EndsWith(b, ext) then b[..|b| - |ext|] else b
  }

  /** `path.join(dir, name)` for a directory that `DirName` returned. */
  function PathJoin(dir: string, name: string): string {
    if dir == "." then name else if dir == "/" then "/" + name else dir + "/" + name
  }

  /** `s.split("\n").slice(1).join("\n")`: everything after the first line. */
  function DropFirstLine(s: string): string {
    Join(SplitOn(s, "\n")[1..], "\n")
  }

  /** `s[..j + 1]` is whitespace ending in a newline: a place where `/^\s*\n/` can end. */
  predicate BlankLineEnd(s: string, j: int) {
    0 <= j < |s| && s[j] == '\n' && AllSpace(s[..j + 1])
  }

  /**
   * `s.replace(/^\s*\n/, "")`: when the pattern matches, the greedy `\s*`
   * makes the match end at the last newline of the leading whitespace, and
   * everything up to it goes; otherwise `s` is kept.
   */
  function StripLeadingBlankLine(s: string): (r: string)
    ensures (forall j :: !BlankLineEnd(s, j)) ==> r == s
    ensures (exists j :: BlankLineEnd(s, j)) ==>
      exists m :: BlankLineEnd(s, m) && r == s[m + 1..] && forall j :: BlankLineEnd(s, j) ==> j <= m
  {
    var k := SkipSpaces(s, 0);
    var j := LastIndexOf(s[..k], '\n');
    forall x | BlankLineEnd(s, x) ensures x <= j {
      assert s[..x + 1][x] == s[x];
      assert s[..k][x] == '\n';
    }
    if j < 0 then s
    else
      assert AllSpace(s[..j + 1]);
      assert BlankLineEnd(s, j);
      s[j + 1..]
  }

  /** The name of the release-notes copy: `{name}_temp{ext}` next to the changelog. */
  function TempPath(outputFile: string): string {
    var ext := ExtName(outputFile);
    PathJoin(DirName(outputFile), BaseNameWithout(outputFile, ext) + "_temp" + ext)
  }

  /** Whether the output file is the changelog proper; the name is compared case-insensitively. */
  predicate IsChangelogFile(outputFile: string) {
    ToLowerAscii(BaseName(outputFile)) == "changelog.md"
  }

  /** The new changelog: title, section, then the old file without its first line. */
  function Prepended(previous: Option<string>, output: string): (r: string)
    ensures StartsWith(r, ChangelogHeader + output)
  {
    match previous
    case None => ChangelogHeader + output
    case Some(text) => ChangelogHeader + output + DropFirstLine(text)
  }

  /** The release-notes copy: the section without its first line and the blank lines after it. */
  function Notes(output: string): string {
    ChangelogHeader + StripLeadingBlankLine(DropFirstLine(output))
  }

  /** The changelog case: prepend to the changelog and write the release-notes copy beside it. */
  function PrependWrites(files: map<string, string>, outputFile: string, output: string): (r: map<string, string>)
    ensures outputFile in r && StartsWith(r[outputFile], ChangelogHeader + output)
  {
    var previous := if outputFile in files then Some(files[outputFile]) else None;
    TempPathDiffers(outputFile);
    files[outputFile := Prepended(previous, output)][TempPath(outputFile) := Notes(output)]
  }

  /**
   * The writes of `generateChangelog` for the section `output`. With no
   * output file the section is printed and no file changes.
   */
  function WriteChangelog(files: map<string, string>, outputFile: string, output: string): (r: map<string, string>)
    ensures outputFile == "" ==> r == files
    ensures outputFile != "" ==> outputFile in r && StartsWith(r[outputFile], ChangelogHeader + output)
  {
    if outputFile == "" then files
    else if IsChangelogFile(outputFile) then PrependWrites(files, outputFile, output)
    else files[outputFile := ChangelogHeader + output]
  }

  /** The last `c` of `a + [c] + b` is the one after `a` when `b` has none. */
  lemma {:induction false} LastIndexAfter(a: string, c: char, b: string)
    requires c !in b
    ensures LastIndexOf(a + [c] + b, c) == |a|
    decreases |b|
  {
    var s := a + [c] + b;
    if b == [] {
      assert s[|s| - 1] == c;
    } else {
      assert s[|s| - 1] == b[|b| - 1];
      assert b[|b| - 1] in b;
      assert s[..|s| - 1] == a + [c] + b[..|b| - 1];
      LastIndexAfter(a, c, b[..|b| - 1]);
    }
  }

  lemma {:induction false} LastIndexAbsent(s: string, c: char)
    requires c !in s
    ensures LastIndexOf(s, c) == -1
    decreases |s|
  {
    if s != [] {
      assert s[|s| - 1] in s;
      LastIndexAbsent(s[..|s| - 1], c);
    }
  }

  /** Joining a slash-free name onto a directory gives a path whose base name is that name. */
  lemma BaseNameOfJoin(dir: string, name: string)
    requires '/' !in name
    ensures BaseName(PathJoin(dir, name)) == name
  {
    if dir == "." {
      LastIndexAbsent(name, '/');
    } else if dir == "/" {
      LastIndexAfter([], '/', name);
      assert "/" + name == [] + ['/'] + name;
    } else {
      LastIndexAfter(dir, '/', name);
      assert dir + "/" + name == dir + ['/'] + name;
    }
  }

  /** The `{name}_temp{ext}` name is five characters longer than the base name it comes from. */
  lemma TempNameLength(outputFile: string)
    ensures var ext := ExtName(outputFile);
      var name := BaseNameWithout(outputFile, ext) + "_temp" + ext;
      '/' !in name && |name| == |BaseName(outputFile)| + 5
  {
    var b := BaseName(outputFile);
    var ext := ExtName(outputFile);
    var stem := BaseNameWithout(outputFile, ext);
    assert |stem| + |ext| == |b|;
    assert '/' !in stem && '/' !in ext by {
      if ext != [] {
        assert ext == b[|b| - |ext|..];
      }
    }
  }

  /** The `_temp` copy never overwrites the file it was made from. */
  lemma TempPathDiffers(outputFile: string)
    ensures TempPath(outputFile) != outputFile
  {
    var ext := ExtName(outputFile);
    var name := BaseNameWithout(outputFile, ext) + "_temp" + ext;
    TempNameLength(outputFile);
    BaseNameOfJoin(DirName(outputFile), name);
  }

  /** Dropping the first line of `a + "\n" + b` leaves `b` when `a` is a single line. */
  lemma DropFirstLineOf(a: string, b: string)
    requires '\n' !in a
    ensures DropFirstLine(a + "\n" + b) == b
  {
    SplitCons(a, '\n', b);
    JoinOfSplit(b, "\n");
  }

  /**
   * Prepending: when the changelog already holds `# Changelog`, a blank line
   * and older sections, the new file is the title, the new section and the
   * older sections, intact.
   */
  lemma PrependKeepsOlderSections(files: map<string, string>, outputFile: string, output: string, older: string)
    requires IsChangelogFile(outputFile) && outputFile in files && files[outputFile] == ChangelogHeader + older
    ensures WriteChangelog(files, outputFile, output)[outputFile] == ChangelogHeader + output + "\n" + older
  {
    assert outputFile != "";
    assert ChangelogHeader + older == "# Changelog" + "\n" + ("\n" + older);
    DropFirstLineOf("# Changelog", "\n" + older);
    TempPathDiffers(outputFile);
  }

  /** A changelog that does not exist yet is created with the title and the section alone. */
  lemma NewChangelog(files: map<string, string>, outputFile: string, output: string)
    requires IsChangelogFile(outputFile) && outputFile !in files
    ensures WriteChangelog(files, outputFile, output)[outputFile] == ChangelogHeader + output
  {
    assert outputFile != "";
    TempPathDiffers(outputFile);
  }

  /** An existing changelog of any content loses its first line and gets the title and the section on top. */
  lemma ExistingChangelog(files: map<string, string>, outputFile: string, output: string)
    requires IsChangelogFile(outputFile) && outputFile in files
    ensures WriteChangelog(files, outputFile, output)[outputFile] ==
      ChangelogHeader + output + DropFirstLine(files[outputFile])
  {
    assert outputFile != "";
    TempPathDiffers(outputFile);
  }

  /**
   * The release-notes copy of a section `## version (date)`, blank line,
   * body: the title and the body, without the version line.
   */
  lemma NotesDropVersionLine(files: map<string, string>, outputFile: string, header: string, body: string)
    requires IsChangelogFile(outputFile) && '\n' !in header && (body == [] || !IsSpace(body[0]))
    ensures WriteChangelog(files, outputFile, header + "\n\n" + body)[TempPath(outputFile)] == ChangelogHeader + body
  {
    var output := header + "\n\n" + body;
    assert output == header + "\n" + ("\n" + body);
    DropFirstLineOf(header, "\n" + body);
    StripOneBlankLine(body);
    TempPathDiffers(outputFile);
  }

  /** A single newline before a body that starts with a non-space is stripped. */
  lemma StripOneBlankLine(body: string)
    requires body == [] || !IsSpace(body[0])
    ensures StripLeadingBlankLine("\n" + body) == body
  {
    var s := "\n" + body;
    assert s[0] == '\n' && s[1..] == body;
    assert SkipSpaces(s, 1) == 1;
    assert s[..1] == "\n";
  }

  /** Any other output file is simply overwritten with the title and the section. */
  lemma OtherFileOverwritten(files: map<string, string>, outputFile: string, output: string)
    requires outputFile != "" && !IsChangelogFile(outputFile)
    ensures WriteChangelog(files, outputFile, output) == files[outputFile := ChangelogHeader + output]
  {
  }
}
