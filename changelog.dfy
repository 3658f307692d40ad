/**
 * `generateChangelog`: reads the commits of `git log` in the custom record
 * format `%s FIELD %h FIELD %b COMMIT`, classifies each one, renders it as a
 * changelog entry with its body nested underneath, puts the entry into one
 * of five buckets and hands the buckets to `buildMarkdown`. The remote URL,
 * the date, the raw log text and the file system are parameters.
 */
module Changelog {
  import opened Text
  import opened Results
  import opened Conventional
  import opened CommitClassifier
  import opened Semver
  import opened BulletIndent
  import opened ChangelogMarkdown
  import opened ChangelogFile

  /** `\x1f`, written by `git log` after every commit. */
  const CommitDelim: char := '\U{1F}'
  /** `\x1e`, written between the subject, the short hash and the body. */
  const FieldDelim: char := '\U{1E}'

  const GitHubPrefix: string := "https://github.com/"

  // ---------------------------------------------------------------------
  // The repository URL
  // ---------------------------------------------------------------------

  /**
   * `^git@github.com:(.*)\.git$`: the captured path. The dot of `github.com`
   * is the regex wildcard, and neither it nor `.*` matches a line terminator.
   */
  function SshPath(s: string): (r: Option<string>)
    ensures r.Some? ==>
      |s| >= 19 && !IsLineTerminator(s[10]) && NoLineTerminator(r.value) &&
      s == "git@github" + [s[10]] + "com:" + r.value + ".git"
  {
    if |s| >= 19 && s[..10] == "git@github" && !IsLineTerminator(s[10]) && s[11..15] == "com:"
       && EndsWith(s, ".git") && NoLineTerminator(s[15..|s| - 4])
    then
      assert s == s[..10] + [s[10]] + s[11..15] + s[15..|s| - 4] + s[|s| - 4..];
      Some(s[15..|s| - 4])
    else None
  }

  /**
   * `^https:\/\/github.com\/(.*?)(\.git)?$`: the captured path. The lazy
   * capture stops before a final `.git` when it can; otherwise it takes the
   * rest of the string.
   */
  function HttpsPath(s: string): (r: Option<string>)
    ensures r.Some? ==>
      |s| >= 19 && !IsLineTerminator(s[14]) && NoLineTerminator(r.value) &&
      (s == "https://github" + [s[14]] + "com/" + r.value + ".git" ||
       (s == "https://github" + [s[14]] + "com/" + r.value && !EndsWith(r.value, ".git")))
  {
    if |s| >= 19 && s[..14] == "https://github" && !IsLineTerminator(s[14]) && s[15..19] == "com/" then
      var rest := s[19..];
      assert s == s[..14] + [s[14]] + s[15..19] + rest;
      if EndsWith(rest, ".git") && NoLineTerminator(rest[..|rest| - 4]) then
        assert rest == rest[..|rest| - 4] + ".git";
        Some(rest[..|rest| - 4])
      else if !EndsWith(rest, ".git") && NoLineTerminator(rest) then
        // A rest that ends in `.git` but has a line terminator before it
        // fails both ways, so the test of the suffix here changes nothing.
        Some(rest)
      else None
    else None
  }

  /**
   * `getGitHubRepoUrl`, given the output of `git remote get-url origin`
   * (`None` when the command fails): the web URL of a GitHub remote, or "".
   */
  function RepoUrl(remote: Option<string>): (r: string)
    ensures r == "" || StartsWith(r, GitHubPrefix)
  {
    match remote
    case None => ""
    case Some(raw) =>
      var s := Trim(raw);
      match SshPath(s)
      case Some(p) => GitHubPrefix + p
      case None =>
        match HttpsPath(s)
        case Some(p) => GitHubPrefix + p
        case None => ""
  }

  /** The SSH remote of a repository yields its path. */
  lemma SshPathOf(p: string)
    requires NoLineTerminator(p)
    ensures SshPath("git@github.com:" + p + ".git") == Some(p)
  {
    var s := "git@github.com:" + p + ".git";
    assert s[..10] == "git@github" && s[10] == '.' && s[11..15] == "com:";
    assert s[15..|s| - 4] == p;
    assert s[|s| - 4..] == ".git";
  }

  /** The HTTPS remote with the `.git` suffix yields the path without it. */
  lemma HttpsPathOf(p: string)
    requires NoLineTerminator(p)
    ensures HttpsPath("https://github.com/" + p + ".git") == Some(p)
  {
    var s := "https://github.com/" + p + ".git";
    assert s[..14] == "https://github" && s[14] == '.' && s[15..19] == "com/";
    var rest := s[19..];
    assert rest == p + ".git";
    assert rest[..|rest| - 4] == p;
    assert rest[|rest| - 4..] == ".git";
  }

  /** The HTTPS remote without a suffix yields the whole path. */
  lemma HttpsPathPlain(p: string)
    requires NoLineTerminator(p) && !EndsWith(p, ".git")
    ensures HttpsPath("https://github.com/" + p) == Some(p)
  {
    var s := "https://github.com/" + p;
    assert s[..14] == "https://github" && s[14] == '.' && s[15..19] == "com/";
    assert s[19..] == p;
  }

  /** A remote that starts and ends with a non-space survives `trim`. */
  lemma TrimmedRemote(s: string)
    requires |s| > 0 && !IsSpace(s[0]) && !IsSpace(s[|s| - 1])
    ensures Trim(s) == s
  {
    TrimOfTrimmed(s);
  }

  /** The SSH and the HTTPS remote of the same repository give the same web URL. */
  lemma SameUrlForSshAndHttps(p: string)
    requires NoLineTerminator(p)
    ensures RepoUrl(Some("git@github.com:" + p + ".git")) == GitHubPrefix + p
    ensures RepoUrl(Some("https://github.com/" + p + ".git")) == GitHubPrefix + p
  {
    var ssh := "git@github.com:" + p + ".git";
    var https := "https://github.com/" + p + ".git";
    assert ssh[0] == 'g' && ssh[|ssh| - 1] == 't';
    assert https[0] == 'h' && https[|https| - 1] == 't';
    TrimmedRemote(ssh);
    TrimmedRemote(https);
    SshPathOf(p);
    HttpsPathOf(p);
    assert https[..10] != "git@github" by {
      assert https[0] == 'h';
    }
  }

  /** A remote that is not on GitHub gives no URL, so entries carry no links. */
  lemma OtherRemoteHasNoUrl(s: string)
    requires |s| > 0 && s[0] != 'g' && s[0] != 'h' && !IsSpace(s[0]) && !IsSpace(s[|s| - 1])
    ensures RepoUrl(Some(s)) == ""
  {
    TrimmedRemote(s);
  }

  // ---------------------------------------------------------------------
  // Log records
  // ---------------------------------------------------------------------

  /** `.map((x) => x.trim())`. */
  function TrimAll(xs: seq<string>): (r: seq<string>)
    ensures |r| == |xs| && forall k :: 0 <= k < |xs| ==> r[k] == Trim(xs[k])
  {
    seq(|xs|, k requires 0 <= k < |xs| => Trim(xs[k]))
  }

  /** `rawLog.split(COMMIT_DELIM).map(trim).filter(Boolean)`: the commit records. */
  function LogRecords(raw: string): (r: seq<string>)
    ensures forall k :: 0 <= k < |r| ==> r[k] != "" && IsTrimmed(r[k]) && CommitDelim !in r[k]
  {
    var pieces := SplitOn(raw, [CommitDelim]);
    var trimmed := TrimAll(pieces);
    forall k | 0 <= k < |trimmed| ensures CommitDelim !in trimmed[k] {
      TrimKeepsAbsence(pieces[k], CommitDelim);
    }
    NonEmpty(trimmed)
  }

  /**
   * What `git log --pretty=format:` prints for the records `recs`: each
   * record followed by the commit delimiter, with a newline between commits.
   */
  function GitLogOutput(recs: seq<string>): string {
    Join(GitLogPieces(recs), [CommitDelim])
  }

  /** The pieces of `GitLogOutput` between the commit delimiters. */
  function GitLogPieces(recs: seq<string>): (r: seq<string>)
    ensures |r| == |recs| + 1 && r[|recs|] == ""
  {
    seq(|recs|, k requires 0 <= k < |recs| => if k == 0 then recs[0] else "\n" + recs[k]) + [""]
  }

  lemma TrimAfterNewline(r: string)
    requires r != [] && IsTrimmed(r)
    ensures Trim("\n" + r) == r
  {
    var s := "\n" + r;
    assert s[0] == '\n' && s[1..] == r;
    assert SkipSpaces(s, 1) == 1;
    assert BackSpaces(s, 1, |s|) == |s|;
  }

  /**
   * Reading the log back: the records `git log` was asked to print are
   * exactly the records found, in order, when each is non-empty, trimmed and
   * free of the commit delimiter.
   */
  lemma LogRecordsRoundTrip(recs: seq<string>)
    requires forall k :: 0 <= k < |recs| ==> recs[k] != "" && IsTrimmed(recs[k]) && CommitDelim !in recs[k]
    ensures LogRecords(GitLogOutput(recs)) == recs
  {
    var pieces := GitLogPieces(recs);
    forall k | 0 <= k < |pieces| ensures CommitDelim !in pieces[k] {
      if 0 < k < |recs| {
        assert pieces[k] == "\n" + recs[k];
      }
    }
    SplitJoin(pieces, CommitDelim);
    var trimmed := TrimAll(pieces);
    forall k | 0 <= k < |recs| ensures trimmed[k] == recs[k] {
      if k == 0 {
        TrimOfTrimmed(recs[0]);
      } else {
        TrimAfterNewline(recs[k]);
      }
    }
    assert trimmed == recs + [""];
    NonEmptyOfNonEmpty(recs);
  }

  /** The fields of one record. */
  datatype RawCommit = RawCommit(subject: string, short: string, body: string)

  /**
   * `const [subjectOrig = "", short = "", ...bodyParts] = line.split(FIELD_DELIM)`
   * and the `continue` when the subject or the short hash is empty; the body
   * is the remaining fields joined back together.
   */
  function ParseRecord(line: string): (r: Option<RawCommit>)
    ensures r.Some? ==> (r.value.subject != "" && r.value.short != "" &&
                         FieldDelim !in r.value.subject && FieldDelim !in r.value.short)
    ensures FieldDelim !in line ==> r.None?
  {
    var fields := SplitOn(line, [FieldDelim]);
    var subject := fields[0];
    var short := if |fields| >= 2 then fields[1] else "";
    if subject == "" || short == "" then None
    else
      assert FieldDelim in line by {
        JoinOfSplit(line, [FieldDelim]);
        assert line == fields[0] + [FieldDelim] + Join(fields[1..], [FieldDelim]);
        assert line[|fields[0]|] == FieldDelim;
      }
      Some(RawCommit(subject, short, Join(fields[2..], [FieldDelim])))
  }

  /** Parsing the record `git log` prints for a commit gives its fields back. */
  lemma ParseRecordRoundTrip(c: RawCommit)
    requires c.subject != "" && c.short != "" && FieldDelim !in c.subject && FieldDelim !in c.short
    ensures ParseRecord(c.subject + [FieldDelim] + c.short + [FieldDelim] + c.body) == Some(c)
  {
    SplitAfterTwo(c.subject, FieldDelim, c.short, c.body);
    var fields := SplitOn(c.subject + [FieldDelim] + c.short + [FieldDelim] + c.body, [FieldDelim]);
    assert fields[2..] == SplitOn(c.body, [FieldDelim]);
    JoinOfSplit(c.body, [FieldDelim]);
  }

  // ---------------------------------------------------------------------
  // Body lines and the footer
  // ---------------------------------------------------------------------

  /** `/^Co-authored-by:/i`. */
  predicate IsCoAuthorLine(l: string) {
    |l| >= 15 && ToLowerAscii(l[..15]) == "co-authored-by:"
  }

  /** `/^[-*]{3,}$/`: a horizontal rule. */
  predicate IsRule(l: string) {
    |l| >= 3 && forall i :: 0 <= i < |l| ==> l[i] == '-' || l[i] == '*'
  }

  /** The filter callback: non-empty, not a co-author trailer, not a rule. */
  predicate KeepLine(l: string) {
    l != "" && !IsCoAuthorLine(l) && !IsRule(l)
  }

  /** `.filter(KeepLine)`. */
  function KeptLines(xs: seq<string>): (r: seq<string>)
    ensures |r| <= |xs|
    ensures forall k :: 0 <= k < |r| ==> KeepLine(r[k]) && r[k] in xs
    ensures forall x :: x in xs && KeepLine(x) ==> x in r
  {
    if xs == [] then []
    else if KeepLine(xs[0]) then [xs[0]] + KeptLines(xs[1..])
    else KeptLines(xs[1..])
  }

  /** A character that no piece holds is not in their join, unless it is the separator. */
  lemma {:induction false} JoinAbsent(xs: seq<string>, d: char, c: char)
    requires c != d && forall k :: 0 <= k < |xs| ==> c !in xs[k]
    ensures c !in Join(xs, [d])
  {
    if |xs| >= 2 {
      JoinAbsent(xs[1..], d, c);
    }
  }

  /**
   * The lines of a commit body, as the footer sees them: field delimiters
   * become newlines, every line is trimmed, and blank lines, co-author
   * trailers and rules are dropped.
   */
  function BodyLines(body: string): (r: seq<string>)
    ensures forall k :: 0 <= k < |r| ==>
      KeepLine(r[k]) && IsTrimmed(r[k]) && '\n' !in r[k] && FieldDelim !in r[k]
  {
    var parts := SplitOn(body, [FieldDelim]);
    var text := Join(parts, "\n");
    JoinAbsent(parts, '\n', FieldDelim);
    var lines := SplitOn(text, "\n");
    JoinOfSplit(text, "\n");
    var trimmed := TrimAll(lines);
    forall k | 0 <= k < |trimmed| ensures IsTrimmed(trimmed[k]) && '\n' !in trimmed[k] && FieldDelim !in trimmed[k] {
      TrimKeepsAbsence(lines[k], '\n');
      NoPieceHolds(lines, "\n", k, FieldDelim);
      TrimKeepsAbsence(lines[k], FieldDelim);
    }
    KeptLines(trimmed)
  }

  /** Every character of a piece is in the join. */
  lemma {:induction false} NoPieceHolds(xs: seq<string>, d: string, k: nat, c: char)
    requires k < |xs| && c !in Join(xs, d)
    ensures c !in xs[k]
  {
    if |xs| >= 2 && k > 0 {
      assert Join(xs, d) == xs[0] + d + Join(xs[1..], d);
      NoPieceHolds(xs[1..], d, k - 1, c);
    }
  }

  /** `.map((l) => "  " + l)`. */
  function Indented(xs: seq<string>): (r: seq<string>)
    ensures |r| == |xs| && forall k :: 0 <= k < |xs| ==> r[k] == "  " + xs[k]
  {
    seq(|xs|, k requires 0 <= k < |xs| => "  " + xs[k])
  }

  /** The footer: the body lines formatted, split back into lines, each indented by two spaces. */
  function Footer(lines: seq<string>): string {
    if lines == [] then "" else Join(Indented(SplitOn(Join(Rendered(lines), "\n"), "\n")), "\n")
  }

  /**
   * The footer has one line per body line, and a body line at depth `d`
   * starts after `2 + 2d` spaces: one level deeper than the entry itself.
   */
  lemma FooterLines(lines: seq<string>)
    requires forall k :: 0 <= k < |lines| ==> '\n' !in lines[k]
    ensures lines == [] <==> Footer(lines) == ""
    ensures lines != [] ==> SplitOn(Footer(lines), "\n") == Indented(Rendered(lines))
  {
    if lines != [] {
      OneOutputLinePerInputLine(lines);
      var ind := Indented(Rendered(lines));
      forall k | 0 <= k < |ind| ensures '\n' !in ind[k] {
        RenderedIndent(lines, k);
        RenderedNoNewline(lines, k);
      }
      SplitJoin(ind, '\n');
      assert |Footer(lines)| > 0 by {
        RenderedIndent(lines, 0);
        JoinHead(ind, "\n");
      }
    }
  }

  lemma RenderedNoNewline(lines: seq<string>, k: nat)
    requires k < |lines| && '\n' !in lines[k]
    ensures '\n' !in Rendered(lines)[k]
  {
    TrimKeepsAbsence(lines[k], '\n');
    var w := IndentWidth(StackAfter(lines[..k + 1]));
    if LeadingBullet(lines[k]).Some? {
      assert Rendered(lines)[k] == Spaces(w) + Trim(lines[k]);
    } else {
      assert Rendered(lines)[k] == Spaces(w) + ("- " + Trim(lines[k]));
    }
  }

  /** The join starts with the first piece. */
  lemma JoinHead(xs: seq<string>, d: string)
    requires |xs| > 0
    ensures StartsWith(Join(xs, d), xs[0])
  {
  }

  /** Line `k` of the footer: two more spaces than the body line's own indent, then a non-space. */
  lemma FooterLineIndent(lines: seq<string>, k: nat)
    requires k < |lines|
    ensures var w := IndentWidth(StackAfter(lines[..k + 1])) + 2;
      var f := Indented(Rendered(lines))[k];
      4 <= w <= 8 && |f| > w && f[..w] == Spaces(w) && !IsSpace(f[w])
  {
    RenderedIndent(lines, k);
    var w := IndentWidth(StackAfter(lines[..k + 1]));
    var line := Rendered(lines)[k];
    var f := "  " + line;
    assert f[..w + 2] == "  " + line[..w];
    assert f[w + 2] == line[w];
  }

  // ---------------------------------------------------------------------
  // Entries and buckets
  // ---------------------------------------------------------------------

  /** The first line of an entry, with a commit link when the repository URL is known. */
  function MainLine(subject: string, short: string, url: string): string {
    if url != "" then "- " + subject + " [(" + short + ")](" + url + "/commit/" + short + ")"
    else "- " + subject + " (" + short + ")"
  }

  /**
   * The bucket of a classified commit: breaking first, then the
   * case-sensitive `feat`, `fix` and `infra` types, everything else last.
   */
  function CategoryOf(c: ClassifiedCommit): Category {
    if c.isBreaking then Major
    else if HasTypePrefix(c.subject, "feat", false) then Feat
    else if HasTypePrefix(c.subject, "fix", false) then Fix
    else if HasTypePrefix(c.subject, "infra", false) then Infra
    else Other
  }

  datatype Entry = Entry(category: Category, text: string)

  /** The entry for one log record, or `None` for a record the loop skips. */
  function EntryOf(line: string, url: string): Option<Entry> {
    match ParseRecord(line)
    case None => None
    case Some(rc) =>
      var c := ClassifyCommit(rc.subject, rc.body);
      var main := MainLine(c.subject, rc.short, url);
      var footer := Footer(BodyLines(rc.body));
      Some(Entry(CategoryOf(c), if footer != "" then main + "\n" + footer else main))
  }

  /** The entries of the records `log`, in log order. */
  function Entries(log: seq<string>, url: string): (r: seq<Entry>)
    ensures |r| <= |log|
  {
    if log == [] then []
    else
      var prev := Entries(log[..|log| - 1], url);
      match EntryOf(log[|log| - 1], url)
      case None => prev
      case Some(e) => prev + [e]
  }

  /** The entries of category `c`, in order. */
  function InCategory(es: seq<Entry>, c: Category): (r: seq<Entry>)
    ensures forall k :: 0 <= k < |r| ==> r[k].category == c && r[k] in es
  {
    if es == [] then []
    else InCategory(es[..|es| - 1], c) + (if es[|es| - 1].category == c then [es[|es| - 1]] else [])
  }

  /** Each entry's text followed by a newline. */
  function Lines(es: seq<Entry>): string {
    if es == [] then "" else Lines(es[..|es| - 1]) + (es[|es| - 1].text + "\n")
  }

  /** The text of one bucket. */
  function Bucket(es: seq<Entry>, c: Category): string {
    Lines(InCategory(es, c))
  }

  const AllCategories: set<Category> := {Major, Feat, Fix, Infra, Other}

  lemma CategoryKnown(c: Category)
    ensures c in AllCategories
  {
  }

  /** The five buckets. */
  function Groups(es: seq<Entry>): map<Category, string> {
    map c | c in AllCategories :: Bucket(es, c)
  }

  /** Appending one entry appends its text to its own bucket and leaves the other four alone. */
  lemma GroupsAppend(es: seq<Entry>, e: Entry, c: Category)
    ensures c in Groups(es + [e]) && c in Groups(es)
    ensures Groups(es + [e])[c] == if c == e.category then Groups(es)[c] + (e.text + "\n") else Groups(es)[c]
  {
    CategoryKnown(c);
    BucketAppend(es, e, c);
  }

  /** `m` holds the bucket of every category of `es`. */
  predicate HoldsBuckets(m: map<Category, string>, es: seq<Entry>) {
    forall c: Category :: c in m && m[c] == Bucket(es, c)
  }

  /** The five empty strings the loop starts from are the buckets of no entries. */
  lemma NoBuckets()
    ensures HoldsBuckets(map c | c in AllCategories :: "", [])
  {
    var m: map<Category, string> := map c | c in AllCategories :: "";
    forall c: Category ensures c in m {
      CategoryKnown(c);
    }
  }

  /** `groups[cat] += lineText + "\n"` keeps the map holding the buckets. */
  lemma BucketsAppend(m: map<Category, string>, es: seq<Entry>, e: Entry)
    requires HoldsBuckets(m, es)
    ensures HoldsBuckets(m[e.category := m[e.category] + (e.text + "\n")], es + [e])
  {
    forall c: Category ensures Bucket(es + [e], c) == Bucket(es, c) + (if e.category == c then e.text + "\n" else "") {
      BucketAppend(es, e, c);
    }
  }

  /** A map holding every category's bucket is the grouping. */
  lemma GroupsOfBuckets(m: map<Category, string>, es: seq<Entry>)
    requires HoldsBuckets(m, es)
    ensures m == Groups(es)
  {
    var g := Groups(es);
    forall c | c in g ensures c in m && m[c] == g[c] { }
    forall c | c in m ensures c in g {
      CategoryKnown(c);
    }
  }

  lemma BucketAppend(es: seq<Entry>, e: Entry, c: Category)
    ensures InCategory(es + [e], c) == InCategory(es, c) + (if e.category == c then [e] else [])
    ensures Bucket(es + [e], c) == Bucket(es, c) + (if e.category == c then e.text + "\n" else "")
  {
    assert (es + [e])[..|es|] == es;
    if e.category == c {
      LinesAppend(InCategory(es, c), e);
    } else {
      assert InCategory(es + [e], c) == InCategory(es, c) + [];
      assert InCategory(es, c) + [] == InCategory(es, c);
      assert Bucket(es, c) + "" == Bucket(es, c);
    }
  }

  lemma LinesAppend(xs: seq<Entry>, e: Entry)
    ensures Lines(xs + [e]) == Lines(xs) + (e.text + "\n")
  {
    assert (xs + [e])[..|xs|] == xs;
  }

  /**
   * Every entry lands in exactly one bucket: it is in the bucket of its own
   * category, and the five buckets together hold as many entries as the log.
   */
  lemma {:induction false} EntriesPartition(es: seq<Entry>)
    ensures forall x :: x in es ==> x in InCategory(es, x.category)
    ensures |InCategory(es, Major)| + |InCategory(es, Feat)| + |InCategory(es, Fix)| +
            |InCategory(es, Infra)| + |InCategory(es, Other)| == |es|
  {
    if es != [] {
      var prev := es[..|es| - 1];
      var last := es[|es| - 1];
      EntriesPartition(prev);
      assert es == prev + [last];
      BucketAppend(prev, last, Major);
      BucketAppend(prev, last, Feat);
      BucketAppend(prev, last, Fix);
      BucketAppend(prev, last, Infra);
      BucketAppend(prev, last, Other);
      forall x | x in es ensures x in InCategory(es, x.category) {
        if x != last {
          assert x in prev;
          BucketAppend(prev, last, x.category);
        }
      }
    }
  }

  /**
   * The buckets and the bump agree: a commit in the breaking bucket makes
   * the release major, and a commit in the feature bucket with none in the
   * breaking one makes it minor.
   */
  lemma BucketsAgreeWithBump(commits: seq<ClassifiedCommit>)
    ensures (exists c :: c in commits && CategoryOf(c) == Major) ==> DetectSemverType(commits) == "major"
    ensures ((exists c :: c in commits && CategoryOf(c) == Feat) &&
             (forall c :: c in commits ==> CategoryOf(c) != Major)) ==> DetectSemverType(commits) == "minor"
  {
    forall c | c in commits && HasTypePrefix(c.subject, "feat", false)
      ensures IsFeatSubject(c.subject)
    {
      ExactTypeMatchesFolded(c.subject, "feat");
    }
  }

  /** A case-sensitive type match is also a case-insensitive one, for a lower-case type. */
  lemma ExactTypeMatchesFolded(s: string, t: string)
    requires HasTypePrefix(s, t, false) && forall i :: 0 <= i < |t| ==> 'a' <= t[i] <= 'z'
    ensures HasTypePrefix(s, t, true)
  {
    assert ToLowerAscii(s[..|t|]) == t;
  }

  // ---------------------------------------------------------------------
  // The shape of the buckets
  // ---------------------------------------------------------------------

  /** The subject and the short hash of a record are single lines, as `%s` and `%h` print them. */
  predicate SingleLineFields(line: string) {
    ParseRecord(line).Some? ==> '\n' !in ParseRecord(line).value.subject && '\n' !in ParseRecord(line).value.short
  }

  /** The text of an entry: starts with a non-newline, ends with a non-space, and has no blank run of two lines. */
  predicate EntryShaped(t: string) {
    t != [] && t[0] != '\n' && !IsSpace(t[|t| - 1]) && NoTripleNewline(t)
  }

  lemma NoNewline(p: string)
    requires NoLineTerminator(p)
    ensures '\n' !in p
  {
    assert IsLineTerminator('\n');
  }

  /** The web URL of a remote is a single line. */
  lemma RepoUrlSingleLine(remote: Option<string>)
    ensures '\n' !in RepoUrl(remote)
  {
    if remote.Some? {
      var s := Trim(remote.value);
      if SshPath(s).Some? {
        NoNewline(SshPath(s).value);
      } else if HttpsPath(s).Some? {
        NoNewline(HttpsPath(s).value);
      }
    }
  }

  /** Newline-free, non-empty lines joined by newlines: no blank line, and the ends of the first and last line. */
  lemma {:induction false} JoinLinesShape(xs: seq<string>)
    requires |xs| >= 1 && forall k :: 0 <= k < |xs| ==> xs[k] != [] && '\n' !in xs[k]
    ensures var j := Join(xs, "\n"); var x := xs[|xs| - 1];
      NoTripleNewline(j) && j != [] && j[0] == xs[0][0] && j[|j| - 1] == x[|x| - 1]
  {
    var j := Join(xs, "\n");
    ShortNoTriple(xs[0]);
    if |xs| >= 2 {
      var rest := Join(xs[1..], "\n");
      JoinLinesShape(xs[1..]);
      JoinNoTriple("\n", rest);
      ConcatNoTriple(xs[0], "\n" + rest);
      assert j == xs[0] + ("\n" + rest);
    }
  }

  /** A rendered body line ends where the trimmed body line ends. */
  lemma RenderedLast(lines: seq<string>, k: nat)
    requires k < |lines| && lines[k] != [] && IsTrimmed(lines[k])
    ensures var r := Rendered(lines)[k]; var l := lines[k];
      r != [] && r[|r| - 1] == l[|l| - 1]
  {
    TrimOfTrimmed(lines[k]);
  }

  /** The footer of non-empty one-line body lines is the indented rendered lines joined by newlines. */
  lemma FooterIsJoin(lines: seq<string>)
    requires lines != [] && forall k :: 0 <= k < |lines| ==> '\n' !in lines[k]
    ensures Footer(lines) == Join(Indented(Rendered(lines)), "\n")
  {
    FooterLines(lines);
    JoinOfSplit(Footer(lines), "\n");
  }

  /** Each indented rendered line is a non-empty single line; the last one ends in a non-space. */
  lemma IndentedLines(lines: seq<string>)
    requires lines != []
    requires forall k :: 0 <= k < |lines| ==> lines[k] != [] && IsTrimmed(lines[k]) && '\n' !in lines[k]
    ensures var ind := Indented(Rendered(lines)); var x := ind[|ind| - 1];
      (forall k :: 0 <= k < |ind| ==> ind[k] != [] && '\n' !in ind[k]) &&
      ind[0][0] == ' ' && x != [] && !IsSpace(x[|x| - 1])
  {
    var ind := Indented(Rendered(lines));
    forall k | 0 <= k < |ind| ensures ind[k] != [] && '\n' !in ind[k] {
      RenderedNoNewline(lines, k);
    }
    var n := |lines| - 1;
    RenderedLast(lines, n);
    var l := lines[n];
    assert !IsSpace(l[|l| - 1]);
  }

  /** The footer of non-empty body lines starts with a space and ends with a non-space, with no blank line. */
  lemma FooterShape(lines: seq<string>)
    requires lines != []
    requires forall k :: 0 <= k < |lines| ==> lines[k] != [] && IsTrimmed(lines[k]) && '\n' !in lines[k]
    ensures var f := Footer(lines); NoTripleNewline(f) && f != [] && f[0] == ' ' && !IsSpace(f[|f| - 1])
  {
    var ind := Indented(Rendered(lines));
    IndentedLines(lines);
    LinesShape(Join(ind, "\n"), ind);
    FooterIsJoin(lines);
  }

  /** `JoinLinesShape` for a text known to be such a join. */
  lemma LinesShape(f: string, ind: seq<string>)
    requires |ind| >= 1 && f == Join(ind, "\n")
    requires forall k :: 0 <= k < |ind| ==> ind[k] != [] && '\n' !in ind[k]
    requires ind[0][0] == ' ' && !IsSpace(ind[|ind| - 1][|ind[|ind| - 1]| - 1])
    ensures NoTripleNewline(f) && f != [] && f[0] == ' ' && !IsSpace(f[|f| - 1])
  {
    JoinLinesShape(ind);
  }

  /** A one-line main line, then optionally a newline and a footer of the shape above, is shaped. */
  lemma EntryTextShaped(main: string, footer: string)
    requires '\n' !in main && main != [] && main[0] == '-' && main[|main| - 1] == ')'
    requires footer != "" ==> NoTripleNewline(footer) && footer[0] == ' ' && !IsSpace(footer[|footer| - 1])
    ensures EntryShaped(if footer != "" then main + "\n" + footer else main)
  {
    ShortNoTriple(main);
    if footer != "" {
      JoinNoTriple("\n", footer);
      ConcatNoTriple(main, "\n" + footer);
      assert main + "\n" + footer == main + ("\n" + footer);
    }
  }

  /** The main line of one-line fields is one line, from `-` to `)`. */
  lemma MainLineShape(subject: string, short: string, url: string)
    requires '\n' !in subject && '\n' !in short && '\n' !in url
    ensures var m := MainLine(subject, short, url); '\n' !in m && m != [] && m[0] == '-' && m[|m| - 1] == ')'
  {
  }

  /** The entry of a record with one-line fields, for a one-line URL, is shaped. */
  lemma EntryOfShaped(line: string, url: string)
    requires '\n' !in url && SingleLineFields(line) && EntryOf(line, url).Some?
    ensures EntryShaped(EntryOf(line, url).value.text)
  {
    var rc := ParseRecord(line).value;
    var c := ClassifyCommit(rc.subject, rc.body);
    ClassifySingleLine(rc.subject, rc.body);
    var main := MainLine(c.subject, rc.short, url);
    MainLineShape(c.subject, rc.short, url);
    var lines := BodyLines(rc.body);
    if lines != [] {
      FooterShape(lines);
    }
    EntryTextShaped(main, Footer(lines));
  }

  /** Every entry of records with one-line fields is shaped. */
  lemma {:induction false} EntriesShaped(log: seq<string>, url: string)
    requires '\n' !in url && forall k :: 0 <= k < |log| ==> SingleLineFields(log[k])
    ensures forall e :: e in Entries(log, url) ==> EntryShaped(e.text)
  {
    if log != [] {
      EntriesShaped(log[..|log| - 1], url);
      if EntryOf(log[|log| - 1], url).Some? {
        EntryOfShaped(log[|log| - 1], url);
      }
    }
  }

  /** The lines of shaped entries make a well-formed bucket. */
  lemma {:induction false} LinesWellFormed(es: seq<Entry>)
    requires forall e :: e in es ==> EntryShaped(e.text)
    ensures WellFormedBucket(Lines(es))
  {
    if es != [] {
      var prev := Lines(es[..|es| - 1]);
      var t := es[|es| - 1].text;
      assert es[|es| - 1] in es;
      LinesWellFormed(es[..|es| - 1]);
      ConcatNoTriple(t, "\n");
      ConcatNoTriple(prev, t + "\n");
      assert Lines(es) == prev + (t + "\n");
    }
  }

  /**
   * The buckets the loop fills are well formed whenever every record's
   * subject and short hash are single lines and the URL is: the condition
   * under which `buildMarkdown` neither trims nor collapses anything.
   */
  lemma BucketsWellFormed(log: seq<string>, url: string)
    requires '\n' !in url && forall k :: 0 <= k < |log| ==> SingleLineFields(log[k])
    ensures forall c :: WellFormedBucket(Lookup(Groups(Entries(log, url)), c))
  {
    var es := Entries(log, url);
    EntriesShaped(log, url);
    forall c ensures WellFormedBucket(Lookup(Groups(es), c)) {
      CategoryKnown(c);
      LinesWellFormed(InCategory(es, c));
    }
  }

  /**
   * The section `generateChangelog` writes: the header, a blank line and a
   * titled block for every non-empty bucket, in the order breaking, feature,
   * fix, infra, other, each bucket exactly as the loop filled it.
   */
  lemma ChangelogSection(version: string, date: string, remote: Option<string>, rawLog: string)
    requires '\n' !in version && '\n' !in date
    requires var log := LogRecords(rawLog); forall k :: 0 <= k < |log| ==> SingleLineFields(log[k])
    ensures var groups := Groups(Entries(LogRecords(rawLog), RepoUrl(remote)));
      BuildMarkdown(version, date, groups) == Header(version, date) + "\n\n" + Sections(groups, Order)
  {
    RepoUrlSingleLine(remote);
    BucketsWellFormed(LogRecords(rawLog), RepoUrl(remote));
    BuildMarkdownOfWellFormed(version, date, Groups(Entries(LogRecords(rawLog), RepoUrl(remote))));
  }

  // ---------------------------------------------------------------------
  // generateChangelog
  // ---------------------------------------------------------------------

  lemma EntriesStep(log: seq<string>, n: nat, url: string)
    requires n < |log|
    ensures EntryOf(log[n], url).None? ==> Entries(log[..n + 1], url) == Entries(log[..n], url)
    ensures EntryOf(log[n], url).Some? ==>
      Entries(log[..n + 1], url) == Entries(log[..n], url) + [EntryOf(log[n], url).value]
  {
    assert log[..n + 1][..n] == log[..n];
  }

  /**
   * The body of the loop for one record: split the fields, classify, build
   * the main line and the footer. `None` is the `continue` for a record
   * without a subject or a short hash.
   */
  method FormatRecord(line: string, repoUrl: string) returns (entry: Option<Entry>)
    ensures entry == EntryOf(line, repoUrl)
  {
    var fields := SplitOn(line, [FieldDelim]);
    var subjectOrig := fields[0];
    var short := if |fields| >= 2 then fields[1] else "";
    if subjectOrig == "" || short == "" {
      return None;
    }
    var body := Join(fields[2..], [FieldDelim]);
    var c := ClassifyCommit(subjectOrig, body);
    var mainLine := MainLine(c.subject, short, repoUrl);
    var footerLines := "";
    var lines := BodyLines(body);
    if |lines| > 0 {
      var formatted := FormatIndentedLines(lines);
      footerLines := Join(Indented(SplitOn(formatted, "\n")), "\n");
    }
    var lineText := if footerLines != "" then mainLine + "\n" + footerLines else mainLine;
    entry := Some(Entry(CategoryOf(c), lineText));
  }

  /** The loop over the records, filling the five buckets. */
  method CollectGroups(log: seq<string>, repoUrl: string) returns (groups: map<Category, string>)
    ensures groups == Groups(Entries(log, repoUrl))
  {
    groups := map c | c in AllCategories :: "";
    NoBuckets();
    var n := 0;
    while n < |log|
      invariant n <= |log|
      invariant HoldsBuckets(groups, Entries(log[..n], repoUrl))
    {
      var entry := FormatRecord(log[n], repoUrl);
      EntriesStep(log, n, repoUrl);
      if entry.Some? {
        var cat := entry.value.category;
        BucketsAppend(groups, Entries(log[..n], repoUrl), entry.value);
        groups := groups[cat := groups[cat] + (entry.value.text + "\n")];
      }
      n := n + 1;
    }
    assert log[..n] == log;
    GroupsOfBuckets(groups, Entries(log, repoUrl));
  }

  method GenerateChangelog(version: string, outputFile: string, remote: Option<string>, date: string,
                           rawLog: string, files: map<string, string>)
    returns (r: Result<map<string, string>, string>)
    ensures version == "" ==> r == Failure("VERSION is required")
    ensures version != "" ==>
      r == Success(WriteChangelog(files, outputFile,
        BuildMarkdown(version, date, Groups(Entries(LogRecords(rawLog), RepoUrl(remote))))))
  {
    if version == "" {
      return Failure("VERSION is required");
    }
    var groups := CollectGroups(LogRecords(rawLog), RepoUrl(remote));
    r := Success(WriteChangelog(files, outputFile, BuildMarkdown(version, date, groups)));
  }
}
