/**
 * `getCommits`: the commits of `git log --pretty=format:%s%n%b%n---END---`,
 * one `{subject, body}` record per `---END---`-terminated chunk, without
 * the chunks whose subject is empty. The log text is a parameter.
 */
module GitLog {
  import opened Text

  const EndMarker: string := "---END---"

  datatype LogCommit = LogCommit(subject: string, body: string)

  /**
   * One chunk: trimmed and split into lines; the first line, trimmed, is
   * the subject, and the other lines, joined and trimmed, are the body.
   */
  function ParseChunk(chunk: string): (r: LogCommit)
    ensures IsTrimmed(r.subject) && '\n' !in r.subject && IsTrimmed(r.body)
  {
    var lines := SplitOn(Trim(chunk), "\n");
    TrimKeepsAbsence(lines[0], '\n');
    LogCommit(Trim(lines[0]), Trim(Join(lines[1..], "\n")))
  }

  /** `.map(parse)` over the chunks. */
  function ParseChunks(chunks: seq<string>): (r: seq<LogCommit>)
    ensures |r| == |chunks| && forall k :: 0 <= k < |chunks| ==> r[k] == ParseChunk(chunks[k])
  {
    seq(|chunks|, k requires 0 <= k < |chunks| => ParseChunk(chunks[k]))
  }

  /** `.filter((c) => c.subject)`: the records with a subject, in order. */
  function WithSubject(cs: seq<LogCommit>): (r: seq<LogCommit>)
    ensures |r| <= |cs|
    ensures forall k :: 0 <= k < |r| ==> r[k].subject != "" && r[k] in cs
    ensures forall c :: c in cs && c.subject != "" ==> c in r
  {
    if cs == [] then []
    else if cs[0].subject != "" then [cs[0]] + WithSubject(cs[1..])
    else WithSubject(cs[1..])
  }

  /** `getCommits(from, to)` on the text `git log` printed. */
  function GetCommits(raw: string): (r: seq<LogCommit>)
    ensures |r| <= |SplitOn(raw, EndMarker)|
    ensures forall k :: 0 <= k < |r| ==>
      r[k].subject != "" && IsTrimmed(r[k].subject) && '\n' !in r[k].subject && IsTrimmed(r[k].body)
  {
    var parsed := ParseChunks(SplitOn(raw, EndMarker));
    forall k | 0 <= k < |WithSubject(parsed)|
      ensures IsTrimmed(WithSubject(parsed)[k].subject) && '\n' !in WithSubject(parsed)[k].subject
      ensures IsTrimmed(WithSubject(parsed)[k].body)
    {
      var c := WithSubject(parsed)[k];
      var j :| 0 <= j < |parsed| && parsed[j] == c;
    }
    WithSubject(parsed)
  }

  /** An empty log has no commits. */
  lemma EmptyLog()
    ensures GetCommits("") == []
  {
    IndexOfLacking("", EndMarker);
    IndexOfLacking("", "\n");
    assert SplitOn("", EndMarker) == [""];
    assert ParseChunk("").subject == "";
  }

  /** A commit `git log` can print so that it reads back: the marker occurs in neither field. */
  predicate Printable(c: LogCommit) {
    c.subject != "" && IsTrimmed(c.subject) && '\n' !in c.subject && IsTrimmed(c.body) &&
    Lacks(c.subject + "\n" + c.body, EndMarker)
  }

  /** The text between the markers for commit `k`: a newline separates it from the previous commit. */
  function Piece(cs: seq<LogCommit>, k: nat): string
    requires k < |cs|
  {
    (if k == 0 then "" else "\n") + (cs[k].subject + "\n" + cs[k].body) + "\n"
  }

  /** The chunks of `GitLogText(cs)`: one per commit and an empty one after the last marker. */
  function LogPieces(cs: seq<LogCommit>): (r: seq<string>)
    ensures |r| == |cs| + 1 && r[|cs|] == ""
    ensures forall k :: 0 <= k < |cs| ==> r[k] == Piece(cs, k)
  {
    seq(|cs|, k requires 0 <= k < |cs| => Piece(cs, k)) + [""]
  }

  /** What `git log --pretty=format:%s%n%b%n---END---` prints for the commits `cs`. */
  function GitLogText(cs: seq<LogCommit>): string {
    Join(LogPieces(cs), EndMarker)
  }

  /** Each printed chunk reads back as its commit. */
  lemma ParsePiece(cs: seq<LogCommit>, k: nat)
    requires k < |cs| && Printable(cs[k])
    ensures ParseChunk(Piece(cs, k)) == cs[k]
  {
    var pre := if k == 0 then "" else "\n";
    ParsePrinted(pre, cs[k].subject, cs[k].body);
  }

  /** A printed subject and body, between whitespace, read back as themselves. */
  lemma ParsePrinted(pre: string, s: string, b: string)
    requires AllSpace(pre) && s != "" && IsTrimmed(s) && '\n' !in s && IsTrimmed(b)
    ensures ParseChunk(pre + (s + "\n" + b) + "\n") == LogCommit(s, b)
  {
    if b == "" {
      assert pre + (s + "\n" + b) + "\n" == pre + s + "\n\n";
      ParseSubjectOnly(pre, s);
    } else {
      ParseWithBody(pre, s, b);
    }
  }

  lemma ParseSubjectOnly(pre: string, s: string)
    requires AllSpace(pre) && s != "" && IsTrimmed(s) && '\n' !in s
    ensures ParseChunk(pre + s + "\n\n") == LogCommit(s, "")
  {
    TrimPadded(pre, s, "\n\n");
    SplitJoin([s], '\n');
    TrimOfTrimmed(s);
    assert SplitOn(s, "\n")[1..] == [];
  }

  lemma ParseWithBody(pre: string, s: string, b: string)
    requires AllSpace(pre) && s != "" && IsTrimmed(s) && '\n' !in s && b != "" && IsTrimmed(b)
    ensures ParseChunk(pre + (s + "\n" + b) + "\n") == LogCommit(s, b)
  {
    var core := s + "\n" + b;
    assert core[0] == s[0] && core[|core| - 1] == b[|b| - 1];
    TrimPadded(pre, core, "\n");
    SplitCons(s, '\n', b);
    var lines := SplitOn(core, "\n");
    assert lines[0] == s && lines[1..] == SplitOn(b, "\n");
    JoinOfSplit(b, "\n");
    TrimOfTrimmed(b);
    TrimOfTrimmed(s);
  }

  lemma {:induction false} WithSubjectKeepsAll(cs: seq<LogCommit>, last: LogCommit)
    requires forall k :: 0 <= k < |cs| ==> cs[k].subject != ""
    requires last.subject == ""
    ensures WithSubject(cs + [last]) == cs
  {
    if cs != [] {
      var x, rest := cs[0], cs[1..];
      assert cs + [last] == [x] + (rest + [last]);
      WithSubjectKeepsAll(rest, last);
      WithSubjectCons(x, rest + [last]);
      assert cs == [x] + rest;
    } else {
      assert [last][1..] == [];
    }
  }

  lemma WithSubjectCons(x: LogCommit, rest: seq<LogCommit>)
    requires x.subject != ""
    ensures WithSubject([x] + rest) == [x] + WithSubject(rest)
  {
    assert ([x] + rest)[1..] == rest;
  }

  /**
   * Reading the log back: the commits `git log` prints are the commits
   * `getCommits` returns, in the same order, when each is printable.
   */
  lemma GetCommitsRoundTrip(cs: seq<LogCommit>)
    requires forall k :: 0 <= k < |cs| ==> Printable(cs[k])
    ensures GetCommits(GitLogText(cs)) == cs
  {
    ChunksOfLogText(cs);
    ParsePieces(cs);
  }

  /** Splitting the printed log on the marker gives the printed chunks. */
  lemma ChunksOfLogText(cs: seq<LogCommit>)
    requires forall k :: 0 <= k < |cs| ==> Printable(cs[k])
    ensures SplitOn(GitLogText(cs), EndMarker) == LogPieces(cs)
  {
    var pieces := LogPieces(cs);
    forall k | 0 <= k < |pieces| ensures Lacks(pieces[k], EndMarker) {
      if k < |cs| {
        var pre := if k == 0 then "" else "\n";
        LacksPadded(pre, cs[k].subject + "\n" + cs[k].body, "\n", EndMarker);
      }
    }
    forall k | 0 <= k < |pieces| - 1 ensures pieces[k] != [] && pieces[k][|pieces[k]| - 1] !in EndMarker {
      assert pieces[k][|pieces[k]| - 1] == '\n';
    }
    SplitJoinOn(pieces, EndMarker);
  }

  /** The printed chunks parse back to the commits, and the empty last chunk is dropped. */
  lemma ParsePieces(cs: seq<LogCommit>)
    requires forall k :: 0 <= k < |cs| ==> Printable(cs[k])
    ensures WithSubject(ParseChunks(LogPieces(cs))) == cs
  {
    var parsed := ParseChunks(LogPieces(cs));
    forall k | 0 <= k < |cs| ensures parsed[k] == cs[k] {
      ParsePiece(cs, k);
    }
    IndexOfLacking("", "\n");
    assert parsed[|cs|].subject == "";
    assert parsed[..|cs|] == cs;
    assert parsed == parsed[..|cs|] + [parsed[|cs|]];
    WithSubjectKeepsAll(cs, parsed[|cs|]);
  }
}
