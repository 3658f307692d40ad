/**
 * `getNextStableVersion`: the newest stable release tag (or `v1.0.0` when
 * there is none) bumped by the level the commits since the release branch
 * call for. The `git tag --sort=-creatordate` listing and the `git log` text
 * are parameters; fetching and the `GITHUB_OUTPUT` append are left out.
 */
module NextRelease {
  import opened Text
  import opened Conventional
  import opened Semver
  import opened CommitClassifier
  import opened GitLog

  /** The base used when no tag has the stable shape. */
  const DefaultRelease: string := "v1.0.0"

  /** `.split("\n").filter(Boolean)` on the output of `git tag`: its non-empty lines, in order. */
  function TagList(output: string): (r: seq<string>)
    ensures forall k :: 0 <= k < |r| ==> r[k] != "" && '\n' !in r[k]
  {
    var lines := SplitOn(output, "\n");
    var r := NonEmpty(lines);
    forall k | 0 <= k < |r| ensures '\n' !in r[k] {
      var j :| 0 <= j < |lines| && lines[j] == r[k];
    }
    r
  }

  /**
   * `git tag` prints every tag on its own line; reading that listing back
   * gives the tags, in the order printed.
   */
  lemma TagListRoundTrip(tags: seq<string>)
    requires forall k :: 0 <= k < |tags| ==> tags[k] != "" && '\n' !in tags[k]
    ensures TagList(Join(tags + [""], "\n")) == tags
  {
    SplitJoin(tags + [""], '\n');
    NonEmptyOfNonEmpty(tags);
  }

  lemma DefaultIsStrict()
    ensures IsStrictVersion(DefaultRelease) && ParseVersion(DefaultRelease) == [1, 0, 0]
  {
    FormatParseRoundTrip([1, 0, 0]);
    assert NatToString(1) == "1" && NatToString(0) == "0";
    assert FormatVersion([1, 0, 0]) == DefaultRelease;
  }

  /** Index of the first stable tag in `tags`, or `|tags|` when there is none. */
  function FirstStable(tags: seq<string>): (k: nat)
    ensures k <= |tags|
    ensures k < |tags| ==> IsStrictVersion(tags[k])
    ensures forall i :: 0 <= i < k ==> !IsStrictVersion(tags[i])
  {
    if tags == [] then 0
    else if IsStrictVersion(tags[0]) then 0
    else
      var k := FirstStable(tags[1..]);
      assert forall i :: 1 <= i < k + 1 ==> tags[i] == tags[1..][i - 1];
      k + 1
  }

  /**
   * `tags.find((tag) => /^v\d+\.\d+\.\d+$/.test(tag)) || "v1.0.0"`: the first
   * stable tag of the listing, which is sorted newest first.
   */
  function LatestRelease(tags: seq<string>): (r: string)
    ensures IsStrictVersion(r)
    ensures var k := FirstStable(tags);
      if k < |tags| then r == tags[k] else r == DefaultRelease
  {
    var k := FirstStable(tags);
    if k < |tags| then tags[k]
    else
      DefaultIsStrict();
      DefaultRelease
  }

  /** `raw.map(({ subject, body }) => classifyCommit(subject, body))`. */
  function ClassifyAll(raw: seq<LogCommit>): (r: seq<ClassifiedCommit>)
    ensures |r| == |raw| && forall k :: 0 <= k < |raw| ==> r[k] == ClassifyCommit(raw[k].subject, raw[k].body)
  {
    seq(|raw|, k requires 0 <= k < |raw| => ClassifyCommit(raw[k].subject, raw[k].body))
  }

  /** The commits of the range, read from the `git log` text and classified. */
  function RangeCommits(rawLog: string): seq<ClassifiedCommit> {
    ClassifyAll(GetCommits(rawLog))
  }

  /**
   * `getNextStableVersion(from, to)`: the next version is a stable tag,
   * greater than the latest release.
   */
  function GetNextStableVersion(tagOutput: string, rawLog: string): (r: string)
    ensures IsStrictVersion(r)
    ensures FormatVersion(ParseVersion(r)) == r
    ensures IsSemverGreater(r, LatestRelease(TagList(tagOutput)))
  {
    var base := LatestRelease(TagList(tagOutput));
    var q := BumpTriple(ParseVersion(base), DetectSemverType(RangeCommits(rawLog)));
    FormatParseRoundTrip(q);
    BumpVersion(base, DetectSemverType(RangeCommits(rawLog)))
  }

  /** The next version is the latest release bumped by the level of the range. */
  lemma NextStableOfLevel(tagOutput: string, rawLog: string)
    ensures var base := LatestRelease(TagList(tagOutput));
      GetNextStableVersion(tagOutput, rawLog) == BumpVersion(base, DetectSemverType(RangeCommits(rawLog)))
  {
  }

  /** What a bump of the latest release by `level` parses to. */
  lemma BumpOfLatest(tagOutput: string, rawLog: string, level: string)
    requires DetectSemverType(RangeCommits(rawLog)) == level
    ensures var p := ParseVersion(LatestRelease(TagList(tagOutput)));
      ParseVersion(GetNextStableVersion(tagOutput, rawLog)) ==
        (if level == "major" then [p[0] + 1, 0, 0]
         else if level == "minor" then [p[0], p[1] + 1, 0]
         else [p[0], p[1], p[2] + 1])
  {
    NextStableOfLevel(tagOutput, rawLog);
  }

  /** A commit is breaking when its trimmed subject holds `!:` or its body `BREAKING CHANGE:`. */
  predicate IsBreakingCommit(c: LogCommit) {
    Contains(Trim(c.subject), "!:") || Contains(c.body, "BREAKING CHANGE:")
  }

  /** The bump level of the range is `major` when some commit in it is breaking. */
  lemma LevelOfBreaking(rawLog: string, c: LogCommit)
    requires c in GetCommits(rawLog) && IsBreakingCommit(c)
    ensures DetectSemverType(RangeCommits(rawLog)) == "major"
  {
    var raw := GetCommits(rawLog);
    var k :| 0 <= k < |raw| && raw[k] == c;
    assert RangeCommits(rawLog)[k] in RangeCommits(rawLog);
  }

  /** A breaking commit in the range bumps the major number and resets the others. */
  lemma BreakingBumpsMajor(tagOutput: string, rawLog: string, c: LogCommit)
    requires c in GetCommits(rawLog) && IsBreakingCommit(c)
    ensures var p := ParseVersion(LatestRelease(TagList(tagOutput)));
      ParseVersion(GetNextStableVersion(tagOutput, rawLog)) == [p[0] + 1, 0, 0]
  {
    LevelOfBreaking(rawLog, c);
    BumpOfLatest(tagOutput, rawLog, "major");
  }

  /** No classified commit of the range is breaking when no commit of the log is. */
  lemma NoneBreaking(rawLog: string)
    requires forall d :: d in GetCommits(rawLog) ==> !IsBreakingCommit(d)
    ensures forall x :: x in RangeCommits(rawLog) ==> !x.isBreaking
  {
    var raw := GetCommits(rawLog);
    var commits := RangeCommits(rawLog);
    forall x | x in commits ensures !x.isBreaking {
      var j :| 0 <= j < |commits| && commits[j] == x;
      assert raw[j] in raw;
    }
  }

  lemma LevelOfFeature(rawLog: string, c: LogCommit)
    requires forall d :: d in GetCommits(rawLog) ==> !IsBreakingCommit(d)
    requires c in GetCommits(rawLog) && IsFeatSubject(ClassifyCommit(c.subject, c.body).subject)
    ensures DetectSemverType(RangeCommits(rawLog)) == "minor"
  {
    NoneBreaking(rawLog);
    SomeFeature(rawLog, c);
  }

  lemma SomeFeature(rawLog: string, c: LogCommit)
    requires c in GetCommits(rawLog) && IsFeatSubject(ClassifyCommit(c.subject, c.body).subject)
    ensures exists x :: x in RangeCommits(rawLog) && IsFeatSubject(x.subject)
  {
    var raw := GetCommits(rawLog);
    var k :| 0 <= k < |raw| && raw[k] == c;
    assert RangeCommits(rawLog)[k] in RangeCommits(rawLog);
  }

  /**
   * Without a breaking commit, a commit whose normalised subject is a
   * `feat` bumps the minor number and resets the patch number.
   */
  lemma FeatureBumpsMinor(tagOutput: string, rawLog: string, c: LogCommit)
    requires forall d :: d in GetCommits(rawLog) ==> !IsBreakingCommit(d)
    requires c in GetCommits(rawLog) && IsFeatSubject(ClassifyCommit(c.subject, c.body).subject)
    ensures var p := ParseVersion(LatestRelease(TagList(tagOutput)));
      ParseVersion(GetNextStableVersion(tagOutput, rawLog)) == [p[0], p[1] + 1, 0]
  {
    LevelOfFeature(rawLog, c);
    BumpOfLatest(tagOutput, rawLog, "minor");
  }

  lemma LevelOtherwise(rawLog: string)
    requires forall d :: d in GetCommits(rawLog) ==>
      !IsBreakingCommit(d) && !IsFeatSubject(ClassifyCommit(d.subject, d.body).subject)
    ensures DetectSemverType(RangeCommits(rawLog)) == "patch"
  {
    NoneBreaking(rawLog);
    var raw := GetCommits(rawLog);
    var commits := RangeCommits(rawLog);
    forall x | x in commits ensures !IsFeatSubject(x.subject) {
      var j :| 0 <= j < |commits| && commits[j] == x;
      assert raw[j] in raw;
    }
  }

  /** With neither, the patch number goes up; this includes an empty range. */
  lemma OtherwisePatch(tagOutput: string, rawLog: string)
    requires forall d :: d in GetCommits(rawLog) ==>
      !IsBreakingCommit(d) && !IsFeatSubject(ClassifyCommit(d.subject, d.body).subject)
    ensures var p := ParseVersion(LatestRelease(TagList(tagOutput)));
      ParseVersion(GetNextStableVersion(tagOutput, rawLog)) == [p[0], p[1], p[2] + 1]
  {
    LevelOtherwise(rawLog);
    BumpOfLatest(tagOutput, rawLog, "patch");
  }

  /** With no stable tag at all, the first release is computed from `v1.0.0`. */
  lemma NoStableTagStartsAtOne(tagOutput: string)
    requires forall t :: t in TagList(tagOutput) ==> !IsStrictVersion(t)
    ensures LatestRelease(TagList(tagOutput)) == DefaultRelease
  {
    var tags := TagList(tagOutput);
    forall k | 0 <= k < |tags| ensures !IsStrictVersion(tags[k]) {
      assert tags[k] in tags;
    }
  }

  lemma {:induction false} FirstStableAfter(pre: seq<string>, tags: seq<string>)
    requires forall k :: 0 <= k < |pre| ==> !IsStrictVersion(pre[k])
    ensures FirstStable(pre + tags) == |pre| + FirstStable(tags)
    decreases |pre|
  {
    if pre != [] {
      assert (pre + tags)[0] == pre[0];
      assert (pre + tags)[1..] == pre[1..] + tags;
      FirstStableAfter(pre[1..], tags);
    } else {
      assert pre + tags == tags;
    }
  }

  /** Prerelease and other non-stable tags listed before the newest release do not hide it. */
  lemma OtherTagsSkipped(pre: seq<string>, tags: seq<string>)
    requires forall k :: 0 <= k < |pre| ==> !IsStrictVersion(pre[k])
    ensures LatestRelease(pre + tags) == LatestRelease(tags)
  {
    FirstStableAfter(pre, tags);
    var k := FirstStable(tags);
    if k < |tags| {
      assert (pre + tags)[|pre| + k] == tags[k];
    }
  }
}
