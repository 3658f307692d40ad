/**
 * `updateVersion`: the publish step. The repository is an object holding the
 * `package.json` version and the log of the shell and changelog actions run
 * against it, in order; each `execSync` and the `generateChangelog` call
 * append one action.
 */
module Publisher {
  import opened Results
  import Semver

  const MissingVersion: string := "❌ VERSION argument is required"
  const ChangelogPath: string := "CHANGELOG.md"
  const ManifestPath: string := "package.json"
  const BotName: string := "github-actions[bot]"
  const BotEmail: string := "github-actions[bot]@users.noreply.github.com"
  const Origin: string := "origin"
  const ReleaseBranch: string := "release"

  /** One side effect of `updateVersion`. */
  datatype Action =
    | GenerateChangelog(version: string, outputFile: string, base: string, head: string)
    | NpmVersion(version: string)
    | GitConfig(key: string, value: string)
    | GitAdd(paths: seq<string>)
    | GitCommit(message: string)
    | GitTag(name: string)
    | GitPush(remote: string, ref: string)

  datatype Outcome = Updated | Skipped

  function CommitMessage(version: string): string {
    "bump: update version to " + version
  }

  /** The version `npm version` writes to the manifest: the target without its leading `v`. */
  function ManifestVersionOf(version: string): string {
    Semver.StripV(version)
  }

  /** Whether the steps of a release-branch publish (commit and branch push) are run. */
  predicate ReleaseOnly(a: Action) {
    a.GitAdd? || a.GitCommit? || a == GitPush(Origin, ReleaseBranch)
  }

  /** Changelog, manifest and git identity: the steps every update starts with. */
  function SetupSteps(version: string, base: string, head: string): seq<Action> {
    [GenerateChangelog(version, ChangelogPath, base, head), NpmVersion(version),
     GitConfig("user.name", BotName), GitConfig("user.email", BotEmail)]
  }

  /** Staging and committing the changelog and manifest, on the release branch only. */
  function CommitSteps(version: string): seq<Action> {
    [GitAdd([ChangelogPath, ManifestPath]), GitCommit(CommitMessage(version))]
  }

  function TagSteps(version: string): seq<Action> {
    [GitTag(version), GitPush(Origin, version)]
  }

  /**
   * The actions of an update, in order: changelog, manifest, git identity,
   * the commit on the release branch, the tag and its push, and the branch
   * push on the release branch.
   */
  function PublishActions(version: string, base: string, head: string, isRelease: bool): (r: seq<Action>)
    ensures |r| >= 6 && r[0] == GenerateChangelog(version, ChangelogPath, base, head) && r[1] == NpmVersion(version)
    ensures GitTag(version) in r && GitPush(Origin, version) in r
  {
    SetupSteps(version, base, head) +
    (if isRelease then CommitSteps(version) else []) +
    TagSteps(version) +
    (if isRelease then [GitPush(Origin, ReleaseBranch)] else [])
  }

  /** The actions of `acts` other than the release-only ones, in order. */
  function WithoutReleaseOnly(acts: seq<Action>): seq<Action> {
    if acts == [] then []
    else if ReleaseOnly(acts[0]) then WithoutReleaseOnly(acts[1..])
    else [acts[0]] + WithoutReleaseOnly(acts[1..])
  }

  /** `a` is run before `b`. */
  predicate Precedes(acts: seq<Action>, a: Action, b: Action) {
    exists i, j :: 0 <= i < j < |acts| && acts[i] == a && acts[j] == b
  }

  class ReleaseRepo {
    /** The `version` field of `package.json`. */
    var manifestVersion: string
    /** Every action run so far, oldest first. */
    var actions: seq<Action>

    constructor(manifestVersion: string)
      ensures this.manifestVersion == manifestVersion && actions == []
    {
      this.manifestVersion := manifestVersion;
      actions := [];
    }

    /**
     * `updateVersion(version, base, head, isRelease)`. A missing version is an
     * error; a version equal to `v` and the manifest version is skipped and
     * nothing runs; otherwise every publish action runs and the manifest
     * holds the new version.
     */
    method UpdateVersion(version: Option<string>, base: string, head: string, isRelease: bool)
      returns (r: Result<Outcome, string>)
      modifies this
      ensures (version.None? || version.value == "") ==>
        r == Failure(MissingVersion) && manifestVersion == old(manifestVersion) && actions == old(actions)
      ensures version.Some? && version.value != "" && "v" + old(manifestVersion) == version.value ==>
        r == Success(Skipped) && manifestVersion == old(manifestVersion) && actions == old(actions)
      ensures version.Some? && version.value != "" && "v" + old(manifestVersion) != version.value ==>
        r == Success(Updated) && manifestVersion == ManifestVersionOf(version.value) &&
        actions == old(actions) + PublishActions(version.value, base, head, isRelease)
    {
      if version.None? || version.value == "" {
        return Failure(MissingVersion);
      }
      var v := version.value;
      if "v" + manifestVersion == v {
        return Success(Skipped);
      }
      Publish(v, base, head, isRelease);
      return Success(Updated);
    }

    /** The update proper: each step appends its action, and `npm version` rewrites the manifest. */
    method Publish(v: string, base: string, head: string, isRelease: bool)
      modifies this
      ensures manifestVersion == ManifestVersionOf(v)
      ensures actions == old(actions) + PublishActions(v, base, head, isRelease)
    {
      actions := actions + [GenerateChangelog(v, ChangelogPath, base, head)];
      actions := actions + [NpmVersion(v)];
      manifestVersion := ManifestVersionOf(v);
      actions := actions + [GitConfig("user.name", BotName)];
      actions := actions + [GitConfig("user.email", BotEmail)];
      assert actions == old(actions) + SetupSteps(v, base, head);
      ghost var beforeCommit := actions;
      if isRelease {
        actions := actions + [GitAdd([ChangelogPath, ManifestPath])];
        actions := actions + [GitCommit(CommitMessage(v))];
        assert actions == beforeCommit + CommitSteps(v);
      }
      ghost var beforeTag := actions;
      actions := actions + [GitTag(v)];
      actions := actions + [GitPush(Origin, v)];
      assert actions == beforeTag + TagSteps(v);
      if isRelease {
        actions := actions + [GitPush(Origin, ReleaseBranch)];
      }
    }

    /**
     * Running the same `v`-prefixed update twice: the second call finds the
     * manifest at that version and is skipped, adding no action.
     */
    method UpdateTwice(version: string, base: string, head: string, isRelease: bool)
      returns (first: Result<Outcome, string>, second: Result<Outcome, string>)
      requires |version| > 1 && version[0] == 'v' && "v" + manifestVersion != version
      modifies this
      ensures first == Success(Updated) && second == Success(Skipped)
      ensures actions == old(actions) + PublishActions(version, base, head, isRelease)
    {
      first := UpdateVersion(Some(version), base, head, isRelease);
      assert "v" + manifestVersion == version;
      second := UpdateVersion(Some(version), base, head, isRelease);
    }
  }

  lemma {:induction false} WithoutConcat(a: seq<Action>, b: seq<Action>)
    ensures WithoutReleaseOnly(a + b) == WithoutReleaseOnly(a) + WithoutReleaseOnly(b)
    decreases |a|
  {
    if a != [] {
      assert (a + b)[0] == a[0] && (a + b)[1..] == a[1..] + b;
      WithoutConcat(a[1..], b);
    } else {
      assert a + b == b;
    }
  }

  lemma WithoutPair(x: Action, y: Action)
    ensures WithoutReleaseOnly([x, y]) ==
      (if ReleaseOnly(x) then [] else [x]) + (if ReleaseOnly(y) then [] else [y])
  {
    assert [x, y] == [x] + [y];
    WithoutConcat([x], [y]);
    assert [x][1..] == [] && [y][1..] == [];
  }

  /**
   * Committing and pushing the release branch happen exactly on the release
   * branch; outside it the publish is the release publish without those steps.
   */
  lemma ReleaseStepsOnlyOnRelease(version: string, base: string, head: string)
    requires version != ReleaseBranch
    ensures WithoutReleaseOnly(PublishActions(version, base, head, true)) == PublishActions(version, base, head, false)
    ensures forall a :: ReleaseOnly(a) ==> a !in PublishActions(version, base, head, false)
    ensures GitCommit(CommitMessage(version)) in PublishActions(version, base, head, true)
    ensures GitPush(Origin, ReleaseBranch) in PublishActions(version, base, head, true)
  {
    var setup := SetupSteps(version, base, head);
    var push := [GitPush(Origin, ReleaseBranch)];
    SetupKept(version, base, head);
    WithoutPair(CommitSteps(version)[0], CommitSteps(version)[1]);
    WithoutPair(GitTag(version), GitPush(Origin, version));
    assert WithoutReleaseOnly(push) == [] by {
      assert push[1..] == [];
    }
    WithoutConcat(setup, CommitSteps(version));
    WithoutConcat(setup + CommitSteps(version), TagSteps(version));
    WithoutConcat(setup + CommitSteps(version) + TagSteps(version), push);
    assert setup + [] + TagSteps(version) + [] == setup + TagSteps(version);
    var acts := PublishActions(version, base, head, false);
    forall a | ReleaseOnly(a) ensures a !in acts {
      assert acts == setup + TagSteps(version);
    }
  }

  /** None of the setup steps is release-only. */
  lemma SetupKept(version: string, base: string, head: string)
    ensures WithoutReleaseOnly(SetupSteps(version, base, head)) == SetupSteps(version, base, head)
  {
    var setup := SetupSteps(version, base, head);
    assert setup == [setup[0], setup[1]] + [setup[2], setup[3]];
    WithoutPair(setup[0], setup[1]);
    WithoutPair(setup[2], setup[3]);
    WithoutConcat([setup[0], setup[1]], [setup[2], setup[3]]);
  }

  /**
   * The order of the steps: changelog before the manifest, the manifest
   * before the tag, the tag before its push; on the release branch the
   * commit before the tag and the branch push after the tag push.
   */
  lemma PublishOrder(version: string, base: string, head: string, isRelease: bool)
    ensures var acts := PublishActions(version, base, head, isRelease);
      Precedes(acts, GenerateChangelog(version, ChangelogPath, base, head), NpmVersion(version)) &&
      Precedes(acts, NpmVersion(version), GitTag(version)) &&
      Precedes(acts, GitTag(version), GitPush(Origin, version))
    ensures var acts := PublishActions(version, base, head, true);
      Precedes(acts, GitCommit(CommitMessage(version)), GitTag(version)) &&
      Precedes(acts, GitPush(Origin, version), GitPush(Origin, ReleaseBranch))
  {
    var acts := PublishActions(version, base, head, isRelease);
    var k := if isRelease then 6 else 4;
    assert acts[k] == GitTag(version) && acts[k + 1] == GitPush(Origin, version);
    var rel := PublishActions(version, base, head, true);
    assert rel[5] == GitCommit(CommitMessage(version)) && rel[6] == GitTag(version);
    assert rel[7] == GitPush(Origin, version) && rel[8] == GitPush(Origin, ReleaseBranch);
  }

  /** A version given without its `v` never equals `v` and the manifest, so a repeat is not skipped. */
  lemma UnprefixedNeverSkipped(manifest: string, version: string)
    requires version == [] || version[0] != 'v'
    ensures "v" + manifest != version
  {
    if version != [] {
      assert ("v" + manifest)[0] == 'v';
    }
  }
}
