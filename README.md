# Release scripts of release-process-experimental, in Dafny

This project models the Node.js release tooling of the repository
`release-process-experimental`:

- **Changelog generation.** `generateChangelog` reads the commits of a range from `git log` in
  a custom record format. It normalises each subject with `classifyCommit`, turning
  `[TYPE](scope) text`, `[TYPE] text` and `feature:` into conventional-commit form. It nests the
  body lines of each commit under its entry with `formatIndentedLines`, sorts the entries into
  five buckets, renders a release section with `buildMarkdown`, and prepends that section to
  `CHANGELOG.md`. It also writes a `_temp` copy of the section without its version line, for the
  release notes.
- **Version arithmetic (`semver.js`).** `parseVersion`, `bumpVersion`, `isSemverGreater` and
  `detectSemverType`.
- **Reading the log (`github.js`).** `getCommits` reads `{subject, body}` records from
  `git log`.
- **The next stable version.** `getNextStableVersion` bumps the newest `vX.Y.Z` tag, or `v1.0.0`
  when there is none, by the level the commits of the range call for.
- **The next beta version.** `getNextBetaVersion` either continues the newest beta series, when
  that series leads above the next stable version, or numbers the betas of the next stable
  version.
- **Publishing.** `updateVersion` publishes a version: changelog, `npm version`, git identity,
  commit, tag and pushes. It skips a version that the manifest already holds.

Every shell command, file read or write, clock reading and environment variable becomes a
parameter or a recorded action:

- the output of `git log`, `git tag` and `git remote get-url origin` is passed in as text;
- the date is a parameter;
- the file system is a map from path to content;
- the side effects of `updateVersion` are appended to an action log in a `ReleaseRepo` object,
  which also holds the `package.json` version that `npm version` rewrites.

JavaScript semantics are modelled where the scripts depend on them:

- `trim` and `\s` use the ECMAScript WhiteSpace and LineTerminator set;
- `.` does not match line terminators;
- `split` and `join` behave as in JavaScript;
- `\w` and `\d` are modelled exactly;
- the `i` regex flag and `toLowerCase` fold only ASCII letters;
- every regular expression is written out as a function with its greedy or lazy choices made
  explicit.

Modules, one per file:

| module | file | models |
|---|---|---|
| `Text` | `text.dfy` | the JavaScript string built-ins the scripts use |
| `Results` | `results.dfy` | `Option` and `Result` |
| `Conventional` | `conventional.dfy` | the classified-commit record and the `^type(\([^)]*\))?:` prefix test |
| `Semver` | `semver.dfy` | `semver.js` |
| `CommitClassifier` | `classifier.dfy` | `classifyCommit` |
| `BulletIndent` | `bullets.dfy` | `formatIndentedLines` |
| `ChangelogMarkdown` | `markdown.dfy` | `buildMarkdown` |
| `Changelog` | `changelog.dfy` | `getGitHubRepoUrl`, record parsing and the bucket loop of `generateChangelog` |
| `ChangelogFile` | `changelog_file.dfy` | the file writes of `generateChangelog` |
| `GitLog` | `gitlog.dfy` | `getCommits` |
| `NextRelease` | `nextrelease.dfy` | `getNextStableVersion` |
| `NextPrerelease` | `nextprerelease.dfy` | `getNextBetaVersion` |
| `Publisher` | `publisher.dfy` | `updateVersion` |

## Model

| member | source | states |
|---|---|---|
| Text.Trim | scripts/generate-changelog.js:49 | the result has no whitespace at either end and is the input with only whitespace cut from both ends |
| Text.TrimIdempotent | scripts/utils/github.js:19-20 | trimming an already trimmed string changes nothing |
| Text.TrimPadded | scripts/utils/github.js:17-20 | whitespace around a trimmed non-empty core is exactly what `trim` removes |
| Text.TrimKeepsAbsence | scripts/generate-changelog.js:199 | `trim` adds no character that its input lacks |
| Text.IndexOf | scripts/generate-changelog.js:51 | the index found is the first occurrence of the needle, or the length when there is none |
| Text.SplitOn | scripts/utils/github.js:16 | `split` gives at least one piece, and no piece holds a one-character separator |
| Text.JoinOfSplit | scripts/generate-changelog.js:184-187 | joining the pieces of a split with the same separator gives the string back |
| Text.SplitJoin | scripts/generate-changelog.js:205-209 | splitting a join on a one-character separator that no piece holds gives the pieces back |
| Text.SplitJoinOn | scripts/release-process/get-next-prerelease.js:30 | the same round trip for a longer separator, when no piece holds it and no piece but the last ends in one of its characters |
| Text.SplitCons | scripts/generate-changelog.js:184-185 | a leading piece free of the separator comes off the split first |
| Text.SplitAfterTwo | scripts/generate-changelog.js:184-187 | two leading separator-free fields come off the split first, and the rest splits on its own |
| Text.SplitLastPiece | scripts/release-process/get-next-prerelease.js:37 | the last piece of `split(c)` is what follows the last `c` |
| Text.SplitWithout | scripts/utils/github.js:17 | a string without the separator splits into itself alone |
| Text.NonEmpty | scripts/get-next-release.js:22 | `.filter(Boolean)` keeps only non-empty strings of the input, and every non-empty one; order and repeats are stated by `Text.NonEmptyAppend` |
| Text.NonEmptyAppend | scripts/get-next-release.js:22 | filtering one more string appends it exactly when it is non-empty, so order and repeats are kept |
| Text.NonEmptyOfNonEmpty | scripts/generate-changelog.js:175-178 | non-empty strings followed by one empty string filter to themselves |
| Text.ToLowerAscii | scripts/generate-changelog.js:57 | the length is kept, and every character is lower-cased position by position |
| Text.Spaces | scripts/generate-changelog.js:134 | `" ".repeat(n)` is `n` spaces |
| Text.NatToString | scripts/utils/semver.js:19-21 | a template literal writes a non-negative integer as a digit run |
| Text.NatToStringRoundTrip | scripts/utils/semver.js:8 | `Number` reads back the integer that the template literal wrote |
| Text.NatToStringHasNo | scripts/utils/semver.js:19-21 | a written integer holds no non-digit character, so no dot |
| Semver.ParseVersion | scripts/utils/semver.js:7-9 | a version string parses to exactly three numbers |
| Semver.FormatParseRoundTrip | scripts/utils/semver.js:7-22 | the tag `bumpVersion` writes has the strict `vX.Y.Z` shape and parses back to the triple it was written from |
| Semver.StrictVersionParts | scripts/get-next-release.js:25 | a strict tag is `v`, digits, a dot, digits, a dot and digits |
| Semver.StrictVersionShape | scripts/get-next-release.js:25 | a strict tag is `v` and then only digits and dots, ends in a digit, and has no `-` |
| Semver.LeadingVOptional | scripts/utils/semver.js:8 | `1.2.3` and `v1.2.3` parse alike |
| Semver.GreaterFromIsLex | scripts/utils/semver.js:48-52 | the early-exit loop answers true exactly when, at the first differing component, the first version is larger |
| Semver.IsSemverGreater | scripts/utils/semver.js:45-53 | `isSemverGreater(a, b)` holds exactly when the parsed `a` is lexicographically greater than the parsed `b` |
| Semver.SemverGreaterIrreflexive | scripts/utils/semver.js:45-53 | no version is greater than itself |
| Semver.SemverGreaterAsymmetric | scripts/utils/semver.js:45-53 | two versions are never each greater than the other |
| Semver.SemverGreaterTransitive | scripts/utils/semver.js:45-53 | "greater" is transitive |
| Semver.SemverGreaterTotal | scripts/utils/semver.js:45-53 | of two versions with different triples, exactly one is greater |
| Semver.BumpTriple | scripts/utils/semver.js:18-21 | every bump level yields a triple greater than the current one |
| Semver.BumpVersion | scripts/utils/semver.js:17-22 | the result is a strict tag; major gives `[M+1,0,0]`, minor gives `[M,m+1,0]`, and any other level gives `[M,m,p+1]`; the result is greater than the current version |
| Semver.DetectSemverType | scripts/utils/semver.js:30-36 | `major` exactly when some commit is breaking; `minor` exactly when none is breaking and some subject matches `feat` case-insensitively; `patch` otherwise |
| Semver.DetectIgnoresOrder | scripts/utils/semver.js:30-36 | only which commits are present decides the level |
| Semver.DetectPermutation | scripts/utils/semver.js:30-36 | reordering the commits does not change the level |
| Semver.StripV | scripts/utils/semver.js:8 | `replace(/^v/, "")`: one leading `v` is dropped (definition) |
| Semver.FormatVersion | scripts/utils/semver.js:19-21 | the template `v${major}.${minor}.${patch}` (definition) |
| Semver.GreaterFrom | scripts/utils/semver.js:48-52 | the early-exit comparison loop from component `i` on (definition) |
| Semver.IsFeatSubject | scripts/utils/semver.js:32 | `/^feat(\([^)]*\))?:/i` (definition) |
| Semver.IsFixSubject | scripts/utils/semver.js:34 | `/^fix(\([^)]*\))?:/i` (definition) |
| CommitClassifier.WordEnd | scripts/generate-changelog.js:54 | the `\w+` run ends at the first non-word character |
| CommitClassifier.TailStart | scripts/generate-changelog.js:54 | where `\s*(.+)$` can match, the captured text runs to the end without a line terminator |
| CommitClassifier.ScopedAt | scripts/generate-changelog.js:54 | a match of `^\[(\w+)\]\(([^)]+)\)\s*(.+)$` has a non-empty type and a non-empty scope, in that order |
| CommitClassifier.BracketAt | scripts/generate-changelog.js:61 | a match of `^\[(\w+)\]\s*(.+)$` has a non-empty type and a non-empty text after it |
| CommitClassifier.ScopedMatchShape | scripts/generate-changelog.js:54-56 | a scoped match starts with `[`; its type is a word; its text is a non-empty suffix of the subject |
| CommitClassifier.BracketMatchShape | scripts/generate-changelog.js:61-63 | a bracket match starts with `[`; its type is a word; its text is a non-empty suffix of the subject |
| CommitClassifier.MatchesOfScopedForm | scripts/generate-changelog.js:54-56 | `[TYPE](scope) text` matches with exactly that type, scope and text |
| CommitClassifier.MatchesOfBracketForm | scripts/generate-changelog.js:54-63 | `[TYPE] text` does not match the scoped form and matches the bracket form with that type and text |
| CommitClassifier.ClassifyCommit | scripts/generate-changelog.js:48-73 | the breaking flag holds exactly when the trimmed subject contains `!:` or the body contains `BREAKING CHANGE:` |
| CommitClassifier.ScopedFormNormalised | scripts/generate-changelog.js:53-70 | `[TYPE](scope) text` becomes `type(scope): text`, lower-cased, with `feature` shortened to `feat` |
| CommitClassifier.BracketFormNormalised | scripts/generate-changelog.js:60-70 | `[TYPE] text` becomes `type: text`, lower-cased, and `[FEATURE] text` becomes `feat: text` |
| CommitClassifier.PlainSubjectOnlyTrimmed | scripts/generate-changelog.js:48-73 | a subject that starts with neither `[` nor `feature` comes back only trimmed |
| CommitClassifier.NoRewriteWithoutBracket | scripts/generate-changelog.js:53-65 | without a leading `[` neither bracket rewrite applies |
| CommitClassifier.ScopedRewrite | scripts/generate-changelog.js:53-65 | the scoped rewrite of `[TYPE](scope) text` is `type(scope): text`, which the bracket rewrite then leaves alone |
| CommitClassifier.ScopedRewriteShape | scripts/generate-changelog.js:54-58 | after the scoped rewrite the subject is trimmed and no longer starts with `[` |
| CommitClassifier.BracketRewriteShape | scripts/generate-changelog.js:61-65 | after the bracket rewrite the subject is trimmed and no longer starts with `[` |
| CommitClassifier.BracketRewritesDone | scripts/generate-changelog.js:53-65 | after both bracket rewrites no bracket form matches any more |
| CommitClassifier.FeatureStep | scripts/generate-changelog.js:68-70 | the `feature` rewrite shortens exactly the type word `feature` |
| CommitClassifier.FeatureAliasOfRewrite | scripts/generate-changelog.js:68 | a rewritten `type...:` subject is a `feature` alias exactly when the type is `feature` |
| CommitClassifier.FeatureRewriteIsCanonical | scripts/generate-changelog.js:67-70 | after the `feature` rewrite no rewrite applies any more |
| CommitClassifier.CanonicalIsFixpoint | scripts/generate-changelog.js:48-73 | a trimmed subject to which no rewrite applies comes back unchanged |
| CommitClassifier.ClassifyIdempotent | scripts/generate-changelog.js:48-73 | classifying a classified subject again changes nothing |
| CommitClassifier.LowerWord | scripts/generate-changelog.js:57 | lower-casing a `\w+` type keeps it a word |
| CommitClassifier.TailAfterSpace | scripts/generate-changelog.js:54 | after one space, a text that starts with a non-space is captured whole by `\s*(.+)$` |
| CommitClassifier.LowerKeepsAbsence | scripts/generate-changelog.js:57 | `toLowerCase` creates no character that is not a lower-case letter |
| CommitClassifier.ScopedSingleLine | scripts/generate-changelog.js:54-58 | the scoped rewrite adds no newline |
| CommitClassifier.BracketSingleLine | scripts/generate-changelog.js:61-65 | the bracket rewrite adds no newline |
| CommitClassifier.ClassifySingleLine | scripts/generate-changelog.js:48-73 | a one-line subject stays a single line |
| CommitClassifier.MatchScoped | scripts/generate-changelog.js:54-56 | `/^\[(\w+)\]\(([^)]+)\)\s*(.+)$/`: the type, the scope and the text when the pattern matches (definition) |
| CommitClassifier.RewriteScoped | scripts/generate-changelog.js:54-58 | `[TYPE](scope) text` becomes `type(scope): text` with the type in lower case (definition) |
| CommitClassifier.MatchBracket | scripts/generate-changelog.js:61-63 | `/^\[(\w+)\]\s*(.+)$/`: the type and the text when the pattern matches (definition) |
| CommitClassifier.RewriteBracket | scripts/generate-changelog.js:61-65 | `[TYPE] text` becomes `type: text` with the type in lower case (definition) |
| CommitClassifier.RewriteFeature | scripts/generate-changelog.js:68-70 | a `feature` or `feature(scope)` prefix before `:` becomes `feat` (definition) |
| Conventional.HasTypePrefix | scripts/utils/semver.js:30-36 | `/^type(\([^)]*\))?:/`, with or without the `i` flag; the same test decides the buckets at generate-changelog.js lines 216-220 (definition) |
| BulletIndent.LeadingBullet | scripts/generate-changelog.js:112-113 | the captured character is one of `-*•`; the exact match condition and which character is captured are stated by `BulletIndent.LeadingBulletMatch` |
| BulletIndent.LeadingBulletMatch | scripts/generate-changelog.js:112-113 | the pattern matches exactly when the line is whitespace, one of `-*•`, then whitespace; the captured bullet is the character after that leading whitespace |
| BulletIndent.PopTo | scripts/generate-changelog.js:123-128 | popping until `c` is on top leaves a non-empty prefix of the stack ending in `c`, with no `c` among the popped entries |
| BulletIndent.PopUntil | scripts/generate-changelog.js:123-128 | the `while` loop pops the stack exactly to the specified prefix |
| BulletIndent.IndentLine | scripts/generate-changelog.js:110-139 | the `map` callback updates the stack by `Step` and renders the line under the new stack |
| BulletIndent.Rendered | scripts/generate-changelog.js:109-140 | one rendered line per input line |
| BulletIndent.FormatIndentedLines | scripts/generate-changelog.js:106-142 | the loop's output is the rendering of every line, under the stack after it, joined by newlines |
| BulletIndent.StepTop | scripts/generate-changelog.js:115-130 | a bullet line leaves its bullet on top of the stack; any other line leaves the stack alone |
| BulletIndent.StepReturnsToLevel | scripts/generate-changelog.js:121-129 | a bullet already on the stack closes exactly the levels above its own |
| BulletIndent.StepKeepsInvariant | scripts/generate-changelog.js:115-130 | one line keeps the stack duplicate-free and made of bullets |
| BulletIndent.StackInvariant | scripts/generate-changelog.js:107-130 | after any prefix of the body the stack is duplicate-free and made of bullets |
| BulletIndent.DepthBound | scripts/generate-changelog.js:118-120 | a duplicate-free stack of bullets is at most three deep |
| BulletIndent.StackAfterBounded | scripts/generate-changelog.js:107-130 | nesting never goes deeper than three levels |
| BulletIndent.TrimmedBulletLine | scripts/generate-changelog.js:137-138 | a trimmed bullet line starts with its bullet |
| BulletIndent.RenderedIndent | scripts/generate-changelog.js:132-139 | output line `k` is two spaces per level of its depth, at least one level, then a non-space |
| BulletIndent.RenderLineKeepsLine | scripts/generate-changelog.js:137-139 | rendering a line adds no line break |
| BulletIndent.OneOutputLinePerInputLine | scripts/generate-changelog.js:109-141 | the joined output splits back into exactly one rendered line per input line |
| BulletIndent.Step | scripts/generate-changelog.js:115-130 | one line's effect on the stack: a new bullet is pushed, a known one pops back to it, a plain line changes nothing (definition) |
| BulletIndent.StackAfter | scripts/generate-changelog.js:109-130 | the stack after a prefix of the lines (definition) |
| BulletIndent.IndentWidth | scripts/generate-changelog.js:133-134 | two spaces per stack level, at least one level (definition) |
| BulletIndent.RenderLine | scripts/generate-changelog.js:137-139 | a bullet line is indented as it stands, a plain line gets `- ` in front (definition) |
| ChangelogMarkdown.CollapseNoTriple | scripts/generate-changelog.js:95 | after `replace(/\n{3,}/g, "\n\n")` no three newlines are left in a row |
| ChangelogMarkdown.CollapseNoOp | scripts/generate-changelog.js:95 | the collapse leaves a string without a triple newline unchanged |
| ChangelogMarkdown.CollapsePrefix | scripts/generate-changelog.js:95 | a newline-free prefix passes through the collapse untouched |
| ChangelogMarkdown.CollapseLast | scripts/generate-changelog.js:95 | a string that does not end in a newline keeps its last character through the collapse |
| ChangelogMarkdown.TrimSections | scripts/generate-changelog.js:91-95 | trimming the header, blank line and blocks removes only the final blank line |
| ChangelogMarkdown.BlockShape | scripts/generate-changelog.js:93 | a titled block of a non-empty bucket starts with `#` and ends in a blank line |
| ChangelogMarkdown.SectionsShape | scripts/generate-changelog.js:92-94 | the titled blocks together are empty or shaped like one block |
| ChangelogMarkdown.BuildMarkdownShape | scripts/generate-changelog.js:82-96 | the section starts with `## version (date)`, ends with exactly one blank line, and has no run of three newlines |
| ChangelogMarkdown.BuildMarkdownOfWellFormed | scripts/generate-changelog.js:82-96 | for well-formed buckets (which `Changelog.BucketsWellFormed` shows the loop fills), the section is the header, a blank line and the titled blocks of the non-empty buckets in the order breaking, feature, fix, infra, other |
| ChangelogMarkdown.Title | scripts/generate-changelog.js:83-89 | the five section titles, one per bucket key |
| ChangelogMarkdown.Header | scripts/generate-changelog.js:91 | the section heading `## version (date)` |
| ChangelogMarkdown.Block | scripts/generate-changelog.js:93 | one titled block: the title, a newline, the bucket text and a newline |
| ChangelogMarkdown.Sections | scripts/generate-changelog.js:92-94 | the blocks of the non-empty buckets, in the order breaking, feature, fix, infra, other (definition) |
| ChangelogMarkdown.CollapseNewlines | scripts/generate-changelog.js:95 | `/\n{3,}/g` replaced by two newlines: every run of three or more newlines shrinks to two, shorter runs are kept (definition) |
| ChangelogMarkdown.BuildMarkdown | scripts/generate-changelog.js:82-96 | the header, a blank line and the sections, trimmed, with long newline runs collapsed and two newlines appended (definition; its properties are the lemmas above) |
| Changelog.SshPath | scripts/generate-changelog.js:32 | a match of `^git@github.com:(.*)\.git$` is the literal parts around a line-terminator-free capture |
| Changelog.HttpsPath | scripts/generate-changelog.js:33 | the lazy capture of `^https:\/\/github.com\/(.*?)(\.git)?$` stops before a final `.git` when there is one, and otherwise takes the rest |
| Changelog.RepoUrl | scripts/generate-changelog.js:27-40 | the URL is empty or starts with `https://github.com/` |
| Changelog.SshPathOf | scripts/generate-changelog.js:32 | an SSH remote yields its repository path |
| Changelog.HttpsPathOf | scripts/generate-changelog.js:33 | an HTTPS remote with `.git` yields the path without it |
| Changelog.HttpsPathPlain | scripts/generate-changelog.js:33 | an HTTPS remote without `.git` yields the whole path |
| Changelog.SameUrlForSshAndHttps | scripts/generate-changelog.js:27-40 | the SSH and the HTTPS remote of one repository give the same web URL |
| Changelog.OtherRemoteHasNoUrl | scripts/generate-changelog.js:27-40 | a remote not on GitHub gives the empty URL |
| Changelog.TrimmedRemote | scripts/generate-changelog.js:29-31 | a remote without surrounding whitespace survives `trim` |
| Changelog.TrimAll | scripts/generate-changelog.js:177 | every record is trimmed, position by position |
| Changelog.LogRecords | scripts/generate-changelog.js:175-178 | every record kept is non-empty, trimmed and free of the commit delimiter |
| Changelog.GitLogPieces | scripts/generate-changelog.js:171-174 | the printed log has one piece per record and an empty piece after the last delimiter |
| Changelog.LogRecordsRoundTrip | scripts/generate-changelog.js:171-178 | the records found in the printed log are exactly the records printed, in order |
| Changelog.ParseRecord | scripts/generate-changelog.js:184-187 | a record is skipped unless its subject and short hash are non-empty, and a record without a field delimiter is always skipped |
| Changelog.ParseRecordRoundTrip | scripts/generate-changelog.js:184-187 | parsing `subject FIELD short FIELD body` gives those three fields back, however many delimiters the body holds |
| Changelog.KeptLines | scripts/generate-changelog.js:200-202 | the filter keeps exactly the non-empty lines that are neither co-author trailers nor rules |
| Changelog.BodyLines | scripts/generate-changelog.js:195-202 | every footer line kept is trimmed, single-line, delimiter-free and passes the filter |
| Changelog.Indented | scripts/generate-changelog.js:208 | every footer line gets two more spaces |
| Changelog.FooterLines | scripts/generate-changelog.js:204-210 | the footer is empty exactly when there are no body lines; otherwise it has one indented rendered line per body line |
| Changelog.FooterLineIndent | scripts/generate-changelog.js:204-210 | footer line `k` starts with two more spaces than the rendered line, 4 to 8 in all, then a non-space |
| Changelog.Entries | scripts/generate-changelog.js:183-225 | the loop makes at most one entry per record |
| Changelog.EntriesStep | scripts/generate-changelog.js:183-225 | a skipped record adds no entry; any other record appends its own entry |
| Changelog.InCategory | scripts/generate-changelog.js:213-224 | a bucket holds only entries of its category, taken from the log |
| Changelog.BucketAppend | scripts/generate-changelog.js:214-224 | a new entry appends its text and a newline to its own bucket and leaves the other buckets alone |
| Changelog.GroupsAppend | scripts/generate-changelog.js:214-224 | `groups[cat] += lineText + "\n"` changes that one bucket and no other |
| Changelog.NoBuckets | scripts/generate-changelog.js:180 | the five empty strings the loop starts from are the buckets of no entries |
| Changelog.BucketsAppend | scripts/generate-changelog.js:214-224 | one iteration keeps the map holding every bucket of the entries seen so far |
| Changelog.GroupsOfBuckets | scripts/generate-changelog.js:180-225 | a map that holds every category's bucket is the grouping |
| Changelog.EntriesPartition | scripts/generate-changelog.js:213-224 | every entry lands in its own bucket, and the five buckets together hold as many entries as the log |
| Changelog.ExactTypeMatchesFolded | scripts/generate-changelog.js:216-218 | a case-sensitive type match is also a case-insensitive one |
| Changelog.BucketsAgreeWithBump | scripts/generate-changelog.js:213-218 | a commit in the breaking bucket makes the release major; a feature-bucket commit with an empty breaking bucket makes it minor |
| Changelog.FormatRecord | scripts/generate-changelog.js:184-212 | the body of the loop computes the record's entry, or skips the record |
| Changelog.CollectGroups | scripts/generate-changelog.js:180-225 | the loop fills exactly the five buckets of the records' entries |
| Changelog.RepoUrlSingleLine | scripts/generate-changelog.js:27-40 | the web URL of any remote is a single line |
| Changelog.MainLineShape | scripts/generate-changelog.js:190-192 | the main line of one-line fields is one line, from `-` to `)` |
| Changelog.FooterIsJoin | scripts/generate-changelog.js:204-210 | the footer is the indented rendered body lines joined by newlines |
| Changelog.IndentedLines | scripts/generate-changelog.js:206-209 | every indented footer line is a non-empty single line, the first starts with a space and the last ends with a non-space |
| Changelog.FooterShape | scripts/generate-changelog.js:204-210 | a footer starts with a space, ends with a non-space and has no blank run of two lines |
| Changelog.EntryTextShaped | scripts/generate-changelog.js:212 | a one-line main line, optionally followed by a newline and such a footer, is a well-shaped entry text |
| Changelog.EntryOfShaped | scripts/generate-changelog.js:184-212 | a record with a one-line subject and short hash gives a well-shaped entry |
| Changelog.EntriesShaped | scripts/generate-changelog.js:183-225 | every entry of such records is well shaped |
| Changelog.LinesWellFormed | scripts/generate-changelog.js:214-224 | appending `lineText + "\n"` for well-shaped entries keeps a bucket well formed: no leading newline, one newline after each entry, no triple newline |
| Changelog.BucketsWellFormed | scripts/generate-changelog.js:180-225 | when every record's subject and short hash are single lines, all five buckets the loop fills are well formed |
| Changelog.ChangelogSection | scripts/generate-changelog.js:228 | for such a log, the section written is the header, a blank line and the titled blocks of the non-empty buckets in the order breaking, feature, fix, infra, other, with trim and collapse changing nothing |
| Changelog.GenerateChangelog | scripts/generate-changelog.js:156-263 | an empty version fails with `VERSION is required`; otherwise the files are those written for the section built from the buckets of the log |
| Changelog.MainLine | scripts/generate-changelog.js:190-192 | the bullet line with a linked short hash when the repository URL is known, a plain one otherwise (definition) |
| Changelog.IsCoAuthorLine | scripts/generate-changelog.js:201 | a line starting `Co-authored-by:` in any ASCII case |
| Changelog.IsRule | scripts/generate-changelog.js:201 | a line of three or more `-` or `*` |
| Changelog.KeepLine | scripts/generate-changelog.js:200-202 | the filter callback: non-empty, not a co-author trailer, not a rule |
| Changelog.Footer | scripts/generate-changelog.js:204-210 | the rendered body lines, each indented by two more spaces, or nothing when no body line is kept (definition) |
| Changelog.CategoryOf | scripts/generate-changelog.js:214-224 | breaking first, then the case-sensitive `feat`, `fix`, `infra` prefixes, then other (definition) |
| Changelog.EntryOf | scripts/generate-changelog.js:184-212 | a record with both subject and short hash becomes its bucket and its main line plus footer; any other record is skipped (definition) |
| Changelog.Lines | scripts/generate-changelog.js:215-223 | the bucket text: each entry followed by one newline, in log order (definition) |
| Changelog.Bucket | scripts/generate-changelog.js:214-224 | the text of one bucket: the entries of that category only (definition) |
| Changelog.Groups | scripts/generate-changelog.js:180-225 | the five buckets after the whole loop (definition) |
| ChangelogFile.LastIndexOf | scripts/generate-changelog.js:230-231 | the index found holds the character and nothing after it does, or -1 |
| ChangelogFile.BaseName | scripts/generate-changelog.js:231 | the base name holds no `/` |
| ChangelogFile.ExtName | scripts/generate-changelog.js:230 | the extension is empty, or a dotted suffix shorter than the base name |
| ChangelogFile.LastIndexAfter | scripts/generate-changelog.js:230-231 | the last `c` of `a + c + b` is the one after `a` when `b` has none |
| ChangelogFile.StripLeadingBlankLine | scripts/generate-changelog.js:250 | when no whitespace prefix ends in a newline the input is kept; otherwise everything up to the last newline of the leading whitespace is cut |
| ChangelogFile.StripOneBlankLine | scripts/generate-changelog.js:250 | a single newline before a non-space text is stripped |
| ChangelogFile.Prepended | scripts/generate-changelog.js:234-243 | the new changelog starts with the title and the new section; the whole file in each case is stated by `ChangelogFile.NewChangelog` and `ChangelogFile.ExistingChangelog` |
| ChangelogFile.NewChangelog | scripts/generate-changelog.js:241-242 | a changelog that does not exist yet is written as the title and the section alone |
| ChangelogFile.ExistingChangelog | scripts/generate-changelog.js:234-240 | an existing changelog becomes the title, the section, and the old content without its first line |
| ChangelogFile.DropFirstLineOf | scripts/generate-changelog.js:235-239 | dropping the first line of `a + "\n" + b` leaves `b` |
| ChangelogFile.PrependKeepsOlderSections | scripts/generate-changelog.js:233-240 | an existing changelog becomes the title, the new section and the older sections, intact |
| ChangelogFile.PrependWrites | scripts/generate-changelog.js:233-255 | the changelog is written and starts with the title and the section |
| ChangelogFile.BaseNameOfJoin | scripts/generate-changelog.js:251-253 | the `_temp` path's base name is the name that was joined onto the directory |
| ChangelogFile.TempNameLength | scripts/generate-changelog.js:251-253 | the `_temp` name is five characters longer than the base name |
| ChangelogFile.TempPathDiffers | scripts/generate-changelog.js:251-255 | the release-notes copy never overwrites the changelog |
| ChangelogFile.NotesDropVersionLine | scripts/generate-changelog.js:246-255 | the release-notes copy is the title and the section body, without the version line |
| ChangelogFile.WriteChangelog | scripts/generate-changelog.js:229-262 | with no output file nothing is written; otherwise the output file starts with the title and the section |
| ChangelogFile.OtherFileOverwritten | scripts/generate-changelog.js:256-258 | any other output file is overwritten with the title and the section, and nothing else changes |
| ChangelogFile.IsChangelogFile | scripts/generate-changelog.js:231-233 | the base name is `changelog.md`, compared in lower case |
| ChangelogFile.DropFirstLine | scripts/generate-changelog.js:235-239 | everything after the first line of a text (definition) |
| ChangelogFile.DirName | scripts/generate-changelog.js:253 | `path.dirname` for the paths the script writes (definition) |
| ChangelogFile.BaseNameWithout | scripts/generate-changelog.js:251 | `path.basename(p, ext)`: the base name without its extension (definition) |
| ChangelogFile.PathJoin | scripts/generate-changelog.js:253 | `path.join` of a directory from `DirName` and a file name (definition) |
| ChangelogFile.TempPath | scripts/generate-changelog.js:251-253 | the release-notes copy is `{name}_temp{ext}` in the changelog's directory (definition) |
| ChangelogFile.Notes | scripts/generate-changelog.js:246-254 | the release-notes copy: the title, then the section without its heading line and the blank lines after it (definition) |
| GitLog.ParseChunk | scripts/utils/github.js:16-22 | a chunk gives a trimmed one-line subject and a trimmed body |
| GitLog.ParseChunks | scripts/utils/github.js:16-22 | every chunk is parsed, position by position |
| GitLog.WithSubject | scripts/utils/github.js:24 | exactly the records with a subject are kept |
| GitLog.WithSubjectKeepsAll | scripts/utils/github.js:24 | records that all have a subject, followed by an empty one, filter to themselves |
| GitLog.GetCommits | scripts/utils/github.js:10-25 | there are at most as many commits as chunks, and each has a non-empty, trimmed, one-line subject and a trimmed body |
| GitLog.EmptyLog | scripts/utils/github.js:10-25 | an empty log has no commits |
| GitLog.LogPieces | scripts/utils/github.js:12 | the printed log has one chunk per commit and an empty one after the last marker |
| GitLog.ParsePrinted | scripts/utils/github.js:16-22 | a printed subject and body, between whitespace, read back as themselves |
| GitLog.ParseSubjectOnly | scripts/utils/github.js:16-22 | a commit without a body reads back with an empty body |
| GitLog.ParseWithBody | scripts/utils/github.js:16-22 | a commit with a body reads back with that body |
| GitLog.ParsePiece | scripts/utils/github.js:16-22 | each printed chunk reads back as its commit |
| GitLog.ChunksOfLogText | scripts/utils/github.js:12-16 | splitting the printed log on the marker gives the printed chunks |
| GitLog.ParsePieces | scripts/utils/github.js:16-24 | the printed chunks parse back to the commits, and the empty last chunk is dropped |
| GitLog.GetCommitsRoundTrip | scripts/utils/github.js:10-25 | `getCommits` returns exactly the commits `git log` printed, in order |
| GitLog.GitLogText | scripts/utils/github.js:11-14 | the text `git log --pretty=format:%s%n%b%n---END---` prints for a list of commits (definition) |
| NextRelease.TagList | scripts/get-next-release.js:20-22 | every tag is non-empty and one line long; that the tags are the listing's lines in order is stated by `NextRelease.TagListRoundTrip` |
| NextRelease.TagListRoundTrip | scripts/get-next-release.js:20-22 | the listing `git tag` prints, one tag per line, reads back as exactly those tags, in the order printed |
| NextRelease.DefaultIsStrict | scripts/get-next-release.js:25 | `v1.0.0` is a strict tag parsing to `[1,0,0]` |
| NextRelease.FirstStable | scripts/get-next-release.js:24-25 | `find` returns the first strict tag, and no tag before it is strict |
| NextRelease.LatestRelease | scripts/get-next-release.js:24-25 | the latest release is the first strict tag of the listing, or `v1.0.0` when there is none |
| NextRelease.FirstStableAfter | scripts/get-next-release.js:24-25 | non-strict tags in front only shift the position found |
| NextRelease.OtherTagsSkipped | scripts/get-next-release.js:24-25 | prerelease and other tags listed before the newest release do not hide it |
| NextRelease.NoStableTagStartsAtOne | scripts/get-next-release.js:24-25 | with no strict tag the base is `v1.0.0` |
| NextRelease.ClassifyAll | scripts/get-next-release.js:29 | each commit is classified, position by position |
| NextRelease.GetNextStableVersion | scripts/get-next-release.js:16-41 | the next version is a strict tag, written canonically, and greater than the latest release |
| NextRelease.NextStableOfLevel | scripts/get-next-release.js:28-33 | the next version is the latest release bumped by the level the range's classified commits call for |
| NextRelease.BumpOfLatest | scripts/get-next-release.js:30-33 | the triple of the next version for each level |
| NextRelease.LevelOfBreaking | scripts/get-next-release.js:29-30 | a breaking commit in the range makes the level major |
| NextRelease.BreakingBumpsMajor | scripts/get-next-release.js:28-33 | a breaking commit bumps the major number and resets the others |
| NextRelease.NoneBreaking | scripts/get-next-release.js:29 | without a breaking commit in the log no classified commit is breaking |
| NextRelease.SomeFeature | scripts/get-next-release.js:29-30 | a commit whose normalised subject is `feat` shows up among the classified commits |
| NextRelease.LevelOfFeature | scripts/get-next-release.js:29-30 | with no breaking commit, a `feat` commit makes the level minor |
| NextRelease.FeatureBumpsMinor | scripts/get-next-release.js:28-33 | with no breaking commit, a `feat` commit bumps the minor number and resets the patch |
| NextRelease.LevelOtherwise | scripts/get-next-release.js:30 | with neither, the level is patch |
| NextRelease.OtherwisePatch | scripts/get-next-release.js:28-33 | with neither, including an empty range, the patch number goes up |
| NextRelease.RangeCommits | scripts/get-next-release.js:28-29 | the commits of the range, read from the log text and classified (definition) |
| NextRelease.IsBreakingCommit | scripts/generate-changelog.js:50-51 | a trimmed subject holding `!:` or a body holding `BREAKING CHANGE:` (definition) |
| NextPrerelease.BetaBase | scripts/release-process/get-next-prerelease.js:29 | the base of a beta tag is a strict tag |
| NextPrerelease.BetaNumeral | scripts/release-process/get-next-prerelease.js:30 | the number of a beta tag is a digit run |
| NextPrerelease.BetaTagParts | scripts/release-process/get-next-prerelease.js:23-30 | a beta tag is its base, `-beta.` and its numeral |
| NextPrerelease.BetaTagOf | scripts/release-process/get-next-prerelease.js:23 | a strict tag, `-beta.` and digits make a beta tag with those parts |
| NextPrerelease.FormatBetaParse | scripts/release-process/get-next-prerelease.js:53 | the tag written by the template parses back to its base and number |
| NextPrerelease.SplitOnInfix | scripts/release-process/get-next-prerelease.js:30 | `split("-beta.")` gives exactly the base and the numeral |
| NextPrerelease.LastDotPiece | scripts/release-process/get-next-prerelease.js:37 | `split(".").pop()` is the numeral too, so both readings of the number agree |
| NextPrerelease.LastDotOf | scripts/release-process/get-next-prerelease.js:37 | the last `.`-piece of `base-beta.N` is the numeral `N` |
| NextPrerelease.StartsWithBase | scripts/release-process/get-next-prerelease.js:36 | `startsWith(v + "-beta.")` holds exactly when the beta's base is `v` |
| NextPrerelease.BetaKey | scripts/release-process/get-next-prerelease.js:21 | the numeric sort key of a beta tag has four parts: major, minor, patch and beta number |
| NextPrerelease.KeyOrder | scripts/release-process/get-next-prerelease.js:21 | tags are ordered by their base's triple first and their beta number second |
| NextPrerelease.BetaTags | scripts/release-process/get-next-prerelease.js:23 | exactly the tags of the beta shape are kept |
| NextPrerelease.LatestBeta | scripts/release-process/get-next-prerelease.js:18-24 | there is a latest beta exactly when there are betas, and no beta has a greater key |
| NextPrerelease.BaseBetas | scripts/release-process/get-next-prerelease.js:35-37 | the numbers are exactly those of the betas starting with `v-beta.` |
| NextPrerelease.MaxOf | scripts/release-process/get-next-prerelease.js:47 | `Math.max` returns an element that is at least every element |
| NextPrerelease.NextBetaNumber | scripts/release-process/get-next-prerelease.js:47 | the number is above every existing one, and is 0 or one past an existing one |
| NextPrerelease.NextBeta | scripts/release-process/get-next-prerelease.js:39-53 | the result is a beta tag whose base is the stable version or above it; when the series continues, the newest beta's base with its number plus one; otherwise the stable base with the next free number |
| NextPrerelease.GetNextBetaVersion | scripts/release-process/get-next-prerelease.js:14-56 | the result is a beta tag of the next stable version or above it, and is not an existing tag |
| NextPrerelease.SameBaseAtMost | scripts/release-process/get-next-prerelease.js:21-24 | a tag with the latest beta's base has a number at most the latest's |
| NextPrerelease.BaseAtMost | scripts/release-process/get-next-prerelease.js:21-24 | no beta's base is above the latest beta's base |
| NextPrerelease.NumberingContinued | scripts/release-process/get-next-prerelease.js:40-45 | a continued series' number is above every beta of that base |
| NextPrerelease.NumberingStable | scripts/release-process/get-next-prerelease.js:46-51 | a new or continued series of the stable version numbers above every beta of that base, from 0 or directly after one |
| NextPrerelease.NextBetaNumbering | scripts/release-process/get-next-prerelease.js:39-53 | the beta number is one past every beta of the same base, and is 0 or follows one directly |
| NextPrerelease.NextBetaIsNew | scripts/release-process/get-next-prerelease.js:39-53 | the proposed tag is never an existing tag |
| NextPrerelease.BaseContinued | scripts/release-process/get-next-prerelease.js:40-42 | no beta base is above the latest beta's base |
| NextPrerelease.BaseNotContinued | scripts/release-process/get-next-prerelease.js:40-51 | when the series does not continue, no beta base is above the stable version |
| NextPrerelease.NextBetaBase | scripts/release-process/get-next-prerelease.js:34-53 | the base is the stable version unless some beta leads above it, and then it is the highest beta base |
| NextPrerelease.NextBetaAboveAll | scripts/release-process/get-next-prerelease.js:39-53 | when no tag writes leading zeros, the new tag sorts after every existing beta |
| NextPrerelease.IsBetaTag | scripts/release-process/get-next-prerelease.js:23 | `/^v\d+\.\d+\.\d+-beta\.\d+$/` (definition) |
| NextPrerelease.BetaNum | scripts/release-process/get-next-prerelease.js:30 | `parseInt` of the digits after `-beta.` (definition) |
| NextPrerelease.FormatBeta | scripts/release-process/get-next-prerelease.js:53 | `${base}-beta.${n}` (definition) |
| NextPrerelease.Continues | scripts/release-process/get-next-prerelease.js:40 | the newest beta's base is above the next stable version, so its series continues (definition) |
| Publisher.PublishActions | scripts/release-process/update-version.js:31-58 | an update starts with the changelog and `npm version`, and always tags and pushes the tag |
| Publisher.ReleaseRepo.constructor | scripts/release-process/update-version.js:20-22 | the repository starts with the manifest's version and no actions |
| Publisher.ReleaseRepo.UpdateVersion | scripts/release-process/update-version.js:15-61 | a missing version fails and changes nothing; a version equal to `v` and the manifest version is skipped and changes nothing; any other runs every publish action in order and sets the manifest |
| Publisher.ReleaseRepo.Publish | scripts/release-process/update-version.js:31-60 | each step appends its action in order, and `npm version` sets the manifest |
| Publisher.ReleaseRepo.UpdateTwice | scripts/release-process/update-version.js:22-29 | a repeated `v`-prefixed update is skipped the second time and adds no action |
| Publisher.ReleaseStepsOnlyOnRelease | scripts/release-process/update-version.js:43-58 | committing and pushing the release branch happen exactly on the release branch; outside it the publish is the release publish without them |
| Publisher.PublishOrder | scripts/release-process/update-version.js:31-58 | changelog before manifest before tag before tag push; on the release branch, commit before tag and branch push after tag push |
| Publisher.UnprefixedNeverSkipped | scripts/release-process/update-version.js:22-24 | a version given without its `v` never equals `v` plus the manifest version, so it is never skipped |

## Left out

- Shell commands (`git fetch`, `git fetch --tags`, `execSync`) are not run. Their output is a parameter: the `git log`, `git tag` and `git remote get-url origin` text. A failing `git remote` is `None`.
- `getDateWIB` is left out. It reads the clock and formats it for the Asia/Jakarta zone, so the date is a parameter of `GenerateChangelog`.
- Console output, the `GITHUB_OUTPUT` append and the CLI entry points are left out. Each CLI entry only reads `process.argv` and calls the modelled function.
- File I/O is a map from path to content. `package.json` is the `manifestVersion` field of `ReleaseRepo`. Read and JSON-parse failures of `package.json` are not modelled.
- `npm version`, `git config`, `git add`, `git commit`, `git tag` and `git push` are recorded as actions; their own effects are not modelled. The one exception is the manifest version, which `npm version` sets to the target without its leading `v`.
- `generateChangelog` is one action in the `Publisher` log; its effect is modelled separately by `Changelog.GenerateChangelog`. The `from`/`to` refs become the log text passed in.
- `path.basename`, `path.extname`, `path.dirname` and `path.join` split on `/` only. Normalisation, `..`, trailing slashes and Windows separators are not modelled.
- `toLowerCase` and the regex `i` flag fold ASCII letters only. Non-ASCII letters are left unchanged.
- NextPrerelease.LatestBeta: the `localeCompare(…, {numeric: true})` sort is modelled by the numeric order of (major, minor, patch, beta number). The latest beta is the last tag with the greatest key. Two tags with equal numbers but different text, such as leading zeros, are not ordered as ICU collation would order them.
- Semver.ParseVersion: defined only on `X.Y.Z` or `vX.Y.Z` with digit components. `Number` on other text, such as `NaN`, `Number("")` being 0 or extra components, is not modelled. `IsSemverGreater` and `BumpVersion` inherit this requirement. Every version the scripts pass to them comes from a tag matching `^v\d+\.\d+\.\d+`, or from `bumpVersion` itself.
- NextPrerelease.NextBetaAboveAll: proved only for tags without leading zeros in the version, which is how `bumpVersion` writes versions.
- Publisher.ReleaseStepsOnlyOnRelease: requires the version to differ from `release`. Otherwise `git push origin <version>` and `git push origin release` are the same action.
- Publisher.UnprefixedNeverSkipped: states a consequence of the `v${pkg.version}` comparison rather than a promise of the script.
- The older test file `scripts/__test__/update-version.test.js` expects a `TARGET_BRANCH` argument, a `bot: bump version` commit message and a push to `HEAD:<branch>`. The code does none of these, so the model follows the code.
- Changelog.HttpsPath: the lazy `(.*?)(\.git)?$` is modelled by its outcome. The capture stops before a final `.git` when there is one, and otherwise takes the rest.
- Semver.BumpVersion: the result is stated for unbounded integers. The script parses components with `Number` (scripts/utils/semver.js:8) and adds one (lines 19-21) in double precision. Components above 2^53 lose precision, and from 1e21 on they print in exponent notation. Neither is modelled.
- Semver.BumpTriple: the same unbounded arithmetic as `BumpVersion`; the double-precision limits of lines 19-21 are not modelled.
- NextPrerelease.NextBetaIsNew: beta numbers are unbounded naturals. The script reads them with `parseInt` (scripts/release-process/get-next-prerelease.js:30,37) and adds one (lines 42 and 47) in double precision, so above 2^53 the next number can equal one already used. That limit is not modelled.
- Publisher.ReleaseRepo.UpdateVersion: every shell command is taken to succeed. In the script (scripts/release-process/update-version.js:35-57) a failing `execSync` throws and the remaining steps do not run; that early stop is not modelled.
- Publisher.ReleaseRepo.Publish: the same assumption as `UpdateVersion`; a throwing command that stops the sequence part-way is not modelled.
- Changelog.GenerateChangelog: `git fetch origin` and `git log` (scripts/generate-changelog.js:164,171) are taken to succeed. In the script a failing one throws and ends the run before anything is written; that path is not modelled.
- Changelog.BucketsWellFormed: the shape of the buckets is proved only for records whose subject and short hash are single lines. `git log` prints `%s` and `%h` on one line, so real output meets this.
- Changelog.ChangelogSection: the same single-line condition on subjects and short hashes, and also on the version and the date.
