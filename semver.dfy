/**
 * Version arithmetic of the release scripts: reading `vX.Y.Z` into a numeric
 * triple, bumping it by a level, comparing two versions, and reducing a list
 * of classified commits to one bump level.
 */
module Semver {
  import opened Text
  import opened Conventional

  /** `v.replace(/^v/, "")`. */
  function StripV(s: string): string {
    if |s| > 0 && s[0] == 'v' then s[1..] else s
  }

  /** `s`, without an optional leading `v`, is three dot-separated digit runs. */
  predicate IsVersionString(s: string) {
    var parts := SplitOn(StripV(s), ".");
    |parts| == 3 && IsDigits(parts[0]) && IsDigits(parts[1]) && IsDigits(parts[2])
  }

  /** `/^v\d+\.\d+\.\d+$/.test(s)`: the stable release tag shape. */
  predicate IsStrictVersion(s: string) {
    |s| > 0 && s[0] == 'v' && IsVersionString(s)
  }

  /** `parseVersion`: the numbers between the dots, after an optional leading `v`. */
  function ParseVersion(s: string): (r: seq<nat>)
    requires IsVersionString(s)
    ensures |r| == 3
  {
    var parts := SplitOn(StripV(s), ".");
    [DigitsValue(parts[0]), DigitsValue(parts[1]), DigitsValue(parts[2])]
  }

  /** The template `v${major}.${minor}.${patch}` used by `bumpVersion`. */
  function FormatVersion(v: seq<nat>): string
    requires |v| == 3
  {
    "v" + NatToString(v[0]) + "." + NatToString(v[1]) + "." + NatToString(v[2])
  }

  lemma JoinThree(a: string, b: string, c: string)
    ensures Join([a, b, c], ".") == a + "." + b + "." + c
  {
    assert [a, b, c][1..] == [b, c] && [b, c][1..] == [c];
    assert Join([b, c], ".") == b + "." + c;
  }

  /** What `bumpVersion` builds is a strict tag, and parsing it gives the triple back. */
  lemma {:induction false} FormatParseRoundTrip(v: seq<nat>)
    requires |v| == 3
    ensures IsStrictVersion(FormatVersion(v))
    ensures ParseVersion(FormatVersion(v)) == v
  {
    var a, b, c := NatToString(v[0]), NatToString(v[1]), NatToString(v[2]);
    var s := FormatVersion(v);
    assert StripV(s) == a + "." + b + "." + c;
    JoinThree(a, b, c);
    NatToStringHasNo(v[0], '.');
    NatToStringHasNo(v[1], '.');
    NatToStringHasNo(v[2], '.');
    SplitJoin([a, b, c], '.');
    assert SplitOn(StripV(s), ".") == [a, b, c];
    NatToStringRoundTrip(v[0]);
    NatToStringRoundTrip(v[1]);
    NatToStringRoundTrip(v[2]);
  }

  /** A strict tag is `v`, digits, a dot, digits, a dot and digits. */
  lemma StrictVersionParts(s: string) returns (a: string, b: string, c: string)
    requires IsStrictVersion(s)
    ensures IsDigits(a) && IsDigits(b) && IsDigits(c) && s == "v" + a + "." + b + "." + c
  {
    var t := s[1..];
    assert StripV(s) == t;
    a, b, c := DottedParts(t);
    assert s == "v" + t;
  }

  /** Three dot-free pieces joined by dots, prefixed with `v`. */
  lemma DottedParts(t: string) returns (a: string, b: string, c: string)
    requires var parts := SplitOn(t, ".");
      |parts| == 3 && IsDigits(parts[0]) && IsDigits(parts[1]) && IsDigits(parts[2])
    ensures IsDigits(a) && IsDigits(b) && IsDigits(c) && "v" + t == "v" + a + "." + b + "." + c
  {
    var parts := SplitOn(t, ".");
    a, b, c := parts[0], parts[1], parts[2];
    assert parts == [a, b, c];
    JoinOfSplit(t, ".");
    JoinThree(a, b, c);
  }

  lemma DigitsAndDots(a: string, b: string, c: string)
    requires IsDigits(a) && IsDigits(b) && IsDigits(c)
    ensures var s := "v" + a + "." + b + "." + c;
      (forall i :: 1 <= i < |s| ==> IsDigit(s[i]) || s[i] == '.') && IsDigit(s[|s| - 1])
  {
    var s := "v" + a + "." + b + "." + c;
    forall i | 1 <= i < |s| ensures IsDigit(s[i]) || s[i] == '.' {
      if i <= |a| {
        assert s[i] == a[i - 1];
      } else if i <= |a| + 1 + |b| && i > |a| + 1 {
        assert s[i] == b[i - |a| - 2];
      } else if i > |a| + |b| + 2 {
        assert s[i] == c[i - |a| - |b| - 3];
      }
    }
    assert s[|s| - 1] == c[|c| - 1];
  }

  /** A strict tag is `v` followed by digits and dots, and ends in a digit. */
  lemma StrictVersionShape(s: string)
    requires IsStrictVersion(s)
    ensures forall i :: 1 <= i < |s| ==> IsDigit(s[i]) || s[i] == '.'
    ensures |s| >= 2 && IsDigit(s[|s| - 1]) && '-' !in s
  {
    var a, b, c := StrictVersionParts(s);
    DigitsAndDots(a, b, c);
  }

  /** The leading `v` is optional: `1.2.3` and `v1.2.3` parse alike. */
  lemma LeadingVOptional(s: string)
    requires IsVersionString(s) && (|s| == 0 || s[0] != 'v')
    ensures IsStrictVersion("v" + s) && ParseVersion("v" + s) == ParseVersion(s)
  {
    assert StripV("v" + s) == s;
  }

  /**
   * The first component, from index `i` on, in which `a` and `b` differ
   * decides; equal to the end means "not greater". This is the early-exit
   * `for` loop of `isSemverGreater`, written as a recursive function.
   */
  function GreaterFrom(a: seq<nat>, b: seq<nat>, i: nat): bool
    requires |a| == |b| && i <= |a|
    decreases |a| - i
  {
    if i == |a| then false
    else if a[i] > b[i] then true
    else if a[i] < b[i] then false
    else GreaterFrom(a, b, i + 1)
  }

  /** Lexicographic order: at the first index where they differ, `a` is larger. */
  ghost predicate LexGreater(a: seq<nat>, b: seq<nat>)
    requires |a| == |b|
  {
    exists k :: 0 <= k < |a| && a[..k] == b[..k] && a[k] > b[k]
  }

  lemma {:induction false} GreaterFromIsLex(a: seq<nat>, b: seq<nat>, i: nat)
    requires |a| == |b| && i <= |a| && a[..i] == b[..i]
    ensures GreaterFrom(a, b, i) <==> LexGreater(a, b)
    decreases |a| - i
  {
    if i == |a| {
      assert a == b;
    } else if a[i] > b[i] {
      assert a[..i] == b[..i] && a[i] > b[i];
    } else if a[i] < b[i] {
      forall k | 0 <= k < |a| && a[..k] == b[..k] ensures a[k] <= b[k] {
        if k < i {
          assert a[k] == a[..i][k];
        }
      }
    } else {
      assert a[..i + 1] == a[..i] + [a[i]] && b[..i + 1] == b[..i] + [b[i]];
      GreaterFromIsLex(a, b, i + 1);
    }
  }

  /** `isSemverGreater(a, b)`: true iff the first differing component of `a` is larger. */
  function IsSemverGreater(a: string, b: string): (r: bool)
    requires IsVersionString(a) && IsVersionString(b)
    ensures r <==> LexGreater(ParseVersion(a), ParseVersion(b))
  {
    GreaterFromIsLex(ParseVersion(a), ParseVersion(b), 0);
    GreaterFrom(ParseVersion(a), ParseVersion(b), 0)
  }

  lemma LexIrreflexive(a: seq<nat>)
    ensures !LexGreater(a, a)
  {
  }

  lemma {:induction false} LexAsymmetric(a: seq<nat>, b: seq<nat>)
    requires |a| == |b| && LexGreater(a, b)
    ensures !LexGreater(b, a)
  {
    var k :| 0 <= k < |a| && a[..k] == b[..k] && a[k] > b[k];
    forall j | 0 <= j < |a| && b[..j] == a[..j] ensures b[j] <= a[j] {
      if j < k {
        assert a[j] == a[..k][j];
      }
    }
  }

  lemma {:induction false} LexTransitive(a: seq<nat>, b: seq<nat>, c: seq<nat>)
    requires |a| == |b| == |c| && LexGreater(a, b) && LexGreater(b, c)
    ensures LexGreater(a, c)
  {
    var k :| 0 <= k < |a| && a[..k] == b[..k] && a[k] > b[k];
    var j :| 0 <= j < |a| && b[..j] == c[..j] && b[j] > c[j];
    if k < j {
      assert b[k] == b[..j][k] == c[..j][k] == c[k];
      assert a[..k] == c[..k] by {
        assert b[..k] == b[..j][..k] && c[..k] == c[..j][..k];
      }
    } else if j < k {
      assert a[j] == a[..k][j] == b[..k][j] == b[j];
      assert a[..j] == c[..j] by {
        assert a[..j] == a[..k][..j] && b[..j] == b[..k][..j];
      }
    } else {
      assert a[..k] == c[..k];
    }
  }

  /** Two different sequences of one length are ordered one way or the other. */
  lemma {:induction false} LexConnected(a: seq<nat>, b: seq<nat>)
    requires |a| == |b| && a != b
    ensures LexGreater(a, b) || LexGreater(b, a)
  {
    var k := FirstDifference(a, b, 0);
    if a[k] < b[k] {
      assert b[..k] == a[..k] && b[k] > a[k];
    }
  }

  /** The first index at or after `i` where `a` and `b` differ, given that they differ somewhere. */
  lemma {:induction false} FirstDifferenceExists(a: seq<nat>, b: seq<nat>)
    requires |a| == |b| && a != b
    ensures exists k :: 0 <= k < |a| && a[..k] == b[..k] && a[k] != b[k]
  {
    var k := FirstDifference(a, b, 0);
  }

  function FirstDifference(a: seq<nat>, b: seq<nat>, i: nat): (k: nat)
    requires |a| == |b| && i <= |a| && a[..i] == b[..i] && a != b
    ensures i <= k < |a| && a[..k] == b[..k] && a[k] != b[k]
    decreases |a| - i
  {
    if i == |a| then
      assert false; i
    else if a[i] != b[i] then i
    else
      assert a[..i + 1] == a[..i] + [a[i]] && b[..i + 1] == b[..i] + [b[i]];
      FirstDifference(a, b, i + 1)
  }

  lemma SemverGreaterIrreflexive(a: string)
    requires IsVersionString(a)
    ensures !IsSemverGreater(a, a)
  {
  }

  lemma SemverGreaterAsymmetric(a: string, b: string)
    requires IsVersionString(a) && IsVersionString(b) && IsSemverGreater(a, b)
    ensures !IsSemverGreater(b, a)
  {
    LexAsymmetric(ParseVersion(a), ParseVersion(b));
  }

  lemma SemverGreaterTransitive(a: string, b: string, c: string)
    requires IsVersionString(a) && IsVersionString(b) && IsVersionString(c)
    requires IsSemverGreater(a, b) && IsSemverGreater(b, c)
    ensures IsSemverGreater(a, c)
  {
    LexTransitive(ParseVersion(a), ParseVersion(b), ParseVersion(c));
  }

  /** For versions with different triples exactly one direction holds. */
  lemma SemverGreaterTotal(a: string, b: string)
    requires IsVersionString(a) && IsVersionString(b) && ParseVersion(a) != ParseVersion(b)
    ensures IsSemverGreater(a, b) != IsSemverGreater(b, a)
  {
    LexConnected(ParseVersion(a), ParseVersion(b));
    if IsSemverGreater(a, b) {
      SemverGreaterAsymmetric(a, b);
    }
  }

  /** The triple `bumpVersion` produces for a level; any unknown level bumps the patch. */
  function BumpTriple(p: seq<nat>, level: string): (q: seq<nat>)
    requires |p| == 3
    ensures |q| == 3 && LexGreater(q, p)
  {
    if level == "major" then
      assert [p[0] + 1, 0, 0][..0] == p[..0];
      [p[0] + 1, 0, 0]
    else if level == "minor" then
      assert [p[0], p[1] + 1, 0][..1] == p[..1];
      [p[0], p[1] + 1, 0]
    else
      assert [p[0], p[1], p[2] + 1][..2] == p[..2];
      [p[0], p[1], p[2] + 1]
  }

  /** `bumpVersion(current, type)`. */
  function BumpVersion(current: string, level: string): (r: string)
    requires IsVersionString(current)
    ensures IsStrictVersion(r)
    ensures var p := ParseVersion(current);
      ParseVersion(r) == (if level == "major" then [p[0] + 1, 0, 0]
                          else if level == "minor" then [p[0], p[1] + 1, 0]
                          else [p[0], p[1], p[2] + 1])
    ensures IsSemverGreater(r, current)
  {
    var q := BumpTriple(ParseVersion(current), level);
    FormatParseRoundTrip(q);
    FormatVersion(q)
  }

  /** `/^feat(\([^)]*\))?:/i` */
  predicate IsFeatSubject(s: string) {
    HasTypePrefix(s, "feat", true)
  }

  /** `/^fix(\([^)]*\))?:/i` */
  predicate IsFixSubject(s: string) {
    HasTypePrefix(s, "fix", true)
  }

  /**
   * `detectSemverType`: `major` iff some commit is breaking, else `minor`
   * iff some subject is a `feat`, else `patch` (a `fix` and anything else
   * alike).
   */
  function DetectSemverType(commits: seq<ClassifiedCommit>): (r: string)
    ensures r == "major" || r == "minor" || r == "patch"
    ensures r == "major" <==> exists c :: c in commits && c.isBreaking
    ensures r == "minor" <==>
      (forall c :: c in commits ==> !c.isBreaking) &&
      (exists c :: c in commits && IsFeatSubject(c.subject))
  {
    if exists i | 0 <= i < |commits| :: commits[i].isBreaking then "major"
    else if exists i | 0 <= i < |commits| :: IsFeatSubject(commits[i].subject) then "minor"
    else if exists i | 0 <= i < |commits| :: IsFixSubject(commits[i].subject) then "patch"
    else "patch"
  }

  /** Only which commits are present matters, not their order or multiplicity. */
  lemma DetectIgnoresOrder(a: seq<ClassifiedCommit>, b: seq<ClassifiedCommit>)
    requires forall c :: c in a <==> c in b
    ensures DetectSemverType(a) == DetectSemverType(b)
  {
  }

  lemma DetectPermutation(a: seq<ClassifiedCommit>, b: seq<ClassifiedCommit>)
    requires multiset(a) == multiset(b)
    ensures DetectSemverType(a) == DetectSemverType(b)
  {
    forall c ensures c in a <==> c in b {
      assert c in a <==> c in multiset(a);
      assert c in b <==> c in multiset(b);
    }
    DetectIgnoresOrder(a, b);
  }
}
