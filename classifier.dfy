/**
 * `classifyCommit`: turns a raw commit subject and body into the canonical
 * conventional-commit subject and a breaking-change flag, rewriting the
 * legacy `[TYPE](scope) text`, `[TYPE] text` and `feature` forms.
 */
module CommitClassifier {
  import opened Text
  import opened Results
  import opened Conventional

  /** Index just past the longest run of `\w` characters that starts at `i`. */
  function WordEnd(s: string, i: nat): (r: nat)
    requires i <= |s|
    ensures i <= r <= |s|
    ensures forall k :: i <= k < r ==> IsWordChar(s[k])
    ensures r < |s| ==> !IsWordChar(s[r])
    decreases |s| - i
  {
    if i == |s| || !IsWordChar(s[i]) then i else WordEnd(s, i + 1)
  }

  predicate IsWord(w: string) {
    |w| > 0 && forall k :: 0 <= k < |w| ==> IsWordChar(w[k])
  }

  /**
   * The pattern tail `\s*(.+)$` applied to `s` from index `i`: the index
   * where the captured text starts. `\s*` first takes every leading space;
   * `.+` must then reach the end without crossing a line terminator. If the
   * spaces run to the end, `\s*` gives back one character for `.+`. Shorter
   * `\s*` runs only add characters to `.+`, so they cannot succeed where
   * these fail.
   */
  function TailStart(s: string, i: nat): (r: Option<nat>)
    requires i <= |s|
    ensures r.Some? ==> i <= r.value < |s| && NoLineTerminator(s[r.value..])
  {
    if i == |s| then None else TailFrom(s, i)
  }

  /** `TailStart` once the spaces before index `k` are taken; the last character is always left for `.+`. */
  function TailFrom(s: string, k: nat): (r: Option<nat>)
    requires k < |s|
    ensures r.Some? ==> k <= r.value < |s| && NoLineTerminator(s[r.value..])
    decreases |s| - k
  {
    if k + 1 < |s| && IsSpace(s[k]) then TailFrom(s, k + 1)
    else if NoLineTerminator(s[k..]) then Some(k)
    else None
  }

  /**
   * Where `/^\[(\w+)\]\(([^)]+)\)\s*(.+)$/` matches `s`: the index `w` of the
   * `]` closing the type, the index `p` of the `)` closing the scope, and
   * the index `k` where the text starts.
   */
  function ScopedAt(s: string): (r: Option<(nat, nat, nat)>)
    ensures r.Some? ==> 1 < r.value.0 && r.value.0 + 2 < r.value.1 < r.value.2 < |s|
  {
    if |s| == 0 || s[0] != '[' then None
    else
      var w := WordEnd(s, 1);
      if w == 1 || w + 1 >= |s| || s[w] != ']' || s[w + 1] != '(' then None
      else
        var p := IndexFrom(s, ")", w + 2);
        if p == |s| || p == w + 2 then None
        else
          match TailStart(s, p + 1)
          case None => None
          case Some(k) => Some((w, p, k))
  }

  /** `s.match(/^\[(\w+)\]\(([^)]+)\)\s*(.+)$/)`: the type, the scope and the text. */
  function MatchScoped(s: string): Option<(string, string, string)> {
    match ScopedAt(s)
    case None => None
    case Some((w, p, k)) => Some((s[1..w], s[w + 2..p], s[k..]))
  }

  /** Where `/^\[(\w+)\]\s*(.+)$/` matches `s`: the index `w` of the `]` and the index `k` where the text starts. */
  function BracketAt(s: string): (r: Option<(nat, nat)>)
    ensures r.Some? ==> 1 < r.value.0 < r.value.1 < |s|
  {
    if |s| == 0 || s[0] != '[' then None
    else
      var w := WordEnd(s, 1);
      if w == 1 || w >= |s| || s[w] != ']' then None
      else
        match TailStart(s, w + 1)
        case None => None
        case Some(k) => Some((w, k))
  }

  /** `s.match(/^\[(\w+)\]\s*(.+)$/)`: the type and the text. */
  function MatchBracket(s: string): Option<(string, string)> {
    match BracketAt(s)
    case None => None
    case Some((w, k)) => Some((s[1..w], s[k..]))
  }

  /** The `\w+` run that starts at index 1 and ends at `w` is a word. */
  lemma TypeWordAt(s: string, w: nat)
    requires 1 < w <= |s| && WordEnd(s, 1) == w
    ensures IsWord(s[1..w])
  {
    forall k | 0 <= k < w - 1 ensures s[1..w][k] == s[k + 1] { }
  }

  /** A scoped match starts with `[`, its type is a word, and its text is a non-empty suffix of the subject. */
  lemma ScopedMatchShape(s: string)
    requires MatchScoped(s).Some?
    ensures var m := MatchScoped(s).value;
      |s| > 0 && s[0] == '[' && IsWord(m.0) && m.2 != [] && m.2[|m.2| - 1] == s[|s| - 1]
  {
    var (w, p, k) := ScopedAt(s).value;
    TypeWordAt(s, w);
  }

  /** A bracket match starts with `[`, its type is a word, and its text is a non-empty suffix of the subject. */
  lemma BracketMatchShape(s: string)
    requires MatchBracket(s).Some?
    ensures var m := MatchBracket(s).value;
      |s| > 0 && s[0] == '[' && IsWord(m.0) && m.1 != [] && m.1[|m.1| - 1] == s[|s| - 1]
  {
    var (w, k) := BracketAt(s).value;
    TypeWordAt(s, w);
  }

  /** `/^feature(\([^)]*\))?:/.test(s)` (case-sensitive). */
  predicate IsFeatureAlias(s: string) {
    HasTypePrefix(s, "feature", false)
  }

  /** Step 1: `[TYPE](scope) text` becomes `type(scope): text`. */
  function RewriteScoped(s: string): string {
    match MatchScoped(s)
    case Some((t, scope, text)) => ToLowerAscii(t) + ("(" + scope + "): " + text)
    case None => s
  }

  /** Step 2: `[TYPE] text` becomes `type: text`. */
  function RewriteBracket(s: string): string {
    match MatchBracket(s)
    case Some((t, text)) => ToLowerAscii(t) + (": " + text)
    case None => s
  }

  /** Step 3: `s.replace(/^feature(\([^)]*\))?:/, "feat$1:")`, which swaps the prefix `feature` for `feat`. */
  function RewriteFeature(s: string): string {
    if IsFeatureAlias(s) then "feat" + s[7..] else s
  }

  /**
   * `classifyCommit(subjectOrig, body)`. The breaking flag is read off the
   * trimmed original subject, before any rewrite can move a `!:`.
   */
  function ClassifyCommit(subjectOrig: string, body: string): (r: ClassifiedCommit)
    ensures r.isBreaking <==> Contains(Trim(subjectOrig), "!:") || Contains(body, "BREAKING CHANGE:")
  {
    var subject := Trim(subjectOrig);
    var isBreaking := Contains(subject, "!:") || Contains(body, "BREAKING CHANGE:");
    ClassifiedCommit(RewriteFeature(RewriteBracket(RewriteScoped(subject))), isBreaking)
  }

  /** Lower-casing turns no other character into `c` when `c` is not a lower-case letter. */
  lemma LowerKeepsAbsence(t: string, c: char)
    requires c !in t && !('a' <= c <= 'z')
    ensures c !in ToLowerAscii(t)
  {
  }

  /** The scoped rewrite adds no newline. */
  lemma ScopedSingleLine(s: string)
    requires '\n' !in s
    ensures '\n' !in RewriteScoped(s)
  {
    if MatchScoped(s).Some? {
      var (w, p, k) := ScopedAt(s).value;
      LowerKeepsAbsence(s[1..w], '\n');
      assert '\n' !in s[w + 2..p] && '\n' !in s[k..];
    }
  }

  /** The bracket rewrite adds no newline. */
  lemma BracketSingleLine(s: string)
    requires '\n' !in s
    ensures '\n' !in RewriteBracket(s)
  {
    if MatchBracket(s).Some? {
      var (w, k) := BracketAt(s).value;
      LowerKeepsAbsence(s[1..w], '\n');
      assert '\n' !in s[k..];
    }
  }

  /** No rewrite adds a newline: a one-line subject stays on one line. */
  lemma ClassifySingleLine(subjectOrig: string, body: string)
    requires '\n' !in subjectOrig
    ensures '\n' !in ClassifyCommit(subjectOrig, body).subject
  {
    var s0 := Trim(subjectOrig);
    TrimKeepsAbsence(subjectOrig, '\n');
    ScopedSingleLine(s0);
    var s2 := RewriteBracket(RewriteScoped(s0));
    BracketSingleLine(RewriteScoped(s0));
    if IsFeatureAlias(s2) {
      assert '\n' !in s2[7..];
    }
  }

  /** A subject that `classifyCommit` returns unchanged: trimmed, and no rewrite applies. */
  predicate IsCanonical(s: string) {
    IsTrimmed(s) && MatchScoped(s).None? && MatchBracket(s).None? && !IsFeatureAlias(s)
  }

  lemma CanonicalIsFixpoint(s: string, body: string)
    requires IsCanonical(s)
    ensures ClassifyCommit(s, body).subject == s
  {
    TrimOfTrimmed(s);
  }

  /** Lower-casing a `\w+` word gives a word again. */
  lemma LowerWord(w: string)
    requires IsWord(w)
    ensures IsWord(ToLowerAscii(w))
  {
  }

  /** A `type...: text` result of a bracket rewrite: starts with a word character, ends where the text ends. */
  lemma RewrittenIsTrimmed(t: string, rest: string)
    requires IsWord(t) && rest != [] && !IsSpace(rest[|rest| - 1])
    ensures var s := ToLowerAscii(t) + rest;
      IsTrimmed(s) && s[0] != '[' && s[|s| - 1] == rest[|rest| - 1]
  {
    LowerWord(t);
    var l := ToLowerAscii(t);
    assert (l + rest)[0] == l[0];
  }

  /** After the feature rewrite the subject starts with `feat(` or `feat:` and can no longer match anything. */
  lemma FeatureRewriteIsCanonical(s: string)
    requires IsTrimmed(s) && IsFeatureAlias(s)
    ensures IsCanonical(RewriteFeature(s))
  {
    var r := "feat" + s[7..];
    assert r == RewriteFeature(s);
    assert s[7..][0] == ':' || s[7..][0] == '(';
    assert r[4] == s[7];
    assert r[|r| - 1] == s[|s| - 1];
  }

  /** A trimmed subject that starts with neither `[` nor the `feature` alias is left alone. */
  lemma NoRewriteWithoutBracket(s: string)
    requires IsTrimmed(s) && (|s| == 0 || s[0] != '[')
    ensures RewriteScoped(s) == s && RewriteBracket(s) == s
  {
  }

  /** A scoped rewrite of a trimmed subject is trimmed and no longer starts with `[`. */
  lemma ScopedRewriteShape(s: string)
    requires IsTrimmed(s) && MatchScoped(s).Some?
    ensures var r := RewriteScoped(s); IsTrimmed(r) && r[0] != '['
  {
    ScopedMatchShape(s);
    var (t, scope, text) := MatchScoped(s).value;
    RewrittenIsTrimmed(t, "(" + scope + "): " + text);
  }

  /** A bracket rewrite of a trimmed subject is trimmed and no longer starts with `[`. */
  lemma BracketRewriteShape(s: string)
    requires IsTrimmed(s) && MatchBracket(s).Some?
    ensures var r := RewriteBracket(s); IsTrimmed(r) && r[0] != '['
  {
    BracketMatchShape(s);
    var (t, text) := MatchBracket(s).value;
    RewrittenIsTrimmed(t, ": " + text);
  }

  /** After the two bracket rewrites a trimmed subject is trimmed and matches neither bracket form. */
  lemma BracketRewritesDone(s0: string)
    requires IsTrimmed(s0)
    ensures var s2 := RewriteBracket(RewriteScoped(s0));
      IsTrimmed(s2) && MatchScoped(s2).None? && MatchBracket(s2).None?
  {
    var s1 := RewriteScoped(s0);
    if MatchScoped(s0).Some? {
      ScopedRewriteShape(s0);
      NoRewriteWithoutBracket(s1);
    } else if MatchBracket(s1).Some? {
      BracketRewriteShape(s1);
      NoRewriteWithoutBracket(RewriteBracket(s1));
    }
  }

  /** Whatever `classifyCommit` returns is a fixed point of it: classifying twice changes nothing. */
  lemma ClassifyIdempotent(subject: string, body: string, body2: string)
    ensures var once := ClassifyCommit(subject, body).subject;
      IsCanonical(once) && ClassifyCommit(once, body2).subject == once
  {
    var s0 := Trim(subject);
    var s2 := RewriteBracket(RewriteScoped(s0));
    BracketRewritesDone(s0);
    if IsFeatureAlias(s2) {
      FeatureRewriteIsCanonical(s2);
    }
    CanonicalIsFixpoint(RewriteFeature(s2), body2);
  }

  /** A subject that starts with neither `[` nor `feature` comes back only trimmed (e.g. `feat!: add something`). */
  lemma PlainSubjectOnlyTrimmed(subject: string, body: string)
    requires var s := Trim(subject); (|s| == 0 || s[0] != '[') && !IsFeatureAlias(s)
    ensures ClassifyCommit(subject, body).subject == Trim(subject)
  {
    NoRewriteWithoutBracket(Trim(subject));
  }

  /** `lt + tail` is a `feature` alias only when the type word is `feature` itself. */
  lemma FeatureAliasOfRewrite(lt: string, tail: string)
    requires IsWord(lt) && |tail| > 0 && (tail[0] == ':' || tail[0] == '(')
    requires ScopeThenColon(tail)
    ensures IsFeatureAlias(lt + tail) <==> lt == "feature"
  {
    var s := lt + tail;
    if lt == "feature" {
      assert s[..7] == lt && s[7..] == tail;
    } else if |lt| < 7 {
      if |s| >= 7 {
        assert s[..7][|lt|] == tail[0];
      }
    } else if |lt| > 7 {
      assert s[7..][0] == lt[7];
    } else {
      assert s[..7] == lt;
    }
  }

  /** After one space, a text that starts with a non-space and has no line break is captured from its first character. */
  lemma TailAfterSpace(s: string, i: nat)
    requires i + 1 < |s| && s[i] == ' ' && !IsSpace(s[i + 1]) && NoLineTerminator(s[i + 1..])
    ensures TailStart(s, i) == Some(i + 1)
  {
    assert IsSpace(s[i]);
    assert TailFrom(s, i + 1) == Some(i + 1);
  }

  /** The `\w+` run from index 1 is exactly `t` when `t` is a word followed by `]`. */
  lemma WordEndAt(s: string, t: string)
    requires IsWord(t) && |t| + 1 < |s| && s[1..|t| + 1] == t && s[|t| + 1] == ']'
    ensures WordEnd(s, 1) == |t| + 1
  {
    forall k | 1 <= k < |t| + 1 ensures IsWordChar(s[k]) {
      assert s[k] == s[1..|t| + 1][k - 1];
    }
  }

  /** The parts of `[TYPE] text`: the type word, the `] ` after it, and the text. */
  lemma BracketLayout(t: string, text: string)
    ensures var s := "[" + t + "] " + text;
      |s| == |t| + |text| + 3 && s[0] == '[' && s[1..|t| + 1] == t && s[|t| + 1] == ']' && s[|t| + 2] == ' ' &&
      s[|t| + 3..] == text
  {
    var s := "[" + t + "] " + text;
    PartsOfFour("[", t, "] ", text);
    assert s[|t| + 1..|t| + 3] == "] ";
  }

  /** `[TYPE] text` with `TYPE` at `1..w`: the bracket form matches, and the scoped form does not, a space following the `]`. */
  lemma BracketAtLayout(s: string, t: string, text: string)
    requires IsWord(t) && text != [] && !IsSpace(text[0]) && NoLineTerminator(text)
    requires |s| == |t| + |text| + 3 && s[0] == '[' && s[1..|t| + 1] == t && s[|t| + 1] == ']' && s[|t| + 2] == ' '
    requires s[|t| + 3..] == text
    ensures ScopedAt(s).None? && BracketAt(s) == Some((|t| + 1, |t| + 3))
  {
    WordEndAt(s, t);
    TailAfterSpace(s, |t| + 2);
  }

  lemma MatchesOfBracketForm(t: string, text: string)
    requires IsWord(t) && text != [] && !IsSpace(text[0]) && NoLineTerminator(text)
    ensures MatchScoped("[" + t + "] " + text).None?
    ensures MatchBracket("[" + t + "] " + text) == Some((t, text))
  {
    BracketLayout(t, text);
    BracketAtLayout("[" + t + "] " + text, t, text);
  }

  /** `[TYPE] text` becomes `type: text`, and `[FEATURE] text` becomes `feat: text`. */
  lemma {:induction false} BracketFormNormalised(t: string, text: string)
    requires IsWord(t) && text != [] && IsTrimmed(text) && NoLineTerminator(text)
    ensures var lt := ToLowerAscii(t);
      ClassifyCommit("[" + t + "] " + text, "").subject == (if lt == "feature" then "feat" else lt) + (": " + text)
  {
    var s := "[" + t + "] " + text;
    TrimOfTrimmed(s);
    MatchesOfBracketForm(t, text);
    var lt := ToLowerAscii(t);
    LowerWord(t);
    var tail := ": " + text;
    assert RewriteBracket(RewriteScoped(s)) == lt + tail;
    FeatureAliasOfRewrite(lt, tail);
    if lt == "feature" {
      assert (lt + tail)[7..] == tail;
    }
  }

  /** In `[TYPE](scope) text` the first `)` after the `(` closes the scope. */
  lemma ScopedParen(t: string, scope: string, text: string)
    requires ')' !in scope
    ensures IndexFrom("[" + t + "](" + scope + ") " + text, ")", |t| + 3) == |t| + 3 + |scope|
  {
    var s := "[" + t + "](" + scope + ") " + text;
    var i := |t| + 3;
    var p := i + |scope|;
    assert s[i..p] == scope && s[p..p + 2] == ") " by {
      PartsOfFour("[" + t + "](", scope, ") ", text);
    }
    ParenAfter(s, i, scope);
  }

  /** The first `)` at or after `i` closes `scope` when `scope`, free of `)`, starts at `i`. */
  lemma ParenAfter(s: string, i: nat, scope: string)
    requires i + |scope| + 2 <= |s| && s[i..i + |scope|] == scope && s[i + |scope|..i + |scope| + 2] == ") "
    requires ')' !in scope
    ensures IndexFrom(s, ")", i) == i + |scope|
  {
    var p := i + |scope|;
    assert s[p] == s[p..p + 2][0];
    FirstCharAt(s, ')', i, p);
  }

  /** The parts of `[TYPE](scope) text`: the type word, the `](`, the scope, the `) ` and the text. */
  lemma ScopedLayout(t: string, scope: string, text: string)
    ensures var s := "[" + t + "](" + scope + ") " + text;
      |s| == |t| + |scope| + |text| + 5 && s[0] == '[' && s[1..|t| + 1] == t &&
      s[|t| + 1] == ']' && s[|t| + 2] == '(' && s[|t| + 3..|t| + 3 + |scope|] == scope &&
      s[|t| + 4 + |scope|] == ' ' && s[|t| + 5 + |scope|..] == text
  {
    var s := "[" + t + "](" + scope + ") " + text;
    var a := "[" + t + "](";
    PartsOfFour(a, scope, ") ", text);
    assert s[..|a|] == a && a[1..|t| + 1] == t;
    assert s[1..|t| + 1] == a[1..|t| + 1];
    assert s[|a| + |scope|..|a| + |scope| + 2] == ") ";
  }

  /** `[TYPE](scope) text` laid out in `s`, its first `)` closing the scope: the scoped form matches. */
  lemma ScopedAtLayout(s: string, t: string, scope: string, text: string)
    requires IsWord(t) && scope != [] && text != [] && !IsSpace(text[0]) && NoLineTerminator(text)
    requires |s| == |t| + |scope| + |text| + 5 && s[0] == '[' && s[1..|t| + 1] == t
    requires s[|t| + 1] == ']' && s[|t| + 2] == '(' && s[|t| + 4 + |scope|] == ' ' && s[|t| + 5 + |scope|..] == text
    requires IndexFrom(s, ")", |t| + 3) == |t| + 3 + |scope|
    ensures ScopedAt(s) == Some((|t| + 1, |t| + 3 + |scope|, |t| + 5 + |scope|))
  {
    WordEndAt(s, t);
    TailAfterSpace(s, |t| + 4 + |scope|);
  }

  lemma MatchesOfScopedForm(t: string, scope: string, text: string)
    requires IsWord(t) && scope != [] && ')' !in scope
    requires text != [] && !IsSpace(text[0]) && NoLineTerminator(text)
    ensures MatchScoped("[" + t + "](" + scope + ") " + text) == Some((t, scope, text))
  {
    ScopedLayout(t, scope, text);
    ScopedParen(t, scope, text);
    ScopedAtLayout("[" + t + "](" + scope + ") " + text, t, scope, text);
  }

  /** `(scope)` followed by a colon satisfies the optional-scope-then-colon part of a type prefix. */
  lemma ScopeThenColonOf(scope: string, rest: string)
    requires ')' !in scope && rest != [] && rest[0] == ':'
    ensures ScopeThenColon("(" + scope + ")" + rest)
  {
    CloseParenAfterScope("(", scope, rest);
    var r := "(" + scope + ")" + rest;
    assert r[|scope| + 2] == rest[0];
  }

  /** The scoped rewrite of `[TYPE](scope) text` gives `type(scope): text`, which the bracket rewrite leaves alone. */
  lemma ScopedRewrite(t: string, scope: string, text: string)
    requires IsWord(t) && scope != [] && ')' !in scope
    requires text != [] && IsTrimmed(text) && NoLineTerminator(text)
    ensures var s := "[" + t + "](" + scope + ") " + text;
      Trim(s) == s && RewriteBracket(RewriteScoped(s)) == ToLowerAscii(t) + ("(" + scope + "): " + text)
  {
    var s := "[" + t + "](" + scope + ") " + text;
    TrimOfTrimmed(s);
    MatchesOfScopedForm(t, scope, text);
    var s1 := ToLowerAscii(t) + ("(" + scope + "): " + text);
    assert RewriteScoped(s) == s1;
    RewrittenIsTrimmed(t, "(" + scope + "): " + text);
    NoRewriteWithoutBracket(s1);
  }

  /** The `feature` rewrite on `lt + tail` shortens exactly the type word `feature`. */
  lemma FeatureStep(lt: string, tail: string)
    requires IsWord(lt) && |tail| > 0 && (tail[0] == ':' || tail[0] == '(') && ScopeThenColon(tail)
    ensures RewriteFeature(lt + tail) == (if lt == "feature" then "feat" else lt) + tail
  {
    FeatureAliasOfRewrite(lt, tail);
    if lt == "feature" {
      assert (lt + tail)[7..] == tail;
    }
  }

  /** `[TYPE](scope) text` becomes `type(scope): text`, with `feature` shortened to `feat`. */
  lemma {:induction false} ScopedFormNormalised(t: string, scope: string, text: string)
    requires IsWord(t) && scope != [] && ')' !in scope
    requires text != [] && IsTrimmed(text) && NoLineTerminator(text)
    ensures var lt := ToLowerAscii(t);
      ClassifyCommit("[" + t + "](" + scope + ") " + text, "").subject
        == (if lt == "feature" then "feat" else lt) + ("(" + scope + "): " + text)
  {
    var lt := ToLowerAscii(t);
    var tail := "(" + scope + "): " + text;
    LowerWord(t);
    assert tail == "(" + scope + ")" + (": " + text);
    ScopeThenColonOf(scope, ": " + text);
    FeatureStep(lt, tail);
    ScopedRewrite(t, scope, text);
  }
}
