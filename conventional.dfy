/**
 * What the changelog renderer and the bump detector share about a commit:
 * the classified record `{subject, isBreaking}` and the regex shape
 * `^type(\([^)]*\))?:` that recognises a conventional-commit type, with or
 * without a parenthesised scope.
 */
module Conventional {
  import opened Text

  /** The value `classifyCommit` returns. */
  datatype ClassifiedCommit = ClassifiedCommit(subject: string, isBreaking: bool)

  /**
   * `r` starts with `(\([^)]*\))?:`. The optional group is tried first: it
   * needs a `(`, then everything up to the first `)`, then a `:`; without it
   * the first character must be the `:`. Backtracking cannot find another
   * match, because `[^)]*` cannot step over a `)`.
   */
  predicate ScopeThenColon(r: string) {
    |r| > 0 &&
    (r[0] == ':' ||
     (r[0] == '(' && var p := IndexFrom(r, ")", 1); p + 1 < |r| && r[p + 1] == ':'))
  }

  /**
   * `^t(\([^)]*\))?:` matched against `s` for a lower-case type word `t`,
   * with the `i` flag when `ignoreCase` holds (JavaScript folds only ASCII
   * letters onto ASCII letters under that flag).
   */
  predicate HasTypePrefix(s: string, t: string, ignoreCase: bool) {
    |t| <= |s| &&
    (if ignoreCase then ToLowerAscii(s[..|t|]) == t else s[..|t|] == t) &&
    ScopeThenColon(s[|t|..])
  }
}
