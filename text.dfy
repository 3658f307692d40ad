/**
 * String primitives that the release scripts get from JavaScript: `trim`,
 * `split`, `join`, `includes`, `startsWith`, ASCII `toLowerCase`, the `\s`,
 * `\w` and `\d` regex classes, and decimal `Number`/`parseInt` on digit
 * strings together with their inverse, template-literal formatting of a
 * non-negative integer.
 */
module Text {

  /** ECMAScript WhiteSpace or LineTerminator: what `trim` removes and `\s` matches. */
  predicate IsSpace(c: char) {
    var n := c as int;
    (9 <= n <= 13) || n == 32 || n == 0xA0 || n == 0x1680 || (0x2000 <= n <= 0x200A)
    || n == 0x2028 || n == 0x2029 || n == 0x202F || n == 0x205F || n == 0x3000 || n == 0xFEFF
  }

  /** ECMAScript LineTerminator: the characters a regex `.` does not match. */
  predicate IsLineTerminator(c: char) {
    c == '\n' || c == '\r' || c as int == 0x2028 || c as int == 0x2029
  }

  /** The regex class `\w`. */
  predicate IsWordChar(c: char) {
    ('a' <= c <= 'z') || ('A' <= c <= 'Z') || ('0' <= c <= '9') || c == '_'
  }

  /** The regex class `\d`. */
  predicate IsDigit(c: char) {
    '0' <= c <= '9'
  }

  /** A non-empty run of decimal digits, what `\d+` matches. */
  predicate IsDigits(s: string) {
    |s| > 0 && forall i :: 0 <= i < |s| ==> IsDigit(s[i])
  }

  predicate AllSpace(s: string) {
    forall i :: 0 <= i < |s| ==> IsSpace(s[i])
  }

  predicate NoLineTerminator(s: string) {
    forall i :: 0 <= i < |s| ==> !IsLineTerminator(s[i])
  }

  /** Neither end is whitespace: the shape of every `trim` result. */
  predicate IsTrimmed(s: string) {
    s == [] || (!IsSpace(s[0]) && !IsSpace(s[|s| - 1]))
  }

  /** First index at or after `i` whose character is not whitespace (or `|s|`). */
  function SkipSpaces(s: string, i: nat): (r: nat)
    requires i <= |s|
    ensures i <= r <= |s|
    ensures forall k :: i <= k < r ==> IsSpace(s[k])
    ensures r < |s| ==> !IsSpace(s[r])
    decreases |s| - i
  {
    if i == |s| || !IsSpace(s[i]) then i else SkipSpaces(s, i + 1)
  }

  /** Largest end `r` in `lo..j` such that `s[r..j]` is all whitespace. */
  function BackSpaces(s: string, lo: nat, j: nat): (r: nat)
    requires lo <= j <= |s|
    ensures lo <= r <= j
    ensures forall k :: r <= k < j ==> IsSpace(s[k])
    ensures r > lo ==> !IsSpace(s[r - 1])
  {
    if j == lo || !IsSpace(s[j - 1]) then j else BackSpaces(s, lo, j - 1)
  }

  /** `s.trim()`: drops leading and trailing whitespace and nothing else. */
  function Trim(s: string): (r: string)
    ensures IsTrimmed(r)
    ensures exists i, j :: 0 <= i <= j <= |s| && r == s[i..j] && AllSpace(s[..i]) && AllSpace(s[j..])
  {
    var i := SkipSpaces(s, 0);
    var j := BackSpaces(s, i, |s|);
    assert AllSpace(s[..i]) && AllSpace(s[j..]);
    s[i..j]
  }

  /** `s.trimStart()` as far as it is needed: the text after the leading whitespace. */
  function TrimStart(s: string): (r: string)
    ensures r == [] || !IsSpace(r[0])
  {
    s[SkipSpaces(s, 0)..]
  }

  lemma TrimOfTrimmed(s: string)
    requires IsTrimmed(s)
    ensures Trim(s) == s
  {
  }

  /** Whatever `trim` returns is a piece of its input, so it holds no character the input lacks. */
  lemma TrimKeepsAbsence(s: string, c: char)
    requires c !in s
    ensures c !in Trim(s)
  {
  }

  lemma TrimIdempotent(s: string)
    ensures Trim(Trim(s)) == Trim(s)
  {
    TrimOfTrimmed(Trim(s));
  }

  /** Whitespace around a trimmed, non-empty core is exactly what `trim` removes. */
  lemma TrimPadded(pre: string, core: string, post: string)
    requires AllSpace(pre) && AllSpace(post) && core != [] && IsTrimmed(core)
    ensures Trim(pre + core + post) == core
  {
    var s := pre + core + post;
    var i := SkipSpaces(s, 0);
    assert s[|pre|] == core[0];
    forall k | 0 <= k < |pre| ensures IsSpace(s[k]) {
      assert s[k] == pre[k];
    }
    assert i == |pre|;
    var j := BackSpaces(s, i, |s|);
    assert s[|pre| + |core| - 1] == core[|core| - 1];
    forall k | |pre| + |core| <= k < |s| ensures IsSpace(s[k]) {
      assert s[k] == post[k - |pre| - |core|];
    }
    BackSpacesAt(s, i, |s|, |pre| + |core|);
    assert s[|pre|..|pre| + |core|] == core;
  }

  /** `BackSpaces` stops right after the last non-space. */
  lemma {:induction false} BackSpacesAt(s: string, lo: nat, j: nat, m: nat)
    requires lo < m <= j <= |s| && !IsSpace(s[m - 1])
    requires forall k :: m <= k < j ==> IsSpace(s[k])
    ensures BackSpaces(s, lo, j) == m
    decreases j
  {
    if j > m {
      BackSpacesAt(s, lo, j - 1, m);
    }
  }

  /** `s.startsWith(p)`. */
  predicate StartsWith(s: string, p: string) {
    |p| <= |s| && s[..|p|] == p
  }

  predicate EndsWith(s: string, p: string) {
    |p| <= |s| && s[|s| - |p|..] == p
  }

  /** `d` occurs in `s` starting at position `k`. */
  predicate OccursAt(s: string, d: string, k: nat) {
    k + |d| <= |s| && s[k..k + |d|] == d
  }

  /** Position of the first occurrence of `d` in `s` at or after `i`, or `|s|` when there is none. */
  function IndexFrom(s: string, d: string, i: nat): (r: nat)
    requires |d| > 0 && i <= |s|
    ensures i <= r <= |s|
    ensures r < |s| ==> OccursAt(s, d, r)
    ensures forall k :: i <= k < r ==> !OccursAt(s, d, k)
    decreases |s| - i
  {
    if i + |d| > |s| then |s|
    else if s[i..i + |d|] == d then i
    else IndexFrom(s, d, i + 1)
  }

  /** The first `c` at or after `i` is at `p` when `s[i..p]` holds none and `s[p]` is one. */
  lemma FirstCharAt(s: string, c: char, i: nat, p: nat)
    requires i <= p < |s| && s[p] == c && c !in s[i..p]
    ensures IndexFrom(s, [c], i) == p
  {
    forall k | i <= k < p ensures !OccursAt(s, [c], k) {
      assert s[k] == s[i..p][k - i];
      assert s[k..k + 1] == [s[k]];
    }
    assert s[p..p + 1] == [c];
    assert OccursAt(s, [c], p);
  }

  /** `(scope)` followed by `tail` has its first `)` right after the scope. */
  lemma CloseParenAfterScope(pre: string, scope: string, post: string)
    requires ')' !in scope
    ensures IndexFrom(pre + scope + ")" + post, ")", |pre|) == |pre| + |scope|
  {
    var s := pre + scope + ")" + post;
    var p := |pre| + |scope|;
    assert s[|pre|..p] == scope;
    FirstCharAt(s, ')', |pre|, p);
  }

  /** Position of the first occurrence of `d` in `s`, or `|s|` when there is none. */
  function IndexOf(s: string, d: string): (r: nat)
    requires |d| > 0
    ensures r <= |s|
    ensures r < |s| ==> OccursAt(s, d, r)
    ensures forall k :: 0 <= k < r ==> !OccursAt(s, d, k)
  {
    IndexFrom(s, d, 0)
  }

  /** `s.includes(d)`. */
  predicate Contains(s: string, d: string)
    requires |d| > 0
  {
    IndexOf(s, d) < |s|
  }

  lemma IndexOfChar(a: string, c: char, b: string)
    requires c !in a
    ensures IndexOf(a + [c] + b, [c]) == |a|
  {
    var s := a + [c] + b;
    assert OccursAt(s, [c], |a|);
    forall k | 0 <= k < |a| ensures !OccursAt(s, [c], k) {
      assert s[k..k + 1] == [a[k]];
    }
  }

  /** `s.split(d)` for a non-empty separator: the pieces between non-overlapping occurrences, left to right. */
  function SplitOn(s: string, d: string): (r: seq<string>)
    requires |d| > 0
    ensures |r| >= 1
    ensures |d| == 1 ==> forall k :: 0 <= k < |r| ==> d[0] !in r[k]
    decreases |s|
  {
    var i := IndexOf(s, d);
    if i == |s| then
      assert |d| == 1 ==> d[0] !in s by {
        if |d| == 1 && d[0] in s {
          var k :| 0 <= k < |s| && s[k] == d[0];
          assert OccursAt(s, d, k);
        }
      }
      [s]
    else
      var rest := SplitOn(s[i + |d|..], d);
      assert |d| == 1 ==> d[0] !in s[..i] by {
        if |d| == 1 && d[0] in s[..i] {
          var k :| 0 <= k < i && s[..i][k] == d[0];
          assert OccursAt(s, d, k);
        }
      }
      [s[..i]] + rest
  }

  /** Joining the pieces of a split with the same separator gives the string back. */
  lemma {:induction false} JoinOfSplit(s: string, d: string)
    requires |d| > 0
    ensures Join(SplitOn(s, d), d) == s
    decreases |s|
  {
    var i := IndexOf(s, d);
    if i < |s| {
      var head, tail := s[..i], s[i + |d|..];
      var rest := SplitOn(tail, d);
      JoinOfSplit(tail, d);
      assert SplitOn(s, d) == [head] + rest;
      JoinCons(head, rest, d);
      SliceAround(s, i, d);
    }
  }

  lemma JoinCons(x: string, rest: seq<string>, d: string)
    requires |rest| >= 1
    ensures Join([x] + rest, d) == x + d + Join(rest, d)
  {
    assert ([x] + rest)[1..] == rest;
  }

  lemma SliceAround(s: string, i: nat, d: string)
    requires i + |d| <= |s| && OccursAt(s, d, i)
    ensures s == s[..i] + d + s[i + |d|..]
  {
  }

  /** `xs.join(d)`; the empty list joins to the empty string. */
  function Join(xs: seq<string>, d: string): string {
    if |xs| == 0 then ""
    else if |xs| == 1 then xs[0]
    else xs[0] + d + Join(xs[1..], d)
  }

  /** Splitting a join on a one-character separator that no piece contains gives the pieces back. */
  lemma {:induction false} SplitJoin(xs: seq<string>, c: char)
    requires |xs| >= 1
    requires forall k :: 0 <= k < |xs| ==> c !in xs[k]
    ensures SplitOn(Join(xs, [c]), [c]) == xs
  {
    if |xs| == 1 {
      var x := xs[0];
      forall k | 0 <= k < |x| ensures !OccursAt(x, [c], k) {
        assert x[k..k + 1] == [x[k]];
      }
    } else {
      var s := Join(xs, [c]);
      var tail := Join(xs[1..], [c]);
      assert s == xs[0] + [c] + tail;
      IndexOfChar(xs[0], c, tail);
      assert s[|xs[0]| + 1..] == tail;
      assert s[..|xs[0]|] == xs[0];
      SplitJoin(xs[1..], c);
      assert xs == [xs[0]] + xs[1..];
    }
  }

  /** Splitting `a + [c] + b` on `c`, when `a` has no `c`, gives `a` and then the pieces of `b`. */
  lemma SplitCons(a: string, c: char, b: string)
    requires c !in a
    ensures SplitOn(a + [c] + b, [c]) == [a] + SplitOn(b, [c])
  {
    var s := a + [c] + b;
    IndexOfChar(a, c, b);
    assert s[|a| + 1..] == b;
    assert s[..|a|] == a;
  }

  /** Two leading pieces free of `c`, each followed by `c`, come off a split first. */
  lemma SplitAfterTwo(a: string, c: char, b: string, rest: string)
    requires c !in a && c !in b
    ensures SplitOn(a + [c] + b + [c] + rest, [c]) == [a, b] + SplitOn(rest, [c])
  {
    var tail := b + [c] + rest;
    assert a + [c] + b + [c] + rest == a + [c] + tail;
    SplitCons(a, c, tail);
    SplitCons(b, c, rest);
  }

  /** `d` does not occur in `s`. */
  predicate Lacks(s: string, d: string)
    requires |d| > 0
  {
    forall k :: 0 <= k <= |s| ==> !OccursAt(s, d, k)
  }

  /** Where the second, third and fourth parts of `a + b + c + d` sit. */
  lemma PartsOfFour(a: string, b: string, c: string, d: string)
    ensures var s := a + b + c + d;
      s[|a|..|a| + |b|] == b && s[|a| + |b|..|a| + |b| + |c|] == c && s[|a| + |b| + |c|..] == d
  {
  }

  lemma SliceThree(s: string, i: nat, j: nat)
    requires i <= j <= |s|
    ensures s == s[..i] + s[i..j] + s[j..]
  {
  }

  /** A string without the first character of `d` lacks `d`. */
  lemma LacksFirstChar(s: string, d: string)
    requires |d| > 0 && d[0] !in s
    ensures Lacks(s, d)
  {
    forall k | 0 <= k <= |s| ensures !OccursAt(s, d, k) {
      if k + |d| <= |s| {
        assert s[k..k + |d|][0] == s[k] != d[0];
      }
    }
  }

  lemma IndexOfLacking(s: string, d: string)
    requires |d| > 0 && Lacks(s, d)
    ensures IndexOf(s, d) == |s|
  {
  }

  /**
   * The first occurrence of `d` in `a + d + b` is the one after `a` when
   * `a` lacks `d` and ends in a character that `d` does not hold.
   */
  lemma IndexOfSeparator(a: string, d: string, b: string)
    requires |d| > 0 && Lacks(a, d) && (a == [] || a[|a| - 1] !in d)
    ensures IndexOf(a + d + b, d) == |a|
  {
    var s := a + d + b;
    assert s[|a|..|a| + |d|] == d;
    assert OccursAt(s, d, |a|);
    forall k | 0 <= k < |a| ensures !OccursAt(s, d, k) {
      if k + |d| <= |a| {
        assert s[k..k + |d|] == a[k..k + |d|];
        assert !OccursAt(a, d, k);
      } else if k + |d| <= |s| {
        assert s[k..k + |d|][|a| - 1 - k] == a[|a| - 1];
        assert a[|a| - 1] in s[k..k + |d|];
      }
    }
  }

  /** `d` is absent from `p + x + q` when it is absent from `x` and `p`, `q` hold none of its characters. */
  lemma LacksPadded(p: string, x: string, q: string, d: string)
    requires |d| > 0 && Lacks(x, d)
    requires forall i :: 0 <= i < |p| ==> p[i] !in d
    requires forall i :: 0 <= i < |q| ==> q[i] !in d
    ensures Lacks(p + x + q, d)
  {
    var s := p + x + q;
    forall k | 0 <= k <= |s| ensures !OccursAt(s, d, k) {
      if k + |d| <= |s| {
        if k < |p| {
          assert s[k..k + |d|][0] == p[k];
          assert p[k] in s[k..k + |d|];
        } else if k + |d| <= |p| + |x| {
          assert s[k..k + |d|] == x[k - |p|..k - |p| + |d|];
          assert !OccursAt(x, d, k - |p|);
        } else if k < |p| + |x| {
          assert s[k..k + |d|][|p| + |x| - k] == q[0];
          assert q[0] in s[k..k + |d|];
        } else {
          assert s[k..k + |d|][0] == q[k - |p| - |x|];
          assert q[k - |p| - |x|] in s[k..k + |d|];
        }
      }
    }
  }

  /**
   * Splitting a join gives the pieces back when no piece holds the
   * separator and every piece but the last ends in a character outside it.
   */
  lemma {:induction false} SplitJoinOn(xs: seq<string>, d: string)
    requires |d| > 0 && |xs| >= 1
    requires forall k :: 0 <= k < |xs| ==> Lacks(xs[k], d)
    requires forall k :: 0 <= k < |xs| - 1 ==> xs[k] != [] && xs[k][|xs[k]| - 1] !in d
    ensures SplitOn(Join(xs, d), d) == xs
  {
    if |xs| == 1 {
      IndexOfLacking(xs[0], d);
    } else {
      var a := xs[0];
      var rest := Join(xs[1..], d);
      var s := Join(xs, d);
      assert s == a + d + rest;
      IndexOfSeparator(a, d, rest);
      assert s[..|a|] == a;
      assert s[|a| + |d|..] == rest;
      SplitJoinOn(xs[1..], d);
      assert xs == [a] + xs[1..];
    }
  }

  /** The last piece of splitting `p + [c] + q` on `c`, when `q` has no `c`, is `q`. */
  lemma SplitLastPiece(p: string, c: char, q: string)
    requires c !in q
    ensures var r := SplitOn(p + [c] + q, [c]); |r| >= 2 && r[|r| - 1] == q
  {
    var s := p + [c] + q;
    assert s[|p|] == c && s[|p| + 1..] == q;
    SplitAfterLast(s, |p|, c);
  }

  /** When `s[i]` is the last `c` in `s`, the last piece of the split on `c` is what follows it. */
  lemma {:induction false} SplitAfterLast(s: string, i: nat, c: char)
    requires i < |s| && s[i] == c && c !in s[i + 1..]
    ensures var r := SplitOn(s, [c]); |r| >= 2 && r[|r| - 1] == s[i + 1..]
    decreases |s|
  {
    var j := IndexOf(s, [c]);
    assert OccursAt(s, [c], i) by { assert s[i..i + 1] == [c]; }
    var tail := s[j + 1..];
    assert SplitOn(s, [c]) == [s[..j]] + SplitOn(tail, [c]);
    if j == i {
      SplitWithout(tail, c);
    } else {
      assert tail[i - j - 1] == c && tail[i - j..] == s[i + 1..];
      SplitAfterLast(tail, i - j - 1, c);
    }
  }

  /** A string without `c` splits on `c` into itself alone. */
  lemma SplitWithout(s: string, c: char)
    requires c !in s
    ensures SplitOn(s, [c]) == [s]
  {
    forall k | 0 <= k < |s| ensures !OccursAt(s, [c], k) {
      assert s[k..k + 1] == [s[k]];
    }
  }


  /** Keeps the non-empty strings, in order: `.filter(Boolean)` on a list of strings. */
  function NonEmpty(xs: seq<string>): (r: seq<string>)
    ensures |r| <= |xs|
    ensures forall k :: 0 <= k < |r| ==> r[k] != "" && r[k] in xs
    ensures forall x :: x in xs && x != "" ==> x in r
  {
    if xs == [] then []
    else if xs[0] == "" then NonEmpty(xs[1..])
    else [xs[0]] + NonEmpty(xs[1..])
  }

  /** Filtering one more string keeps it exactly when it is non-empty: order and repeats are kept. */
  lemma {:induction false} NonEmptyAppend(xs: seq<string>, x: string)
    ensures NonEmpty(xs + [x]) == NonEmpty(xs) + (if x == "" then [] else [x])
  {
    if xs != [] {
      assert (xs + [x])[1..] == xs[1..] + [x];
      NonEmptyAppend(xs[1..], x);
    }
  }

  /** Non-empty strings followed by one empty string filter to themselves. */
  lemma {:induction false} NonEmptyOfNonEmpty(xs: seq<string>)
    requires forall k :: 0 <= k < |xs| ==> xs[k] != ""
    ensures NonEmpty(xs + [""]) == xs
  {
    if xs != [] {
      assert (xs + [""])[1..] == xs[1..] + [""];
      NonEmptyOfNonEmpty(xs[1..]);
      assert xs == [xs[0]] + xs[1..];
    }
  }

  function LowerChar(c: char): char {
    if 'A' <= c <= 'Z' then (c as int + 32) as char else c
  }

  /** `toLowerCase` on ASCII letters; other letters are left as they are. */
  function ToLowerAscii(s: string): (r: string)
    ensures |r| == |s| && forall i :: 0 <= i < |s| ==> r[i] == LowerChar(s[i])
  {
    seq(|s|, i requires 0 <= i < |s| => LowerChar(s[i]))
  }

  /** `" ".repeat(n)`. */
  function Spaces(n: nat): (r: string)
    ensures |r| == n && forall i :: 0 <= i < n ==> r[i] == ' '
  {
    seq(n, i => ' ')
  }

  function DigitChar(d: nat): char
    requires d < 10
  {
    ('0' as int + d) as char
  }

  /** `Number(s)` (and `parseInt(s, 10)`) on a string of decimal digits. */
  function DigitsValue(s: string): nat
    requires forall i :: 0 <= i < |s| ==> IsDigit(s[i])
  {
    if s == [] then 0
    else
      assert IsDigit(s[|s| - 1]);
      DigitsValue(s[..|s| - 1]) * 10 + (s[|s| - 1] as int - '0' as int)
  }

  /** `${n}` for a non-negative integer: decimal digits without leading zeros. */
  function NatToString(n: nat): (r: string)
    ensures IsDigits(r)
  {
    if n < 10 then [DigitChar(n)]
    else NatToString(n / 10) + [DigitChar(n % 10)]
  }

  lemma {:induction false} NatToStringRoundTrip(n: nat)
    ensures DigitsValue(NatToString(n)) == n
  {
    if n >= 10 {
      var s := NatToString(n);
      assert s[..|s| - 1] == NatToString(n / 10);
      NatToStringRoundTrip(n / 10);
    }
  }

  lemma NatToStringHasNo(n: nat, c: char)
    requires !IsDigit(c)
    ensures c !in NatToString(n)
  {
  }
}
