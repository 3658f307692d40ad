/**
 * `formatIndentedLines`: nests the lines of a commit body under the commit's
 * changelog entry. A stack of the bullet characters seen so far decides the
 * depth: a bullet not on the stack opens a deeper level, a bullet already on
 * it closes every level above its own.
 */
module BulletIndent {
  import opened Text
  import opened Results

  /** The bullet characters `-`, `*` and `•` of the class `[-*•]`. */
  predicate IsBullet(c: char) {
    c == '-' || c == '*' || c == '\U{2022}'
  }

  /** `^\s*([-*•])\s`: only whitespace before index `i`, a bullet at `i`, whitespace after it. */
  predicate BulletAt(line: string, i: int) {
    0 <= i < |line| - 1 && AllSpace(line[..i]) && IsBullet(line[i]) && IsSpace(line[i + 1])
  }

  /**
   * `line.match(/^\s*([-*•])\s+/)`: the bullet character, if any. The greedy
   * `\s*` never has to give anything back, since a shorter run would leave a
   * space where the bullet must be.
   */
  function LeadingBullet(line: string): (r: Option<char>)
    ensures r.Some? ==> IsBullet(r.value)
  {
    var i := SkipSpaces(line, 0);
    if i + 1 < |line| && IsBullet(line[i]) && IsSpace(line[i + 1]) then Some(line[i]) else None
  }

  /**
   * The pattern matches exactly when some index has the shape `BulletAt`, and
   * the captured bullet is the character at that index (there is only one).
   */
  lemma LeadingBulletMatch(line: string)
    ensures LeadingBullet(line).Some? <==> exists i :: BulletAt(line, i)
    ensures forall i :: BulletAt(line, i) ==> LeadingBullet(line) == Some(line[i])
  {
    var i := SkipSpaces(line, 0);
    forall k | BulletAt(line, k) ensures k == i {
      forall j | 0 <= j < k ensures IsSpace(line[j]) {
        assert line[..k][j] == line[j];
      }
    }
    if i + 1 < |line| && IsBullet(line[i]) && IsSpace(line[i + 1]) {
      assert AllSpace(line[..i]);
      assert BulletAt(line, i);
    }
  }

  /** No character occurs twice. */
  predicate NoDup(s: seq<char>) {
    forall i, j :: 0 <= i < j < |s| ==> s[i] != s[j]
  }

  predicate AllBullets(s: seq<char>) {
    forall i :: 0 <= i < |s| ==> IsBullet(s[i])
  }

  /** The `while` loop: drop the top of the stack until `c` is on top. */
  function PopTo(stack: seq<char>, c: char): (r: seq<char>)
    requires c in stack
    ensures 0 < |r| <= |stack| && r == stack[..|r|] && r[|r| - 1] == c
    ensures c !in stack[|r|..]
  {
    if stack[|stack| - 1] == c then stack
    else PopTo(stack[..|stack| - 1], c)
  }

  /** What one line does to the stack: push a new bullet, pop back to a known one, or nothing. */
  function Step(stack: seq<char>, line: string): seq<char> {
    match LeadingBullet(line)
    case None => stack
    case Some(c) => if c !in stack then stack + [c] else PopTo(stack, c)
  }

  /** The stack after the lines `lines`, starting from the empty stack. */
  function StackAfter(lines: seq<string>): seq<char> {
    if lines == [] then [] else Step(StackAfter(lines[..|lines| - 1]), lines[|lines| - 1])
  }

  /** Two spaces per level, at least one level. */
  function IndentWidth(stack: seq<char>): nat {
    2 * (if |stack| == 0 then 1 else |stack|)
  }

  /** The rendering of one line, given the stack after it. */
  function RenderLine(stack: seq<char>, line: string): string {
    if LeadingBullet(line).Some? then Spaces(IndentWidth(stack)) + Trim(line)
    else Spaces(IndentWidth(stack)) + ("- " + Trim(line))
  }

  /** The `map` callback applied to every line. */
  function Rendered(lines: seq<string>): (r: seq<string>)
    ensures |r| == |lines|
  {
    seq(|lines|, i requires 0 <= i < |lines| => RenderLine(StackAfter(lines[..i + 1]), lines[i]))
  }

  lemma StackAfterStep(lines: seq<string>, n: nat)
    requires n < |lines|
    ensures StackAfter(lines[..n + 1]) == Step(StackAfter(lines[..n]), lines[n])
  {
    assert lines[..n + 1][..n] == lines[..n];
  }

  lemma RenderedStep(lines: seq<string>, n: nat)
    requires n < |lines|
    ensures Rendered(lines)[..n + 1] == Rendered(lines)[..n] + [RenderLine(StackAfter(lines[..n + 1]), lines[n])]
  {
  }

  /** The inner `while` loop: pop the stack until `c` is on top. */
  method PopUntil(stack: seq<char>, c: char) returns (r: seq<char>)
    requires c in stack
    ensures r == PopTo(stack, c)
  {
    r := stack;
    while |r| > 0 && r[|r| - 1] != c
      invariant c in r && PopTo(r, c) == PopTo(stack, c)
      decreases |r|
    {
      r := r[..|r| - 1];
    }
  }

  /** The `map` callback: update the stack for one line and render the line under it. */
  method IndentLine(stack: seq<char>, line: string) returns (st: seq<char>, text: string)
    ensures st == Step(stack, line)
    ensures text == RenderLine(st, line)
  {
    st := stack;
    var bullet := LeadingBullet(line);
    if bullet.Some? {
      var c := bullet.value;
      if c !in st {
        st := st + [c];
      } else {
        st := PopUntil(st, c);
      }
    }
    var indent := Spaces(IndentWidth(st));
    text := if bullet.Some? then indent + Trim(line) else indent + ("- " + Trim(line));
  }

  /** `formatIndentedLines(lines)`. */
  method FormatIndentedLines(lines: seq<string>) returns (out: string)
    ensures out == Join(Rendered(lines), "\n")
  {
    var indentStack: seq<char> := [];
    var rendered: seq<string> := [];
    var n := 0;
    while n < |lines|
      invariant n <= |lines|
      invariant indentStack == StackAfter(lines[..n])
      invariant rendered == Rendered(lines)[..n]
    {
      var text;
      indentStack, text := IndentLine(indentStack, lines[n]);
      StackAfterStep(lines, n);
      RenderedStep(lines, n);
      rendered := rendered + [text];
      n := n + 1;
    }
    assert rendered == Rendered(lines);
    out := Join(rendered, "\n");
  }

  /** A bullet line puts its bullet on top of the stack; any other line leaves the stack alone. */
  lemma StepTop(stack: seq<char>, line: string)
    ensures LeadingBullet(line).Some? ==>
      var r := Step(stack, line); |r| > 0 && r[|r| - 1] == LeadingBullet(line).value
    ensures LeadingBullet(line).None? ==> Step(stack, line) == stack
  {
  }

  /** A bullet already on the stack closes exactly the levels above it. */
  lemma StepReturnsToLevel(stack: seq<char>, line: string, k: nat)
    requires NoDup(stack) && k < |stack| && LeadingBullet(line) == Some(stack[k])
    ensures Step(stack, line) == stack[..k + 1]
  {
    var r := PopTo(stack, stack[k]);
    assert stack[|r| - 1] == r[|r| - 1] == stack[k];
  }

  /** The step keeps the stack free of duplicates and made of bullets. */
  lemma StepKeepsInvariant(stack: seq<char>, line: string)
    requires NoDup(stack) && AllBullets(stack)
    ensures NoDup(Step(stack, line)) && AllBullets(Step(stack, line))
  {
  }

  lemma {:induction false} StackInvariant(lines: seq<string>)
    ensures NoDup(StackAfter(lines)) && AllBullets(StackAfter(lines))
  {
    if lines != [] {
      StackInvariant(lines[..|lines| - 1]);
      StepKeepsInvariant(StackAfter(lines[..|lines| - 1]), lines[|lines| - 1]);
    }
  }

  /** A duplicate-free sequence drawn from `avail` is no longer than `avail` is large. */
  lemma {:induction false} NoDupBound(s: seq<char>, avail: set<char>)
    requires NoDup(s) && forall i :: 0 <= i < |s| ==> s[i] in avail
    ensures |s| <= |avail|
  {
    if s != [] {
      var last := s[|s| - 1];
      var rest := s[..|s| - 1];
      forall i | 0 <= i < |rest| ensures rest[i] in avail - {last} {
        assert rest[i] == s[i] && s[i] != s[|s| - 1];
      }
      NoDupBound(rest, avail - {last});
    }
  }

  /** Three bullet characters, no duplicates: at most three levels. */
  lemma DepthBound(s: seq<char>)
    requires NoDup(s) && AllBullets(s)
    ensures |s| <= 3
  {
    NoDupBound(s, {'-', '*', '\U{2022}'});
  }

  /** The stack after any prefix of the body is duplicate-free and at most three deep. */
  lemma StackAfterBounded(lines: seq<string>)
    ensures NoDup(StackAfter(lines)) && |StackAfter(lines)| <= 3
  {
    StackInvariant(lines);
    DepthBound(StackAfter(lines));
  }

  /** After `trim`, a bullet line starts with its bullet. */
  lemma TrimmedBulletLine(line: string)
    requires LeadingBullet(line).Some?
    ensures |Trim(line)| > 0 && Trim(line)[0] == LeadingBullet(line).value
  {
    var i := SkipSpaces(line, 0);
    var j := BackSpaces(line, i, |line|);
    assert IsBullet(line[i]) && !IsSpace(line[i]);
  }

  /**
   * Line `k` of the output is the indent of its depth, two spaces per level
   * and at least two, followed by a non-space character: the bullet of a
   * bullet line, or the `-` added in front of any other line.
   */
  lemma RenderedIndent(lines: seq<string>, k: nat)
    requires k < |lines|
    ensures var st := StackAfter(lines[..k + 1]);
      var w := IndentWidth(st);
      2 <= w <= 6 &&
      |Rendered(lines)[k]| > w && Rendered(lines)[k][..w] == Spaces(w) && !IsSpace(Rendered(lines)[k][w])
  {
    StackAfterBounded(lines[..k + 1]);
    var st := StackAfter(lines[..k + 1]);
    var w := IndentWidth(st);
    var line := lines[k];
    if LeadingBullet(line).Some? {
      TrimmedBulletLine(line);
      assert Rendered(lines)[k] == Spaces(w) + Trim(line);
    } else {
      assert Rendered(lines)[k] == Spaces(w) + ("- " + Trim(line));
    }
  }

  /** Joined on newlines, the output splits back into exactly one line per input line. */
  lemma {:induction false} OneOutputLinePerInputLine(lines: seq<string>)
    requires |lines| > 0
    requires forall k :: 0 <= k < |lines| ==> '\n' !in lines[k]
    ensures SplitOn(Join(Rendered(lines), "\n"), "\n") == Rendered(lines)
  {
    var r := Rendered(lines);
    forall k | 0 <= k < |r| ensures '\n' !in r[k] {
      RenderLineKeepsLine(StackAfter(lines[..k + 1]), lines[k]);
    }
    SplitJoin(r, '\n');
  }

  /** Rendering a line adds no line break. */
  lemma RenderLineKeepsLine(stack: seq<char>, line: string)
    requires '\n' !in line
    ensures '\n' !in RenderLine(stack, line)
  {
    TrimKeepsAbsence(line, '\n');
  }
}
